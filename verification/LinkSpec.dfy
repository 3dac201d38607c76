/** What linking a module means: each LOT entry and each .data word ("slot") takes, in table order,
    the patches of the relocations that target it (app/udynlink/udynlink.c:252-310). */
module LinkSpec {
  import opened Wrappers
  import opened Bytes
  import opened ModuleImage

  datatype LoadStatus =
    | Success | InvalidModule | InvalidSign | RamLenLow | OutOfMemory | BadRelocationTable | UnknownSymbol

  /** A relocation target: the k-th LOT entry or the k-th word of .data. */
  datatype Slot = LotSlot(k: nat) | DataSlot(k: nat)

  /** A relocation entry with its symbol looked up: a top-bit entry adds the data base and subtracts `v`,
      a plain one stores the address of its symbol. */
  datatype Order =
    | Rebase(slot: Slot, v: nat)
    | Refer(slot: Slot, sym: Option<Sym>)

  datatype Patch = Put(value: word) | Bump(delta: word) | Reject(error: LoadStatus)

  /** The host's addresses of the names it offers to modules (app/src/plc_loader.c:663-704). */
  type Externs = map<seq<byte>, word>

  function Resolve(externs: Externs, name: seq<byte>): word {
    if name in externs then externs[name] else 0
  }

  /** The addresses of code and data in one load, and the names the host offers. */
  datatype Env = Env(externs: Externs, code: word, data: word)

  /** offset_sym: local and exported symbols are relative to their section. */
  function OffsetValue(s: Sym, code: word, data: word): word {
    if s.typ == Local || s.typ == Exported then
      U32(s.val + if s.location == InCode then code else data)
    else
      s.val
  }

  function PatchFor(sym: Option<Sym>, env: Env): Patch {
    match sym
    case None => Reject(BadRelocationTable)
    case Some(s) =>
      match s.typ
      case Local => Put(OffsetValue(s, env.code, env.data))
      case Exported => Put(OffsetValue(s, env.code, env.data))
      case Extern =>
        if Resolve(env.externs, s.name) > 0 then Put(Resolve(env.externs, s.name)) else Reject(UnknownSymbol)
      case ModuleName => Reject(BadRelocationTable)
  }

  function PatchOf(o: Order, env: Env): Patch {
    match o
    case Rebase(_, v) => Bump(U32(env.data - v))
    case Refer(_, sym) => PatchFor(sym, env)
  }

  function Patched(w: word, p: Patch): word {
    match p
    case Put(v) => v
    case Bump(d) => U32(w + d)
    case Reject(_) => w
  }

  /** The value of slot `s`, first holding `w0`, after the first `n` relocations in table order. */
  function SlotAfter(orders: seq<Order>, env: Env, s: Slot, w0: word, n: nat): word
    requires n <= |orders|
  {
    if n == 0 then w0
    else
      var w := SlotAfter(orders, env, s, w0, n - 1);
      if orders[n - 1].slot == s then Patched(w, PatchOf(orders[n - 1], env)) else w
  }

  // ---------------------------------------------------------------- the relocation table of a module file

  function SlotOf(h: Header, lotOffset: word): Slot {
    if lotOffset < h.numLot then LotSlot(lotOffset) else DataSlot(lotOffset - h.numLot)
  }

  /** A relocation entry read against the module at address `a`. */
  function OrderOf(m: seq<byte>, a: nat, rel: Rel): Order
    requires TablesInside(m, a)
  {
    var slot := SlotOf(HeaderAt(m, a), rel.lotOffset);
    if rel.symtOffset >= DATA_RELOCATION then Rebase(slot, rel.symtOffset % DATA_RELOCATION)
    else Refer(slot, SymAt(m, a, rel.symtOffset))
  }

  function Orders(img: seq<byte>): (os: seq<Order>)
    requires TablesInside(img, 0)
    ensures |os| == HeaderAt(img, 0).numRels
  {
    seq(HeaderAt(img, 0).numRels, i requires 0 <= i < HeaderAt(img, 0).numRels => OrderOf(img, 0, RelAt(img, 0, i)))
  }

  /** A relocation that is applied has its target word in the LOT or in .data, and only a plain one targets the LOT. */
  predicate TargetInside(h: Header, o: Order) {
    match o.slot
    case LotSlot(k) => k < h.numLot && o.Refer?
    case DataSlot(k) => 4 * k + 4 <= h.dataSize
  }

  /** The header, relocation table and symbol table of a module file. */
  function Tables(img: seq<byte>): seq<byte>
    requires |img| >= HEADER_SIZE && CodeOffset(HeaderAt(img, 0)) <= |img|
  {
    img[..CodeOffset(HeaderAt(img, 0))]
  }

  /** The module file as app/udynlink/udynlink.h:34-48 describes it: the parts have the announced sizes, names end
      inside the symbol table, applied relocations have their target in the module, no size sum reaches 2^32. */
  ghost predicate WellFormed(img: seq<byte>, externs: Externs) {
    && |img| >= HEADER_SIZE
    && var h := HeaderAt(img, 0);
       && |img| == FileSize(h)
       && 4 * h.numLot + FileSize(h) + h.bssSize < 0x1_0000_0000
       && TablesInside(Tables(img), 0)
       && NamesTerminated(Tables(img), 0)
       && forall i :: 0 <= i < |Orders(Tables(img))| && OrderStatus(Orders(Tables(img))[i], externs) == Success
            ==> TargetInside(h, Orders(Tables(img))[i])
  }

  // ---------------------------------------------------------------- the verdict

  /** The error a relocation raises, or Success; it does not depend on where the module is placed. */
  function OrderStatus(o: Order, externs: Externs): LoadStatus {
    match PatchOf(o, Env(externs, 0, 0))
    case Reject(e) => e
    case _ => Success
  }

  /** The result of processing the relocations from entry `i` on. */
  function LinkStatus(orders: seq<Order>, externs: Externs, i: nat): LoadStatus
    requires i <= |orders|
    decreases |orders| - i
  {
    if i == |orders| then Success
    else if OrderStatus(orders[i], externs) != Success then OrderStatus(orders[i], externs)
    else LinkStatus(orders, externs, i + 1)
  }

  /** Entry `i` is the first one, from entry `from` on, that is rejected. */
  predicate FirstBad(orders: seq<Order>, externs: Externs, from: nat, i: nat) {
    && from <= i < |orders|
    && OrderStatus(orders[i], externs) != Success
    && forall j :: from <= j < i ==> OrderStatus(orders[j], externs) == Success
  }

  lemma RejectionIgnoresBases(o: Order, env: Env)
    ensures PatchOf(o, env).Reject? <==> OrderStatus(o, env.externs) != Success
    ensures PatchOf(o, env).Reject? ==> PatchOf(o, env).error == OrderStatus(o, env.externs)
    ensures o.Rebase? ==> !PatchOf(o, env).Reject?
  {
  }

  /** Linking succeeds if and only if every entry is good; otherwise the result is the error of the first bad one. */
  lemma {:induction false} LinkStatusMeaning(orders: seq<Order>, externs: Externs, from: nat)
    requires from <= |orders|
    ensures LinkStatus(orders, externs, from) == Success <==>
            forall i :: from <= i < |orders| ==> OrderStatus(orders[i], externs) == Success
    ensures forall i: nat :: FirstBad(orders, externs, from, i) ==>
              LinkStatus(orders, externs, from) == OrderStatus(orders[i], externs)
    decreases |orders| - from
  {
    if from < |orders| && OrderStatus(orders[from], externs) == Success {
      LinkStatusMeaning(orders, externs, from + 1);
      forall i: nat | FirstBad(orders, externs, from, i)
        ensures LinkStatus(orders, externs, from) == OrderStatus(orders[i], externs)
      {
        assert FirstBad(orders, externs, from + 1, i);
      }
    }
  }

  // ---------------------------------------------------------------- closed forms of a slot's value

  lemma {:induction false} UntargetedSlot(orders: seq<Order>, env: Env, s: Slot, w0: word, n: nat)
    requires n <= |orders|
    requires forall i :: 0 <= i < n ==> orders[i].slot != s
    ensures SlotAfter(orders, env, s, w0, n) == w0
  {
    if n > 0 {
      UntargetedSlot(orders, env, s, w0, n - 1);
    }
  }

  /** Entries that target other slots do not matter: the last entry that targets a slot decides. */
  lemma {:induction false} LastTarget(orders: seq<Order>, env: Env, s: Slot, w0: word, i: nat, n: nat)
    requires i < n <= |orders|
    requires orders[i].slot == s && forall j :: i < j < n ==> orders[j].slot != s
    ensures SlotAfter(orders, env, s, w0, n) == Patched(SlotAfter(orders, env, s, w0, i), PatchOf(orders[i], env))
  {
    if i + 1 < n {
      LastTarget(orders, env, s, w0, i, n - 1);
    }
  }

  // ---------------------------------------------------------------- the position-independent linker

  /** A word as a linear form in the yet unknown addresses of code and data. */
  datatype Reloc = Reloc(k: int, nCode: int, nData: int)

  function Eval(r: Reloc, code: word, data: word): word {
    U32(r.k + r.nCode * code + r.nData * data)
  }

  /** How far the word moves when the code moves by `dCode` and the data by `dData`. */
  function Shift(r: Reloc, dCode: int, dData: int): int {
    r.nCode * dCode + r.nData * dData
  }

  /** The abstract effect of one relocation; an address is never needed. */
  function SymbolicPatched(r: Reloc, o: Order, externs: Externs): Reloc {
    match o
    case Rebase(_, v) => Reloc(r.k - v, r.nCode, r.nData + 1)
    case Refer(_, None) => r
    case Refer(_, Some(s)) =>
      match s.typ
      case Extern => if Resolve(externs, s.name) > 0 then Reloc(Resolve(externs, s.name), 0, 0) else r
      case ModuleName => r
      case _ => if s.location == InCode then Reloc(s.val, 1, 0) else Reloc(s.val, 0, 1)
  }

  /** The abstract linker's value of a slot after `n` relocations. */
  function SymbolicAfter(orders: seq<Order>, externs: Externs, s: Slot, r0: Reloc, n: nat): Reloc
    requires n <= |orders|
  {
    if n == 0 then r0
    else
      var r := SymbolicAfter(orders, externs, s, r0, n - 1);
      if orders[n - 1].slot == s then SymbolicPatched(r, orders[n - 1], externs) else r
  }

  lemma BumpSum(x: int, y: int)
    ensures U32(U32(x) + U32(y)) == U32(x + y)
  {
    U32Add(x, U32(y));
    U32Add(y, x);
  }

  lemma EvalBump(r: Reloc, v: int, code: word, data: word)
    ensures U32(Eval(r, code, data) + U32(data - v)) == Eval(Reloc(r.k - v, r.nCode, r.nData + 1), code, data)
  {
    var c, d := r.nCode * code, r.nData * data;
    assert (r.nData + 1) * data == d + data;
    BumpSum(r.k + c + d, data - v);
  }

  lemma EvalConstant(k: word, code: word, data: word)
    ensures Eval(Reloc(k, 0, 0), code, data) == k
    ensures Eval(Reloc(k, 1, 0), code, data) == U32(k + code)
    ensures Eval(Reloc(k, 0, 1), code, data) == U32(k + data)
  {
  }

  lemma EvalPatched(r: Reloc, o: Order, env: Env)
    ensures Patched(Eval(r, env.code, env.data), PatchOf(o, env))
            == Eval(SymbolicPatched(r, o, env.externs), env.code, env.data)
  {
    hide U32, Eval;
    match o {
      case Rebase(_, v) => EvalBump(r, v, env.code, env.data);
      case Refer(_, None) =>
      case Refer(_, Some(s)) =>
        EvalConstant(s.val, env.code, env.data);
        EvalConstant(Resolve(env.externs, s.name), env.code, env.data);
    }
  }

  /** Linking at concrete addresses is the abstract linker's result read at those addresses. */
  lemma {:induction false} LinkRefinesSymbolic(orders: seq<Order>, env: Env, s: Slot, r0: Reloc, n: nat)
    requires n <= |orders|
    ensures SlotAfter(orders, env, s, Eval(r0, env.code, env.data), n)
            == Eval(SymbolicAfter(orders, env.externs, s, r0, n), env.code, env.data)
  {
    if n > 0 {
      LinkRefinesSymbolic(orders, env, s, r0, n - 1);
      EvalPatched(SymbolicAfter(orders, env.externs, s, r0, n - 1), orders[n - 1], env);
    }
  }

  /** A relocation that stores forgets what the slot held before. */
  predicate Stores(o: Order, externs: Externs) {
    o.Refer? && OrderStatus(o, externs) == Success
  }

  lemma {:induction false} StoringForgets(orders: seq<Order>, externs: Externs, s: Slot, r0: Reloc, r1: Reloc, i: nat,
      n: nat)
    requires i < n <= |orders| && orders[i].slot == s && Stores(orders[i], externs)
    ensures SymbolicAfter(orders, externs, s, r0, n) == SymbolicAfter(orders, externs, s, r1, n)
  {
    if i + 1 < n {
      StoringForgets(orders, externs, s, r0, r1, i, n - 1);
    }
  }

  lemma ShiftTerm(n: int, base: int, d: int, k: int)
    ensures n * (base + d - 0x1_0000_0000 * k) == n * base + n * d - 0x1_0000_0000 * (n * k)
  {
  }

  lemma EvalShift(r: Reloc, code: word, data: word, dCode: int, dData: int)
    ensures Eval(r, U32(code + dCode), U32(data + dData))
            == U32(Eval(r, code, data) + Shift(r, dCode, dData))
  {
    var kc := (code + dCode) / 0x1_0000_0000;
    var kd := (data + dData) / 0x1_0000_0000;
    var x := r.k + r.nCode * code + r.nData * data;
    var y := r.k + r.nCode * U32(code + dCode) + r.nData * U32(data + dData);
    assert U32(code + dCode) == code + dCode - 0x1_0000_0000 * kc;
    assert U32(data + dData) == data + dData - 0x1_0000_0000 * kd;
    ShiftTerm(r.nCode, code, dCode, kc);
    ShiftTerm(r.nData, data, dData, kd);
    var t := Shift(r, dCode, dData);
    assert y == x + t + 0x1_0000_0000 * -(r.nCode * kc + r.nData * kd);
    U32Shift(x + t, -(r.nCode * kc + r.nData * kd));
    U32Add(x, t);
  }

  /** Moving the code by `dCode` and the data by `dData` shifts every slot by the multiples of these
      that the abstract linker found, modulo 2^32. */
  lemma LinkIsEquivariant(orders: seq<Order>, env: Env, s: Slot, w0: word, dCode: int, dData: int)
    ensures var r := SymbolicAfter(orders, env.externs, s, Reloc(w0, 0, 0), |orders|);
            SlotAfter(orders, Env(env.externs, U32(env.code + dCode), U32(env.data + dData)), s, w0, |orders|)
            == U32(SlotAfter(orders, env, s, w0, |orders|) + Shift(r, dCode, dData))
  {
    hide U32, SlotAfter, SymbolicAfter, Shift;
    EvalConstant(w0, env.code, env.data);
    EvalConstant(w0, U32(env.code + dCode), U32(env.data + dData));
    hide Eval;
    var r0 := Reloc(w0, 0, 0);
    var moved := Env(env.externs, U32(env.code + dCode), U32(env.data + dData));
    LinkRefinesSymbolic(orders, env, s, r0, |orders|);
    LinkRefinesSymbolic(orders, moved, s, r0, |orders|);
    EvalShift(SymbolicAfter(orders, env.externs, s, r0, |orders|), env.code, env.data, dCode, dData);
  }

  function ShiftOfSym(s: Sym, dCode: int, dData: int): int {
    if s.typ == Extern || s.typ == ModuleName then 0
    else if s.location == InCode then dCode else dData
  }

  /** How far a slot moves whose only relocation is `o`. */
  function ShiftOf(o: Order, dCode: int, dData: int): int {
    match o
    case Rebase(_, _) => dData
    case Refer(_, None) => 0
    case Refer(_, Some(s)) => ShiftOfSym(s, dCode, dData)
  }

  /** When a slot is targeted once, moving the module shifts a code symbol's slot by the code delta,
      a data symbol's slot and a top-bit word by the data delta, and leaves an extern slot alone. */
  lemma SingleTargetShift(orders: seq<Order>, env: Env, s: Slot, w0: word, i: nat, dCode: int, dData: int)
    requires i < |orders|
    requires forall j :: 0 <= j < |orders| ==> (orders[j].slot == s <==> j == i)
    ensures SlotAfter(orders, Env(env.externs, U32(env.code + dCode), U32(env.data + dData)), s, w0, |orders|)
            == U32(SlotAfter(orders, env, s, w0, |orders|) + ShiftOf(orders[i], dCode, dData))
  {
    var n := |orders|;
    var moved := Env(env.externs, U32(env.code + dCode), U32(env.data + dData));
    UntargetedSlot(orders, env, s, w0, i);
    UntargetedSlot(orders, moved, s, w0, i);
    LastTarget(orders, env, s, w0, i, n);
    LastTarget(orders, moved, s, w0, i, n);
    PatchShift(orders[i], env, w0, dCode, dData);
  }

  lemma PutShift(base: word, val: word, d: int)
    ensures U32(val + U32(base + d)) == U32(U32(val + base) + d)
  {
    U32Add(base + d, val);
    U32Add(base + val, d);
  }

  lemma BumpShift(base: word, v: int, w0: word, d: int)
    ensures U32(w0 + U32(U32(base + d) - v)) == U32(U32(w0 + U32(base - v)) + d)
  {
    hide U32;
    U32Add(base + d, -v);
    U32Add(base + d - v, w0);
    U32Add(base - v, w0);
    U32Add(base - v + w0, d);
  }

  lemma Unshifted(w: word)
    ensures U32(w) == w
  {
  }

  lemma OffsetShift(s: Sym, code: word, data: word, dCode: int, dData: int)
    ensures OffsetValue(s, U32(code + dCode), U32(data + dData))
            == U32(OffsetValue(s, code, data) + ShiftOfSym(s, dCode, dData))
  {
    hide U32;
    Unshifted(s.val);
    if s.typ == Local || s.typ == Exported {
      if s.location == InCode {
        PutShift(code, s.val, dCode);
      } else {
        PutShift(data, s.val, dData);
      }
    }
  }

  lemma PatchShift(o: Order, env: Env, w0: word, dCode: int, dData: int)
    ensures var moved := Env(env.externs, U32(env.code + dCode), U32(env.data + dData));
            Patched(w0, PatchOf(o, moved)) == U32(Patched(w0, PatchOf(o, env)) + ShiftOf(o, dCode, dData))
  {
    hide U32;
    Unshifted(w0);
    match o {
      case Rebase(_, v) => BumpShift(env.data, v, w0, dData);
      case Refer(_, None) =>
      case Refer(_, Some(s)) =>
        Unshifted(Resolve(env.externs, s.name));
        OffsetShift(s, env.code, env.data, dCode, dData);
    }
  }

  // ---------------------------------------------------------------- symbol lookup

  /** The symbols a lookup walks over: none at all when entry 0 is not of the module-name type. */
  function SymTable(m: seq<byte>, a: nat): (t: seq<Sym>)
    requires TablesInside(m, a)
    ensures SymAt(m, a, 0).None? ==> t == []
    ensures SymAt(m, a, 0).Some? ==>
              |t| == SymCount(m, a) && forall i :: 0 <= i < |t| ==> SymAt(m, a, i) == Some(t[i])
  {
    if SymAt(m, a, 0).None? then []
    else seq(SymCount(m, a), i requires 0 <= i < SymCount(m, a) => SymAt(m, a, i).value)
  }

  /** Walking the entries from 0 on, get_sym_at succeeds exactly on those of the table. */
  lemma SymTableStep(m: seq<byte>, a: nat, i: nat)
    requires TablesInside(m, a) && i <= |SymTable(m, a)|
    ensures SymAt(m, a, i).Some? <==> i < |SymTable(m, a)|
    ensures i < |SymTable(m, a)| ==> i < 0x1_0000_0000 && SymAt(m, a, i) == Some(SymTable(m, a)[i])
  {
  }

  /** The first symbol from index `from` on that has the given name. */
  function FindName(t: seq<Sym>, name: seq<byte>, from: nat): Option<nat>
    requires from <= |t|
    decreases |t| - from
  {
    if from == |t| then None
    else if t[from].name == name then Some(from)
    else FindName(t, name, from + 1)
  }

  /** The lookup answers the least index with that name, and none if and only if no symbol has it. */
  lemma {:induction false} FindNameIsLeast(t: seq<Sym>, name: seq<byte>, from: nat)
    requires from <= |t|
    ensures match FindName(t, name, from)
            case Some(i) => from <= i < |t| && t[i].name == name && forall j :: from <= j < i ==> t[j].name != name
            case None => forall j :: from <= j < |t| ==> t[j].name != name
    decreases |t| - from
  {
    if from < |t| && t[from].name != name {
      FindNameIsLeast(t, name, from + 1);
    }
  }

  /** What udynlink_get_symbol_value answers: 0 for an unknown name. */
  function SymbolValue(t: seq<Sym>, code: word, data: word, name: seq<byte>): word
  {
    FindNameIsLeast(t, name, 0);
    match FindName(t, name, 0)
    case None => 0
    case Some(i) => OffsetValue(t[i], code, data)
  }

  /** The linker and the lookup agree: a slot whose last relocation names an exported symbol that is the first
      of its name holds what the lookup of that name returns. */
  lemma LookupAgrees(orders: seq<Order>, t: seq<Sym>, env: Env, w0: word, i: nat, index: nat)
    requires i < |orders| && index < |t|
    requires orders[i].Refer? && orders[i].sym == Some(t[index]) && t[index].typ == Exported
    requires forall j :: i < j < |orders| ==> orders[j].slot != orders[i].slot
    requires forall j :: 0 <= j < index ==> t[j].name != t[index].name
    ensures SlotAfter(orders, env, orders[i].slot, w0, |orders|)
            == SymbolValue(t, env.code, env.data, t[index].name)
  {
    LastTarget(orders, env, orders[i].slot, w0, i, |orders|);
    FindNameIsLeast(t, t[index].name, 0);
  }
}
