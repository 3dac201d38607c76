/** The dynamic linker's operations on memory, the heap and a module handle (app/udynlink/udynlink.c). */
module UdynLink {
  import opened Wrappers
  import opened Bytes
  import opened ModuleImage
  import opened LinkSpec
  import opened LinkProgress

  datatype HandleValue = HandleValue(header: nat, ram: nat, info: byte)

  const FREE_HANDLE := HandleValue(0, 0, 0)

  // The info byte: bits 0 and 1 hold the load mode, bit 2 says that the caller owns the RAM.

  function ModeCode(mode: LoadMode): byte {
    match mode case CopyAll => 0 case CopyCode => 1 case Xip => 2
  }

  function ModeOf(info: byte): LoadMode {
    if info % 4 == 0 then CopyAll else if info % 4 == 1 then CopyCode else Xip
  }

  predicate ForeignRam(info: byte) {
    info / 4 % 2 == 1
  }

  function SetMode(info: byte, mode: LoadMode): (r: byte)
    ensures ModeOf(r) == mode && (ForeignRam(r) <==> ForeignRam(info))
  {
    info - info % 4 + ModeCode(mode)
  }

  lemma BitTwo(x: int)
    ensures (x + 4) % 4 == x % 4 == (x - 4) % 4
    ensures (x + 4) / 4 == x / 4 + 1 && (x - 4) / 4 == x / 4 - 1
  {
  }

  function SetForeign(info: byte, foreign: bool): (r: byte)
    ensures ModeOf(r) == ModeOf(info) && (ForeignRam(r) <==> foreign)
  {
    BitTwo(info);
    if ForeignRam(info) == foreign then info else if foreign then info + 4 else info - 4
  }

  function CodePointer(m: seq<byte>, hd: HandleValue): word
    requires hd.header + HEADER_SIZE <= |m|
  {
    U32(PlaceCode(HeaderAt(m, hd.header), ModeOf(hd.info), hd.ram, hd.header))
  }

  function DataPointer(m: seq<byte>, hd: HandleValue): word
    requires hd.header + HEADER_SIZE <= |m|
  {
    U32(PlaceData(HeaderAt(m, hd.header), ModeOf(hd.info), hd.ram, hd.header))
  }

  function RamSize(m: seq<byte>, hd: HandleValue): word
    requires hd.header + HEADER_SIZE <= |m|
  {
    U32(RamNeed(HeaderAt(m, hd.header), ModeOf(hd.info)))
  }

  function EnvOf(m: seq<byte>, hd: HandleValue, externs: Externs): Env
    requires hd.header + HEADER_SIZE <= |m|
  {
    Env(externs, CodePointer(m, hd), DataPointer(m, hd))
  }

  /** The address of a relocation target: LOT entries start the module's RAM, .data words start at the data pointer. */
  function TargetAddress(m: seq<byte>, hd: HandleValue, s: Slot): nat
    requires hd.header + HEADER_SIZE <= |m|
  {
    match s
    case LotSlot(k) => hd.ram + 4 * k
    case DataSlot(k) => DataPointer(m, hd) + 4 * k
  }

  // ---------------------------------------------------------------- what a load may be asked and what it answers

  /** The module file at address `base`. */
  function FileAt(m: seq<byte>, base: nat): (img: seq<byte>)
    requires base + HEADER_SIZE <= |m| && base + FileSize(HeaderAt(m, base)) <= |m|
    ensures |img| == FileSize(HeaderAt(m, base)) && HeaderAt(img, 0) == HeaderAt(m, base)
  {
    HeaderOfSlice(m, base, base + FileSize(HeaderAt(m, base)));
    m[base..base + FileSize(HeaderAt(m, base))]
  }

  /** If the word at `base` is the module signature, a well-formed module file is there. */
  ghost predicate Loadable(m: seq<byte>, base: nat, externs: Externs) {
    && base + 4 <= |m|
    && (Word(m, base) == MODULE_SIGN ==>
          && base + HEADER_SIZE <= |m|
          && base + FileSize(HeaderAt(m, base)) <= |m|
          && WellFormed(FileAt(m, base), externs))
  }

  predicate Apart(a: nat, n: nat, b: nat, k: nat) {
    a + n <= b || b + k <= a
  }

  /** RAM given by the caller, or the block the allocator will answer (0: none), lies in memory apart from the module
      file; an allocated block is apart from every live one. */
  predicate RoomFor(m: seq<byte>, heap: map<nat, nat>, base: nat, mode: LoadMode, loadAddr: nat, loadSize: nat,
      grant: nat)
    requires base + HEADER_SIZE <= |m|
  {
    var h := HeaderAt(m, base);
    var need := RamNeed(h, mode);
    && (loadAddr != 0 ==> loadAddr + loadSize <= |m| && Apart(loadAddr, loadSize, base, FileSize(h)))
    && (loadAddr == 0 && grant != 0 ==>
          && grant + need <= |m| && Apart(grant, need, base, FileSize(h))
          && grant !in heap && forall b :: b in heap ==> Apart(grant, need, b, heap[b]))
  }

  function RamAddress(need: nat, loadAddr: nat, grant: nat): nat {
    if need == 0 then 0 else if loadAddr == 0 then grant else loadAddr
  }

  /** The status of the RAM stage. */
  function RamStatus(need: nat, loadAddr: nat, loadSize: nat, grant: nat): LoadStatus {
    if need > 0 && loadAddr == 0 && grant == 0 then OutOfMemory
    else if need > 0 && loadAddr != 0 && loadSize < need then RamLenLow
    else Success
  }

  /** The status a load returns: the error of its first failing stage, then of its first bad relocation. */
  function Verdict(m: seq<byte>, base: nat, loadAddr: nat, loadSize: nat, mode: LoadMode,
                   externs: Externs, grant: nat): LoadStatus
    requires base + 4 <= |m|
    requires Word(m, base) == MODULE_SIGN ==>
               && base + HEADER_SIZE <= |m| && base + FileSize(HeaderAt(m, base)) <= |m|
               && TablesInside(Tables(FileAt(m, base)), 0)
  {
    if Word(m, base) != MODULE_SIGN then InvalidSign
    else
      var ram := RamStatus(RamNeed(HeaderAt(m, base), mode), loadAddr, loadSize, grant);
      if ram != Success then ram else LinkStatus(Orders(Tables(FileAt(m, base))), externs, 0)
  }

  /** Whether the caller owns the RAM a handle names: a load that needs none leaves the bit as it was. */
  predicate ForeignAfter(info: byte, need: nat, loadAddr: nat) {
    if need > 0 then loadAddr != 0 else ForeignRam(info)
  }

  /** The block named by the handle a load is given that the load frees when it fails before it has RAM of its own
      (0: none). Out of memory, this is even a block that the caller owns. */
  function FreedBefore(m: seq<byte>, base: nat, loadAddr: nat, loadSize: nat, mode: LoadMode, grant: nat,
                       hd: HandleValue): nat
    requires base + 4 <= |m| && (Word(m, base) == MODULE_SIGN ==> base + HEADER_SIZE <= |m|)
  {
    if Word(m, base) != MODULE_SIGN then if ForeignRam(hd.info) then 0 else hd.ram
    else if RamStatus(RamNeed(HeaderAt(m, base), mode), loadAddr, loadSize, grant) == OutOfMemory then hd.ram
    else 0
  }

  function WithoutBlock(heap: map<nat, nat>, p: nat): map<nat, nat> {
    if p == 0 then heap else heap - {p}
  }

  function HeapAfterLoad(heap: map<nat, nat>, need: nat, loadAddr: nat, grant: nat): map<nat, nat> {
    if need > 0 && loadAddr == 0 then heap[grant := need] else heap
  }

  function HeapAfterUnload(heap: map<nat, nat>, hd: HandleValue): map<nat, nat> {
    if hd.ram != 0 && !ForeignRam(hd.info) then heap - {hd.ram} else heap
  }

  /** Memory and handle after a successful load of the module file at `base`: the module's RAM holds the linked module,
      nothing else changed. */
  ghost predicate LoadedAt(m0: seq<byte>, m: seq<byte>, hd: HandleValue, base: nat, externs: Externs) {
    && base + HEADER_SIZE <= |m0| && base + FileSize(HeaderAt(m0, base)) <= |m0|
    && var img := FileAt(m0, base);
       && TablesInside(Tables(img), 0)
       && var j := JobFor(img, ModeOf(hd.info), hd.ram, base, externs);
          && Laid(j, m0, m) && SlotsAfter(j, m0, m, |j.orders|)
          && hd.header == j.lay.header
  }

  /** The handle, whose header may have moved to RAM, describes job `j` of the module with these tables. */
  ghost predicate Describes(hd: HandleValue, j: Job, tables: seq<byte>, externs: Externs) {
    && TablesInside(tables, 0) && NamesTerminated(tables, 0) && j.orders == Orders(tables)
    && hd.header == j.lay.header && hd.ram == j.lay.ram && j.env.externs == externs
    && var h := HeaderAt(tables, 0);
       && U32(PlaceCode(h, ModeOf(hd.info), hd.ram, hd.header)) == j.env.code
       && U32(PlaceData(h, ModeOf(hd.info), hd.ram, hd.header)) == j.env.data == j.lay.data
  }

  /** In memory `m` the loop reads entry `i` of job `j` and computes its target's address. */
  ghost predicate EntryReadable(j: Job, m: seq<byte>, hd: HandleValue, externs: Externs, i: nat) {
    && TablesInside(m, hd.header)
    && HeaderAt(m, hd.header).numRels == |j.orders|
    && EnvOf(m, hd, externs) == j.env
    && (i < |j.orders| ==>
          && OrderOf(m, hd.header, RelAt(m, hd.header, i)) == j.orders[i]
          && TargetAddress(m, hd, j.orders[i].slot) == SlotAddress(j, j.orders[i].slot)
          && (j.orders[i].Rebase? ==> j.orders[i].slot.DataSlot?)
          && (!PatchOf(j.orders[i], j.env).Reject? ==> SlotAddress(j, j.orders[i].slot) + 4 <= |m|))
  }

  lemma EntryRead(j: Job, tables: seq<byte>, m0: seq<byte>, m: seq<byte>, hd: HandleValue,
                  externs: Externs, i: nat)
    requires Laid(j, m0, m) && TablesAt(j, tables, m0) && Describes(hd, j, tables, externs)
    ensures EntryReadable(j, m, hd, externs, i)
  {
    hide SymAt, NamesTerminated, Word, PatchOf, OrderStatus, SymCount, TablesAt;
    assert Consistent(j) && j.lay.end <= |m|;
    ReadsModuleTables(j, tables, m0, m);
    hide Laid;
    assert TablesInside(m, hd.header);
    assert EnvOf(m, hd, externs) == j.env;
    if i < |j.orders| {
      assert RelAt(m, hd.header, i) == RelAt(tables, 0, i);
      assert OrderOf(m, hd.header, RelAt(m, hd.header, i)) == j.orders[i];
      RejectionIgnoresBases(j.orders[i], j.env);
    }
  }

  /** All through the loop, the entries read from memory are those of the module file. */
  lemma EntriesRead(j: Job, tables: seq<byte>, m0: seq<byte>, m: seq<byte>, hd: HandleValue, externs: Externs)
    requires Laid(j, m0, m) && SlotsAfter(j, m0, m, 0) && TablesAt(j, tables, m0) && Describes(hd, j, tables, externs)
    ensures forall i :: 0 <= i <= |j.orders| ==> EntryReadable(j, MemAfter(j, m, i), hd, externs, i)
  {
    forall i | 0 <= i <= |j.orders|
      ensures EntryReadable(j, MemAfter(j, m, i), hd, externs, i)
    {
      PatchesHaveMeaning(j, m0, m, i);
      EntryRead(j, tables, m0, MemAfter(j, m, i), hd, externs, i);
    }
  }

  /** Nothing outside the `need` bytes at `ram` differs. */
  ghost predicate OnlyInside(m0: seq<byte>, m: seq<byte>, ram: nat, need: nat) {
    && |m| == |m0| && ram + need <= |m|
    && m[..ram] == m0[..ram] && m[ram + need..] == m0[ram + need..]
  }

  lemma LaidFrame(j: Job, m0: seq<byte>, m: seq<byte>)
    requires Laid(j, m0, m)
    ensures OnlyInside(m0, m, j.lay.ram, j.lay.end - j.lay.ram)
  {
  }

  lemma JobPlaces(img: seq<byte>, mode: LoadMode, ram: nat, base: nat, externs: Externs, size: nat)
    requires WellFormed(img, externs)
    requires base + |img| <= size && ram + RamNeed(HeaderAt(img, 0), mode) <= size < 0x1_0000_0000
    ensures var j := JobFor(img, mode, ram, base, externs);
            && j.lay.ram == ram && j.lay.header == (if mode == CopyAll then ram + 4 * HeaderAt(img, 0).numLot else base)
            && j.env.code == j.lay.code == PlaceCode(HeaderAt(img, 0), mode, ram, j.lay.header)
            && j.env.data == j.lay.data == PlaceData(HeaderAt(img, 0), mode, ram, j.lay.header)
  {
    hide HeaderAt, NamesTerminated, Orders, DataWords, Kept, OrderStatus, TargetInside, SymCount;
  }

  lemma DescribesJob(img: seq<byte>, mode: LoadMode, ram: nat, base: nat, externs: Externs, m: seq<byte>,
      hd: HandleValue)
    requires WellFormed(img, externs)
    requires base + |img| <= |m| && ram + RamNeed(HeaderAt(img, 0), mode) <= |m| < 0x1_0000_0000
    requires hd.header == (if mode == CopyAll then ram + 4 * HeaderAt(img, 0).numLot else base)
    requires hd.ram == ram && ModeOf(hd.info) == mode
    ensures Describes(hd, JobFor(img, mode, ram, base, externs), Tables(img), externs)
  {
    hide HeaderAt, NamesTerminated, OrderStatus, SymCount, Kept, DataWords, Orders, TargetInside, PlaceCode, PlaceData,
        LayoutFor;
    HeaderOfTables(img);
    JobPlaces(img, mode, ram, base, externs, |m|);
  }

  /** The first byte of the module file that the mode copies. */
  function CopyStart(h: Header, mode: LoadMode): nat {
    match mode case CopyAll => 0 case CopyCode => CodeOffset(h) case Xip => DataOffset(h)
  }

  lemma CopyFits(h: Header, mode: LoadMode)
    ensures CopyStart(h, mode) <= FileSize(h) && 4 * h.numLot + FileSize(h) - CopyStart(h, mode) <= RamNeed(h, mode)
  {
  }

  /** The data pointer of a handle whose header is in place is where the layout has .data. */
  lemma DataIsPlaced(h: Header, m: seq<byte>, hd: HandleValue, base: nat)
    requires hd.header + HEADER_SIZE <= |m| && h == HeaderAt(m, hd.header)
    requires hd.header == LayoutFor(h, ModeOf(hd.info), hd.ram, base).header
    requires hd.ram + RamNeed(h, ModeOf(hd.info)) <= |m| < 0x1_0000_0000
    ensures DataPointer(m, hd) == LayoutFor(h, ModeOf(hd.info), hd.ram, base).data
  {
    hide HeaderAt;
  }

  lemma CopiedIsEnd(m: seq<byte>, base: nat, mode: LoadMode)
    requires base + HEADER_SIZE <= |m| && base + FileSize(HeaderAt(m, base)) <= |m|
    ensures var h := HeaderAt(m, base);
            Copied(FileAt(m, base), mode) == m[base + CopyStart(h, mode)..base + FileSize(h)]
  {
    hide Half, Word;
    var h := HeaderAt(m, base);
    var img := FileAt(m, base);
    assert Copied(img, mode) == img[CopyStart(h, mode)..];
    assert img[CopyStart(h, mode)..] == m[base + CopyStart(h, mode)..base + FileSize(h)];
  }

  lemma HeaderInCopy(m: seq<byte>, dst: nat, img: seq<byte>)
    requires dst + |img| <= |m| && |img| >= HEADER_SIZE
    ensures HeaderAt(Splice(m, dst, img), dst) == HeaderAt(img, 0)
  {
    var r := Splice(m, dst, img);
    assert r[dst..dst + |img|] == img;
    HeaderOfSlice(r, dst, dst + |img|);
  }

  lemma HeaderElsewhere(m: seq<byte>, dst: nat, s: seq<byte>, base: nat, n: nat)
    requires dst + |s| <= |m| && base + n <= |m| && n >= HEADER_SIZE && Apart(base, n, dst, |s|)
    ensures HeaderAt(Splice(m, dst, s), base) == HeaderAt(m, base)
  {
    hide Half, Word;
    SpliceElsewhere(m, dst, s, base, base + n);
    HeaderOfSlice(Splice(m, dst, s), base, base + n);
    HeaderOfSlice(m, base, base + n);
  }

  /** The 32-bit RAM size of a well-formed module file did not wrap around. */
  lemma NeedIsExact(m: seq<byte>, hd: HandleValue, img: seq<byte>, externs: Externs)
    requires hd.header + HEADER_SIZE <= |m| && hd.header + FileSize(HeaderAt(m, hd.header)) <= |m|
    requires img == FileAt(m, hd.header) && WellFormed(img, externs)
    ensures HeaderAt(m, hd.header) == HeaderAt(img, 0)
    ensures RamSize(m, hd) == RamNeed(HeaderAt(img, 0), ModeOf(hd.info))
    ensures TablesInside(Tables(img), 0)
  {
    hide Word, Half, Orders, NamesTerminated, SymCount, TablesInside, OrderStatus;
  }

  class Handle {
    var header: nat
    var ram: nat
    var info: byte

    constructor ()
      ensures View() == FREE_HANDLE
    {
      header, ram, info := 0, 0, 0;
    }

    function View(): HandleValue
      reads this
    {
      HandleValue(header, ram, info)
    }

    method MarkFree()
      modifies this
      ensures View() == FREE_HANDLE
    {
      header, ram, info := 0, 0, 0;
    }
  }

  /** The symbol record that get_sym_at fills and offset_sym updates. */
  class SymRecord {
    var name: seq<byte>
    var val: word
    var typ: SymType
    var location: Location

    constructor ()
    {
      name, val, typ, location := [], 0, Local, InCode;
    }

    function View(): Sym
      reads this
    {
      Sym(name, val, typ, location)
    }
  }

  class Machine {
    var mem: seq<byte>
    var heap: map<nat, nat>

    constructor (mem: seq<byte>)
      ensures this.mem == mem && heap == map[]
    {
      this.mem := mem;
      heap := map[];
    }

    // ---------------------------------------------------------------- allocation and block operations

    /** The allocator, whose choice `grant` is a parameter: 0 when it has no block. */
    method Malloc(size: nat, grant: nat) returns (p: nat)
      modifies this`heap
      ensures p == grant
      ensures heap == if grant == 0 then old(heap) else old(heap)[grant := size]
    {
      if grant != 0 {
        heap := heap[grant := size];
      }
      p := grant;
    }

    /** Only a live block may be freed. */
    method Free(p: nat)
      requires p in heap
      modifies this`heap
      ensures heap == old(heap) - {p}
    {
      heap := heap - {p};
    }

    method MemCpy(dst: nat, src: nat, n: nat, ghost s: seq<byte>)
      requires dst + n <= |mem| && src + n <= |mem|
      requires n == 0 || Apart(dst, n, src, n)
      requires s == mem[src..src + n]
      modifies this`mem
      ensures mem == Splice(old(mem), dst, s)
    {
      mem := Splice(mem, dst, mem[src..src + n]);
    }

    method MemZero(dst: nat, n: nat)
      requires dst + n <= |mem|
      modifies this`mem
      ensures mem == Splice(old(mem), dst, Zeros(n))
    {
      mem := Splice(mem, dst, Zeros(n));
    }

    method StoreWord(a: nat, w: word)
      requires a + 4 <= |mem|
      modifies this`mem
      ensures mem == Splice(old(mem), a, LittleEndian(w))
    {
      mem := Splice(mem, a, LittleEndian(w));
    }

    // ---------------------------------------------------------------- symbols

    /** get_sym_at: fills the record; the record is partly filled when entry 0 turns out not to be the module name. */
    method GetSymAt(header: nat, index: word, sym: SymRecord) returns (found: bool)
      requires TablesInside(mem, header)
      modifies sym
      ensures found <==> SymAt(mem, header, index).Some?
      ensures found ==> SymAt(mem, header, index) == Some(sym.View())
      ensures index >= SymCount(mem, header) ==> sym.View() == old(sym.View())
    {
      hide Number, Half, CString;
      var m := mem;
      var symt := header + SymtOffset(HeaderAt(m, header));
      if index >= Word(m, symt) {
        return false;
      }
      var nameWord := Word(m, symt + 8 * index + 4);
      assert nameWord == NameWord(m, header, index);
      sym.val := Word(m, symt + 8 * index + 8);
      sym.typ := TypeOf(nameWord);
      sym.location := LocationOf(nameWord);
      if index == 0 && sym.typ != ModuleName {
        return false;
      }
      if sym.typ != Local {
        sym.name := CString(m, symt + NameOffset(nameWord));
      } else {
        sym.name := NO_NAME;
      }
      return true;
    }

    /** offset_sym: makes a local or exported symbol's value absolute. */
    method OffsetSym(hd: Handle, sym: SymRecord)
      requires hd.header + HEADER_SIZE <= |mem|
      modifies sym`val
      ensures sym.val == OffsetValue(old(sym.View()), CodePointer(mem, hd.View()), DataPointer(mem, hd.View()))
    {
      hide HeaderAt, PlaceData, PlaceCode;
      if sym.typ == Local || sym.typ == Exported {
        if sym.location == InCode {
          sym.val := U32(sym.val + CodePointer(mem, hd.View()));
        } else {
          sym.val := U32(sym.val + DataPointer(mem, hd.View()));
        }
      }
    }

    /** udynlink_lookup_symbol. */
    method LookupSymbol(hd: Handle?, name: seq<byte>, sym: SymRecord) returns (found: bool)
      requires hd != null ==> TablesInside(mem, hd.header)
      modifies sym
      ensures hd == null ==> !found
      ensures hd != null ==>
                var t := SymTable(mem, hd.header);
                match FindName(t, name, 0)
                case None => !found
                case Some(i) =>
                  && found && i < |t|
                  && sym.View() == t[i].(val := OffsetValue(t[i], CodePointer(mem, hd.View()),
                                                            DataPointer(mem, hd.View())))
    {
      if hd != null {
        var idx := 0;
        ghost var t := SymTable(mem, hd.header);
        hide SymTable, SymAt, SymCount, HeaderAt, PlaceCode, PlaceData, OffsetValue;
        while true
          invariant idx <= |t| && FindName(t, name, 0) == FindName(t, name, idx)
          decreases |t| - idx
        {
          SymTableStep(mem, hd.header, idx);
          var more := GetSymAt(hd.header, idx, sym);
          if !more {
            break;
          }
          if sym.name == name {
            OffsetSym(hd, sym);
            return true;
          }
          idx := idx + 1;
        }
      }
      return false;
    }

    /** udynlink_get_symbol_value. */
    method GetSymbolValue(hd: Handle?, name: seq<byte>) returns (v: word)
      requires hd != null ==> TablesInside(mem, hd.header)
      ensures v == if hd == null then 0
                   else SymbolValue(SymTable(mem, hd.header), CodePointer(mem, hd.View()),
                                    DataPointer(mem, hd.View()), name)
    {
      var sym := new SymRecord();
      var found := LookupSymbol(hd, name, sym);
      return if found then sym.val else 0;
    }

    // ---------------------------------------------------------------- loading and unloading

    /** The value a plain relocation stores: its symbol's address, or the error that rejects it. */
    method ResolveSymbol(hd: Handle, index: word, externs: Externs, sym: SymRecord)
      returns (res: LoadStatus, value: word)
      requires TablesInside(mem, hd.header)
      modifies sym
      ensures PatchFor(SymAt(mem, hd.header, index), EnvOf(mem, hd.View(), externs))
              == if res == Success then Put(value) else Reject(res)
    {
      value := 0;
      var found := GetSymAt(hd.header, index, sym);
      if !found {
        return BadRelocationTable, 0;
      }
      match sym.typ {
        case ModuleName =>
          return BadRelocationTable, 0;
        case Extern =>
          value := Resolve(externs, sym.name);
          if value == 0 {
            return UnknownSymbol, 0;
          }
        case _ =>
          OffsetSym(hd, sym);
          value := sym.val;
      }
      return Success, value;
    }

    /** A top-bit relocation: the word at `p` gets the data base added and `v` subtracted. */
    method RebaseWord(p: nat, data: word, v: nat)
      requires p + 4 <= |mem|
      modifies this`mem
      ensures mem == Splice(old(mem), p, LittleEndian(Patched(Word(old(mem), p), Bump(U32(data - v)))))
    {
      StoreWord(p, U32(Word(mem, p) + U32(data - v)));
    }

    /** One pass of the relocation loop: the entry (lotOffset, symtOffset) is rejected, or its target word is patched.
        */
    method ApplyRelocation(hd: Handle, lotOffset: word, symtOffset: word, externs: Externs, sym: SymRecord,
                           ghost o: Order, ghost env: Env)
      returns (res: LoadStatus)
      requires TablesInside(mem, hd.header)
      requires o == OrderOf(mem, hd.header, Rel(lotOffset, symtOffset)) && env == EnvOf(mem, hd.View(), externs)
      requires !PatchOf(o, env).Reject? ==> TargetAddress(mem, hd.View(), o.slot) + 4 <= |mem|
      requires o.Rebase? ==> o.slot.DataSlot?
      modifies this`mem, sym
      ensures PatchOf(o, env).Reject? ==> res == PatchOf(o, env).error && mem == old(mem)
      ensures !PatchOf(o, env).Reject? ==>
                var a := TargetAddress(old(mem), hd.View(), o.slot);
                && res == Success
                && mem == Splice(old(mem), a, LittleEndian(Patched(Word(old(mem), a), PatchOf(o, env))))
    {
      hide Number, Half, SymAt, PlaceData, PlaceCode, PatchFor, Splice;
      var numLot := HeaderAt(mem, hd.header).numLot;
      var data := DataPointer(mem, hd.View());
      if symtOffset >= DATA_RELOCATION {
        RebaseWord(data + 4 * (lotOffset - numLot), data, symtOffset % DATA_RELOCATION);
        return Success;
      }
      var p := if lotOffset < numLot then hd.ram + 4 * lotOffset else data + 4 * (lotOffset - numLot);
      assert p == TargetAddress(mem, hd.View(), o.slot);
      var value;
      res, value := ResolveSymbol(hd, symtOffset, externs, sym);
      if res == Success {
        StoreWord(p, value);
      }
    }

    /** The relocation loop of udynlink_load_module: reads the entries from memory in table order, patches one word
        for each, and stops at the first bad one, after `done` entries. */
    method Relocate(hd: Handle, externs: Externs, ghost j: Job)
      returns (res: LoadStatus, ghost done: nat)
      requires forall i :: 0 <= i <= |j.orders| ==> EntryReadable(j, MemAfter(j, mem, i), hd.View(), externs, i)
      modifies this`mem
      ensures res == LinkStatus(j.orders, externs, 0)
      ensures done <= |j.orders| && mem == MemAfter(j, old(mem), done)
      ensures res == Success ==> done == |j.orders|
    {
      hide SymAt, HeaderAt, Word, PatchOf, OrderStatus, OrderOf, TargetAddress, SlotAddress, PatchFor;
      var sym := new SymRecord();
      var rels := hd.header + HEADER_SIZE;
      var i := 0;
      while i < HeaderAt(mem, hd.header).numRels
        invariant i <= |j.orders| && rels == hd.header + HEADER_SIZE + 8 * i
        invariant mem == MemAfter(j, old(mem), i)
        invariant EntryReadable(j, mem, hd.View(), externs, i)
        invariant LinkStatus(j.orders, externs, 0) == LinkStatus(j.orders, externs, i)
        decreases |j.orders| - i
      {
        RejectionIgnoresBases(j.orders[i], j.env);
        var lotOffset, symtOffset := Word(mem, rels), Word(mem, rels + 4);
        rels := rels + 8;
        res := ApplyRelocation(hd, lotOffset, symtOffset, externs, sym, j.orders[i], j.env);
        if res != Success {
          return res, i;
        }
        i := i + 1;
      }
      return Success, i;
    }

    /** Copies what the mode asks for behind the LOT and moves the handle's header to the copy if there is one. */
    method CopySections(hd: Handle, base: nat, ramAddr: nat, mode: LoadMode, ghost img: seq<byte>)
      requires base + HEADER_SIZE <= |mem| && base + FileSize(HeaderAt(mem, base)) <= |mem|
      requires img == FileAt(mem, base)
      requires ramAddr + RamNeed(HeaderAt(img, 0), mode) <= |mem|
      requires Apart(base, |img|, ramAddr, RamNeed(HeaderAt(img, 0), mode))
      requires hd.header == base
      modifies this`mem, hd`header
      ensures |Copied(img, mode)| <= RamNeed(HeaderAt(img, 0), mode) - 4 * HeaderAt(img, 0).numLot
      ensures mem == Splice(old(mem), ramAddr + 4 * HeaderAt(img, 0).numLot, Copied(img, mode))
      ensures hd.header == if mode == CopyAll then ramAddr + 4 * HeaderAt(img, 0).numLot else base
      ensures hd.header + HEADER_SIZE <= |mem| && HeaderAt(mem, hd.header) == HeaderAt(img, 0)
    {
      hide HeaderAt, Splice, Copied, RamNeed;
      var h := HeaderAt(mem, base);
      assert h == HeaderAt(img, 0);
      CopyFits(h, mode);
      var dst := ramAddr + 4 * h.numLot;
      ghost var m0 := mem;
      CopiedIsEnd(mem, base, mode);
      var offset, size := 0, FileSize(h);
      match mode {
        case CopyAll =>
        case CopyCode =>
          offset, size := CodeOffset(h), h.codeSize + h.dataSize;
        case Xip =>
          offset, size := CodeOffset(h) + h.codeSize, h.dataSize;
      }
      assert offset == CopyStart(h, mode) && base + offset + size == base + FileSize(h);
      MemCpy(dst, base + offset, size, Copied(img, mode));
      if mode == CopyAll {
        HeaderInCopy(m0, dst, img);
        hd.header := dst;
      } else {
        HeaderElsewhere(m0, dst, Copied(img, mode), base, |img|);
      }
    }

    /** Lays the module out in RAM: copies its sections and zeroes the bss. */
    method CopyToRam(hd: Handle, base: nat, ramAddr: nat, mode: LoadMode, ghost img: seq<byte>, ghost externs: Externs)
      requires base + HEADER_SIZE <= |mem| && base + FileSize(HeaderAt(mem, base)) <= |mem| < 0x1_0000_0000
      requires img == FileAt(mem, base) && WellFormed(img, externs)
      requires ramAddr + RamNeed(HeaderAt(img, 0), mode) <= |mem|
      requires Apart(base, |img|, ramAddr, RamNeed(HeaderAt(img, 0), mode))
      requires hd.header == base && hd.ram == ramAddr && ModeOf(hd.info) == mode
      modifies this`mem, hd`header
      ensures var j := JobFor(img, mode, ramAddr, base, externs);
              && Laid(j, old(mem), mem) && SlotsAfter(j, old(mem), mem, 0)
              && hd.header == j.lay.header
    {
      hide HeaderAt, Splice, WellFormed, Laid, SlotsAfter, Copied, JobFor, DataPointer, PlaceData, PlaceCode, RamNeed,
          FileAt, FileSize, Apart;
      StartIsLaid(img, mode, ramAddr, base, externs, mem);
      JobLayout(img, mode, ramAddr, base, externs);
      CopySections(hd, base, ramAddr, mode, img);
      var h := HeaderAt(mem, hd.header);
      DataIsPlaced(h, mem, hd.View(), base);
      MemZero(DataPointer(mem, hd.View()) + h.dataSize, h.bssSize);
    }

    /** Finds RAM for the module: allocated when the caller gives none, otherwise the caller's if it is large enough. */
    method ReserveRam(hd: Handle, ramSize: word, loadAddr: nat, loadSize: nat, grant: nat) returns (res: LoadStatus)
      modifies this`heap, hd`ram, hd`info
      ensures res == RamStatus(ramSize, loadAddr, loadSize, grant)
      ensures hd.ram == if res == Success then RamAddress(ramSize, loadAddr, grant) else old(hd.ram)
      ensures ModeOf(hd.info) == ModeOf(old(hd.info))
      ensures ForeignRam(hd.info) <==> ForeignAfter(old(hd.info), ramSize, loadAddr)
      ensures heap == if res == Success then HeapAfterLoad(old(heap), ramSize, loadAddr, grant) else old(heap)
    {
      if ramSize > 0 {
        if loadAddr == 0 {
          hd.info := SetForeign(hd.info, false);
          var p := Malloc(ramSize, grant);
          if p == 0 {
            return OutOfMemory;
          }
          hd.ram := p;
        } else {
          hd.info := SetForeign(hd.info, true);
          if loadSize < ramSize {
            return RamLenLow;
          }
          hd.ram := loadAddr;
        }
      } else {
        hd.ram := 0;
      }
      return Success;
    }

    /** Copies the module to its RAM and relocates it. */
    method Link(hd: Handle, base: nat, mode: LoadMode, externs: Externs, ghost img: seq<byte>) returns (res: LoadStatus)
      requires base + HEADER_SIZE <= |mem| && base + FileSize(HeaderAt(mem, base)) <= |mem| < 0x1_0000_0000
      requires img == FileAt(mem, base) && WellFormed(img, externs)
      requires hd.ram + RamNeed(HeaderAt(img, 0), mode) <= |mem|
      requires Apart(base, |img|, hd.ram, RamNeed(HeaderAt(img, 0), mode))
      requires hd.header == base && ModeOf(hd.info) == mode
      modifies this`mem, hd`header
      ensures res == LinkStatus(Orders(Tables(img)), externs, 0)
      ensures OnlyInside(old(mem), mem, hd.ram, RamNeed(HeaderAt(img, 0), mode))
      ensures res == Success ==> LoadedAt(old(mem), mem, hd.View(), base, externs)
    {
      hide Word, Half, Orders, DataWords, Kept, Splice, Laid, SlotsAfter, NamesTerminated, TablesAt, Describes,
          EntryReadable, OnlyInside, OrderStatus, TargetInside, SlotInside, CodePointer, DataPointer, LinkStatus,
          MemAfter;
      ghost var j := JobFor(img, mode, hd.ram, base, externs);
      ghost var m0 := mem;
      CopyToRam(hd, base, hd.ram, mode, img, externs);
      DescribesJob(img, mode, hd.ram, base, externs, m0, hd.View());
      TablesAtStart(img, mode, hd.ram, base, externs, m0);
      EntriesRead(j, Tables(img), m0, mem, hd.View(), externs);
      ghost var m1 := mem;
      ghost var done;
      res, done := Relocate(hd, externs, j);
      PatchesHaveMeaning(j, m0, m1, done);
      JobOfFile(img, mode, hd.ram, base, externs);
      LaidFrame(j, m0, mem);
    }

    /** What udynlink_load_module does once the signature is accepted, up to its exit label. */
    method LoadImage(hd: Handle, base: nat, loadAddr: nat, loadSize: nat, mode: LoadMode, externs: Externs, grant: nat,
                     ghost img: seq<byte>)
      returns (res: LoadStatus)
      requires base + HEADER_SIZE <= |mem| && base + FileSize(HeaderAt(mem, base)) <= |mem| < 0x1_0000_0000
      requires img == FileAt(mem, base) && WellFormed(img, externs)
      requires RoomFor(mem, heap, base, mode, loadAddr, loadSize, grant)
      requires hd.header == base && ModeOf(hd.info) == mode
      modifies this, hd
      ensures var need := RamNeed(HeaderAt(img, 0), mode);
              var ram := RamStatus(need, loadAddr, loadSize, grant);
              && res == (if ram != Success then ram else LinkStatus(Orders(Tables(img)), externs, 0))
              && (ForeignRam(hd.info) <==> ForeignAfter(old(hd.info), need, loadAddr))
              && if ram != Success then mem == old(mem) && heap == old(heap) && hd.ram == old(hd.ram)
                 else
                   && hd.ram == RamAddress(need, loadAddr, grant)
                   && heap == HeapAfterLoad(old(heap), need, loadAddr, grant)
                   && OnlyInside(old(mem), mem, hd.ram, need)
                   && (res == Success ==> LoadedAt(old(mem), mem, hd.View(), base, externs))
      ensures ModeOf(hd.info) == mode
    {
      hide Word, Half, Orders, Splice, NamesTerminated, SymCount, TablesInside, LoadedAt, OnlyInside, RamNeed,
          WellFormed, LinkStatus;
      NeedIsExact(mem, hd.View(), img, externs);
      res := ReserveRam(hd, RamSize(mem, hd.View()), loadAddr, loadSize, grant);
      if res == Success {
        res := Link(hd, base, mode, externs, img);
      }
    }

    /** udynlink_load_module. The block of a handle in use is freed by some failing loads and forgotten otherwise. */
    method LoadModule(hd: Handle?, base: nat, loadAddr: nat, loadSize: nat, mode: LoadMode, externs: Externs,
        grant: nat)
      returns (res: LoadStatus)
      requires Loadable(mem, base, externs) && |mem| < 0x1_0000_0000
      requires Word(mem, base) == MODULE_SIGN ==> RoomFor(mem, heap, base, mode, loadAddr, loadSize, grant)
      requires hd != null ==>
                 FreedBefore(mem, base, loadAddr, loadSize, mode, grant, hd.View()) in {0} + heap.Keys
      modifies this, hd
      ensures hd == null ==> res == InvalidModule
      ensures hd != null ==> res == Verdict(old(mem), base, loadAddr, loadSize, mode, externs, grant)
      ensures hd == null || Word(old(mem), base) != MODULE_SIGN ==> mem == old(mem)
      ensures hd != null && Word(old(mem), base) == MODULE_SIGN ==>
                var need := RamNeed(HeaderAt(old(mem), base), mode);
                if RamStatus(need, loadAddr, loadSize, grant) != Success then mem == old(mem)
                else OnlyInside(old(mem), mem, RamAddress(need, loadAddr, grant), need)
      ensures hd == null ==> heap == old(heap)
      ensures hd != null && res != Success ==>
                && hd.View() == FREE_HANDLE
                && heap == WithoutBlock(old(heap),
                                        FreedBefore(old(mem), base, loadAddr, loadSize, mode, grant, old(hd.View())))
      ensures res == Success ==>
                var need := RamNeed(HeaderAt(old(mem), base), mode);
                && hd != null
                && LoadedAt(old(mem), mem, hd.View(), base, externs)
                && hd.ram == RamAddress(need, loadAddr, grant) && ModeOf(hd.info) == mode
                && (ForeignRam(hd.info) <==> ForeignAfter(old(hd.info), need, loadAddr))
                && heap == HeapAfterLoad(old(heap), need, loadAddr, grant)
    {
      hide Half, Number, Orders, LoadedAt, WellFormed, LinkStatus, RamNeed, OnlyInside;
      if hd == null {
        return InvalidModule;
      }
      hd.header := base;
      hd.info := SetMode(hd.info, mode);
      if Word(mem, base) != MODULE_SIGN {
        res := InvalidSign;
      } else {
        res := LoadImage(hd, base, loadAddr, loadSize, mode, externs, grant, FileAt(mem, base));
      }
      if res != Success {
        if hd.ram != 0 && !ForeignRam(hd.info) {
          Free(hd.ram);
        }
        hd.MarkFree();
      }
    }

    /** udynlink_unload_module: frees the module's RAM unless the caller owns it, and zeroes the handle. */
    method UnloadModule(hd: Handle?) returns (res: LoadStatus)
      requires hd != null && hd.header != 0 && hd.ram != 0 && !ForeignRam(hd.info) ==> hd.ram in heap
      modifies this`heap, hd
      ensures res == if hd == null || old(hd.header) == 0 then InvalidModule else Success
      ensures res == InvalidModule ==> heap == old(heap) && (hd != null ==> hd.View() == old(hd.View()))
      ensures res == Success ==> heap == HeapAfterUnload(old(heap), old(hd.View())) && hd.View() == FREE_HANDLE
    {
      if hd == null || hd.header == 0 {
        return InvalidModule;
      }
      if hd.ram != 0 && !ForeignRam(hd.info) {
        Free(hd.ram);
      }
      hd.MarkFree();
      return Success;
    }
  }
}
