/** The module file read word by word, by the byte offsets of its layout (app/udynlink/udynlink.h:26-39) and the bits of
    its entries (app/udynlink/udynlink.c:27-36), and what a load makes of these words. Nothing here goes through the
    linker's own decoding. */
module LinkWords {
  import opened Wrappers
  import opened Bytes
  import opened ModuleImage
  import opened LinkSpec
  import opened LinkProgress
  import opened UdynLink
  import opened LinkResults

  // ---------------------------------------------------------------- the layout of the file

  function LotCount(f: seq<byte>): nat
    requires |f| >= 28
  {
    Half(f, 8)
  }

  function RelCount(f: seq<byte>): nat
    requires |f| >= 28
  {
    Half(f, 10)
  }

  function SymbolsAt(f: seq<byte>): nat
    requires |f| >= 28
  {
    28 + 8 * RelCount(f)
  }

  function CodeAt(f: seq<byte>): nat
    requires |f| >= 28
  {
    SymbolsAt(f) + Word(f, 12)
  }

  function DataAt(f: seq<byte>): nat
    requires |f| >= 28
  {
    CodeAt(f) + Word(f, 16)
  }

  /** Where the code is after a load to the RAM at `ram` of the file at `base`. */
  function CodeAddress(f: seq<byte>, mode: LoadMode, ram: nat, base: nat): nat
    requires |f| >= 28
  {
    match mode
    case CopyAll => ram + 4 * LotCount(f) + CodeAt(f)
    case CopyCode => ram + 4 * LotCount(f)
    case Xip => base + CodeAt(f)
  }

  /** Where .data is after that load. */
  function DataAddress(f: seq<byte>, mode: LoadMode, ram: nat): nat
    requires |f| >= 28
  {
    match mode
    case CopyAll => ram + 4 * LotCount(f) + DataAt(f)
    case CopyCode => ram + 4 * LotCount(f) + Word(f, 16)
    case Xip => ram + 4 * LotCount(f)
  }

  lemma FileShape(f: seq<byte>, externs: Externs)
    requires WellFormed(f, externs)
    ensures |f| >= 28 && CodeAt(f) <= DataAt(f) && |f| == DataAt(f) + Word(f, 20)
    ensures TablesInside(f, 0) && HeaderAt(f, 0) == HeaderAt(Tables(f), 0)
    ensures HeaderAt(f, 0).numLot == LotCount(f) && HeaderAt(f, 0).numRels == RelCount(f)
    ensures HeaderAt(f, 0).dataSize == Word(f, 20) && SymCount(f, 0) == Word(f, SymbolsAt(f))
    ensures 4 + 8 * Word(f, SymbolsAt(f)) <= Word(f, 12)
  {
    hide Number, Orders, NamesTerminated, OrderStatus;
    HeaderOfTables(f);
    TablesFromFile(f, externs);
  }

  lemma TablesFromFile(f: seq<byte>, externs: Externs)
    requires WellFormed(f, externs)
    ensures TablesInside(f, 0)
    ensures forall i :: 0 <= i < HeaderAt(f, 0).numRels ==> RelAt(Tables(f), 0, i) == RelAt(f, 0, i)
    ensures forall i: nat :: SymAt(Tables(f), 0, i) == SymAt(f, 0, i)
    ensures HeaderAt(Tables(f), 0) == HeaderAt(f, 0) && SymCount(Tables(f), 0) == SymCount(f, 0)
  {
    hide Orders, NamesTerminated, OrderStatus, SymAt, RelAt, TablesInside, SymCount;
    HeaderOfTables(f);
    var n := CodeOffset(HeaderAt(f, 0));
    assert f[0..0 + |Tables(f)|] == Tables(f);
    SameTables(f, 0, Tables(f));
  }

  // ---------------------------------------------------------------- the entries

  /** The two words of relocation `i`. */
  function RelTarget(f: seq<byte>, i: nat): word
    requires 28 + 8 * i + 8 <= |f|
  {
    Word(f, 28 + 8 * i)
  }

  function RelValue(f: seq<byte>, i: nat): word
    requires 28 + 8 * i + 8 <= |f|
  {
    Word(f, 28 + 8 * i + 4)
  }

  /** The two words of symbol `k`. */
  function SymbolInfo(f: seq<byte>, k: nat): word
    requires |f| >= 28 && SymbolsAt(f) + 8 * k + 12 <= |f|
  {
    Word(f, SymbolsAt(f) + 8 * k + 4)
  }

  function SymbolWord(f: seq<byte>, k: nat): word
    requires |f| >= 28 && SymbolsAt(f) + 8 * k + 12 <= |f|
  {
    Word(f, SymbolsAt(f) + 8 * k + 8)
  }

  /** Bits 28 and 29: 0 local, 1 exported, 2 extern, 3 the module's name. */
  function TypeBits(info: word): (t: nat)
    ensures t < 4
  {
    info / 0x1000_0000 % 4
  }

  predicate CodeBit(info: word) {
    info / 0x4000_0000 % 2 == 1
  }

  /** The name in the file of a symbol that is not local. */
  function SymbolName(f: seq<byte>, k: nat): seq<byte>
    requires |f| >= 28 && SymbolsAt(f) + 8 * k + 12 <= |f|
  {
    CString(f, SymbolsAt(f) + SymbolInfo(f, k) % 0x1000_0000)
  }

  lemma SymbolInFile(f: seq<byte>, externs: Externs, k: nat)
    requires WellFormed(f, externs) && |f| >= 28 && k < Word(f, SymbolsAt(f))
    ensures SymbolsAt(f) + 8 * k + 12 <= |f|
    ensures TablesInside(f, 0)
    ensures SymAt(f, 0, k).Some? <==> k > 0 || TypeBits(SymbolInfo(f, 0)) == 3
    ensures SymAt(f, 0, k).Some? ==>
              var s := SymAt(f, 0, k).value;
              && s.val == SymbolWord(f, k)
              && s.typ == [Local, Exported, Extern, ModuleName][TypeBits(SymbolInfo(f, k))]
              && s.location == (if CodeBit(SymbolInfo(f, k)) then InCode else InData)
              && s.name == (if TypeBits(SymbolInfo(f, k)) == 0 then NO_NAME else SymbolName(f, k))
  {
    hide Number, Orders, NamesTerminated, OrderStatus, CString, WellFormed;
    FileShape(f, externs);
  }

  lemma NoSuchSymbol(f: seq<byte>, externs: Externs, k: nat)
    requires WellFormed(f, externs) && |f| >= 28 && k >= Word(f, SymbolsAt(f))
    ensures TablesInside(f, 0) && SymAt(f, 0, k).None?
  {
    hide Number, WellFormed;
    FileShape(f, externs);
  }

  /** The slot of relocation `i`: a LOT entry, or behind the LOT a word of .data. */
  function SlotByWord(f: seq<byte>, i: nat): Slot
    requires |f| >= 28 && 28 + 8 * i + 8 <= |f|
  {
    if RelTarget(f, i) < LotCount(f) then LotSlot(RelTarget(f, i)) else DataSlot(RelTarget(f, i) - LotCount(f))
  }

  lemma OrderInFile(f: seq<byte>, externs: Externs, i: nat)
    requires WellFormed(f, externs) && |f| >= 28 && i < RelCount(f)
    ensures 28 + 8 * i + 8 <= |f| && TablesInside(f, 0) && |Orders(Tables(f))| == RelCount(f)
    ensures Orders(Tables(f))[i]
            == if RelValue(f, i) >= 0x8000_0000 then Rebase(SlotByWord(f, i), RelValue(f, i) - 0x8000_0000)
               else Refer(SlotByWord(f, i), SymAt(f, 0, RelValue(f, i)))
  {
    hide Number, NamesTerminated, OrderStatus, SymAt;
    FileShape(f, externs);
    TablesFromFile(f, externs);
    assert RelAt(f, 0, i) == Rel(RelTarget(f, i), RelValue(f, i));
    assert Orders(Tables(f))[i] == OrderOf(Tables(f), 0, RelAt(Tables(f), 0, i));
  }

  /** The status of relocation `i`: an entry whose top bit is set is good; any other must name a symbol behind entry 0
      that is not a module name, and a symbol the host offers if it is extern. */
  function EntryStatus(f: seq<byte>, externs: Externs, i: nat): LoadStatus
    requires WellFormed(f, externs) && |f| >= 28 && i < RelCount(f)
  {
    FileShape(f, externs);
    var w := RelValue(f, i);
    if w >= 0x8000_0000 then Success
    else if w == 0 || w >= Word(f, SymbolsAt(f)) || TypeBits(SymbolInfo(f, w)) == 3 then BadRelocationTable
    else if TypeBits(SymbolInfo(f, w)) == 2
         && (SymbolName(f, w) !in externs || externs[SymbolName(f, w)] == 0) then UnknownSymbol
    else Success
  }

  /** The linker accepts and rejects the entries exactly by their words. */
  lemma StatusByWords(f: seq<byte>, externs: Externs, i: nat)
    requires WellFormed(f, externs) && |f| >= 28 && i < RelCount(f)
    ensures |Orders(Tables(f))| == RelCount(f)
    ensures OrderStatus(Orders(Tables(f))[i], externs) == EntryStatus(f, externs, i)
  {
    hide WellFormed, Number, CString, TablesInside, SymAt, NamesTerminated, HeaderAt, SymCount, TypeBits, CodeBit,
        Tables;
    FileShape(f, externs);
    OrderInFile(f, externs, i);
    var w := RelValue(f, i);
    if w < Word(f, SymbolsAt(f)) {
      SymbolInFile(f, externs, w);
    } else {
      NoSuchSymbol(f, externs, w);
    }
  }

  /** The RAM a load asks for: the LOT, .data and .bss, and what the mode copies of the rest. */
  function RamByWords(f: seq<byte>, mode: LoadMode): nat
    requires |f| >= 28
  {
    4 * LotCount(f) + Word(f, 20) + Word(f, 24)
    + match mode case CopyAll => DataAt(f) case CopyCode => Word(f, 16) case Xip => 0
  }

  /** What a load answers, by the words of the file: success if and only if there is RAM for the module and every entry
      is good; else the error of the RAM, or of the first entry that is not. */
  lemma VerdictByWords(f: seq<byte>, m: seq<byte>, base: nat, loadAddr: nat, loadSize: nat, mode: LoadMode,
                       externs: Externs, grant: nat)
    requires Loadable(m, base, externs) && Word(m, base) == MODULE_SIGN && f == FileAt(m, base)
    ensures |f| >= 28 && WellFormed(f, externs)
    ensures var v := Verdict(m, base, loadAddr, loadSize, mode, externs, grant);
            var need := RamByWords(f, mode);
            var room := need == 0 || (if loadAddr == 0 then grant != 0 else need <= loadSize);
            && (!room ==> v == if loadAddr == 0 then OutOfMemory else RamLenLow)
            && (v == Success <==> room && forall i :: 0 <= i < RelCount(f) ==> EntryStatus(f, externs, i) == Success)
            && forall i: nat :: room && FirstBadEntry(f, externs, i) ==> v == EntryStatus(f, externs, i)
  {
    hide WellFormed, HeaderAt, Word, Half, RamNeed, EntryStatus, OrderStatus, RelCount, LinkStatus, TablesInside,
        FileAt, RamByWords;
    WellFormedTables(m, base, externs);
    VerdictMeaning(m, base, loadAddr, loadSize, mode, externs, grant);
    NeedByWords(f, externs, mode);
    AllByWords(f, externs);
  }

  /** Relocation `i` is the first bad one. */
  predicate FirstBadEntry(f: seq<byte>, externs: Externs, i: nat)
    requires WellFormed(f, externs) && |f| >= 28
  {
    && i < RelCount(f) && EntryStatus(f, externs, i) != Success
    && forall k :: 0 <= k < i ==> EntryStatus(f, externs, k) == Success
  }

  lemma WellFormedTables(m: seq<byte>, base: nat, externs: Externs)
    requires Loadable(m, base, externs) && Word(m, base) == MODULE_SIGN
    ensures |FileAt(m, base)| >= 28 && WellFormed(FileAt(m, base), externs)
    ensures TablesInside(Tables(FileAt(m, base)), 0) && HeaderAt(m, base) == HeaderAt(FileAt(m, base), 0)
  {
    hide Word, Half, TablesInside, NamesTerminated, Orders, OrderStatus;
  }

  lemma AllByWords(f: seq<byte>, externs: Externs)
    requires WellFormed(f, externs)
    ensures |f| >= 28 && |Orders(Tables(f))| == RelCount(f)
    ensures forall i :: 0 <= i < RelCount(f) ==>
              OrderStatus(Orders(Tables(f))[i], externs) == EntryStatus(f, externs, i)
    ensures forall i: nat :: FirstBadEntry(f, externs, i) ==> FirstBad(Orders(Tables(f)), externs, 0, i)
  {
    hide NamesTerminated, Number, Orders, EntryStatus, OrderStatus, TablesInside, TargetInside;
    NeedByWords(f, externs, Xip);
    forall i | 0 <= i < RelCount(f)
      ensures OrderStatus(Orders(Tables(f))[i], externs) == EntryStatus(f, externs, i)
    {
      StatusByWords(f, externs, i);
    }
  }

  lemma NeedByWords(f: seq<byte>, externs: Externs, mode: LoadMode)
    requires WellFormed(f, externs)
    ensures |f| >= 28 && RamNeed(HeaderAt(f, 0), mode) == RamByWords(f, mode) && |Orders(Tables(f))| == RelCount(f)
  {
    hide Number, Orders, NamesTerminated, OrderStatus, SymCount;
    HeaderOfTables(f);
  }

  // ---------------------------------------------------------------- the words after a load

  /** No other relocation has the same target. */
  predicate Alone(f: seq<byte>, i: nat)
    requires |f| >= 28 && i < RelCount(f) && 28 + 8 * RelCount(f) <= |f|
  {
    forall k :: 0 <= k < RelCount(f) && k != i ==> RelTarget(f, k) != RelTarget(f, i)
  }

  /** The address relocation `i` patches. */
  function PatchedAddress(f: seq<byte>, mode: LoadMode, ram: nat, i: nat): nat
    requires |f| >= 28 && 28 + 8 * i + 8 <= |f|
  {
    if RelTarget(f, i) < LotCount(f) then ram + 4 * RelTarget(f, i)
    else DataAddress(f, mode, ram) + 4 * (RelTarget(f, i) - LotCount(f))
  }

  /** Memory `m0` was the memory of a successful load of file `f` at `base`, and `m` is what it left. */
  ghost predicate LoadOf(f: seq<byte>, m0: seq<byte>, m: seq<byte>, hd: HandleValue, base: nat, externs: Externs) {
    && Loadable(m0, base, externs) && Word(m0, base) == MODULE_SIGN && LoadedAt(m0, m, hd, base, externs)
    && f == FileAt(m0, base)
  }

  /** Relocation `i` is in the file, and no other one has its target. */
  predicate Lone(f: seq<byte>, i: nat) {
    |f| >= 28 && i < RelCount(f) && 28 + 8 * RelCount(f) <= |f| && Alone(f, i)
  }

  /** Symbol `k` is listed behind entry 0. */
  predicate Listed(f: seq<byte>, k: nat) {
    && |f| >= 28 && SymbolsAt(f) + 8 * k + 12 <= |f| && 0 < k < Word(f, SymbolsAt(f))
  }

  lemma PlacesByWords(f: seq<byte>, externs: Externs, mode: LoadMode, ram: nat, base: nat)
    requires WellFormed(f, externs)
    ensures |f| >= 28
    ensures var j := JobFor(f, mode, ram, base, externs);
            && j.lots == LotCount(f) && j.lay.ram == ram && j.lay.data == DataAddress(f, mode, ram)
            && j.env == Env(externs, U32(CodeAddress(f, mode, ram, base)), U32(DataAddress(f, mode, ram)))
  {
    hide Number, NamesTerminated, OrderStatus, Orders, Kept, DataWords, SymCount, TargetInside, U32;
  }

  lemma DataByWords(f: seq<byte>, externs: Externs)
    requires WellFormed(f, externs)
    ensures |f| >= 28 && DataAt(f) + Word(f, 20) == |f|
    ensures |DataWords(f)| == Word(f, 20) / 4
    ensures forall k :: 0 <= k < |DataWords(f)| ==> DataWords(f)[k] == Word(f, DataAt(f) + 4 * k)
  {
    hide Number, NamesTerminated, OrderStatus, Orders, SymCount, TargetInside;
  }

  lemma JobByWords(f: seq<byte>, externs: Externs, mode: LoadMode, ram: nat, base: nat)
    requires WellFormed(f, externs)
    ensures |f| >= 28 && DataAt(f) + Word(f, 20) == |f|
    ensures var j := JobFor(f, mode, ram, base, externs);
            && j.lots == LotCount(f) && j.lay.ram == ram && j.lay.data == DataAddress(f, mode, ram)
            && j.env == Env(externs, U32(CodeAddress(f, mode, ram, base)), U32(DataAddress(f, mode, ram)))
            && |j.words| == Word(f, 20) / 4
            && forall k :: 0 <= k < |j.words| ==> j.words[k] == Word(f, DataAt(f) + 4 * k)
  {
    hide WellFormed, HeaderAt, TablesInside, Orders, Kept, DataWords, DataAddress, CodeAddress, DataAt, LayoutFor, U32;
    PlacesByWords(f, externs, mode, ram, base);
    DataByWords(f, externs);
  }

  lemma SlotsDiffer(f: seq<byte>, externs: Externs, i: nat)
    requires WellFormed(f, externs) && |f| >= 28 && i < RelCount(f) && 28 + 8 * RelCount(f) <= |f| && Alone(f, i)
    ensures |Orders(Tables(f))| == RelCount(f)
    ensures forall k :: 0 <= k < RelCount(f) && k != i ==> Orders(Tables(f))[k].slot != SlotByWord(f, i)
  {
    hide OrderStatus, NamesTerminated, Number, TablesInside, SymAt, HeaderAt, Tables, RelTarget, RelValue, Orders;
    OrderInFile(f, externs, i);
    forall k | 0 <= k < RelCount(f) && k != i
      ensures Orders(Tables(f))[k].slot != SlotByWord(f, i)
    {
      OrderInFile(f, externs, k);
    }
  }

  /** What a load leaves in a slot that one good relocation targets: that relocation's patch of the initial word. */
  lemma LoadedOnce(j: Job, m0: seq<byte>, m: seq<byte>, i: nat)
    requires Laid(j, m0, m) && SlotsAfter(j, m0, m, |j.orders|) && i < |j.orders|
    requires OrderStatus(j.orders[i], j.env.externs) == Success
    requires forall k :: 0 <= k < |j.orders| && k != i ==> j.orders[k].slot != j.orders[i].slot
    ensures SlotInside(j, j.orders[i].slot) && j.lay.ram + 4 * j.lots <= |m0| == |m|
    ensures j.orders[i].Rebase? ==> j.orders[i].slot.DataSlot?
    ensures SlotAddress(j, j.orders[i].slot) + 4 <= |m|
    ensures Word(m, SlotAddress(j, j.orders[i].slot))
            == Patched(InitialWord(j, m0, j.orders[i].slot), PatchOf(j.orders[i], j.env))
  {
    hide Word, OrderStatus, PatchOf;
    var s := j.orders[i].slot;
    LaidBounds(j, m0, m);
    assert SlotInside(j, s);
    assert SlotDone(j, m0, m, s, |j.orders|);
    UntargetedSlot(j.orders, j.env, s, InitialWord(j, m0, s), i);
    LastTarget(j.orders, j.env, s, InitialWord(j, m0, s), i, |j.orders|);
  }

  lemma LoadedByWords(f: seq<byte>, m0: seq<byte>, m: seq<byte>, hd: HandleValue, base: nat, externs: Externs, i: nat)
    requires LoadOf(f, m0, m, hd, base, externs) && Lone(f, i)
    requires EntryStatus(f, externs, i) == Success
    ensures WellFormed(f, externs) && i < |Orders(Tables(f))|
    ensures var o := Orders(Tables(f))[i];
            var at := PatchedAddress(f, ModeOf(hd.info), hd.ram, i);
            var j := JobFor(f, ModeOf(hd.info), hd.ram, base, externs);
            && at + 4 <= |m| && j.lay.ram + 4 * j.lots <= |m0| && SlotInside(j, o.slot)
            && (o.Rebase? ==> o.slot.DataSlot?)
            && Word(m, at) == Patched(InitialWord(j, m0, o.slot), PatchOf(o, j.env))
  {
    hide WellFormed, Word, Half, TablesInside, Orders, Tables, LayoutFor, Laid, SlotsAfter, Patched, PatchOf,
        OrderStatus, EntryStatus, DataWords, Kept, DataAddress;
    var j := JobFor(f, ModeOf(hd.info), hd.ram, base, externs);
    JobByWords(f, externs, ModeOf(hd.info), hd.ram, base);
    StatusByWords(f, externs, i);
    OrderInFile(f, externs, i);
    SlotsDiffer(f, externs, i);
    LoadedOnce(j, m0, m, i);
  }

  lemma RebaseSum(w: word, d: int, v: int)
    ensures U32(w + U32(U32(d) - v)) == U32(w + d - v)
  {
    hide U32;
    U32Add(d, -v);
    U32Add(d - v, w);
  }

  /** A top-bit relocation adds the address of .data to the file's word and subtracts the other 31 bits. */
  lemma TopBitWord(f: seq<byte>, m0: seq<byte>, m: seq<byte>, hd: HandleValue, base: nat, externs: Externs, i: nat)
    requires LoadOf(f, m0, m, hd, base, externs) && Lone(f, i) && RelValue(f, i) >= 0x8000_0000
    ensures LotCount(f) <= RelTarget(f, i) && DataAt(f) + 4 * (RelTarget(f, i) - LotCount(f)) + 4 <= |f|
    ensures var at := PatchedAddress(f, ModeOf(hd.info), hd.ram, i);
            && at + 4 <= |m|
            && Word(m, at) == U32(Word(f, DataAt(f) + 4 * (RelTarget(f, i) - LotCount(f)))
                                  + DataAddress(f, ModeOf(hd.info), hd.ram) - (RelValue(f, i) - 0x8000_0000))
  {
    hide WellFormed, Word, Half, TablesInside, Orders, Tables, LoadedAt, JobFor, PatchedAddress, DataAddress,
        CodeAddress, U32, SymAt;
    LoadedByWords(f, m0, m, hd, base, externs, i);
    JobByWords(f, externs, ModeOf(hd.info), hd.ram, base);
    OrderInFile(f, externs, i);
    var k := RelTarget(f, i) - LotCount(f);
    RebaseSum(Word(f, DataAt(f) + 4 * k), DataAddress(f, ModeOf(hd.info), hd.ram), RelValue(f, i) - 0x8000_0000);
  }

  /** A relocation that names a local or exported symbol stores the symbol's value, counted from the start of the code
      if the code bit is set and of .data otherwise. */
  lemma SectionWord(f: seq<byte>, m0: seq<byte>, m: seq<byte>, hd: HandleValue, base: nat, externs: Externs, i: nat)
    requires LoadOf(f, m0, m, hd, base, externs) && Lone(f, i) && RelValue(f, i) < 0x8000_0000
    requires Listed(f, RelValue(f, i)) && TypeBits(SymbolInfo(f, RelValue(f, i))) < 2
    ensures var at := PatchedAddress(f, ModeOf(hd.info), hd.ram, i);
            var k := RelValue(f, i);
            && at + 4 <= |m|
            && Word(m, at) == U32(SymbolWord(f, k) + if CodeBit(SymbolInfo(f, k))
                                                     then CodeAddress(f, ModeOf(hd.info), hd.ram, base)
                                                     else DataAddress(f, ModeOf(hd.info), hd.ram))
  {
    hide WellFormed, Word, Half, TablesInside, Orders, Tables, LoadedAt, JobFor, PatchedAddress, DataAddress,
        CodeAddress, U32, SymAt, SymbolInfo, SymbolWord, TypeBits, CodeBit;
    LoadedByWords(f, m0, m, hd, base, externs, i);
    JobByWords(f, externs, ModeOf(hd.info), hd.ram, base);
    OrderInFile(f, externs, i);
    SymbolInFile(f, externs, RelValue(f, i));
    U32Add(CodeAddress(f, ModeOf(hd.info), hd.ram, base), SymbolWord(f, RelValue(f, i)));
    U32Add(DataAddress(f, ModeOf(hd.info), hd.ram), SymbolWord(f, RelValue(f, i)));
  }

  /** A relocation that names an extern symbol the host offers stores the host's address. */
  lemma ExternWord(f: seq<byte>, m0: seq<byte>, m: seq<byte>, hd: HandleValue, base: nat, externs: Externs, i: nat)
    requires LoadOf(f, m0, m, hd, base, externs) && Lone(f, i) && RelValue(f, i) < 0x8000_0000
    requires Listed(f, RelValue(f, i)) && TypeBits(SymbolInfo(f, RelValue(f, i))) == 2
    requires SymbolName(f, RelValue(f, i)) in externs && externs[SymbolName(f, RelValue(f, i))] > 0
    ensures var at := PatchedAddress(f, ModeOf(hd.info), hd.ram, i);
            at + 4 <= |m| && Word(m, at) == externs[SymbolName(f, RelValue(f, i))]
  {
    hide WellFormed, Word, Half, TablesInside, Orders, Tables, LoadedAt, JobFor, PatchedAddress, DataAddress,
        CodeAddress, U32, SymAt, SymbolInfo, SymbolWord, TypeBits, CodeBit, SymbolName;
    LoadedByWords(f, m0, m, hd, base, externs, i);
    JobByWords(f, externs, ModeOf(hd.info), hd.ram, base);
    OrderInFile(f, externs, i);
    SymbolInFile(f, externs, RelValue(f, i));
  }

  lemma SameRange(m0: seq<byte>, m: seq<byte>, ram: nat, end: nat, lo: nat, hi: nat)
    requires |m| == |m0| && lo <= hi <= |m| && ram <= end <= |m| && (hi <= ram || end <= lo)
    requires m[..ram] == m0[..ram] && m[end..] == m0[end..]
    ensures m[lo..hi] == m0[lo..hi]
  {
    SameSlice(m0, m, if hi <= ram then ram else end, lo, hi);
  }

  /** The code the module runs is the file's, wherever the mode has it: copied, or left in place. */
  lemma LoadedCode(f: seq<byte>, m0: seq<byte>, m: seq<byte>, hd: HandleValue, base: nat, externs: Externs)
    requires LoadOf(f, m0, m, hd, base, externs)
    requires Apart(base, |f|, hd.ram, RamNeed(HeaderAt(m0, base), ModeOf(hd.info)))
    ensures |f| >= 28 && CodeAt(f) <= DataAt(f) <= |f|
    ensures var at := CodeAddress(f, ModeOf(hd.info), hd.ram, base);
            at + Word(f, 16) <= |m| && m[at..at + Word(f, 16)] == f[CodeAt(f)..DataAt(f)]
  {
    hide WellFormed, HeaderAt, Word, Half, Orders, SlotsAfter, TablesInside, Tables, CodeAt, DataAt, Laid, JobFor,
        RamNeed, FileSize, CodeAddress, DataAddress;
    FileShape(f, externs);
    KeptByWords(f, externs, ModeOf(hd.info), hd.ram, base);
    CodePlace(f, ModeOf(hd.info), hd.ram, base);
    var j := JobFor(f, ModeOf(hd.info), hd.ram, base, externs);
    if ModeOf(hd.info) == Xip {
      CodeInPlace(j, m0, m, f, base, CodeAt(f), DataAt(f));
    } else {
      CopiedCode(j, m0, m, f, CodeAt(f), DataAt(f));
    }
  }

  lemma Subslice(m: seq<byte>, from: nat, to: nat, lo: nat, hi: nat)
    requires from <= to <= |m| && lo <= hi <= to - from
    ensures m[from..to][lo..hi] == m[from + lo..from + hi]
  {
    var a, b := m[from..to][lo..hi], m[from + lo..from + hi];
    assert |a| == |b|;
    forall k | 0 <= k < |a|
      ensures a[k] == b[k]
    {
      assert a[k] == m[from..to][lo + k];
    }
  }

  lemma CopiedCode(j: Job, m0: seq<byte>, m: seq<byte>, f: seq<byte>, lo: nat, hi: nat)
    requires Laid(j, m0, m) && lo <= hi <= |f| && (j.kept == f[..hi] || j.kept == f[lo..hi])
    ensures hi - lo <= j.lay.data <= |m| && m[j.lay.data - (hi - lo)..j.lay.data] == f[lo..hi]
  {
    hide SlotInside, OrderStatus;
    if j.kept == f[..hi] {
      Subslice(m, j.lay.data - hi, j.lay.data, lo, hi);
      assert m[j.lay.data - hi..j.lay.data] == j.kept;
      assert f[..hi][lo..hi] == f[lo..hi];
    }
  }

  lemma CodeInPlace(j: Job, m0: seq<byte>, m: seq<byte>, f: seq<byte>, base: nat, lo: nat, hi: nat)
    requires Laid(j, m0, m) && lo <= hi <= |f| && base + |f| <= |m0| && m0[base..base + |f|] == f
    requires j.lay.ram <= j.lay.end && (base + |f| <= j.lay.ram || j.lay.end <= base)
    ensures base + hi <= |m| && m[base + lo..base + hi] == f[lo..hi]
  {
    hide SlotInside, OrderStatus;
    SameRange(m0, m, j.lay.ram, j.lay.end, base + lo, base + hi);
    Subslice(m0, base, base + |f|, lo, hi);
    assert m0[base..base + |f|][lo..hi] == f[lo..hi];
  }

  lemma CodePlace(f: seq<byte>, mode: LoadMode, ram: nat, base: nat)
    requires |f| >= 28
    ensures var at := CodeAddress(f, mode, ram, base);
            && DataAt(f) == CodeAt(f) + Word(f, 16)
            && (mode != Xip ==> at + Word(f, 16) == DataAddress(f, mode, ram))
            && (mode == CopyAll ==> at == DataAddress(f, mode, ram) - DataAt(f) + CodeAt(f))
            && (mode == Xip ==> at == base + CodeAt(f))
  {
    hide Word, Half;
  }

  lemma KeptByWords(f: seq<byte>, externs: Externs, mode: LoadMode, ram: nat, base: nat)
    requires WellFormed(f, externs)
    ensures |f| >= 28 && CodeAt(f) <= DataAt(f) <= |f|
    ensures var j := JobFor(f, mode, ram, base, externs);
            && j.kept == (match mode
                          case CopyAll => f[..DataAt(f)]
                          case CopyCode => f[CodeAt(f)..DataAt(f)]
                          case Xip => [])
            && j.lay.data == DataAddress(f, mode, ram)
            && j.lay.ram == ram && j.lay.end == ram + RamNeed(HeaderAt(f, 0), mode)
  {
    hide Number, NamesTerminated, OrderStatus, Orders, DataWords, SymCount, TargetInside, Consistent, U32;
    JobOfFile(f, mode, ram, base, externs);
  }

  /** The .bss is zero, and a word of .data that no relocation targets is the file's. */
  lemma LoadedData(f: seq<byte>, m0: seq<byte>, m: seq<byte>, hd: HandleValue, base: nat, externs: Externs, k: nat)
    requires LoadOf(f, m0, m, hd, base, externs)
    ensures |f| >= 28 && DataAt(f) + Word(f, 20) == |f| && 28 + 8 * RelCount(f) <= |f|
    ensures var at := DataAddress(f, ModeOf(hd.info), hd.ram);
            && at + Word(f, 20) + Word(f, 24) <= |m|
            && (forall a :: at + Word(f, 20) <= a < at + Word(f, 20) + Word(f, 24) ==> m[a] == 0)
            && (4 * k + 4 <= Word(f, 20)
                && (forall i :: 0 <= i < RelCount(f) ==> RelTarget(f, i) != LotCount(f) + k) ==>
                  Word(m, at + 4 * k) == Word(f, DataAt(f) + 4 * k))
  {
    hide WellFormed, Word, Half, Orders, TablesInside, DataAddress, CodeAddress, LayoutFor, DataWords, Kept, Tables;
    var j := JobFor(f, ModeOf(hd.info), hd.ram, base, externs);
    JobByWords(f, externs, ModeOf(hd.info), hd.ram, base);
    BssByWords(f, externs, ModeOf(hd.info), hd.ram, base);
    if 4 * k + 4 <= Word(f, 20) && forall i :: 0 <= i < RelCount(f) ==> RelTarget(f, i) != LotCount(f) + k {
      Untargeted(f, externs, k);
      assert SlotDone(j, m0, m, DataSlot(k), |j.orders|);
      UntargetedSlot(j.orders, j.env, DataSlot(k), j.words[k], |j.orders|);
    }
  }

  lemma Untargeted(f: seq<byte>, externs: Externs, k: nat)
    requires WellFormed(f, externs) && |f| >= 28 && 28 + 8 * RelCount(f) <= |f|
    requires forall i :: 0 <= i < RelCount(f) ==> RelTarget(f, i) != LotCount(f) + k
    ensures forall i :: 0 <= i < |Orders(Tables(f))| ==> Orders(Tables(f))[i].slot != DataSlot(k)
  {
    hide OrderStatus, NamesTerminated, Number, TablesInside, SymAt, HeaderAt, Tables, RelTarget, RelValue, Orders;
    NeedByWords(f, externs, Xip);
    forall i | 0 <= i < RelCount(f)
      ensures Orders(Tables(f))[i].slot != DataSlot(k)
    {
      OrderInFile(f, externs, i);
    }
  }

  lemma BssByWords(f: seq<byte>, externs: Externs, mode: LoadMode, ram: nat, base: nat)
    requires WellFormed(f, externs)
    ensures |f| >= 28 && 28 + 8 * RelCount(f) <= |f|
    ensures var j := JobFor(f, mode, ram, base, externs);
            j.lay.bss == j.lay.data + Word(f, 20) && j.lay.end == j.lay.bss + Word(f, 24)
  {
    hide Number, NamesTerminated, OrderStatus, Orders, Kept, DataWords, SymCount, TargetInside, Consistent;
    JobOfFile(f, mode, ram, base, externs);
  }

  // ---------------------------------------------------------------- the lookup

  /** The name a lookup compares: local symbols report "(N/A)". */
  function ReportedName(f: seq<byte>, k: nat): seq<byte>
    requires |f| >= 28 && SymbolsAt(f) + 8 * k + 12 <= |f|
  {
    if TypeBits(SymbolInfo(f, k)) == 0 then [40, 78, 47, 65, 41] else SymbolName(f, k)
  }

  /** The symbol table is one: its entry 0 is the module's name. */
  predicate HasSymbols(f: seq<byte>) {
    && |f| >= 28 && SymbolsAt(f) + 4 <= |f| && Word(f, SymbolsAt(f)) > 0
    && SymbolsAt(f) + 8 * Word(f, SymbolsAt(f)) + 4 <= |f|
    && TypeBits(SymbolInfo(f, 0)) == 3
  }

  /** Symbol `k` is the first with the name. */
  predicate FirstNamed(f: seq<byte>, name: seq<byte>, k: nat) {
    && HasSymbols(f) && k < Word(f, SymbolsAt(f)) && ReportedName(f, k) == name
    && forall j :: 0 <= j < k ==> ReportedName(f, j) != name
  }

  lemma TableByWords(f: seq<byte>, externs: Externs)
    requires WellFormed(f, externs)
    ensures var t := SymTable(Tables(f), 0);
            && |t| == (if HasSymbols(f) then Word(f, SymbolsAt(f)) else 0)
            && forall k :: 0 <= k < |t| ==>
                 && t[k].name == ReportedName(f, k) && t[k].val == SymbolWord(f, k)
                 && (t[k].typ in {Local, Exported} <==> TypeBits(SymbolInfo(f, k)) < 2)
                 && (t[k].location == InCode <==> CodeBit(SymbolInfo(f, k)))
  {
    hide Number, OrderStatus, NamesTerminated, Orders, SymAt, CString, TypeBits, CodeBit, SymbolInfo, SymbolWord;
    FileShape(f, externs);
    TablesFromFile(f, externs);
    var t := SymTable(Tables(f), 0);
    if Word(f, SymbolsAt(f)) > 0 {
      SymbolInFile(f, externs, 0);
    } else {
      NoSuchSymbol(f, externs, 0);
    }
    forall k | 0 <= k < |t|
      ensures t[k].name == ReportedName(f, k) && t[k].val == SymbolWord(f, k)
      ensures t[k].typ in {Local, Exported} <==> TypeBits(SymbolInfo(f, k)) < 2
      ensures t[k].location == InCode <==> CodeBit(SymbolInfo(f, k))
    {
      SymbolInFile(f, externs, k);
    }
  }

  /** A lookup answers 0 for a name no symbol reports; otherwise the first such symbol's word, counted from the start of
      the code or of .data if the symbol is local or exported. */
  lemma LookupByWords(f: seq<byte>, externs: Externs, code: nat, data: nat, name: seq<byte>, k: nat)
    requires WellFormed(f, externs)
    ensures var v := SymbolValue(SymTable(Tables(f), 0), U32(code), U32(data), name);
            && ((forall j: nat :: !FirstNamed(f, name, j)) ==> v == 0)
            && (FirstNamed(f, name, k) ==>
                  v == if TypeBits(SymbolInfo(f, k)) >= 2 then SymbolWord(f, k)
                       else U32(SymbolWord(f, k) + if CodeBit(SymbolInfo(f, k)) then code else data))
  {
    hide OrderStatus, NamesTerminated, Number, SymTable, ReportedName, SymbolWord, SymbolInfo, TypeBits, CodeBit,
        Tables, TablesInside, U32;
    TableByWords(f, externs);
    var t := SymTable(Tables(f), 0);
    FindNameIsLeast(t, name, 0);
    match FindName(t, name, 0)
    case None =>
    case Some(i) =>
      assert FirstNamed(f, name, i);
      U32Add(code, SymbolWord(f, i));
      U32Add(data, SymbolWord(f, i));
  }

  /** After a load, udynlink_get_symbol_value answers by the words of the file: 0 for an unknown name, an address in the
      module's own code or .data for a local or exported symbol. */
  lemma LoadedLookup(f: seq<byte>, m0: seq<byte>, m: seq<byte>, hd: HandleValue, base: nat, externs: Externs,
                     name: seq<byte>, k: nat)
    requires LoadOf(f, m0, m, hd, base, externs) && |m0| < 0x1_0000_0000
    requires Apart(base, |f|, hd.ram, RamNeed(HeaderAt(m0, base), ModeOf(hd.info)))
    ensures TablesInside(m, hd.header)
    ensures var v := SymbolValue(SymTable(m, hd.header), CodePointer(m, hd), DataPointer(m, hd), name);
            && ((forall j: nat :: !FirstNamed(f, name, j)) ==> v == 0)
            && (FirstNamed(f, name, k) ==>
                  v == if TypeBits(SymbolInfo(f, k)) >= 2 then SymbolWord(f, k)
                       else U32(SymbolWord(f, k) + if CodeBit(SymbolInfo(f, k))
                                                   then CodeAddress(f, ModeOf(hd.info), hd.ram, base)
                                                   else DataAddress(f, ModeOf(hd.info), hd.ram)))
  {
    hide WellFormed, HeaderAt, Word, Half, SymTable, SymbolValue, SymbolWord, SymbolInfo, TypeBits, CodeBit, Tables,
        TablesInside, U32, LoadedAt, FirstNamed, CodeAddress, DataAddress, CodePointer, DataPointer, RamNeed, JobFor;
    LoadedPointers(f, m0, m, hd, base, externs);
    var code, data := CodeAddress(f, ModeOf(hd.info), hd.ram, base), DataAddress(f, ModeOf(hd.info), hd.ram);
    LookupByWords(f, externs, code, data, name, k);
  }

  lemma LoadedPointers(f: seq<byte>, m0: seq<byte>, m: seq<byte>, hd: HandleValue, base: nat, externs: Externs)
    requires LoadOf(f, m0, m, hd, base, externs) && |m0| < 0x1_0000_0000
    requires Apart(base, |f|, hd.ram, RamNeed(HeaderAt(m0, base), ModeOf(hd.info)))
    ensures |f| >= 28 && WellFormed(f, externs)
    ensures TablesInside(m, hd.header) && SymTable(m, hd.header) == SymTable(Tables(f), 0)
    ensures CodePointer(m, hd) == U32(CodeAddress(f, ModeOf(hd.info), hd.ram, base))
    ensures DataPointer(m, hd) == U32(DataAddress(f, ModeOf(hd.info), hd.ram))
  {
    hide WellFormed, HeaderAt, Word, Half, SymTable, Tables, SymCount, U32, LoadedAt, CodeAddress, DataAddress,
        RamNeed, CodePointer, DataPointer, JobFor;
    LoadedTables(m0, m, hd, base, externs);
    PlacesByWords(f, externs, ModeOf(hd.info), hd.ram, base);
  }
}
