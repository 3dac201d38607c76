/** What a load promises across operations: the verdict, the heap balance, agreement of the load modes and of the
    lookup. */
module LinkResults {
  import opened Wrappers
  import opened Bytes
  import opened ModuleImage
  import opened LinkSpec
  import opened LinkProgress
  import opened UdynLink

  /** A load succeeds if and only if the signature, the RAM and every relocation are good;
      otherwise it reports its first failing stage, and among the relocations the first bad one. */
  lemma VerdictMeaning(m: seq<byte>, base: nat, loadAddr: nat, loadSize: nat, mode: LoadMode, externs: Externs,
      grant: nat)
    requires Loadable(m, base, externs)
    ensures var v := Verdict(m, base, loadAddr, loadSize, mode, externs, grant);
            if Word(m, base) != MODULE_SIGN then v == InvalidSign
            else
              var need := RamNeed(HeaderAt(m, base), mode);
              var orders := Orders(Tables(FileAt(m, base)));
              && (v == Success <==>
                    && (need == 0 || (if loadAddr == 0 then grant != 0 else need <= loadSize))
                    && forall i :: 0 <= i < |orders| ==> OrderStatus(orders[i], externs) == Success)
              && (need > 0 && loadAddr == 0 && grant == 0 ==> v == OutOfMemory)
              && (need > 0 && loadAddr != 0 && loadSize < need ==> v == RamLenLow)
              && (RamStatus(need, loadAddr, loadSize, grant) == Success ==>
                    forall i: nat :: FirstBad(orders, externs, 0, i) ==> v == OrderStatus(orders[i], externs))
  {
    hide Half, Number, Orders, RamNeed, TablesInside, NamesTerminated, OrderStatus;
    if Word(m, base) == MODULE_SIGN {
      LinkStatusMeaning(Orders(Tables(FileAt(m, base))), externs, 0);
    }
  }

  /** For a well-formed module the RAM size computed with wrap-around is exact, and the layout tiles it. */
  lemma RamSizeIsExact(m: seq<byte>, hd: HandleValue, externs: Externs)
    requires hd.header + HEADER_SIZE <= |m| && hd.header + FileSize(HeaderAt(m, hd.header)) <= |m|
    requires WellFormed(FileAt(m, hd.header), externs)
    ensures var h := HeaderAt(m, hd.header);
            var lay := LayoutFor(h, ModeOf(hd.info), hd.ram, hd.header);
            && RamSize(m, hd) == RamNeed(h, ModeOf(hd.info))
            && Tiles(Parts(h, ModeOf(hd.info), lay), hd.ram, hd.ram + RamSize(m, hd))
  {
    hide HeaderAt, Orders, TablesInside, NamesTerminated, OrderStatus, Tiles, RamNeed, RamSize;
    NeedIsExact(m, hd, FileAt(m, hd.header), externs);
    LayoutTiles(HeaderAt(m, hd.header), ModeOf(hd.info), hd.ram, hd.header);
  }

  /** Unloading a loaded module gives back exactly what loading took: the allocated block, never the caller's RAM.
      Unloading accepts the handle unless the module was left in place at address 0. */
  lemma UnloadUndoesLoad(m0: seq<byte>, m: seq<byte>, heap: map<nat, nat>, hd: HandleValue, base: nat,
                         loadAddr: nat, loadSize: nat, externs: Externs, grant: nat)
    requires Loadable(m0, base, externs) && Word(m0, base) == MODULE_SIGN
    requires LoadedAt(m0, m, hd, base, externs)
    requires var need := RamNeed(HeaderAt(m0, base), ModeOf(hd.info));
             && RoomFor(m0, heap, base, ModeOf(hd.info), loadAddr, loadSize, grant)
             && RamStatus(need, loadAddr, loadSize, grant) == Success
             && hd.ram == RamAddress(need, loadAddr, grant)
             && (need > 0 ==> (ForeignRam(hd.info) <==> loadAddr != 0))
    ensures var need := RamNeed(HeaderAt(m0, base), ModeOf(hd.info));
            && HeapAfterUnload(HeapAfterLoad(heap, need, loadAddr, grant), hd) == heap
            && (loadAddr != 0 ==> HeapAfterLoad(heap, need, loadAddr, grant) == heap)
            && (hd.ram != 0 && !ForeignRam(hd.info) ==>
                  var after := HeapAfterLoad(heap, need, loadAddr, grant);
                  hd.ram in after && after[hd.ram] == need)
            && (hd.header == 0 <==> ModeOf(hd.info) != CopyAll && base == 0)
  {
    hide Half, Number, Orders, WellFormed, Laid, SlotsAfter, DataWords, Kept, TablesInside;
    var need := RamNeed(HeaderAt(m0, base), ModeOf(hd.info));
    if need > 0 && loadAddr == 0 {
      assert heap[grant := need] - {grant} == heap;
    }
  }

  lemma {:induction false} LinkErrors(orders: seq<Order>, externs: Externs, i: nat)
    requires i <= |orders|
    ensures LinkStatus(orders, externs, i) in {Success, BadRelocationTable, UnknownSymbol}
    decreases |orders| - i
  {
    if i < |orders| {
      LinkErrors(orders, externs, i + 1);
    }
  }

  /** A load into a handle that still names a block frees that block exactly when it runs out of memory, or when the
      signature is bad and the handle owns the block; in every other case, success included, the block stays allocated
      while the handle forgets it. A handle that names none loses nothing. */
  lemma OccupiedHandle(m: seq<byte>, heap: map<nat, nat>, base: nat, loadAddr: nat, loadSize: nat, mode: LoadMode,
                       externs: Externs, grant: nat, hd: HandleValue)
    requires Loadable(m, base, externs)
    ensures var v := Verdict(m, base, loadAddr, loadSize, mode, externs, grant);
            var left := WithoutBlock(heap, FreedBefore(m, base, loadAddr, loadSize, mode, grant, hd));
            && (hd.ram == 0 ==> left == heap)
            && (hd.ram != 0 && hd.ram in heap ==>
                  (hd.ram !in left <==> v == OutOfMemory || (v == InvalidSign && !ForeignRam(hd.info))))
  {
    hide HeaderAt, Word, Orders, WellFormed, LinkStatus, RamNeed;
    if Word(m, base) == MODULE_SIGN {
      TablesOfFile(m, base, externs);
      LinkErrors(Orders(Tables(FileAt(m, base))), externs, 0);
    }
  }

  lemma TablesOfFile(m: seq<byte>, base: nat, externs: Externs)
    requires Loadable(m, base, externs) && Word(m, base) == MODULE_SIGN
    ensures TablesInside(Tables(FileAt(m, base)), 0)
  {
    hide HeaderAt, Word, Orders, TablesInside, NamesTerminated;
  }

  /** After a load the tables in use are the module file's, wherever the mode left or copied them,
      and the section pointers computed from the handle are those the relocations used. */
  lemma LoadedTables(m0: seq<byte>, m: seq<byte>, hd: HandleValue, base: nat, externs: Externs)
    requires Loadable(m0, base, externs) && Word(m0, base) == MODULE_SIGN && |m0| < 0x1_0000_0000
    requires LoadedAt(m0, m, hd, base, externs)
    requires Apart(base, FileSize(HeaderAt(m0, base)), hd.ram, RamNeed(HeaderAt(m0, base), ModeOf(hd.info)))
    ensures var tables := Tables(FileAt(m0, base));
            && TablesInside(m, hd.header)
            && HeaderAt(m, hd.header) == HeaderAt(tables, 0)
            && SymTable(m, hd.header) == SymTable(tables, 0)
            && EnvOf(m, hd, externs) == JobFor(FileAt(m0, base), ModeOf(hd.info), hd.ram, base, externs).env
  {
    hide Half, Number, NamesTerminated, SymAt, Orders, DataWords, Kept, Laid, SlotsAfter, TablesAt, SymCount,
        OrderStatus;
    var img := FileAt(m0, base);
    var j := JobFor(img, ModeOf(hd.info), hd.ram, base, externs);
    HeaderOfTables(img);
    TablesAtStart(img, ModeOf(hd.info), hd.ram, base, externs, m0);
    ReadsModuleTables(j, Tables(img), m0, m);
    SameSymTable(m, hd.header, Tables(img));
  }

  lemma SameSymTable(m: seq<byte>, a: nat, tables: seq<byte>)
    requires TablesInside(m, a) && TablesInside(tables, 0)
    requires forall i: nat :: SymAt(m, a, i) == SymAt(tables, 0, i)
    requires SymCount(m, a) == SymCount(tables, 0)
    ensures SymTable(m, a) == SymTable(tables, 0)
  {
  }

  /** The address-free value the abstract linker gives slot `s` of a module file. */
  function SlotMeaning(img: seq<byte>, externs: Externs, s: Slot): Reloc
    requires |img| >= HEADER_SIZE && |img| == FileSize(HeaderAt(img, 0)) && TablesInside(Tables(img), 0)
    requires s.DataSlot? ==> s.k < |DataWords(img)|
  {
    var orders := Orders(Tables(img));
    SymbolicAfter(orders, externs, s, Reloc(if s.DataSlot? then DataWords(img)[s.k] else 0, 0, 0), |orders|)
  }

  /** Slots whose value a load determines: the words of .data, and the LOT entries some relocation stores to. */
  ghost predicate Determined(img: seq<byte>, externs: Externs, s: Slot)
    requires |img| >= HEADER_SIZE && |img| == FileSize(HeaderAt(img, 0)) && TablesInside(Tables(img), 0)
  {
    var orders := Orders(Tables(img));
    match s
    case DataSlot(k) => k < |DataWords(img)|
    case LotSlot(k) => k < HeaderAt(img, 0).numLot
                       && exists i :: 0 <= i < |orders| && orders[i].slot == s && Stores(orders[i], externs)
  }

  lemma JobMeaning(j: Job, m0: seq<byte>, m: seq<byte>, s: Slot)
    requires Laid(j, m0, m) && SlotsAfter(j, m0, m, |j.orders|) && SlotInside(j, s)
    ensures SlotAddress(j, s) + 4 <= |m|
    ensures Word(m, SlotAddress(j, s))
            == Eval(SymbolicAfter(j.orders, j.env.externs, s, Reloc(InitialWord(j, m0, s), 0, 0), |j.orders|),
                    j.env.code, j.env.data)
  {
    hide Word, OrderStatus;
    assert SlotDone(j, m0, m, s, |j.orders|);
    LinkRefinesSymbolic(j.orders, j.env, s, Reloc(InitialWord(j, m0, s), 0, 0), |j.orders|);
  }

  lemma LaidBounds(j: Job, m0: seq<byte>, m: seq<byte>)
    requires Laid(j, m0, m)
    ensures j.lay.ram + 4 * j.lots <= |m0|
  {
  }

  /** Every load mode, at every address, gives a slot the same meaning, read at that load's own code and data addresses.
      */
  lemma ModesAgree(m0: seq<byte>, m: seq<byte>, hd: HandleValue, base: nat, externs: Externs, s: Slot)
    requires LoadedAt(m0, m, hd, base, externs) && Determined(FileAt(m0, base), externs, s)
    ensures var j := JobFor(FileAt(m0, base), ModeOf(hd.info), hd.ram, base, externs);
            && SlotAddress(j, s) + 4 <= |m|
            && Word(m, SlotAddress(j, s)) == Eval(SlotMeaning(FileAt(m0, base), externs, s), j.env.code, j.env.data)
  {
    hide Half, Word, NamesTerminated, Orders, Kept, Stores, TablesInside, LayoutFor, Laid, SlotsAfter, Eval;
    var img := FileAt(m0, base);
    var j := JobFor(img, ModeOf(hd.info), hd.ram, base, externs);
    JobMeaning(j, m0, m, s);
    assert j.lay.ram + 4 * j.lots <= |m0| by { LaidBounds(j, m0, m); }
    if s.LotSlot? {
      var i :| 0 <= i < |j.orders| && j.orders[i].slot == s && Stores(j.orders[i], externs);
      StoringForgets(j.orders, externs, s, Reloc(InitialWord(j, m0, s), 0, 0), Reloc(0, 0, 0), i, |j.orders|);
    }
  }

  lemma EvalMove(r: Reloc, code: word, data: word, code': word, data': word)
    ensures Eval(r, code', data')
            == U32(Eval(r, code, data) + Shift(r, code' as int - code as int, data' as int - data as int))
  {
    hide Eval, Shift;
    assert U32(code as int + (code' as int - code as int)) == code';
    assert U32(data as int + (data' as int - data as int)) == data';
    EvalShift(r, code, data, code' as int - code as int, data' as int - data as int);
  }

  /** Moving a module: two loads of one file, in any two modes and at any two addresses, and even into memories that
      otherwise differ, give words that differ by the multiples of the code and data deltas the slot's meaning has. */
  lemma MovedModule(m0: seq<byte>, m: seq<byte>, hd: HandleValue, base: nat,
                    n0: seq<byte>, n: seq<byte>, hd': HandleValue, base': nat, externs: Externs, s: Slot)
    requires LoadedAt(m0, m, hd, base, externs) && LoadedAt(n0, n, hd', base', externs)
    requires FileAt(n0, base') == FileAt(m0, base) && Determined(FileAt(m0, base), externs, s)
    ensures var j := JobFor(FileAt(m0, base), ModeOf(hd.info), hd.ram, base, externs);
            var j' := JobFor(FileAt(n0, base'), ModeOf(hd'.info), hd'.ram, base', externs);
            var r := SlotMeaning(FileAt(m0, base), externs, s);
            && SlotAddress(j, s) + 4 <= |m| && SlotAddress(j', s) + 4 <= |n|
            && Word(n, SlotAddress(j', s))
               == U32(Word(m, SlotAddress(j, s)) + Shift(r, j'.env.code - j.env.code, j'.env.data - j.env.data))
  {
    hide Word, Half, Laid, SlotsAfter, SlotMeaning, Orders, TablesInside, LayoutFor, Eval, JobFor, U32, DataWords,
        Shift;
    ModesAgree(m0, m, hd, base, externs, s);
    ModesAgree(n0, n, hd', base', externs, s);
    var e := JobFor(FileAt(m0, base), ModeOf(hd.info), hd.ram, base, externs).env;
    var e' := JobFor(FileAt(n0, base'), ModeOf(hd'.info), hd'.ram, base', externs).env;
    EvalMove(SlotMeaning(FileAt(m0, base), externs, s), e.code, e.data, e'.code, e'.data);
  }

  /** The multiples for a slot with a single relocation. */
  lemma {:induction false} SymbolicOnce(orders: seq<Order>, externs: Externs, s: Slot, r0: Reloc, i: nat, n: nat)
    requires i < |orders| && n <= |orders| && forall j :: 0 <= j < |orders| ==> (orders[j].slot == s <==> j == i)
    ensures SymbolicAfter(orders, externs, s, r0, n) == if i < n then SymbolicPatched(r0, orders[i], externs) else r0
  {
    if n > 0 {
      SymbolicOnce(orders, externs, s, r0, i, n - 1);
    }
  }

  lemma OnceShifts(r: Reloc, o: Order, externs: Externs, dCode: int, dData: int)
    requires r.nCode == 0 && r.nData == 0
    ensures Shift(SymbolicPatched(r, o, externs), dCode, dData) == ShiftOf(o, dCode, dData)
  {
  }

  lemma MeaningOnce(img: seq<byte>, externs: Externs, s: Slot, i: nat, dCode: int, dData: int)
    requires |img| >= HEADER_SIZE && |img| == FileSize(HeaderAt(img, 0)) && TablesInside(Tables(img), 0)
    requires s.DataSlot? ==> s.k < |DataWords(img)|
    requires var orders := Orders(Tables(img));
             i < |orders| && forall j :: 0 <= j < |orders| ==> (orders[j].slot == s <==> j == i)
    ensures Shift(SlotMeaning(img, externs, s), dCode, dData) == ShiftOf(Orders(Tables(img))[i], dCode, dData)
  {
    hide Word, Half, Orders, TablesInside, DataWords, Shift, ShiftOf, SymbolicPatched, SymbolicAfter;
    var orders := Orders(Tables(img));
    var r0 := Reloc(if s.DataSlot? then DataWords(img)[s.k] else 0, 0, 0);
    SymbolicOnce(orders, externs, s, r0, i, |orders|);
    OnceShifts(r0, orders[i], externs, dCode, dData);
  }

  /** A slot with a single relocation moves with the code if that names a code symbol, with the data if it names a data
      symbol or carries the top bit, and not at all if it names an extern. */
  lemma MovedSlot(m0: seq<byte>, m: seq<byte>, hd: HandleValue, base: nat,
                  n0: seq<byte>, n: seq<byte>, hd': HandleValue, base': nat, externs: Externs, s: Slot, i: nat)
    requires LoadedAt(m0, m, hd, base, externs) && LoadedAt(n0, n, hd', base', externs)
    requires FileAt(n0, base') == FileAt(m0, base) && Determined(FileAt(m0, base), externs, s)
    requires var orders := Orders(Tables(FileAt(m0, base)));
             i < |orders| && forall j :: 0 <= j < |orders| ==> (orders[j].slot == s <==> j == i)
    ensures var j := JobFor(FileAt(m0, base), ModeOf(hd.info), hd.ram, base, externs);
            var j' := JobFor(FileAt(n0, base'), ModeOf(hd'.info), hd'.ram, base', externs);
            && SlotAddress(j, s) + 4 <= |m| && SlotAddress(j', s) + 4 <= |n|
            && Word(n, SlotAddress(j', s))
               == U32(Word(m, SlotAddress(j, s))
                      + ShiftOf(Orders(Tables(FileAt(m0, base)))[i], j'.env.code - j.env.code,
                          j'.env.data - j.env.data))
  {
    hide Word, Half, Laid, SlotsAfter, SlotMeaning, Orders, TablesInside, LayoutFor, ShiftOf, DataWords, Shift, U32;
    MovedModule(m0, m, hd, base, n0, n, hd', base', externs, s);
    var e := JobFor(FileAt(m0, base), ModeOf(hd.info), hd.ram, base, externs).env;
    var e' := JobFor(FileAt(n0, base'), ModeOf(hd'.info), hd'.ram, base', externs).env;
    MeaningOnce(FileAt(m0, base), externs, s, i, e'.code - e.code, e'.data - e.data);
  }

  /** After a load, the slot of an exported symbol that is the first of its name holds what looking that name up
      answers. */
  lemma LoadedSlotIsLookup(m0: seq<byte>, m: seq<byte>, hd: HandleValue, base: nat, externs: Externs, i: nat,
      index: nat)
    requires Loadable(m0, base, externs) && Word(m0, base) == MODULE_SIGN && |m0| < 0x1_0000_0000
    requires LoadedAt(m0, m, hd, base, externs)
    requires Apart(base, FileSize(HeaderAt(m0, base)), hd.ram, RamNeed(HeaderAt(m0, base), ModeOf(hd.info)))
    requires var orders := Orders(Tables(FileAt(m0, base)));
             var t := SymTable(Tables(FileAt(m0, base)), 0);
             && i < |orders| && index < |t|
             && orders[i].Refer? && orders[i].sym == Some(t[index]) && t[index].typ == Exported
             && (forall j :: i < j < |orders| ==> orders[j].slot != orders[i].slot)
             && (forall j :: 0 <= j < index ==> t[j].name != t[index].name)
    ensures var j := JobFor(FileAt(m0, base), ModeOf(hd.info), hd.ram, base, externs);
            var name := SymTable(Tables(FileAt(m0, base)), 0)[index].name;
            && TablesInside(m, hd.header)
            && SlotAddress(j, j.orders[i].slot) + 4 <= |m|
            && Word(m, SlotAddress(j, j.orders[i].slot))
               == SymbolValue(SymTable(m, hd.header), CodePointer(m, hd), DataPointer(m, hd), name)
  {
    LoadedTables(m0, m, hd, base, externs);
    hide Half, Number, NamesTerminated, SymAt, Orders, Kept, SymCount, TablesInside, LayoutFor, DataWords, SymTable,
        SymbolValue;
    var img := FileAt(m0, base);
    var j := JobFor(img, ModeOf(hd.info), hd.ram, base, externs);
    assert OrderStatus(j.orders[i], j.env.externs) == Success;
    assert SlotInside(j, j.orders[i].slot);
    assert SlotDone(j, m0, m, j.orders[i].slot, |j.orders|);
    LookupAgrees(j.orders, SymTable(Tables(img), 0), j.env, InitialWord(j, m0, j.orders[i].slot), i, index);
  }
}
