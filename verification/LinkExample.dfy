/** A module file that meets every hypothesis of the linker's results, and the words a load makes of it: LOT entries for
    the exported function "f" and for "h" of the host, a word of .data for a local variable, and one with a rebased
    address. */
module LinkExample {
  import opened Wrappers
  import opened Bytes
  import opened ModuleImage
  import opened LinkSpec
  import opened LinkProgress
  import opened UdynLink
  import opened LinkResults
  import opened LinkWords

  const NAME_M: word := 0x3000_0024
  const LOCAL_DATA: word := 0
  const NAME_F: word := 0x5000_0026
  const NAME_H: word := 0x2000_0028

  /** The host offers "h". */
  const HOST: Externs := map[[104] := 0x0800_1234]

  function Words(ws: seq<word>): (s: seq<byte>)
    ensures |s| == 4 * |ws|
  {
    if ws == [] then [] else LittleEndian(ws[0]) + Words(ws[1..])
  }

  lemma {:induction false} WordOfWords(pre: seq<byte>, ws: seq<word>, post: seq<byte>, k: nat)
    requires k < |ws|
    ensures Word(pre + Words(ws) + post, |pre| + 4 * k) == ws[k]
    decreases k
  {
    var m := pre + Words(ws) + post;
    var first := LittleEndian(ws[0]);
    if k == 0 {
      assert m[|pre|..|pre| + 4] == first == first[0..4];
      NumberSame(m, |pre|, first, 0, 4);
      WordOfBytes(ws[0]);
    } else {
      assert m == (pre + first) + Words(ws[1..]) + post;
      WordOfWords(pre + first, ws[1..], post, k - 1);
    }
  }

  /** Signature, CRC, two LOT entries and four relocations, sizes, relocations, symbols, names, code and data. */
  const HEAD: seq<byte> := Words([MODULE_SIGN, 0])
  const COUNTS: seq<byte> := [2, 0, 4, 0]
  const BODY: seq<word> := [44, 12, 8, 16, 0, 2, 1, 3, 2, 0x8000_0010, 3, 1,
                            4, NAME_M, 0, LOCAL_DATA, 4, NAME_F, 2, NAME_H, 0]
  const REST: seq<byte> := [109, 0, 102, 0, 104, 0, 0, 0, 0, 0, 0, 0, 0, 0, 0, 0, 0, 0, 0, 0, 0x20, 0, 0, 0, 0, 0, 0, 0]

  function File(): (f: seq<byte>)
    ensures |f| == 124
  {
    HEAD + COUNTS + Words(BODY) + REST
  }

  lemma FileWords()
    ensures File()[96..] == REST
    ensures Word(File(), 0) == MODULE_SIGN && Half(File(), 8) == 2 && Half(File(), 10) == 4
    ensures forall k :: 0 <= k < |BODY| ==> Word(File(), 12 + 4 * k) == BODY[k]
  {
    assert |HEAD| == 8 && |Words(BODY)| == 84;
    assert File() == [] + HEAD + (COUNTS + Words(BODY) + REST);
    WordOfWords([], [MODULE_SIGN, 0], COUNTS + Words(BODY) + REST, 0);
    forall k | 0 <= k < |BODY|
      ensures Word(File(), 12 + 4 * k) == BODY[k]
    {
      WordOfWords(HEAD + COUNTS, BODY, REST, k);
    }
    assert File()[8..12] == COUNTS;
    NumberSame(File(), 8, COUNTS, 0, 2);
    NumberSame(File(), 10, COUNTS, 2, 2);
    assert Number(COUNTS, 0, 2) == 2 && Number(COUNTS, 2, 2) == 4 by {
      assert Number(COUNTS, 1, 1) == 0 && Number(COUNTS, 3, 1) == 0;
    }
  }

  const HEADER := Header(MODULE_SIGN, 2, 4, 44, 12, 8, 16)

  lemma FileHeader()
    ensures HeaderAt(File(), 0) == HEADER
  {
    hide File, Word, Half;
    FileWords();
    assert Word(File(), 12 + 4 * 0) == BODY[0] && Word(File(), 12 + 4 * 1) == BODY[1];
    assert Word(File(), 12 + 4 * 2) == BODY[2] && Word(File(), 12 + 4 * 3) == BODY[3];
  }

  /** The header, the four relocations and the four symbols, and nothing behind them. */
  ghost predicate IsTables(t: seq<byte>) {
    && |t| == 104 && HeaderAt(t, 0) == HEADER
    && (forall k :: 4 <= k < |BODY| ==> Word(t, 12 + 4 * k) == BODY[k])
    && t[96..] == REST[..8]
  }

  lemma FileTables()
    ensures IsTables(File()[..104])
  {
    hide File, Word, Half;
    FileHeader();
    FileWords();
    HeaderOfSlice(File(), 0, 104);
    assert File()[..104] == File()[0..104];
    forall k | 4 <= k < |BODY|
      ensures Word(File()[..104], 12 + 4 * k) == BODY[k]
    {
      WordOfSlice(File(), 0, 104, 12 + 4 * k);
    }
    assert File()[..104][96..] == File()[96..][..8];
  }

  lemma TableWord(t: seq<byte>, k: nat)
    requires IsTables(t) && 4 <= k < |BODY|
    ensures Word(t, 12 + 4 * k) == BODY[k]
  {
  }

  lemma TablesAreInside(t: seq<byte>)
    requires IsTables(t)
    ensures TablesInside(t, 0) && SymCount(t, 0) == 4
  {
    TableWord(t, 12);
    hide Word, Half, IsTables;
  }

  lemma TableNames(t: seq<byte>)
    requires IsTables(t)
    ensures Terminated(t, 96, 104) && Terminated(t, 98, 104) && Terminated(t, 100, 104)
    ensures CString(t, 96) == [109] && CString(t, 98) == [102] && CString(t, 100) == [104]
  {
    assert t[96] == t[96..][0] == 109 && t[97] == t[96..][1] == 0;
    assert t[98] == t[96..][2] == 102 && t[99] == t[96..][3] == 0;
    assert t[100] == t[96..][4] == 104 && t[101] == t[96..][5] == 0;
  }

  const SYMBOLS := [Sym([109], 0, ModuleName, InData), Sym(NO_NAME, 4, Local, InData), Sym([102], 2, Exported, InCode),
                    Sym([104], 0, Extern, InData)]

  lemma TableSymbols(t: seq<byte>)
    requires IsTables(t) && TablesInside(t, 0)
    ensures NamesTerminated(t, 0)
    ensures SymAt(t, 0, 0) == Some(SYMBOLS[0]) && SymAt(t, 0, 1) == Some(SYMBOLS[1])
    ensures SymAt(t, 0, 2) == Some(SYMBOLS[2]) && SymAt(t, 0, 3) == Some(SYMBOLS[3])
    ensures SymTable(t, 0) == SYMBOLS
  {
    hide Word, Half, CString, Terminated;
    TablesAreInside(t);
    TableNames(t);
    TableWord(t, 13);
    TableWord(t, 14);
    TableWord(t, 15);
    TableWord(t, 16);
    TableWord(t, 17);
    TableWord(t, 18);
    TableWord(t, 19);
    TableWord(t, 20);
    assert NameWord(t, 0, 0) == NAME_M && NameWord(t, 0, 1) == LOCAL_DATA;
    assert NameWord(t, 0, 2) == NAME_F && NameWord(t, 0, 3) == NAME_H;
  }

  lemma TableRels(t: seq<byte>)
    requires IsTables(t) && TablesInside(t, 0)
    ensures HeaderAt(t, 0) == HEADER
    ensures RelAt(t, 0, 0) == Rel(0, 2) && RelAt(t, 0, 1) == Rel(1, 3)
    ensures RelAt(t, 0, 2) == Rel(2, 0x8000_0010) && RelAt(t, 0, 3) == Rel(3, 1)
  {
    hide Word, Half;
    TableWord(t, 4);
    TableWord(t, 5);
    TableWord(t, 6);
    TableWord(t, 7);
    TableWord(t, 8);
    TableWord(t, 9);
    TableWord(t, 10);
    TableWord(t, 11);
  }

  const ORDERS := [Refer(LotSlot(0), Some(SYMBOLS[2])), Refer(LotSlot(1), Some(SYMBOLS[3])),
                   Rebase(DataSlot(0), 0x10), Refer(DataSlot(1), Some(SYMBOLS[1]))]

  lemma TableOrders(t: seq<byte>)
    requires IsTables(t) && TablesInside(t, 0)
    ensures Orders(t) == ORDERS
  {
    hide Word, Half, SymAt, NamesTerminated, SymTable, IsTables, RelAt;
    TableSymbols(t);
    TableRels(t);
  }

  /** A module file with such a header, such relocations, such symbols and such data. */
  ghost predicate IsExample(file: seq<byte>) {
    && |file| == 124 && WellFormed(file, HOST) && HeaderAt(file, 0) == HEADER && IsRaw(file)
    && Orders(Tables(file)) == ORDERS && SymTable(Tables(file), 0) == SYMBOLS
  }

  /** The words and bytes of the file. */
  predicate IsRaw(file: seq<byte>) {
    && |file| == 124 && Half(file, 8) == 2 && Half(file, 10) == 4 && Word(file, 116) == 0x20
    && (forall k :: 0 <= k < |BODY| ==> Word(file, 12 + 4 * k) == BODY[k])
    && file[96..] == REST
  }

  lemma DataWord(file: seq<byte>)
    requires |file| == 124 && file[96..] == REST
    ensures Word(file, 116) == 0x20
  {
    hide File;
    assert file[116] == file[96..][20] == 0x20 && file[117] == file[96..][21] == 0;
    assert file[118] == file[96..][22] == 0 && file[119] == file[96..][23] == 0;
    assert Number(file, 119, 1) == 0;
    assert Number(file, 118, 2) == 0;
    assert Number(file, 117, 3) == 0;
  }

  /** The file meets the hypotheses of the linker's results, and its tables say what they were written to say. */
  lemma FileIsExample()
    ensures IsExample(File())
  {
    hide File, Word, Half, NamesTerminated, SymTable, Orders, TablesInside, IsTables, SymAt;
    FileHeader();
    FileWords();
    DataWord(File());
    FileTables();
    TablesAreInside(File()[..104]);
    TableSymbols(File()[..104]);
    TableOrders(File()[..104]);
  }

  lemma ExampleInMemory(m: seq<byte>, file: seq<byte>)
    requires IsExample(file) && |m| == 0x1_0000 && m[0x1000..0x1000 + 124] == file
    ensures HeaderAt(m, 0x1000) == HEADER
    ensures FileAt(m, 0x1000) == file && Loadable(m, 0x1000, HOST) && Word(m, 0x1000) == MODULE_SIGN
  {
    hide Word, Half, NamesTerminated, SymTable, Orders, TablesInside, IsRaw;
    HeaderOfSlice(m, 0x1000, 0x1000 + 124);
  }

  lemma ExampleVerdict(m: seq<byte>, file: seq<byte>)
    requires IsExample(file) && |m| == 0x1_0000 && m[0x1000..0x1000 + 124] == file
    ensures Loadable(m, 0x1000, HOST) && Verdict(m, 0x1000, 0x4000, 0x2000, CopyAll, HOST, 0) == Success
    ensures RamNeed(HeaderAt(m, 0x1000), CopyAll) == 148
  {
    hide Word, Half, NamesTerminated, SymTable, Orders, TablesInside, Loadable, FileAt, IsRaw;
    ExampleInMemory(m, file);
    assert OrderStatus(ORDERS[1], HOST) == Success;
    assert LinkStatus(ORDERS, HOST, 4) == Success;
    assert LinkStatus(ORDERS, HOST, 3) == Success;
    assert LinkStatus(ORDERS, HOST, 2) == Success;
    assert LinkStatus(ORDERS, HOST, 1) == Success;
  }

  lemma RawWord(file: seq<byte>, k: nat)
    requires IsRaw(file) && k < |BODY|
    ensures Word(file, 12 + 4 * k) == BODY[k]
  {
  }

  lemma RawRelations(file: seq<byte>)
    requires IsRaw(file)
    ensures LotCount(file) == 2 && RelCount(file) == 4
    ensures SymbolsAt(file) == 60 && CodeAt(file) == 104 && DataAt(file) == 116
    ensures RelTarget(file, 0) == 0 && RelTarget(file, 1) == 1 && RelTarget(file, 2) == 2 && RelTarget(file, 3) == 3
    ensures RelValue(file, 0) == 2 && RelValue(file, 1) == 3
    ensures RelValue(file, 2) == 0x8000_0010 && RelValue(file, 3) == 1
    ensures Lone(file, 0) && Lone(file, 1) && Lone(file, 2) && Lone(file, 3)
  {
    hide Word, Half;
    RawWord(file, 0);
    RawWord(file, 1);
    RawWord(file, 4);
    RawWord(file, 5);
    RawWord(file, 6);
    RawWord(file, 7);
    RawWord(file, 8);
    RawWord(file, 9);
    RawWord(file, 10);
    RawWord(file, 11);
  }

  lemma RawSymbols(file: seq<byte>)
    requires IsRaw(file)
    ensures SymbolsAt(file) == 60 && Word(file, 60) == 4 && Listed(file, 1) && Listed(file, 2) && Listed(file, 3)
    ensures SymbolInfo(file, 0) == NAME_M
    ensures SymbolInfo(file, 1) == LOCAL_DATA && SymbolWord(file, 1) == 4
    ensures SymbolInfo(file, 2) == NAME_F && SymbolWord(file, 2) == 2
    ensures SymbolInfo(file, 3) == NAME_H && SymbolWord(file, 3) == 0
  {
    hide Word;
    RawWord(file, 12);
    RawWord(file, 13);
    RawWord(file, 15);
    RawWord(file, 16);
    RawWord(file, 17);
    RawWord(file, 18);
    RawWord(file, 19);
    RawWord(file, 20);
  }

  lemma NameOf(file: seq<byte>, info: word, at: nat)
    requires at + 1 < |file| && file[at] != 0 && file[at + 1] == 0 && at == 60 + info % 0x1000_0000
    ensures CString(file, 60 + info % 0x1000_0000) == [file[at]]
  {
    assert CString(file, at + 1) == [];
  }

  lemma RawNames(file: seq<byte>)
    requires IsRaw(file) && SymbolsAt(file) == 60
    requires SymbolInfo(file, 0) == NAME_M && SymbolInfo(file, 2) == NAME_F && SymbolInfo(file, 3) == NAME_H
    ensures SymbolName(file, 0) == [109] && SymbolName(file, 2) == [102] && SymbolName(file, 3) == [104]
  {
    hide Word, Half, CString, SymbolsAt, SymbolInfo;
    assert file[96] == file[96..][0] == 109 && file[97] == file[96..][1] == 0;
    assert file[98] == file[96..][2] == 102 && file[99] == file[96..][3] == 0;
    assert file[100] == file[96..][4] == 104 && file[101] == file[96..][5] == 0;
    NameOf(file, NAME_M, 96);
    NameOf(file, NAME_F, 98);
    NameOf(file, NAME_H, 100);
  }

  lemma RawLookup(file: seq<byte>)
    requires IsRaw(file)
    ensures FirstNamed(file, [102], 2) && forall k: nat :: !FirstNamed(file, [103], k)
  {
    hide Word, Half, CString, IsRaw, SymbolsAt, SymbolInfo, SymbolName;
    RawSymbols(file);
    RawNames(file);
    assert HasSymbols(file);
    assert ReportedName(file, 0) == [109] && ReportedName(file, 2) == [102] && ReportedName(file, 3) == [104];
    assert |ReportedName(file, 1)| == 5;
    forall k: nat
      ensures !FirstNamed(file, [103], k)
    {
      if k < 4 {
        assert k == 0 || k == 1 || k == 2 || k == 3;
      }
    }
  }

  /** What the four relocations leave: code starts at 0x4070 and .data at 0x407C. */
  lemma ExampleWords(file: seq<byte>, m0: seq<byte>, m: seq<byte>, hd: HandleValue)
    requires IsExample(file) && LoadOf(file, m0, m, hd, 0x1000, HOST) && hd.ram == 0x4000 && ModeOf(hd.info) == CopyAll
    ensures 0x4084 <= |m| && Word(m, 0x4000) == 0x4072 && Word(m, 0x4004) == 0x0800_1234
    ensures Word(m, 0x407C) == 0x408C && Word(m, 0x4080) == 0x4080
  {
    hide WellFormed, HeaderAt, Word, Half, LoadOf, Lone, Listed, SymbolInfo, SymbolWord, SymbolName, RelTarget,
        RelValue, LotCount, CodeAt, DataAt, RelCount, SymbolsAt, Orders, Tables, TablesInside, SymTable;
    RawRelations(file);
    RawSymbols(file);
    RawNames(file);
    RawWord(file, 1);
    SectionWord(file, m0, m, hd, 0x1000, HOST, 0);
    ExternWord(file, m0, m, hd, 0x1000, HOST, 1);
    TopBitWord(file, m0, m, hd, 0x1000, HOST, 2);
    SectionWord(file, m0, m, hd, 0x1000, HOST, 3);
  }

  /** Looking up "f" and a name the module does not have. */
  lemma ExampleLookup(file: seq<byte>, m0: seq<byte>, m: seq<byte>, hd: HandleValue)
    requires IsExample(file) && LoadOf(file, m0, m, hd, 0x1000, HOST) && hd.ram == 0x4000 && ModeOf(hd.info) == CopyAll
    requires |m0| == 0x1_0000 && RamNeed(HeaderAt(m0, 0x1000), CopyAll) == 148
    ensures TablesInside(m, hd.header)
    ensures var t := SymTable(m, hd.header);
            && SymbolValue(t, CodePointer(m, hd), DataPointer(m, hd), [102]) == 0x4072
            && SymbolValue(t, CodePointer(m, hd), DataPointer(m, hd), [103]) == 0
  {
    hide WellFormed, HeaderAt, Word, Half, LoadOf, Listed, SymbolInfo, SymbolWord, SymbolName, LotCount, CodeAt,
        DataAt, RelCount, SymbolsAt, Orders, Tables, TablesInside, SymTable, SymbolValue, CodePointer, DataPointer,
        RamNeed, FirstNamed, Lone, RelTarget, RelValue, IsRaw;
    RawRelations(file);
    RawSymbols(file);
    RawLookup(file);
    LoadedLookup(file, m0, m, hd, 0x1000, HOST, [102], 2);
    LoadedLookup(file, m0, m, hd, 0x1000, HOST, [103], 0);
  }

  lemma ExampleHeader(file: seq<byte>, m0: seq<byte>, m: seq<byte>, hd: HandleValue)
    requires IsExample(file) && LoadOf(file, m0, m, hd, 0x1000, HOST) && hd.ram == 0x4000 && ModeOf(hd.info) == CopyAll
    ensures hd.header == 0x4008
  {
    hide WellFormed, Word, Half, IsRaw, Laid, SlotsAfter, Orders, SymTable, TablesInside, Tables, DataWords, Kept;
  }

  lemma ExampleLoaded(file: seq<byte>, m0: seq<byte>, m: seq<byte>, hd: HandleValue)
    requires IsExample(file) && |m0| == 0x1_0000 && m0[0x1000..0x1000 + 124] == file
    requires LoadedAt(m0, m, hd, 0x1000, HOST)
    ensures LoadOf(file, m0, m, hd, 0x1000, HOST)
  {
    hide IsExample, LoadedAt, FileAt, Loadable, Word;
    ExampleInMemory(m0, file);
  }

  /** Loaded with everything copied into 8192 bytes of the caller's RAM, the module links, its words are these numbers,
      "f" is looked up where its LOT entry points, an unknown name is answered 0, and unloading accepts the handle. */
  method LoadAndUnload(m0: seq<byte>, ghost file: seq<byte>)
    returns (words: seq<word>, f: word, unknown: word, res: LoadStatus)
    requires IsExample(file) && |m0| == 0x1_0000 && m0[0x1000..0x1000 + 124] == file
    ensures words == [0x4072, 0x0800_1234, 0x408C, 0x4080] && f == 0x4072 && unknown == 0 && res == Success
  {
    hide Word, Loadable, LoadedAt, OnlyInside, SymTable, Verdict, TablesInside, FileAt, IsExample, LoadOf, RamNeed,
        HeaderAt, CodePointer, DataPointer, SymbolValue;
    ExampleInMemory(m0, file);
    ExampleVerdict(m0, file);
    var machine := new Machine(m0);
    var hd := new Handle();
    res := machine.LoadModule(hd, 0x1000, 0x4000, 0x2000, CopyAll, HOST, 0);
    ExampleLoaded(file, m0, machine.mem, hd.View());
    ExampleHeader(file, m0, machine.mem, hd.View());
    ExampleWords(file, m0, machine.mem, hd.View());
    ExampleLookup(file, m0, machine.mem, hd.View());
    var m := machine.mem;
    words := [Word(m, 0x4000), Word(m, 0x4004), Word(m, 0x407C), Word(m, 0x4080)];
    f := machine.GetSymbolValue(hd, [102]);
    unknown := machine.GetSymbolValue(hd, [103]);
    res := machine.UnloadModule(hd);
  }
}
