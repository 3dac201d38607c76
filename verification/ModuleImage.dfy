/** The udynlink module file: header, relocation table, symbol table, code and data,
    and the arithmetic that places its sections (app/udynlink/udynlink.h, app/udynlink/udynlink.c:40-142). */
module ModuleImage {
  import opened Wrappers
  import opened Bytes

  datatype LoadMode = CopyAll | CopyCode | Xip

  datatype SymType = Local | Exported | Extern | ModuleName

  datatype Location = InCode | InData

  datatype Sym = Sym(name: seq<byte>, val: word, typ: SymType, location: Location)

  datatype Header = Header(sign: word, numLot: nat, numRels: nat, symtSize: nat,
                           codeSize: nat, dataSize: nat, bssSize: nat)

  datatype Rel = Rel(lotOffset: word, symtOffset: word)

  const HEADER_SIZE: nat := 28
  const MODULE_SIGN: word := 0x4D4C_4455

  /** The name get_sym_at reports for a local symbol: "(N/A)". */
  const NO_NAME: seq<byte> := [40, 78, 47, 65, 41]

  /** An entry whose symbol word carries the top bit is an R_ARM_ABS32 data relocation. */
  const DATA_RELOCATION: word := 0x8000_0000

  function HeaderAt(m: seq<byte>, a: nat): Header
    requires a + HEADER_SIZE <= |m|
  {
    Header(Word(m, a), Half(m, a + 8), Half(m, a + 10), Word(m, a + 12),
           Word(m, a + 16), Word(m, a + 20), Word(m, a + 24))
  }

  /** Offset of the code from the header: the header, the relocations and the symbol table come first. */
  function CodeOffset(h: Header): nat {
    HEADER_SIZE + 8 * h.numRels + h.symtSize
  }

  /** Size of the module file: everything but the bss. */
  function FileSize(h: Header): nat {
    CodeOffset(h) + h.codeSize + h.dataSize
  }

  function SymtOffset(h: Header): nat {
    HEADER_SIZE + 8 * h.numRels
  }

  /** The tables the header announces lie inside memory, and the symbol table holds the entries it counts. */
  predicate TablesInside(m: seq<byte>, a: nat) {
    && a + HEADER_SIZE <= |m|
    && var h := HeaderAt(m, a);
       && a + CodeOffset(h) <= |m|
       && 4 <= h.symtSize
       && 4 + 8 * SymCount(m, a) <= h.symtSize
  }

  function SymCount(m: seq<byte>, a: nat): nat
    requires a + HEADER_SIZE <= |m|
    requires a + CodeOffset(HeaderAt(m, a)) <= |m|
    requires 4 <= HeaderAt(m, a).symtSize
  {
    Word(m, a + SymtOffset(HeaderAt(m, a)))
  }

  function RelAt(m: seq<byte>, a: nat, i: nat): Rel
    requires TablesInside(m, a)
    requires i < HeaderAt(m, a).numRels
  {
    Rel(Word(m, a + HEADER_SIZE + 8 * i), Word(m, a + HEADER_SIZE + 8 * i + 4))
  }

  /** The type field of a symbol's first word: bits 28 and 29. */
  function TypeOf(nameWord: word): SymType {
    var t := nameWord / 0x1000_0000 % 4;
    if t == 0 then Local else if t == 1 then Exported else if t == 2 then Extern else ModuleName
  }

  /** The location field of a symbol's first word: bit 30. */
  function LocationOf(nameWord: word): Location {
    if nameWord / 0x4000_0000 % 2 == 1 then InCode else InData
  }

  /** The first word of symbol table entry `index`: type, location and name offset. */
  function NameWord(m: seq<byte>, a: nat, index: nat): word
    requires TablesInside(m, a) && index < SymCount(m, a)
  {
    Word(m, a + SymtOffset(HeaderAt(m, a)) + 8 * index + 4)
  }

  /** The offset of a symbol's name in the symbol table: bits 0 to 27 of its first word. */
  function NameOffset(nameWord: word): nat {
    nameWord % 0x1000_0000
  }

  /** The name reported for symbol table entry `index`; the module file stores none for a local symbol. */
  function NameAt(m: seq<byte>, a: nat, index: nat): seq<byte>
    requires TablesInside(m, a) && index < SymCount(m, a)
  {
    var nameWord := NameWord(m, a, index);
    if TypeOf(nameWord) == Local then NO_NAME
    else CString(m, a + SymtOffset(HeaderAt(m, a)) + NameOffset(nameWord))
  }

  /** The second word of symbol table entry `index`: the value. */
  function ValueAt(m: seq<byte>, a: nat, index: nat): word
    requires TablesInside(m, a) && index < SymCount(m, a)
  {
    Word(m, a + SymtOffset(HeaderAt(m, a)) + 8 * index + 8)
  }

  /** The symbol table entry at `index`, as the module at address `a` stores it (before any offset). */
  function SymAt(m: seq<byte>, a: nat, index: nat): Option<Sym>
    requires TablesInside(m, a)
  {
    if index >= SymCount(m, a) then
      None
    else
      var nameWord := NameWord(m, a, index);
      if index == 0 && TypeOf(nameWord) != ModuleName then
        None
      else
        Some(Sym(NameAt(m, a, index), ValueAt(m, a, index), TypeOf(nameWord), LocationOf(nameWord)))
  }

  ghost predicate Terminated(m: seq<byte>, a: nat, end: nat) {
    exists k :: a <= k < end && k < |m| && m[k] == 0
  }

  /** Every named symbol's name ends inside the symbol table. */
  ghost predicate NamesTerminated(m: seq<byte>, a: nat)
    requires TablesInside(m, a)
  {
    var h := HeaderAt(m, a);
    var symt := a + SymtOffset(h);
    forall i :: 0 <= i < SymCount(m, a) && TypeOf(NameWord(m, a, i)) != Local ==>
      Terminated(m, symt + NameOffset(NameWord(m, a, i)), symt + h.symtSize)
  }

  /** Where the parts of a loaded module lie. `header` and `code` are in the original image when the mode leaves them
      there. */
  datatype Layout = Layout(ram: nat, header: nat, code: nat, data: nat, bss: nat, end: nat)

  /** RAM the module needs, before wrap-around. */
  function RamNeed(h: Header, mode: LoadMode): nat {
    4 * h.numLot + h.dataSize + h.bssSize
    + match mode
      case CopyCode => h.codeSize
      case CopyAll => CodeOffset(h) + h.codeSize
      case Xip => 0
  }

  function PlaceCode(h: Header, mode: LoadMode, ram: nat, header: nat): nat {
    if mode == CopyCode then ram + 4 * h.numLot else header + CodeOffset(h)
  }

  function PlaceData(h: Header, mode: LoadMode, ram: nat, header: nat): nat {
    match mode
    case Xip => ram + 4 * h.numLot
    case CopyCode => ram + 4 * h.numLot + h.codeSize
    case CopyAll => header + CodeOffset(h) + h.codeSize
  }

  /** The layout a load at `ram` of the image at `base` produces. */
  function LayoutFor(h: Header, mode: LoadMode, ram: nat, base: nat): Layout {
    var header := if mode == CopyAll then ram + 4 * h.numLot else base;
    var data := PlaceData(h, mode, ram, header);
    Layout(ram, header, PlaceCode(h, mode, ram, header), data, data + h.dataSize, ram + RamNeed(h, mode))
  }

  /** Consecutive intervals, each given by its start and size, that fill `lo..hi` without gap or overlap. */
  predicate Tiles(parts: seq<(nat, nat)>, lo: nat, hi: nat) {
    if parts == [] then lo == hi
    else parts[0].0 == lo && Tiles(parts[1..], lo + parts[0].1, hi)
  }

  function Parts(h: Header, mode: LoadMode, lay: Layout): seq<(nat, nat)> {
    [(lay.ram, 4 * h.numLot)]
    + (if mode == CopyAll then [(lay.header, CodeOffset(h))] else [])
    + (if mode != Xip then [(lay.code, h.codeSize)] else [])
    + [(lay.data, h.dataSize), (lay.bss, h.bssSize)]
  }

  /** In each mode the LOT, the header and tables, the code, the data and the bss tile exactly the RAM asked for. */
  lemma LayoutTiles(h: Header, mode: LoadMode, ram: nat, base: nat)
    ensures var lay := LayoutFor(h, mode, ram, base);
            Tiles(Parts(h, mode, lay), ram, ram + RamNeed(h, mode))
  {
    var lay := LayoutFor(h, mode, ram, base);
    var end := ram + RamNeed(h, mode);
    var tail := [(lay.data, h.dataSize), (lay.bss, h.bssSize)];
    assert tail[1..] == [(lay.bss, h.bssSize)];
    assert Tiles(tail, lay.data, end);
    var withCode := (if mode != Xip then [(lay.code, h.codeSize)] else []) + tail;
    if mode != Xip {
      assert withCode[1..] == tail;
    }
    var withTables := (if mode == CopyAll then [(lay.header, CodeOffset(h))] else []) + withCode;
    if mode == CopyAll {
      assert withTables[1..] == withCode;
    }
    assert Parts(h, mode, lay) == [(lay.ram, 4 * h.numLot)] + withTables;
    assert Parts(h, mode, lay)[1..] == withTables;
  }

  // Reading a copy of the tables is reading the original.

  lemma {:induction false} CStringOfSlice(m: seq<byte>, lo: nat, hi: nat, a: nat, end: nat)
    requires lo <= hi <= |m| && end <= hi - lo
    requires Terminated(m[lo..hi], a, end)
    ensures CString(m[lo..hi], a) == CString(m, lo + a)
    decreases hi - lo - a
  {
    var s := m[lo..hi];
    var k :| a <= k < end && k < |s| && s[k] == 0;
    assert s[a] == m[lo + a];
    if s[a] != 0 {
      assert a + 1 <= k;
      CStringOfSlice(m, lo, hi, a + 1, end);
    }
  }

  lemma HeaderOfSlice(m: seq<byte>, lo: nat, hi: nat)
    requires lo <= hi <= |m| && HEADER_SIZE <= hi - lo
    ensures HeaderAt(m[lo..hi], 0) == HeaderAt(m, lo)
  {
    WordOfSlice(m, lo, hi, 0);
    NumberOfSlice(m, lo, hi, 8, 2);
    NumberOfSlice(m, lo, hi, 10, 2);
    WordOfSlice(m, lo, hi, 12);
    WordOfSlice(m, lo, hi, 16);
    WordOfSlice(m, lo, hi, 20);
    WordOfSlice(m, lo, hi, 24);
  }

  lemma RelOfSlice(m: seq<byte>, lo: nat, hi: nat, i: nat)
    requires lo <= hi <= |m| && TablesInside(m[lo..hi], 0) && TablesInside(m, lo)
    requires i < HeaderAt(m[lo..hi], 0).numRels == HeaderAt(m, lo).numRels
    ensures RelAt(m[lo..hi], 0, i) == RelAt(m, lo, i)
  {
    hide HeaderAt, Number;
    WordOfSlice(m, lo, hi, HEADER_SIZE + 8 * i);
    WordOfSlice(m, lo, hi, HEADER_SIZE + 8 * i + 4);
  }

  lemma TablesOfSlice(m: seq<byte>, lo: nat, hi: nat)
    requires lo <= hi <= |m| && TablesInside(m[lo..hi], 0)
    ensures TablesInside(m, lo)
    ensures HeaderAt(m[lo..hi], 0) == HeaderAt(m, lo) && SymCount(m[lo..hi], 0) == SymCount(m, lo)
    ensures forall i :: 0 <= i < HeaderAt(m, lo).numRels ==> RelAt(m[lo..hi], 0, i) == RelAt(m, lo, i)
  {
    HeaderOfSlice(m, lo, hi);
    hide HeaderAt, Number;
    WordOfSlice(m, lo, hi, SymtOffset(HeaderAt(m, lo)));
    forall i | 0 <= i < HeaderAt(m, lo).numRels
      ensures RelAt(m[lo..hi], 0, i) == RelAt(m, lo, i)
    {
      RelOfSlice(m, lo, hi, i);
    }
  }

  lemma NameWordOfSlice(m: seq<byte>, lo: nat, hi: nat, index: nat)
    requires lo <= hi <= |m| && TablesInside(m[lo..hi], 0) && TablesInside(m, lo)
    requires HeaderAt(m[lo..hi], 0) == HeaderAt(m, lo) && index < SymCount(m[lo..hi], 0) == SymCount(m, lo)
    ensures NameWord(m[lo..hi], 0, index) == NameWord(m, lo, index)
  {
    hide Number;
    WordOfSlice(m, lo, hi, SymtOffset(HeaderAt(m[lo..hi], 0)) + 8 * index + 4);
  }

  lemma NameOfSlice(m: seq<byte>, lo: nat, hi: nat, index: nat)
    requires lo <= hi <= |m| && TablesInside(m[lo..hi], 0) && TablesInside(m, lo)
    requires NamesTerminated(m[lo..hi], 0)
    requires HeaderAt(m[lo..hi], 0) == HeaderAt(m, lo) && index < SymCount(m[lo..hi], 0) == SymCount(m, lo)
    ensures NameAt(m[lo..hi], 0, index) == NameAt(m, lo, index)
  {
    hide CString, Word, TypeOf, NameOffset, NameWord, SymCount, HeaderAt, Terminated;
    NameWordOfSlice(m, lo, hi, index);
    var s := m[lo..hi];
    var h := HeaderAt(s, 0);
    var w := NameWord(s, 0, index);
    if TypeOf(w) != Local {
      assert Terminated(s, SymtOffset(h) + NameOffset(w), SymtOffset(h) + h.symtSize);
      CStringOfSlice(m, lo, hi, SymtOffset(h) + NameOffset(w), SymtOffset(h) + h.symtSize);
    }
  }

  lemma ValueOfSlice(m: seq<byte>, lo: nat, hi: nat, index: nat)
    requires lo <= hi <= |m| && TablesInside(m[lo..hi], 0) && TablesInside(m, lo)
    requires HeaderAt(m[lo..hi], 0) == HeaderAt(m, lo) && index < SymCount(m[lo..hi], 0) == SymCount(m, lo)
    ensures ValueAt(m[lo..hi], 0, index) == ValueAt(m, lo, index)
  {
    hide Number;
    WordOfSlice(m, lo, hi, SymtOffset(HeaderAt(m[lo..hi], 0)) + 8 * index + 8);
  }

  lemma SymOfSlice(m: seq<byte>, lo: nat, hi: nat, index: nat)
    requires lo <= hi <= |m| && TablesInside(m[lo..hi], 0) && NamesTerminated(m[lo..hi], 0)
    ensures TablesInside(m, lo)
    ensures SymAt(m[lo..hi], 0, index) == SymAt(m, lo, index)
  {
    TablesOfSlice(m, lo, hi);
    var listed := index < SymCount(m[lo..hi], 0);
    hide NamesTerminated, TypeOf, LocationOf, NameAt, ValueAt, NameWord, HeaderAt, SymCount, TablesInside;
    if listed {
      NameWordOfSlice(m, lo, hi, index);
      NameOfSlice(m, lo, hi, index);
      ValueOfSlice(m, lo, hi, index);
    }
  }
}
