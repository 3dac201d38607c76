/** The memory of a load in progress: which bytes a relocation step may change and what they become. */
module LinkProgress {
  import opened Wrappers
  import opened Bytes
  import opened ModuleImage
  import opened LinkSpec

  /** One load: the decoded relocations, the number of LOT entries, the whole words of .data, the copied part between
      the LOT and .data, the bytes of .data after its last whole word, and where everything lies. */
  datatype Job = Job(orders: seq<Order>, lots: nat, words: seq<word>, kept: seq<byte>, tail: seq<byte>,
                     lay: Layout, env: Env)

  function DataOffset(h: Header): nat {
    CodeOffset(h) + h.codeSize
  }

  /** The part of the module file the mode copies between the LOT and .data. */
  function Kept(img: seq<byte>, mode: LoadMode): seq<byte>
    requires |img| >= HEADER_SIZE && |img| == FileSize(HeaderAt(img, 0))
  {
    var h := HeaderAt(img, 0);
    match mode
    case CopyAll => img[..DataOffset(h)]
    case CopyCode => img[CodeOffset(h)..DataOffset(h)]
    case Xip => []
  }

  function DataWords(img: seq<byte>): (ws: seq<word>)
    requires |img| >= HEADER_SIZE && |img| == FileSize(HeaderAt(img, 0))
    ensures |ws| == HeaderAt(img, 0).dataSize / 4
  {
    var h := HeaderAt(img, 0);
    seq(h.dataSize / 4, k requires 0 <= k < h.dataSize / 4 => Word(img, DataOffset(h) + 4 * k))
  }

  /** The load of module file `img`, found at `base`, to the RAM block at `ram`. */
  function JobFor(img: seq<byte>, mode: LoadMode, ram: nat, base: nat, externs: Externs): Job
    requires |img| >= HEADER_SIZE && |img| == FileSize(HeaderAt(img, 0)) && TablesInside(Tables(img), 0)
  {
    var h := HeaderAt(img, 0);
    var lay := LayoutFor(h, mode, ram, base);
    Job(Orders(Tables(img)), h.numLot, DataWords(img), Kept(img, mode),
        img[DataOffset(h) + 4 * (h.dataSize / 4)..], lay, Env(externs, U32(lay.code), U32(lay.data)))
  }

  lemma JobLayout(img: seq<byte>, mode: LoadMode, ram: nat, base: nat, externs: Externs)
    requires WellFormed(img, externs)
    ensures JobFor(img, mode, ram, base, externs).lay == LayoutFor(HeaderAt(img, 0), mode, ram, base)
  {
  }

  predicate Consistent(j: Job) {
    && j.lay.ram + 4 * j.lots == j.lay.data - |j.kept|
    && j.lay.data + 4 * |j.words| == j.lay.bss - |j.tail|
    && j.lay.bss <= j.lay.end
    && forall i :: 0 <= i < |j.orders| && OrderStatus(j.orders[i], j.env.externs) == Success
         ==> SlotInside(j, j.orders[i].slot) && (j.orders[i].Rebase? ==> j.orders[i].slot.DataSlot?)
  }

  function SlotAddress(j: Job, s: Slot): nat {
    match s
    case LotSlot(k) => j.lay.ram + 4 * k
    case DataSlot(k) => j.lay.data + 4 * k
  }

  predicate SlotInside(j: Job, s: Slot) {
    match s
    case LotSlot(k) => k < j.lots
    case DataSlot(k) => k < |j.words|
  }

  /** A slot's word before any relocation: what RAM held for the LOT, the module file's word for .data. */
  function InitialWord(j: Job, m0: seq<byte>, s: Slot): word
    requires j.lay.ram + 4 * j.lots <= |m0| && SlotInside(j, s)
  {
    match s
    case LotSlot(k) => Word(m0, j.lay.ram + 4 * k)
    case DataSlot(k) => j.words[k]
  }

  /** Nothing outside the module's RAM changed; the copied part and the end of .data are in place and the bss is zero.
      */
  ghost predicate Laid(j: Job, m0: seq<byte>, m: seq<byte>) {
    && Consistent(j) && j.lay.end <= |m| && |m| == |m0|
    && m[..j.lay.ram] == m0[..j.lay.ram] && m[j.lay.end..] == m0[j.lay.end..]
    && m[j.lay.data - |j.kept|..j.lay.data] == j.kept
    && m[j.lay.bss - |j.tail|..j.lay.bss] == j.tail
    && (forall a :: j.lay.bss <= a < j.lay.end ==> m[a] == 0)
  }

  /** A slot holds its meaning after the first `n` relocations. */
  predicate SlotDone(j: Job, m0: seq<byte>, m: seq<byte>, s: Slot, n: nat) {
    && n <= |j.orders| && SlotInside(j, s)
    && j.lay.ram + 4 * j.lots <= |m0| && SlotAddress(j, s) + 4 <= |m|
    && Word(m, SlotAddress(j, s)) == SlotAfter(j.orders, j.env, s, InitialWord(j, m0, s), n)
  }

  /** Every slot holds its meaning after the first `n` relocations. */
  ghost predicate SlotsAfter(j: Job, m0: seq<byte>, m: seq<byte>, n: nat) {
    forall s :: SlotInside(j, s) ==> SlotDone(j, m0, m, s, n)
  }

  lemma SpliceElsewhere(m: seq<byte>, a: nat, s: seq<byte>, lo: nat, hi: nat)
    requires a + |s| <= |m| && lo <= hi <= |m| && (hi <= a || a + |s| <= lo)
    ensures Splice(m, a, s)[lo..hi] == m[lo..hi]
  {
  }

  /** Writing into the LOT or into the whole words of .data keeps the rest in place. */
  lemma WriteKeepsLaid(j: Job, m0: seq<byte>, m: seq<byte>, s: Slot, w: word)
    requires Laid(j, m0, m) && SlotInside(j, s)
    ensures Laid(j, m0, Splice(m, SlotAddress(j, s), LittleEndian(w)))
  {
    var a, b := SlotAddress(j, s), LittleEndian(w);
    SpliceElsewhere(m, a, b, 0, j.lay.ram);
    SpliceElsewhere(m, a, b, j.lay.end, |m|);
    SpliceElsewhere(m, a, b, j.lay.data - |j.kept|, j.lay.data);
    SpliceElsewhere(m, a, b, j.lay.bss - |j.tail|, j.lay.bss);
  }

  lemma SlotsApart(j: Job, s: Slot, t: Slot)
    requires Consistent(j) && SlotInside(j, s) && SlotInside(j, t) && s != t
    ensures SlotAddress(j, s) + 4 <= SlotAddress(j, t) || SlotAddress(j, t) + 4 <= SlotAddress(j, s)
  {
  }

  lemma SlotStep(j: Job, m0: seq<byte>, m: seq<byte>, n: nat, w: word, t: Slot)
    requires Consistent(j) && j.lay.end <= |m| && n < |j.orders|
    requires SlotDone(j, m0, m, t, n) && SlotInside(j, j.orders[n].slot)
    requires w == Patched(Word(m, SlotAddress(j, j.orders[n].slot)), PatchOf(j.orders[n], j.env))
    ensures SlotDone(j, m0, Splice(m, SlotAddress(j, j.orders[n].slot), LittleEndian(w)), t, n + 1)
  {
    var s := j.orders[n].slot;
    if t != s {
      SlotsApart(j, s, t);
    }
    WordSpliced(m, SlotAddress(j, s), w, SlotAddress(j, t));
  }

  /** One relocation: patching the slot of entry `n` takes the memory after `n` entries to the one after `n + 1`. */
  lemma PatchStep(j: Job, m0: seq<byte>, m: seq<byte>, n: nat, w: word)
    requires Laid(j, m0, m) && n < |j.orders| && SlotsAfter(j, m0, m, n) && SlotInside(j, j.orders[n].slot)
    requires w == Patched(Word(m, SlotAddress(j, j.orders[n].slot)), PatchOf(j.orders[n], j.env))
    ensures var m' := Splice(m, SlotAddress(j, j.orders[n].slot), LittleEndian(w));
            Laid(j, m0, m') && SlotsAfter(j, m0, m', n + 1)
  {
    WriteKeepsLaid(j, m0, m, j.orders[n].slot, w);
    forall t | SlotInside(j, t)
      ensures SlotDone(j, m0, Splice(m, SlotAddress(j, j.orders[n].slot), LittleEndian(w)), t, n + 1)
    {
      SlotStep(j, m0, m, n, w, t);
    }
  }

  /** Memory `m` with relocation `o` applied: at most one word is patched. */
  function PatchMem(j: Job, m: seq<byte>, o: Order): (r: seq<byte>)
    ensures |r| == |m|
  {
    var p := PatchOf(o, j.env);
    var a := SlotAddress(j, o.slot);
    if p.Reject? || a + 4 > |m| then m else Splice(m, a, LittleEndian(Patched(Word(m, a), p)))
  }

  /** Memory after the first `n` relocations of job `j`. */
  function MemAfter(j: Job, m: seq<byte>, n: nat): (r: seq<byte>)
    requires n <= |j.orders|
    ensures |r| == |m|
  {
    if n == 0 then m else PatchMem(j, MemAfter(j, m, n - 1), j.orders[n - 1])
  }

  lemma PatchMemStep(j: Job, m0: seq<byte>, m: seq<byte>, n: nat)
    requires Laid(j, m0, m) && n < |j.orders| && SlotsAfter(j, m0, m, n)
    ensures Laid(j, m0, PatchMem(j, m, j.orders[n])) && SlotsAfter(j, m0, PatchMem(j, m, j.orders[n]), n + 1)
  {
    var o := j.orders[n];
    RejectionIgnoresBases(o, j.env);
    if PatchOf(o, j.env).Reject? {
      RejectKeepsSlots(j, m0, m, n);
    } else {
      PatchStep(j, m0, m, n, Patched(Word(m, SlotAddress(j, o.slot)), PatchOf(o, j.env)));
    }
  }

  lemma RejectKeepsSlots(j: Job, m0: seq<byte>, m: seq<byte>, n: nat)
    requires Laid(j, m0, m) && n < |j.orders| && SlotsAfter(j, m0, m, n) && PatchOf(j.orders[n], j.env).Reject?
    ensures SlotsAfter(j, m0, m, n + 1)
  {
    forall t | SlotInside(j, t)
      ensures SlotDone(j, m0, m, t, n + 1)
    {
      assert SlotDone(j, m0, m, t, n);
    }
  }

  /** Patching word by word keeps everything that is not a slot, and gives every slot its meaning. */
  lemma {:induction false} PatchesHaveMeaning(j: Job, m0: seq<byte>, m: seq<byte>, n: nat)
    requires Laid(j, m0, m) && SlotsAfter(j, m0, m, 0) && n <= |j.orders|
    ensures Laid(j, m0, MemAfter(j, m, n)) && SlotsAfter(j, m0, MemAfter(j, m, n), n)
  {
    hide Laid, SlotsAfter;
    if n > 0 {
      PatchesHaveMeaning(j, m0, m, n - 1);
      PatchMemStep(j, m0, MemAfter(j, m, n - 1), n - 1);
    }
  }

  // ---------------------------------------------------------------- reading the tables while patching

  lemma SliceOfSlice(m: seq<byte>, lo: nat, hi: nat, n: nat)
    requires lo <= hi <= |m| && n <= hi - lo
    ensures m[lo..hi][..n] == m[lo..lo + n]
  {
  }

  lemma SameSlice(m0: seq<byte>, m: seq<byte>, cut: nat, lo: nat, hi: nat)
    requires |m| == |m0| && lo <= hi <= |m| && cut <= |m|
    requires (m[..cut] == m0[..cut] && hi <= cut) || (m[cut..] == m0[cut..] && cut <= lo)
    ensures m[lo..hi] == m0[lo..hi]
  {
    if m[..cut] == m0[..cut] && hi <= cut {
      assert m[..cut][lo..hi] == m[lo..hi] && m0[..cut][lo..hi] == m0[lo..hi];
    } else {
      assert m[cut..][lo - cut..hi - cut] == m[lo..hi] && m0[cut..][lo - cut..hi - cut] == m0[lo..hi];
    }
  }

  /** The tables are in memory at `lay.header`: at the front of the copied part, or outside the module's RAM. */
  predicate TablesAt(j: Job, tables: seq<byte>, m0: seq<byte>) {
    var lo, hi := j.lay.header, j.lay.header + |tables|;
    || (lo == j.lay.data - |j.kept| && tables <= j.kept)
    || (hi <= |m0| && m0[lo..hi] == tables && (hi <= j.lay.ram || j.lay.end <= lo))
  }

  lemma TablesInMemory(j: Job, tables: seq<byte>, m0: seq<byte>, m: seq<byte>)
    requires Laid(j, m0, m) && TablesAt(j, tables, m0)
    ensures j.lay.header + |tables| <= |m|
    ensures m[j.lay.header..j.lay.header + |tables|] == tables
  {
    var lo, hi := j.lay.header, j.lay.header + |tables|;
    if lo == j.lay.data - |j.kept| && tables <= j.kept {
      SliceOfSlice(m, lo, j.lay.data, |tables|);
    } else {
      SameSlice(m0, m, if hi <= j.lay.ram then j.lay.ram else j.lay.end, lo, hi);
    }
  }

  /** The loop reads the entries and symbols of the module file, even from the block it is patching. */
  lemma ReadsModuleTables(j: Job, tables: seq<byte>, m0: seq<byte>, m: seq<byte>)
    requires Laid(j, m0, m) && TablesAt(j, tables, m0)
    requires TablesInside(tables, 0) && NamesTerminated(tables, 0)
    ensures TablesInside(m, j.lay.header)
    ensures HeaderAt(m, j.lay.header) == HeaderAt(tables, 0) && SymCount(m, j.lay.header) == SymCount(tables, 0)
    ensures forall i :: 0 <= i < HeaderAt(tables, 0).numRels ==> RelAt(m, j.lay.header, i) == RelAt(tables, 0, i)
    ensures forall i: nat :: SymAt(m, j.lay.header, i) == SymAt(tables, 0, i)
  {
    hide Laid, TablesAt, SymAt, NamesTerminated, SymCount, HeaderAt, RelAt, TablesInside;
    TablesInMemory(j, tables, m0, m);
    SameTables(m, j.lay.header, tables);
  }

  lemma SameTables(m: seq<byte>, a: nat, tables: seq<byte>)
    requires a + |tables| <= |m| && m[a..a + |tables|] == tables
    requires TablesInside(tables, 0) && NamesTerminated(tables, 0)
    ensures TablesInside(m, a)
    ensures HeaderAt(m, a) == HeaderAt(tables, 0) && SymCount(m, a) == SymCount(tables, 0)
    ensures forall i :: 0 <= i < HeaderAt(tables, 0).numRels ==> RelAt(m, a, i) == RelAt(tables, 0, i)
    ensures forall i: nat :: SymAt(m, a, i) == SymAt(tables, 0, i)
  {
    hide SymAt, RelAt, NamesTerminated, SymCount, Word;
    TablesOfSlice(m, a, a + |tables|);
    forall i: nat
      ensures SymAt(m, a, i) == SymAt(tables, 0, i)
    {
      SymOfSlice(m, a, a + |tables|, i);
    }
  }

  // ---------------------------------------------------------------- the state before the first relocation

  /** The bytes the mode copies to RAM, right after the LOT: its kept part followed by .data. */
  function Copied(img: seq<byte>, mode: LoadMode): seq<byte>
    requires |img| >= HEADER_SIZE && |img| == FileSize(HeaderAt(img, 0))
  {
    Kept(img, mode) + img[DataOffset(HeaderAt(img, 0))..]
  }

  /** `data` is cut into the job's whole words and its tail. */
  ghost predicate CutInto(data: seq<byte>, words: seq<word>, tail: seq<byte>) {
    && |data| == 4 * |words| + |tail|
    && data[4 * |words|..] == tail
    && forall k :: 0 <= k < |words| ==> Word(data, 4 * k) == words[k]
  }

  lemma CopyIsLaid(j: Job, data: seq<byte>, bss: nat, m0: seq<byte>)
    requires Consistent(j) && j.lay.end <= |m0| && j.lay.end == j.lay.bss + bss && CutInto(data, j.words, j.tail)
    ensures j.lay.ram + 4 * j.lots + |j.kept + data| <= |m0|
    ensures var m := Splice(Splice(m0, j.lay.ram + 4 * j.lots, j.kept + data), j.lay.bss, Zeros(bss));
            && Laid(j, m0, m)
            && m[j.lay.data..j.lay.bss] == data
            && m[..j.lay.ram + 4 * j.lots] == m0[..j.lay.ram + 4 * j.lots]
  {
    hide Word, OrderStatus, SlotInside;
    var m := Splice(Splice(m0, j.lay.ram + 4 * j.lots, j.kept + data), j.lay.bss, Zeros(bss));
    assert m[j.lay.end..] == m0[j.lay.end..];
    assert m[j.lay.data - |j.kept|..j.lay.data] == j.kept;
    assert m[j.lay.data..j.lay.bss] == data;
    assert m[j.lay.bss - |j.tail|..j.lay.bss] == data[4 * |j.words|..];
  }

  lemma CopyFillsSlots(j: Job, data: seq<byte>, m0: seq<byte>, m: seq<byte>)
    requires Consistent(j) && |m| == |m0| && j.lay.end <= |m0| && CutInto(data, j.words, j.tail)
    requires m[j.lay.data..j.lay.bss] == data
    requires m[..j.lay.ram + 4 * j.lots] == m0[..j.lay.ram + 4 * j.lots]
    ensures SlotsAfter(j, m0, m, 0)
  {
    hide Number, OrderStatus;
    forall s | SlotInside(j, s)
      ensures SlotDone(j, m0, m, s, 0)
    {
      match s {
        case LotSlot(k) =>
          var a := j.lay.ram + 4 * k;
          SameSlice(m0, m, j.lay.ram + 4 * j.lots, a, a + 4);
          NumberSame(m, a, m0, a, 4);
        case DataSlot(k) =>
          WordOfSlice(m, j.lay.data, j.lay.bss, 4 * k);
      }
    }
  }

  lemma DataIsCut(img: seq<byte>, mode: LoadMode, ram: nat, base: nat, externs: Externs)
    requires WellFormed(img, externs)
    ensures var j := JobFor(img, mode, ram, base, externs);
            CutInto(img[DataOffset(HeaderAt(img, 0))..], j.words, j.tail)
  {
    hide SymAt, NamesTerminated, Number, PatchOf, OrderStatus, SymCount, OrderOf, LayoutFor, Kept;
    var j := JobFor(img, mode, ram, base, externs);
    var h := HeaderAt(img, 0);
    var data := img[DataOffset(h)..|img|];
    assert img[DataOffset(h)..] == data;
    assert |j.words| == h.dataSize / 4;
    forall k | 0 <= k < |j.words|
      ensures Word(data, 4 * k) == j.words[k]
    {
      WordOfSlice(img, DataOffset(h), |img|, 4 * k);
    }
  }

  lemma HeaderOfTables(img: seq<byte>)
    requires |img| >= HEADER_SIZE && CodeOffset(HeaderAt(img, 0)) <= |img|
    ensures HeaderAt(Tables(img), 0) == HeaderAt(img, 0)
  {
    assert img[0..CodeOffset(HeaderAt(img, 0))] == Tables(img);
    HeaderOfSlice(img, 0, CodeOffset(HeaderAt(img, 0)));
  }

  /** The job of a well-formed module file is consistent and ends where the module's RAM ends. */
  lemma JobOfFile(img: seq<byte>, mode: LoadMode, ram: nat, base: nat, externs: Externs)
    requires WellFormed(img, externs)
    ensures var j := JobFor(img, mode, ram, base, externs);
            var h := HeaderAt(img, 0);
            && Consistent(j)
            && j.lay.end == j.lay.bss + h.bssSize && j.lay.end == ram + RamNeed(h, mode)
            && |j.orders| == h.numRels
  {
    hide SymAt, NamesTerminated, Word, PatchOf, OrderStatus, SymCount, OrderOf, Half;
    var j := JobFor(img, mode, ram, base, externs);
    var h := HeaderAt(img, 0);
    HeaderOfTables(img);
    forall i | 0 <= i < |j.orders| && OrderStatus(j.orders[i], j.env.externs) == Success
      ensures SlotInside(j, j.orders[i].slot) && (j.orders[i].Rebase? ==> j.orders[i].slot.DataSlot?)
    {
      assert TargetInside(h, Orders(Tables(img))[i]);
    }
  }

  /** Copying behind the LOT and zeroing the bss gives the state before the first relocation. */
  lemma StartIsLaid(img: seq<byte>, mode: LoadMode, ram: nat, base: nat, externs: Externs, m0: seq<byte>)
    requires WellFormed(img, externs) && ram + RamNeed(HeaderAt(img, 0), mode) <= |m0|
    ensures var h := HeaderAt(img, 0);
            && ram + 4 * h.numLot + |Copied(img, mode)| <= |m0|
            && LayoutFor(h, mode, ram, base).bss + h.bssSize <= |m0|
            && var m := Splice(Splice(m0, ram + 4 * h.numLot, Copied(img, mode)),
                               LayoutFor(h, mode, ram, base).bss, Zeros(h.bssSize));
               var j := JobFor(img, mode, ram, base, externs);
               Laid(j, m0, m) && SlotsAfter(j, m0, m, 0)
  {
    hide SymAt, NamesTerminated, Number, PatchOf, OrderStatus, SymCount, OrderOf, Half, Word, Kept, DataWords, Splice,
        SlotInside;
    var h := HeaderAt(img, 0);
    var j := JobFor(img, mode, ram, base, externs);
    var data := img[DataOffset(h)..];
    JobOfFile(img, mode, ram, base, externs);
    DataIsCut(img, mode, ram, base, externs);
    hide WellFormed, Consistent, Laid;
    CopyIsLaid(j, data, h.bssSize, m0);
    var m := Splice(Splice(m0, ram + 4 * h.numLot, Copied(img, mode)), j.lay.bss, Zeros(h.bssSize));
    CopyFillsSlots(j, data, m0, m);
  }

  lemma TablesAtStart(img: seq<byte>, mode: LoadMode, ram: nat, base: nat, externs: Externs, m0: seq<byte>)
    requires WellFormed(img, externs)
    requires base + |img| <= |m0| && m0[base..base + |img|] == img
    requires base + |img| <= ram || ram + RamNeed(HeaderAt(img, 0), mode) <= base
    ensures TablesAt(JobFor(img, mode, ram, base, externs), Tables(img), m0)
  {
    hide SymAt, NamesTerminated, Word, PatchOf, OrderStatus, SymCount, Orders, DataWords;
    var j := JobFor(img, mode, ram, base, externs);
    var n := |Tables(img)|;
    if mode == CopyAll {
      assert Tables(img) == j.kept[..n];
    } else {
      SliceOfSlice(m0, base, base + |img|, n);
    }
  }
}
