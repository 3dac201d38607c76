/** Reading a module file into the load buffer, checking its CRC, and copying a module file to flash, block by block
    (app/src/plc_loader.c:113-141, 433-460, 779-858). */
module ChunkLoad {
  import opened Bytes
  import opened ModuleImage

  const READ_BLOCK_SIZE: nat := 1024
  const MAX_RAM_BUFFER_SIZE: nat := 128
  const FILE_HEADER_SIZE: nat := 8
  const ERASED: byte := 0xFF

  /** crc32_ieee. */
  type Crc = seq<byte> -> word

  /** `Overrun`: the size of a file shorter than its header wraps around, and the CRC is asked for so many bytes. */
  datatype Outcome = TooBig | BadCrc | Accepted(size: nat) | Overrun(bytes: word)

  class File {
    const content: seq<byte>
    var pos: nat

    ghost predicate Valid()
      reads this
    {
      pos <= |content|
    }

    constructor (content: seq<byte>)
      ensures Valid() && this.content == content && pos == 0
    {
      this.content := content;
      pos := 0;
    }

    /** fs_read, which returns a full block until the end of the file. */
    method Read(buffer: array<byte>, at: nat, n: nat) returns (count: nat)
      requires Valid() && at + (if |content| - pos <= n then |content| - pos else n) <= buffer.Length
      modifies this`pos, buffer
      ensures Valid() && count == (if |content| - old(pos) <= n then |content| - old(pos) else n)
      ensures pos == old(pos) + count
      ensures buffer[..] == Splice(old(buffer[..]), at, content[old(pos)..pos])
    {
      count := if |content| - pos <= n then |content| - pos else n;
      for i := 0 to count
        invariant pos == old(pos)
        invariant forall a :: 0 <= a < buffer.Length ==>
                    buffer[a] == if at <= a < at + i then content[pos + a - at] else old(buffer[a])
      {
        buffer[at + i] := content[pos + i];
      }
      pos := pos + count;
      assert buffer[..] == Splice(old(buffer[..]), at, content[old(pos)..pos]);
    }
  }

  // ---------------------------------------------------------------- loading

  /** How much of a file that is smaller than the buffer the read loop can take before it believes the buffer full. */
  function Reach(size: nat): nat {
    if size < READ_BLOCK_SIZE then size else READ_BLOCK_SIZE * (size / READ_BLOCK_SIZE)
  }

  /** check_crc. */
  predicate CrcMatches(crc: Crc, image: seq<byte>)
    requires |image| >= FILE_HEADER_SIZE
  {
    crc(image[FILE_HEADER_SIZE..]) == Word(image, 4)
  }

  /** The check compares the word behind the signature, least significant byte first, with the CRC of all that follows.
      */
  lemma CrcIsOfTheRest(crc: Crc, sign: seq<byte>, w: word, rest: seq<byte>)
    requires |sign| == 4
    ensures CrcMatches(crc, sign + LittleEndian(w) + rest) <==> crc(rest) == w
  {
    var image := sign + LittleEndian(w) + rest;
    assert image[8..] == rest && image[4..8] == LittleEndian(w);
    NumberSame(image, 4, LittleEndian(w), 0, 4);
    WordOfBytes(w);
  }

  /** The read loop of load_plc_module: no write ever leaves the buffer, and it reads the whole file if and only if the
      file is no larger than `Reach`; otherwise it stops there. */
  method ReadModule(file: File, buffer: array<byte>) returns (total: nat)
    requires file.Valid() && file.pos == 0 && |file.content| < buffer.Length
    modifies file`pos, buffer
    ensures file.Valid()
    ensures total == if |file.content| <= Reach(buffer.Length) then |file.content| else Reach(buffer.Length)
    ensures total <= |file.content|
    ensures buffer[..] == Splice(old(buffer[..]), 0, file.content[..total])
  {
    hide Splice;
    total := 0;
    ghost var before := buffer[..];
    ghost var blocks := 0;
    NothingRead(before, file.content);
    var open := true;
    while open && total < buffer.Length
      invariant file.Valid() && total == file.pos <= Reach(buffer.Length)
      invariant buffer[..] == Splice(before, 0, file.content[..total])
      invariant open ==> total == |file.content|
                         || (total == READ_BLOCK_SIZE * blocks
                             && (total == 0 || total + READ_BLOCK_SIZE <= buffer.Length))
      invariant !open ==> total == |file.content|
                          || (blocks > 0 && total == READ_BLOCK_SIZE * blocks
                              && total + READ_BLOCK_SIZE > buffer.Length)
      decreases open, buffer.Length - total
    {
      var count := file.Read(buffer, total, READ_BLOCK_SIZE);
      ReadOn(before, file.content, total, count);
      WithinReach(buffer.Length, |file.content|, total, count, blocks);
      if count == 0 {
        open := false;
      } else {
        total := total + count;
        blocks := blocks + 1;
        if total + READ_BLOCK_SIZE > buffer.Length {
          open := false;
        }
      }
    }
    ReachIs(buffer.Length, |file.content|, total, blocks);
  }

  lemma NothingRead(m: seq<byte>, content: seq<byte>)
    ensures Splice(m, 0, content[..0]) == m
  {
  }

  lemma ReadOn(m: seq<byte>, content: seq<byte>, total: nat, count: nat)
    requires total + count <= |content| <= |m|
    ensures Splice(Splice(m, 0, content[..total]), total, content[total..total + count])
            == Splice(m, 0, content[..total + count])
  {
  }

  lemma WithinReach(size: nat, file: nat, total: nat, count: nat, blocks: nat)
    requires total <= Reach(size) && count <= READ_BLOCK_SIZE && total + count <= file < size
    requires count > 0 ==> total == READ_BLOCK_SIZE * blocks && (total == 0 || total + READ_BLOCK_SIZE <= size)
    ensures total + count <= Reach(size)
  {
    if count > 0 && size >= READ_BLOCK_SIZE {
      assert blocks + 1 <= size / READ_BLOCK_SIZE;
    }
  }

  lemma ReachIs(size: nat, file: nat, total: nat, blocks: nat)
    requires total <= file < size && total <= Reach(size)
    requires total == file || (blocks > 0 && total == READ_BLOCK_SIZE * blocks && total + READ_BLOCK_SIZE > size)
    ensures total == if file <= Reach(size) then file else Reach(size)
  {
    if total != file {
      assert blocks == size / READ_BLOCK_SIZE;
    }
  }

  /** load_plc_module's reading of a file that could be opened: the CRC check sees exactly the file if and only if it
      has a whole header and is within reach, as every file smaller than the buffer is when blocks divide the buffer. */
  method LoadFile(file: File, buffer: array<byte>, crc: Crc) returns (r: Outcome)
    requires file.Valid() && file.pos == 0
    modifies file`pos, buffer
    ensures r.TooBig? <==> |file.content| >= buffer.Length
    ensures r.TooBig? ==> buffer[..] == old(buffer[..])
    ensures r.Overrun? <==> |file.content| < buffer.Length && |file.content| < FILE_HEADER_SIZE
    ensures r.Overrun? ==> r.bytes == U32(|file.content| - FILE_HEADER_SIZE) > 0x7FFF_FFFF
    ensures |file.content| < buffer.Length && FILE_HEADER_SIZE <= |file.content| <= Reach(buffer.Length) ==>
              && r == (if CrcMatches(crc, file.content) then Accepted(|file.content|) else BadCrc)
              && buffer[..|file.content|] == file.content
    ensures Reach(buffer.Length) < |file.content| < buffer.Length && |file.content| >= FILE_HEADER_SIZE ==>
              var seen := file.content[..Reach(buffer.Length)];
              |seen| >= FILE_HEADER_SIZE && r == if CrcMatches(crc, seen) then Accepted(|seen|) else BadCrc
  {
    if |file.content| >= buffer.Length {
      return TooBig;
    }
    ReachBounds(buffer.Length);
    var total := ReadModule(file, buffer);
    assert buffer[..total] == file.content[..total];
    assert file.content[..|file.content|] == file.content;
    if total < FILE_HEADER_SIZE {
      return Overrun(U32(total - FILE_HEADER_SIZE));
    }
    r := if CrcMatches(crc, buffer[..total]) then Accepted(total) else BadCrc;
  }

  lemma ReachBounds(size: nat)
    ensures size >= FILE_HEADER_SIZE ==> Reach(size) >= FILE_HEADER_SIZE
    ensures Reach(size) <= size
  {
  }

  /** The largest file smaller than the buffer, and so every one, is within reach exactly when the buffer is smaller
      than a block or at most one byte larger than a whole number of blocks. */
  lemma EveryFileInReach(size: nat)
    requires size > 0
    ensures size - 1 <= Reach(size) <==> size < 1024 || size % 1024 <= 1
  {
  }

  // ---------------------------------------------------------------- flashing

  /** How much of a file of `n` bytes reaches a partition of `size` bytes: all of it if it fits, else the header and the
      whole blocks that fit. */
  function Flashed(n: nat, size: nat): nat {
    if n <= size then n
    else if size < FILE_HEADER_SIZE then 0
    else FILE_HEADER_SIZE + (size - FILE_HEADER_SIZE) / MAX_RAM_BUFFER_SIZE * MAX_RAM_BUFFER_SIZE
  }

  /** The partition after `part` was written to the erased flash. */
  function Burnt(part: seq<byte>, size: nat): seq<byte>
    requires |part| <= size
  {
    part + seq(size - |part|, _ => ERASED)
  }

  method Erase(flash: array<byte>)
    modifies flash
    ensures flash[..] == Burnt([], flash.Length)
  {
    for i := 0 to flash.Length
      invariant forall a :: 0 <= a < i ==> flash[a] == ERASED
    {
      flash[i] := ERASED;
    }
    assert flash[..] == seq(flash.Length, _ => ERASED);
  }

  /** flash_area_write, which refuses what does not fit. */
  method WriteFlash(flash: array<byte>, offset: nat, s: seq<byte>) returns (ok: bool)
    modifies flash
    ensures ok == (offset + |s| <= flash.Length)
    ensures flash[..] == if ok then Splice(old(flash[..]), offset, s) else old(flash[..])
  {
    ok := offset + |s| <= flash.Length;
    if ok {
      for i := 0 to |s|
        invariant forall a :: 0 <= a < flash.Length ==>
                    flash[a] == if offset <= a < offset + i then s[a - offset] else old(flash[a])
      {
        flash[offset + i] := s[i];
      }
      assert flash[..] == Splice(old(flash[..]), offset, s);
    }
  }

  /** The status of cmd_plc_flash_module for a file that could be opened. */
  function FlashStatus(file: seq<byte>, size: nat, opens: bool, erases: bool): int {
    if |file| < FILE_HEADER_SIZE then -2
    else if Word(file, 0) != MODULE_SIGN then -3
    else if !opens then -4
    else if !erases then -5
    else if size < FILE_HEADER_SIZE then -6
    else if |file| <= size then 0 else -7
  }

  lemma WordIsSum(file: seq<byte>)
    requires |file| >= 4
    ensures Word(file, 0) == file[0] as int + 0x100 * file[1] as int + 0x1_0000 * file[2] as int
                             + 0x100_0000 * file[3] as int
  {
    assert Number(file, 3, 1) == file[3];
    assert Number(file, 2, 2) == file[2] as int + 0x100 * file[3] as int;
    assert Number(file, 1, 3) == file[1] as int + 0x100 * (file[2] as int + 0x100 * file[3] as int);
  }

  /** The signature a file must start with: "UDLM". */
  lemma SignBytes(file: seq<byte>)
    requires |file| >= FILE_HEADER_SIZE
    ensures Word(file, 0) == MODULE_SIGN <==> file[..4] == [0x55, 0x44, 0x4C, 0x4D]
  {
    hide Word;
    WordIsSum(file);
    assert file[..4] == [file[0], file[1], file[2], file[3]];
  }

  /** What is left in a partition: all of a file that fits, otherwise the header and as many blocks of 128 bytes as fit.
      */
  lemma FlashedBlocks(n: nat, size: nat)
    requires n >= 8 && size >= 8
    ensures n <= size ==> Flashed(n, size) == n
    ensures n > size ==> exists blocks: nat ::
              Flashed(n, size) == 8 + 128 * blocks && Flashed(n, size) <= size < Flashed(n, size) + 128
  {
    var blocks := (size - 8) / 128;
    assert blocks * 128 <= size - 8 < blocks * 128 + 128;
    assert n > size ==> Flashed(n, size) == 8 + 128 * blocks;
  }

  /** Behind what was written a partition is erased. */
  lemma BurntMeaning(part: seq<byte>, size: nat, i: nat)
    requires |part| <= size && i < size
    ensures |Burnt(part, size)| == size && Burnt(part, size)[i] == if i < |part| then part[i] else 255
  {
  }

  /** The status: 0 exactly if the file was copied whole; otherwise the first thing that was missing. */
  lemma FlashStatusMeaning(file: seq<byte>, size: nat, opens: bool, erases: bool)
    ensures var status := FlashStatus(file, size, opens, erases);
            var signed := |file| >= 8 && file[..4] == [0x55, 0x44, 0x4C, 0x4D];
            && (status == -2 <==> |file| < 8)
            && (status == -3 <==> |file| >= 8 && !signed)
            && (status == -4 <==> signed && !opens)
            && (status == -5 <==> signed && opens && !erases)
            && (status == -6 <==> signed && opens && erases && size < 8)
            && (status == -7 <==> signed && opens && erases && 8 <= size < |file|)
            && (status == 0 <==> signed && opens && erases && |file| <= size)
  {
    hide Word;
    if |file| >= 8 {
      SignBytes(file);
    }
  }

  /** cmd_plc_flash_module on a partition that may not open, and may not erase: a file without a whole header or with a
      wrong signature, and a partition that fails, leave the flash alone; a file that fits is copied exactly; of one
      that does not, the header and the whole blocks that fit are. */
  method FlashModule(file: File, flash: array<byte>, opens: bool, erases: bool) returns (status: int)
    requires file.Valid() && file.pos == 0
    modifies file`pos, flash
    ensures file.Valid() && status == FlashStatus(file.content, flash.Length, opens, erases)
    ensures status in {-2, -3, -4, -5} ==> flash[..] == old(flash[..])
    ensures status !in {-2, -3, -4, -5} ==>
              var n := Flashed(|file.content|, flash.Length);
              n <= |file.content| && n <= flash.Length && flash[..] == Burnt(file.content[..n], flash.Length)
  {
    var header := new byte[FILE_HEADER_SIZE];
    var count := file.Read(header, 0, FILE_HEADER_SIZE);
    if count != FILE_HEADER_SIZE {
      return -2;
    }
    assert header[..] == file.content[..FILE_HEADER_SIZE];
    NumberSame(header[..], 0, file.content, 0, 4);
    if Word(header[..], 0) != MODULE_SIGN {
      return -3;
    }
    if !opens {
      return -4;
    }
    if !erases {
      return -5;
    }
    Erase(flash);
    var ok := WriteFlash(flash, 0, header[..]);
    if !ok {
      return -6;
    }
    BurnOn([], file.content[..FILE_HEADER_SIZE], flash.Length);
    ok := FlashRest(file, flash);
    status := if ok then 0 else -7;
  }

  /** The chunk loop. */
  method FlashRest(file: File, flash: array<byte>) returns (ok: bool)
    requires file.Valid() && file.pos == FILE_HEADER_SIZE <= flash.Length
    requires flash[..] == Burnt(file.content[..FILE_HEADER_SIZE], flash.Length)
    modifies file`pos, flash
    ensures file.Valid() && ok == (|file.content| <= flash.Length)
    ensures var n := Flashed(|file.content|, flash.Length);
            n <= |file.content| && n <= flash.Length && flash[..] == Burnt(file.content[..n], flash.Length)
  {
    hide Burnt, Splice;
    var buffer := new byte[MAX_RAM_BUFFER_SIZE];
    var offset: nat := FILE_HEADER_SIZE;
    ghost var blocks: nat := 0;
    ok := true;
    var count: nat := ReadBlock(file, buffer);
    while count > 0
      invariant fresh(buffer) && buffer.Length == MAX_RAM_BUFFER_SIZE && count <= MAX_RAM_BUFFER_SIZE
      invariant file.Valid() && ok && offset + count == file.pos && 0 <= offset <= flash.Length && 0 <= count
      invariant buffer[..count] == file.content[offset..file.pos]
      invariant count < MAX_RAM_BUFFER_SIZE ==> file.pos == |file.content|
      invariant count > 0 ==> offset == FILE_HEADER_SIZE + MAX_RAM_BUFFER_SIZE * blocks
      invariant flash[..] == Burnt(file.content[..offset], flash.Length)
      decreases |file.content| - offset
    {
      ok := WriteFlash(flash, offset, buffer[..count]);
      if !ok {
        StopsThere(|file.content|, flash.Length, offset, count, blocks);
        return;
      }
      BurnOn(file.content[..offset], file.content[offset..file.pos], flash.Length);
      TakeMore(file.content, offset, file.pos);
      offset := offset + count;
      blocks := blocks + 1;
      count := ReadBlock(file, buffer);
    }
    assert file.content[..offset] == file.content;
  }

  method ReadBlock(file: File, buffer: array<byte>) returns (count: nat)
    requires file.Valid() && buffer.Length == MAX_RAM_BUFFER_SIZE
    modifies file`pos, buffer
    ensures file.Valid() && file.pos == old(file.pos) + count && count <= MAX_RAM_BUFFER_SIZE
    ensures count < MAX_RAM_BUFFER_SIZE ==> file.pos == |file.content|
    ensures buffer[..count] == file.content[old(file.pos)..file.pos]
  {
    count := file.Read(buffer, 0, MAX_RAM_BUFFER_SIZE);
  }

  lemma BurnOn(part: seq<byte>, s: seq<byte>, size: nat)
    requires |part| + |s| <= size
    ensures Splice(Burnt(part, size), |part|, s) == Burnt(part + s, size)
    ensures [] + s == s
  {
  }

  lemma TakeMore(s: seq<byte>, a: nat, b: nat)
    requires a <= b <= |s|
    ensures s[..a] + s[a..b] == s[..b]
  {
  }

  lemma StopsThere(n: nat, size: nat, offset: nat, count: nat, blocks: nat)
    requires offset == FILE_HEADER_SIZE + MAX_RAM_BUFFER_SIZE * blocks <= size < offset + count <= n
    requires count == MAX_RAM_BUFFER_SIZE || offset + count == n
    requires count <= MAX_RAM_BUFFER_SIZE
    ensures n > size && Flashed(n, size) == offset
  {
  }
}
