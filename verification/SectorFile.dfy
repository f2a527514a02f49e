/**
 The flash driver of the vflash example (example/vflashdemo/main.c): a file over a flash partition whose writes read,
 patch, erase and program whole sectors, against a flat array of bytes.

 A flash call fails if it leaves the partition or the device says so; a failing call returns a negative code and
 changes nothing.
 */
module SectorFile {
  const SECTOR_SIZE: nat := 0x1000

  // ---------------------------------------------------------------- specification

  datatype File = File(bytes: seq<bv8>, offset: nat)

  // offset & SECTOR_MASK
  function SectorStart(offset: nat): (r: nat)
    ensures r <= offset < r + SECTOR_SIZE && r % SECTOR_SIZE == 0
  {
    offset - offset % SECTOR_SIZE
  }

  // The end of the sectors that hold [offset, offset + len), counted from the first one's start.
  function WriteSize(offset: nat, len: nat): (r: nat)
    ensures SectorStart(offset) + r >= offset + len
  {
    SectorStart(offset - SectorStart(offset) + len + (SECTOR_SIZE - 1))
  }

  // A sector that starts at or before an offset starts at or before the offset's own sector.
  lemma NoLaterStart(a: nat, x: nat)
    requires a % SECTOR_SIZE == 0 && a <= x
    ensures a <= SectorStart(x)
  {
    NoGap(a, SectorStart(x));
  }

  // No smaller stretch of whole sectors holds the bytes.
  lemma LeastCover(offset: nat, len: nat, a: nat, b: nat)
    requires a % SECTOR_SIZE == 0 && b % SECTOR_SIZE == 0 && a <= offset && offset + len <= b && len > 0
    ensures a <= SectorStart(offset) && SectorStart(offset) + WriteSize(offset, len) <= b
    ensures WriteSize(offset, len) % SECTOR_SIZE == 0
  {
    NoLaterStart(a, offset);
    CoverFits(offset, len, b);
  }

  // The sectors that hold the bytes end before a sector boundary exactly if the bytes do.
  lemma CoverFits(offset: nat, len: nat, size: nat)
    requires size % SECTOR_SIZE == 0
    ensures SectorStart(offset) + WriteSize(offset, len) <= size <==> offset + len <= size
    ensures WriteSize(offset, len) % SECTOR_SIZE == 0
  {
    var end := SectorStart(offset) + WriteSize(offset, len);
    AddSectors(SectorStart(offset), WriteSize(offset, len));
    if offset + len <= size { NoGap(end, size); }
  }

  lemma AddSectors(a: nat, b: nat)
    requires a % SECTOR_SIZE == 0 && b % SECTOR_SIZE == 0
    ensures (a + b) % SECTOR_SIZE == 0
  {}

  lemma NoGap(a: nat, b: nat)
    requires a % SECTOR_SIZE == 0 && b % SECTOR_SIZE == 0 && a < b + SECTOR_SIZE
    ensures a <= b
  {
    assert a == (a / SECTOR_SIZE) * SECTOR_SIZE && b == (b / SECTOR_SIZE) * SECTOR_SIZE;
  }

  // Bytes of a flat array replaced from offset on.
  function Patch(bytes: seq<bv8>, offset: nat, data: seq<bv8>): (r: seq<bv8>)
    requires offset + |data| <= |bytes|
    ensures |r| == |bytes|
  {
    bytes[..offset] + data + bytes[offset + |data|..]
  }

  // Writing at the offset of a file on a flat array, and reading there.
  function Written(f: File, data: seq<bv8>): (File, int) {
    if f.offset + |data| <= |f.bytes| then (File(Patch(f.bytes, f.offset, data), f.offset + |data|), |data|)
    else (f, -1)
  }

  function ReadBack(f: File, len: nat): (File, seq<bv8>) {
    if f.offset + len <= |f.bytes| then (f.(offset := f.offset + len), f.bytes[f.offset..f.offset + len])
    else (f, [])
  }

  datatype Call = Seek(offset: nat) | Put(data: seq<bv8>) | Get(len: nat)

  datatype Answer = Moved | Wrote(n: int) | Got(data: seq<bv8>)

  function Apply(f: File, call: Call): (File, Answer) {
    match call
    case Seek(offset) => (f.(offset := offset), Moved)
    case Put(data) => var w := Written(f, data); (w.0, Wrote(w.1))
    case Get(len) => var r := ReadBack(f, len); (r.0, Got(r.1))
  }

  function Flat(f: File, calls: seq<Call>): (File, seq<Answer>) {
    if calls == [] then (f, [])
    else
      var before := Flat(f, calls[..|calls| - 1]);
      var last := Apply(before.0, calls[|calls| - 1]);
      (last.0, before.1 + [last.1])
  }

  // Sectors that have been erased.
  function Wiped(f: File, lo: nat, n: nat): File
    requires lo + n <= |f.bytes|
  {
    f.(bytes := Patch(f.bytes, lo, Blank(n)))
  }

  // Patching the sectors' bytes and putting them back patches the whole.
  lemma PatchWithin(bytes: seq<bv8>, start: nat, size: nat, offset: nat, data: seq<bv8>)
    requires start <= offset && offset + |data| <= start + size <= |bytes|
    ensures Patch(bytes, start, Patch(bytes[start..start + size], offset - start, data)) == Patch(bytes, offset, data)
  {
    var l := Patch(bytes, start, Patch(bytes[start..start + size], offset - start, data));
    var r := Patch(bytes, offset, data);
    forall i | 0 <= i < |bytes| ensures l[i] == r[i] {
      PatchAt(bytes, offset, data, i);
      PatchAt(bytes, start, Patch(bytes[start..start + size], offset - start, data), i);
      if start <= i < start + size { PatchAt(bytes[start..start + size], offset - start, data, i - start); }
    }
  }

  lemma PatchAt(bytes: seq<bv8>, offset: nat, data: seq<bv8>, i: nat)
    requires offset + |data| <= |bytes| && i < |bytes|
    ensures Patch(bytes, offset, data)[i] == if offset <= i < offset + |data| then data[i - offset] else bytes[i]
  {}

  // What programming leaves: bits are cleared, never set.
  function Cleared(bytes: seq<bv8>, lo: nat, data: seq<bv8>): (r: seq<bv8>)
    requires lo + |data| <= |bytes|
    ensures |r| == |bytes|
  {
    seq(|bytes|, i requires 0 <= i < |bytes| => if lo <= i < lo + |data| then bytes[i] & data[i - lo] else bytes[i])
  }

  function Blank(n: nat): (r: seq<bv8>)
    ensures |r| == n && forall i :: 0 <= i < n ==> r[i] == 0xFF
  {
    seq(n, _ => 0xFF)
  }

  // Programming what has been erased stores the data.
  lemma EraseThenProgram(bytes: seq<bv8>, lo: nat, data: seq<bv8>)
    requires lo + |data| <= |bytes|
    ensures Cleared(Patch(bytes, lo, Blank(|data|)), lo, data) == Patch(bytes, lo, data)
  {}

  // ---------------------------------------------------------------- the flash

  datatype Op = Erased(offset: nat, size: nat) | Programmed(offset: nat, size: nat)

  class Flash {
    const data: array<bv8>
    // What has been erased and programmed so far.
    ghost var log: seq<Op>

    // hal_flash_read
    method Read(offset: nat, size: nat, device: bool) returns (ret: int, next: nat, buffer: seq<bv8>)
      ensures ret == (if device && offset + size <= data.Length then 0 else -1)
      ensures ret == 0 ==> next == offset + size && buffer == data[offset..offset + size]
      ensures ret < 0 ==> next == offset
    {
      if !device || offset + size > data.Length { return -1, offset, []; }
      return 0, offset + size, data[offset..offset + size];
    }

    // hal_flash_erase: every bit of the sectors is set.
    method Erase(offset: nat, size: nat, device: bool) returns (ret: int)
      requires offset % SECTOR_SIZE == 0 && size % SECTOR_SIZE == 0
      modifies this, data
      ensures ret == (if device && offset + size <= data.Length then 0 else -1)
      ensures ret < 0 ==> data[..] == old(data[..]) && log == old(log)
      ensures ret == 0 ==> log == old(log) + [Erased(offset, size)]
      ensures ret == 0 ==> data[..] == Patch(old(data[..]), offset, Blank(size))
    {
      if !device || offset + size > data.Length { return -1; }
      forall i | offset <= i < offset + size { data[i] := 0xFF; }
      log := log + [Erased(offset, size)];
      ghost var r := Patch(old(data[..]), offset, Blank(size));
      forall i | 0 <= i < |r| ensures data[i] == r[i] {
        if offset <= i < offset + size { assert r[i] == r[offset..offset + size][i - offset]; }
      }
      return 0;
    }

    // hal_flash_write: bits can only be cleared.
    method Program(offset: nat, buffer: seq<bv8>, device: bool) returns (ret: int, next: nat)
      modifies this, data
      ensures ret == (if device && offset + |buffer| <= data.Length then 0 else -1)
      ensures ret < 0 ==> data[..] == old(data[..]) && log == old(log) && next == offset
      ensures ret == 0 ==> log == old(log) + [Programmed(offset, |buffer|)] && next == offset + |buffer|
      ensures ret == 0 ==> data[..] == Cleared(old(data[..]), offset, buffer)
    {
      if !device || offset + |buffer| > data.Length { return -1, offset; }
      forall i | offset <= i < offset + |buffer| { data[i] := data[i] & buffer[i - offset]; }
      log := log + [Programmed(offset, |buffer|)];
      return 0, offset + |buffer|;
    }
  }

  // How the calls of one write go: memory for the buffer, and each flash call.
  datatype Luck = Luck(memory: bool, read: bool, erase: bool, program: bool)

  // With memory and a working flash a write is a write to a flat array, in the least number of sectors; otherwise
  // nothing changes, except that sectors which were erased and cannot be programmed stay erased.
  ghost predicate Outcome(f: File, log: seq<Op>, f': File, log': seq<Op>, buf: seq<bv8>, luck: Luck, ret: int) {
    var lo, n := SectorStart(f.offset), WriteSize(f.offset, |buf|);
    if f.offset + |buf| > |f.bytes| || !(luck.memory && luck.read && luck.erase) then
      f' == f && log' == log && ret == if luck.memory then -1 else 0
    else if !luck.program then
      lo + n <= |f.bytes| && f' == Wiped(f, lo, n) && log' == log + [Erased(lo, n)] && ret == -1
    else
      (f', ret) == Written(f, buf) && log' == log + [Erased(lo, n), Programmed(lo, n)]
  }

  class Driver {
    const flash: Flash
    var offset: nat

    constructor (flash: Flash)
      ensures this.flash == flash && offset == 0
    {
      this.flash, offset := flash, 0;
    }

    ghost predicate Valid()
      reads this
    {
      flash.data.Length % SECTOR_SIZE == 0
    }

    ghost function Contents(): File
      reads this, flash.data
    {
      File(flash.data[..], offset)
    }

    // Sectors erased and programmed anew.
    method Replace(sectorOff: nat, buffer: seq<bv8>, luck: Luck) returns (ret: int, next: nat)
      requires sectorOff % SECTOR_SIZE == 0 && |buffer| % SECTOR_SIZE == 0
      requires sectorOff + |buffer| <= flash.data.Length
      modifies flash, flash.data
      ensures ret == if luck.erase && luck.program then 0 else -1
      ensures ret == 0 ==> next == sectorOff + |buffer|
      ensures !luck.erase ==> flash.data[..] == old(flash.data[..]) && flash.log == old(flash.log)
      ensures luck.erase && !luck.program ==>
        && flash.data[..] == Patch(old(flash.data[..]), sectorOff, Blank(|buffer|))
        && flash.log == old(flash.log) + [Erased(sectorOff, |buffer|)]
      ensures luck.erase && luck.program ==>
        && flash.data[..] == Patch(old(flash.data[..]), sectorOff, buffer)
        && flash.log == old(flash.log) + [Erased(sectorOff, |buffer|), Programmed(sectorOff, |buffer|)]
    {
      next := sectorOff;
      ret := flash.Erase(sectorOff, |buffer|, luck.erase);
      if ret < 0 { return; }
      ret, next := flash.Program(sectorOff, buffer, luck.program);
      EraseThenProgram(old(flash.data[..]), sectorOff, buffer);
    }

    method FlashWrite(buf: seq<bv8>, luck: Luck) returns (ret: int)
      requires Valid()
      modifies this`offset, flash, flash.data
      ensures Valid()
      ensures Outcome(old(Contents()), old(flash.log), Contents(), flash.log, buf, luck, ret)
    {
      var sectorOff := SectorStart(offset);
      var writeSize := WriteSize(offset, |buf|);
      if !luck.memory { return 0; }
      CoverFits(offset, |buf|, flash.data.Length);
      ret := Rewrite(sectorOff, writeSize, buf, luck);
    }

    // The write in the n bytes of sectors from lo on.
    method Rewrite(lo: nat, n: nat, buf: seq<bv8>, luck: Luck) returns (ret: int)
      requires lo % SECTOR_SIZE == 0 && n % SECTOR_SIZE == 0
      requires lo <= offset && offset + |buf| <= lo + n
      modifies this`offset, flash, flash.data
      ensures !luck.read || lo + n > flash.data.Length || !luck.erase ==>
        Contents() == old(Contents()) && flash.log == old(flash.log) && ret == -1
      ensures luck.read && lo + n <= flash.data.Length && luck.erase && !luck.program ==>
        && Contents() == Wiped(old(Contents()), lo, n) && ret == -1
        && flash.log == old(flash.log) + [Erased(lo, n)]
      ensures luck.read && lo + n <= flash.data.Length && luck.erase && luck.program ==>
        && Contents() == Written(old(Contents()), buf).0 && ret == |buf|
        && flash.log == old(flash.log) + [Erased(lo, n), Programmed(lo, n)]
    {
      var next, buffer;
      ret, buffer := Prepare(lo, n, buf, luck.read);
      if ret < 0 { return; }
      ret, next := Replace(lo, buffer, luck);
      if ret < 0 { return; }
      if next - lo == n { ret := Move(|buf|); }
    }

    // The bytes of the sectors, patched.
    method Prepare(lo: nat, n: nat, buf: seq<bv8>, device: bool) returns (ret: int, buffer: seq<bv8>)
      requires lo <= offset && offset + |buf| <= lo + n
      ensures ret == if device && lo + n <= flash.data.Length then 0 else -1
      ensures ret == 0 ==>
        |buffer| == n && Patch(flash.data[..], lo, buffer) == Patch(flash.data[..], offset, buf)
    {
      var next;
      ret, next, buffer := flash.Read(lo, n, device);
      if ret < 0 { return; }
      buffer := Patch(buffer, offset - lo, buf);
      PatchWithin(flash.data[..], lo, n, offset, buf);
    }

    method Move(len: nat) returns (ret: int)
      modifies this`offset
      ensures offset == old(offset) + len && ret == len
    {
      offset := offset + len;
      ret := len;
    }

    // How many bytes were read, and which.
    method FlashRead(len: nat, device: bool) returns (ret: int, buf: seq<bv8>)
      modifies this`offset
      ensures ret == |buf|
      ensures device ==> Contents() == ReadBack(old(Contents()), len).0 && buf == ReadBack(old(Contents()), len).1
      ensures !device ==> Contents() == old(Contents()) && buf == []
    {
      var before := offset;
      ret, offset, buf := flash.Read(offset, len, device);
      if ret < 0 { return 0, []; }
      ret := offset - before;
    }

    // Any run of calls on a working flash is the same run on a flat array.
    method Run(calls: seq<Call>) returns (answers: seq<Answer>)
      requires Valid()
      modifies this`offset, flash, flash.data
      ensures Valid()
      ensures Contents() == Flat(old(Contents()), calls).0 && answers == Flat(old(Contents()), calls).1
    {
      answers := [];
      for i := 0 to |calls|
        invariant Valid()
        invariant Contents() == Flat(old(Contents()), calls[..i]).0
        invariant answers == Flat(old(Contents()), calls[..i]).1
      {
        assert calls[..i + 1][..i] == calls[..i];
        match calls[i] {
          case Seek(o) =>
            offset := o;
            answers := answers + [Moved];
          case Put(data) =>
            var n := FlashWrite(data, Luck(true, true, true, true));
            answers := answers + [Wrote(n)];
          case Get(len) =>
            var n, data := FlashRead(len, true);
            answers := answers + [Got(data)];
        }
      }
      assert calls[..|calls|] == calls;
    }
  }
}
