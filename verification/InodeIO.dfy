/** Byte-level input and output on an inode's extent: sector-sized transfers that act as a flat byte array. */
module InodeIO {
  import opened Common

  const SECTOR_SIZE := 512

  type Sector = s: seq<byte> | |s| == SECTOR_SIZE witness seq(SECTOR_SIZE, _ => 0)

  /** The whole device, sector by sector. */
  type Disk = seq<Sector>

  // ---------------------------------------------------------------- the flat view

  /** Byte `k` of the device. */
  function DiskByte(d: Disk, k: nat): byte
    requires k < |d| * SECTOR_SIZE
  {
    d[k / SECTOR_SIZE][k % SECTOR_SIZE]
  }

  /** The `n` bytes that start at byte `at` of the device. */
  function Slice(d: Disk, at: nat, n: nat): (r: seq<byte>)
    requires n > 0 ==> at + n <= |d| * SECTOR_SIZE
    ensures |r| == n
  {
    if n == 0 then [] else Slice(d, at, n - 1) + [DiskByte(d, at + n - 1)]
  }

  /** The device with `data` in place of the bytes that start at `at`. */
  function Written(d: Disk, at: nat, data: seq<byte>): (r: Disk)
    ensures |r| == |d|
  {
    seq(|d|, i requires 0 <= i < |d| => WrittenSector(d[i], i * SECTOR_SIZE, at, data))
  }

  /** The same for one sector, whose first byte is byte `base` of the device. */
  function WrittenSector(s: Sector, base: nat, at: nat, data: seq<byte>): Sector {
    seq(SECTOR_SIZE, j requires 0 <= j < SECTOR_SIZE =>
      if at <= base + j < at + |data| then data[base + j - at] else s[j])
  }

  /** How many bytes of a request for `size` bytes at `offset` lie inside a file of `length` bytes. */
  function InFile(size: int, offset: nat, length: nat): (n: nat)
    ensures n > 0 ==> offset + n <= length && n <= size
    ensures n < size ==> offset + n >= length
  {
    if size <= 0 || offset >= length then 0 else if size < length - offset then size else length - offset
  }

  /** How many bytes move: all those in the file, unless no bounce buffer could be had. Then only the whole sectors
      before the first partial one move. */
  function Moved(size: int, offset: nat, length: nat, bounceOk: bool): (n: nat)
    ensures n <= InFile(size, offset, length)
  {
    var n := InFile(size, offset, length);
    if bounceOk then n else if offset % SECTOR_SIZE == 0 then n - n % SECTOR_SIZE else 0
  }

  /** So with a buffer all of them move; without one none from inside a sector, and otherwise as many whole sectors as
      there are. */
  lemma MovedIs(size: int, offset: nat, length: nat, bounceOk: bool)
    ensures var n, all := Moved(size, offset, length, bounceOk), InFile(size, offset, length);
      if bounceOk then n == all else if offset % 512 != 0 then n == 0 else n % 512 == 0 && n <= all < n + 512
  {
  }

  /** The bytes one pass of a transfer loop handles. */
  function ChunkSize(left: int, pos: nat, length: nat): int {
    var sectorOfs := pos % SECTOR_SIZE;
    var inodeLeft := length - pos;
    var sectorLeft := SECTOR_SIZE - sectorOfs;
    var minLeft := if inodeLeft < sectorLeft then inodeLeft else sectorLeft;
    if left < minLeft then left else minLeft
  }

  /** A pass handles a chunk inside one sector and inside the file, and leaves exactly the rest. */
  lemma ChunkAdvances(left: int, pos: nat, length: nat, bounceOk: bool)
    ensures ChunkSize(left, pos, length) <= 0 ==> InFile(left, pos, length) == 0
    ensures var c := ChunkSize(left, pos, length);
      c > 0 ==> pos % SECTOR_SIZE + c <= SECTOR_SIZE && pos + c <= length && c <= left
    ensures var c := ChunkSize(left, pos, length);
      c > 0 && (bounceOk || (pos % SECTOR_SIZE == 0 && c == SECTOR_SIZE)) ==>
        Moved(left, pos, length, bounceOk) == c + Moved(left - c, pos + c, length, bounceOk)
    ensures var c := ChunkSize(left, pos, length);
      c > 0 && !bounceOk && (pos % SECTOR_SIZE != 0 || c != SECTOR_SIZE) ==> Moved(left, pos, length, bounceOk) == 0
  {
    var c := ChunkSize(left, pos, length);
    if pos % SECTOR_SIZE == 0 && c == SECTOR_SIZE {
      assert (pos + c) % SECTOR_SIZE == 0;
      assert InFile(left, pos, length) == c + InFile(left - c, pos + c, length);
    }
  }

  /** The byte at any position after a write, wherever it falls in the sectors. */
  lemma WrittenByte(d: Disk, at: nat, data: seq<byte>, k: nat)
    requires k < |d| * SECTOR_SIZE
    ensures Written(d, at, data)[k / 512][k % 512] == if at <= k < at + |data| then data[k - at] else d[k / 512][k % 512]
  {
    assert k == k / SECTOR_SIZE * SECTOR_SIZE + k % SECTOR_SIZE;
  }

  lemma {:induction false} SliceByte(d: Disk, at: nat, n: nat, k: nat)
    requires at + n <= |d| * SECTOR_SIZE && k < n
    ensures Slice(d, at, n)[k] == d[(at + k) / 512][(at + k) % 512]
  {
    if k < n - 1 {
      SliceByte(d, at, n - 1, k);
    }
  }

  /** Reading back any range after a write, overlapping or not. */
  lemma ReadAfterWrite(d: Disk, at: nat, data: seq<byte>, from: nat, n: nat, k: nat)
    requires from + n <= |d| * SECTOR_SIZE && k < n
    ensures Slice(Written(d, at, data), from, n)[k] ==
      if at <= from + k < at + |data| then data[from + k - at] else Slice(d, from, n)[k]
  {
    SliceByte(d, from, n, k);
    SliceByte(Written(d, at, data), from, n, k);
    WrittenByte(d, at, data, from + k);
  }

  lemma ReadBack(d: Disk, at: nat, data: seq<byte>)
    requires at + |data| <= |d| * SECTOR_SIZE
    ensures Slice(Written(d, at, data), at, |data|) == data
  {
    forall k | 0 <= k < |data| ensures Slice(Written(d, at, data), at, |data|)[k] == data[k] {
      ReadAfterWrite(d, at, data, at, |data|, k);
    }
  }

  /** A write never shows in a range it does not meet: two files in disjoint extents cannot disturb each other. */
  lemma DisjointUndisturbed(d: Disk, at: nat, data: seq<byte>, from: nat, n: nat)
    requires from + n <= |d| * SECTOR_SIZE && (from + n <= at || at + |data| <= from)
    ensures Slice(Written(d, at, data), from, n) == Slice(d, from, n)
  {
    forall k | 0 <= k < n ensures Slice(Written(d, at, data), from, n)[k] == Slice(d, from, n)[k] {
      ReadAfterWrite(d, at, data, from, n, k);
    }
  }

  lemma {:induction false} SliceConcat(d: Disk, at: nat, n: nat, next: nat, m: nat, total: nat)
    requires next == at + n && total == n + m && (total > 0 ==> at + total <= |d| * SECTOR_SIZE)
    ensures Slice(d, at, n) + Slice(d, next, m) == Slice(d, at, total)
    decreases m
  {
    if m == 0 {
      assert Slice(d, at, n) + [] == Slice(d, at, n);
    } else {
      SliceConcat(d, at, n, next, m - 1, total - 1);
      var last := [DiskByte(d, next + m - 1)];
      assert Slice(d, at, n) + (Slice(d, next, m - 1) + last) == Slice(d, at, n) + Slice(d, next, m - 1) + last;
    }
  }

  /** The buffer after one more pass of a read. */
  lemma Extended(d: Disk, at: nat, done: nat, next: nat, chunk: nat, done': nat,
                 was: seq<byte>, before: seq<byte>, after: seq<byte>)
    requires next == at + done && done' == done + chunk <= |was| == |before| && next + chunk <= |d| * SECTOR_SIZE
    requires before == Slice(d, at, done) + was[done..]
    requires after == before[..done] + Slice(d, next, chunk) + before[done'..]
    ensures after == Slice(d, at, done') + was[done'..]
  {
    assert before[..done] == Slice(d, at, done);
    assert before[done'..] == was[done'..];
    SliceConcat(d, at, done, next, chunk, done');
  }

  lemma NothingWritten(d: Disk, at: nat)
    ensures Written(d, at, []) == d
  {
    forall i | 0 <= i < |d| ensures Written(d, at, [])[i] == d[i] {
      assert WrittenSector(d[i], i * SECTOR_SIZE, at, []) == d[i];
    }
  }

  /** Two writes end to end are one write. */
  lemma WrittenConcat(d: Disk, at: nat, a: seq<byte>, b: seq<byte>)
    ensures Written(Written(d, at, a), at + |a|, b) == Written(d, at, a + b)
  {
    forall i | 0 <= i < |d|
      ensures Written(Written(d, at, a), at + |a|, b)[i] == Written(d, at, a + b)[i]
    {
      var base := i * SECTOR_SIZE;
      assert WrittenSector(WrittenSector(d[i], base, at, a), base, at + |a|, b) == WrittenSector(d[i], base, at, a + b);
    }
  }

  /** One sector with `chunk` laid over it from `ofs` on. */
  function Overlaid(s: Sector, ofs: nat, chunk: seq<byte>): Sector
    requires ofs + |chunk| <= SECTOR_SIZE
  {
    s[..ofs] + chunk + s[ofs + |chunk|..]
  }

  /** Rewriting one sector writes the chunk and nothing else. */
  lemma OneSector(d: Disk, at: nat, chunk: seq<byte>)
    requires at < |d| * SECTOR_SIZE && at % SECTOR_SIZE + |chunk| <= SECTOR_SIZE
    ensures d[at / SECTOR_SIZE := Overlaid(d[at / SECTOR_SIZE], at % SECTOR_SIZE, chunk)] == Written(d, at, chunk)
  {
    var q, o := at / SECTOR_SIZE, at % SECTOR_SIZE;
    assert at == q * SECTOR_SIZE + o;
    var e := d[q := Overlaid(d[q], o, chunk)];
    forall i | 0 <= i < |d| ensures e[i] == Written(d, at, chunk)[i] {
      assert e[i] == WrittenSector(d[i], i * SECTOR_SIZE, at, chunk);
    }
  }

  /** A chunk inside one sector, as a slice of that sector. */
  lemma OneSectorSlice(d: Disk, at: nat, n: nat)
    requires at < |d| * SECTOR_SIZE && at % SECTOR_SIZE + n <= SECTOR_SIZE && at + n <= |d| * SECTOR_SIZE
    ensures Slice(d, at, n) == d[at / SECTOR_SIZE][at % SECTOR_SIZE..at % SECTOR_SIZE + n]
  {
    var q, o := at / SECTOR_SIZE, at % SECTOR_SIZE;
    forall k | 0 <= k < n ensures Slice(d, at, n)[k] == d[q][o..o + n][k] {
      SliceByte(d, at, n, k);
      assert (at + k) / SECTOR_SIZE == q && (at + k) % SECTOR_SIZE == o + k;
    }
  }

  // ---------------------------------------------------------------- the device and an inode

  class Device {
    var sectors: Disk

    constructor (d: Disk)
      ensures sectors == d
    {
      sectors := d;
    }

    method Read(i: nat) returns (s: Sector)
      requires i < |sectors|
      ensures s == sectors[i]
    {
      s := sectors[i];
    }

    method Write(i: nat, s: Sector)
      requires i < |sectors|
      modifies this
      ensures sectors == old(sectors)[i := s]
    {
      sectors := sectors[i := s];
    }
  }

  function BytesToSectors(size: nat): (n: nat)
    ensures 512 * n - 512 < size <= 512 * n
  {
    (size + SECTOR_SIZE - 1) / SECTOR_SIZE
  }

  /** Of a buffer that held `was`, the first `done` bytes now hold those from byte `at` of the device on. */
  ghost predicate HasRead(d: Disk, at: nat, done: nat, was: seq<byte>, now: seq<byte>) {
    && done <= |was| == |now| && (done > 0 ==> at + done <= |d| * SECTOR_SIZE)
    && now == Slice(d, at, done) + was[done..]
  }

  /** An in-memory inode. `files` are the open files on it; directories may hold it open too. */
  class Inode {
    const start: nat
    const length: nat
    var openCnt: int
    var denyWriteCnt: int
    ghost var files: set<File>

    constructor (start: nat, length: nat)
      ensures this.start == start && this.length == length
      ensures openCnt == 1 && denyWriteCnt == 0 && files == {}
    {
      this.start, this.length := start, length;
      openCnt, denyWriteCnt := 1, 0;
      files := {};
    }

    ghost predicate OnDevice(d: Disk) {
      length <= INT_MAX && start + BytesToSectors(length) <= |d|
    }

    /** The first byte of byte `offset` of the file on the device. */
    function At(offset: nat): nat {
      start * SECTOR_SIZE + offset
    }

    /** The sector holding byte `pos`, if the file has one. */
    function ByteToSector(pos: nat): nat
      requires pos < length
    {
      start + pos / SECTOR_SIZE
    }

    /** Reads into the front of `buffer` exactly the bytes of the file from `offset` on. */
    method ReadAt(dev: Device, buffer: array<byte>, size: int, offset: nat, bounceOk: bool) returns (done: nat)
      requires OnDevice(dev.sectors) && size <= buffer.Length
      modifies buffer
      ensures done == Moved(size, offset, length, bounceOk) <= buffer.Length
      ensures done > 0 ==> At(offset) + done <= |dev.sectors| * SECTOR_SIZE
      ensures buffer[..] == Slice(dev.sectors, At(offset), done) + old(buffer[..])[done..]
    {
      done := 0;
      ghost var was, d := buffer[..], dev.sectors;
      var left, pos, haveBounce := size, offset, false;
      while left > 0
        invariant pos == offset + done && left == size - done
        invariant done + Moved(left, pos, length, bounceOk) == Moved(size, offset, length, bounceOk)
        invariant dev.sectors == d && HasRead(d, At(offset), done, was, buffer[..])
        invariant haveBounce ==> bounceOk
      {
        var chunk := ChunkSize(left, pos, length);
        ChunkAdvances(left, pos, length, bounceOk);
        if chunk <= 0 {
          break;
        }
        if pos % SECTOR_SIZE != 0 || chunk != SECTOR_SIZE {
          if !haveBounce {
            haveBounce := bounceOk;
            if !haveBounce {
              break;
            }
          }
        }
        var next := done + chunk;
        ReadPass(dev, buffer, done, pos, chunk, next, offset, was);
        left, pos, done := left - chunk, pos + chunk, next;
      }
    }

    /** One pass, with what the earlier ones have read. */
    method ReadPass(dev: Device, buffer: array<byte>, done: nat, pos: nat, chunk: nat, ghost next: nat,
                    ghost offset: nat, ghost was: seq<byte>)
      requires OnDevice(dev.sectors) && next == done + chunk <= buffer.Length && pos == offset + done
      requires 0 < chunk && pos + chunk <= length && pos % SECTOR_SIZE + chunk <= SECTOR_SIZE
      requires HasRead(dev.sectors, At(offset), done, was, buffer[..])
      modifies buffer
      ensures HasRead(dev.sectors, At(offset), next, was, buffer[..])
    {
      ghost var before := buffer[..];
      ReadChunk(dev, buffer, done, pos, chunk);
      Extended(dev.sectors, At(offset), done, At(pos), chunk, next, was, before, buffer[..]);
    }

    /** One pass: a whole sector goes straight into the buffer, part of one by way of the bounce buffer. */
    method ReadChunk(dev: Device, buffer: array<byte>, done: nat, pos: nat, chunk: nat)
      requires OnDevice(dev.sectors) && done + chunk <= buffer.Length
      requires 0 < chunk && pos + chunk <= length && pos % SECTOR_SIZE + chunk <= SECTOR_SIZE
      modifies buffer
      ensures At(pos) + chunk <= |dev.sectors| * SECTOR_SIZE
      ensures buffer[..] == old(buffer[..])[..done] + Slice(dev.sectors, At(pos), chunk) + old(buffer[..])[done + chunk..]
    {
      ChunkOnDevice(dev.sectors, pos, chunk);
      OneSectorSlice(dev.sectors, At(pos), chunk);
      var sectorOfs := pos % SECTOR_SIZE;
      var sector := dev.Read(ByteToSector(pos));
      if sectorOfs == 0 && chunk == SECTOR_SIZE {
        assert sector[0..chunk] == sector;
        Fill(buffer, done, sector);
      } else {
        var bounce := sector;
        Fill(buffer, done, bounce[sectorOfs..sectorOfs + chunk]);
      }
    }

    /** Writes the front of `buffer` over exactly the bytes of the file from `offset` on, and leaves every other byte
        of the device as it was. */
    method WriteAt(dev: Device, buffer: array<byte>, size: int, offset: nat, bounceOk: bool) returns (done: nat)
      requires OnDevice(dev.sectors) && size <= buffer.Length
      modifies dev
      ensures done == if denyWriteCnt != 0 then 0 else Moved(size, offset, length, bounceOk)
      ensures done <= buffer.Length
      ensures dev.sectors == Written(old(dev.sectors), At(offset), buffer[..done])
    {
      done := 0;
      NothingWritten(dev.sectors, At(offset));
      if denyWriteCnt != 0 {
        return;
      }
      var left, pos, haveBounce := size, offset, false;
      while left > 0
        invariant pos == offset + done && left == size - done
        invariant done + Moved(left, pos, length, bounceOk) == Moved(size, offset, length, bounceOk)
        invariant done <= buffer.Length
        invariant dev.sectors == Written(old(dev.sectors), At(offset), buffer[..done])
        invariant haveBounce ==> bounceOk
      {
        var chunk := ChunkSize(left, pos, length);
        ChunkAdvances(left, pos, length, bounceOk);
        if chunk <= 0 {
          break;
        }
        if pos % SECTOR_SIZE != 0 || chunk != SECTOR_SIZE {
          if !haveBounce {
            haveBounce := bounceOk;
            if !haveBounce {
              break;
            }
          }
        }
        var data := buffer[done..done + chunk];
        WriteChunk(dev, data, pos);
        WrittenConcat(old(dev.sectors), At(offset), buffer[..done], data);
        assert buffer[..done] + data == buffer[..done + chunk];
        left, pos, done := left - chunk, pos + chunk, done + chunk;
      }
    }

    /** One pass: a whole sector is written straight from the buffer; part of one is laid over what the sector held. */
    method WriteChunk(dev: Device, data: seq<byte>, pos: nat)
      requires OnDevice(dev.sectors)
      requires 0 < |data| && pos + |data| <= length && pos % SECTOR_SIZE + |data| <= SECTOR_SIZE
      modifies dev
      ensures dev.sectors == Written(old(dev.sectors), At(pos), data)
    {
      ChunkOnDevice(dev.sectors, pos, |data|);
      OneSector(dev.sectors, At(pos), data);
      var sectorOfs := pos % SECTOR_SIZE;
      var sectorLeft := SECTOR_SIZE - sectorOfs;
      if sectorOfs == 0 && |data| == SECTOR_SIZE {
        assert Overlaid(dev.sectors[ByteToSector(pos)], 0, data) == data;
        dev.Write(ByteToSector(pos), data);
      } else {
        var bounce := seq(SECTOR_SIZE, _ => 0);
        if sectorOfs > 0 || |data| < sectorLeft {
          bounce := dev.Read(ByteToSector(pos));
        }
        bounce := bounce[..sectorOfs] + data + bounce[sectorOfs + |data|..];
        dev.Write(ByteToSector(pos), bounce);
      }
    }

    lemma ChunkOnDevice(d: Disk, pos: nat, chunk: nat)
      requires OnDevice(d) && 0 < chunk && pos + chunk <= length && pos % SECTOR_SIZE + chunk <= SECTOR_SIZE
      ensures ByteToSector(pos) == At(pos) / SECTOR_SIZE < |d|
      ensures At(pos) % SECTOR_SIZE == pos % SECTOR_SIZE && At(pos) + chunk <= |d| * SECTOR_SIZE
    {
    }
  }

  /** Copies `data` into the buffer from `at` on. */
  method Fill(buffer: array<byte>, at: nat, data: seq<byte>)
    requires at + |data| <= buffer.Length
    modifies buffer
    ensures buffer[..] == old(buffer[..at]) + data + old(buffer[at + |data|..])
  {
    for i := 0 to |data|
      invariant buffer[..at] == old(buffer[..at]) && buffer[at + |data|..] == old(buffer[at + |data|..])
      invariant forall k :: 0 <= k < i ==> buffer[at + k] == data[k]
    {
      buffer[at + i] := data[i];
    }
  }

  // ---------------------------------------------------------------- open files

  ghost function Deniers(files: set<File>): set<File>
    reads files
  {
    set f | f in files && f.denyWrite
  }

  /** The inode's counts agree with the open files on it: writes are denied exactly by the files that asked. */
  ghost predicate CountsAgree(i: Inode)
    reads i, i.files
  {
    && (forall f :: f in i.files ==> f.inode == i)
    && i.denyWriteCnt == |Deniers(i.files)|
    && |i.files| <= i.openCnt
  }

  /** A write can get through exactly when no open file denies it. */
  lemma WritableIffNobodyDenies(i: Inode)
    requires CountsAgree(i)
    ensures i.denyWriteCnt == 0 <==> forall f :: f in i.files ==> !f.denyWrite
    ensures i.denyWriteCnt <= i.openCnt
  {
    if i.denyWriteCnt == 0 {
      forall f | f in i.files ensures !f.denyWrite {
        assert f !in Deniers(i.files);
      }
    }
    if forall f :: f in i.files ==> !f.denyWrite {
      assert Deniers(i.files) == {};
    }
    SubsetSize(Deniers(i.files), i.files);
  }

  lemma SubsetSize<T>(a: set<T>, b: set<T>)
    requires a <= b
    ensures |a| <= |b|
  {
    assert b == a + (b - a);
  }

  class File {
    const inode: Inode
    var pos: nat
    var denyWrite: bool

    /** Takes over one of the inode's openings. */
    constructor (i: Inode)
      requires CountsAgree(i) && |i.files| < i.openCnt
      modifies i`files
      ensures inode == i && pos == 0 && !denyWrite
      ensures i.files == old(i.files) + {this} && this !in old(i.files) && CountsAgree(i)
    {
      inode, pos, denyWrite := i, 0, false;
      new;
      i.files := i.files + {this};
      assert Deniers(i.files) == old(Deniers(i.files));
    }

    /** Reads from the current position and moves it past what was read. */
    method Read(dev: Device, buffer: array<byte>, size: int, bounceOk: bool) returns (done: nat)
      requires inode.OnDevice(dev.sectors) && size <= buffer.Length
      modifies this`pos, buffer
      ensures done == Moved(size, old(pos), inode.length, bounceOk) <= buffer.Length
      ensures pos == old(pos) + done
      ensures done > 0 ==> inode.At(old(pos)) + done <= |dev.sectors| * SECTOR_SIZE
      ensures buffer[..] == Slice(dev.sectors, inode.At(old(pos)), done) + old(buffer[..])[done..]
    {
      done := inode.ReadAt(dev, buffer, size, pos, bounceOk);
      pos := pos + done;
    }

    method Write(dev: Device, buffer: array<byte>, size: int, bounceOk: bool) returns (done: nat)
      requires inode.OnDevice(dev.sectors) && size <= buffer.Length && CountsAgree(inode)
      modifies this`pos, dev
      ensures (exists f :: f in inode.files && f.denyWrite) ==> done == 0
      ensures !(exists f :: f in inode.files && f.denyWrite) ==> done == Moved(size, old(pos), inode.length, bounceOk)
      ensures done <= buffer.Length && pos == old(pos) + done
      ensures dev.sectors == Written(old(dev.sectors), inode.At(old(pos)), buffer[..done])
    {
      WritableIffNobodyDenies(inode);
      done := inode.WriteAt(dev, buffer, size, pos, bounceOk);
      pos := pos + done;
    }

    method Seek(newPos: nat)
      modifies this`pos
      ensures pos == newPos
    {
      pos := newPos;
    }

    method DenyWrite()
      requires CountsAgree(inode) && this in inode.files
      modifies this`denyWrite, inode`denyWriteCnt
      ensures denyWrite && CountsAgree(inode)
      ensures inode.denyWriteCnt > 0
    {
      if !denyWrite {
        ghost var was := Deniers(inode.files);
        denyWrite := true;
        inode.denyWriteCnt := inode.denyWriteCnt + 1;
        assert Deniers(inode.files) == was + {this};
      }
      assert this in Deniers(inode.files);
      WritableIffNobodyDenies(inode);
    }

    method AllowWrite()
      requires CountsAgree(inode) && this in inode.files
      modifies this`denyWrite, inode`denyWriteCnt
      ensures !denyWrite && CountsAgree(inode)
    {
      if denyWrite {
        ghost var was := Deniers(inode.files);
        assert this in was;
        WritableIffNobodyDenies(inode);
        assert 0 < inode.denyWriteCnt <= inode.openCnt;
        denyWrite := false;
        inode.denyWriteCnt := inode.denyWriteCnt - 1;
        assert Deniers(inode.files) == was - {this};
      }
    }

    /** Gives up its denial with its opening, so closing a file can never leave the inode unwritable. */
    method Close()
      requires CountsAgree(inode) && this in inode.files
      modifies this`denyWrite, inode`denyWriteCnt, inode`openCnt, inode`files
      ensures CountsAgree(inode) && inode.files == old(inode.files) - {this}
      ensures inode.openCnt == old(inode.openCnt) - 1
    {
      AllowWrite();
      assert Deniers(inode.files - {this}) == Deniers(inode.files);
      inode.openCnt := inode.openCnt - 1;
      inode.files := inode.files - {this};
    }
  }

  // ---------------------------------------------------------------- the file as a flat array of bytes

  /** The bytes `n` long at `offset` of a stretch of the device are that part of the stretch. */
  lemma {:induction false} SliceOfSlice(d: Disk, base: nat, length: nat, offset: nat, n: nat)
    requires offset + n <= length && base + length <= |d| * SECTOR_SIZE
    ensures Slice(d, base + offset, n) == Slice(d, base, length)[offset..offset + n]
  {
    if n > 0 {
      SliceOfSlice(d, base, length, offset, n - 1);
      SliceByte(d, base, length, offset + n - 1);
    }
  }

  /** A write inside a file replaces just that part of its contents. */
  lemma WriteReplaces(d: Disk, base: nat, length: nat, offset: nat, data: seq<byte>)
    requires offset + |data| <= length && base + length <= |d| * SECTOR_SIZE
    ensures var was := Slice(d, base, length);
      Slice(Written(d, base + offset, data), base, length) == was[..offset] + data + was[offset + |data|..]
  {
    var was := Slice(d, base, length);
    var now := Slice(Written(d, base + offset, data), base, length);
    forall k | 0 <= k < length ensures now[k] == (was[..offset] + data + was[offset + |data|..])[k] {
      ReadAfterWrite(d, base + offset, data, base, length, k);
    }
  }

  function Total(sizes: seq<nat>): nat {
    if sizes == [] then 0 else sizes[0] + Total(sizes[1..])
  }

  function Piece(contents: seq<byte>, pos: nat, n: nat): seq<byte>
    requires n > 0 ==> pos + n <= |contents|
  {
    if n == 0 then [] else contents[pos..pos + n]
  }

  /** What successive reads of the given sizes deliver from a file with these contents, starting at `pos`. */
  function ReadInPieces(contents: seq<byte>, pos: nat, sizes: seq<nat>): seq<byte>
    decreases |sizes|
  {
    if sizes == [] then []
    else
      var n := InFile(sizes[0], pos, |contents|);
      Piece(contents, pos, n) + ReadInPieces(contents, pos + n, sizes[1..])
  }

  /** However a file is cut into reads, they deliver in order what one read of the same total, up to `end`, would. */
  lemma {:induction false} PiecesMakeWhole(contents: seq<byte>, pos: nat, sizes: seq<nat>, end: nat)
    requires pos <= |contents| && end == pos + InFile(Total(sizes), pos, |contents|)
    ensures end <= |contents| && ReadInPieces(contents, pos, sizes) == contents[pos..end]
    decreases |sizes|
  {
    if sizes != [] {
      var next, rest := pos + InFile(sizes[0], pos, |contents|), sizes[1..];
      InFileTwice(sizes[0], Total(rest), pos, next, |contents|);
      PiecesMakeWhole(contents, next, rest, end);
      PieceFirst(contents, pos, contents[pos..next], sizes, next);
      JoinSlices(contents, pos, next, end);
    }
  }

  lemma PieceFirst(contents: seq<byte>, pos: nat, piece: seq<byte>, sizes: seq<nat>, next: nat)
    requires sizes != [] && next == pos + |piece| && |piece| == InFile(sizes[0], pos, |contents|)
    requires |piece| > 0 ==> piece == contents[pos..next]
    ensures ReadInPieces(contents, pos, sizes) == piece + ReadInPieces(contents, next, sizes[1..])
  {
    var n := InFile(sizes[0], pos, |contents|);
    PieceUnfolds(contents, pos, sizes, n);
    PieceIsSlice(contents, pos, piece, n);
  }

  lemma PieceUnfolds(contents: seq<byte>, pos: nat, sizes: seq<nat>, n: nat)
    requires sizes != [] && n == InFile(sizes[0], pos, |contents|)
    ensures ReadInPieces(contents, pos, sizes) == Piece(contents, pos, n) + ReadInPieces(contents, pos + n, sizes[1..])
  {
  }

  lemma PieceIsSlice(contents: seq<byte>, pos: nat, piece: seq<byte>, n: nat)
    requires n == |piece| && (n > 0 ==> pos + n <= |contents| && piece == contents[pos..pos + n])
    ensures Piece(contents, pos, n) == piece
  {
  }

  lemma JoinSlices(s: seq<byte>, a: nat, b: nat, c: nat)
    requires a <= b <= c <= |s|
    ensures s[a..b] + s[b..c] == s[a..c]
  {
  }

  /** Two requests, one after the other, reach as far as one for both. */
  lemma InFileTwice(a: nat, b: nat, pos: nat, next: nat, length: nat)
    requires pos <= length && next == pos + InFile(a, pos, length)
    ensures next <= length && next + InFile(b, next, length) == pos + InFile(a + b, pos, length) <= length
  {
  }

  /** The stretch of the file from `start` on, as far as `data` goes. */
  ghost predicate IsStretch(d: Disk, i: Inode, start: nat, data: seq<byte>) {
    && (|data| > 0 ==> i.At(start) + |data| <= |d| * SECTOR_SIZE)
    && data == Slice(d, i.At(start), |data|)
  }

  /** One read into a buffer of its own. */
  method ReadPiece(f: File, dev: Device, size: nat, bounceOk: bool) returns (piece: seq<byte>)
    requires f.inode.OnDevice(dev.sectors)
    modifies f`pos
    ensures f.pos == old(f.pos) + |piece| && IsStretch(dev.sectors, f.inode, old(f.pos), piece)
    ensures |piece| == Moved(size, old(f.pos), f.inode.length, bounceOk)
  {
    var buffer := new byte[size];
    var done := f.Read(dev, buffer, size, bounceOk);
    piece := buffer[..done];
  }

  /** Reads of a file one after another, some perhaps cut short for want of a bounce buffer. What they deliver is in any
      case one stretch of the file; if none is cut short it is what one read of the same total delivers. */
  method ReadPieces(f: File, dev: Device, sizes: seq<nat>, bounceOk: seq<bool>) returns (data: seq<byte>)
    requires f.inode.OnDevice(dev.sectors) && |bounceOk| == |sizes|
    modifies f`pos
    ensures f.pos == old(f.pos) + |data| && IsStretch(dev.sectors, f.inode, old(f.pos), data)
    ensures (forall i :: 0 <= i < |sizes| ==> bounceOk[i]) ==>
      && |data| == InFile(Total(sizes), old(f.pos), f.inode.length)
      && data == ReadInPieces(Slice(dev.sectors, f.inode.At(0), f.inode.length), old(f.pos), sizes)
  {
    data := [];
    ghost var contents, start, whole := Slice(dev.sectors, f.inode.At(0), f.inode.length), f.pos, true;
    NoPieces(contents, start, sizes);
    assert sizes[0..] == sizes;
    for i := 0 to |sizes|
      invariant f.pos == start + |data| && IsStretch(dev.sectors, f.inode, start, data)
      invariant (forall k :: 0 <= k < i ==> bounceOk[k]) ==> whole
      invariant whole ==> HasPieces(contents, start, sizes, f.pos, data, sizes[i..])
    {
      assert sizes[i..][0] == sizes[i] && sizes[i..][1..] == sizes[i + 1..];
      data := NextPiece(f, dev, sizes[i], bounceOk[i], data, contents, start, sizes, sizes[i..], whole);
      whole := whole && bounceOk[i];
    }
    if whole {
      assert sizes[|sizes|..] == [];
      AllPieces(contents, start, sizes, f.pos, data);
    }
  }

  /** One read more, with what the earlier ones have delivered. */
  method NextPiece(f: File, dev: Device, size: nat, bounceOk: bool, data: seq<byte>, ghost contents: seq<byte>,
                   ghost start: nat, ghost sizes: seq<nat>, ghost rest: seq<nat>, ghost whole: bool)
    returns (data': seq<byte>)
    requires f.inode.OnDevice(dev.sectors) && contents == Slice(dev.sectors, f.inode.At(0), f.inode.length)
    requires f.pos == start + |data| && IsStretch(dev.sectors, f.inode, start, data)
    requires rest != [] && rest[0] == size && (whole ==> HasPieces(contents, start, sizes, f.pos, data, rest))
    modifies f`pos
    ensures f.pos == start + |data'| && IsStretch(dev.sectors, f.inode, start, data')
    ensures whole && bounceOk ==> HasPieces(contents, start, sizes, f.pos, data', rest[1..])
  {
    ghost var pos := f.pos;
    var piece := ReadPiece(f, dev, size, bounceOk);
    Stretches(dev.sectors, f.inode, start, data, pos, piece);
    if whole && bounceOk {
      PieceIs(dev.sectors, f.inode, contents, pos, piece, f.pos);
      OnePiece(contents, start, sizes, pos, data, piece, rest, f.pos);
    }
    data' := data + piece;
  }

  lemma Stretches(d: Disk, i: Inode, start: nat, data: seq<byte>, next: nat, piece: seq<byte>)
    requires IsStretch(d, i, start, data) && IsStretch(d, i, next, piece) && next == start + |data|
    ensures IsStretch(d, i, start, data + piece)
  {
    SliceConcat(d, i.At(start), |data|, i.At(next), |piece|, |data + piece|);
  }

  /** With `data` delivered up to `pos`, the reads of sizes `rest` deliver what is still to come. */
  ghost predicate HasPieces(contents: seq<byte>, start: nat, sizes: seq<nat>, pos: nat, data: seq<byte>, rest: seq<nat>) {
    && |data| + InFile(Total(rest), pos, |contents|) == InFile(Total(sizes), start, |contents|)
    && data + ReadInPieces(contents, pos, rest) == ReadInPieces(contents, start, sizes)
  }

  lemma NoPieces(contents: seq<byte>, start: nat, sizes: seq<nat>)
    ensures HasPieces(contents, start, sizes, start, [], sizes)
  {
  }

  lemma AllPieces(contents: seq<byte>, start: nat, sizes: seq<nat>, pos: nat, data: seq<byte>)
    requires HasPieces(contents, start, sizes, pos, data, [])
    ensures |data| == InFile(Total(sizes), start, |contents|) && data == ReadInPieces(contents, start, sizes)
  {
    assert data + [] == data;
  }

  lemma OnePiece(contents: seq<byte>, start: nat, sizes: seq<nat>, pos: nat, data: seq<byte>, piece: seq<byte>,
                 rest: seq<nat>, next: nat)
    requires rest != [] && HasPieces(contents, start, sizes, pos, data, rest) && next == pos + |piece|
    requires |piece| == InFile(rest[0], pos, |contents|)
    requires |piece| > 0 ==> piece == contents[pos..next]
    ensures HasPieces(contents, start, sizes, next, data + piece, rest[1..])
  {
    PieceFirst(contents, pos, piece, rest, next);
    Reassociate(data, piece, ReadInPieces(contents, next, rest[1..]));
  }

  lemma Reassociate(a: seq<byte>, b: seq<byte>, c: seq<byte>)
    ensures a + (b + c) == a + b + c
  {
  }

  /** A stretch inside the file is that part of its contents. */
  lemma PieceIs(d: Disk, i: Inode, contents: seq<byte>, pos: nat, piece: seq<byte>, next: nat)
    requires i.OnDevice(d) && IsStretch(d, i, pos, piece) && next == pos + |piece|
    requires contents == Slice(d, i.At(0), i.length) && (|piece| > 0 ==> next <= i.length)
    ensures |piece| > 0 ==> piece == contents[pos..next]
  {
    if |piece| > 0 {
      SliceOfSlice(d, i.At(0), i.length, pos, |piece|);
    }
  }
}
