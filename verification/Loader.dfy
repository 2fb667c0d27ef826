/** Loading a program: which segments are accepted, and what user memory holds after one has been loaded. */
module Loader {
  import opened Common

  type word = x: nat | x < WORD

  /** A program header, without the physical address and the alignment. */
  datatype Phdr = Phdr(kind: word, offset: word, vaddr: word, filesz: word, memsz: word, flags: word)

  const PHDR_SIZE := 32
  const EHDR_SIZE := 52
  const MAX_HEADERS := 1024
  const ELF_MAGIC: seq<byte> := [127, 69, 76, 70, 1, 1, 1]

  const PT_LOAD := 1
  const PT_DYNAMIC := 2
  const PT_INTERP := 3
  const PT_SHLIB := 5
  const PF_W := 2

  // ---------------------------------------------------------------- what the file says

  function WordAt(file: seq<byte>, at: nat): word
    requires at + 4 <= |file|
  {
    Value(file[at..at + 4])
  }

  function HalfAt(file: seq<byte>, at: nat): nat
    requires at + 2 <= |file|
  {
    file[at] as int + file[at + 1] as int * 0x100
  }

  /** The tests of the executable header. */
  predicate IsExecutable(file: seq<byte>) {
    && EHDR_SIZE <= |file| && file[..7] == ELF_MAGIC
    && HalfAt(file, 16) == 2 && HalfAt(file, 18) == 3 && WordAt(file, 20) == 1
    && HalfAt(file, 42) == PHDR_SIZE && HalfAt(file, 44) <= MAX_HEADERS
  }

  /** A word as the signed offset it is kept in. */
  function Offset(w: word): (ofs: int)
    ensures -0x8000_0000 <= ofs < 0x8000_0000 && ofs % 0x1_0000_0000 == w
  {
    if w <= INT_MAX then w else w - WORD
  }

  /** The program header at an offset, unless that lies outside the file or the read falls short. */
  function HeaderAt(file: seq<byte>, ofs: int, readOk: bool): Option<Phdr> {
    if readOk && 0 <= ofs && ofs + PHDR_SIZE <= |file| then
      Some(Phdr(WordAt(file, ofs), WordAt(file, ofs + 4), WordAt(file, ofs + 8), WordAt(file, ofs + 16),
                WordAt(file, ofs + 20), WordAt(file, ofs + 24)))
    else None
  }

  /** All the program headers the executable header tells of. */
  function Headers(file: seq<byte>, c: seq<Luck>): (headers: seq<Option<Phdr>>)
    requires IsExecutable(file) && |c| == MAX_HEADERS
    ensures |headers| == HalfAt(file, 44)
  {
    seq(HalfAt(file, 44), i requires 0 <= i < HalfAt(file, 44) =>
      HeaderAt(file, Offset(WordAt(file, 28)) + PHDR_SIZE * i, c[i].header))
  }

  /** A program header as it stands in a file. */
  function HeaderBytes(p: Phdr, paddr: word, align: word): (r: seq<byte>)
    ensures |r| == PHDR_SIZE
  {
    LittleEndian(p.kind) + LittleEndian(p.offset) + LittleEndian(p.vaddr) + LittleEndian(paddr)
      + LittleEndian(p.filesz) + LittleEndian(p.memsz) + LittleEndian(p.flags) + LittleEndian(align)
  }

  /** It reads back, wherever it stands. */
  lemma HeaderReadsBack(file: seq<byte>, ofs: nat, p: Phdr, paddr: word, align: word)
    requires ofs + PHDR_SIZE <= |file| && file[ofs..ofs + PHDR_SIZE] == HeaderBytes(p, paddr, align)
    ensures HeaderAt(file, ofs, true) == Some(p)
  {
    var b := HeaderBytes(p, paddr, align);
    FieldReadsBack(file, ofs, b, 0, p.kind);
    FieldReadsBack(file, ofs, b, 4, p.offset);
    FieldReadsBack(file, ofs, b, 8, p.vaddr);
    FieldReadsBack(file, ofs, b, 16, p.filesz);
    FieldReadsBack(file, ofs, b, 20, p.memsz);
    FieldReadsBack(file, ofs, b, 24, p.flags);
  }

  /** An executable header, as the ELF format lays it out: `ident` says what kind of file it is, `entry` where the program
      starts, and `phoff`, `phentsize` and `phnum` where the program headers are, how large and how many. The rest is of
      no use to the loader. */
  datatype Ehdr = Ehdr(ident: seq<byte>, kind: nat, machine: nat, version: word, entry: word, phoff: word, rest: seq<byte>,
                       phentsize: nat, phnum: nat)

  predicate IsEhdr(h: Ehdr) {
    && |h.ident| == 16 && |h.rest| == 10
    && h.kind < 0x1_0000 && h.machine < 0x1_0000 && h.phentsize < 0x1_0000 && h.phnum < 0x1_0000
  }

  function Half(v: nat): (r: seq<byte>)
    requires v < 0x1_0000
    ensures |r| == 2
  {
    [v % 0x100, v / 0x100]
  }

  function EhdrBytes(h: Ehdr): (r: seq<byte>)
    requires IsEhdr(h)
    ensures |r| == 46
  {
    h.ident + Half(h.kind) + Half(h.machine) + LittleEndian(h.version) + LittleEndian(h.entry) + LittleEndian(h.phoff)
      + h.rest + Half(h.phentsize) + Half(h.phnum)
  }

  lemma HalfReadsBack(file: seq<byte>, at: nat, v: nat)
    requires at + 2 <= |file| && v < 0x1_0000 && file[at..at + 2] == Half(v)
    ensures HalfAt(file, at) == v
  {
    assert file[at] == file[at..at + 2][0] && file[at + 1] == file[at..at + 2][1];
  }

  lemma WordReadsBack(file: seq<byte>, at: nat, w: word)
    requires at + 4 <= |file| && file[at..at + 4] == LittleEndian(w)
    ensures WordAt(file, at) == w
  {
    ValueReadsBack(w);
  }

  lemma PartOf(file: seq<byte>, b: seq<byte>, i: nat, j: nat)
    requires i <= j <= |b| <= |file| && file[..|b|] == b
    ensures file[i..j] == b[i..j]
  {
    forall k | i <= k < j ensures file[k] == b[k] {
      assert file[..|b|][k] == b[k];
    }
  }

  /** The loader goes on with a file exactly if it is a 32-bit little-endian executable for the 80386, of the current
      version and with at most 1024 program headers of 32 bytes, and sees its fields as they were written. */
  lemma ExecutableReadsBack(file: seq<byte>, h: Ehdr)
    requires IsEhdr(h) && 52 <= |file| && file[..46] == EhdrBytes(h)
    ensures IsExecutable(file) <==>
      h.ident[..7] == [127, 69, 76, 70, 1, 1, 1] && h.kind == 2 && h.machine == 3 && h.version == 1 &&
      h.phentsize == 32 && h.phnum <= 1024
    ensures WordAt(file, 24) == h.entry && WordAt(file, 28) == h.phoff && HalfAt(file, 44) == h.phnum
  {
    var b := EhdrBytes(h);
    PartsOfEhdr(h);
    PartOf(file, b, 0, 7);
    PartOf(file, b, 16, 18);
    PartOf(file, b, 18, 20);
    PartOf(file, b, 20, 24);
    PartOf(file, b, 24, 28);
    PartOf(file, b, 28, 32);
    PartOf(file, b, 42, 44);
    PartOf(file, b, 44, 46);
    HalfReadsBack(file, 16, h.kind);
    HalfReadsBack(file, 18, h.machine);
    WordReadsBack(file, 20, h.version);
    WordReadsBack(file, 24, h.entry);
    WordReadsBack(file, 28, h.phoff);
    HalfReadsBack(file, 42, h.phentsize);
    HalfReadsBack(file, 44, h.phnum);
  }

  lemma PartsOfEhdr(h: Ehdr)
    requires IsEhdr(h)
    ensures var b := EhdrBytes(h);
      && b[0..7] == h.ident[..7] && b[16..18] == Half(h.kind) && b[18..20] == Half(h.machine)
      && b[20..24] == LittleEndian(h.version) && b[24..28] == LittleEndian(h.entry) && b[28..32] == LittleEndian(h.phoff)
      && b[42..44] == Half(h.phentsize) && b[44..46] == Half(h.phnum)
  {
  }

  lemma FieldReadsBack(file: seq<byte>, ofs: nat, b: seq<byte>, k: nat, w: word)
    requires ofs + |b| <= |file| && file[ofs..ofs + |b|] == b && k + 4 <= |b| && b[k..k + 4] == LittleEndian(w)
    ensures WordAt(file, ofs + k) == w
  {
    var there, here := file[ofs + k..ofs + k + 4], b[k..k + 4];
    forall j | 0 <= j < 4 ensures there[j] == here[j] {
      assert b[k + j] == file[ofs..ofs + |b|][k + j];
    }
    assert there == here;
    ValueReadsBack(w);
  }

  /** Its program headers are seen as they stand in the table, one after another. */
  lemma TableReadsBack(file: seq<byte>, h: Ehdr, c: seq<Luck>, i: nat, p: Phdr, paddr: word, align: word)
    requires IsEhdr(h) && 52 <= |file| && file[..46] == EhdrBytes(h) && IsExecutable(file) && |c| == MAX_HEADERS
    requires i < h.phnum && c[i].header && h.phoff < 0x8000_0000 && h.phoff + 32 * i + 32 <= |file|
    requires file[h.phoff + 32 * i..h.phoff + 32 * i + 32] == HeaderBytes(p, paddr, align)
    ensures |Headers(file, c)| == h.phnum && Headers(file, c)[i] == Some(p)
  {
    ExecutableReadsBack(file, h);
    HeaderReadsBack(file, h.phoff + 32 * i, p, paddr, align);
    assert Offset(h.phoff) == h.phoff;
  }

  // ---------------------------------------------------------------- which segments are accepted

  /** The tests as made on 32-bit words. */
  predicate ValidateSegment(p: Phdr, fileLength: nat) {
    && p.offset % PGSIZE == p.vaddr % PGSIZE
    && !(p.offset > fileLength)
    && !(p.memsz < p.filesz)
    && p.memsz != 0
    && p.vaddr < PHYS_BASE
    && (p.vaddr + p.memsz) % WORD < PHYS_BASE
    && !((p.vaddr + p.memsz) % WORD < p.vaddr)
    && !(p.vaddr < PGSIZE)
  }

  /** They come to this, with no wrap-around anywhere. */
  lemma AcceptedSegments(p: Phdr, fileLength: nat)
    ensures ValidateSegment(p, fileLength) <==>
      PGSIZE <= p.vaddr && p.vaddr + p.memsz < PHYS_BASE && 0 < p.memsz && p.filesz <= p.memsz &&
      p.offset <= fileLength && p.offset % PGSIZE == p.vaddr % PGSIZE
  {
  }

  /** ROUND_UP to a page, in 32 bits. */
  function RoundUp(x: nat): word {
    (x + PGSIZE - 1) % WORD / PGSIZE * PGSIZE
  }

  /** The byte counts the loader works out, in 32 bits. */
  function ReadBytes(p: Phdr): word {
    if p.filesz > 0 then (p.vaddr % PGSIZE + p.filesz) % WORD else 0
  }

  function ZeroBytes(p: Phdr): word {
    if p.filesz > 0 then (RoundUp((p.vaddr % PGSIZE + p.memsz) % WORD) - ReadBytes(p)) % WORD
    else RoundUp((p.vaddr % PGSIZE + p.memsz) % WORD)
  }

  function MemPage(p: Phdr): word { p.vaddr - p.vaddr % PGSIZE }

  function FilePage(p: Phdr): word { p.offset - p.offset % PGSIZE }

  /** For an accepted segment the counts are exact, fill whole pages, and cover it: the pages from the one holding its
      first byte to the one holding its last, all below PHYS_BASE. */
  lemma CountsCoverSegment(p: Phdr, fileLength: nat)
    requires ValidateSegment(p, fileLength)
    ensures ReadBytes(p) == if p.filesz > 0 then p.vaddr % PGSIZE + p.filesz else 0
    ensures (ReadBytes(p) + ZeroBytes(p)) % PGSIZE == 0
    ensures MemPage(p) % PGSIZE == 0 && FilePage(p) % PGSIZE == 0
    ensures var end := MemPage(p) + ReadBytes(p) + ZeroBytes(p);
      end - PGSIZE < p.vaddr + p.memsz <= end <= PHYS_BASE
    ensures FilePage(p) + p.vaddr % PGSIZE == p.offset
  {
    AcceptedSegments(p, fileLength);
    var x := p.vaddr % PGSIZE + p.memsz;
    RoundUpIs(x);
    PageOf(p.vaddr);
    PageOf(p.offset);
    EndsBelow(MemPage(p), x, RoundUp(x));
    CountsAre(p, x);
  }

  /** So its pages are those that any byte of it lies in, from the first of `p_memsz` bytes to the last. */
  lemma PagesOfSegment(p: Phdr, fileLength: nat, q: nat)
    requires ValidateSegment(p, fileLength)
    ensures FirstPage(p) <= q < FirstPage(p) + PageCount(p) <==> p.vaddr / 4096 <= q <= (p.vaddr + p.memsz - 1) / 4096
  {
    CountsCoverSegment(p, fileLength);
  }

  /** The write flag of a segment is the second lowest digit of its flags. */
  lemma WriteFlagIs(p: Phdr)
    ensures MayWrite(p) <==> p.flags % 4 >= 2
  {
    assert p.flags == p.flags / 2 * 2 + p.flags % 2 && p.flags / 2 == p.flags / 2 / 2 * 2 + p.flags / 2 % 2;
    assert p.flags % 4 == p.flags / 2 % 2 * 2 + p.flags % 2;
  }

  /** The loader stops at headers of kinds 2, 3 and 5, checks those of kind 1, and passes over the others. */
  lemma AcceptableIs(h: Option<Phdr>, fileLength: nat)
    ensures Acceptable(h, fileLength) <==>
      h.Some? && h.value.kind !in {2, 3, 5} && (h.value.kind == 1 ==>
        4096 <= h.value.vaddr && h.value.vaddr + h.value.memsz < 0xC000_0000 && 0 < h.value.memsz &&
        h.value.filesz <= h.value.memsz && h.value.offset <= fileLength && h.value.offset % 4096 == h.value.vaddr % 4096)
  {
    if h.Some? {
      AcceptedSegments(h.value, fileLength);
    }
  }

  lemma CountsAre(p: Phdr, x: nat)
    requires x == p.vaddr % PGSIZE + p.memsz && x + PGSIZE - 1 < WORD && p.filesz <= p.memsz
    ensures ReadBytes(p) == if p.filesz > 0 then p.vaddr % PGSIZE + p.filesz else 0
    ensures ReadBytes(p) + ZeroBytes(p) == RoundUp(x)
  {
    RoundUpIs(x);
    var r, z := ReadBytes(p), RoundUp(x);
    assert x % WORD == x;
    if p.filesz > 0 {
      assert r == p.vaddr % PGSIZE + p.filesz;
      assert (z - r) % WORD == z - r;
    }
  }

  lemma RoundUpIs(x: nat)
    requires x + PGSIZE - 1 < WORD
    ensures x <= RoundUp(x) < x + PGSIZE && RoundUp(x) % PGSIZE == 0
  {
  }

  lemma PageOf(a: word)
    ensures (a - a % PGSIZE) % PGSIZE == 0
  {
  }

  lemma EndsBelow(page: nat, x: nat, r: nat)
    requires page % PGSIZE == 0 && r % PGSIZE == 0 && r < x + PGSIZE && page + x < PHYS_BASE
    ensures page + r <= PHYS_BASE
  {
    assert (page + r) % PGSIZE == 0;
  }

  // ---------------------------------------------------------------- user memory

  type PageBytes = b: seq<byte> | |b| == PGSIZE witness seq(PGSIZE, _ => 0)

  datatype UserPage = UserPage(bytes: PageBytes, writable: bool)

  /** Page `i` of a segment whose first `readBytes` bytes come from the file at `ofs` and whose rest is zero. */
  function SegmentPage(file: seq<byte>, ofs: nat, readBytes: nat, i: nat): PageBytes {
    seq(PGSIZE, j requires 0 <= j < PGSIZE =>
      if i * PGSIZE + j < readBytes && ofs + i * PGSIZE + j < |file| then file[ofs + i * PGSIZE + j] else 0)
  }

  lemma PageFilled(file: seq<byte>, ofs: nat, readBytes: nat, i: nat, n: nat)
    requires n == (if i * PGSIZE >= readBytes then 0 else if readBytes - i * PGSIZE < PGSIZE then readBytes - i * PGSIZE else PGSIZE)
    requires n > 0 ==> ofs + i * PGSIZE + n <= |file|
    ensures n > 0 ==> file[ofs + i * PGSIZE..ofs + i * PGSIZE + n] + seq(PGSIZE - n, _ => 0) == SegmentPage(file, ofs, readBytes, i)
    ensures n == 0 ==> seq(PGSIZE, _ => 0) == SegmentPage(file, ofs, readBytes, i)
  {
  }

  /** Whether the program header can be read, and how many frames, reads and page tables can be had for its segment
      before one fails. */
  datatype Luck = Luck(header: bool, frames: nat, fileReads: nat, tables: nat)

  predicate PlentyFor(c: Luck, n: nat) {
    c.frames >= n && c.fileReads >= n && c.tables >= n
  }

  predicate NoneMapped(pages: map<nat, UserPage>, first: nat, n: nat) {
    forall p :: p in pages ==> !(first <= p < first + n)
  }

  /** Nothing that was mapped changed, and only pages among the `n` from `first` on are new. */
  ghost predicate Extends(was: map<nat, UserPage>, now: map<nat, UserPage>, first: nat, n: nat) {
    && (forall p :: p in was ==> p in now && now[p] == was[p])
    && forall p :: p in now && p !in was ==> first <= p < first + n
  }

  /** The `n` pages from `first` on are new and hold the segment. */
  ghost predicate HoldsSegment(was: map<nat, UserPage>, now: map<nat, UserPage>, file: seq<byte>, ofs: nat, first: nat,
                               readBytes: nat, n: nat, writable: bool) {
    forall p :: first <= p < first + n ==>
      p !in was && p in now && now[p] == UserPage(SegmentPage(file, ofs, readBytes, p - first), writable)
  }

  function PageCount(p: Phdr): nat { (ReadBytes(p) + ZeroBytes(p)) / PGSIZE }

  function FirstPage(p: Phdr): nat { p.vaddr / PGSIZE }

  predicate MayWrite(p: Phdr) { p.flags / PF_W % 2 == 1 }

  /** The segment of `p` is in memory: its pages, no others, hold its file bytes from `p_offset` at `p_vaddr`, zeros from
      there to the end of the last page, and are writable as it asks. */
  ghost predicate InMemory(pages: map<nat, UserPage>, file: seq<byte>, p: Phdr) {
    && (forall q :: FirstPage(p) <= q < FirstPage(p) + PageCount(p) ==> q in pages && pages[q].writable == MayWrite(p))
    && (p.filesz > 0 ==> p.offset + p.filesz <= |file|)
    && forall a :: p.vaddr <= a < (FirstPage(p) + PageCount(p)) * PGSIZE ==> ByteIs(pages, file, p, a)
  }

  predicate ByteIs(pages: map<nat, UserPage>, file: seq<byte>, p: Phdr, a: nat) {
    && a / PGSIZE in pages
    && pages[a / PGSIZE].bytes[a % PGSIZE] ==
      if p.vaddr <= a < p.vaddr + p.filesz && p.offset + (a - p.vaddr) < |file| then file[p.offset + (a - p.vaddr)] else 0
  }

  /** Pages loaded with the counts worked out for an accepted segment hold that segment. */
  lemma SegmentIsInMemory(was: map<nat, UserPage>, now: map<nat, UserPage>, file: seq<byte>, p: Phdr)
    requires ValidateSegment(p, |file|)
    requires HoldsSegment(was, now, file, FilePage(p), FirstPage(p), ReadBytes(p), PageCount(p), MayWrite(p))
    requires ReadBytes(p) > 0 ==> FilePage(p) + ReadBytes(p) <= |file|
    ensures InMemory(now, file, p) && FirstPage(p) + PageCount(p) <= PHYS_BASE / PGSIZE
  {
    CountsCoverSegment(p, |file|);
    forall a | p.vaddr <= a < (FirstPage(p) + PageCount(p)) * PGSIZE ensures ByteIs(now, file, p, a) {
      AddressInSegment(p, |file|, a);
      var q := a / PGSIZE;
      assert FirstPage(p) <= q < FirstPage(p) + PageCount(p);
      assert now[q].bytes == SegmentPage(file, FilePage(p), ReadBytes(p), q - FirstPage(p));
    }
  }

  /** Where an address falls in the loaded pages, and in the file. */
  lemma AddressInSegment(p: Phdr, fileLength: nat, a: nat)
    requires ValidateSegment(p, fileLength) && p.vaddr <= a
    ensures var k := (a / PGSIZE - FirstPage(p)) * PGSIZE + a % PGSIZE;
      && FirstPage(p) <= a / PGSIZE && k == a - MemPage(p) && FilePage(p) + k == p.offset + (a - p.vaddr)
      && (k < ReadBytes(p) <==> p.filesz > 0 && a < p.vaddr + p.filesz)
  {
    CountsCoverSegment(p, fileLength);
  }

  lemma StaysInMemory(was: map<nat, UserPage>, now: map<nat, UserPage>, file: seq<byte>, p: Phdr)
    requires InMemory(was, file, p) && forall q :: q in was ==> q in now && now[q] == was[q]
    ensures InMemory(now, file, p)
  {
    forall a | p.vaddr <= a < (FirstPage(p) + PageCount(p)) * PGSIZE ensures ByteIs(now, file, p, a) {
      assert ByteIs(was, file, p, a);
    }
  }

  /** The loader gets what it needs for the segment. */
  predicate Suffices(file: seq<byte>, p: Phdr, c: Luck) {
    PlentyFor(c, PageCount(p)) && (p.filesz > 0 ==> p.offset + p.filesz <= |file|)
  }

  /** And nothing is in its way. */
  predicate LoadsWith(pages: map<nat, UserPage>, file: seq<byte>, p: Phdr, c: Luck) {
    Suffices(file, p, c) && NoneMapped(pages, FirstPage(p), PageCount(p))
  }

  const STACK_PAGE := PHYS_BASE / PGSIZE - 1

  predicate IsLoad(h: Option<Phdr>) {
    h.Some? && h.value.kind == PT_LOAD
  }

  /** The header could be read and is one the loader goes along with. */
  predicate Acceptable(h: Option<Phdr>, fileLength: nat) {
    && h.Some?
    && h.value.kind != PT_DYNAMIC && h.value.kind != PT_INTERP && h.value.kind != PT_SHLIB
    && (IsLoad(h) ==> ValidateSegment(h.value, fileLength))
  }

  predicate Covers(h: Option<Phdr>, q: nat) {
    IsLoad(h) && FirstPage(h.value) <= q < FirstPage(h.value) + PageCount(h.value)
  }

  /** The first `n` program headers have been dealt with: every loadable segment among them is in memory, no two share a
      page, and nothing else has been mapped. */
  ghost predicate Loaded(pages: map<nat, UserPage>, file: seq<byte>, headers: seq<Option<Phdr>>, n: nat) {
    && n <= |headers|
    && (forall i :: 0 <= i < n ==> Acceptable(headers[i], |file|))
    && (forall i :: 0 <= i < n && IsLoad(headers[i]) ==> InMemory(pages, file, headers[i].value))
    && (forall q :: q in pages ==> exists i :: 0 <= i < n && Covers(headers[i], q))
    && forall i, j, q :: 0 <= i < j < n ==> !(Covers(headers[i], q) && Covers(headers[j], q))
  }

  lemma LoadedNext(was: map<nat, UserPage>, now: map<nat, UserPage>, file: seq<byte>, headers: seq<Option<Phdr>>, n: nat)
    requires Loaded(was, file, headers, n) && n < |headers| && Acceptable(headers[n], |file|)
    requires IsLoad(headers[n]) ==>
      var p := headers[n].value;
      && Extends(was, now, FirstPage(p), PageCount(p)) && InMemory(now, file, p)
      && forall q :: FirstPage(p) <= q < FirstPage(p) + PageCount(p) ==> q !in was
    requires !IsLoad(headers[n]) ==> now == was
    ensures Loaded(now, file, headers, n + 1)
  {
    forall i | 0 <= i < n + 1 && IsLoad(headers[i]) ensures InMemory(now, file, headers[i].value) {
      if i < n {
        StaysInMemory(was, now, file, headers[i].value);
      }
    }
    forall q | q in now ensures exists i :: 0 <= i < n + 1 && Covers(headers[i], q) {
      if q in was {
        var i :| 0 <= i < n && Covers(headers[i], q);
        assert Covers(headers[i], q);
      } else {
        assert Covers(headers[n], q);
      }
    }
    forall i, j, q | 0 <= i < j < n + 1 ensures !(Covers(headers[i], q) && Covers(headers[j], q)) {
      if j == n && Covers(headers[i], q) {
        assert InMemory(was, file, headers[i].value) && q in was;
      }
    }
  }

  /** Nothing stands against the program: every header is acceptable, its segments share no page with one another or with
      the stack, and for each there is memory enough and as much of the file as it asks for. */
  ghost predicate MayLoad(file: seq<byte>, headers: seq<Option<Phdr>>, c: seq<Luck>) {
    && |headers| <= |c|
    && (forall i :: 0 <= i < |headers| ==> Acceptable(headers[i], |file|) && !Covers(headers[i], STACK_PAGE))
    && (forall i :: 0 <= i < |headers| && IsLoad(headers[i]) ==> Suffices(file, headers[i].value, c[i]))
    && forall i, j, q :: 0 <= i < j < |headers| ==> !(Covers(headers[i], q) && Covers(headers[j], q))
  }

  lemma AddedAndTaken(pages: map<nat, UserPage>, q: nat, page: UserPage)
    requires q !in pages
    ensures pages[q := page] - {q} == pages
  {
  }

  /** What has been loaded is not in the way of what comes next. */
  lemma NothingInTheWay(pages: map<nat, UserPage>, file: seq<byte>, headers: seq<Option<Phdr>>, c: seq<Luck>, n: nat)
    requires Loaded(pages, file, headers, n) && |headers| <= |c|
    ensures MayLoad(file, headers, c) ==> STACK_PAGE !in pages
    ensures n < |headers| && MayLoad(file, headers, c) ==>
      Acceptable(headers[n], |file|) && (IsLoad(headers[n]) ==> LoadsWith(pages, file, headers[n].value, c[n]))
  {
    if n < |headers| && IsLoad(headers[n]) && MayLoad(file, headers, c) {
      forall q | q in pages ensures !Covers(headers[n], q) {
        var i :| 0 <= i < n && Covers(headers[i], q);
      }
      assert forall q :: q in pages ==> !Covers(headers[n], q);
    }
  }

  /** The process's pages, by page number. */
  class Space {
    var pages: map<nat, UserPage>

    constructor ()
      ensures pages == map[]
    {
      pages := map[];
    }

    /** Maps a page unless something is mapped there already or no table can be had. */
    method InstallPage(upage: nat, page: UserPage, tableOk: bool) returns (ok: bool)
      modifies this
      ensures ok <==> tableOk && upage !in old(pages)
      ensures pages == if ok then old(pages)[upage := page] else old(pages)
    {
      ok := upage !in pages && tableOk;
      if ok {
        pages := pages[upage := page];
      }
    }

    /** Reads the next page's worth of a segment from the file. */
    method ReadPage(file: seq<byte>, pos: nat, n: nat, readOk: bool) returns (ok: bool, bytes: PageBytes)
      requires n <= PGSIZE
      ensures ok <==> n == 0 || (readOk && pos + n <= |file|)
      ensures ok ==> bytes == (if n > 0 then file[pos..pos + n] else []) + seq(PGSIZE - n, _ => 0)
    {
      bytes := seq(PGSIZE, _ => 0);
      ok := n == 0 || (readOk && pos + n <= |file|);
      if ok && n > 0 {
        bytes := file[pos..pos + n] + seq(PGSIZE - n, _ => 0);
      }
    }

    /** Maps `first` and the pages after it to the given bytes of the file and zeros. */
    method LoadSegment(file: seq<byte>, ofs: nat, first: nat, readBytes: nat, zeroBytes: nat, writable: bool, c: Luck)
      returns (ok: bool)
      requires (readBytes + zeroBytes) % PGSIZE == 0 && ofs % PGSIZE == 0
      modifies this
      ensures Extends(old(pages), pages, first, (readBytes + zeroBytes) / PGSIZE)
      ensures ok ==> HoldsSegment(old(pages), pages, file, ofs, first, readBytes, (readBytes + zeroBytes) / PGSIZE, writable)
      ensures ok ==> (readBytes > 0 ==> ofs + readBytes <= |file|)
      ensures var n := (readBytes + zeroBytes) / PGSIZE;
        PlentyFor(c, n) && (readBytes > 0 ==> ofs + readBytes <= |file|) && NoneMapped(old(pages), first, n) ==> ok
    {
      var left, zero, pos, i := readBytes, zeroBytes, ofs, 0;
      ghost var n := (readBytes + zeroBytes) / PGSIZE;
      while left > 0 || zero > 0
        invariant left + zero == (n - i) * PGSIZE && i <= n
        invariant left == if i * PGSIZE >= readBytes then 0 else readBytes - i * PGSIZE
        invariant pos == ofs + (readBytes - left)
        invariant Extends(old(pages), pages, first, i)
        invariant HoldsSegment(old(pages), pages, file, ofs, first, readBytes, i, writable)
        invariant left < readBytes ==> pos <= |file|
        decreases n - i
      {
        var pageReadBytes := if left < PGSIZE then left else PGSIZE;
        var pageZeroBytes := PGSIZE - pageReadBytes;
        if i >= c.frames {
          return false;
        }
        var bytes;
        ok, bytes := ReadPage(file, pos, pageReadBytes, i < c.fileReads);
        if !ok {
          return false;
        }
        PageFilled(file, ofs, readBytes, i, pageReadBytes);
        assert bytes == SegmentPage(file, ofs, readBytes, i);
        ok := InstallPage(first + i, UserPage(bytes, writable), i < c.tables);
        if !ok {
          return false;
        }
        left, zero, pos, i := left - pageReadBytes, zero - pageZeroBytes, pos + pageReadBytes, i + 1;
      }
      ok := true;
    }

    /** One program header: refuse what needs a dynamic linker, ignore what is not to be loaded, load the rest. */
    method LoadHeader(file: seq<byte>, h: Option<Phdr>, c: Luck) returns (ok: bool)
      requires |file| <= INT_MAX
      modifies this
      ensures ok ==> Acceptable(h, |file|) && (!IsLoad(h) ==> pages == old(pages))
      ensures ok && IsLoad(h) ==>
        Extends(old(pages), pages, FirstPage(h.value), PageCount(h.value)) && InMemory(pages, file, h.value)
      ensures ok && IsLoad(h) ==> NoneMapped(old(pages), FirstPage(h.value), PageCount(h.value))
      ensures Acceptable(h, |file|) && (IsLoad(h) ==> LoadsWith(old(pages), file, h.value, c)) ==> ok
    {
      if h.None? || h.value.kind == PT_DYNAMIC || h.value.kind == PT_INTERP || h.value.kind == PT_SHLIB {
        return false;
      }
      var p := h.value;
      if p.kind != PT_LOAD {
        return true;
      }
      if !ValidateSegment(p, |file|) {
        return false;
      }
      CountsCoverSegment(p, |file|);
      ok := LoadSegment(file, FilePage(p), MemPage(p) / PGSIZE, ReadBytes(p), ZeroBytes(p), MayWrite(p), c);
      assert MemPage(p) / PGSIZE == FirstPage(p);
      if ok {
        SegmentIsInMemory(old(pages), pages, file, p);
      }
    }

    /** Seeks and reads one program header. */
    method ReadHeader(file: seq<byte>, ofs: int, readOk: bool) returns (h: Option<Phdr>)
      ensures h == HeaderAt(file, ofs, readOk)
    {
      h := None;
      if ofs < 0 || ofs > |file| {
        return;
      }
      var length := if readOk && ofs + PHDR_SIZE <= |file| then PHDR_SIZE else 0;
      if length == PHDR_SIZE {
        h := Some(Phdr(WordAt(file, ofs), WordAt(file, ofs + 4), WordAt(file, ofs + 8), WordAt(file, ofs + 16),
                       WordAt(file, ofs + 20), WordAt(file, ofs + 24)));
      }
    }

    /** Loads a program into an empty space and adds a stack page. `eip` is where it starts. */
    method Load(file: seq<byte>, readOk: bool, c: seq<Luck>, stackOk: bool) returns (ok: bool, eip: nat)
      requires |file| <= INT_MAX && |c| == MAX_HEADERS && pages == map[]
      modifies this
      ensures ok ==> IsExecutable(file) && eip == WordAt(file, 24)
      ensures ok ==> STACK_PAGE in pages && pages[STACK_PAGE] == UserPage(seq(PGSIZE, _ => 0), true)
      ensures ok ==> Loaded(pages - {STACK_PAGE}, file, Headers(file, c), HalfAt(file, 44))
      ensures IsExecutable(file) && readOk && MayLoad(file, Headers(file, c), c) && stackOk ==> ok
    {
      ok, eip := false, 0;
      if !readOk || |file| < EHDR_SIZE || file[..7] != ELF_MAGIC || HalfAt(file, 16) != 2 || HalfAt(file, 18) != 3
        || WordAt(file, 20) != 1 || HalfAt(file, 42) != PHDR_SIZE || HalfAt(file, 44) > MAX_HEADERS
      {
        return;
      }
      ok := LoadHeaders(file, c);
      if !ok {
        return;
      }
      ghost var loaded := pages;
      NothingInTheWay(pages, file, Headers(file, c), c, HalfAt(file, 44));
      ok := InstallPage(STACK_PAGE, UserPage(seq(PGSIZE, _ => 0), true), stackOk);
      if ok {
        AddedAndTaken(loaded, STACK_PAGE, pages[STACK_PAGE]);
        eip := WordAt(file, 24);
      }
    }

    /** The loop over the program headers. */
    method LoadHeaders(file: seq<byte>, c: seq<Luck>) returns (ok: bool)
      requires |file| <= INT_MAX && IsExecutable(file) && |c| == MAX_HEADERS && pages == map[]
      modifies this
      ensures ok ==> Loaded(pages, file, Headers(file, c), HalfAt(file, 44))
      ensures MayLoad(file, Headers(file, c), c) ==> ok
    {
      ghost var headers := Headers(file, c);
      var ofs: int := Offset(WordAt(file, 28));
      for i := 0 to HalfAt(file, 44)
        invariant Loaded(pages, file, headers, i)
        invariant ofs == Offset(WordAt(file, 28)) + PHDR_SIZE * i
      {
        ghost var was := pages;
        NothingInTheWay(pages, file, headers, c, i);
        var h := ReadHeader(file, ofs, c[i].header);
        assert h == headers[i];
        ok := LoadHeader(file, h, c[i]);
        if !ok {
          return;
        }
        LoadedNext(was, pages, file, headers, i);
        ofs := ofs + PHDR_SIZE;
      }
      ok := true;
    }
  }
}
