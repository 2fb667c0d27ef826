/** Two-level page tables, and the processor's cache of their entries. Words are 32-bit numbers; a flag is a binary
    digit of one, the frame number its upper 20 bits. */
module PageDir {
  import opened Common

  const ENTRIES := 1024                 // in a directory or a table
  const USER_ENTRIES := 768             // directory entries below PHYS_BASE, 0xC0000000
  const FRAMES := 0x10_0000
  const USER_PAGES := 0xC_0000

  type word = x: nat | x < WORD
  type Table = t: seq<word> | |t| == ENTRIES witness seq(ENTRIES, _ => 0)

  // ---------------------------------------------------------------- pte.h

  function PdNo(va: word): (i: nat)
    ensures i < ENTRIES
  {
    va / 0x40_0000
  }

  function PtNo(va: word): (j: nat)
    ensures j < ENTRIES
  {
    va / PGSIZE % ENTRIES
  }

  function PageNo(va: word): nat { va / PGSIZE }

  /** The two indices together are the page number, so each page has one entry of its own. */
  lemma IndicesArePageNo(va: word)
    ensures PdNo(va) * ENTRIES + PtNo(va) == PageNo(va)
    ensures PageNo(va) / ENTRIES == PdNo(va) && PageNo(va) % ENTRIES == PtNo(va)
    ensures PageNo(va) < USER_PAGES <==> va < 0xC000_0000
    ensures PageNo(va) < USER_PAGES <==> PdNo(va) < USER_ENTRIES
  {
  }

  const PTE_P := 0x1
  const PTE_W := 0x2
  const PTE_U := 0x4
  const PTE_A := 0x20
  const PTE_D := 0x40

  predicate Present(w: word) { w % 2 == 1 }
  predicate Writable(w: word) { w / 2 % 2 == 1 }
  predicate UserMode(w: word) { w / 4 % 2 == 1 }
  predicate Accessed(w: word) { w / 0x20 % 2 == 1 }
  predicate Dirty(w: word) { w / 0x40 % 2 == 1 }
  function Frame(w: word): (f: nat) ensures f < FRAMES { w / PGSIZE }

  function PdeCreate(frame: nat): word
    requires frame < FRAMES
  {
    frame * PGSIZE + PTE_U + PTE_P + PTE_W
  }

  function PteCreateUser(frame: nat, writable: bool): word
    requires frame < FRAMES
  {
    frame * PGSIZE + PTE_P + (if writable then PTE_W else 0) + PTE_U
  }

  /** An entry holds what it was made of. */
  lemma EntryReadsBack(frame: nat, writable: bool)
    requires frame < FRAMES
    ensures var w := PteCreateUser(frame, writable);
      Present(w) && UserMode(w) && (Writable(w) <==> writable) && Frame(w) == frame && !Dirty(w) && !Accessed(w)
    ensures var e := PdeCreate(frame); Present(e) && Writable(e) && UserMode(e) && Frame(e) == frame && e != 0
  {
    LowDigits(frame, PteCreateUser(frame, writable), if writable then 7 else 5);
    LowDigits(frame, PdeCreate(frame), 7);
  }

  /** An entry made of a frame number and a few low digits. */
  lemma LowDigits(frame: nat, w: word, low: nat)
    requires (low == 5 || low == 7) && w == frame * PGSIZE + low
    ensures w / PGSIZE == frame && w % 2 == 1 && w / 2 % 2 == (if low == 7 then 1 else 0) && w / 4 % 2 == 1
    ensures w / 0x20 % 2 == 0 && w / 0x40 % 2 == 0
  {
    DivUnique(w, PGSIZE, frame);
    DigitIs(w, 1, frame * 0x800 + low / 2, low % 2, 0);
    DigitIs(w, 2, frame * 0x400 + low / 4, low / 2 % 2, low % 2);
    DigitIs(w, 4, frame * 0x200, 1, low % 4);
    DigitIs(w, 0x20, frame * 0x40, 0, low);
    DigitIs(w, 0x40, frame * 0x20, 0, low);
  }

  /** The digit of `w` that stands for `m`, with the digits above and below it. */
  lemma DigitIs(w: nat, m: nat, above: nat, digit: nat, below: nat)
    requires (m == 1 || m == 2 || m == 4 || m == 0x20 || m == 0x40) && digit <= 1 && below < m
    requires w == above * (2 * m) + digit * m + below
    ensures w / m == 2 * above + digit && w / m % 2 == digit && w / (2 * m) == above
  {
    DivUnique(w, m, 2 * above + digit);
    DivUnique(w, 2 * m, above);
    DivUnique(2 * above + digit, 2, above);
  }

  /** `w` with a flag set or cleared. */
  function WithPresent(w: word, v: bool): word {
    if v == Present(w) then w else if v then w + PTE_P else w - PTE_P
  }

  function WithDirty(w: word, v: bool): word {
    DirtyFits(w);
    if v == Dirty(w) then w else if v then w + PTE_D else w - PTE_D
  }

  lemma DirtyFits(w: word)
    ensures if Dirty(w) then w >= PTE_D else w + PTE_D < WORD
  {
  }

  function WithAccessed(w: word, v: bool): word {
    AccessedFits(w);
    if v == Accessed(w) then w else if v then w + PTE_A else w - PTE_A
  }

  lemma AccessedFits(w: word)
    ensures if Accessed(w) then w >= PTE_A else w + PTE_A < WORD
  {
  }

  /** The translation an entry stands for. */
  predicate SameTranslation(w: word, v: word) {
    Present(w) == Present(v) && Frame(w) == Frame(v) && Writable(w) == Writable(v)
  }

  /** The digits of a word around its dirty flag. */
  lemma AroundDirty(w: word, above: nat, dirty: nat, accessed: nat, below: nat)
    requires w == above * 0x80 + dirty * 0x40 + accessed * 0x20 + below
    requires dirty <= 1 && accessed <= 1 && below < 0x20
    ensures w / 0x40 % 2 == dirty && w / 0x20 % 2 == accessed
    ensures w / PGSIZE == above / 0x20 && w % 2 == below % 2 && w / 2 % 2 == below / 2 % 2
  {
    DigitIs(w, 0x40, above, dirty, accessed * 0x20 + below);
    DigitIs(w, 0x20, 2 * above + dirty, accessed, below);
    DivUnique(w, PGSIZE, above / 0x20);
    LowFlags(w, above * 0x20 + dirty * 0x10 + accessed * 8, below);
  }

  /** The two lowest digits. */
  lemma LowFlags(w: nat, high: nat, below: nat)
    requires w == high * 4 + below && below < 0x20
    ensures w % 2 == below % 2 && w / 2 % 2 == below / 2 % 2
  {
    LowTwo(below);
    DivUnique(w, 2, high * 2 + below / 2);
    DivUnique(high * 2 + below / 2, 2, high + below / 4);
  }

  lemma LowTwo(below: nat)
    requires below < 0x20
    ensures below == below / 2 * 2 + below % 2 && below == below / 4 * 4 + below / 2 % 2 * 2 + below % 2
  {
  }

  /** A word is made of these digits. */
  lemma DigitsOf(w: word) returns (above: nat, dirty: nat, accessed: nat, below: nat)
    ensures w == above * 0x80 + dirty * 0x40 + accessed * 0x20 + below
    ensures dirty <= 1 && accessed <= 1 && below < 0x20
  {
    above, dirty, accessed, below := w / 0x80, w % 0x80 / 0x40, w % 0x40 / 0x20, w % 0x20;
    Split(w, 0x80);
    SplitTwice(w % 0x80, 0x40);
    SplitTwice(w % 0x40, 0x20);
    Refine(w, 0x40);
    Refine(w, 0x20);
  }

  lemma Split(w: nat, m: nat)
    requires m > 0
    ensures w == w / m * m + w % m && 0 <= w % m < m
  {
  }

  lemma SplitTwice(r: nat, m: nat)
    requires (m == 0x20 || m == 0x40) && r < 2 * m
    ensures r == r / m * m + r % m && 0 <= r / m <= 1
  {
  }

  /** The remainder by `m` is that of the remainder by `2 * m`. */
  lemma Refine(w: nat, m: nat)
    requires m == 0x20 || m == 0x40
    ensures w % (2 * m) % m == w % m
  {
    Split(w, 2 * m);
    Split(w % (2 * m), m);
    DivUnique(w, m, w / (2 * m) * 2 + w % (2 * m) / m);
  }

  /** Changing one flag changes no other, and not the frame. */
  lemma DirtyIsSeparate(w: word, v: bool)
    ensures Dirty(WithDirty(w, v)) == v && SameTranslation(WithDirty(w, v), w)
    ensures Accessed(WithDirty(w, v)) == Accessed(w)
  {
    var above, dirty, accessed, below := DigitsOf(w);
    AroundDirty(w, above, dirty, accessed, below);
    AroundDirty(WithDirty(w, v), above, if v then 1 else 0, accessed, below);
  }

  lemma AccessedIsSeparate(w: word, v: bool)
    ensures Accessed(WithAccessed(w, v)) == v && SameTranslation(WithAccessed(w, v), w)
    ensures Dirty(WithAccessed(w, v)) == Dirty(w)
  {
    var above, dirty, accessed, below := DigitsOf(w);
    AroundDirty(w, above, dirty, accessed, below);
    AroundDirty(WithAccessed(w, v), above, dirty, if v then 1 else 0, below);
  }

  lemma PresentIsSeparate(w: word, v: bool)
    ensures Present(WithPresent(w, v)) == v && Dirty(WithPresent(w, v)) == Dirty(w)
    ensures Accessed(WithPresent(w, v)) == Accessed(w) && Frame(WithPresent(w, v)) == Frame(w)
    ensures Writable(WithPresent(w, v)) == Writable(w)
  {
    var above, dirty, accessed, below := DigitsOf(w);
    AroundDirty(w, above, dirty, accessed, below);
    EvenAndNext(below, if v then 1 else 0);
    AroundDirty(WithPresent(w, v), above, dirty, accessed, below / 2 * 2 + if v then 1 else 0);
  }

  lemma EvenAndNext(below: nat, bit: nat)
    requires below < 0x20 && bit <= 1
    ensures var b := below / 2 * 2 + bit; b < 0x20 && b % 2 == bit && b / 2 == below / 2
    ensures below == below / 2 * 2 + below % 2
  {
  }

  lemma FlagIs(w: nat, m: nat)
    requires m == 1 || m == 2 || m == 4 || m == 0x20 || m == 0x40
    ensures w % (2 * m) == w / m % 2 * m + w % m
  {
    var q := w / m;
    Split(w, m);
    Split(w, 2 * m);
    DivUnique(w, 2 * m, q / 2);
  }

  /** Where the flags are, and what setting and clearing one does to the word. */
  lemma FlagsAre(w: word)
    ensures (Present(w) <==> w % 2 >= 1) && (Writable(w) <==> w % 4 >= 2) && (UserMode(w) <==> w % 8 >= 4)
    ensures (Accessed(w) <==> w % 64 >= 32) && (Dirty(w) <==> w % 128 >= 64)
    ensures forall v :: WithPresent(w, v) == w - w % 2 + (if v then 1 else 0)
    ensures forall v :: WithAccessed(w, v) == w - w % 64 + w % 32 + (if v then 32 else 0)
    ensures forall v :: WithDirty(w, v) == w - w % 128 + w % 64 + (if v then 64 else 0)
  {
    FlagIs(w, 2);
    FlagIs(w, 4);
    FlagIs(w, 0x20);
    FlagIs(w, 0x40);
  }

  // ---------------------------------------------------------------- directories and tables in memory

  /** What a table frame belongs to: entry `idx` of directory `dir`. */
  datatype Slot = Slot(dir: nat, idx: nat)

  /** Frames that hold directories and tables, by frame number. For the proof, `dirs` are the directories in use,
      the kernel's own among them, and `owner` gives every user page table its only directory entry. */
  datatype Vm = Vm(tables: map<nat, Table>, initDir: nat, dirs: set<nat>, owner: map<nat, Slot>)

  ghost predicate DirsOk(m: Vm) {
    && m.initDir in m.dirs
    && forall d :: d in m.dirs ==> d < FRAMES && d in m.tables && d !in m.owner
  }

  /** Every directory maps the kernel as the kernel's own does, which maps no user page. */
  ghost predicate KernelShared(m: Vm)
    requires DirsOk(m)
  {
    && (forall d, i :: d in m.dirs && USER_ENTRIES <= i < ENTRIES ==> m.tables[d][i] == m.tables[m.initDir][i])
    && forall i :: 0 <= i < USER_ENTRIES ==> m.tables[m.initDir][i] == 0
  }

  predicate TableAt(m: Vm, e: word) {
    Present(e) && Frame(e) in m.tables && Frame(e) !in m.dirs
  }

  /** A user entry of a directory is empty or leads to a table that nothing else leads to. */
  ghost predicate UserTables(m: Vm)
    requires DirsOk(m)
  {
    forall d, i :: d in m.dirs && 0 <= i < USER_ENTRIES && m.tables[d][i] != 0 ==>
      TableAt(m, m.tables[d][i]) && Frame(m.tables[d][i]) in m.owner && m.owner[Frame(m.tables[d][i])] == Slot(d, i)
  }

  ghost predicate KernelTables(m: Vm)
    requires DirsOk(m)
  {
    forall i :: USER_ENTRIES <= i < ENTRIES && m.tables[m.initDir][i] != 0 ==>
      TableAt(m, m.tables[m.initDir][i]) && Frame(m.tables[m.initDir][i]) !in m.owner &&
      forall k :: USER_ENTRIES <= k < i && m.tables[m.initDir][k] != 0 ==>
        Frame(m.tables[m.initDir][k]) != Frame(m.tables[m.initDir][i])
  }

  ghost predicate WellFormed(m: Vm) {
    DirsOk(m) && KernelShared(m) && UserTables(m) && KernelTables(m)
  }

  /** The entry for page `vp` in directory `d`; 0 where there is no table. */
  function Entry(m: Vm, d: nat, vp: nat): word
    requires d in m.tables && vp / ENTRIES < ENTRIES
  {
    var pde := m.tables[d][vp / ENTRIES];
    if pde != 0 && Frame(pde) in m.tables then m.tables[Frame(pde)][vp % ENTRIES] else 0
  }

  /** What directory `d` maps page `vp` to. */
  function Mapping(m: Vm, d: nat, vp: nat): Option<(nat, bool)>
    requires d in m.tables && vp / ENTRIES < ENTRIES
  {
    var w := Entry(m, d, vp);
    if Present(w) then Some((Frame(w), Writable(w))) else None
  }

  /** A directory entry that is not empty leads to a table. */
  lemma EntryHasTable(m: Vm, d: nat, i: nat)
    requires WellFormed(m) && d in m.dirs && i < ENTRIES && m.tables[d][i] != 0
    ensures TableAt(m, m.tables[d][i])
  {
    if i >= USER_ENTRIES {
      assert m.tables[d][i] == m.tables[m.initDir][i];
    }
  }

  // ---------------------------------------------------------------- the steps

  function WithEntry(m: Vm, t: nat, j: nat, w: word): Vm
    requires t in m.tables && j < ENTRIES
  {
    m.(tables := m.tables[t := m.tables[t][j := w]])
  }

  /** Writing an entry of a table that is no directory keeps everything in order. */
  lemma EntryKeepsWellFormed(m: Vm, t: nat, j: nat, w: word)
    requires WellFormed(m) && t in m.tables && t !in m.dirs && j < ENTRIES
    ensures WellFormed(WithEntry(m, t, j, w))
  {
  }

  /** Writing the entry of one user page is seen at that page of that directory and nowhere else. */
  lemma UserEntryIsLocal(m: Vm, d: nat, vp: nat, w: word, d': nat, vp': nat)
    requires WellFormed(m) && d in m.dirs && d' in m.dirs && vp < USER_PAGES && vp' / ENTRIES < ENTRIES
    requires m.tables[d][vp / ENTRIES] != 0
    ensures var t := Frame(m.tables[d][vp / ENTRIES]);
      && t in m.tables && t !in m.dirs
      && Entry(WithEntry(m, t, vp % ENTRIES, w), d', vp') == if d' == d && vp' == vp then w else Entry(m, d', vp')
  {
    EntryHasTable(m, d, vp / ENTRIES);
    var t, t' := Frame(m.tables[d][vp / ENTRIES]), Frame(m.tables[d'][vp' / ENTRIES]);
    if m.tables[d'][vp' / ENTRIES] != 0 {
      EntryHasTable(m, d', vp' / ENTRIES);
      if vp' / ENTRIES >= USER_ENTRIES {
        assert m.tables[d'][vp' / ENTRIES] == m.tables[m.initDir][vp' / ENTRIES];
      }
      assert t' == t ==> d' == d && vp' / ENTRIES == vp / ENTRIES;
    }
  }

  /** A new, empty table in directory entry `i` maps nothing. */
  function WithTable(m: Vm, d: nat, i: nat, t: nat): Vm
    requires d in m.tables && i < ENTRIES && t < FRAMES
  {
    m.(tables := m.tables[t := seq(ENTRIES, _ => 0)][d := m.tables[d][i := PdeCreate(t)]],
       owner := m.owner[t := Slot(d, i)])
  }

  lemma TableKeepsWellFormed(m: Vm, d: nat, i: nat, t: nat)
    requires WellFormed(m) && d in m.dirs && d != m.initDir && i < USER_ENTRIES && m.tables[d][i] == 0
    requires t < FRAMES && t !in m.tables && t !in m.owner
    ensures WellFormed(WithTable(m, d, i, t))
  {
    EntryReadsBack(t, true);
  }

  lemma TableMapsNothing(m: Vm, d: nat, i: nat, t: nat, d': nat, vp': nat)
    requires WellFormed(m) && d in m.dirs && d != m.initDir && i < USER_ENTRIES && m.tables[d][i] == 0
    requires t < FRAMES && t !in m.tables && t !in m.owner && d' in m.dirs && vp' / ENTRIES < ENTRIES
    ensures Entry(WithTable(m, d, i, t), d', vp') == Entry(m, d', vp')
  {
    EntryReadsBack(t, true);
    if m.tables[d'][vp' / ENTRIES] != 0 {
      EntryHasTable(m, d', vp' / ENTRIES);
    }
  }

  /** A new directory, which maps what the kernel's own does. */
  function WithDir(m: Vm, d: nat): Vm
    requires m.initDir in m.tables
  {
    m.(tables := m.tables[d := m.tables[m.initDir]], dirs := m.dirs + {d})
  }

  lemma DirKeepsWellFormed(m: Vm, d: nat)
    requires WellFormed(m) && d < FRAMES && d !in m.tables && d !in m.owner
    ensures WellFormed(WithDir(m, d))
  {
  }

  lemma NewDirMapsKernelOnly(m: Vm, d: nat, d': nat, vp: nat)
    requires WellFormed(m) && d !in m.tables && d' in m.dirs + {d} && vp / ENTRIES < ENTRIES
    ensures d' in WithDir(m, d).tables
    ensures Entry(WithDir(m, d), d', vp) == Entry(m, if d' == d then m.initDir else d', vp)
    ensures vp < USER_PAGES ==> Mapping(WithDir(m, d), d, vp) == None
  {
    if m.tables[m.initDir][vp / ENTRIES] != 0 {
      EntryHasTable(m, m.initDir, vp / ENTRIES);
    }
    if d' != d && m.tables[d'][vp / ENTRIES] != 0 {
      EntryHasTable(m, d', vp / ENTRIES);
    }
  }

  // ---------------------------------------------------------------- the processor's cache

  /** The page directory register, and the entries cached for it. */
  datatype Cpu = Cpu(cr3: nat, tlb: map<nat, word>)

  /** Every cached translation is what the active directory says now. */
  ghost predicate Coherent(m: Vm, c: Cpu) {
    && c.cr3 in m.dirs && c.cr3 in m.tables
    && forall vp :: vp in c.tlb ==>
      vp < FRAMES && Present(c.tlb[vp]) && SameTranslation(c.tlb[vp], Entry(m, c.cr3, vp))
  }

  /** A cached user entry is marked accessed in memory, and dirty if it is cached as dirty: the processor will not write
      those bits again while it is cached. */
  ghost predicate UsesKept(m: Vm, c: Cpu) {
    forall vp :: vp in c.tlb && vp < USER_PAGES && c.cr3 in m.tables ==>
      Accessed(Entry(m, c.cr3, vp)) && (Dirty(c.tlb[vp]) ==> Dirty(Entry(m, c.cr3, vp)))
  }

  /** Whether directory `d'` sees a change of the entry for `vp` in directory `d`: kernel tables are shared. */
  predicate Sees(d': nat, d: nat, vp: nat) {
    d' == d || vp >= USER_PAGES
  }

  /** From `m` to `m'` the entry for page `vp` of directory `d` became `w`, and no other entry changed. */
  ghost predicate Changed(m: Vm, m': Vm, d: nat, vp: nat, w: word) {
    && m'.dirs == m.dirs && m'.initDir == m.initDir
    && (forall d' :: d' in m.dirs ==> d' in m.tables && d' in m'.tables)
    && forall d', vp': nat :: d' in m.dirs && vp' < FRAMES ==>
      Entry(m', d', vp') == if Sees(d', d, vp) && vp' == vp then w else Entry(m, d', vp')
  }

  ghost predicate Unchanged(m: Vm, m': Vm) {
    && m'.dirs == m.dirs && m'.initDir == m.initDir
    && (forall d' :: d' in m.dirs ==> d' in m.tables && d' in m'.tables)
    && forall d', vp': nat :: d' in m.dirs && vp' < FRAMES ==> Entry(m', d', vp') == Entry(m, d', vp')
  }

  /** The cache stays right through a change of an entry it does not hold, or of one whose translation stays and whose
      bits stay set. */
  lemma ChangeKeepsCoherent(m: Vm, m': Vm, c: Cpu, d: nat, vp: nat, w: word)
    requires Coherent(m, c) && UsesKept(m, c) && Changed(m, m', d, vp, w) && c.cr3 in m.tables && vp < FRAMES
    requires vp in c.tlb && Sees(c.cr3, d, vp) ==> SameTranslation(w, Entry(m, c.cr3, vp))
    requires vp in c.tlb && c.cr3 == d && vp < USER_PAGES ==>
      Accessed(w) && (Dirty(Entry(m, d, vp)) ==> Dirty(w))
    ensures Coherent(m', c) && UsesKept(m', c)
  {
  }

  lemma NoChangeKeepsCoherent(m: Vm, m': Vm, c: Cpu)
    requires Coherent(m, c) && UsesKept(m, c) && Unchanged(m, m')
    ensures Coherent(m', c) && UsesKept(m', c)
  {
  }

  /** Writing the entry of a kernel page is seen at that page of every directory and nowhere else. */
  lemma KernelEntryIsShared(m: Vm, d: nat, vp: nat, w: word, d': nat, vp': nat)
    requires WellFormed(m) && d in m.dirs && d' in m.dirs && USER_PAGES <= vp < FRAMES && vp' < FRAMES
    requires m.tables[d][vp / ENTRIES] != 0
    ensures var t := Frame(m.tables[d][vp / ENTRIES]);
      && t in m.tables && t !in m.dirs
      && Entry(WithEntry(m, t, vp % ENTRIES, w), d', vp') == if vp' == vp then w else Entry(m, d', vp')
    ensures Entry(m, d', vp) == Entry(m, d, vp)
  {
    EntryHasTable(m, d, vp / ENTRIES);
    var t, t' := Frame(m.tables[d][vp / ENTRIES]), Frame(m.tables[d'][vp' / ENTRIES]);
    assert m.tables[d][vp / ENTRIES] == m.tables[m.initDir][vp / ENTRIES] == m.tables[d'][vp / ENTRIES];
    if m.tables[d'][vp' / ENTRIES] != 0 {
      EntryHasTable(m, d', vp' / ENTRIES);
      if vp' / ENTRIES >= USER_ENTRIES {
        assert m.tables[d'][vp' / ENTRIES] == m.tables[m.initDir][vp' / ENTRIES];
        assert t' == t ==> vp' / ENTRIES == vp / ENTRIES;
      }
    }
  }

  lemma EntryChanges(m: Vm, d: nat, vp: nat, w: word)
    requires WellFormed(m) && d in m.dirs && vp < FRAMES && m.tables[d][vp / ENTRIES] != 0
    ensures var t := Frame(m.tables[d][vp / ENTRIES]);
      && t in m.tables && t !in m.dirs
      && WellFormed(WithEntry(m, t, vp % ENTRIES, w)) && Changed(m, WithEntry(m, t, vp % ENTRIES, w), d, vp, w)
    ensures forall d' :: d' in m.dirs && Sees(d', d, vp) ==> d' in m.tables && Entry(m, d', vp) == Entry(m, d, vp)
  {
    EntryHasTable(m, d, vp / ENTRIES);
    var t := Frame(m.tables[d][vp / ENTRIES]);
    EntryKeepsWellFormed(m, t, vp % ENTRIES, w);
    forall d', vp': nat | d' in m.dirs && vp' < FRAMES
      ensures Entry(WithEntry(m, t, vp % ENTRIES, w), d', vp') ==
        if Sees(d', d, vp) && vp' == vp then w else Entry(m, d', vp')
    {
      if vp < USER_PAGES {
        UserEntryIsLocal(m, d, vp, w, d', vp');
      } else {
        KernelEntryIsShared(m, d, vp, w, d', vp');
      }
    }
    forall d' | d' in m.dirs && Sees(d', d, vp) ensures Entry(m, d', vp) == Entry(m, d, vp) {
      if vp >= USER_PAGES {
        KernelEntryIsShared(m, d, vp, w, d', vp);
      }
    }
  }

  lemma TableChangesNothing(m: Vm, d: nat, i: nat, t: nat)
    requires WellFormed(m) && d in m.dirs && d != m.initDir && i < USER_ENTRIES && m.tables[d][i] == 0
    requires t < FRAMES && t !in m.tables && t !in m.owner
    ensures Unchanged(m, WithTable(m, d, i, t))
  {
    forall d', vp': nat | d' in m.dirs && vp' < FRAMES ensures Entry(WithTable(m, d, i, t), d', vp') == Entry(m, d', vp') {
      TableMapsNothing(m, d, i, t, d', vp');
    }
  }

  // ---------------------------------------------------------------- taking a directory apart

  /** The frames the first `j` entries of a table map, in order. */
  function MappedFrames(t: Table, j: nat): seq<nat>
    requires j <= ENTRIES
  {
    if j == 0 then [] else MappedFrames(t, j - 1) + if Present(t[j - 1]) then [Frame(t[j - 1])] else []
  }

  /** The frames freed for the first `i` entries of directory `d`: what each table maps, and then the table. */
  function FreedFrames(m: Vm, d: nat, i: nat): seq<nat>
    requires d in m.tables && i <= USER_ENTRIES
  {
    if i == 0 then []
    else
      var e := m.tables[d][i - 1];
      FreedFrames(m, d, i - 1) +
        if Present(e) && Frame(e) in m.tables then MappedFrames(m.tables[Frame(e)], ENTRIES) + [Frame(e)] else []
  }

  /** Each user page of `d` has a frame to itself, and none of them holds a directory or table. */
  ghost predicate MappedOnce(m: Vm, d: nat)
    requires d in m.tables
  {
    && (forall vp: nat :: vp < USER_PAGES && Present(Entry(m, d, vp)) ==> Frame(Entry(m, d, vp)) !in m.tables)
    && forall vp: nat, vq: nat ::
      vp < vq < USER_PAGES && Present(Entry(m, d, vp)) && Present(Entry(m, d, vq)) ==>
      Frame(Entry(m, d, vp)) != Frame(Entry(m, d, vq))
  }

  /** Page `vp` lies in [lo, hi) and is mapped to frame `f`. */
  predicate MapsTo(m: Vm, d: nat, lo: nat, hi: nat, vp: nat, f: nat)
    requires d in m.tables
  {
    lo <= vp < hi && vp < USER_PAGES && Present(Entry(m, d, vp)) && Frame(Entry(m, d, vp)) == f
  }

  ghost predicate IsMapped(m: Vm, d: nat, lo: nat, hi: nat, f: nat)
    requires d in m.tables
  {
    exists vp: nat :: MapsTo(m, d, lo, hi, vp, f)
  }

  /** One more page. */
  lemma IsMappedNext(m: Vm, d: nat, lo: nat, hi: nat, f: nat)
    requires d in m.tables && lo <= hi < USER_PAGES
    ensures IsMapped(m, d, lo, hi + 1, f) <==>
      IsMapped(m, d, lo, hi, f) || (Present(Entry(m, d, hi)) && Frame(Entry(m, d, hi)) == f)
  {
    if IsMapped(m, d, lo, hi + 1, f) {
      var vp: nat :| MapsTo(m, d, lo, hi + 1, vp, f);
      assert vp != hi ==> MapsTo(m, d, lo, hi, vp, f);
    }
    if IsMapped(m, d, lo, hi, f) {
      var vp: nat :| MapsTo(m, d, lo, hi, vp, f);
      assert MapsTo(m, d, lo, hi + 1, vp, f);
    }
    if Present(Entry(m, d, hi)) && Frame(Entry(m, d, hi)) == f {
      assert MapsTo(m, d, lo, hi + 1, hi, f);
    }
  }

  lemma IsMappedJoin(m: Vm, d: nat, lo: nat, mid: nat, hi: nat, f: nat)
    requires d in m.tables && lo <= mid <= hi
    ensures IsMapped(m, d, lo, hi, f) <==> IsMapped(m, d, lo, mid, f) || IsMapped(m, d, mid, hi, f)
  {
    if IsMapped(m, d, lo, hi, f) {
      var vp: nat :| MapsTo(m, d, lo, hi, vp, f);
      assert if vp < mid then MapsTo(m, d, lo, mid, vp, f) else MapsTo(m, d, mid, hi, vp, f);
    }
    if IsMapped(m, d, lo, mid, f) {
      var vp: nat :| MapsTo(m, d, lo, mid, vp, f);
      assert MapsTo(m, d, lo, hi, vp, f);
    }
    if IsMapped(m, d, mid, hi, f) {
      var vp: nat :| MapsTo(m, d, mid, hi, vp, f);
      assert MapsTo(m, d, lo, hi, vp, f);
    }
  }

  ghost predicate IsTableOf(m: Vm, d: nat, i: nat, f: nat)
    requires d in m.tables && i <= USER_ENTRIES
  {
    exists k :: 0 <= k < i && m.tables[d][k] != 0 && Frame(m.tables[d][k]) == f
  }

  /** One table's frames: those its pages map to, each once. */
  lemma {:induction false} MappedFramesOnce(m: Vm, d: nat, i: nat, j: nat)
    requires WellFormed(m) && d in m.dirs && MappedOnce(m, d) && i < USER_ENTRIES && m.tables[d][i] != 0
    requires j <= ENTRIES
    ensures TableAt(m, m.tables[d][i])
    ensures NoDup(MappedFrames(m.tables[Frame(m.tables[d][i])], j))
    ensures forall f: nat :: f in MappedFrames(m.tables[Frame(m.tables[d][i])], j) <==>
      IsMapped(m, d, i * ENTRIES, i * ENTRIES + j, f)
  {
    EntryHasTable(m, d, i);
    if j > 0 {
      MappedFramesOnce(m, d, i, j - 1);
      var t := m.tables[Frame(m.tables[d][i])];
      var lo, last := i * ENTRIES, i * ENTRIES + (j - 1);
      assert last / ENTRIES == i && last % ENTRIES == j - 1 && Entry(m, d, last) == t[j - 1];
      forall f: nat ensures f in MappedFrames(t, j) <==> IsMapped(m, d, lo, last + 1, f) {
        IsMappedNext(m, d, lo, last, f);
      }
      if Present(t[j - 1]) {
        NotMappedBefore(m, d, lo, last);
        NoDupJoin(MappedFrames(t, j - 1), [Frame(t[j - 1])]);
      }
    }
  }

  lemma NoDupJoin(a: seq<nat>, b: seq<nat>)
    requires NoDup(a) && NoDup(b) && forall f: nat :: f in a ==> f !in b
    ensures NoDup(a + b)
  {
    forall i, j | 0 <= i < j < |a + b| ensures (a + b)[i] != (a + b)[j] {
      assert i < |a| <= j ==> a[i] in a && b[j - |a|] in b;
    }
  }

  lemma NotMappedBefore(m: Vm, d: nat, lo: nat, vp: nat)
    requires d in m.tables && MappedOnce(m, d) && vp < USER_PAGES && Present(Entry(m, d, vp))
    ensures !IsMapped(m, d, lo, vp, Frame(Entry(m, d, vp)))
  {
    forall vq: nat ensures !MapsTo(m, d, lo, vp, vq, Frame(Entry(m, d, vp))) {
    }
  }

  lemma NothingMapped(m: Vm, d: nat, i: nat, lo: nat, hi: nat, f: nat)
    requires WellFormed(m) && d in m.dirs && i < USER_ENTRIES && m.tables[d][i] == 0
    requires lo == i * ENTRIES && hi == lo + ENTRIES
    ensures !IsMapped(m, d, lo, hi, f)
  {
    forall vp: nat ensures !MapsTo(m, d, lo, hi, vp, f) {
      assert lo <= vp < hi ==> vp / ENTRIES == i;
    }
  }

  lemma MappedFrameIsNoTable(m: Vm, d: nat, lo: nat, hi: nat, f: nat)
    requires d in m.tables && MappedOnce(m, d)
    ensures IsMapped(m, d, lo, hi, f) ==> f !in m.tables
  {
  }

  lemma MappedInOnePlace(m: Vm, d: nat, lo: nat, mid: nat, hi: nat, f: nat)
    requires d in m.tables && MappedOnce(m, d)
    ensures !(IsMapped(m, d, lo, mid, f) && IsMapped(m, d, mid, hi, f))
  {
    if IsMapped(m, d, lo, mid, f) {
      var vp: nat :| MapsTo(m, d, lo, mid, vp, f);
      forall vq: nat ensures !MapsTo(m, d, mid, hi, vq, f) {
      }
    }
  }

  /** A table is no mapped frame, no directory, and the table of one entry only. */
  lemma TableInOnePlace(m: Vm, d: nat, i: nat, f: nat)
    requires WellFormed(m) && d in m.dirs && i <= USER_ENTRIES
    ensures IsTableOf(m, d, i, f) ==> f in m.tables && f !in m.dirs
    ensures i < USER_ENTRIES && m.tables[d][i] != 0 && Frame(m.tables[d][i]) == f ==> !IsTableOf(m, d, i, f)
  {
    forall k | 0 <= k < i && m.tables[d][k] != 0 && Frame(m.tables[d][k]) == f
      ensures f in m.tables && f !in m.dirs && f in m.owner && m.owner[f] == Slot(d, k)
    {
      EntryHasTable(m, d, k);
    }
  }

  /** The frames freed for one more entry: none of them freed before. */
  lemma EntryFreedOnce(m: Vm, d: nat, i: nat, before: seq<nat>)
    requires WellFormed(m) && d in m.dirs && MappedOnce(m, d) && i < USER_ENTRIES && m.tables[d][i] != 0
    requires NoDup(before)
    requires forall f: nat :: f in before <==> IsMapped(m, d, 0, i * ENTRIES, f) || IsTableOf(m, d, i, f)
    ensures TableAt(m, m.tables[d][i])
    ensures var t := Frame(m.tables[d][i]);
      NoDup(before + (MappedFrames(m.tables[t], ENTRIES) + [t]))
  {
    EntryHasTable(m, d, i);
    var t := Frame(m.tables[d][i]);
    var mapped := MappedFrames(m.tables[t], ENTRIES);
    MappedFramesOnce(m, d, i, ENTRIES);
    forall f: nat | f in mapped ensures f !in [t] && f !in before {
      MappedFrameIsNoTable(m, d, i * ENTRIES, i * ENTRIES + ENTRIES, f);
      TableInOnePlace(m, d, i, f);
      MappedInOnePlace(m, d, 0, i * ENTRIES, i * ENTRIES + ENTRIES, f);
    }
    NoDupJoin(mapped, [t]);
    TableInOnePlace(m, d, i, t);
    MappedFrameIsNoTable(m, d, 0, i * ENTRIES, t);
    NoDupJoin(before, mapped + [t]);
  }

  /** Freed for the first `i` entries: exactly the frames their pages map to and their tables, each once. */
  lemma {:induction false} FreedOnce(m: Vm, d: nat, i: nat)
    requires WellFormed(m) && d in m.dirs && MappedOnce(m, d) && i <= USER_ENTRIES
    ensures NoDup(FreedFrames(m, d, i))
    ensures forall f: nat :: f in FreedFrames(m, d, i) <==> IsMapped(m, d, 0, i * ENTRIES, f) || IsTableOf(m, d, i, f)
  {
    if i > 0 {
      FreedOnce(m, d, i - 1);
      var e, before := m.tables[d][i - 1], FreedFrames(m, d, i - 1);
      if e != 0 {
        EntryHasTable(m, d, i - 1);
        EntryFreedOnce(m, d, i - 1, before);
        assert FreedFrames(m, d, i) == before + (MappedFrames(m.tables[Frame(e)], ENTRIES) + [Frame(e)]);
      } else {
        assert FreedFrames(m, d, i) == before;
      }
      forall f: nat ensures f in FreedFrames(m, d, i) <==> IsMapped(m, d, 0, i * ENTRIES, f) || IsTableOf(m, d, i, f) {
        FreedForEntry(m, d, i - 1, f);
      }
    }
  }

  lemma FreedForEntry(m: Vm, d: nat, i: nat, f: nat)
    requires WellFormed(m) && d in m.dirs && MappedOnce(m, d) && i < USER_ENTRIES
    requires f in FreedFrames(m, d, i) <==> IsMapped(m, d, 0, i * ENTRIES, f) || IsTableOf(m, d, i, f)
    ensures f in FreedFrames(m, d, i + 1) <==>
      IsMapped(m, d, 0, (i + 1) * ENTRIES, f) || IsTableOf(m, d, i + 1, f)
  {
    var lo, hi := i * ENTRIES, (i + 1) * ENTRIES;
    IsMappedJoin(m, d, 0, lo, hi, f);
    IsTableOfNext(m, d, i, f);
    if m.tables[d][i] == 0 {
      NothingMapped(m, d, i, lo, hi, f);
    } else {
      EntryHasTable(m, d, i);
      MappedFramesOnce(m, d, i, ENTRIES);
    }
  }

  lemma IsTableOfNext(m: Vm, d: nat, i: nat, f: nat)
    requires d in m.tables && i < USER_ENTRIES
    ensures IsTableOf(m, d, i + 1, f) <==> IsTableOf(m, d, i, f) || (m.tables[d][i] != 0 && Frame(m.tables[d][i]) == f)
  {
  }

  /** Destroying a directory whose pages have frames of their own frees each of those frames, each page table and the
      directory itself exactly once, and nothing else. */
  lemma DestroyFreesOnce(m: Vm, d: nat)
    requires WellFormed(m) && d in m.dirs && MappedOnce(m, d)
    ensures NoDup(FreedFrames(m, d, USER_ENTRIES) + [d])
    ensures forall f: nat :: f in FreedFrames(m, d, USER_ENTRIES) + [d] <==>
      f == d || IsMapped(m, d, 0, USER_PAGES, f) || IsTableOf(m, d, USER_ENTRIES, f)
  {
    FreedOnce(m, d, USER_ENTRIES);
    TableInOnePlace(m, d, USER_ENTRIES, d);
    MappedFrameIsNoTable(m, d, 0, USER_PAGES, d);
    NoDupJoin(FreedFrames(m, d, USER_ENTRIES), [d]);
  }

  function WithoutDir(m: Vm, d: nat, gone: set<nat>): Vm {
    m.(tables := m.tables - (gone + {d}), dirs := m.dirs - {d}, owner := m.owner - gone)
  }

  lemma OtherTablesStay(m: Vm, d: nat, gone: set<nat>, d': nat, i: nat)
    requires WellFormed(m) && d in m.dirs && d' in m.dirs && d' != d && i < ENTRIES && m.tables[d'][i] != 0
    requires forall f: nat :: f in gone <==> IsTableOf(m, d, USER_ENTRIES, f)
    ensures Frame(m.tables[d'][i]) in m.tables && Frame(m.tables[d'][i]) !in gone && Frame(m.tables[d'][i]) != d
    ensures d' !in gone
  {
    EntryHasTable(m, d', i);
    var f := Frame(m.tables[d'][i]);
    if i >= USER_ENTRIES {
      assert m.tables[d'][i] == m.tables[m.initDir][i];
    }
    forall k | 0 <= k < USER_ENTRIES && m.tables[d][k] != 0 ensures Frame(m.tables[d][k]) != f {
      EntryHasTable(m, d, k);
      assert m.owner[Frame(m.tables[d][k])] == Slot(d, k);
    }
    TableInOnePlace(m, d, USER_ENTRIES, d');
  }

  lemma WithoutDirKeepsRest(m: Vm, d: nat, gone: set<nat>)
    requires WellFormed(m) && d in m.dirs && d != m.initDir
    requires forall f: nat :: f in gone <==> IsTableOf(m, d, USER_ENTRIES, f)
    ensures WellFormed(WithoutDir(m, d, gone))
    ensures forall d', vp: nat :: d' in m.dirs && d' != d && vp < FRAMES ==>
      d' in WithoutDir(m, d, gone).tables && Entry(WithoutDir(m, d, gone), d', vp) == Entry(m, d', vp)
  {
    var m' := WithoutDir(m, d, gone);
    forall d' | d' in m'.dirs ensures d' in m'.tables {
      TableInOnePlace(m, d, USER_ENTRIES, d');
    }
    forall d', i | d' in m'.dirs && 0 <= i < ENTRIES && m.tables[d'][i] != 0
      ensures Frame(m.tables[d'][i]) in m'.tables && Frame(m.tables[d'][i]) !in gone
    {
      OtherTablesStay(m, d, gone, d', i);
    }
  }

  // ---------------------------------------------------------------- pagedir.c

  class Paging {
    const initDir: nat
    var tables: map<nat, Table>
    var cr3: nat
    var tlb: map<nat, word>
    ghost var dirs: set<nat>
    ghost var owner: map<nat, Slot>

    ghost function M(): Vm
      reads this
    {
      Vm(tables, initDir, dirs, owner)
    }

    ghost function C(): Cpu
      reads this
    {
      Cpu(cr3, tlb)
    }

    ghost predicate Valid()
      reads this
    {
      WellFormed(M()) && Coherent(M(), C()) && UsesKept(M(), C())
    }

    /** A frame just got from the page allocator holds no directory or table. */
    ghost predicate IsFresh(f: nat)
      reads this
    {
      f < FRAMES && f !in tables && f !in owner
    }

    /** Starts from the kernel's directory and tables as boot left them. */
    constructor (m: Vm)
      requires WellFormed(m) && m.dirs == {m.initDir}
      ensures Valid() && M() == m && C() == Cpu(m.initDir, map[])
    {
      initDir, tables, dirs, owner := m.initDir, m.tables, m.dirs, m.owner;
      cr3, tlb := m.initDir, map[];
    }

    /** The frame of the table with the entry for page `vp`; None if there is none and none could be made. */
    method LookupPage(d: nat, vp: nat, create: bool, page: Option<nat>) returns (t: Option<nat>)
      requires Valid() && d in dirs && vp < FRAMES && (create ==> vp < USER_PAGES && d != initDir)
      requires page.Some? ==> IsFresh(page.value)
      modifies this`tables, this`owner
      ensures Valid() && Unchanged(old(M()), M())
      ensures !create || t.None? || old(tables[d][vp / ENTRIES]) != 0 ==> M() == old(M())
      ensures t.Some? <==> old(tables[d][vp / ENTRIES]) != 0 || (create && page.Some?)
      ensures t.Some? ==> tables[d][vp / ENTRIES] != 0 && t.value == Frame(tables[d][vp / ENTRIES])
      ensures t.Some? ==> t.value in tables && t.value !in dirs
    {
      var pde := tables[d][vp / ENTRIES];
      if pde == 0 {
        if !create || page.None? {
          return None;
        }
        ghost var m := M();
        TableKeepsWellFormed(m, d, vp / ENTRIES, page.value);
        TableChangesNothing(m, d, vp / ENTRIES, page.value);
        EntryReadsBack(page.value, true);
        pde := PdeCreate(page.value);
        tables := tables[page.value := seq(ENTRIES, _ => 0)];
        tables := tables[d := tables[d][vp / ENTRIES := pde]];
        owner := owner[page.value := Slot(d, vp / ENTRIES)];
        NoChangeKeepsCoherent(m, M(), C());
      }
      EntryHasTable(M(), d, vp / ENTRIES);
      t := Some(Frame(pde));
    }

    /** Maps user page `vp` to a frame. The cache needs no flush. */
    method SetPage(d: nat, vp: nat, frame: nat, writable: bool, page: Option<nat>) returns (ok: bool)
      requires Valid() && d in dirs && d != initDir && vp < USER_PAGES && frame < FRAMES
      requires Mapping(M(), d, vp) == None && (page.Some? ==> IsFresh(page.value))
      modifies this`tables, this`owner
      ensures Valid()
      ensures ok <==> old(tables[d][vp / ENTRIES]) != 0 || page.Some?
      ensures if ok then Changed(old(M()), M(), d, vp, PteCreateUser(frame, writable)) else M() == old(M())
      ensures ok ==> Mapping(M(), d, vp) == Some((frame, writable))
    {
      var t := LookupPage(d, vp, true, page);
      ok := t.Some?;
      if ok {
        ghost var m, w := M(), PteCreateUser(frame, writable);
        assert Entry(m, d, vp) == old(Entry(M(), d, vp));
        EntryReadsBack(frame, writable);
        EntryChanges(m, d, vp, w);
        ChangeKeepsCoherent(m, WithEntry(m, t.value, vp % ENTRIES, w), C(), d, vp, w);
        tables := tables[t.value := tables[t.value][vp % ENTRIES := PteCreateUser(frame, writable)]];
      }
    }

    /** The frame and offset that user address `va` maps to. */
    method GetPage(d: nat, va: word) returns (r: Option<(nat, nat)>)
      requires Valid() && d in dirs && va < 0xC000_0000
      ensures r.Some? <==> Mapping(M(), d, PageNo(va)).Some?
      ensures r.Some? ==> r.value == (Mapping(M(), d, PageNo(va)).value.0, va % PGSIZE)
    {
      IndicesArePageNo(va);
      var pde := tables[d][PdNo(va)];
      if pde == 0 {
        return None;
      }
      EntryHasTable(M(), d, PdNo(va));
      var pte := tables[Frame(pde)][PtNo(va)];
      if Present(pte) {
        return Some((Frame(pte), va % PGSIZE));
      }
      return None;
    }

    /** The address of the entry for page `vp`, as table and index. */
    method FindEntry(d: nat, vp: nat) returns (t: Option<nat>)
      requires Valid() && d in dirs && vp < FRAMES
      ensures t.Some? <==> tables[d][vp / ENTRIES] != 0
      ensures t.Some? ==> t.value == Frame(tables[d][vp / ENTRIES])
      ensures t.Some? ==> t.value in tables && t.value !in dirs && tables[t.value][vp % ENTRIES] == Entry(M(), d, vp)
      ensures t.None? ==> Entry(M(), d, vp) == 0
    {
      var pde := tables[d][vp / ENTRIES];
      if pde == 0 {
        return None;
      }
      EntryHasTable(M(), d, vp / ENTRIES);
      t := Some(Frame(pde));
    }

    method Activate(d: nat)
      requires WellFormed(M()) && d in dirs
      modifies this`cr3, this`tlb
      ensures Valid() && cr3 == d && tlb == map[]
    {
      cr3, tlb := d, map[];
    }

    /** Forgets what is cached, if it is `d` that is cached. */
    method Invalidate(d: nat)
      requires WellFormed(M()) && cr3 in dirs && (cr3 != d ==> Coherent(M(), C()) && UsesKept(M(), C()))
      modifies this`cr3, this`tlb
      ensures Valid() && cr3 == old(cr3) && tlb == if cr3 == d then map[] else old(tlb)
    {
      if cr3 == d {
        Activate(d);
      }
    }

    /** Makes user page `vp` not present; the rest of its entry stays. */
    method ClearPage(d: nat, vp: nat)
      requires Valid() && d in dirs && vp < USER_PAGES
      modifies this`tables, this`cr3, this`tlb
      ensures Valid() && cr3 == old(cr3) && Mapping(M(), d, vp) == None
      ensures old(Present(Entry(M(), d, vp))) ==>
        Changed(old(M()), M(), d, vp, WithPresent(old(Entry(M(), d, vp)), false))
      ensures !old(Present(Entry(M(), d, vp))) ==> M() == old(M())
      ensures cr3 == d ==> vp !in tlb
    {
      var t := FindEntry(d, vp);
      if t.Some? && Present(tables[t.value][vp % ENTRIES]) {
        ghost var m, w := M(), WithPresent(Entry(M(), d, vp), false);
        EntryChanges(m, d, vp, w);
        PresentIsSeparate(Entry(m, d, vp), false);
        tables := tables[t.value := tables[t.value][vp % ENTRIES := WithPresent(tables[t.value][vp % ENTRIES], false)]];
        assert M() == WithEntry(m, t.value, vp % ENTRIES, w);
        if cr3 != d {
          ChangeKeepsCoherent(m, M(), C(), d, vp, w);
        }
        Invalidate(d);
      }
    }

    method IsDirty(d: nat, vp: nat) returns (r: bool)
      requires Valid() && d in dirs && vp < FRAMES
      ensures r == Dirty(Entry(M(), d, vp))
    {
      var t := FindEntry(d, vp);
      r := t.Some? && Dirty(tables[t.value][vp % ENTRIES]);
    }

    method IsAccessed(d: nat, vp: nat) returns (r: bool)
      requires Valid() && d in dirs && vp < FRAMES
      ensures r == Accessed(Entry(M(), d, vp))
    {
      var t := FindEntry(d, vp);
      r := t.Some? && Accessed(tables[t.value][vp % ENTRIES]);
    }

    method SetDirty(d: nat, vp: nat, dirty: bool)
      requires Valid() && d in dirs && vp < FRAMES
      modifies this`tables, this`cr3, this`tlb
      ensures Valid() && cr3 == old(cr3)
      ensures if old(tables[d][vp / ENTRIES]) == 0 then M() == old(M())
        else Changed(old(M()), M(), d, vp, WithDirty(old(Entry(M(), d, vp)), dirty))
    {
      var t := FindEntry(d, vp);
      if t.Some? {
        ghost var m, w := M(), WithDirty(Entry(M(), d, vp), dirty);
        EntryChanges(m, d, vp, w);
        DirtyIsSeparate(Entry(m, d, vp), dirty);
        tables := tables[t.value := tables[t.value][vp % ENTRIES := WithDirty(tables[t.value][vp % ENTRIES], dirty)]];
        assert M() == WithEntry(m, t.value, vp % ENTRIES, w);
        if dirty || cr3 != d {
          ChangeKeepsCoherent(m, M(), C(), d, vp, w);
        }
        if !dirty {
          Invalidate(d);
        }
      }
    }

    method SetAccessed(d: nat, vp: nat, accessed: bool)
      requires Valid() && d in dirs && vp < FRAMES
      modifies this`tables, this`cr3, this`tlb
      ensures Valid() && cr3 == old(cr3)
      ensures if old(tables[d][vp / ENTRIES]) == 0 then M() == old(M())
        else Changed(old(M()), M(), d, vp, WithAccessed(old(Entry(M(), d, vp)), accessed))
    {
      var t := FindEntry(d, vp);
      if t.Some? {
        ghost var m, w := M(), WithAccessed(Entry(M(), d, vp), accessed);
        EntryChanges(m, d, vp, w);
        AccessedIsSeparate(Entry(m, d, vp), accessed);
        tables := tables[t.value := tables[t.value][vp % ENTRIES := WithAccessed(tables[t.value][vp % ENTRIES], accessed)]];
        assert M() == WithEntry(m, t.value, vp % ENTRIES, w);
        if accessed || cr3 != d {
          ChangeKeepsCoherent(m, M(), C(), d, vp, w);
        }
        if !accessed {
          Invalidate(d);
        }
      }
    }

    /** A new directory mapping the kernel and no user page. */
    method Create(page: Option<nat>) returns (d: Option<nat>)
      requires Valid() && (page.Some? ==> IsFresh(page.value))
      modifies this`tables, this`dirs
      ensures Valid() && d == page
      ensures d.None? ==> M() == old(M())
      ensures d.Some? ==> dirs == old(dirs) + {d.value} && d.value in tables
      ensures d.Some? ==> forall vp: nat :: vp < USER_PAGES ==> Mapping(M(), d.value, vp) == None
      ensures forall d', vp: nat :: d' in old(dirs) && vp < FRAMES ==>
        d' in tables && Entry(M(), d', vp) == old(Entry(M(), d', vp))
    {
      d := page;
      if d.Some? {
        ghost var m := M();
        DirKeepsWellFormed(m, d.value);
        forall d', vp: nat | d' in m.dirs + {d.value} && vp < FRAMES
          ensures Entry(WithDir(m, d.value), d', vp) == Entry(m, if d' == d.value then m.initDir else d', vp)
          ensures vp < USER_PAGES ==> Mapping(WithDir(m, d.value), d.value, vp) == None
        {
          NewDirMapsKernelOnly(m, d.value, d', vp);
        }
        tables := tables[d.value := tables[initDir]];
        dirs := dirs + {d.value};
        assert M() == WithDir(m, d.value);
      }
    }

    /** Takes an inactive directory apart; `freed` lists the frames given back, in order. */
    method Destroy(d: nat) returns (freed: seq<nat>)
      requires Valid() && d in dirs && d != initDir && d != cr3
      modifies this`tables, this`dirs, this`owner
      ensures Valid() && dirs == old(dirs) - {d}
      ensures freed == FreedFrames(old(M()), d, USER_ENTRIES) + [d]
      ensures forall f: nat :: f in tables <==> f in old(tables) && f != d && !IsTableOf(old(M()), d, USER_ENTRIES, f)
      ensures forall d', vp: nat :: d' in dirs && vp < FRAMES ==>
        d' in tables && Entry(M(), d', vp) == old(Entry(M(), d', vp))
    {
      freed := [];
      var gone: set<nat> := {};
      for i := 0 to USER_ENTRIES
        invariant M() == old(M()) && freed == FreedFrames(M(), d, i)
        invariant forall f: nat :: f in gone <==> IsTableOf(M(), d, i, f)
      {
        var pde := tables[d][i];
        if Present(pde) {
          EntryHasTable(M(), d, i);
          var pt := Frame(pde);
          var pages := FreeTablePages(tables[pt]);
          freed := freed + (pages + [pt]);
          gone := gone + {pt};
        }
        assert pde != 0 ==> TableAt(M(), pde) by {
          if pde != 0 {
            EntryHasTable(M(), d, i);
          }
        }
        forall f: nat ensures f in gone <==> IsTableOf(M(), d, i + 1, f) {
          IsTableOfNext(M(), d, i, f);
        }
      }
      WithoutDirKeepsRest(M(), d, gone);
      freed := freed + [d];
      tables := tables - (gone + {d});
      dirs, owner := dirs - {d}, owner - gone;
    }

    static method FreeTablePages(t: Table) returns (freed: seq<nat>)
      ensures freed == MappedFrames(t, ENTRIES)
    {
      freed := [];
      for j := 0 to ENTRIES
        invariant freed == MappedFrames(t, j)
      {
        if Present(t[j]) {
          freed := freed + [Frame(t[j])];
        }
      }
    }

    // ------------------------------------------------------------ what the processor does

    /** Walks the tables for a present page, marks it accessed, and caches the entry. */
    method TlbFill(vp: nat)
      requires Valid() && vp < FRAMES && Present(Entry(M(), cr3, vp))
      modifies this`tables, this`tlb
      ensures Valid() && vp in tlb && tlb == old(tlb)[vp := tlb[vp]]
      ensures Changed(old(M()), M(), cr3, vp, WithAccessed(old(Entry(M(), cr3, vp)), true))
    {
      var t := FindEntry(cr3, vp);
      ghost var m := M();
      var w := WithAccessed(tables[t.value][vp % ENTRIES], true);
      EntryChanges(m, cr3, vp, w);
      AccessedIsSeparate(Entry(m, cr3, vp), true);
      tables := tables[t.value := tables[t.value][vp % ENTRIES := w]];
      assert M() == WithEntry(m, t.value, vp % ENTRIES, w);
      ChangeKeepsCoherent(m, M(), C(), cr3, vp, w);
      tlb := tlb[vp := w];
    }

    method TlbEvict(vp: nat)
      requires Valid()
      modifies this`tlb
      ensures Valid() && tlb == old(tlb) - {vp}
    {
      tlb := tlb - {vp};
    }

    /** A store through a cached translation. Unless the entry is cached as dirty it marks the one in memory; either way
        a write to a user page is on record. */
    method Store(vp: nat)
      requires Valid() && vp in tlb && Writable(tlb[vp])
      modifies this`tables, this`tlb
      ensures Valid() && Mapping(M(), cr3, vp) == old(Mapping(M(), cr3, vp))
      ensures vp < USER_PAGES ==> Dirty(Entry(M(), cr3, vp))
    {
      if !Dirty(tlb[vp]) {
        var t := FindEntry(cr3, vp);
        ghost var m := M();
        var w := WithDirty(tables[t.value][vp % ENTRIES], true);
        EntryChanges(m, cr3, vp, w);
        DirtyIsSeparate(Entry(m, cr3, vp), true);
        DirtyIsSeparate(tlb[vp], true);
        tables := tables[t.value := tables[t.value][vp % ENTRIES := w]];
        assert M() == WithEntry(m, t.value, vp % ENTRIES, w);
        ChangeKeepsCoherent(m, M(), C(), cr3, vp, w);
        tlb := tlb[vp := WithDirty(tlb[vp], true)];
      }
    }
  }
}
