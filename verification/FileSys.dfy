/** The file system's bookkeeping: the free map and its copy on disk, inode sectors, the root directory, and the list
    of open inodes that decides when a deleted file's sectors are given back. */
module FileSys {
  import opened Common
  import opened Bitmap
  import InodeIO

  const FREE_MAP_SECTOR := 0
  const ROOT_DIR_SECTOR := 1
  const NAME_MAX := 14
  const ROOT_ENTRIES := 16
  const ENTRY_SIZE := 20

  /** An inode as it stands in its sector. */
  datatype DiskInode = DiskInode(start: nat, length: nat)

  /** One slot of the root directory. */
  datatype Entry = Entry(sector: nat, name: string, inUse: bool)

  /** An inode in memory. */
  datatype OpenInode = OpenInode(sector: nat, openCnt: int, removed: bool, data: DiskInode)

  function Zeros(): (z: InodeIO.Sector)
    ensures forall k :: 0 <= k < 512 ==> z[k] == 0
  {
    seq(InodeIO.SECTOR_SIZE, _ => 0)
  }

  /** The bitmap is stored in 32-bit words: as many bytes as whole words with a bit for every sector take. */
  function BitmapFileSize(bits: nat): (bytes: nat)
    ensures bytes % 4 == 0 && 8 * bytes - 32 < bits <= 8 * bytes
  {
    (bits + 31) / 32 * 4
  }

  function Sectors(d: DiskInode): nat {
    InodeIO.BytesToSectors(d.length)
  }

  // ---------------------------------------------------------------- who owns which sector

  /** `owner[i] == Some(x)`: sector `i` was handed out for the file whose inode is in sector `x`. */
  type Owners = seq<Option<nat>>

  /** The file with its inode in sector `x` lies inside the device, and all its sectors are its own. */
  ghost predicate Owns(owner: Owners, inodes: map<nat, DiskInode>, x: nat) {
    && x in inodes && x < |owner| && owner[x] == Some(x)
    && AllOwned(owner, inodes[x].start, Sectors(inodes[x]), x)
    && !(inodes[x].start <= x < inodes[x].start + Sectors(inodes[x]))
  }

  ghost predicate AllOwned(owner: Owners, start: nat, cnt: nat, x: nat) {
    start + cnt <= |owner| && forall i :: start <= i < start + cnt ==> owner[i] == Some(x)
  }

  /** No sector that has an owner is free. */
  ghost predicate Marked(freeMap: seq<bool>, owner: Owners) {
    |owner| == |freeMap| && forall i :: 0 <= i < |owner| && owner[i].Some? ==> freeMap[i]
  }

  ghost predicate Listed(entries: seq<Entry>, x: nat) {
    exists k :: 0 <= k < |entries| && entries[k].inUse && entries[k].sector == x
  }

  ghost predicate IsOpen(open: seq<OpenInode>, x: nat) {
    exists k :: 0 <= k < |open| && open[k].sector == x
  }

  /** The free map's and the root directory's inodes, and those of every file that is listed or still open. */
  ghost predicate Live(entries: seq<Entry>, open: seq<OpenInode>, x: nat) {
    x == FREE_MAP_SECTOR || x == ROOT_DIR_SECTOR || Listed(entries, x) || IsOpen(open, x)
  }

  ghost predicate LiveOwned(owner: Owners, inodes: map<nat, DiskInode>, entries: seq<Entry>, open: seq<OpenInode>) {
    forall x: nat :: Live(entries, open, x) ==> Owns(owner, inodes, x)
  }

  ghost predicate ListedOnce(entries: seq<Entry>) {
    && (forall k :: 0 <= k < |entries| && entries[k].inUse ==> entries[k].sector > ROOT_DIR_SECTOR)
    && forall j, k :: 0 <= j < k < |entries| && entries[j].inUse && entries[k].inUse ==>
      entries[j].sector != entries[k].sector
  }

  ghost predicate OpenOnce(inodes: map<nat, DiskInode>, open: seq<OpenInode>) {
    && (forall k :: 0 <= k < |open| ==>
      open[k].openCnt > 0 && open[k].sector in inodes && open[k].data == inodes[open[k].sector])
    && forall j, k :: 0 <= j < k < |open| ==> open[j].sector != open[k].sector
  }

  ghost predicate RemovedUnlisted(entries: seq<Entry>, open: seq<OpenInode>) {
    forall k :: 0 <= k < |open| && open[k].removed ==>
      open[k].sector > ROOT_DIR_SECTOR && !Listed(entries, open[k].sector)
  }

  /** Sector `i` belongs to the file with inode sector `x` and inode `d`. */
  predicate InFile(i: nat, x: nat, d: DiskInode) {
    i == x || d.start <= i < d.start + Sectors(d)
  }

  /** What the ownership invariant is for: every sector of a live file is marked used, and no sector is in two. */
  lemma LiveFilesAreDisjoint(freeMap: seq<bool>, owner: Owners, inodes: map<nat, DiskInode>,
                             entries: seq<Entry>, open: seq<OpenInode>, x: nat, y: nat, i: nat)
    requires Marked(freeMap, owner) && LiveOwned(owner, inodes, entries, open)
    requires Live(entries, open, x) && Live(entries, open, y) && x != y
    ensures x in inodes && y in inodes
    ensures InFile(i, x, inodes[x]) ==> i < |freeMap| && freeMap[i]
    ensures InFile(i, x, inodes[x]) ==> !InFile(i, y, inodes[y])
  {
    assert Owns(owner, inodes, x) && Owns(owner, inodes, y);
    assert InFile(i, x, inodes[x]) ==> owner[i] == Some(x);
    assert InFile(i, y, inodes[y]) ==> owner[i] == Some(y);
  }

  // ---------------------------------------------------------------- how changes of the map keep ownership

  lemma AllocationKeepsOwners(freeMap: seq<bool>, owner: Owners, inodes: map<nat, DiskInode>,
                              entries: seq<Entry>, open: seq<OpenInode>, start: nat, cnt: nat, x: nat)
    requires Marked(freeMap, owner) && LiveOwned(owner, inodes, entries, open)
    requires AllAre(freeMap, start, cnt, false)
    ensures Marked(SetMultiple(freeMap, start, cnt, true), SetMultiple(owner, start, cnt, Some(x)))
    ensures LiveOwned(SetMultiple(owner, start, cnt, Some(x)), inodes, entries, open)
    ensures AllOwned(SetMultiple(owner, start, cnt, Some(x)), start, cnt, x)
    ensures forall i :: 0 <= i < |owner| && owner[i].Some? ==> SetMultiple(owner, start, cnt, Some(x))[i] == owner[i]
  {
    var owner' := SetMultiple(owner, start, cnt, Some(x));
    forall i | 0 <= i < |owner| && owner[i].Some? ensures owner'[i] == owner[i] {
      assert freeMap[i];
    }
    forall y: nat | Live(entries, open, y) ensures Owns(owner', inodes, y) {
      assert Owns(owner, inodes, y);
      var d := inodes[y];
      assert forall i :: d.start <= i < d.start + Sectors(d) ==> owner[i] == Some(y) && owner'[i] == owner[i];
    }
  }

  /** Sectors that belong to no live file can go. */
  lemma ReleaseKeepsOwners(freeMap: seq<bool>, owner: Owners, inodes: map<nat, DiskInode>,
                           entries: seq<Entry>, open: seq<OpenInode>, start: nat, cnt: nat, x: nat)
    requires Marked(freeMap, owner) && LiveOwned(owner, inodes, entries, open)
    requires AllOwned(owner, start, cnt, x) && !Live(entries, open, x)
    ensures AllAre(freeMap, start, cnt, true)
    ensures Marked(SetMultiple(freeMap, start, cnt, false), SetMultiple(owner, start, cnt, None))
    ensures LiveOwned(SetMultiple(owner, start, cnt, None), inodes, entries, open)
  {
    var owner' := SetMultiple(owner, start, cnt, None);
    forall y: nat | Live(entries, open, y) ensures Owns(owner', inodes, y) {
      assert Owns(owner, inodes, y) && y != x;
      var d := inodes[y];
      assert forall i :: d.start <= i < d.start + Sectors(d) ==> owner[i] == Some(y) && owner'[i] == owner[i];
    }
  }

  lemma FreshIsDead(freeMap: seq<bool>, owner: Owners, inodes: map<nat, DiskInode>,
                    entries: seq<Entry>, open: seq<OpenInode>, x: nat)
    requires Marked(freeMap, owner) && LiveOwned(owner, inodes, entries, open)
    requires x < |freeMap| && !freeMap[x]
    ensures !Live(entries, open, x)
  {
    assert Live(entries, open, x) ==> Owns(owner, inodes, x);
  }

  /** Writing a dead file's inode sector disturbs no live file. */
  lemma RewriteKeepsOwners(owner: Owners, inodes: map<nat, DiskInode>,
                           entries: seq<Entry>, open: seq<OpenInode>, x: nat, d: DiskInode)
    requires LiveOwned(owner, inodes, entries, open) && !Live(entries, open, x)
    ensures LiveOwned(owner, inodes[x := d], entries, open)
  {
    forall y: nat | Live(entries, open, y) ensures Owns(owner, inodes[x := d], y) {
      assert Owns(owner, inodes, y) && y != x;
    }
  }

  // ---------------------------------------------------------------- the free map's copy on disk

  /** The copy after a write of which only the first `written` bits reached the disk. */
  function Landed(freeMap: seq<bool>, diskMap: seq<bool>, written: nat): (r: seq<bool>)
    requires |diskMap| == |freeMap|
    ensures |r| == |freeMap| && (written >= |freeMap| ==> r == freeMap)
  {
    if written >= |freeMap| then freeMap else freeMap[..written] + diskMap[written..]
  }

  /** A release whose write falls short leaves the copy exact just when the write got past the released run: the
      code does not look at the outcome. */
  lemma CopyAfterRelease(m: seq<bool>, start: nat, cnt: nat, written: nat)
    requires AllAre(m, start, cnt, true)
    ensures Landed(SetMultiple(m, start, cnt, false), m, written) == SetMultiple(m, start, cnt, false) <==>
      cnt == 0 || start + cnt <= written
  {
    var m' := SetMultiple(m, start, cnt, false);
    var disk := Landed(m', m, written);
    if cnt == 0 || start + cnt <= written {
      assert forall i :: 0 <= i < |m| ==> disk[i] == m'[i];
    } else {
      assert disk[start + cnt - 1] != m'[start + cnt - 1];
    }
  }

  /** The copy on disk after an allocation whose write fell short: as much of it as landed is still there. */
  ghost predicate Undone(m: seq<bool>, cnt: nat, wasDisk: seq<bool>, disk: seq<bool>, written: nat) {
    exists first: nat :: IsFirstRun(m, cnt, false, Some(first)) && |wasDisk| == |m|
      && disk == Landed(SetMultiple(m, first, cnt, true), wasDisk, written)
  }

  /** An allocation that is undone because its write fell short leaves the copy exact just when the write stopped
      before the run. */
  lemma CopyAfterFailedAllocation(m: seq<bool>, start: nat, cnt: nat, written: nat)
    requires AllAre(m, start, cnt, false) && written < |m|
    ensures Landed(SetMultiple(m, start, cnt, true), m, written) == m <==> cnt == 0 || written <= start
  {
    var m' := SetMultiple(m, start, cnt, true);
    var disk := Landed(m', m, written);
    if cnt == 0 || written <= start {
      assert forall i :: 0 <= i < |m| ==> disk[i] == m[i];
    } else {
      assert disk[start] != m[start];
    }
  }

  // ---------------------------------------------------------------- the list of open inodes

  /** Where `x` stands in the list; its length if nowhere. */
  function IndexOf(open: seq<OpenInode>, x: nat): (k: nat)
    ensures k <= |open| && (k < |open| ==> open[k].sector == x)
    ensures forall j :: 0 <= j < k ==> open[j].sector != x
  {
    if open == [] || open[0].sector == x then 0 else IndexOf(open[1..], x) + 1
  }

  function AfterOpen(open: seq<OpenInode>, x: nat, d: DiskInode): seq<OpenInode> {
    var k := IndexOf(open, x);
    if k < |open| then open[k := open[k].(openCnt := open[k].openCnt + 1)] else [OpenInode(x, 1, false, d)] + open
  }

  function AfterClose(open: seq<OpenInode>, x: nat): seq<OpenInode>
    requires IndexOf(open, x) < |open|
  {
    var k := IndexOf(open, x);
    if open[k].openCnt == 1 then open[..k] + open[k + 1..] else open[k := open[k].(openCnt := open[k].openCnt - 1)]
  }

  lemma IndexIsUnique(inodes: map<nat, DiskInode>, open: seq<OpenInode>, x: nat, k: nat)
    requires OpenOnce(inodes, open) && k < |open| && open[k].sector == x
    ensures IndexOf(open, x) == k
  {
  }

  /** Closing undoes opening. */
  lemma CloseUndoesOpen(inodes: map<nat, DiskInode>, open: seq<OpenInode>, x: nat, d: DiskInode)
    requires OpenOnce(inodes, open)
    ensures IndexOf(AfterOpen(open, x, d), x) < |AfterOpen(open, x, d)|
    ensures AfterClose(AfterOpen(open, x, d), x) == open
  {
    var k := IndexOf(open, x);
    var open' := AfterOpen(open, x, d);
    var j := IndexOf(open', x);
    if k < |open| {
      assert open'[k].sector == x;
      assert forall i :: 0 <= i < k ==> open'[i] == open[i];
    } else {
      assert open'[0].sector == x;
    }
  }

  lemma OpenKeepsOnce(inodes: map<nat, DiskInode>, open: seq<OpenInode>, x: nat)
    requires OpenOnce(inodes, open) && x in inodes
    ensures OpenOnce(inodes, AfterOpen(open, x, inodes[x]))
  {
    var k := IndexOf(open, x);
    if k == |open| {
      assert forall j :: 0 < j <= |open| ==> AfterOpen(open, x, inodes[x])[j] == open[j - 1];
    }
  }

  lemma OpenAddsOne(open: seq<OpenInode>, x: nat, d: DiskInode, y: nat)
    ensures IsOpen(AfterOpen(open, x, d), y) <==> y == x || IsOpen(open, y)
  {
    var k := IndexOf(open, x);
    var open' := AfterOpen(open, x, d);
    assert open'[if k < |open| then k else 0].sector == x;
    if IsOpen(open, y) {
      var j :| 0 <= j < |open| && open[j].sector == y;
      assert open'[if k < |open| then j else j + 1].sector == y;
    }
    if IsOpen(open', y) && y != x {
      var j :| 0 <= j < |open'| && open'[j].sector == y;
      assert open[if k < |open| then j else j - 1].sector == y;
    }
  }

  lemma OpeningKeepsLiveOwned(owner: Owners, inodes: map<nat, DiskInode>,
                              entries: seq<Entry>, open: seq<OpenInode>, x: nat)
    requires LiveOwned(owner, inodes, entries, open) && OpenOnce(inodes, open) && RemovedUnlisted(entries, open)
    requires Live(entries, open, x) && x in inodes
    ensures LiveOwned(owner, inodes, entries, AfterOpen(open, x, inodes[x]))
    ensures OpenOnce(inodes, AfterOpen(open, x, inodes[x]))
    ensures RemovedUnlisted(entries, AfterOpen(open, x, inodes[x]))
  {
    OpenKeepsOnce(inodes, open, x);
    var open' := AfterOpen(open, x, inodes[x]);
    forall y: nat | Live(entries, open', y) ensures Owns(owner, inodes, y) {
      OpenAddsOne(open, x, inodes[x], y);
      assert Live(entries, open, y);
    }
  }

  /** Where element `j` of the list after a close stood before it. */
  function Before(open: seq<OpenInode>, k: nat, j: nat): nat
    requires k < |open|
  {
    if j < k || open[k].openCnt != 1 then j else j + 1
  }

  /** A close changes nothing of an element but perhaps the count of openings. */
  lemma AfterCloseElement(open: seq<OpenInode>, x: nat, j: nat)
    requires IndexOf(open, x) < |open| && j < |AfterClose(open, x)|
    ensures var i := Before(open, IndexOf(open, x), j);
      i < |open| && AfterClose(open, x)[j] == open[i].(openCnt := AfterClose(open, x)[j].openCnt)
  {
    var k := IndexOf(open, x);
    var e := AfterClose(open, x)[j];
    if open[k].openCnt == 1 {
      assert e == if j < k then open[j] else open[k + 1..][j - k];
      assert e == open[Before(open, k, j)];
    } else {
      assert e == if j == k then open[k].(openCnt := open[k].openCnt - 1) else open[j];
    }
  }

  lemma ClosingKeepsOnce(inodes: map<nat, DiskInode>, open: seq<OpenInode>, x: nat)
    requires OpenOnce(inodes, open) && IndexOf(open, x) < |open|
    ensures OpenOnce(inodes, AfterClose(open, x))
    ensures open[IndexOf(open, x)].openCnt == 1 ==> !IsOpen(AfterClose(open, x), x)
  {
    var k := IndexOf(open, x);
    var open' := AfterClose(open, x);
    forall j, j' | 0 <= j < j' < |open'| ensures open'[j].sector != open'[j'].sector {
      AfterCloseElement(open, x, j);
      AfterCloseElement(open, x, j');
    }
    forall j | 0 <= j < |open'| ensures open[k].openCnt == 1 ==> open'[j].sector != x {
      AfterCloseElement(open, x, j);
    }
  }

  lemma ClosingKeepsRest(entries: seq<Entry>, open: seq<OpenInode>, x: nat)
    requires RemovedUnlisted(entries, open) && IndexOf(open, x) < |open|
    ensures RemovedUnlisted(entries, AfterClose(open, x))
    ensures forall y :: IsOpen(AfterClose(open, x), y) ==> IsOpen(open, y)
  {
    var open' := AfterClose(open, x);
    forall j | 0 <= j < |open'| ensures IsOpen(open, open'[j].sector) {
      AfterCloseElement(open, x, j);
    }
    forall j | 0 <= j < |open'| && open'[j].removed
      ensures open'[j].sector > ROOT_DIR_SECTOR && !Listed(entries, open'[j].sector)
    {
      AfterCloseElement(open, x, j);
    }
  }

  lemma ClosingKeepsLiveOwned(owner: Owners, inodes: map<nat, DiskInode>,
                              entries: seq<Entry>, open: seq<OpenInode>, x: nat)
    requires LiveOwned(owner, inodes, entries, open) && OpenOnce(inodes, open) && RemovedUnlisted(entries, open)
    requires IsOpen(open, x)
    ensures IndexOf(open, x) < |open|
    ensures LiveOwned(owner, inodes, entries, AfterClose(open, x))
    ensures OpenOnce(inodes, AfterClose(open, x)) && RemovedUnlisted(entries, AfterClose(open, x))
    ensures open[IndexOf(open, x)].openCnt == 1 ==> !IsOpen(AfterClose(open, x), x)
  {
    ClosingKeepsOnce(inodes, open, x);
    ClosingKeepsRest(entries, open, x);
    forall y: nat | Live(entries, AfterClose(open, x), y) ensures Owns(owner, inodes, y) {
      assert Live(entries, open, y);
    }
  }

  function MarkRemoved(open: seq<OpenInode>, x: nat): seq<OpenInode>
    requires IndexOf(open, x) < |open|
  {
    var k := IndexOf(open, x);
    open[k := open[k].(removed := true)]
  }

  /** What opening a file, marking it removed and closing it comes to. */
  lemma RemovalOfOpenFile(inodes: map<nat, DiskInode>, open: seq<OpenInode>, x: nat, d: DiskInode)
    requires OpenOnce(inodes, open)
    ensures var open' := AfterOpen(open, x, d);
      && IndexOf(open', x) < |open'| && IndexOf(MarkRemoved(open', x), x) == IndexOf(open', x)
      && AfterClose(MarkRemoved(open', x), x) == (if IndexOf(open, x) < |open| then MarkRemoved(open, x) else open)
      && (open'[IndexOf(open', x)].openCnt == 1 <==> IndexOf(open, x) == |open|)
  {
    var k := IndexOf(open, x);
    var open' := AfterOpen(open, x, d);
    var m := if k < |open| then k else 0;
    IndexIsFirst(open', x, m);
    IndexIsFirst(MarkRemoved(open', x), x, m);
  }

  lemma IndexIsFirst(open: seq<OpenInode>, x: nat, k: nat)
    requires k < |open| && open[k].sector == x && forall j :: 0 <= j < k ==> open[j].sector != x
    ensures IndexOf(open, x) == k
  {
  }

  /** From `was` to `now` exactly the sectors of the file at `x` went from used to free. */
  ghost predicate Freed(was: seq<bool>, now: seq<bool>, x: nat, d: DiskInode) {
    && |now| == |was| && x < |was| && d.start + Sectors(d) <= |was|
    && forall i :: 0 <= i < |was| ==> if InFile(i, x, d) then was[i] && !now[i] else now[i] == was[i]
  }

  /** From `was` to `now` exactly the sectors of the file at `x` went from free to used. */
  ghost predicate Taken(was: seq<bool>, now: seq<bool>, x: nat, d: DiskInode) {
    && |now| == |was| && x < |was| && d.start + Sectors(d) <= |was|
    && forall i :: 0 <= i < |was| ==> if InFile(i, x, d) then !was[i] && now[i] else now[i] == was[i]
  }

  ghost predicate NothingFreed(was: seq<bool>, now: seq<bool>) {
    |now| == |was| && forall i :: 0 <= i < |was| && was[i] ==> now[i]
  }

  /** Marking a file removed while the root directory is open for a moment comes to just marking it. */
  lemma RemovalUnderRoot(inodes: map<nat, DiskInode>, open: seq<OpenInode>, d: DiskInode, x: nat)
    requires OpenOnce(inodes, open) && x != ROOT_DIR_SECTOR
    ensures var held := AfterOpen(open, ROOT_DIR_SECTOR, d);
      && (IndexOf(held, x) < |held| <==> IndexOf(open, x) < |open|)
      && (IndexOf(open, x) < |open| ==>
        && IndexOf(MarkRemoved(held, x), ROOT_DIR_SECTOR) < |held|
        && AfterClose(MarkRemoved(held, x), ROOT_DIR_SECTOR) == MarkRemoved(open, x))
  {
    if IndexOf(open, ROOT_DIR_SECTOR) < |open| {
      RemovalUnderOpenRoot(inodes, open, d, x);
    } else {
      RemovalUnderClosedRoot(open, d, x);
    }
  }

  lemma RemovalUnderOpenRoot(inodes: map<nat, DiskInode>, open: seq<OpenInode>, d: DiskInode, x: nat)
    requires OpenOnce(inodes, open) && x != ROOT_DIR_SECTOR && IndexOf(open, ROOT_DIR_SECTOR) < |open|
    ensures var held := AfterOpen(open, ROOT_DIR_SECTOR, d);
      && (IndexOf(held, x) < |held| <==> IndexOf(open, x) < |open|)
      && (IndexOf(open, x) < |open| ==>
        && IndexOf(MarkRemoved(held, x), ROOT_DIR_SECTOR) < |held|
        && AfterClose(MarkRemoved(held, x), ROOT_DIR_SECTOR) == MarkRemoved(open, x))
  {
    var r, k := IndexOf(open, ROOT_DIR_SECTOR), IndexOf(open, x);
    var held := AfterOpen(open, ROOT_DIR_SECTOR, d);
    IndexIsFirstOr(held, x, k);
    if k < |open| {
      var marked := MarkRemoved(held, x);
      IndexIsFirst(marked, ROOT_DIR_SECTOR, r);
      assert marked[r] == held[r] && held[r].openCnt > 1;
      assert marked[r := open[r]] == MarkRemoved(open, x);
    }
  }

  lemma RemovalUnderClosedRoot(open: seq<OpenInode>, d: DiskInode, x: nat)
    requires x != ROOT_DIR_SECTOR && IndexOf(open, ROOT_DIR_SECTOR) == |open|
    ensures var held := AfterOpen(open, ROOT_DIR_SECTOR, d);
      && (IndexOf(held, x) < |held| <==> IndexOf(open, x) < |open|)
      && (IndexOf(open, x) < |open| ==>
        && IndexOf(MarkRemoved(held, x), ROOT_DIR_SECTOR) < |held|
        && AfterClose(MarkRemoved(held, x), ROOT_DIR_SECTOR) == MarkRemoved(open, x))
  {
    var k := IndexOf(open, x);
    var held := AfterOpen(open, ROOT_DIR_SECTOR, d);
    assert held[1..] == open;
    IndexIsFirstOr(held, x, k + 1);
    if k < |open| {
      var marked := MarkRemoved(held, x);
      IndexIsFirst(marked, ROOT_DIR_SECTOR, 0);
      assert marked[0] == held[0] && held[0].openCnt == 1;
      assert marked[..0] + marked[1..] == MarkRemoved(open, x);
    }
  }

  /** Opening a file while the root directory is open for a moment comes to just opening it. */
  lemma OpenUnderRoot(inodes: map<nat, DiskInode>, open: seq<OpenInode>, d: DiskInode, x: nat, e: DiskInode)
    requires OpenOnce(inodes, open) && x != ROOT_DIR_SECTOR
    ensures var both := AfterOpen(AfterOpen(open, ROOT_DIR_SECTOR, d), x, e);
      && IndexOf(both, ROOT_DIR_SECTOR) < |both| && IsOpen(both, ROOT_DIR_SECTOR)
      && AfterClose(both, ROOT_DIR_SECTOR) == AfterOpen(open, x, e)
  {
    if IndexOf(open, ROOT_DIR_SECTOR) < |open| {
      OpenUnderOpenRoot(inodes, open, d, x, e);
    } else {
      OpenUnderClosedRoot(open, d, x, e);
    }
  }

  lemma OpenUnderOpenRoot(inodes: map<nat, DiskInode>, open: seq<OpenInode>, d: DiskInode, x: nat, e: DiskInode)
    requires OpenOnce(inodes, open) && x != ROOT_DIR_SECTOR && IndexOf(open, ROOT_DIR_SECTOR) < |open|
    ensures var both := AfterOpen(AfterOpen(open, ROOT_DIR_SECTOR, d), x, e);
      && IndexOf(both, ROOT_DIR_SECTOR) < |both|
      && AfterClose(both, ROOT_DIR_SECTOR) == AfterOpen(open, x, e)
  {
    var r, k := IndexOf(open, ROOT_DIR_SECTOR), IndexOf(open, x);
    var held := AfterOpen(open, ROOT_DIR_SECTOR, d);
    IndexIsFirstOr(held, x, k);
    var both := AfterOpen(held, x, e);
    var m := if k < |open| then r else r + 1;
    IndexIsFirst(both, ROOT_DIR_SECTOR, m);
    assert both[m] == held[r] && held[r].openCnt > 1;
    assert both[m := open[r]] == AfterOpen(open, x, e);
  }

  lemma OpenUnderClosedRoot(open: seq<OpenInode>, d: DiskInode, x: nat, e: DiskInode)
    requires x != ROOT_DIR_SECTOR && IndexOf(open, ROOT_DIR_SECTOR) == |open|
    ensures var both := AfterOpen(AfterOpen(open, ROOT_DIR_SECTOR, d), x, e);
      && IndexOf(both, ROOT_DIR_SECTOR) < |both|
      && AfterClose(both, ROOT_DIR_SECTOR) == AfterOpen(open, x, e)
  {
    var k := IndexOf(open, x);
    var held := AfterOpen(open, ROOT_DIR_SECTOR, d);
    assert held[1..] == open;
    IndexIsFirstOr(held, x, k + 1);
    var both := AfterOpen(held, x, e);
    var m := if k < |open| then 0 else 1;
    IndexIsFirst(both, ROOT_DIR_SECTOR, m);
    assert both[m] == held[0] && held[0].openCnt == 1;
    assert both[..m] + both[m + 1..] == AfterOpen(open, x, e);
  }

  lemma IndexIsFirstOr(open: seq<OpenInode>, x: nat, k: nat)
    requires k <= |open| && (k < |open| ==> open[k].sector == x) && forall j :: 0 <= j < k ==> open[j].sector != x
    ensures IndexOf(open, x) == k
  {
  }

  /** The inode `r`, if any, has been opened once more. */
  ghost predicate OpenedAs(was: seq<OpenInode>, open: seq<OpenInode>, r: Option<nat>, inodes: map<nat, DiskInode>) {
    if r.Some? then r.value in inodes && open == AfterOpen(was, r.value, inodes[r.value]) else open == was
  }

  lemma OpenedUnderRoot(inodes: map<nat, DiskInode>, was: seq<OpenInode>, open: seq<OpenInode>, d: DiskInode,
                        r: Option<nat>)
    requires OpenOnce(inodes, was) && r != Some(ROOT_DIR_SECTOR)
    requires OpenedAs(AfterOpen(was, ROOT_DIR_SECTOR, d), open, r, inodes)
    ensures IsOpen(open, ROOT_DIR_SECTOR) && IndexOf(open, ROOT_DIR_SECTOR) < |open|
    ensures OpenedAs(was, AfterClose(open, ROOT_DIR_SECTOR), r, inodes)
  {
    if r.Some? {
      OpenUnderRoot(inodes, was, d, r.value, inodes[r.value]);
    } else {
      CloseUndoesOpen(inodes, was, ROOT_DIR_SECTOR, d);
      assert open[IndexOf(open, ROOT_DIR_SECTOR)].sector == ROOT_DIR_SECTOR;
    }
  }

  /** A removal seen with the root directory open for a moment is one seen without. */
  lemma UnlistedUnderRoot(name: string, slot: nat, wasEntries: seq<Entry>, entries: seq<Entry>, wasOpen: seq<OpenInode>,
                          open: seq<OpenInode>, wasFree: seq<bool>, freeMap: seq<bool>, inodes: map<nat, DiskInode>,
                          d: DiskInode)
    requires OpenOnce(inodes, wasOpen)
    requires Unlisted(name, slot, wasEntries, entries, AfterOpen(wasOpen, ROOT_DIR_SECTOR, d), open,
                      wasFree, freeMap, inodes)
    requires wasEntries[slot].sector > ROOT_DIR_SECTOR
    ensures IsOpen(open, ROOT_DIR_SECTOR) && IndexOf(open, ROOT_DIR_SECTOR) < |open|
    ensures Unlisted(name, slot, wasEntries, entries, wasOpen, AfterClose(open, ROOT_DIR_SECTOR),
                     wasFree, freeMap, inodes)
  {
    CloseUndoesOpen(inodes, wasOpen, ROOT_DIR_SECTOR, d);
    RemovalUnderRoot(inodes, wasOpen, d, wasEntries[slot].sector);
    assert open[IndexOf(open, ROOT_DIR_SECTOR)].sector == ROOT_DIR_SECTOR;
  }

  /** The inode of every live file stands as it stood. */
  ghost predicate LiveUntouched(was: map<nat, DiskInode>, inodes: map<nat, DiskInode>,
                                entries: seq<Entry>, open: seq<OpenInode>) {
    forall y: nat :: Live(entries, open, y) ==> y in was && y in inodes && inodes[y] == was[y]
  }

  /** The file at `x` has been removed: it stays, marked, while somebody has it open, and is gone otherwise. */
  ghost predicate RemovedFrom(wasOpen: seq<OpenInode>, wasFree: seq<bool>, open: seq<OpenInode>, freeMap: seq<bool>,
                              inodes: map<nat, DiskInode>, x: nat) {
    if IndexOf(wasOpen, x) < |wasOpen|
    then open == MarkRemoved(wasOpen, x) && freeMap == wasFree
    else open == wasOpen && x in inodes && Freed(wasFree, freeMap, x, inodes[x])
  }

  // ---------------------------------------------------------------- the directory

  predicate ValidName(name: string) {
    0 < |name| <= NAME_MAX
  }

  /** Names of 1 to 14 characters. */
  lemma NamesAllowed(name: string)
    ensures ValidName(name) <==> name != "" && |name| < 15
  {
  }

  predicate Matches(e: Entry, name: string) {
    e.inUse && e.name == name
  }

  ghost predicate HasName(entries: seq<Entry>, name: string) {
    exists k :: 0 <= k < |entries| && Matches(entries[k], name)
  }

  ghost predicate HasFreeSlot(entries: seq<Entry>) {
    exists k :: 0 <= k < |entries| && !entries[k].inUse
  }

  /** A created file is the one found under its name, and every other name means what it meant before. */
  lemma CreatedIsFound(name: string, size: nat, slot: nat, x: nat, wasEntries: seq<Entry>, entries: seq<Entry>,
                       wasFree: seq<bool>, freeMap: seq<bool>, inodes: map<nat, DiskInode>, other: string, k: nat)
    requires Created(name, size, slot, x, wasEntries, entries, wasFree, freeMap, inodes)
    requires !HasName(wasEntries, name) && !wasEntries[slot].inUse && k < |entries|
    ensures Matches(entries[k], name) <==> k == slot
    ensures other != name ==> (Matches(entries[k], other) <==> Matches(wasEntries[k], other))
    ensures Matches(entries[k], other) && other != name ==> entries[k] == wasEntries[k]
  {
    assert Matches(wasEntries[k], name) ==> HasName(wasEntries, name);
  }

  ghost predicate ListedAs(entries: seq<Entry>, name: string, x: nat) {
    x > ROOT_DIR_SECTOR && exists k :: 0 <= k < |entries| && Matches(entries[k], name) && entries[k].sector == x
  }

  lemma ListedAsListed(entries: seq<Entry>, name: string, x: nat)
    requires ListedAs(entries, name, x)
    ensures Listed(entries, x)
  {
    var k :| 0 <= k < |entries| && Matches(entries[k], name) && entries[k].sector == x;
    assert entries[k].inUse;
  }

  ghost predicate CanList(entries: seq<Entry>, name: string, readable: nat) {
    ValidName(name) && !HasName(entries, name) && (HasFreeSlot(entries) || readable < |entries|)
  }

  /** Where a new entry goes: the first free slot, or the first slot that cannot be read if that comes before it. */
  predicate IsSlot(entries: seq<Entry>, readable: nat, slot: nat) {
    && slot < |entries| && slot <= readable
    && (forall j :: 0 <= j < slot ==> entries[j].inUse) && (slot < readable ==> !entries[slot].inUse)
  }

  /** The first slot that cannot be read is in use, like all before it. */
  predicate Overwrites(entries: seq<Entry>, readable: nat) {
    readable < |entries| && forall j :: 0 <= j <= readable ==> entries[j].inUse
  }

  /** The file now at `x` is new: listed in `slot` and occupying exactly the sectors that are newly in use. */
  ghost predicate Created(name: string, size: nat, slot: nat, x: nat, wasEntries: seq<Entry>, entries: seq<Entry>,
                          wasFree: seq<bool>, freeMap: seq<bool>, inodes: map<nat, DiskInode>) {
    && ValidName(name) && slot < |wasEntries| && entries == wasEntries[slot := Entry(x, name, true)]
    && x in inodes && inodes[x].length == size && Taken(wasFree, freeMap, x, inodes[x])
  }

  /** The file that was listed in `slot` under `name` has been removed. */
  ghost predicate Unlisted(name: string, slot: nat, wasEntries: seq<Entry>, entries: seq<Entry>,
                           wasOpen: seq<OpenInode>, open: seq<OpenInode>, wasFree: seq<bool>, freeMap: seq<bool>,
                           inodes: map<nat, DiskInode>) {
    && slot < |wasEntries| && Matches(wasEntries[slot], name)
    && entries == wasEntries[slot := wasEntries[slot].(inUse := false)]
    && RemovedFrom(wasOpen, wasFree, open, freeMap, inodes, wasEntries[slot].sector)
  }

  /** There is room for an inode sector and, after it is taken, for `size` bytes of data. */
  ghost predicate FitsFile(freeMap: seq<bool>, size: nat) {
    exists x: nat :: IsFirstRun(freeMap, 1, false, Some(x)) &&
      Fits(SetMultiple(freeMap, x, 1, true), InodeIO.BytesToSectors(size))
  }

  /** No sector that was in use has been written. */
  ghost predicate UsedKept(wasFree: seq<bool>, was: InodeIO.Disk, now: InodeIO.Disk) {
    |now| == |was| == |wasFree| && forall i :: 0 <= i < |was| && wasFree[i] ==> now[i] == was[i]
  }

  /** What was in use before one more sector was taken is in use after it. */
  lemma UsedKeptBefore(m: seq<bool>, r: nat, was: InodeIO.Disk, now: InodeIO.Disk)
    requires r < |m| && UsedKept(SetMultiple(m, r, 1, true), was, now)
    ensures UsedKept(m, was, now)
  {
  }

  /** The file reads as zeros. */
  ghost predicate IsBlank(data: InodeIO.Disk, d: DiskInode) {
    d.start + Sectors(d) <= |data| && forall i :: d.start <= i < d.start + Sectors(d) ==> data[i] == Zeros()
  }

  /** `n` sectors that were free are marked used, and nothing else has changed. */
  ghost predicate Lost(was: seq<bool>, now: seq<bool>, n: nat) {
    exists start: nat :: AllAre(was, start, n, false) && now == SetMultiple(was, start, n, true)
  }

  /** What a failed creation may do: it takes nothing, or loses the sectors meant for the file's data. */
  ghost predicate NoneOrLost(was: seq<bool>, now: seq<bool>, n: nat) {
    now == was || Lost(was, now, n)
  }

  lemma LostChanges(was: seq<bool>, now: seq<bool>, n: nat)
    requires Lost(was, now, n)
    ensures now == was <==> n == 0
  {
    var start: nat :| AllAre(was, start, n, false) && now == SetMultiple(was, start, n, true);
    if n > 0 {
      assert now[start] && !was[start];
    }
  }

  /** Giving the inode sector back leaves the data sectors marked. */
  lemma DataStaysLost(was: seq<bool>, now: seq<bool>, r: nat, n: nat)
    requires AllAre(was, r, 1, false) && Lost(SetMultiple(was, r, 1, true), now, n)
    ensures r < |now| && Lost(was, SetMultiple(now, r, 1, false), n)
  {
    var taken := SetMultiple(was, r, 1, true);
    var start: nat :| AllAre(taken, start, n, false) && now == SetMultiple(taken, start, n, true);
    assert taken[r];
    assert SetMultiple(now, r, 1, false) == SetMultiple(was, start, n, true);
    assert AllAre(was, start, n, false);
  }

  /** What a failed creation leaves behind once its inode sector has been given back. */
  lemma GivenBack(was: seq<bool>, now: seq<bool>, r: nat, n: nat)
    requires AllAre(was, r, 1, false) && r < |now|
    ensures now == SetMultiple(was, r, 1, true) ==> SetMultiple(now, r, 1, false) == was
    ensures Lost(SetMultiple(was, r, 1, true), now, n) ==>
      Lost(was, SetMultiple(now, r, 1, false), n) && (SetMultiple(now, r, 1, false) == was <==> n == 0)
  {
    FlipBack(was, r, 1);
    if Lost(SetMultiple(was, r, 1, true), now, n) {
      DataStaysLost(was, now, r, n);
      LostChanges(was, SetMultiple(now, r, 1, false), n);
    }
  }

  lemma LiveThroughOpen(inodes: map<nat, DiskInode>, entries: seq<Entry>, open: seq<OpenInode>)
    requires ROOT_DIR_SECTOR in inodes
    ensures forall y: nat :: Live(entries, open, y) ==> Live(entries, AfterOpen(open, ROOT_DIR_SECTOR, inodes[ROOT_DIR_SECTOR]), y)
  {
    forall y: nat ensures IsOpen(open, y) ==> IsOpen(AfterOpen(open, ROOT_DIR_SECTOR, inodes[ROOT_DIR_SECTOR]), y) {
      OpenAddsOne(open, ROOT_DIR_SECTOR, inodes[ROOT_DIR_SECTOR], y);
    }
  }

  lemma FitsAfterFirst(freeMap: seq<bool>, size: nat, r: Option<nat>)
    requires IsFirstRun(freeMap, 1, false, r)
    ensures FitsFile(freeMap, size) <==>
      r.Some? && Fits(SetMultiple(freeMap, r.value, 1, true), InodeIO.BytesToSectors(size))
  {
    if FitsFile(freeMap, size) {
      var x: nat :| IsFirstRun(freeMap, 1, false, Some(x)) &&
        Fits(SetMultiple(freeMap, x, 1, true), InodeIO.BytesToSectors(size));
      assert AllAre(freeMap, x, 1, false);
      assert r == Some(x);
    }
  }

  /** The outcomes of the memory allocations and disk writes an operation meets. `lookupReads` and `slotReads` are the
      numbers of directory slots that can be read before memory for the bounce buffer runs out. */
  datatype Luck = Luck(
    openOk: bool, dirOk: bool, inodeOk: bool, fileOk: bool, lookupReads: nat, slotReads: nat, entryOk: bool,
    written: nat, written2: nat, written3: nat)

  predicate NothingFails(c: Luck, slots: nat, bits: nat) {
    NothingElseFails(c, slots, bits) && c.slotReads >= slots
  }

  /** Nothing but perhaps the search for a free slot. */
  predicate NothingElseFails(c: Luck, slots: nat, bits: nat) {
    && c.openOk && c.dirOk && c.inodeOk && c.fileOk && c.lookupReads >= slots && c.entryOk
    && c.written >= bits && c.written2 >= bits && c.written3 >= bits
  }

  lemma ListingKeepsValid(owner: Owners, inodes: map<nat, DiskInode>, entries: seq<Entry>, open: seq<OpenInode>,
                          k: nat, e: Entry)
    requires LiveOwned(owner, inodes, entries, open) && ListedOnce(entries) && RemovedUnlisted(entries, open)
    requires k < |entries| && (e.inUse ==> Owns(owner, inodes, e.sector) && !Live(entries, open, e.sector))
    ensures LiveOwned(owner, inodes, entries[k := e], open)
    ensures ListedOnce(entries[k := e]) && RemovedUnlisted(entries[k := e], open)
    ensures ListedOnce(entries) && entries[k].inUse && !e.inUse ==> !Listed(entries[k := e], entries[k].sector)
  {
    var entries' := entries[k := e];
    forall y: nat | Listed(entries', y) ensures Listed(entries, y) || (e.inUse && y == e.sector) {
      var j :| 0 <= j < |entries'| && entries'[j].inUse && entries'[j].sector == y;
      assert j != k ==> entries[j].inUse && entries[j].sector == y;
    }
    forall y: nat | Live(entries', open, y) ensures Owns(owner, inodes, y) {
      assert Live(entries, open, y) || (e.inUse && y == e.sector);
    }
    forall i, j | 0 <= i < j < |entries'| && entries'[i].inUse && entries'[j].inUse
      ensures entries'[i].sector != entries'[j].sector
    {
      assert i != k ==> Listed(entries, entries'[i].sector);
      assert j != k ==> Listed(entries, entries'[j].sector);
    }
    forall m | 0 <= m < |open| && open[m].removed ensures !Listed(entries', open[m].sector) {
      assert IsOpen(open, open[m].sector);
    }
  }

  class FileSystem {
    var freeMap: seq<bool>
    var diskMap: seq<bool>
    var inodes: map<nat, DiskInode>
    var entries: seq<Entry>
    var open: seq<OpenInode>
    var data: InodeIO.Disk
    ghost var owner: Owners

    ghost predicate Valid()
      reads this
    {
      && Marked(freeMap, owner) && |diskMap| == |freeMap| == |data|
      && LiveOwned(owner, inodes, entries, open)
      && ListedOnce(entries) && OpenOnce(inodes, open) && RemovedUnlisted(entries, open)
    }

    /** Formats a device of `size` sectors with room for the free map and the root directory. Formatting a smaller device
        panics, and so does running out of memory here. What those two files hold is kept apart from `data`. */
    constructor (size: nat, device: InodeIO.Disk)
      requires 3 + InodeIO.BytesToSectors(BitmapFileSize(size)) <= size == |device|
      ensures Valid() && diskMap == freeMap && |freeMap| == size
      ensures |entries| == ROOT_ENTRIES && forall k :: 0 <= k < ROOT_ENTRIES ==> !entries[k].inUse
      ensures FREE_MAP_SECTOR in inodes && open == [OpenInode(FREE_MAP_SECTOR, 1, false, inodes[FREE_MAP_SECTOR])]
      ensures inodes[FREE_MAP_SECTOR].length == BitmapFileSize(size)
      ensures ROOT_DIR_SECTOR in inodes && inodes[ROOT_DIR_SECTOR].length == 16 * 20
      ensures forall i :: 0 <= i < size ==> (freeMap[i] <==> i < 3 + InodeIO.BytesToSectors(BitmapFileSize(size)))
      ensures forall i :: 0 <= i < size && !freeMap[i] ==> data[i] == device[i]
    {
      var mapSectors := InodeIO.BytesToSectors(BitmapFileSize(size));
      var blank := seq(size, i => i == FREE_MAP_SECTOR || i == ROOT_DIR_SECTOR);
      assert mapSectors > 0 && AllAre(blank, 2, mapSectors, false);
      var start, map1 := ScanAndFlip(blank, mapSectors, false);
      FirstRunAt(blank, mapSectors, false, start, 2);
      assert AllAre(map1, 2 + mapSectors, 1, false);
      var start2, map2 := ScanAndFlip(map1, 1, false);
      FirstRunAt(map1, 1, false, start2, 2 + mapSectors);
      freeMap, diskMap := map2, map2;
      data := SetMultiple(SetMultiple(device, start.value, mapSectors, Zeros()), start2.value, 1, Zeros());
      inodes := map[FREE_MAP_SECTOR := DiskInode(start.value, BitmapFileSize(size)),
                    ROOT_DIR_SECTOR := DiskInode(start2.value, ROOT_ENTRIES * ENTRY_SIZE)];
      entries := seq(ROOT_ENTRIES, _ => Entry(0, "", false));
      open := [OpenInode(FREE_MAP_SECTOR, 1, false, DiskInode(start.value, BitmapFileSize(size)))];
      owner := seq(size, i => if i == ROOT_DIR_SECTOR || i == 2 + mapSectors then Some(ROOT_DIR_SECTOR)
                              else if i < 2 + mapSectors then Some(FREE_MAP_SECTOR) else None);
    }

    // ------------------------------------------------------------ free-map.c

    /** Hands out the first free run of `cnt` sectors, for the file at `x` or, if None, as that file's inode. */
    method FreeMapAllocate(cnt: nat, written: nat, ghost x: Option<nat>) returns (r: Option<nat>)
      requires Valid()
      modifies this`freeMap, this`diskMap, this`owner
      ensures Valid()
      ensures r.None? ==> freeMap == old(freeMap) && owner == old(owner)
      ensures r.None? && written >= |freeMap| ==> diskMap == old(diskMap)
      ensures r.Some? ==> AllAre(old(freeMap), r.value, cnt, false)
      ensures r.Some? ==> freeMap == SetMultiple(old(freeMap), r.value, cnt, true) && diskMap == freeMap
      ensures r.Some? || written >= |freeMap| ==> IsFirstRun(old(freeMap), cnt, false, r)
      ensures r.Some? ==> AllOwned(owner, r.value, cnt, if x.Some? then x.value else r.value)
      ensures forall i :: 0 <= i < |old(owner)| && old(owner)[i].Some? ==> owner[i] == old(owner)[i]
      ensures r.Some? <==> written >= |freeMap| && Fits(old(freeMap), cnt)
      ensures r.None? && Fits(old(freeMap), cnt) ==> Undone(old(freeMap), cnt, old(diskMap), diskMap, written)
    {
      ghost var was := freeMap;
      r, freeMap := ScanAndFlip(freeMap, cnt, false);
      if r.Some? {
        diskMap := Landed(freeMap, diskMap, written);
        if written < |freeMap| {
          FlipBack(was, r.value, cnt);
          freeMap := SetMultiple(freeMap, r.value, cnt, false);
          r := None;
        } else {
          ghost var file := if x.Some? then x.value else r.value;
          AllocationKeepsOwners(was, owner, inodes, entries, open, r.value, cnt, file);
          owner := SetMultiple(owner, r.value, cnt, Some(file));
        }
      }
    }

    method FreeMapRelease(start: nat, cnt: nat, written: nat, ghost x: nat)
      requires Valid() && AllOwned(owner, start, cnt, x) && !Live(entries, open, x)
      modifies this`freeMap, this`diskMap, this`owner
      ensures Valid()
      ensures AllAre(old(freeMap), start, cnt, true)
      ensures freeMap == SetMultiple(old(freeMap), start, cnt, false)
      ensures diskMap == Landed(freeMap, old(diskMap), written)
      ensures owner == SetMultiple(old(owner), start, cnt, None)
    {
      ReleaseKeepsOwners(freeMap, owner, inodes, entries, open, start, cnt, x);
      assert AllAre(freeMap, start, cnt, true);
      freeMap := SetMultiple(freeMap, start, cnt, false);
      diskMap := Landed(freeMap, diskMap, written);
      owner := SetMultiple(owner, start, cnt, None);
    }

    // ------------------------------------------------------------ inode.c

    /** Gives a fresh inode sector an inode of `length` bytes. */
    method InodeCreate(sector: nat, length: nat, memoryOk: bool, written: nat) returns (ok: bool)
      requires Valid() && sector < |owner| && owner[sector] == Some(sector) && !Live(entries, open, sector)
      modifies this`freeMap, this`diskMap, this`owner, this`inodes, this`data
      ensures Valid()
      ensures !ok ==> data == old(data)
      ensures !ok ==> freeMap == old(freeMap) && inodes == old(inodes) && owner == old(owner)
      ensures !ok && written >= |freeMap| ==> diskMap == old(diskMap)
      ensures ok ==> Owns(owner, inodes, sector) && inodes[sector].length == length
      ensures ok ==> inodes == old(inodes)[sector := inodes[sector]] && diskMap == freeMap
      ensures ok ==> AllAre(old(freeMap), inodes[sector].start, InodeIO.BytesToSectors(length), false)
      ensures ok ==> freeMap == SetMultiple(old(freeMap), inodes[sector].start, InodeIO.BytesToSectors(length), true)
      ensures forall i :: 0 <= i < |old(owner)| && old(owner)[i].Some? ==> owner[i] == old(owner)[i]
      ensures ok <==> memoryOk && written >= |freeMap| && Fits(old(freeMap), InodeIO.BytesToSectors(length))
      ensures ok ==> data == SetMultiple(old(data), inodes[sector].start, InodeIO.BytesToSectors(length), Zeros())
    {
      ok := false;
      if memoryOk {
        var start := FreeMapAllocate(InodeIO.BytesToSectors(length), written, Some(sector));
        if start.Some? {
          RewriteKeepsOwners(owner, inodes, entries, open, sector, DiskInode(start.value, length));
          inodes := inodes[sector := DiskInode(start.value, length)];
          ZeroSectors(start.value, InodeIO.BytesToSectors(length));
          ok := true;
        }
      }
    }

    /** Writes zeros over the `n` sectors from `start` on. */
    method ZeroSectors(start: nat, n: nat)
      requires start + n <= |data|
      modifies this`data
      ensures data == SetMultiple(old(data), start, n, Zeros())
    {
      for i := 0 to n
        invariant data == SetMultiple(old(data), start, i, Zeros())
      {
        data := data[start + i := Zeros()];
      }
    }

    method InodeOpen(sector: nat, memoryOk: bool) returns (ok: bool)
      requires Valid() && Live(entries, open, sector)
      modifies this`open
      ensures Valid() && sector in inodes
      ensures ok <==> memoryOk || IsOpen(old(open), sector)
      ensures open == if ok then AfterOpen(old(open), sector, inodes[sector]) else old(open)
      ensures ok ==> IsOpen(open, sector)
    {
      assert Owns(owner, inodes, sector);
      OpenAddsOne(open, sector, inodes[sector], sector);
      for i := 0 to |open|
        invariant forall j :: 0 <= j < i ==> open[j].sector != sector
      {
        if open[i].sector == sector {
          IndexIsUnique(inodes, open, sector, i);
          OpeningKeepsLiveOwned(owner, inodes, entries, open, sector);
          open := open[i := open[i].(openCnt := open[i].openCnt + 1)];
          return true;
        }
      }
      if !memoryOk {
        return false;
      }
      OpeningKeepsLiveOwned(owner, inodes, entries, open, sector);
      open := [OpenInode(sector, 1, false, inodes[sector])] + open;
      return true;
    }

    /** Gives up one opening. The last one of a removed file returns all its sectors, each of which was marked used:
        this is the only place where they are. */
    method InodeClose(sector: nat, written: nat, written2: nat)
      requires Valid() && IsOpen(open, sector)
      modifies this`open, this`freeMap, this`diskMap, this`owner
      ensures Valid() && IndexOf(old(open), sector) < |old(open)| && sector in inodes
      ensures open == AfterClose(old(open), sector)
      ensures var was := old(open)[IndexOf(old(open), sector)];
        !(was.openCnt == 1 && was.removed) ==>
          freeMap == old(freeMap) && diskMap == old(diskMap) && owner == old(owner)
      ensures var was := old(open)[IndexOf(old(open), sector)];
        was.openCnt == 1 && was.removed ==> Freed(old(freeMap), freeMap, sector, inodes[sector])
      ensures written >= |freeMap| && written2 >= |freeMap| && old(diskMap) == old(freeMap) ==> diskMap == freeMap
    {
      ClosingKeepsLiveOwned(owner, inodes, entries, open, sector);
      var k := IndexOf(open, sector);
      var inode := open[k].(openCnt := open[k].openCnt - 1);
      assert open[k].sector == sector;
      if inode.openCnt == 0 {
        assert Live(entries, open, sector) && Owns(owner, inodes, sector);
        open := open[..k] + open[k + 1..];
        if inode.removed {
          assert !Live(entries, open, sector);
          FreeMapRelease(inode.sector, 1, written, sector);
          FreeMapRelease(inode.data.start, InodeIO.BytesToSectors(inode.data.length), written2, sector);
        }
      } else {
        open := open[k := inode];
      }
    }

    /** Marks an open inode, no longer listed, for deletion at its last close. */
    method InodeRemove(sector: nat)
      requires Valid() && IsOpen(open, sector) && sector > ROOT_DIR_SECTOR && !Listed(entries, sector)
      modifies this`open
      ensures Valid() && IndexOf(old(open), sector) < |old(open)|
      ensures open == MarkRemoved(old(open), sector)
    {
      var k := IndexOf(open, sector);
      var open' := open[k := open[k].(removed := true)];
      forall y: nat | Live(entries, open', y) ensures Owns(owner, inodes, y) {
        if IsOpen(open', y) {
          var j :| 0 <= j < |open'| && open'[j].sector == y;
          assert open[j].sector == y;
        }
        assert Live(entries, open, y);
      }
      open := open';
    }

    // ------------------------------------------------------------ directory.c

    /** The first slot in use under `name`, among those that can be read. */
    method Lookup(name: string, readable: nat) returns (r: Option<nat>)
      ensures r.Some? ==> r.value < |entries| && r.value < readable && Matches(entries[r.value], name)
      ensures forall j :: 0 <= j < |entries| && j < (if r.Some? then r.value else readable) ==> !Matches(entries[j], name)
    {
      var i := 0;
      while i < |entries| && i < readable
        invariant i <= |entries|
        invariant forall j :: 0 <= j < i ==> !Matches(entries[j], name)
      {
        if entries[i].inUse && entries[i].name == name {
          return Some(i);
        }
        i := i + 1;
      }
      return None;
    }

    /** Lists the file at `sector` under `name`. */
    method DirAdd(name: string, sector: nat, c: Luck) returns (ok: bool, ghost slot: nat)
      requires Valid() && Owns(owner, inodes, sector) && !Live(entries, open, sector)
      modifies this`entries
      ensures Valid()
      ensures !ok ==> entries == old(entries)
      ensures ok ==> ValidName(name) && slot < |old(entries)|
      ensures ok ==> entries == old(entries)[slot := Entry(sector, name, true)]
      ensures ok ==> IsSlot(old(entries), c.slotReads, slot)
      ensures ok ==> (old(entries)[slot].inUse <==> Overwrites(old(entries), c.slotReads))
      ensures c.lookupReads >= |entries| && c.entryOk ==> (ok <==> CanList(old(entries), name, c.slotReads))
    {
      ok, slot := false, 0;
      if name == "" || |name| > NAME_MAX {
        return;
      }
      var found := Lookup(name, c.lookupReads);
      if found.Some? {
        assert Matches(entries[found.value], name);
        return;
      }
      var i := 0;
      while i < |entries| && i < c.slotReads && entries[i].inUse
        invariant i <= |entries| && i <= c.slotReads
        invariant forall j :: 0 <= j < i ==> entries[j].inUse
      {
        i := i + 1;
      }
      if i < |entries| && c.entryOk {
        ListingKeepsValid(owner, inodes, entries, open, i, Entry(sector, name, true));
        entries := entries[i := Entry(sector, name, true)];
        return true, i;
      }
    }

    /** Unlists the file under `name`. Its sectors go now if nobody has it open, and at its last close otherwise. */
    method DirRemove(name: string, c: Luck) returns (ok: bool, ghost slot: nat)
      requires Valid()
      modifies this`entries, this`open, this`freeMap, this`diskMap, this`owner
      ensures Valid()
      ensures if ok
        then Unlisted(name, slot, old(entries), entries, old(open), open, old(freeMap), freeMap, inodes)
        else entries == old(entries) && open == old(open) && freeMap == old(freeMap)
      ensures c.lookupReads >= |entries| && c.inodeOk && c.entryOk ==> (ok <==> HasName(old(entries), name))
      ensures c.written >= |freeMap| && c.written2 >= |freeMap| && old(diskMap) == old(freeMap) ==> diskMap == freeMap
    {
      ok, slot := false, 0;
      var k := Lookup(name, c.lookupReads);
      if k.None? {
        return;
      }
      slot := k.value;
      var e := entries[k.value];
      assert Matches(e, name);
      assert Listed(entries, e.sector);
      var gotInode := InodeOpen(e.sector, c.inodeOk);
      if !gotInode {
        return;
      }
      if c.entryOk {
        EraseAndClose(k.value, c.written, c.written2, old(open));
        ok := true;
      } else {
        CloseAgain(e.sector, old(open));
      }
    }

    /** The end of a removal, once the inode has been opened: erase the entry, mark the inode and close it. */
    method EraseAndClose(k: nat, written: nat, written2: nat, ghost was: seq<OpenInode>)
      requires Valid() && k < |entries| && entries[k].inUse && entries[k].sector in inodes && OpenOnce(inodes, was)
      requires open == AfterOpen(was, entries[k].sector, inodes[entries[k].sector])
      modifies this`entries, this`open, this`freeMap, this`diskMap, this`owner
      ensures Valid() && entries == old(entries)[k := old(entries)[k].(inUse := false)]
      ensures RemovedFrom(was, old(freeMap), open, freeMap, inodes, old(entries)[k].sector)
      ensures written >= |freeMap| && written2 >= |freeMap| && old(diskMap) == old(freeMap) ==> diskMap == freeMap
    {
      var e := entries[k];
      ListingKeepsValid(owner, inodes, entries, open, k, e.(inUse := false));
      OpenAddsOne(was, e.sector, inodes[e.sector], e.sector);
      RemovalOfOpenFile(inodes, was, e.sector, inodes[e.sector]);
      entries := entries[k := e.(inUse := false)];
      InodeRemove(e.sector);
      assert open[IndexOf(open, e.sector)].sector == e.sector;
      InodeClose(e.sector, written, written2);
    }

    /** Closes an inode of a live directory entry or of the root directory that was opened a moment ago. */
    method CloseAgain(sector: nat, ghost was: seq<OpenInode>)
      requires Valid() && sector in inodes && OpenOnce(inodes, was)
      requires open == AfterOpen(was, sector, inodes[sector])
      requires sector == ROOT_DIR_SECTOR || Listed(entries, sector)
      modifies this`open, this`freeMap, this`diskMap, this`owner
      ensures Valid() && open == was && freeMap == old(freeMap) && diskMap == old(diskMap) && owner == old(owner)
    {
      OpenAddsOne(was, sector, inodes[sector], sector);
      CloseUndoesOpen(inodes, was, sector, inodes[sector]);
      assert !open[IndexOf(open, sector)].removed;
      InodeClose(sector, 0, 0);
    }

    // ------------------------------------------------------------ filesys.c

    method DirOpenRoot(openOk: bool, dirOk: bool) returns (ok: bool)
      requires Valid()
      modifies this`open, this`freeMap, this`diskMap, this`owner
      ensures Valid() && ROOT_DIR_SECTOR in inodes
      ensures freeMap == old(freeMap) && diskMap == old(diskMap) && owner == old(owner)
      ensures ok <==> dirOk && (openOk || IsOpen(old(open), ROOT_DIR_SECTOR))
      ensures if ok
        then open == AfterOpen(old(open), ROOT_DIR_SECTOR, inodes[ROOT_DIR_SECTOR]) && IsOpen(open, ROOT_DIR_SECTOR)
        else open == old(open)
    {
      ok := InodeOpen(ROOT_DIR_SECTOR, openOk);
      if ok && !dirOk {
        CloseAgain(ROOT_DIR_SECTOR, old(open));
        ok := false;
      }
    }

    /** The root directory is never removed, so closing it frees nothing. */
    method DirClose()
      requires Valid() && IsOpen(open, ROOT_DIR_SECTOR)
      modifies this`open, this`freeMap, this`diskMap, this`owner
      ensures Valid() && IndexOf(old(open), ROOT_DIR_SECTOR) < |old(open)|
      ensures open == AfterClose(old(open), ROOT_DIR_SECTOR)
      ensures freeMap == old(freeMap) && diskMap == old(diskMap) && owner == old(owner)
    {
      assert IndexOf(open, ROOT_DIR_SECTOR) < |open| ==> !open[IndexOf(open, ROOT_DIR_SECTOR)].removed;
      InodeClose(ROOT_DIR_SECTOR, 0, 0);
    }

    /** Writes an inode into a fresh inode sector and lists it. */
    method AddFile(name: string, size: nat, x: nat, c: Luck) returns (ok: bool, ghost slot: nat)
      requires Valid() && x < |owner| && owner[x] == Some(x) && !Live(entries, open, x)
      modifies this`freeMap, this`diskMap, this`owner, this`inodes, this`entries, this`data
      ensures Valid() && NothingFreed(old(freeMap), freeMap) && owner[x] == Some(x)
      ensures forall y :: y != x ==> (y in inodes <==> y in old(inodes)) && (y in inodes ==> inodes[y] == old(inodes)[y])
      ensures !ok ==> entries == old(entries)
      ensures !ok ==> NoneOrLost(old(freeMap), freeMap, InodeIO.BytesToSectors(size))
      ensures NothingElseFails(c, |entries|, |freeMap|) && !ok ==>
        if Fits(old(freeMap), InodeIO.BytesToSectors(size)) then Lost(old(freeMap), freeMap, InodeIO.BytesToSectors(size))
        else freeMap == old(freeMap)
      ensures ok ==> ValidName(name) && slot < |old(entries)| && Owns(owner, inodes, x) && inodes[x].length == size
      ensures ok ==> entries == old(entries)[slot := Entry(x, name, true)]
      ensures ok ==> AllAre(old(freeMap), inodes[x].start, Sectors(inodes[x]), false)
      ensures ok ==> IsSlot(old(entries), c.slotReads, slot)
      ensures ok ==> (old(entries)[slot].inUse <==> Overwrites(old(entries), c.slotReads))
      ensures ok ==> freeMap == SetMultiple(old(freeMap), inodes[x].start, Sectors(inodes[x]), true)
      ensures UsedKept(old(freeMap), old(data), data) && (ok ==> IsBlank(data, inodes[x]))
      ensures NothingElseFails(c, |entries|, |freeMap|) ==> (ok <==>
        (CanList(old(entries), name, c.slotReads) && Fits(old(freeMap), InodeIO.BytesToSectors(size))))
      ensures c.written2 >= |freeMap| && old(diskMap) == old(freeMap) ==> diskMap == freeMap
    {
      slot := 0;
      ok := InodeCreate(x, size, c.inodeOk, c.written2);
      if ok {
        ok, slot := DirAdd(name, x, c);
      }
    }

    /** The part of a creation between opening the root directory and closing it. */
    method Populate(name: string, size: nat, c: Luck) returns (ok: bool, ghost slot: nat, ghost sector: nat)
      requires Valid()
      modifies this`freeMap, this`diskMap, this`owner, this`inodes, this`entries, this`data
      ensures Valid()
      ensures if ok then Created(name, size, slot, sector, old(entries), entries, old(freeMap), freeMap, inodes)
        else entries == old(entries) && NoneOrLost(old(freeMap), freeMap, InodeIO.BytesToSectors(size))
      ensures NothingElseFails(c, |entries|, |freeMap|) && !ok ==>
        (freeMap == old(freeMap) <==> InodeIO.BytesToSectors(size) == 0 || !FitsFile(old(freeMap), size))
      ensures ok ==> IsSlot(old(entries), c.slotReads, slot)
      ensures ok ==> (old(entries)[slot].inUse <==> Overwrites(old(entries), c.slotReads))
      ensures NothingElseFails(c, |entries|, |freeMap|) ==>
        (ok <==> (CanList(old(entries), name, c.slotReads) && FitsFile(old(freeMap), size)))
      ensures NothingFails(c, |entries|, |freeMap|) && old(diskMap) == old(freeMap) ==> diskMap == freeMap
      ensures LiveUntouched(old(inodes), inodes, old(entries), open)
      ensures UsedKept(old(freeMap), old(data), data) && (ok ==> IsBlank(data, inodes[sector]))
    {
      ok, slot, sector := false, 0, 0;
      ghost var was, wasOwner := freeMap, owner;
      var r := FreeMapAllocate(1, c.written, None);
      if r.Some? || c.written >= |freeMap| {
        FitsAfterFirst(was, size, r);
      }
      if r.Some? {
        FreshIsDead(was, wasOwner, inodes, entries, open, r.value);
        sector := r.value;
        ok, slot := AddFile(name, size, r.value, c);
        UsedKeptBefore(was, r.value, old(data), data);
        if !ok && r.value != 0 {
          ghost var taken := freeMap;
          FreeMapRelease(r.value, 1, c.written3, r.value);
          GivenBack(was, taken, r.value, InodeIO.BytesToSectors(size));
        }
      }
    }

    /** Creates a file of `size` bytes. With every allocation and write going well it succeeds exactly when the name
        is valid and new, the directory has a free slot, and there is room on the disk. If it fails although there is
        room, the sectors meant for the data stay marked: the code gives back the inode sector only. */
    method Create(name: string, size: nat, c: Luck) returns (ok: bool, ghost slot: nat, ghost sector: nat)
      requires Valid()
      modifies this
      ensures Valid() && open == old(open)
      ensures if ok then Created(name, size, slot, sector, old(entries), entries, old(freeMap), freeMap, inodes)
        else entries == old(entries) && NoneOrLost(old(freeMap), freeMap, InodeIO.BytesToSectors(size))
      ensures NothingElseFails(c, |entries|, |freeMap|) && !ok ==>
        (freeMap == old(freeMap) <==> InodeIO.BytesToSectors(size) == 0 || !FitsFile(old(freeMap), size))
      ensures ok ==> IsSlot(old(entries), c.slotReads, slot)
      ensures ok ==> (old(entries)[slot].inUse <==> Overwrites(old(entries), c.slotReads))
      ensures NothingElseFails(c, |entries|, |freeMap|) ==>
        (ok <==> (CanList(old(entries), name, c.slotReads) && FitsFile(old(freeMap), size)))
      ensures NothingFails(c, |entries|, |freeMap|) && old(diskMap) == old(freeMap) ==> diskMap == freeMap
      ensures LiveUntouched(old(inodes), inodes, old(entries), open)
      ensures UsedKept(old(freeMap), old(data), data) && (ok ==> IsBlank(data, inodes[sector]))
    {
      var dir := DirOpenRoot(c.openOk, c.dirOk);
      ok, slot, sector := false, 0, 0;
      if dir {
        LiveThroughOpen(old(inodes), entries, old(open));
        CloseUndoesOpen(inodes, old(open), ROOT_DIR_SECTOR, inodes[ROOT_DIR_SECTOR]);
        ok, slot, sector := Populate(name, size, c);
        DirClose();
      }
    }

    /** Finds the file under `name` and opens its inode. */
    method DirLookup(name: string, c: Luck) returns (r: Option<nat>)
      requires Valid()
      modifies this`open
      ensures Valid()
      ensures r.Some? ==> ListedAs(entries, name, r.value)
      ensures OpenedAs(old(open), open, r, inodes)
      ensures c.lookupReads >= |entries| && c.inodeOk ==> (r.Some? <==> HasName(entries, name))
    {
      r := None;
      var k := Lookup(name, c.lookupReads);
      if k.Some? {
        var e := entries[k.value];
        assert Matches(e, name) && Listed(entries, e.sector);
        var gotInode := InodeOpen(e.sector, c.inodeOk);
        r := if gotInode then Some(e.sector) else None;
      }
    }

    /** Opens the inode listed under `name`, with the root directory open for a moment. */
    method OpenThroughRoot(name: string, c: Luck) returns (r: Option<nat>)
      requires Valid()
      modifies this`open, this`freeMap, this`diskMap, this`owner
      ensures Valid() && freeMap == old(freeMap) && diskMap == old(diskMap)
      ensures r.Some? ==> ListedAs(entries, name, r.value)
      ensures OpenedAs(old(open), open, r, inodes)
      ensures NothingFails(c, |entries|, 0) ==> (r.Some? <==> HasName(entries, name))
    {
      r := None;
      var dir := DirOpenRoot(c.openOk, c.dirOk);
      if dir {
        ghost var d := inodes[ROOT_DIR_SECTOR];
        r := DirLookup(name, c);
        OpenedUnderRoot(inodes, old(open), open, d, r);
        DirClose();
      }
    }

    /** Opens the file under `name`. */
    method Open(name: string, c: Luck) returns (r: Option<nat>)
      requires Valid()
      modifies this`open, this`freeMap, this`diskMap, this`owner
      ensures Valid() && freeMap == old(freeMap) && diskMap == old(diskMap)
      ensures r.Some? ==> ListedAs(entries, name, r.value)
      ensures OpenedAs(old(open), open, r, inodes)
      ensures NothingFails(c, |entries|, 0) ==> (r.Some? <==> HasName(entries, name))
    {
      r := OpenThroughRoot(name, c);
      if r.Some? && !c.fileOk {
        ListedAsListed(entries, name, r.value);
        CloseAgain(r.value, old(open));
        r := None;
      }
    }

    method Remove(name: string, c: Luck) returns (ok: bool, ghost slot: nat)
      requires Valid()
      modifies this
      ensures Valid() && inodes == old(inodes)
      ensures if ok
        then Unlisted(name, slot, old(entries), entries, old(open), open, old(freeMap), freeMap, inodes)
        else entries == old(entries) && open == old(open) && freeMap == old(freeMap)
      ensures NothingFails(c, |entries|, 0) ==> (ok <==> HasName(old(entries), name))
      ensures NothingFails(c, |entries|, |freeMap|) && old(diskMap) == old(freeMap) ==> diskMap == freeMap
    {
      ok, slot := false, 0;
      var dir := DirOpenRoot(c.openOk, c.dirOk);
      if dir {
        ghost var d := inodes[ROOT_DIR_SECTOR];
        CloseUndoesOpen(inodes, old(open), ROOT_DIR_SECTOR, d);
        ok, slot := DirRemove(name, c);
        if ok {
          UnlistedUnderRoot(name, slot, old(entries), entries, old(open), open, old(freeMap), freeMap, inodes, d);
        }
        DirClose();
      }
    }

    /** Closes one opening of a file. */
    method Close(sector: nat, written: nat, written2: nat)
      requires Valid() && IsOpen(open, sector)
      modifies this
      ensures Valid() && entries == old(entries) && inodes == old(inodes)
      ensures IndexOf(old(open), sector) < |old(open)| && sector in inodes
      ensures open == AfterClose(old(open), sector)
      ensures var was := old(open)[IndexOf(old(open), sector)];
        if was.openCnt == 1 && was.removed then Freed(old(freeMap), freeMap, sector, inodes[sector])
        else freeMap == old(freeMap)
      ensures written >= |freeMap| && written2 >= |freeMap| && old(diskMap) == old(freeMap) ==> diskMap == freeMap
    {
      InodeClose(sector, written, written2);
    }
  }

  // ---------------------------------------------------------------- listing a directory

  /** The names in use from slot `i` on, in order. */
  function NamesFrom(entries: seq<Entry>, i: nat): seq<string>
    requires i <= |entries|
    decreases |entries| - i
  {
    if i == |entries| then []
    else (if entries[i].inUse then [entries[i].name] else []) + NamesFrom(entries, i + 1)
  }

  ghost predicate HasNameFrom(entries: seq<Entry>, i: nat, name: string) {
    exists k :: i <= k < |entries| && Matches(entries[k], name)
  }

  lemma HasNameNext(entries: seq<Entry>, i: nat, name: string)
    requires i < |entries|
    ensures HasNameFrom(entries, i, name) <==> Matches(entries[i], name) || HasNameFrom(entries, i + 1, name)
  {
  }

  /** Every name in use is given, and no other. */
  lemma {:induction false} NamesAreListed(entries: seq<Entry>, i: nat, name: string)
    requires i <= |entries|
    ensures name in NamesFrom(entries, i) <==> HasNameFrom(entries, i, name)
    decreases |entries| - i
  {
    if i < |entries| {
      HasNameNext(entries, i, name);
      NamesAreListed(entries, i + 1, name);
      var first: seq<string> := if entries[i].inUse then [entries[i].name] else [];
      InConcat(first, NamesFrom(entries, i + 1), name);
    }
  }

  lemma InConcat(a: seq<string>, b: seq<string>, name: string)
    ensures name in a + b <==> name in a || name in b
  {
  }

  /** How many of the first `k` slots are in use. */
  function InUseBefore(entries: seq<Entry>, k: nat): nat
    requires k <= |entries|
  {
    if k == 0 then 0 else InUseBefore(entries, k - 1) + if entries[k - 1].inUse then 1 else 0
  }

  /** Each name stands where its slot is among those in use, and there are no others. */
  lemma {:induction false} NamesAreInOrder(entries: seq<Entry>, i: nat, k: nat)
    requires i <= k <= |entries|
    ensures i + |NamesFrom(entries, i)| <= |entries| && InUseBefore(entries, i) <= InUseBefore(entries, k)
    ensures |NamesFrom(entries, i)| == InUseBefore(entries, |entries|) - InUseBefore(entries, i)
    ensures k < |entries| && entries[k].inUse ==>
      InUseBefore(entries, k) - InUseBefore(entries, i) < |NamesFrom(entries, i)| &&
      NamesFrom(entries, i)[InUseBefore(entries, k) - InUseBefore(entries, i)] == entries[k].name
    decreases |entries| - i
  {
    if i < |entries| {
      NamesAreInOrder(entries, i + 1, if k == i then i + 1 else k);
    }
  }

  /** An open directory; `pos` counts slots. */
  class Dir {
    var pos: nat

    constructor ()
      ensures pos == 0
    {
      pos := 0;
    }

    /** The next name. Calls one after another give exactly the names in use, each once and in order, and then none. */
    method ReadDir(fs: FileSystem, readable: nat) returns (r: Option<string>)
      requires pos <= |fs.entries|
      modifies this
      ensures old(pos) <= pos <= |fs.entries|
      ensures NamesFrom(fs.entries, old(pos)) == (if r.Some? then [r.value] else []) + NamesFrom(fs.entries, pos)
      ensures r.None? && readable >= |fs.entries| ==> NamesFrom(fs.entries, old(pos)) == []
    {
      while pos < |fs.entries| && pos < readable
        invariant old(pos) <= pos <= |fs.entries|
        invariant NamesFrom(fs.entries, old(pos)) == NamesFrom(fs.entries, pos)
        decreases |fs.entries| - pos
      {
        var e := fs.entries[pos];
        pos := pos + 1;
        if e.inUse {
          return Some(e.name);
        }
      }
      r := None;
    }
  }

  // ---------------------------------------------------------------- what failures leave behind

  const ALL_WELL := Luck(true, true, true, true, ROOT_ENTRIES, ROOT_ENTRIES, true, 64, 64, 64)

  lemma FirstFree(m: seq<bool>, i: nat) returns (y: nat)
    requires i < |m| && !m[i]
    ensures y <= i && IsFirstRun(m, 1, false, Some(y))
  {
    y := 0;
    while m[y]
      invariant y <= i && forall j :: 0 <= j < y ==> m[j]
      decreases i - y
    {
      y := y + 1;
    }
    assert AllAre(m, y, 1, false);
    forall j | 0 <= j < y ensures !AllAre(m, j, 1, false) {
      assert m[j];
    }
  }

  /** Two free sectors are room for a file of up to one sector. */
  lemma TwoFreeFit(m: seq<bool>, i: nat, j: nat, size: nat)
    requires i < j < |m| && !m[i] && !m[j] && size <= InodeIO.SECTOR_SIZE
    ensures FitsFile(m, size)
  {
    var y := FirstFree(m, i);
    var m' := SetMultiple(m, y, 1, true);
    assert AllAre(m', j, 1, false) && AllAre(m', j, 0, false);
    assert InodeIO.BytesToSectors(size) <= 1;
    assert Fits(m', InodeIO.BytesToSectors(size));
  }

  /** A formatted disk with one empty file, listed in the first slot, and room for more. */
  method SmallDisk(name: string) returns (fs: FileSystem)
    requires ValidName(name)
    ensures fresh(fs) && fs.Valid() && |fs.freeMap| == 64
    ensures |fs.entries| == ROOT_ENTRIES && Matches(fs.entries[0], name)
    ensures forall k :: 0 < k < ROOT_ENTRIES ==> !fs.entries[k].inUse
    ensures FitsFile(fs.freeMap, 0) && FitsFile(fs.freeMap, 512)
  {
    fs := new FileSystem(64, seq(64, _ => Zeros()));
    assert !fs.freeMap[4] && !fs.freeMap[5] && !fs.freeMap[6];
    TwoFreeFit(fs.freeMap, 4, 5, 0);
    assert !fs.entries[0].inUse && HasFreeSlot(fs.entries);
    var ok, slot, x := fs.Create(name, 0, ALL_WELL);
    assert ok && slot == 0;
    ghost var i, j := if x == 4 then 5 else 4, if x == 6 then 5 else 6;
    assert !fs.freeMap[i] && !fs.freeMap[j];
    TwoFreeFit(fs.freeMap, i, j, 0);
    TwoFreeFit(fs.freeMap, i, j, 512);
  }

  /** With no slot readable a second file is listed over the first, which is gone. */
  method EntryLost() returns (fs: FileSystem)
    ensures fresh(fs) && fs.Valid() && HasName(fs.entries, "b") && !HasName(fs.entries, "a")
  {
    fs := SmallDisk("a");
    assert "a"[0] != "b"[0];
    var ok, slot, x := fs.Create("b", 0, ALL_WELL.(slotReads := 0));
    assert ok && slot == 0 && Matches(fs.entries[0], "b");
  }

  /** A second file of the same name is refused, and a sector is used up for it. */
  method SectorLost() returns (fs: FileSystem, ghost was: seq<bool>)
    ensures fresh(fs) && fs.Valid() && Lost(was, fs.freeMap, 1) && fs.freeMap != was
  {
    fs := SmallDisk("a");
    was := fs.freeMap;
    assert HasName(fs.entries, "a") && InodeIO.BytesToSectors(512) == 1;
    var ok, slot, x := fs.Create("a", 512, ALL_WELL);
    LostChanges(was, fs.freeMap, 1);
  }

  /** A release none of whose write lands leaves the copy on disk behind. */
  method CopyLeftBehind() returns (fs: FileSystem)
    ensures fresh(fs) && fs.Valid() && fs.diskMap != fs.freeMap
  {
    fs := new FileSystem(64, seq(64, _ => Zeros()));
    assert AllAre(fs.freeMap, 4, 1, false);
    ghost var was, wasOwner := fs.freeMap, fs.owner;
    var r := fs.FreeMapAllocate(1, 64, None);
    FirstRunAt(was, 1, false, r, 4);
    FreshIsDead(was, wasOwner, fs.inodes, fs.entries, fs.open, 4);
    ghost var used := fs.freeMap;
    fs.FreeMapRelease(4, 1, 0, 4);
    CopyAfterRelease(used, 4, 1, 0);
  }

  /** And an allocation whose write stops just after the run leaves it ahead. */
  method CopyLeftAhead() returns (fs: FileSystem)
    ensures fresh(fs) && fs.Valid() && fs.diskMap != fs.freeMap
  {
    fs := new FileSystem(64, seq(64, _ => Zeros()));
    assert AllAre(fs.freeMap, 4, 1, false);
    ghost var was := fs.freeMap;
    var r := fs.FreeMapAllocate(1, 5, None);
    ghost var first: nat :| IsFirstRun(was, 1, false, Some(first))
      && fs.diskMap == Landed(SetMultiple(was, first, 1, true), was, 5);
    FirstRunAt(was, 1, false, Some(first), 4);
    CopyAfterFailedAllocation(was, 4, 1, 5);
  }
}
