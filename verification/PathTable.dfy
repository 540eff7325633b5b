/** The path tables (section 9.4 of ECMA-119; directory_entry.rs:194-208 and 256-346): one record a
    directory, in an order that must agree with the numbers handed out by the layout pass. */
module PathTable {
  import opened Bytes
  import opened Image
  import opened Reading
  import opened DirectoryTree
  import opened Layout

  // ---------------------------------------------------------------- the order of the records

  /** What `write_path_table_childs` visits after the children themselves: for each of them its own
      children, then what is deeper. */
  function Deeper(ds: seq<Dir>): seq<Dir>
    decreases ds
  {
    if ds == [] then [] else ds[0].dirs + Deeper(ds[0].dirs) + Deeper(ds[1..])
  }

  /** All directories but the root, and with it, in the order of the records. */
  function Others(root: Dir): seq<Dir> {
    root.dirs + Deeper(root.dirs)
  }

  function AllDirs(root: Dir): seq<Dir> {
    [root] + Others(root)
  }

  /** All directories of a forest, each before what is below it. */
  function Nodes(ds: seq<Dir>): seq<Dir>
    decreases ds
  {
    if ds == [] then [] else [ds[0]] + Nodes(ds[0].dirs) + Nodes(ds[1..])
  }

  /** The traversal visits every directory exactly once. */
  lemma {:induction false} TraversalIsComplete(ds: seq<Dir>)
    ensures multiset(ds + Deeper(ds)) == multiset(Nodes(ds))
    decreases ds
  {
    if ds != [] {
      TraversalIsComplete(ds[0].dirs);
      TraversalIsComplete(ds[1..]);
      assert ds == [ds[0]] + ds[1..];
      assert multiset(ds) == multiset([ds[0]]) + multiset(ds[1..]);
    }
  }

  /** In a laid-out forest siblings are numbered in order, and the k-th directory visited below them has the
      k-th number after the last one handed out. */
  lemma {:induction false} TraversalFollowsNumbers(ds: seq<Dir>, first: nat, parent: nat, lastIndex: nat, lba: nat)
    requires Laid(ds, first, parent, lastIndex, lba)
    ensures forall i :: 0 <= i < |ds| ==> ds[i].index == first + i && ds[i].parentIndex == parent
    ensures |Deeper(ds)| == Below(ds)
    ensures forall k :: 0 <= k < |Deeper(ds)| ==> Deeper(ds)[k].index == lastIndex + 1 + k
    decreases ds
  {
    hide ExtentBlocks, ForestBlocks;
    if ds != [] {
      var d := ds[0];
      TraversalFollowsNumbers(d.dirs, lastIndex + 1, first, lastIndex + |d.dirs|, lba + ExtentBlocks(d));
      TraversalFollowsNumbers(ds[1..], first + 1, parent, lastIndex + |d.dirs| + Below(d.dirs),
                              lba + ExtentBlocks(d) + ForestBlocks(d.dirs));
      forall i | 0 < i < |ds|
        ensures ds[i].index == first + i && ds[i].parentIndex == parent
      {
        assert ds[i] == ds[1..][i - 1];
      }
    }
  }

  /** The directory visited is a child of the one whose number it carries. */
  ghost predicate HasParent(c: Dir, ds: seq<Dir>) {
    exists p :: p in ds && c in p.dirs && p.index == c.parentIndex
  }

  lemma {:induction false} TraversalHasParents(ds: seq<Dir>, first: nat, parent: nat, lastIndex: nat, lba: nat)
    requires Laid(ds, first, parent, lastIndex, lba)
    ensures forall c :: c in Deeper(ds) ==> HasParent(c, ds + Deeper(ds))
    decreases ds
  {
    hide ExtentBlocks, ForestBlocks;
    if ds != [] {
      var d := ds[0];
      TraversalFollowsNumbers(d.dirs, lastIndex + 1, first, lastIndex + |d.dirs|, lba + ExtentBlocks(d));
      TraversalHasParents(d.dirs, lastIndex + 1, first, lastIndex + |d.dirs|, lba + ExtentBlocks(d));
      TraversalHasParents(ds[1..], first + 1, parent, lastIndex + |d.dirs| + Below(d.dirs),
                          lba + ExtentBlocks(d) + ForestBlocks(d.dirs));
      forall c | c in Deeper(ds)
        ensures HasParent(c, ds + Deeper(ds))
      {
        if c in d.dirs {
          assert d in ds + Deeper(ds);
        } else if c in Deeper(d.dirs) {
          var p :| p in d.dirs + Deeper(d.dirs) && c in p.dirs && p.index == c.parentIndex;
          assert p in ds + Deeper(ds);
        } else {
          var p :| p in ds[1..] + Deeper(ds[1..]) && c in p.dirs && p.index == c.parentIndex;
          assert p in ds + Deeper(ds);
        }
      }
    }
  }

  lemma DeeperUnfolds(ds: seq<Dir>)
    ensures Deeper(ds) == if ds == [] then [] else ds[0].dirs + Deeper(ds[0].dirs) + Deeper(ds[1..])
  {
  }

  /** A directory is numbered before its children. */
  lemma {:induction false} ParentBeforeChild(ds: seq<Dir>, first: nat, parent: nat, lastIndex: nat, lba: nat, p: Dir,
                                             c: Dir)
    requires Laid(ds, first, parent, lastIndex, lba) && p in ds + Deeper(ds) && c in p.dirs
    requires first + |ds| <= lastIndex + 1
    ensures p.index < c.index
    decreases ds
  {
    hide ExtentBlocks, ForestBlocks, Below, Deeper, Laid;
    DeeperUnfolds(ds);
    if ds != [] {
      var d := ds[0];
      LaidStep(ds, first, parent, lastIndex, lba);
      TraversalFollowsNumbers(d.dirs, lastIndex + 1, first, lastIndex + |d.dirs|, lba + ExtentBlocks(d));
      if p == d {
      } else if p in d.dirs + Deeper(d.dirs) {
        ParentBeforeChild(d.dirs, lastIndex + 1, first, lastIndex + |d.dirs|, lba + ExtentBlocks(d), p, c);
      } else {
        ParentBeforeChild(ds[1..], first + 1, parent, lastIndex + |d.dirs| + Below(d.dirs),
                          lba + ExtentBlocks(d) + ForestBlocks(d.dirs), p, c);
      }
    }
  }

  /** The n-th directory has number n, the root is its own parent, and the parent number of every other directory is
      smaller than its own and names the directory it is in. */
  ghost predicate InOrder(all: seq<Dir>) {
    && (forall n :: 0 <= n < |all| ==> all[n].index == n + 1)
    && (all != [] ==> all[0].parentIndex == 1)
    && (forall n :: 1 <= n < |all| ==> ParentInOrder(all, n))
  }

  ghost predicate ParentInOrder(all: seq<Dir>, n: nat)
    requires n < |all|
  {
    var p := all[n].parentIndex;
    1 <= p <= n && all[n] in all[p - 1].dirs
  }

  /** The records of the path table are in the order of the numbers. */
  lemma PathTableOrder(root: Dir, lba: nat)
    requires RootLaid(root, lba)
    ensures InOrder(AllDirs(root))
  {
    hide ExtentBlocks, Deeper, Laid;
    var all := AllDirs(root);
    TraversalFollowsNumbers(root.dirs, 2, 1, 1 + |root.dirs|, lba + ExtentBlocks(root) + 1);
    assert forall n :: 0 <= n < |all| ==> all[n].index == n + 1;
    forall n | 1 <= n < |all|
      ensures ParentInOrder(all, n)
    {
      if n <= |root.dirs| {
        assert all[n] == root.dirs[n - 1];
      } else {
        assert all[n] == Deeper(root.dirs)[n - 1 - |root.dirs|];
        DeepParentInOrder(root, lba, all[n], n);
      }
    }
  }

  lemma DeepParentInOrder(root: Dir, lba: nat, c: Dir, n: nat)
    requires RootLaid(root, lba) && c in Deeper(root.dirs)
    requires n < |AllDirs(root)| && AllDirs(root)[n] == c
    requires forall k :: 0 <= k < |AllDirs(root)| ==> AllDirs(root)[k].index == k + 1
    ensures ParentInOrder(AllDirs(root), n)
  {
    hide ExtentBlocks, Deeper, Laid;
    var start := lba + ExtentBlocks(root) + 1;
    TraversalHasParents(root.dirs, 2, 1, 1 + |root.dirs|, start);
    assert HasParent(c, Others(root));
    var p :| p in Others(root) && c in p.dirs && p.index == c.parentIndex;
    ParentBeforeChild(root.dirs, 2, 1, 1 + |root.dirs|, start, p, c);
    var j :| 0 <= j < |Others(root)| && Others(root)[j] == p;
    assert AllDirs(root)[j + 1] == p;
  }

  // ---------------------------------------------------------------- the order the standard asks for

  /** The levels of the directories visited below a forest at level `level`, in the order of the visit. */
  function Levels(ds: seq<Dir>, level: nat): (levels: seq<nat>)
    ensures |levels| == |Deeper(ds)|
    decreases ds
  {
    if ds == [] then []
    else seq(|ds[0].dirs|, _ => level + 1) + Levels(ds[0].dirs, level + 1) + Levels(ds[1..], level)
  }

  ghost predicate Ascending(levels: seq<nat>) {
    forall i, j :: 0 <= i < j < |levels| ==> levels[i] <= levels[j]
  }

  /** Behind a directory with grandchildren, no sibling has children, and so on below. */
  ghost predicate Staged(ds: seq<Dir>)
    decreases ds
  {
    ds == [] ||
    (&& Staged(ds[0].dirs) && Staged(ds[1..])
     && (Deeper(ds[0].dirs) == [] || Deeper(ds[1..]) == []))
  }

  lemma {:induction false} LevelsAreDeeper(ds: seq<Dir>, level: nat)
    ensures forall i :: 0 <= i < |Levels(ds, level)| ==> Levels(ds, level)[i] > level
    ensures Levels(ds, level) != [] ==> Levels(ds, level)[0] == level + 1
    decreases ds
  {
    hide Levels, Deeper, Staged;
    LevelsStep(ds, level);
    if ds != [] {
      LevelsAreDeeper(ds[0].dirs, level + 1);
      LevelsAreDeeper(ds[1..], level);
      LevelsStep(ds[0].dirs, level + 1);
    }
  }

  lemma AscendingParts(a: seq<nat>, b: seq<nat>, c: seq<nat>, level: nat)
    requires forall i :: 0 <= i < |a| ==> a[i] == level + 1
    requires forall i :: 0 <= i < |b| ==> b[i] > level + 1
    requires forall i :: 0 <= i < |c| ==> c[i] > level
    requires c != [] ==> c[0] == level + 1
    ensures Ascending(a + b + c) <==> Ascending(b) && Ascending(c) && (b == [] || c == [])
  {
    var all := a + b + c;
    if Ascending(all) {
      forall i, j | 0 <= i < j < |b|
        ensures b[i] <= b[j]
      {
        assert all[|a| + i] == b[i] && all[|a| + j] == b[j];
      }
      forall i, j | 0 <= i < j < |c|
        ensures c[i] <= c[j]
      {
        assert all[|a| + |b| + i] == c[i] && all[|a| + |b| + j] == c[j];
      }
    }
    if b != [] && c != [] {
      BackUp(a, b, c);
    }
  }

  lemma BackUp(a: seq<nat>, b: seq<nat>, c: seq<nat>)
    requires b != [] && c != [] && b[0] > c[0]
    ensures !Ascending(a + b + c)
  {
    var all := a + b + c;
    assert all[|a|] == b[0];
    assert all[|a| + |b|] == c[0];
  }

  /** Section 6.9.1 asks for the records by ascending level. They are exactly in trees where no directory
      stands behind a sibling with grandchildren and has children itself. */
  lemma {:induction false} ByLevelExactlyWhenStaged(ds: seq<Dir>, level: nat)
    ensures Ascending(Levels(ds, level)) <==> Staged(ds)
    decreases ds
  {
    hide Ascending, Levels, Staged, Deeper;
    LevelsStep(ds, level);
    if ds == [] {
      NothingAscends(Levels(ds, level));
    } else {
      ByLevelExactlyWhenStaged(ds[0].dirs, level + 1);
      ByLevelExactlyWhenStaged(ds[1..], level);
      LevelsAreDeeper(ds[0].dirs, level + 1);
      LevelsAreDeeper(ds[1..], level);
      AscendingParts(seq(|ds[0].dirs|, _ => level + 1), Levels(ds[0].dirs, level + 1), Levels(ds[1..], level), level);
    }
  }

  lemma LevelsStep(ds: seq<Dir>, level: nat)
    ensures ds == [] ==> Levels(ds, level) == [] && Staged(ds)
    ensures ds != [] ==>
      && Levels(ds, level) == seq(|ds[0].dirs|, _ => level + 1) + Levels(ds[0].dirs, level + 1) + Levels(ds[1..], level)
      && (Staged(ds) <==> Staged(ds[0].dirs) && Staged(ds[1..]) && (Deeper(ds[0].dirs) == [] || Deeper(ds[1..]) == []))
  {
  }

  lemma NothingAscends(levels: seq<nat>)
    requires levels == []
    ensures Ascending(levels)
  {
  }

  /** Two children of the root, the first with a grandchild, the second with a child: the grandchild's record
      comes before the child's. */
  lemma LevelOrderFails(name: Name)
    ensures
      var leaf := EmptyDir(name);
      var deep := leaf.(dirs := [leaf.(dirs := [leaf])]);
      var shallow := leaf.(dirs := [leaf]);
      !Ascending(Levels([deep, shallow], 2))
  {
    var leaf := EmptyDir(name);
    var middle := leaf.(dirs := [leaf]);
    var deep := leaf.(dirs := [middle]);
    assert [deep, middle][1..] == [middle] && [middle][1..] == [] && [leaf][1..] == [];
    assert Deeper([leaf]) == [];
    assert Deeper([middle]) == [leaf] + Deeper([leaf]) + Deeper([]);
    assert !Staged([deep, middle]);
    ByLevelExactlyWhenStaged([deep, middle], 2);
  }

  // ---------------------------------------------------------------- the bytes

  function TableRecord(d: Dir, order: Order, isRoot: bool): (bytes: seq<byte>)
    ensures var id := TableIdentifier(d, isRoot); |bytes| == 8 + |id| + |id| % 2
  {
    var id := TableIdentifier(d, isRoot);
    [U8(|id|), 0] + Ordered32(order, d.lba) + Ordered16(order, U16(d.parentIndex)) + id + Zeros(|id| % 2)
  }

  function TableIdentifier(d: Dir, isRoot: bool): (id: seq<byte>)
    ensures |id| <= 12
  {
    if isRoot then [0] else ConvertName(d.name)
  }

  function TableBytes(ds: seq<Dir>, order: Order): seq<byte> {
    if ds == [] then [] else TableRecord(ds[0], order, false) + TableBytes(ds[1..], order)
  }

  function WholeTable(root: Dir, order: Order): seq<byte> {
    TableRecord(root, order, true) + TableBytes(Others(root), order)
  }

  lemma {:induction false} TableBytesSplit(a: seq<Dir>, b: seq<Dir>, order: Order)
    ensures TableBytes(a + b, order) == TableBytes(a, order) + TableBytes(b, order)
  {
    if a == [] {
      assert a + b == b;
    } else {
      assert (a + b)[1..] == a[1..] + b;
      TableBytesSplit(a[1..], b, order);
    }
  }

  // ---------------------------------------------------------------- get_path_table_size

  /** The size added up for a forest; a directory with index 1 counts as the root. */
  function SizeOfForest(ds: seq<Dir>): nat
    decreases ds
  {
    if ds == [] then 0
    else
      EntrySize(0x8, ds[0].name, if ds[0].index == 1 then 5 else 6, 0) + SizeOfForest(ds[0].dirs)
      + SizeOfForest(ds[1..])
  }

  function PathTableSize(root: Dir): nat {
    EntrySize(0x8, root.name, if root.index == 1 then 5 else 6, 0) + SizeOfForest(root.dirs)
  }

  lemma TableRecordSize(d: Dir, order: Order)
    ensures |TableRecord(d, order, d.index == 1)| == EntrySize(0x8, d.name, if d.index == 1 then 5 else 6, 0)
  {
  }

  lemma {:induction false} ForestTableSize(ds: seq<Dir>, order: Order)
    requires forall d :: d in ds || d in Deeper(ds) ==> d.index != 1
    ensures |TableBytes(ds, order)| + |TableBytes(Deeper(ds), order)| == SizeOfForest(ds)
    decreases ds
  {
    hide TableRecord, EntrySize;
    if ds != [] {
      var d := ds[0];
      TableRecordSize(d, order);
      ForestTableSize(d.dirs, order);
      ForestTableSize(ds[1..], order);
      TableBytesSplit(d.dirs + Deeper(d.dirs), Deeper(ds[1..]), order);
      TableBytesSplit(d.dirs, Deeper(d.dirs), order);
    }
  }

  /** When only the root has index 1, the computed size is the size of the table. */
  lemma PathTableSizeIsExact(root: Dir, order: Order)
    requires root.index == 1 && forall d :: d in Others(root) ==> d.index != 1
    ensures |WholeTable(root, order)| == PathTableSize(root)
  {
    hide TableRecord, EntrySize;
    TableRecordSize(root, order);
    ForestTableSize(root.dirs, order);
    TableBytesSplit(root.dirs, Deeper(root.dirs), order);
  }

  // ---------------------------------------------------------------- writing

  method WriteTableRecord(w: Writer, d: Dir, order: Order, isRoot: bool)
    requires w.Valid()
    modifies w
    ensures w.Wrote(TableRecord(d, order, isRoot))
  {
    w.Mark();
    var id := TableIdentifier(d, isRoot);
    w.WriteU8(U8(|id|));
    w.WriteU8(0);
    assert w.run == [U8(|id|), 0];
    w.WriteU32(order, d.lba);
    w.WriteU16(order, U16(d.parentIndex));
    w.WriteAll(id);
    ghost var body := w.run;
    if |id| % 2 != 0 {
      w.WriteU8(0);
    }
    assert w.run == body + Zeros(|id| % 2);
  }

  lemma TableBytesStep(ds: seq<Dir>, k: nat, order: Order)
    requires k < |ds|
    ensures TableBytes(ds[k..], order) == TableRecord(ds[k], order, false) + TableBytes(ds[k + 1..], order)
  {
    hide TableRecord;
    assert ds[k..][1..] == ds[k + 1..];
  }

  lemma DeeperStep(ds: seq<Dir>, k: nat)
    requires k < |ds|
    ensures Deeper(ds[k..]) == ds[k].dirs + Deeper(ds[k].dirs) + Deeper(ds[k + 1..])
  {
    assert ds[k..][1..] == ds[k + 1..];
  }

  /** `write_path_table_childs`: the children's records, then theirs below them. */
  method WriteTableChilds(w: Writer, d: Dir, order: Order)
    requires w.Valid()
    modifies w
    ensures w.Wrote(TableBytes(d.dirs + Deeper(d.dirs), order))
    decreases d
  {
    hide TableRecord, TableBytes, Deeper, Overwrite, At;
    ghost var before, start := w.data, w.pos;
    ghost var done: seq<byte> := [];
    EmptyTable(order);
    assert d.dirs[0..] == d.dirs;
    for k := 0 to |d.dirs|
      invariant w.Valid() && w.data == Overwrite(before, start, done) && w.pos == start + |done|
      invariant done + TableBytes(d.dirs[k..], order) == TableBytes(d.dirs, order)
    {
      WriteTableRecord(w, d.dirs[k], order, false);
      TableBytesStep(d.dirs, k, order);
      OverwriteTwice(before, start, done, TableRecord(d.dirs[k], order, false));
      done := done + TableRecord(d.dirs[k], order, false);
    }
    assert d.dirs[|d.dirs|..] == [];
    assert done == TableBytes(d.dirs, order);
    TableBytesSplit(d.dirs, Deeper(d.dirs), order);
    ghost var total := TableBytes(d.dirs + Deeper(d.dirs), order);
    for k := 0 to |d.dirs|
      invariant w.Valid() && w.data == Overwrite(before, start, done) && w.pos == start + |done|
      invariant done + TableBytes(Deeper(d.dirs[k..]), order) == total
    {
      ghost var branch := TableBytes(d.dirs[k].dirs + Deeper(d.dirs[k].dirs), order);
      ghost var rest := TableBytes(Deeper(d.dirs[k + 1..]), order);
      WriteTableChilds(w, d.dirs[k], order);
      DeeperStep(d.dirs, k);
      TableBytesSplit(d.dirs[k].dirs + Deeper(d.dirs[k].dirs), Deeper(d.dirs[k + 1..]), order);
      OverwriteTwice(before, start, done, branch);
      assert done + (branch + rest) == done + branch + rest;
      done := done + branch;
    }
    assert done == total;
  }

  lemma EmptyTable(order: Order)
    ensures TableBytes([], order) == [] && Deeper([]) == []
  {
  }

  /** `write_path_table`. The assertion is the source's own. */
  method WritePathTable(w: Writer, root: Dir, order: Order, block: nat)
    requires w.Valid() && block * 2048 < 0x1_0000_0000
    requires root.index == 1 && forall d :: d in Others(root) ==> d.index != 1
    modifies w
    ensures w.Valid() && w.pos == old(w.pos)
    ensures w.data == Overwrite(old(w.data), block * 2048,
                                WholeTable(root, order) + Padding(block * 2048 + |WholeTable(root, order)|))
  {
    hide TableRecord, Overwrite, At, TableBytes, Others, Padding, PathTableSize;
    var oldPos := w.pos;
    w.SeekTo(U32(block * 2048));
    var tableStart := w.pos;
    WriteTableRecord(w, root, order, true);
    WriteTableChilds(w, root, order);
    OverwriteTwice(old(w.data), tableStart, TableRecord(root, order, true),
                   TableBytes(root.dirs + Deeper(root.dirs), order));
    OthersAre(root);
    PathTableSizeIsExact(root, order);
    var writtenSize := w.pos - tableStart;
    assert writtenSize == PathTableSize(root);
    PadSector(w);
    OverwriteTwice(old(w.data), tableStart, WholeTable(root, order), Padding(tableStart + writtenSize));
    w.SeekTo(oldPos);
  }

  lemma OthersAre(root: Dir)
    ensures Others(root) == root.dirs + Deeper(root.dirs)
  {
  }

  // ---------------------------------------------------------------- reading

  /** Identifier, length of the extended attributes, block, and number of the parent. */
  datatype TableEntry = TableEntry(identifier: seq<byte>, attributes: byte, location: nat, parent: nat)

  /** Section 9.4: records follow each other without gaps, an identifier of odd length is padded. */
  function ReadTable(data: seq<byte>, o: nat, end: nat, order: Order): Option<seq<TableEntry>>
    decreases if o < end then end - o else 0
  {
    if o == end then Some([])
    else
      var length := At(data, o) as nat;
      var next := o + 8 + length + length % 2;
      if next > end then None
      else
        match ReadTable(data, next, end, order)
        case None => None
        case Some(rest) => Some([ReadTableEntry(data, o, order)] + rest)
  }

  function ReadTableEntry(data: seq<byte>, o: nat, order: Order): TableEntry {
    TableEntry(ReadBytes(data, o + 8, At(data, o) as nat), At(data, o + 1), Read32(order, data, o + 2),
               Read16(order, data, o + 6))
  }

  /** The root's identifier is a zero byte; no directory has extended attributes. */
  function EntryFor(d: Dir, isRoot: bool): TableEntry {
    TableEntry(if isRoot then [0] else ConvertName(d.name), 0, U32(d.lba), U16(d.parentIndex))
  }

  function EntriesFor(ds: seq<Dir>): (entries: seq<TableEntry>)
    ensures |entries| == |ds| && forall i :: 0 <= i < |ds| ==> entries[i] == EntryFor(ds[i], false)
  {
    seq(|ds|, i requires 0 <= i < |ds| => EntryFor(ds[i], false))
  }

  lemma ReadTableRecord(data: seq<byte>, o: nat, d: Dir, order: Order, isRoot: bool)
    requires Holds(data, o, TableRecord(d, order, isRoot))
    ensures At(data, o) as nat == |TableIdentifier(d, isRoot)|
    ensures ReadTableEntry(data, o, order) == EntryFor(d, isRoot)
  {
    hide Holds, Decode32, At, Ordered16, Ordered32, Decode16, ConvertName;
    var id := TableIdentifier(d, isRoot);
    var to2: seq<byte> := [U8(|id|), 0];
    var to6 := to2 + Ordered32(order, d.lba);
    var to8 := to6 + Ordered16(order, U16(d.parentIndex));
    HoldsBoth(data, o, to8 + id, Zeros(|id| % 2));
    HoldsBoth(data, o, to8, id);
    HoldsBoth(data, o, to6, Ordered16(order, U16(d.parentIndex)));
    HoldsBoth(data, o, to2, Ordered32(order, d.lba));
    HoldsFirst(data, o, to2);
    HoldsSecond(data, o, to2);
    Read32Held(order, data, o + 2, d.lba);
    Read16Held(order, data, o + 6, U16(d.parentIndex));
    ReadBytesHeld(data, o + 8, id);
  }

  lemma ReadNothing(data: seq<byte>, o: nat, order: Order)
    ensures ReadTable(data, o, o, order) == Some([])
  {
  }

  lemma ReadTableStep(data: seq<byte>, o: nat, end: nat, order: Order)
    requires var length := At(data, o) as nat; o + 8 + length + length % 2 <= end
    ensures var length := At(data, o) as nat;
      var rest := ReadTable(data, o + 8 + length + length % 2, end, order);
      rest.Some? ==> ReadTable(data, o, end, order) == Some([ReadTableEntry(data, o, order)] + rest.value)
  {
    hide ReadTableEntry, At;
  }

  lemma HoldsSecond(data: seq<byte>, o: nat, bytes: seq<byte>)
    requires Holds(data, o, bytes) && |bytes| == 2
    ensures At(data, o + 1) == bytes[1]
  {
    var j := o + 1;
    assert At(data, j) == bytes[j - o];
  }

  lemma {:induction false} ReadTableBytes(data: seq<byte>, o: nat, ds: seq<Dir>, order: Order)
    requires Holds(data, o, TableBytes(ds, order))
    ensures ReadTable(data, o, o + |TableBytes(ds, order)|, order) == Some(EntriesFor(ds))
    decreases |ds|
  {
    hide TableRecord, ReadTableEntry, TableIdentifier, At, Holds, ReadTable, EntryFor;
    if ds == [] {
      assert EntriesFor(ds) == [];
      ReadNothing(data, o, order);
    } else {
      var next := o + |TableRecord(ds[0], order, false)|;
      HoldsBoth(data, o, TableRecord(ds[0], order, false), TableBytes(ds[1..], order));
      ReadTableRecord(data, o, ds[0], order, false);
      ReadTableBytes(data, next, ds[1..], order);
      ReadTableStep(data, o, next + |TableBytes(ds[1..], order)|, order);
      assert EntriesFor(ds) == [EntryFor(ds[0], false)] + EntriesFor(ds[1..]);
    }
  }

  /** Path-table round trip: reading `PathTableSize` bytes in the table's byte order gives the root and then
      all other directories in the order of the traversal, the same for both byte orders. */
  lemma PathTableRoundTrip(data: seq<byte>, block: nat, root: Dir, order: Order)
    requires root.index == 1 && forall d :: d in Others(root) ==> d.index != 1
    requires Holds(data, block * 2048, WholeTable(root, order))
    ensures ReadTable(data, block * 2048, block * 2048 + PathTableSize(root), order)
      == Some([EntryFor(root, true)] + EntriesFor(Others(root)))
  {
    hide TableRecord, ReadTableEntry, TableIdentifier, At, TableBytes, Others, EntriesFor, EntryFor;
    PathTableSizeIsExact(root, order);
    HoldsBoth(data, block * 2048, TableRecord(root, order, true), TableBytes(Others(root), order));
    ReadTableRecord(data, block * 2048, root, order, true);
    ReadTableBytes(data, block * 2048 + |TableRecord(root, order, true)|, Others(root), order);
  }
}
