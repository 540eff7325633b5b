/** The directory tree as the source builds and updates it: objects that own their children. The ghost field
    `tree` is the value of an object with all that is below it; every method says what it becomes. */
module DirectoryObjects {
  import opened Bytes
  import opened Packing
  import opened DirectoryTree
  import opened Layout
  import opened Merge
  import opened BootCatalog

  /** The counters that the layout passes share (`&mut u32` in the source). */
  class Counters {
    var lastIndex: nat
    var lastLba: nat

    constructor (lastIndex: nat, lastLba: nat)
      ensures this.lastIndex == lastIndex && this.lastLba == lastLba
    {
      this.lastIndex, this.lastLba := lastIndex, lastLba;
    }
  }

  class DirectoryEntry {
    var name: Name
    var index: nat
    var parentIndex: nat
    var lba: nat
    var dirs: seq<DirectoryEntry>
    var files: seq<File>
    var continuation: Option<seq<byte>>
    ghost var tree: Dir
    ghost var Repr: set<DirectoryEntry>

    ghost predicate Valid()
      reads this, Repr
      decreases Repr
      ensures Valid() ==> this in Repr
    {
      && this in Repr
      && Fields()
      && Owned()
      && forall i :: 0 <= i < |dirs| ==> dirs[i].Valid() && dirs[i].tree == tree.dirs[i]
    }

    /** The value has this object's fields. */
    ghost predicate Fields()
      reads this
    {
      && tree.name == name && tree.index == index && tree.parentIndex == parentIndex && tree.lba == lba
      && tree.files == files && tree.continuation == continuation && |tree.dirs| == |dirs|
    }

    /** Every child is a part of this object, and of no other child. */
    ghost predicate Owned()
      reads this, Repr
    {
      && (forall i :: 0 <= i < |dirs| ==> dirs[i] in Repr && dirs[i].Repr <= Repr && this !in dirs[i].Repr)
      && (forall i, j :: 0 <= i < j < |dirs| ==> dirs[i].Repr !! dirs[j].Repr)
    }

    lemma Parts()
      requires Valid()
      ensures Fields() && Owned() && this in Repr
      ensures forall i :: 0 <= i < |dirs| ==> dirs[i].Valid() && dirs[i].tree == tree.dirs[i]
    {
    }

    constructor (name: Name)
      ensures Valid() && fresh(Repr) && tree == EmptyDir(name)
    {
      this.name, index, parentIndex, lba := name, 0, 0, 0;
      dirs, files, continuation := [], [], None;
      tree, Repr := EmptyDir(name), {this};
    }

    /** The body of the estimator's two loops. */
    static method CountRecord(size: nat, res: nat, entrySize: nat) returns (size': nat, res': nat)
      ensures Tally(size', res') == Count(Tally(size, res), entrySize)
    {
      size', res' := size, res;
      var available := AlignUp(size) - size;
      if entrySize > available && available != 0 {
        size', res' := 0, res' + 1;
      }
      size' := size' + entrySize;
    }

    method GetEntrySize(kind: nat) returns (size: nat)
      requires Valid()
      ensures size == DirEntrySize(tree, kind)
    {
      size := EntrySize(0x21, name, kind, 1);
    }

    /** `get_extent_size_in_lb`: "." and "..", then a loop over the directories and one over the files. */
    method GetExtentSizeInLb() returns (res: nat)
      requires Valid()
      ensures res == ExtentBlocks(tree)
    {
      hide Estimate, DirEntrySize, FileEntrySize, Count;
      var dot := GetEntrySize(3);
      var dotdot := GetEntrySize(2);
      var size: nat;
      size, res := dot + dotdot, 1;
      EstimateStart(tree);
      ghost var sizes := ChildSizes(tree);
      for i := 0 to |dirs|
        invariant Tally(size, res) == Estimate(ROOT_DOTS, sizes, i)
      {
        EstimateNext(ROOT_DOTS, sizes, i);
        var entrySize := dirs[i].GetEntrySize(0);
        size, res := CountRecord(size, res, entrySize);
      }
      for i := 0 to |files|
        invariant Tally(size, res) == Estimate(ROOT_DOTS, sizes, |dirs| + i)
      {
        EstimateNext(ROOT_DOTS, sizes, |dirs| + i);
        size, res := CountRecord(size, res, FileEntrySize(files[i]));
      }
    }

    /** `clone`. */
    method Clone() returns (t: Dir)
      requires Valid()
      ensures t == tree
      decreases Repr
    {
      var copies: seq<Dir> := [];
      for i := 0 to |dirs|
        invariant copies == tree.dirs[..i]
      {
        var c := dirs[i].Clone();
        copies := copies + [c];
      }
      t := Dir(name, index, parentIndex, lba, copies, files, continuation);
    }

    // -------------------------------------------------------------- assign_directory_identifiers

    /** Two field assignments of the parent's loop. */
    method SetNumbers(parent: nat, number: nat)
      requires Valid()
      modifies this
      ensures Valid() && Repr == old(Repr) && dirs == old(dirs)
      ensures tree == old(tree).(parentIndex := parent, index := number)
    {
      parentIndex, index := parent, number;
      tree := tree.(parentIndex := parent, index := number);
    }

    /** `tree.parent_index = ..; tree.lba = ..` on the root, after the pass. */
    method PlaceRoot(parent: nat, block: nat)
      requires Valid()
      modifies this
      ensures Valid() && Repr == old(Repr) && tree == old(tree).(parentIndex := parent, lba := block)
    {
      parentIndex, lba := parent, block;
      tree := tree.(parentIndex := parent, lba := block);
    }

    method SetContinuation(area: seq<byte>)
      requires Valid()
      modifies this
      ensures Valid() && Repr == old(Repr) && tree == old(tree).(continuation := Some(area))
    {
      continuation := Some(area);
      tree := tree.(continuation := Some(area));
    }

    /** The children are the values `t`, and are parts of this object. */
    ghost predicate Children(t: seq<Dir>)
      reads this, Repr
    {
      && this in Repr && Owned() && |t| == |dirs|
      && forall i :: 0 <= i < |dirs| ==> dirs[i].Valid() && dirs[i].tree == t[i]
    }

    /** The children get consecutive numbers before any of them goes down into its own. */
    method NumberChildren(c: Counters)
      requires Children(tree.dirs)
      modifies Repr, c
      ensures unchanged(this) && Owned() && c.lastLba == old(c.lastLba)
      ensures c.lastIndex == old(c.lastIndex) + |dirs|
      ensures Children(NumberedForest(old(tree.dirs), index, old(c.lastIndex) + 1))
      ensures forall j :: 0 <= j < |dirs| ==> dirs[j].Repr == old(dirs[j].Repr)
    {
      hide Valid;
      for i := 0 to |dirs|
        invariant unchanged(this) && Owned() && c.lastLba == old(c.lastLba) && c.lastIndex == old(c.lastIndex) + i
        invariant forall j :: 0 <= j < |dirs| ==> dirs[j].Valid() && dirs[j].Repr == old(dirs[j].Repr)
        invariant forall j :: 0 <= j < |dirs| ==>
          dirs[j].tree ==
            if j < i then Numbered(old(tree.dirs[j]), index, old(c.lastIndex) + 1 + j) else old(tree.dirs[j])
      {
        dirs[i].SetNumbers(index, c.lastIndex + 1);
        c.lastIndex := c.lastIndex + 1;
      }
    }

    /** `assign_directory_identifiers`. */
    method AssignDirectoryIdentifiers(c: Counters)
      requires Valid()
      modifies Repr, c
      ensures Valid() && Repr == old(Repr)
      ensures (tree, c.lastIndex, c.lastLba) == AssignNode(old(tree), old(c.lastIndex), old(c.lastLba))
      decreases Repr, 2
    {
      hide Valid, ExtentBlocks, AssignForest;
      Parts();
      var blocks := GetExtentSizeInLb();
      if continuation.Some? {
        c.lastLba := c.lastLba + 1;
      }
      if c.lastIndex == 0 {
        parentIndex := c.lastIndex;
        index := c.lastIndex + 1;
        c.lastIndex := index;
      } else {
        lba := c.lastLba;
      }
      c.lastLba := c.lastLba + blocks;
      tree := tree.(parentIndex := parentIndex, index := index, lba := lba);
      AssignChildren(c);
    }

    /** The first `i` children are what `done` says, the others still the values `t`. */
    ghost predicate Halfway(i: nat, t: seq<Dir>, done: seq<Dir>)
      reads this, Repr
    {
      && this in Repr && Owned() && |t| == |done| == |dirs|
      && forall j :: 0 <= j < |dirs| ==> dirs[j].Valid() && dirs[j].tree == if j < i then done[j] else t[j]
    }

    method AssignChild(c: Counters, i: nat, ghost t: seq<Dir>, ghost done: seq<Dir>)
      requires i < |dirs| && Halfway(i, t, done) && done[i] == AssignNode(t[i], c.lastIndex, c.lastLba).0
      modifies dirs[i].Repr, c
      ensures unchanged(this) && Halfway(i + 1, t, done)
      ensures var r := AssignNode(t[i], old(c.lastIndex), old(c.lastLba)); c.lastIndex == r.1 && c.lastLba == r.2
      decreases dirs[i].Repr, 3
    {
      hide Valid, AssignNode;
      dirs[i].AssignDirectoryIdentifiers(c);
    }

    /** The two loops at the end of the pass. */
    method AssignChildren(c: Counters)
      requires Fields() && Children(tree.dirs) && 0 < c.lastIndex
      modifies Repr, c
      ensures Valid() && Repr == old(Repr)
      ensures
        var kids := AssignForest(old(tree.dirs), old(c.lastIndex) + 1, old(index), old(c.lastIndex) + |old(dirs)|,
                                 old(c.lastLba));
        tree == old(tree).(dirs := kids.dirs) && c.lastIndex == kids.lastIndex && c.lastLba == kids.lastLba
      decreases Repr, 0
    {
      hide Valid, AssignForest, AssignNode, Owned;
      ghost var t, first := tree.dirs, c.lastIndex + 1;
      ghost var kids := AssignForest(t, first, index, c.lastIndex + |dirs|, c.lastLba);
      ghost var numbered := NumberedForest(t, index, first);
      NumberChildren(c);
      assert t[0..] == t && kids.dirs[0..] == kids.dirs;
      for i := 0 to |dirs|
        invariant unchanged(this) && 0 < c.lastIndex && Halfway(i, numbered, kids.dirs)
        invariant AssignForest(t[i..], first + i, index, c.lastIndex, c.lastLba)
          == Assigned(kids.dirs[i..], kids.lastIndex, kids.lastLba)
      {
        AssignForestNode(t, i, first + i, index, c.lastIndex, c.lastLba);
        NodeCounters(numbered[i], c.lastIndex, c.lastLba);
        assert kids.dirs[i..][0] == kids.dirs[i] && kids.dirs[i..][1..] == kids.dirs[i + 1..];
        Inside(i);
        AssignChild(c, i, numbered, kids.dirs);
      }
      NothingAssigned(t[|dirs|..], first + |dirs|, index, c.lastIndex, c.lastLba);
      Adopt(numbered, kids.dirs);
    }

    /** All children are what `done` says: so is this object. */
    ghost method Adopt(t: seq<Dir>, done: seq<Dir>)
      requires Fields() && Halfway(|dirs|, t, done)
      modifies `tree
      ensures Valid() && tree == old(tree).(dirs := done)
    {
      tree := tree.(dirs := done);
    }

    lemma Inside(i: nat)
      requires Owned() && i < |dirs|
      ensures dirs[i] in Repr && dirs[i].Repr <= Repr && this !in dirs[i].Repr && dirs[i].Repr < Repr + {this}
    {
    }

    // -------------------------------------------------------------- reserve_file_space

    /** The loop over the files. */
    method ReserveOwnFiles(c: Counters)
      requires Fields()
      modifies `files, `tree, c
      ensures Fields() && c.lastIndex == old(c.lastIndex)
      ensures var r := ReserveFiles(old(files), old(c.lastLba)); tree == old(tree).(files := r.0) && c.lastLba == r.1
    {
      hide ReserveFiles, FileBlocks, FilesReserved;
      ghost var fs, r := files, ReserveFiles(files, c.lastLba);
      NoneReserved(fs, c.lastLba);
      for i := 0 to |files|
        invariant tree == old(tree) && |files| == |fs| && c.lastIndex == old(c.lastIndex)
        invariant FilesReserved(fs, files, i, c.lastLba, r)
      {
        OneReserved(fs, files, i, c.lastLba, r);
        var lbaCount := FileBlocks(files[i]);
        files := files[i := files[i].(lba := c.lastLba)];
        c.lastLba := c.lastLba + lbaCount;
      }
      AllReserved(fs, files, c.lastLba, r);
      tree := tree.(files := files);
    }

    /** `reserve_file_space`. */
    method ReserveFileSpace(c: Counters)
      requires Valid()
      modifies Repr, c
      ensures Valid() && Repr == old(Repr) && c.lastIndex == old(c.lastIndex)
      ensures (tree, c.lastLba) == ReserveNode(old(tree), old(c.lastLba))
      decreases Repr, 1
    {
      hide Valid, ReserveFiles, ReserveForest, ReserveNode;
      Parts();
      ghost var t := tree;
      ReserveOwnFiles(c);
      ghost var kids := ReserveForest(t.dirs, c.lastLba);
      assert t.dirs[0..] == t.dirs && kids.0[0..] == kids.0;
      ghost var own := tree;
      for i := 0 to |dirs|
        invariant tree == own && dirs == old(dirs) && Repr == old(Repr) && Fields()
        invariant c.lastIndex == old(c.lastIndex) && Halfway(i, t.dirs, kids.0)
        invariant ReserveForest(t.dirs[i..], c.lastLba) == (kids.0[i..], kids.1)
      {
        ReserveForestNode(t.dirs, i, c.lastLba);
        assert kids.0[i..][0] == kids.0[i] && kids.0[i..][1..] == kids.0[i + 1..];
        Inside(i);
        ReserveChild(c, i, t.dirs, kids.0);
      }
      NoDirsLeft(t.dirs[|dirs|..], c.lastLba);
      Adopt(t.dirs, kids.0);
      NodeReserved(t, old(c.lastLba));
    }

    method ReserveChild(c: Counters, i: nat, ghost t: seq<Dir>, ghost done: seq<Dir>)
      requires i < |dirs| && Halfway(i, t, done) && done[i] == ReserveNode(t[i], c.lastLba).0
      modifies dirs[i].Repr, c
      ensures unchanged(this) && Halfway(i + 1, t, done) && c.lastIndex == old(c.lastIndex)
      ensures c.lastLba == ReserveNode(t[i], old(c.lastLba)).1
      decreases dirs[i].Repr, 3
    {
      hide Valid, ReserveNode;
      dirs[i].ReserveFileSpace(c);
    }

    // -------------------------------------------------------------- merging

    method AppendFiles(fs: seq<File>)
      requires Valid()
      modifies this
      ensures Valid() && Repr == old(Repr) && dirs == old(dirs)
      ensures tree == old(tree).(files := old(tree).files + fs)
    {
      files := files + fs;
      tree := tree.(files := files);
    }

    /** `filter(..).last()` over the children. */
    method LastChild(name: Name) returns (r: Option<nat>)
      requires Children(tree.dirs)
      ensures r == LastIndex(tree.dirs, name)
    {
      r := None;
      for i := 0 to |dirs|
        invariant r.Some? ==> r.value < i && dirs[r.value].name == name
        invariant r.Some? ==> forall j :: r.value < j < i ==> dirs[j].name != name
        invariant r.None? ==> forall j :: 0 <= j < i ==> dirs[j].name != name
      {
        if dirs[i].name == name {
          r := Some(i);
        }
      }
    }

    /** `merge_child_directories`: the children of `other`, which belongs to this object afterwards. */
    method MergeChildDirectories(other: DirectoryEntry)
      requires Valid() && other.Valid() && Repr !! other.Repr
      modifies Repr, other.Repr
      ensures Valid() && old(Repr) <= Repr <= old(Repr) + old(other.Repr)
      ensures tree == old(tree).(dirs := MergeAll(old(tree.dirs), old(other.tree.dirs)))
      decreases other.Repr, 0
    {
      hide Valid, MergeAll, MergeOne, LastIndex;
      Parts();
      other.Parts();
      ghost var t, cs := tree, other.tree.dirs;
      assert cs[0..] == cs;
      for k := 0 to |other.dirs|
        invariant other !in Repr && unchanged(other) && Fields() && Children(tree.dirs) && tree == t.(dirs := tree.dirs)
        invariant old(Repr) <= Repr <= old(Repr) + old(other.Repr)
        invariant forall j :: k <= j < |cs| ==>
          && other.dirs[j].Valid() && other.dirs[j].tree == cs[j]
          && other.dirs[j].Repr == old(other.dirs[j].Repr) && other.dirs[j].Repr !! Repr
        invariant MergeAll(tree.dirs, cs[k..]) == MergeAll(t.dirs, cs)
      {
        MergeAllStep(tree.dirs, cs, k);
        MergeChild(other.dirs[k]);
      }
      MergeNone(tree.dirs, cs[|cs|..]);
      Assemble();
    }

    /** The body of that loop. */
    method MergeChild(child: DirectoryEntry)
      requires Fields() && Children(tree.dirs) && child.Valid() && Repr !! child.Repr
      modifies Repr, child.Repr
      ensures Fields() && Children(tree.dirs) && Repr == old(Repr) + old(child.Repr)
      ensures tree == old(tree).(dirs := MergeOne(old(tree.dirs), old(child.tree)))
      decreases child.Repr, 2
    {
      hide Valid, MergeAll, LastIndex, MergeOne;
      child.Parts();
      MergeOneIs(tree.dirs, child.tree);
      var present := LastChild(child.name);
      if present.Some? {
        MergeInto(present.value, child);
      } else {
        dirs := dirs + [child];
        tree := tree.(dirs := tree.dirs + [child.tree]);
        Repr := Repr + child.Repr;
      }
    }

    /** The child is there already: its files are appended, its children merged. */
    method MergeInto(i: nat, child: DirectoryEntry)
      requires Fields() && Children(tree.dirs) && i < |dirs| && child.Valid() && Repr !! child.Repr
      modifies Repr, child.Repr
      ensures Fields() && Children(tree.dirs) && Repr == old(Repr) + old(child.Repr)
      ensures tree == old(tree).(dirs := old(tree.dirs)[i := MergeDir(old(tree.dirs)[i], old(child.tree))])
      decreases child.Repr, 1
    {
      hide Valid, MergeAll;
      child.Parts();
      Inside(i);
      dirs[i].AppendFiles(child.files);
      dirs[i].MergeChildDirectories(child);
      tree := tree.(dirs := tree.dirs[i := dirs[i].tree]);
      Repr := Repr + old(child.Repr);
    }

    // -------------------------------------------------------------- looking up, and the boot catalog

    /** `get_directory`: the first child with the name. */
    method FirstChild(name: seq<byte>) returns (r: Option<nat>)
      requires Valid()
      ensures r.Some? ==> r.value < |dirs| && GetDirectory(tree.dirs, name) == Some(dirs[r.value].tree)
      ensures r.None? ==> GetDirectory(tree.dirs, name) == None
    {
      hide Valid;
      Parts();
      assert tree.dirs[0..] == tree.dirs;
      for i := 0 to |dirs|
        invariant GetDirectory(tree.dirs, name) == GetDirectory(tree.dirs[i..], name)
      {
        assert tree.dirs[i..][1..] == tree.dirs[i + 1..];
        if dirs[i].name == name {
          dirs[i].Parts();
          return Some(i);
        }
        dirs[i].Parts();
      }
      return None;
    }

    /** `get_file`. */
    method GetFileEntry(path: seq<byte>) returns (f: Option<File>)
      requires Valid()
      ensures f == GetFile(tree, path)
    {
      hide Valid, GetDirectory, FindFile;
      var cutPath := Split(path, SLASH);
      var entry := this;
      while |cutPath| != 1
        invariant entry.Valid() && cutPath != [] && Lookup(entry.tree, cutPath) == GetFile(tree, path)
        decreases |cutPath|
      {
        entry.Parts();
        var child := entry.FirstChild(cutPath[0]);
        if child.None? {
          return None;
        }
        entry, cutPath := entry.dirs[child.value], cutPath[1..];
      }
      entry.Parts();
      f := FindFile(entry.files, cutPath[0]);
    }

    /** `fill_boot_catalog`; the source panics where `ok` is false. */
    method FillBootCatalog(options: BootOptions) returns (ok: bool)
      requires Valid()
      modifies `files, `tree
      ensures Valid() && ok == FillCatalog(old(tree), options).Some?
      ensures tree == if ok then FillCatalog(old(tree), options).value else old(tree)
    {
      hide GetFile, CatalogBytes, FileIndex;
      var image := GetFileEntry(options.path);
      var catalog := FileIndex(files, CATALOG_NAME);
      ok := image.Some? && catalog.Some?;
      if ok {
        var i := catalog.value;
        var buffer := CatalogBytes(options, image.value.lba);
        files := files[i := files[i].(data := buffer, size := |buffer|)];
        tree := tree.(files := files);
      }
    }

    /** An object whose fields and children match its value is valid. */
    lemma Assemble()
      requires Fields() && Children(tree.dirs)
      ensures Valid()
    {
    }
  }

  lemma MergeOneIs(ds: seq<Dir>, c: Dir)
    ensures MergeOne(ds, c) ==
      match LastIndex(ds, c.name)
      case Some(i) => ds[i := MergeDir(ds[i], c)]
      case None => ds + [c]
  {
    hide MergeAll, LastIndex;
  }

  lemma MergeAllStep(ds: seq<Dir>, cs: seq<Dir>, k: nat)
    requires k < |cs|
    ensures MergeAll(ds, cs[k..]) == MergeAll(MergeOne(ds, cs[k]), cs[k + 1..])
  {
    hide MergeOne;
    assert cs[k..][1..] == cs[k + 1..];
  }

  lemma MergeNone(ds: seq<Dir>, cs: seq<Dir>)
    requires cs == []
    ensures MergeAll(ds, cs) == ds
  {
  }

  lemma NothingAssigned(ds: seq<Dir>, first: nat, parent: nat, lastIndex: nat, lastLba: nat)
    requires ds == []
    ensures AssignForest(ds, first, parent, lastIndex, lastLba) == Assigned([], lastIndex, lastLba)
  {
  }

  /** The first `i` files have their blocks, and the pass over the others gives the rest of the result `r`. */
  ghost predicate FilesReserved(fs: seq<File>, now: seq<File>, i: nat, lba: nat, r: (seq<File>, nat)) {
    && i <= |fs| == |now| && now[i..] == fs[i..]
    && (var rest := ReserveFiles(fs[i..], lba); r == (now[..i] + rest.0, rest.1))
  }

  lemma NoneReserved(fs: seq<File>, lba: nat)
    ensures FilesReserved(fs, fs, 0, lba, ReserveFiles(fs, lba))
  {
    hide ReserveFiles;
    assert fs[0..] == fs && forall rest: seq<File> :: fs[..0] + rest == rest;
  }

  lemma OneReserved(fs: seq<File>, now: seq<File>, i: nat, lba: nat, r: (seq<File>, nat))
    requires FilesReserved(fs, now, i, lba, r) && i < |fs|
    ensures now[i] == fs[i]
    ensures FilesReserved(fs, now[i := now[i].(lba := lba)], i + 1, lba + FileBlocks(now[i]), r)
  {
    hide ReserveFiles, FileBlocks;
    var f, next := now[i].(lba := lba), now[i := now[i].(lba := lba)];
    assert now[i] == now[i..][0] == fs[i..][0] == fs[i];
    ReserveFilesStep(fs, i, lba);
    assert next[..i + 1] == now[..i] + [f];
    assert forall rest: seq<File> :: now[..i] + ([f] + rest) == next[..i + 1] + rest;
    assert next[i + 1..] == now[i..][1..] && fs[i + 1..] == fs[i..][1..];
  }

  lemma AllReserved(fs: seq<File>, now: seq<File>, lba: nat, r: (seq<File>, nat))
    requires FilesReserved(fs, now, |fs|, lba, r)
    ensures r == (now, lba)
  {
    assert fs[|fs|..] == [] && now[..|fs|] + [] == now;
  }

  lemma NodeReserved(d: Dir, lba: nat)
    ensures
      var own := ReserveFiles(d.files, lba);
      var kids := ReserveForest(d.dirs, own.1);
      ReserveNode(d, lba) == (d.(files := own.0, dirs := kids.0), kids.1)
  {
  }

  lemma NoDirsLeft(ds: seq<Dir>, lba: nat)
    requires ds == []
    ensures ReserveForest(ds, lba) == ([], lba)
  {
  }

  function Numbered(d: Dir, parent: nat, number: nat): Dir {
    d.(parentIndex := parent, index := number)
  }

  function NumberedForest(ds: seq<Dir>, parent: nat, first: nat): (r: seq<Dir>)
    ensures |r| == |ds| && forall i :: 0 <= i < |ds| ==> r[i] == Numbered(ds[i], parent, first + i)
  {
    seq(|ds|, i requires 0 <= i < |ds| => Numbered(ds[i], parent, first + i))
  }
}
