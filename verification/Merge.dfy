/** Merging directory trees and looking files up in them (directory_entry.rs:490-577). */
module Merge {
  import opened Bytes
  import opened DirectoryTree

  // ---------------------------------------------------------------- looking up

  /** `get_directory`: the first child with the name. */
  function GetDirectory(ds: seq<Dir>, name: seq<byte>): Option<Dir> {
    if ds == [] then None
    else if ds[0].name == name then Some(ds[0])
    else GetDirectory(ds[1..], name)
  }

  function FindFile(fs: seq<File>, name: seq<byte>): Option<File> {
    if fs == [] then None
    else if fs[0].name == name then Some(fs[0])
    else FindFile(fs[1..], name)
  }

  /** `get_file` on a path already cut at the slashes. */
  function Lookup(d: Dir, path: seq<seq<byte>>): Option<File>
    requires path != []
    decreases |path|
  {
    if |path| == 1 then FindFile(d.files, path[0])
    else
      match GetDirectory(d.dirs, path[0])
      case None => None
      case Some(child) => Lookup(child, path[1..])
  }

  function GetFile(d: Dir, path: seq<byte>): Option<File> {
    Lookup(d, Split(path, SLASH))
  }

  // ---------------------------------------------------------------- what a path finds

  /** Names put together with slashes. */
  function Join(names: seq<seq<byte>>): seq<byte>
    requires names != []
  {
    if |names| == 1 then names[0] else names[0] + [SLASH] + Join(names[1..])
  }

  ghost predicate NoSlash(names: seq<seq<byte>>) {
    forall i :: 0 <= i < |names| ==> SLASH !in names[i]
  }

  lemma {:induction false} SplitJoined(names: seq<seq<byte>>)
    requires names != [] && NoSlash(names)
    ensures Split(Join(names), SLASH) == names
    decreases |names|
  {
    if |names| == 1 {
      SplitWithoutSeparator(names[0], SLASH);
    } else {
      SplitAtSeparator(names[0], SLASH, Join(names[1..]));
      SplitJoined(names[1..]);
    }
  }

  lemma {:induction false} JoinSplit(path: seq<byte>)
    ensures NoSlash(Split(path, SLASH)) && Join(Split(path, SLASH)) == path
  {
    if path != [] {
      JoinSplit(path[1..]);
      var parts, rest := Split(path, SLASH), Split(path[1..], SLASH);
      assert [path[0]] + path[1..] == path;
      if path[0] == SLASH {
        assert parts[1..] == rest && parts[0] == [];
      } else {
        assert parts[1..] == rest[1..] && parts[0] == [path[0]] + rest[0];
        assert |rest| > 1 ==> Join(parts) == [path[0]] + (rest[0] + [SLASH] + Join(rest[1..]));
      }
    }
  }

  /** The first directory with the name. */
  ghost predicate IsFirstDir(ds: seq<Dir>, name: seq<byte>, c: Dir) {
    exists i :: 0 <= i < |ds| && ds[i] == c && c.name == name && forall j :: 0 <= j < i ==> ds[j].name != name
  }

  ghost predicate IsFirstFile(fs: seq<File>, name: seq<byte>, f: File) {
    exists i :: 0 <= i < |fs| && fs[i] == f && f.name == name && forall j :: 0 <= j < i ==> fs[j].name != name
  }

  lemma {:induction false} GetDirectoryIsFirst(ds: seq<Dir>, name: seq<byte>, c: Dir)
    ensures GetDirectory(ds, name) == Some(c) <==> IsFirstDir(ds, name, c)
  {
    if ds != [] {
      GetDirectoryIsFirst(ds[1..], name, c);
      if IsFirstDir(ds[1..], name, c) && ds[0].name != name {
        var i :| 0 <= i < |ds[1..]| && ds[1..][i] == c && c.name == name
          && forall j :: 0 <= j < i ==> ds[1..][j].name != name;
        assert ds[i + 1] == c && forall j :: 0 < j < i + 1 ==> ds[j] == ds[1..][j - 1];
      }
      if IsFirstDir(ds, name, c) && ds[0].name != name {
        var i :| 0 <= i < |ds| && ds[i] == c && c.name == name && forall j :: 0 <= j < i ==> ds[j].name != name;
        assert ds[1..][i - 1] == c && forall j :: 0 <= j < i - 1 ==> ds[1..][j] == ds[j + 1];
      }
    }
  }

  lemma {:induction false} FindFileIsFirst(fs: seq<File>, name: seq<byte>, f: File)
    ensures FindFile(fs, name) == Some(f) <==> IsFirstFile(fs, name, f)
  {
    if fs != [] {
      FindFileIsFirst(fs[1..], name, f);
      if IsFirstFile(fs[1..], name, f) && fs[0].name != name {
        var i :| 0 <= i < |fs[1..]| && fs[1..][i] == f && f.name == name
          && forall j :: 0 <= j < i ==> fs[1..][j].name != name;
        assert fs[i + 1] == f && forall j :: 0 < j < i + 1 ==> fs[j] == fs[1..][j - 1];
      }
      if IsFirstFile(fs, name, f) && fs[0].name != name {
        var i :| 0 <= i < |fs| && fs[i] == f && f.name == name && forall j :: 0 <= j < i ==> fs[j].name != name;
        assert fs[1..][i - 1] == f && forall j :: 0 <= j < i - 1 ==> fs[1..][j] == fs[j + 1];
      }
    }
  }

  /** The names lead from directory `d` to directory `e`, one level down for each. */
  ghost predicate Leads(d: Dir, names: seq<seq<byte>>, e: Dir)
    decreases |names|
  {
    if names == [] then e == d else exists c :: IsFirstDir(d.dirs, names[0], c) && Leads(c, names[1..], e)
  }

  /** The file is the first of its name in the directory that the names lead to. */
  ghost predicate Reaches(d: Dir, names: seq<seq<byte>>, e: Dir, name: seq<byte>, f: File) {
    Leads(d, names, e) && IsFirstFile(e.files, name, f)
  }

  lemma {:induction false} LookupFinds(d: Dir, names: seq<seq<byte>>, name: seq<byte>, f: File)
    ensures Lookup(d, names + [name]) == Some(f) <==> exists e :: Reaches(d, names, e, name, f)
    decreases |names|
  {
    hide IsFirstDir, IsFirstFile, FindFile, GetDirectory;
    var path := names + [name];
    if names == [] {
      FindFileIsFirst(d.files, name, f);
      assert Reaches(d, names, d, name, f) <==> IsFirstFile(d.files, name, f);
    } else {
      assert path[0] == names[0] && path[1..] == names[1..] + [name];
      if Lookup(d, path) == Some(f) {
        var c := GetDirectory(d.dirs, path[0]).value;
        GetDirectoryIsFirst(d.dirs, path[0], c);
        LookupFinds(c, names[1..], name, f);
        var e :| Reaches(c, names[1..], e, name, f);
        assert Reaches(d, names, e, name, f);
      }
      if e :| Reaches(d, names, e, name, f) {
        var c :| IsFirstDir(d.dirs, names[0], c) && Leads(c, names[1..], e);
        GetDirectoryIsFirst(d.dirs, names[0], c);
        assert Reaches(c, names[1..], e, name, f);
        LookupFinds(c, names[1..], name, f);
      }
    }
  }

  /** The path is made of these names, and finds the file. */
  ghost predicate PathReaches(d: Dir, path: seq<byte>, names: seq<seq<byte>>, e: Dir, name: seq<byte>, f: File) {
    path == Join(names + [name]) && NoSlash(names + [name]) && Reaches(d, names, e, name, f)
  }

  /** A path finds a file exactly when it is made, with slashes, of names that lead down to a directory, one level for
      each name, and of the name of that directory's first file of that name. */
  lemma GetFileFinds(d: Dir, path: seq<byte>, f: File)
    ensures GetFile(d, path) == Some(f) <==> exists names, e, name :: PathReaches(d, path, names, e, name, f)
  {
    hide Lookup, Reaches, Split, Join, NoSlash;
    if GetFile(d, path) == Some(f) {
      var parts := Split(path, SLASH);
      var names, name := parts[..|parts| - 1], parts[|parts| - 1];
      assert names + [name] == parts;
      JoinSplit(path);
      LookupFinds(d, names, name, f);
      var e :| Reaches(d, names, e, name, f);
      assert PathReaches(d, path, names, e, name, f);
    }
    if names, e, name :| PathReaches(d, path, names, e, name, f) {
      SplitJoined(names + [name]);
      LookupFinds(d, names, name, f);
    }
  }

  /** The same through any directory of the name. */
  ghost predicate Contains(d: Dir, names: seq<seq<byte>>, e: Dir)
    decreases |names|
  {
    if names == [] then e == d else exists c :: c in d.dirs && c.name == names[0] && Contains(c, names[1..], e)
  }

  /** Where no two sibling directories share a name, the names lead to whatever directory is there. */
  lemma {:induction false} LeadsWhereUnique(d: Dir, names: seq<seq<byte>>, e: Dir)
    requires UniqueTree(d.dirs)
    ensures Leads(d, names, e) <==> Contains(d, names, e)
    decreases |names|
  {
    hide UniqueNames;
    if names != [] {
      forall c
        ensures IsFirstDir(d.dirs, names[0], c) <==> c in d.dirs && c.name == names[0]
      {
        FirstWhereUnique(d.dirs, names[0], c);
      }
      forall c | c in d.dirs
        ensures Leads(c, names[1..], e) <==> Contains(c, names[1..], e)
      {
        LeadsWhereUnique(c, names[1..], e);
      }
    }
  }

  lemma FirstWhereUnique(ds: seq<Dir>, name: seq<byte>, c: Dir)
    requires UniqueNames(ds)
    ensures IsFirstDir(ds, name, c) <==> c in ds && c.name == name
  {
    if c in ds && c.name == name {
      var i :| 0 <= i < |ds| && ds[i] == c;
      assert forall j :: 0 <= j < i ==> ds[j].name != name;
    }
  }

  // ---------------------------------------------------------------- merging

  /** The last directory with the name. */
  function LastIndex(ds: seq<Dir>, name: Name): (r: Option<nat>)
    ensures r.Some? ==> r.value < |ds| && ds[r.value].name == name
    ensures r.Some? ==> forall j :: r.value < j < |ds| ==> ds[j].name != name
    ensures r.None? ==> forall j :: 0 <= j < |ds| ==> ds[j].name != name
  {
    if ds == [] then None
    else if ds[|ds| - 1].name == name then Some(|ds| - 1)
    else LastIndex(ds[..|ds| - 1], name)
  }

  /** One directory merged into siblings: into the last one of its name, or added as a new one. */
  function MergeOne(ds: seq<Dir>, c: Dir): (r: seq<Dir>)
    decreases c
  {
    match LastIndex(ds, c.name)
    case Some(i) => ds[i := ds[i].(files := ds[i].files + c.files, dirs := MergeAll(ds[i].dirs, c.dirs))]
    case None => ds + [c]
  }

  /** `merge_child_directories`: one directory after the other. */
  function MergeAll(ds: seq<Dir>, cs: seq<Dir>): seq<Dir>
    decreases cs
  {
    if cs == [] then ds else MergeAll(MergeOne(ds, cs[0]), cs[1..])
  }

  /** Two directories merged: the first one's name and files come first. */
  function MergeDir(a: Dir, b: Dir): Dir {
    a.(files := a.files + b.files, dirs := MergeAll(a.dirs, b.dirs))
  }

  // ---------------------------------------------------------------- unique names

  ghost predicate UniqueNames(ds: seq<Dir>) {
    forall i, j :: 0 <= i < j < |ds| ==> ds[i].name != ds[j].name
  }

  /** No two sibling directories share a name, at any level. */
  ghost predicate UniqueTree(ds: seq<Dir>)
    decreases ds
  {
    UniqueNames(ds) && forall d :: d in ds ==> UniqueTree(d.dirs)
  }

  lemma {:induction false} GetDirectoryFinds(ds: seq<Dir>, name: seq<byte>)
    ensures GetDirectory(ds, name).Some? ==>
      GetDirectory(ds, name).value in ds && GetDirectory(ds, name).value.name == name
    ensures GetDirectory(ds, name).None? ==> forall i :: 0 <= i < |ds| ==> ds[i].name != name
  {
    if ds != [] {
      GetDirectoryFinds(ds[1..], name);
      assert forall i :: 0 < i < |ds| ==> ds[i] == ds[1..][i - 1];
    }
  }

  /** With unique names a lookup finds whatever directory has the name. */
  lemma GetDirectoryIs(ds: seq<Dir>, i: nat)
    requires UniqueNames(ds) && i < |ds|
    ensures GetDirectory(ds, ds[i].name) == Some(ds[i])
  {
    GetDirectoryFinds(ds, ds[i].name);
  }

  lemma MergeOneUnique(ds: seq<Dir>, c: Dir)
    requires UniqueNames(ds)
    ensures UniqueNames(MergeOne(ds, c))
  {
    hide MergeAll;
  }

  /** Where one directory goes, whether or not names are unique: its files and directories to the last one of its name,
      behind what is there, or itself to the end. All others stay as they are. */
  lemma MergeOneTarget(ds: seq<Dir>, c: Dir)
    ensures forall i :: 0 <= i < |ds| && ds[i].name == c.name && (forall j :: i < j < |ds| ==> ds[j].name != c.name) ==>
      MergeOne(ds, c) == ds[i := ds[i].(files := ds[i].files + c.files, dirs := MergeAll(ds[i].dirs, c.dirs))]
    ensures (forall i :: 0 <= i < |ds| ==> ds[i].name != c.name) ==> MergeOne(ds, c) == ds + [c]
  {
    hide MergeAll;
  }

  /** What a lookup finds after one directory is merged. */
  lemma MergeOneLookup(ds: seq<Dir>, c: Dir, name: seq<byte>)
    requires UniqueNames(ds)
    ensures GetDirectory(MergeOne(ds, c), name) ==
      if name != c.name then GetDirectory(ds, name)
      else match GetDirectory(ds, name)
           case None => Some(c)
           case Some(a) => Some(MergeDir(a, c))
  {
    hide MergeAll;
    var r := MergeOne(ds, c);
    MergeOneUnique(ds, c);
    GetDirectoryFinds(r, name);
    GetDirectoryFinds(ds, name);
    match LastIndex(ds, c.name) {
      case Some(i) =>
        GetDirectoryIs(ds, i);
        GetDirectoryIs(r, i);
        if name != c.name && GetDirectory(ds, name).Some? {
          var j :| 0 <= j < |ds| && ds[j] == GetDirectory(ds, name).value;
          assert r[j] == ds[j];
          GetDirectoryIs(ds, j);
          GetDirectoryIs(r, j);
        }
      case None =>
        if name == c.name {
          assert r[|ds|] == c;
          GetDirectoryIs(r, |ds|);
        } else if GetDirectory(ds, name).Some? {
          var j :| 0 <= j < |ds| && ds[j] == GetDirectory(ds, name).value;
          assert r[j] == ds[j];
          GetDirectoryIs(r, j);
        }
    }
  }

  /** What a lookup finds after a list is merged: the merge of what it finds in the two. */
  lemma {:induction false} MergeAllLookup(ds: seq<Dir>, cs: seq<Dir>, name: seq<byte>)
    requires UniqueNames(ds) && UniqueNames(cs)
    ensures UniqueNames(MergeAll(ds, cs))
    ensures GetDirectory(MergeAll(ds, cs), name) ==
      match (GetDirectory(ds, name), GetDirectory(cs, name))
      case (None, found) => found
      case (found, None) => found
      case (Some(a), Some(b)) => Some(MergeDir(a, b))
    decreases |cs|
  {
    hide MergeOne, MergeDir;
    if cs != [] {
      MergeOneUnique(ds, cs[0]);
      MergeOneLookup(ds, cs[0], name);
      MergeAllLookup(MergeOne(ds, cs[0]), cs[1..], name);
      if cs[0].name == name {
        GetDirectoryFinds(cs[1..], name);
      }
    }
  }

  /** Every directory of the merge is one of the two lists', or the merge of one of each. */
  lemma {:induction false} MergeAllMembers(ds: seq<Dir>, cs: seq<Dir>, d: Dir)
    requires UniqueNames(ds) && UniqueNames(cs) && d in MergeAll(ds, cs)
    ensures d in ds || d in cs || exists a, b :: a in ds && b in cs && d == MergeDir(a, b)
  {
    hide MergeDir, MergeAll;
    MergeAllLookup(ds, cs, d.name);
    var i :| 0 <= i < |MergeAll(ds, cs)| && MergeAll(ds, cs)[i] == d;
    GetDirectoryIs(MergeAll(ds, cs), i);
    GetDirectoryFinds(ds, d.name);
    GetDirectoryFinds(cs, d.name);
  }

  /** Merging keeps sibling names unique at every level. */
  lemma {:induction false} MergeKeepsUnique(ds: seq<Dir>, cs: seq<Dir>)
    requires UniqueTree(ds) && UniqueTree(cs)
    ensures UniqueTree(MergeAll(ds, cs))
    decreases cs
  {
    hide MergeAll, UniqueNames;
    MergeAllLookup(ds, cs, []);
    forall d | d in MergeAll(ds, cs)
      ensures UniqueTree(d.dirs)
    {
      MergeAllMembers(ds, cs, d);
      if d !in ds && d !in cs {
        var a, b :| a in ds && b in cs && d == MergeDir(a, b);
        MergeKeepsUnique(a.dirs, b.dirs);
      }
    }
  }

  // ---------------------------------------------------------------- the order

  function Names(ds: seq<Dir>): (names: seq<Name>)
    ensures |names| == |ds| && forall i :: 0 <= i < |ds| ==> names[i] == ds[i].name
  {
    seq(|ds|, i requires 0 <= i < |ds| => ds[i].name)
  }

  /** The names without repetitions, in the order in which they are first met. */
  function FirstMet(names: seq<Name>): seq<Name> {
    if names == [] then []
    else
      var before, last := FirstMet(names[..|names| - 1]), names[|names| - 1];
      if last in before then before else before + [last]
  }

  lemma {:induction false} FirstMetTwice(a: seq<Name>, b: seq<Name>)
    ensures FirstMet(FirstMet(a) + b) == FirstMet(a + b)
    decreases |b|
  {
    if b == [] {
      assert FirstMet(a) + b == FirstMet(a) && a + b == a;
      FirstMetOnce(FirstMet(a));
      FirstMetDistinct(a);
    } else {
      var init := b[..|b| - 1];
      assert (a + b)[..|a + b| - 1] == a + init;
      assert (FirstMet(a) + b)[..|FirstMet(a) + b| - 1] == FirstMet(a) + init;
      FirstMetTwice(a, init);
    }
  }

  ghost predicate NoneTwice(names: seq<Name>) {
    forall i, j :: 0 <= i < j < |names| ==> names[i] != names[j]
  }

  lemma {:induction false} FirstMetDistinct(names: seq<Name>)
    ensures NoneTwice(FirstMet(names))
    decreases |names|
  {
    if names != [] {
      FirstMetDistinct(names[..|names| - 1]);
    }
  }

  lemma {:induction false} FirstMetOnce(names: seq<Name>)
    ensures NoneTwice(names) ==> FirstMet(names) == names
    decreases |names|
  {
    if names != [] && NoneTwice(names) {
      var init, last := names[..|names| - 1], names[|names| - 1];
      FirstMetOnce(init);
      assert init + [last] == names;
    }
  }

  lemma MergeOneOrder(ds: seq<Dir>, c: Dir)
    requires UniqueNames(ds)
    ensures UniqueNames(MergeOne(ds, c)) && Names(MergeOne(ds, c)) == FirstMet(Names(ds) + [c.name])
  {
    hide MergeAll;
    MergeOneUnique(ds, c);
    FirstMetOnce(Names(ds));
    var all := Names(ds) + [c.name];
    assert all[..|all| - 1] == Names(ds);
    if c.name in Names(ds) {
      var i :| 0 <= i < |ds| && Names(ds)[i] == c.name;
      assert ds[i].name == c.name;
    }
  }

  /** The directories of the merge stand in the order in which their names are first met, in the first list and then in
      the second. */
  lemma {:induction false} MergeAllOrder(ds: seq<Dir>, cs: seq<Dir>)
    requires UniqueNames(ds)
    ensures Names(MergeAll(ds, cs)) == FirstMet(Names(ds) + Names(cs))
    decreases |cs|
  {
    hide MergeOne, FirstMet;
    if cs == [] {
      FirstMetOnce(Names(ds));
      assert Names(ds) + Names(cs) == Names(ds);
    } else {
      MergeOneOrder(ds, cs[0]);
      MergeAllOrder(MergeOne(ds, cs[0]), cs[1..]);
      FirstMetTwice(Names(ds) + [cs[0].name], Names(cs[1..]));
      assert Names(ds) + [cs[0].name] + Names(cs[1..]) == Names(ds) + Names(cs);
    }
  }

  // ---------------------------------------------------------------- the overlay

  lemma {:induction false} FindFileInBoth(a: seq<File>, b: seq<File>, name: seq<byte>)
    ensures FindFile(a + b, name) == if FindFile(a, name).Some? then FindFile(a, name) else FindFile(b, name)
  {
    if a == [] {
      assert a + b == b;
    } else {
      assert (a + b)[1..] == a[1..] + b;
      FindFileInBoth(a[1..], b, name);
    }
  }

  /** Looking a path up in a merged directory gives the first one's file where it has one, else the second one's. */
  lemma {:induction false} MergeIsOverlay(a: Dir, b: Dir, path: seq<seq<byte>>)
    requires UniqueTree(a.dirs) && UniqueTree(b.dirs) && path != []
    ensures Lookup(MergeDir(a, b), path) == if Lookup(a, path).Some? then Lookup(a, path) else Lookup(b, path)
    decreases |path|
  {
    hide MergeAll, UniqueNames;
    if |path| == 1 {
      FindFileInBoth(a.files, b.files, path[0]);
    } else {
      MergeAllLookup(a.dirs, b.dirs, path[0]);
      GetDirectoryFinds(a.dirs, path[0]);
      GetDirectoryFinds(b.dirs, path[0]);
      var x, y := GetDirectory(a.dirs, path[0]), GetDirectory(b.dirs, path[0]);
      if x.Some? && y.Some? {
        MergeIsOverlay(x.value, y.value, path[1..]);
      }
    }
  }

  // ---------------------------------------------------------------- no file is lost or doubled

  type PathFile = (seq<Name>, File)

  function Tagged(fs: seq<File>, path: seq<Name>): seq<PathFile> {
    seq(|fs|, i requires 0 <= i < |fs| => (path, fs[i]))
  }

  /** All files of a forest, with multiplicity, each with the names that lead to it. */
  function FilesOf(ds: seq<Dir>, path: seq<Name>): multiset<PathFile>
    decreases ds
  {
    if ds == [] then multiset{}
    else
      var here := path + [ds[0].name];
      multiset(Tagged(ds[0].files, here)) + FilesOf(ds[0].dirs, here) + FilesOf(ds[1..], path)
  }

  lemma {:induction false} FilesOfConcat(a: seq<Dir>, b: seq<Dir>, path: seq<Name>)
    ensures FilesOf(a + b, path) == FilesOf(a, path) + FilesOf(b, path)
    decreases |a|
  {
    hide Tagged;
    if a == [] {
      assert a + b == b;
    } else {
      assert (a + b)[1..] == a[1..] + b;
      FilesOfConcat(a[1..], b, path);
    }
  }

  lemma FilesOfOne(d: Dir, path: seq<Name>)
    ensures FilesOf([d], path) == multiset(Tagged(d.files, path + [d.name])) + FilesOf(d.dirs, path + [d.name])
  {
    hide Tagged;
    assert [d][1..] == [];
  }

  lemma FilesOfUpdate(ds: seq<Dir>, i: nat, d: Dir, path: seq<Name>)
    requires i < |ds|
    ensures FilesOf(ds, path) == FilesOf(ds[..i], path) + FilesOf([ds[i]], path) + FilesOf(ds[i + 1..], path)
    ensures FilesOf(ds[i := d], path) == FilesOf(ds[..i], path) + FilesOf([d], path) + FilesOf(ds[i + 1..], path)
  {
    hide FilesOf;
    assert ds == ds[..i] + [ds[i]] + ds[i + 1..];
    assert ds[i := d] == ds[..i] + [d] + ds[i + 1..];
    FilesOfConcat(ds[..i] + [ds[i]], ds[i + 1..], path);
    FilesOfConcat(ds[..i], [ds[i]], path);
    FilesOfConcat(ds[..i] + [d], ds[i + 1..], path);
    FilesOfConcat(ds[..i], [d], path);
  }

  /** Merging keeps the files of both, each under its own path, whatever the names. */
  lemma {:induction false} MergeKeepsFiles(ds: seq<Dir>, cs: seq<Dir>, path: seq<Name>)
    ensures FilesOf(MergeAll(ds, cs), path) == FilesOf(ds, path) + FilesOf(cs, path)
    decreases cs
  {
    hide Tagged;
    if cs != [] {
      MergeOneKeepsFiles(ds, cs[0], path);
      MergeKeepsFiles(MergeOne(ds, cs[0]), cs[1..], path);
      assert cs == [cs[0]] + cs[1..];
      FilesOfConcat([cs[0]], cs[1..], path);
    }
  }

  lemma {:induction false} MergeOneKeepsFiles(ds: seq<Dir>, c: Dir, path: seq<Name>)
    ensures FilesOf(MergeOne(ds, c), path) == FilesOf(ds, path) + FilesOf([c], path)
    decreases c
  {
    hide MergeAll, FilesOf;
    match LastIndex(ds, c.name) {
      case None => FilesOfConcat(ds, [c], path);
      case Some(i) =>
        var a := ds[i];
        var here := path + [c.name];
        FilesOfUpdate(ds, i, MergeDir(a, c), path);
        FilesOfOne(a, path);
        FilesOfOne(c, path);
        FilesOfOne(MergeDir(a, c), path);
        MergeKeepsFiles(a.dirs, c.dirs, here);
        assert Tagged(a.files + c.files, here) == Tagged(a.files, here) + Tagged(c.files, here);
    }
  }
}
