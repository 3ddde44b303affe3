/**
 The folder scanner: turns the configured folders into the ordered sequence
 of unsized label and button cells. The file system is abstracted as a tree
 of nodes (recursive mode) and as given glob results (glob mode).
 */
module Scanner {
  import opened Strings
  import opened Seqs
  import opened Cells
  import opened Filenames

  /** A directory entry: a regular file with its byte size, or a directory with its entries. */
  datatype Node = File(name: string, size: nat) | Dir(name: string, children: seq<Node>)

  function NodeName(n: Node): string {
    n.name
  }

  function PathName(p: Path): string {
    p.name
  }

  /** A file that gets listed: not a directory and not empty. */
  predicate Listed(n: Node) {
    n.File? && n.size > 0
  }

  /** A subdirectory that is descended into: its name does not start with `__`. */
  predicate Descended(n: Node) {
    n.Dir? && !StartsWith(n.name, "__")
  }

  predicate NameOk(n: Node) {
    FilenameOk(n.name)
  }

  predicate PathOk(p: Path) {
    FilenameOk(p.name)
  }

  /**
   A cell as the scanner makes it: height 0, and a button is titled with its
   target's name, which passed the filename guard.
   */
  predicate Unsized(c: Cell) {
    c.height == 0 && (c.target.Some? ==> c.title == c.target.value.name && FilenameOk(c.title))
  }

  predicate AllUnsized(cells: seq<Cell>) {
    forall k :: 0 <= k < |cells| ==> Unsized(cells[k])
  }

  lemma AllUnsizedAppend(a: seq<Cell>, b: seq<Cell>)
    requires AllUnsized(a) && AllUnsized(b)
    ensures AllUnsized(a + b)
  {
    assert forall k :: |a| <= k < |a + b| ==> (a + b)[k] == b[k - |a|];
  }

  /** One button per file, in the files' order. */
  function Buttons(folder: string, files: seq<Node>): (r: seq<Cell>)
    ensures |r| == |files|
    ensures forall k :: 0 <= k < |r| ==> r[k] == Button(Path(folder, files[k].name))
  {
    if |files| == 0 then []
    else [Button(Path(folder, files[0].name))] + Buttons(folder, files[1..])
  }

  /** What one directory level yields: its cells, and the subdirectories to descend into afterwards. */
  datatype LevelScan = LevelScan(cells: seq<Cell>, dirs: seq<Node>)

  /**
   The loop over one directory's sorted entries. A kept subdirectory is
   queued; an empty file is skipped; the first non-empty file emits the
   folder label (`visited` records that it was emitted), and then the file's
   button when its name passes the guard.
   */
  function ScanEntries(folder: string, entries: seq<Node>, visited: bool): (r: LevelScan)
    ensures forall d :: d in r.dirs ==> d in entries && d.Dir?
  {
    if |entries| == 0 then LevelScan([], [])
    else
      var path := entries[0];
      match path
      case Dir(name, _) =>
        var rest := ScanEntries(folder, entries[1..], visited);
        if !StartsWith(name, "__") then LevelScan(rest.cells, [path] + rest.dirs) else rest
      case File(name, size) =>
        if !(size > 0) then ScanEntries(folder, entries[1..], visited)
        else
          var heading := if !visited then [Label(folder)] else [];
          var button := if FilenameOk(name) then [Button(Path(folder, name))] else [];
          var rest := ScanEntries(folder, entries[1..], true);
          LevelScan(heading + button + rest.cells, rest.dirs)
  }

  /**
   Python's `walk_one_folder`: the cells of directory `dir`, whose POSIX path
   is `folder`, followed by those of its kept subdirectories in name order.
   */
  function WalkOneFolder(folder: string, dir: Node): seq<Cell>
    requires dir.Dir?
    decreases dir, 1
  {
    var level := ScanEntries(folder, SortBy(dir.children, NodeName), false);
    assert forall d :: d in level.dirs ==> d in dir.children by {
      forall d | d in level.dirs
        ensures d in dir.children
      {
        assert d in multiset(SortBy(dir.children, NodeName));
      }
    }
    level.cells + WalkDirs(folder, dir, level.dirs)
  }

  /** The recursive walks of the queued subdirectories `dirs` of `parent`, one after another. */
  function WalkDirs(folder: string, parent: Node, dirs: seq<Node>): seq<Cell>
    requires parent.Dir?
    requires forall d :: d in dirs ==> d in parent.children && d.Dir?
    decreases parent, 0, |dirs|
  {
    if |dirs| == 0 then []
    else WalkOneFolder(Join(folder, dirs[0].name), dirs[0]) + WalkDirs(folder, parent, dirs[1..])
  }

  /**
   One directory level, stated without the loop: the label when a listed
   file exists and the label has not been emitted yet, then one button per
   listed file whose name passes the guard, in entry order; the queued
   subdirectories are the kept ones, in entry order.
   */
  lemma {:induction false} ScanEntriesShape(folder: string, entries: seq<Node>, visited: bool)
    ensures ScanEntries(folder, entries, visited).dirs == Filter(entries, Descended)
    ensures ScanEntries(folder, entries, visited).cells ==
      (if !visited && |Filter(entries, Listed)| > 0 then [Label(folder)] else [])
      + Buttons(folder, Filter(Filter(entries, Listed), NameOk))
    decreases |entries|
  {
    if |entries| > 0 {
      var e := entries[0];
      var tail := entries[1..];
      assert entries == [e] + tail;
      FilterCons(e, tail, Descended);
      FilterCons(e, tail, Listed);
      if Listed(e) {
        ScanEntriesShape(folder, tail, true);
        ListedStep(folder, e, tail, visited);
      } else {
        ScanEntriesShape(folder, tail, visited);
        assert Filter(entries, Listed) == Filter(tail, Listed);
        if e.Dir? && !StartsWith(e.name, "__") {
          assert ScanEntries(folder, entries, visited).dirs == [e] + ScanEntries(folder, tail, visited).dirs;
        } else {
          assert ScanEntries(folder, entries, visited) == ScanEntries(folder, tail, visited);
        }
      }
    }
  }

  lemma ListedUnfold(folder: string, e: Node, tail: seq<Node>, visited: bool)
    requires Listed(e)
    ensures ScanEntries(folder, [e] + tail, visited).cells ==
      (if !visited then [Label(folder)] else [])
      + (if NameOk(e) then [Button(Path(folder, e.name))] else [])
      + ScanEntries(folder, tail, true).cells
  {
    var entries := [e] + tail;
    assert entries[0] == e && entries[1..] == tail;
    assert e == File(e.name, e.size);
  }

  lemma ListedButtons(folder: string, e: Node, tail: seq<Node>)
    requires Listed(e)
    ensures Buttons(folder, Filter(Filter([e] + tail, Listed), NameOk)) ==
      (if NameOk(e) then [Button(Path(folder, e.name))] else []) + Buttons(folder, Filter(Filter(tail, Listed), NameOk))
  {
    var listed := Filter(tail, Listed);
    var named := Filter(listed, NameOk);
    FilterCons(e, tail, Listed);
    assert Filter([e] + tail, Listed) == [e] + listed;
    FilterCons(e, listed, NameOk);
    if NameOk(e) {
      assert Filter([e] + listed, NameOk) == [e] + named;
      ButtonsCons(folder, e, named);
    } else {
      assert Filter([e] + listed, NameOk) == named;
    }
  }

  lemma ListedStep(folder: string, e: Node, tail: seq<Node>, visited: bool)
    requires Listed(e)
    requires ScanEntries(folder, tail, true).cells == Buttons(folder, Filter(Filter(tail, Listed), NameOk))
    ensures ScanEntries(folder, [e] + tail, visited).cells ==
      (if !visited then [Label(folder)] else [])
      + Buttons(folder, Filter(Filter([e] + tail, Listed), NameOk))
  {
    var heading := if !visited then [Label(folder)] else [];
    var own := if NameOk(e) then [Button(Path(folder, e.name))] else [];
    var later := Buttons(folder, Filter(Filter(tail, Listed), NameOk));
    calc {
      ScanEntries(folder, [e] + tail, visited).cells;
      { ListedUnfold(folder, e, tail, visited); }
      heading + own + later;
      { AppendAssoc(heading, own, later); }
      heading + (own + later);
      { ListedButtons(folder, e, tail); }
      heading + Buttons(folder, Filter(Filter([e] + tail, Listed), NameOk));
    }
  }

  lemma ButtonsCons(folder: string, e: Node, files: seq<Node>)
    ensures Buttons(folder, [e] + files) == [Button(Path(folder, e.name))] + Buttons(folder, files)
  {
    assert ([e] + files)[1..] == files;
  }

  /**
   `walk_one_folder` in one piece: the label precedes the buttons of the
   accepted non-empty files when there is at least one non-empty file; then
   come the walks of the subdirectories not starting with `__`; both taken
   from the entries sorted by name.
   */
  lemma WalkOneFolderCells(folder: string, dir: Node)
    requires dir.Dir?
    ensures var sorted := SortBy(dir.children, NodeName);
      var files := Filter(sorted, Listed);
      var subdirs := Filter(sorted, Descended);
      && (forall d :: d in subdirs ==> d in dir.children && d.Dir?)
      && WalkOneFolder(folder, dir) ==
           (if |files| > 0 then [Label(folder)] else [])
           + Buttons(folder, Filter(files, NameOk))
           + WalkDirs(folder, dir, subdirs)
  {
    ScanEntriesShape(folder, SortBy(dir.children, NodeName), false);
    SortedMembers(dir);
  }

  /**
   The same decomposition with its order made explicit: the files and the
   subdirectories each come in name order, and the subdirectories walked are
   children of `dir`.
   */
  lemma WalkOneFolderShape(folder: string, dir: Node)
    requires dir.Dir?
    ensures var sorted := SortBy(dir.children, NodeName);
      var files := Filter(sorted, Listed);
      var subdirs := Filter(sorted, Descended);
      && SortedBy(files, NodeName) && SortedBy(subdirs, NodeName)
      && (forall d :: d in subdirs ==> d in dir.children && d.Dir?)
      && WalkOneFolder(folder, dir) ==
           (if |files| > 0 then [Label(folder)] else [])
           + Buttons(folder, Filter(files, NameOk))
           + WalkDirs(folder, dir, subdirs)
  {
    var sorted := SortBy(dir.children, NodeName);
    WalkOneFolderCells(folder, dir);
    FilterKeepsOrder(sorted, Listed, NodeName);
    FilterKeepsOrder(sorted, Descended, NodeName);
    SortedMembers(dir);
  }

  /** The folder label is emitted exactly when the folder holds a non-empty file. */
  lemma LabelIffListedFile(folder: string, dir: Node)
    requires dir.Dir?
    ensures |Filter(SortBy(dir.children, NodeName), Listed)| > 0 <==> exists n :: n in dir.children && Listed(n)
  {
    var sorted := SortBy(dir.children, NodeName);
    var files := Filter(sorted, Listed);
    if exists n :: n in dir.children && Listed(n) {
      var n :| n in dir.children && Listed(n);
      assert n in multiset(dir.children);
      assert n in sorted;
      assert n in files;
    }
    if |files| > 0 {
      assert files[0] in files;
      assert files[0] in multiset(sorted);
    }
  }

  /** With no accepted file and no kept subdirectory, a walk yields at most the folder label. */
  lemma WalkOneFolderLabelOnly(folder: string, dir: Node)
    requires dir.Dir?
    requires var sorted := SortBy(dir.children, NodeName);
      Filter(Filter(sorted, Listed), NameOk) == [] && Filter(sorted, Descended) == []
    ensures WalkOneFolder(folder, dir) ==
      if |Filter(SortBy(dir.children, NodeName), Listed)| > 0 then [Label(folder)] else []
  {
    WalkOneFolderCells(folder, dir);
    assert Buttons(folder, []) == [] && WalkDirs(folder, dir, []) == [];
  }

  /** Neither accepted files nor kept subdirectories: nothing after the label, if any. */
  lemma NoButtonsNoDirs(folder: string, dir: Node)
    requires dir.Dir?
    requires forall n :: n in dir.children && Listed(n) ==> !NameOk(n)
    requires forall n :: n in dir.children ==> !Descended(n)
    ensures WalkOneFolder(folder, dir) ==
      if exists n :: n in dir.children && Listed(n) then [Label(folder)] else []
  {
    SortedMembers(dir);
    var sorted := SortBy(dir.children, NodeName);
    FilterNone(Filter(sorted, Listed), NameOk);
    FilterNone(sorted, Descended);
    WalkOneFolderLabelOnly(folder, dir);
    LabelIffListedFile(folder, dir);
  }

  /**
   A folder with no non-empty file and no subdirectory to descend into yields
   nothing, not even its label.
   */
  lemma NothingVisibleNoLabel(folder: string, dir: Node)
    requires dir.Dir?
    requires forall n :: n in dir.children ==> !Listed(n) && !Descended(n)
    ensures WalkOneFolder(folder, dir) == []
  {
    NoButtonsNoDirs(folder, dir);
  }

  /**
   The label is emitted before the filename guard runs: a folder whose
   non-empty files are all rejected, and with nothing to descend into, still
   yields its label alone.
   */
  lemma RejectedFilesStillLabelled(folder: string, dir: Node)
    requires dir.Dir?
    requires exists n :: n in dir.children && Listed(n)
    requires forall n :: n in dir.children && Listed(n) ==> !NameOk(n)
    requires forall n :: n in dir.children ==> !Descended(n)
    ensures WalkOneFolder(folder, dir) == [Label(folder)]
  {
    NoButtonsNoDirs(folder, dir);
  }

  /** Sorting the entries neither adds nor loses one. */
  lemma SortedMembers(dir: Node)
    requires dir.Dir?
    ensures forall n :: n in SortBy(dir.children, NodeName) <==> n in dir.children
  {
    var sorted := SortBy(dir.children, NodeName);
    forall n
      ensures n in sorted <==> n in dir.children
    {
      assert n in sorted <==> n in multiset(sorted);
      assert n in dir.children <==> n in multiset(dir.children);
    }
  }


  lemma ButtonsUnsized(folder: string, files: seq<Node>)
    requires forall k :: 0 <= k < |files| ==> NameOk(files[k])
    ensures AllUnsized(Buttons(folder, files))
  {
  }

  /** Every cell of a recursive walk is unsized, and every button's name passed the guard. */
  lemma {:induction false} WalkOneFolderUnsized(folder: string, dir: Node)
    requires dir.Dir?
    ensures AllUnsized(WalkOneFolder(folder, dir))
    decreases dir, 1
  {
    WalkOneFolderShape(folder, dir);
    var sorted := SortBy(dir.children, NodeName);
    var files := Filter(sorted, Listed);
    ButtonsUnsized(folder, Filter(files, NameOk));
    var heading: seq<Cell> := if |files| > 0 then [Label(folder)] else [];
    AllUnsizedAppend(heading, Buttons(folder, Filter(files, NameOk)));
    WalkDirsUnsized(folder, dir, Filter(sorted, Descended));
    AllUnsizedAppend(heading + Buttons(folder, Filter(files, NameOk)), WalkDirs(folder, dir, Filter(sorted, Descended)));
  }

  lemma {:induction false} WalkDirsUnsized(folder: string, parent: Node, dirs: seq<Node>)
    requires parent.Dir?
    requires forall d :: d in dirs ==> d in parent.children && d.Dir?
    ensures AllUnsized(WalkDirs(folder, parent, dirs))
    decreases parent, 0, |dirs|
  {
    if |dirs| > 0 {
      assert dirs[0] in parent.children;
      WalkOneFolderUnsized(Join(folder, dirs[0].name), dirs[0]);
      WalkDirsUnsized(folder, parent, dirs[1..]);
      AllUnsizedAppend(WalkOneFolder(Join(folder, dirs[0].name), dirs[0]), WalkDirs(folder, parent, dirs[1..]));
    }
  }

  /** Title of the last label before index `i`, if there is one. */
  function Heading(cells: seq<Cell>, i: nat): Option<string>
    requires i <= |cells|
  {
    if i == 0 then None
    else if IsLabel(cells[i - 1]) then Some(cells[i - 1].title)
    else Heading(cells, i - 1)
  }

  /** Every button is shown under the label of the folder its file was found in. */
  ghost predicate UnderOwnLabel(cells: seq<Cell>) {
    forall i :: 0 <= i < |cells| && cells[i].target.Some? ==> Heading(cells, i) == Some(cells[i].target.value.parent)
  }

  lemma {:induction false} HeadingPrefix(a: seq<Cell>, b: seq<Cell>, i: nat)
    requires i <= |a|
    ensures Heading(a + b, i) == Heading(a, i)
  {
    if i > 0 {
      assert (a + b)[i - 1] == a[i - 1];
      HeadingPrefix(a, b, i - 1);
    }
  }

  lemma {:induction false} HeadingSuffix(a: seq<Cell>, b: seq<Cell>, i: nat)
    requires i <= |b| && Heading(b, i).Some?
    ensures Heading(a + b, |a| + i) == Heading(b, i)
  {
    assert i > 0;
    assert (a + b)[|a| + i - 1] == b[i - 1];
    if !IsLabel(b[i - 1]) {
      HeadingSuffix(a, b, i - 1);
    }
  }

  lemma UnderOwnLabelAppend(a: seq<Cell>, b: seq<Cell>)
    requires UnderOwnLabel(a) && UnderOwnLabel(b)
    ensures UnderOwnLabel(a + b)
  {
    var c := a + b;
    forall i | 0 <= i < |c| && c[i].target.Some?
      ensures Heading(c, i) == Some(c[i].target.value.parent)
    {
      if i < |a| {
        assert c[i] == a[i];
        HeadingPrefix(a, b, i);
      } else {
        assert c[i] == b[i - |a|];
        HeadingSuffix(a, b, i - |a|);
      }
    }
  }

  /** A level's label followed by its buttons puts every button under that label. */
  lemma LevelUnderOwnLabel(folder: string, files: seq<Node>)
    ensures UnderOwnLabel([Label(folder)] + Buttons(folder, files))
  {
    var c := [Label(folder)] + Buttons(folder, files);
    forall i | 0 <= i < |c| && c[i].target.Some?
      ensures Heading(c, i) == Some(folder)
    {
      LevelHeading(folder, files, i);
    }
  }

  lemma {:induction false} LevelHeading(folder: string, files: seq<Node>, i: nat)
    requires 0 < i <= |files| + 1
    ensures Heading([Label(folder)] + Buttons(folder, files), i) == Some(folder)
  {
    var c := [Label(folder)] + Buttons(folder, files);
    if i > 1 {
      assert c[i - 1] == Button(Path(folder, files[i - 2].name));
      LevelHeading(folder, files, i - 1);
    }
  }

  /**
   In a recursive walk every button sits under its own folder's label, with
   no other folder's label in between.
   */
  lemma {:induction false} WalkOneFolderUnderOwnLabel(folder: string, dir: Node)
    requires dir.Dir?
    ensures UnderOwnLabel(WalkOneFolder(folder, dir))
    decreases dir, 1
  {
    WalkOneFolderShape(folder, dir);
    var sorted := SortBy(dir.children, NodeName);
    var files := Filter(sorted, Listed);
    var subdirs := Filter(sorted, Descended);
    var level := (if |files| > 0 then [Label(folder)] else []) + Buttons(folder, Filter(files, NameOk));
    if |files| > 0 {
      LevelUnderOwnLabel(folder, Filter(files, NameOk));
    } else {
      assert level == [];
    }
    WalkDirsUnderOwnLabel(folder, dir, subdirs);
    UnderOwnLabelAppend(level, WalkDirs(folder, dir, subdirs));
  }

  lemma {:induction false} WalkDirsUnderOwnLabel(folder: string, parent: Node, dirs: seq<Node>)
    requires parent.Dir?
    requires forall d :: d in dirs ==> d in parent.children && d.Dir?
    ensures UnderOwnLabel(WalkDirs(folder, parent, dirs))
    decreases parent, 0, |dirs|
  {
    if |dirs| > 0 {
      assert dirs[0] in parent.children;
      WalkOneFolderUnderOwnLabel(Join(folder, dirs[0].name), dirs[0]);
      WalkDirsUnderOwnLabel(folder, parent, dirs[1..]);
      UnderOwnLabelAppend(WalkOneFolder(Join(folder, dirs[0].name), dirs[0]), WalkDirs(folder, parent, dirs[1..]));
    }
  }

  /** A glob result provider: `glob(start, pattern)` lists what `Path(start).glob(pattern)` yields. */
  type Globber = (string, string) -> seq<Path>

  /** `p` is yielded by one of the patterns. */
  ghost predicate Matched(start: string, patterns: seq<string>, glob: Globber, p: Path) {
    exists k :: 0 <= k < |patterns| && p in glob(start, patterns[k])
  }

  /** The matches of every pattern in turn, keeping those whose name passes the guard. */
  function AcceptedMatches(start: string, patterns: seq<string>, glob: Globber): (r: seq<Path>)
    ensures forall p :: p in r <==> Matched(start, patterns, glob, p) && FilenameOk(p.name)
  {
    if |patterns| == 0 then []
    else
      var rest := AcceptedMatches(start, patterns[1..], glob);
      assert forall p :: Matched(start, patterns, glob, p) <==>
          p in glob(start, patterns[0]) || Matched(start, patterns[1..], glob, p) by {
        forall p
          ensures Matched(start, patterns, glob, p) <==>
            p in glob(start, patterns[0]) || Matched(start, patterns[1..], glob, p)
        {
          if Matched(start, patterns, glob, p) && p !in glob(start, patterns[0]) {
            var k :| 0 <= k < |patterns| && p in glob(start, patterns[k]);
            assert patterns[1..][k - 1] == patterns[k];
          }
          if Matched(start, patterns[1..], glob, p) {
            var k :| 0 <= k < |patterns[1..]| && p in glob(start, patterns[1..][k]);
            assert patterns[k + 1] == patterns[1..][k];
          }
        }
      }
      Filter(glob(start, patterns[0]), PathOk) + rest
  }

  /** The label followed by one button per path, in the paths' order. */
  function LabelledButtons(title: string, paths: seq<Path>): (r: seq<Cell>)
    ensures |r| == |paths| + 1 && r[0] == Label(title)
    ensures forall i :: 0 < i < |r| ==> r[i] == Button(paths[i - 1])
  {
    [Label(title)] + seq(|paths|, k requires 0 <= k < |paths| => Button(paths[k]))
  }

  lemma LabelledButtonsFacts(title: string, paths: seq<Path>)
    requires SortedBy(paths, PathName) && Distinct(paths)
    requires forall p :: p in paths ==> FilenameOk(p.name)
    ensures var r := LabelledButtons(title, paths);
      && (forall i :: 0 < i < |r| ==> r[i].target.Some? && Unsized(r[i]))
      && (forall i, j :: 0 < i < j < |r| ==> r[i].target != r[j].target && StrLe(r[i].title, r[j].title))
      && (forall p :: p in paths <==> exists i :: 0 < i < |r| && r[i].target == Some(p))
  {
    var r := LabelledButtons(title, paths);
    forall i | 0 < i < |r|
      ensures r[i].target.Some? && Unsized(r[i])
    {
      assert paths[i - 1] in paths;
    }
    forall i, j | 0 < i < j < |r|
      ensures r[i].target != r[j].target && StrLe(r[i].title, r[j].title)
    {
      assert r[i] == Button(paths[i - 1]) && r[j] == Button(paths[j - 1]);
    }
    forall p | p in paths
      ensures exists i :: 0 < i < |r| && r[i].target == Some(p)
    {
      var k :| 0 <= k < |paths| && paths[k] == p;
      assert r[k + 1].target == Some(p);
    }
  }

  /**
   Python's `emit_from_globs`: the label, always and first, then one button
   per distinct accepted match, sorted by name. The source takes the matches
   through a `set`, whose order is unspecified; the model fixes one order
   and the contract states what every order shares.
   */
  function EmitFromGlobs(start: string, title: string, patterns: seq<string>, glob: Globber): (r: seq<Cell>)
    ensures |r| > 0 && r[0] == Label(title)
    ensures forall i :: 0 < i < |r| ==> r[i].target.Some? && Unsized(r[i])
    ensures forall i, j :: 0 < i < j < |r| ==>
      r[i].target != r[j].target && StrLe(r[i].title, r[j].title)
    ensures forall p :: Matched(start, patterns, glob, p) && FilenameOk(p.name) <==>
      exists i :: 0 < i < |r| && r[i].target == Some(p)
  {
    var paths := AcceptedMatches(start, patterns, glob);
    var unique := Dedup(paths);
    var sorted := SortBy(unique, PathName);
    PermutationKeepsDistinct(unique, sorted);
    forall p
      ensures p in sorted <==> Matched(start, patterns, glob, p) && FilenameOk(p.name)
    {
      assert p in sorted <==> p in multiset(sorted);
      assert p in unique <==> p in paths;
    }
    LabelledButtonsFacts(title, sorted);
    LabelledButtons(title, sorted)
  }

  /** The file system as the scanner sees it: what a configured key names, and glob results. */
  datatype Disk = Disk(lookup: string -> Option<Node>, glob: Globber)

  /** One entry of the `[filebuttons.folders]` section: a folder key and its (possibly empty) value. */
  datatype FolderSetting = FolderSetting(key: string, value: string)

  /**
   The scanner's result. `NotADirectory` is the failed assertion of
   `walk_one_folder` when a key scanned recursively names a regular file.
   */
  datatype ScanOutcome = Scanned(cells: seq<Cell>) | NotADirectory(key: string)

  /** The label a glob-mode folder gets: `root` for the current directory, else the key itself. */
  function DisplayName(key: string): string {
    if key == "." then "root" else key
  }

  predicate GlobMode(f: FolderSetting, disk: Disk) {
    disk.lookup(f.key).Some? && f.value != ""
  }

  /** A key with an empty value, scanned recursively, that names a regular file. */
  predicate NamesFile(f: FolderSetting, disk: Disk) {
    disk.lookup(f.key).Some? && f.value == "" && disk.lookup(f.key).value.File?
  }

  /** `folders[i]` is the first folder that names a file where a directory is needed. */
  predicate FirstFileKey(folders: seq<FolderSetting>, i: int, disk: Disk) {
    0 <= i < |folders| && NamesFile(folders[i], disk) && forall j :: 0 <= j < i ==> !NamesFile(folders[j], disk)
  }

  /** What one configured folder contributes. */
  function ScanFolder(f: FolderSetting, disk: Disk): (r: ScanOutcome)
    ensures disk.lookup(f.key).None? ==> r == Scanned([])
    ensures GlobMode(f, disk) ==> r.Scanned? && |r.cells| > 0 && r.cells[0] == Label(DisplayName(f.key))
    ensures GlobMode(f, disk) ==>
      r == Scanned(EmitFromGlobs(f.key, DisplayName(f.key), SplitLines(f.value), disk.glob))
    ensures r.NotADirectory? <==> NamesFile(f, disk)
    ensures r.NotADirectory? ==> r.key == f.key
    ensures disk.lookup(f.key).Some? && f.value == "" && disk.lookup(f.key).value.Dir? ==>
      r == Scanned(WalkOneFolder(f.key, disk.lookup(f.key).value))
    ensures r.Scanned? ==> AllUnsized(r.cells)
  {
    match disk.lookup(f.key)
    case None => Scanned([])
    case Some(node) =>
      var name := DisplayName(f.key);
      if f.value != "" then
        var cells := EmitFromGlobs(f.key, name, SplitLines(f.value), disk.glob);
        assert AllUnsized(cells);
        Scanned(cells)
      else if node.Dir? then
        WalkOneFolderUnsized(f.key, node);
        Scanned(WalkOneFolder(f.key, node))
      else
        NotADirectory(f.key)
  }

  /**
   Python's `walk_project`: the folders' cells one folder after another,
   stopping at the first key that must be walked but names a file.
   */
  function WalkProject(folders: seq<FolderSetting>, disk: Disk): (r: ScanOutcome)
    ensures r.NotADirectory? <==> exists i :: 0 <= i < |folders| && NamesFile(folders[i], disk)
    ensures r.NotADirectory? ==> exists i :: FirstFileKey(folders, i, disk) && folders[i].key == r.key
    ensures r.Scanned? ==> AllUnsized(r.cells)
    ensures r.Scanned? ==> forall i :: 0 <= i < |folders| && GlobMode(folders[i], disk) ==>
      Label(DisplayName(folders[i].key)) in r.cells
  {
    if |folders| == 0 then Scanned([])
    else
      var first := ScanFolder(folders[0], disk);
      var rest := WalkProject(folders[1..], disk);
      assert forall i :: 0 < i < |folders| ==> folders[i] == folders[1..][i - 1];
      match first
      case NotADirectory(key) => NotADirectory(key)
      case Scanned(cells) =>
        match rest
        case NotADirectory(key) =>
          assert !NamesFile(folders[0], disk);
          var i :| FirstFileKey(folders[1..], i, disk) && folders[1..][i].key == key;
          assert forall j :: 0 <= j < i + 1 ==> !NamesFile(folders[j], disk) by {
            forall j | 0 <= j < i + 1
              ensures !NamesFile(folders[j], disk)
            {
              if j > 0 {
                assert folders[j] == folders[1..][j - 1];
              }
            }
          }
          assert FirstFileKey(folders, i + 1, disk);
          NotADirectory(key)
        case Scanned(more) =>
          AllUnsizedAppend(cells, more);
          assert forall i :: 0 <= i < |folders| ==> !NamesFile(folders[i], disk);
          Scanned(cells + more)
  }

  /** One folder's outcome followed by the rest's: the first failure wins, otherwise the cells are joined. */
  function AndThen(first: ScanOutcome, rest: ScanOutcome): ScanOutcome {
    if first.NotADirectory? then first
    else if rest.NotADirectory? then rest
    else Scanned(first.cells + rest.cells)
  }

  /** Keys that exist on disk; `walk_project` skips the others. */
  function Present(disk: Disk): FolderSetting -> bool {
    (f: FolderSetting) => disk.lookup(f.key).Some?
  }

  lemma AndThenAssoc(x: ScanOutcome, y: ScanOutcome, z: ScanOutcome)
    ensures AndThen(x, AndThen(y, z)) == AndThen(AndThen(x, y), z)
  {
    if x.Scanned? && y.Scanned? && z.Scanned? {
      AppendAssoc(x.cells, y.cells, z.cells);
    }
  }

  /** Contributing no cells changes nothing, on either side. */
  lemma AndThenEmpty(x: ScanOutcome)
    ensures AndThen(Scanned([]), x) == x
    ensures AndThen(x, Scanned([])) == x
  {
    if x.Scanned? {
      assert [] + x.cells == x.cells && x.cells + [] == x.cells;
    }
  }

  lemma WalkProjectCons(f: FolderSetting, rest: seq<FolderSetting>, disk: Disk)
    ensures WalkProject([f] + rest, disk) == AndThen(ScanFolder(f, disk), WalkProject(rest, disk))
  {
    assert ([f] + rest)[0] == f && ([f] + rest)[1..] == rest;
  }

  /** A single configured key contributes exactly what `ScanFolder` gives for it. */
  lemma WalkProjectSingle(f: FolderSetting, disk: Disk)
    ensures WalkProject([f], disk) == ScanFolder(f, disk)
  {
    assert [f] == [f] + [];
    WalkProjectCons(f, [], disk);
    AndThenEmpty(ScanFolder(f, disk));
  }

  /**
   Scanning the keys `a` and then the keys `b` is scanning `a + b`: the cells
   come key by key in configured order, and the first failing key wins.
   */
  lemma {:induction false} WalkProjectAppend(a: seq<FolderSetting>, b: seq<FolderSetting>, disk: Disk)
    ensures WalkProject(a + b, disk) == AndThen(WalkProject(a, disk), WalkProject(b, disk))
    decreases |a|
  {
    if |a| == 0 {
      assert a + b == b;
      AndThenEmpty(WalkProject(b, disk));
    } else {
      assert a + b == [a[0]] + (a[1..] + b);
      assert a == [a[0]] + a[1..];
      WalkProjectCons(a[0], a[1..] + b, disk);
      WalkProjectAppend(a[1..], b, disk);
      WalkProjectCons(a[0], a[1..], disk);
      AndThenAssoc(ScanFolder(a[0], disk), WalkProject(a[1..], disk), WalkProject(b, disk));
    }
  }

  /** Keys that do not exist contribute nothing: scanning only the existing keys gives the same outcome. */
  lemma {:induction false} WalkProjectSkipsMissing(folders: seq<FolderSetting>, disk: Disk)
    ensures WalkProject(folders, disk) == WalkProject(Filter(folders, Present(disk)), disk)
    decreases |folders|
  {
    if |folders| > 0 {
      var f, rest := folders[0], folders[1..];
      assert folders == [f] + rest;
      FilterCons(f, rest, Present(disk));
      WalkProjectCons(f, rest, disk);
      WalkProjectSkipsMissing(rest, disk);
      if Present(disk)(f) {
        WalkProjectCons(f, Filter(rest, Present(disk)), disk);
      } else {
        assert Filter(folders, Present(disk)) == Filter(rest, Present(disk));
        AndThenEmpty(WalkProject(rest, disk));
      }
    }
  }
}
