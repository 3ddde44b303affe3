/**
 The startup pipeline run once at import time: scan the configured folders,
 size the cells, pack them into columns and derive the window width.
 */
module Startup {
  import opened Cells
  import opened Scanner
  import opened Layout
  import opened Columns

  /** What the presentation layer receives. */
  datatype Window = Window(columns: seq<seq<Cell>>, numColumns: nat, layoutWidth: int)

  datatype StartupOutcome = Started(window: Window) | ScanFailed(key: string)

  /**
   A scanned button, once sized, keeps its file name as its text (wrapped)
   and is tall exactly when that name is longer than the wrap width.
   */
  lemma SizedButtons(cells: seq<Cell>, s: Settings)
    requires AllUnsized(cells)
    ensures forall c :: c in ComputeHeights(cells, s) && c.target.Some? ==>
      && c.title == Wrap(c.target.value.name, s.wrapWidth)
      && c.height == if |c.target.value.name| > s.wrapWidth then s.tallHeight else s.shortHeight
  {
    var sized := ComputeHeights(cells, s);
    forall c | c in sized && c.target.Some?
      ensures c.title == Wrap(c.target.value.name, s.wrapWidth)
      ensures c.height == if |c.target.value.name| > s.wrapWidth then s.tallHeight else s.shortHeight
    {
      var i :| 0 <= i < |sized| && sized[i] == c;
      assert Unsized(cells[i]);
      SizedAt(cells, s, i);
      ButtonTallWhenLong(cells, s, i);
    }
  }

  /**
   The module-level pipeline: `walk_project`, then `compute_heights`, then
   `make_columns`, then the column count and the window width.
   */
  method Start(folders: seq<FolderSetting>, disk: Disk, s: Settings, windowHeight: int)
    returns (r: StartupOutcome)
    requires windowHeight >= Reserved(s)
    ensures r.ScanFailed? <==> WalkProject(folders, disk).NotADirectory?
    ensures r.ScanFailed? ==> r.key == WalkProject(folders, disk).key
    ensures r.Started? ==> Packed(r.window.columns, ComputeHeights(WalkProject(folders, disk).cells, s), windowHeight, s)
    ensures r.Started? ==> r.window.numColumns == |r.window.columns|
    ensures r.Started? ==> r.window.layoutWidth == r.window.numColumns * s.buttonWidth + s.spacing
    ensures r.Started? ==> forall c :: c in Flatten(r.window.columns) && c.target.Some? ==>
      c.height == if |c.target.value.name| > s.wrapWidth then s.tallHeight else s.shortHeight
  {
    var scanned := WalkProject(folders, disk);
    if scanned.NotADirectory? {
      return ScanFailed(scanned.key);
    }
    var sized := ComputeHeights(scanned.cells, s);
    SizedButtons(scanned.cells, s);
    var columns := MakeColumns(sized, windowHeight, s);
    var numColumns := |columns|;
    var layoutWidth := numColumns * s.buttonWidth + s.spacing;
    r := Started(Window(columns, numColumns, layoutWidth));
  }
}
