/**
 Text layout: wrapping a title at its character midpoint and giving each
 cell the short or the tall button height.
 */
module Layout {
  import opened Strings
  import opened Cells
  import opened Filenames

  /** Where the newline goes: the `divmod(width, 2)` quotient, plus one when `width` is odd. */
  function SplitIndex(width: nat): nat {
    var index := width / 2;
    if width % 2 == 1 then index + 1 else index
  }

  /** `s` with the character at `k` deleted. */
  function RemoveAt(s: string, k: nat): string
    requires k < |s|
  {
    s[..k] + s[k + 1..]
  }

  /**
   Breaks `text` into two lines when it is longer than `width` characters;
   the newline sits at ceil(|text| / 2), and deleting it gives `text` back.
   */
  function Wrap(text: string, width: int): (r: string)
    ensures |text| <= width ==> r == text
    ensures |text| > width ==> |r| == |text| + 1
    ensures |text| > width ==> r[(|text| + 1) / 2] == '\n' && RemoveAt(r, (|text| + 1) / 2) == text
  {
    var n := |text|;
    if n > width then
      var index := SplitIndex(n);
      var r := text[..index] + "\n" + text[index..];
      assert r[..index] == text[..index] && r[index + 1..] == text[index..];
      r
    else
      text
  }

  /**
   Of the two lines a wrap makes, the first is as long as the second or one
   character longer, and together they hold all of `text`.
   */
  lemma WrapHalves(text: string, width: int)
    requires |text| > width
    ensures var r := Wrap(text, width); var k := (|text| + 1) / 2;
      && r[..k] + r[k + 1..] == text
      && 0 <= |r[..k]| - |r[k + 1..]| <= 1
  {
  }

  /** A long text is wrapped by inserting one newline at the split index. */
  lemma WrapShape(text: string, width: int)
    requires |text| > width
    ensures Wrap(text, width) == text[..SplitIndex(|text|)] + "\n" + text[SplitIndex(|text|)..]
  {
  }

  /** Putting a newline between two parts counts one newline more than the parts together. */
  lemma NewlineBetween(front: string, back: string)
    ensures CountChar(front + "\n" + back, '\n') == CountChar(front + back, '\n') + 1
  {
    CountCharAppend(front + "\n", back, '\n');
    CountCharAppend(front, "\n", '\n');
    CountCharAppend(front, back, '\n');
    assert CountChar("\n", '\n') == 1;
  }

  /** Inserting a newline at `k` counts one newline more than the text had. */
  lemma NewlineCounted(text: string, k: nat)
    requires k <= |text|
    ensures CountChar(text[..k] + "\n" + text[k..], '\n') == CountChar(text, '\n') + 1
  {
    assert text == text[..k] + text[k..];
    NewlineBetween(text[..k], text[k..]);
  }

  /** Wrapping adds exactly one newline to a long text and none to a short one. */
  lemma WrapNewlines(text: string, width: int)
    ensures CountChar(Wrap(text, width), '\n') == CountChar(text, '\n') + (if |text| > width then 1 else 0)
  {
    if |text| > width {
      var k := SplitIndex(|text|);
      WrapShape(text, width);
      NewlineCounted(text, k);
    }
  }

  /** A long text made of `front` and `back` wraps between the two when `front` ends at the split index. */
  lemma WrapBetween(front: string, back: string, width: int)
    requires |front| + |back| > width && |front| == SplitIndex(|front| + |back|)
    ensures Wrap(front + back, width) == front + "\n" + back
  {
    var text := front + back;
    WrapShape(text, width);
    assert text[..|front|] == front && text[|front|..] == back;
  }

  /** The startup test's odd-length case: 23 characters at width 22 split after the twelfth. */
  lemma WrapOddExample(text: string)
    requires text == "12345678901234567890123"
    ensures Wrap(text, 22) == "123456789012\n34567890123"
  {
    var front, back := text[..12], text[12..];
    assert text == front + back;
    WrapBetween(front, back, 22);
    assert front + "\n" + back == "123456789012\n34567890123" by {
      assert front == "123456789012" && back == "34567890123";
    }
  }

  /** The startup test's even-length case: 24 characters at width 22 split after the twelfth. */
  lemma WrapEvenExample(text: string)
    requires text == "123456789012345678901234"
    ensures Wrap(text, 22) == "123456789012\n345678901234"
  {
    var front, back := text[..12], text[12..];
    assert text == front + back;
    WrapBetween(front, back, 22);
    assert front + "\n" + back == "123456789012\n345678901234" by {
      assert front == "123456789012" && back == "345678901234";
    }
  }

  /** The startup test's cases that fit the default width of 22: a text of one character and one of exactly 22. */
  lemma WrapShortExamples()
    ensures Wrap("a", 22) == "a"
    ensures Wrap("1234567890123456789012", 22) == "1234567890123456789012"
  {
  }

  /** The text a cell is sized by: a label's own title, a button's file name. */
  function SizingText(c: Cell): string {
    match c.target
    case None => c.title
    case Some(p) => p.name
  }

  /**
   The sized copy of one cell: wrapped text, same target, and the tall height
   exactly when the wrapped text has more than one line.
   */
  function SizeCell(c: Cell, s: Settings): (r: Cell)
    ensures r.target == c.target
    ensures r.title == Wrap(SizingText(c), s.wrapWidth)
    ensures r.height == if |SizingText(c)| > s.wrapWidth || '\n' in SizingText(c)
                        then s.tallHeight else s.shortHeight
  {
    var text := Wrap(SizingText(c), s.wrapWidth);
    WrapNewlines(SizingText(c), s.wrapWidth);
    var numLines := CountChar(text, '\n') + 1;
    var height := if numLines > 1 then s.tallHeight else s.shortHeight;
    Cell(text, c.target, height)
  }

  /** Sizes every cell, keeping the order: the cell at each position is the sized copy of the input's. */
  function ComputeHeights(cells: seq<Cell>, s: Settings): (r: seq<Cell>)
    ensures |r| == |cells|
    ensures forall i :: 0 <= i < |r| ==> r[i] == SizeCell(cells[i], s)
  {
    seq(|cells|, i requires 0 <= i < |cells| => SizeCell(cells[i], s))
  }

  /**
   Position `i` after sizing: same target, the wrapped text, and the tall
   height exactly when the text is too long or already multi-line.
   */
  lemma SizedAt(cells: seq<Cell>, s: Settings, i: int)
    requires 0 <= i < |cells|
    ensures var r := ComputeHeights(cells, s)[i]; var text := SizingText(cells[i]);
      && r.target == cells[i].target
      && r.title == Wrap(text, s.wrapWidth)
      && r.height == if |text| > s.wrapWidth || '\n' in text then s.tallHeight else s.shortHeight
  {
  }

  /**
   A button whose name passed the filename guard is tall exactly when its
   name is longer than the wrap width.
   */
  lemma ButtonTallWhenLong(cells: seq<Cell>, s: Settings, i: int)
    requires 0 <= i < |cells| && cells[i].target.Some?
    requires FilenameOk(cells[i].target.value.name)
    ensures var name := cells[i].target.value.name;
      ComputeHeights(cells, s)[i].height == if |name| > s.wrapWidth then s.tallHeight else s.shortHeight
  {
    FilenameOkSingleLine(cells[i].target.value.name);
    SizedAt(cells, s, i);
  }
}
