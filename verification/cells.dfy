/**
 The layout cell and the values it refers to: an optional file path and the
 integers read once from the settings file at startup.
 */
module Cells {

  datatype Option<+T> = None | Some(value: T)

  /**
   A file path as the scanner produces it: the POSIX text of the directory it
   was found in and its final component, which is what `Path.name` returns.
   */
  datatype Path = Path(parent: string, name: string)

  /**
   A label (no target) or a file button (target present). `height` is 0
   until the text layout step assigns the short or tall height.
   */
  datatype Cell = Cell(title: string, target: Option<Path>, height: int)

  /** The integer settings that the layout pipeline reads as module constants. */
  datatype Settings = Settings(
    buttonWidth: int,
    wrapWidth: int,
    shortHeight: int,
    tallHeight: int,
    spacing: int)

  /** `folder / name` rendered with `as_posix()`: joining onto `"."` gives the bare name. */
  function Join(folder: string, name: string): string {
    if folder == "." then name else folder + "/" + name
  }

  /** An unsized folder label. */
  function Label(title: string): Cell {
    Cell(title, None, 0)
  }

  /** An unsized file button, titled with the file's own name. */
  function Button(p: Path): Cell {
    Cell(p.name, Some(p), 0)
  }

  predicate IsLabel(c: Cell) {
    c.target.None?
  }
}
