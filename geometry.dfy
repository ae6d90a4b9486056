/** Dialog geometry in regedit_dialog.c: center_dialog_above_window, the
    message width rule of dialog_msg_new, and the layout dialog_edit_value
    gives its name field, data field and button row. */
module Geometry {
  import opened RegTypes

  /** Size and origin of a dialog window, in screen cells. */
  datatype Placement = Placement(nlines: int, ncols: int, y: int, x: int)

  /** center_dialog_above_window: clamp the requested size to the window
      below (maxy rows, maxx columns); in each direction, a dialog smaller
      than half the window ends at the window's centre line, any other
      starts at 0. The dialog always fits inside the window. */
  function CenterAbove(maxy: nat, maxx: nat, nlines: int, ncols: int): (p: Placement)
    ensures p.nlines == Min(nlines, maxy) && p.ncols == Min(ncols, maxx)
    ensures 0 <= p.y && 0 <= p.x
    ensures p.y + p.nlines <= maxy && p.x + p.ncols <= maxx
    ensures p.nlines < maxy / 2 ==> p.y + p.nlines == maxy / 2
    ensures p.nlines >= maxy / 2 ==> p.y == 0
    ensures p.ncols < maxx / 2 ==> p.x + p.ncols == maxx / 2
    ensures p.ncols >= maxx / 2 ==> p.x == 0
  {
    var centery := maxy / 2;
    var centerx := maxx / 2;
    var lines := if nlines > maxy then maxy else nlines;
    var cols := if ncols > maxx then maxx else ncols;
    var y := if lines < centery then centery - lines else 0;
    var x := if cols < centerx then centerx - cols else 0;
    Placement(lines, cols, y, x)
  }

  const MIN_WIDTH: int := 20

  /** dialog_msg_new's width: the formatted message plus its two border
      cells, and never under MIN_WIDTH, i.e. max(len + 2, 20). */
  function MessageWidth(msgLen: nat): (w: int)
    ensures w >= msgLen + 2 && w >= MIN_WIDTH
    ensures w == msgLen + 2 || w == MIN_WIDTH
  {
    var width := msgLen + 2;
    if width < MIN_WIDTH then MIN_WIDTH else width
  }

  /** The edit dialog is 50 columns wide. */
  const EDIT_COLS: int := 50
  /** Rows of the name field and of the top of the data field, inside the
      form window. */
  const NAME_ROW: int := 1
  const DATA_ROW: int := 4

  /** Rows of the data text field: five for REG_MULTI_SZ, one otherwise. */
  function DataRows(t: RegType): (rows: int)
    ensures rows == 1 || rows == 5
    ensures rows == 5 <==> t == RegMultiSz
  {
    if t == RegMultiSz then 1 + 4 else 1
  }

  /** dialog_edit_value's height: 9 rows, 4 more for REG_MULTI_SZ, 10 more
      for REG_BINARY's hex editor. */
  function EditLines(t: RegType): (n: int)
    ensures n == 9 || n == 13 || n == 19
    ensures n == 13 <==> t == RegMultiSz
    ensures n == 19 <==> t == RegBinary
  {
    var nlines := 9;
    if t == RegMultiSz then nlines + 4
    else if t == RegBinary then nlines + 10
    else nlines
  }

  /** For a text-valued kind the requested layout does not collide: the
      form window covers the top nlines - 3 rows of the box's content area,
      the button row is the row below it, and the data field (rows from
      DATA_ROW on) ends inside the form window, below the name field. */
  lemma TextLayoutFits(t: RegType)
    requires t != RegBinary
    ensures NAME_ROW < DATA_ROW
    ensures DATA_ROW + DataRows(t) <= EditLines(t) - 3
  {
  }
}
