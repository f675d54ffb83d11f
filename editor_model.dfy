/**
 * The editor's state as values, and what each operation does to it: cursor movement
 * (editorMoveCursor), the cursor cases of editorProcessKeypress, scrolling (editorScroll)
 * and turning the lines of a file into rows (editorOpen).
 *
 * Where the code as written misbehaves, two definitions stand side by side: the
 * `...AsWritten` one follows the code line for line, the other is the corrected one that
 * the Editor class implements, and a lemma states exactly where the two differ.
 */
module EditorModel {
  import opened Bytes
  import opened Common
  import opened KeyDecoder

  /** One line of the file, without its line terminator; its size is the number of bytes. */
  datatype Row = Row(chars: seq<byte>) {
    function Size(): (n: nat) { |chars| }
  }

  /** Length of row y, or 0 for the virtual row past the end of the file. */
  function RowLen(rows: seq<Row>, y: int): (n: nat)
    ensures 0 <= y < |rows| ==> n == rows[y].Size()
    ensures y == |rows| ==> n == 0
  {
    if 0 <= y < |rows| then rows[y].Size() else 0
  }

  /** Cursor position: column cx in row cy. */
  datatype Cursor = Cursor(cx: int, cy: int)

  /** The cursor is on a row of the file or on the virtual row after it, at a column >= 0. */
  predicate InBuffer(rows: seq<Row>, c: Cursor) {
    0 <= c.cy <= |rows| && 0 <= c.cx
  }

  /** The final step of editorMoveCursor: a column past the end of its row moves back to the end. */
  function ClampColumn(rows: seq<Row>, c: Cursor): (r: Cursor)
    ensures r.cy == c.cy && r.cx <= RowLen(rows, c.cy)
    ensures c.cx <= RowLen(rows, c.cy) ==> r == c
    ensures c.cx > RowLen(rows, c.cy) ==> r.cx == RowLen(rows, c.cy)
  {
    if c.cx > RowLen(rows, c.cy) then Cursor(RowLen(rows, c.cy), c.cy) else c
  }

  /** editorMoveCursor exactly as written, including the column it gives an empty previous row. */
  function MovedAsWritten(rows: seq<Row>, c: Cursor, key: Key): (r: Cursor)
    ensures 0 <= c.cy <= |rows| ==> 0 <= r.cy <= |rows|
    ensures r.cx <= RowLen(rows, r.cy)
  {
    var stepped :=
      match key
      case ArrowLeft =>
        if c.cx != 0 then Cursor(c.cx - 1, c.cy)
        else if c.cy > 0 then Cursor(RowLen(rows, c.cy - 1) - 1, c.cy - 1)
        else c
      case ArrowRight =>
        if c.cy < |rows| && c.cx < RowLen(rows, c.cy) then Cursor(c.cx + 1, c.cy)
        else if c.cy < |rows| && c.cx == RowLen(rows, c.cy) then Cursor(0, c.cy + 1)
        else c
      case ArrowUp => if c.cy != 0 then Cursor(c.cx, c.cy - 1) else c
      case ArrowDown => if c.cy < |rows| - 1 then Cursor(c.cx, c.cy + 1) else c
      case _ => c;
    ClampColumn(rows, stepped)
  }

  /** True in the one case where the code as written leaves the column at -1. */
  predicate LeftWrapOntoEmptyRow(rows: seq<Row>, c: Cursor, key: Key) {
    key.ArrowLeft? && c.cx == 0 && c.cy > 0 && RowLen(rows, c.cy - 1) == 0
  }

  /**
   * editorMoveCursor with the wrap of ARROW_LEFT corrected: from column 0 it moves to the
   * last byte of the previous row, or to column 0 when that row is empty.
   */
  function Moved(rows: seq<Row>, c: Cursor, key: Key): (r: Cursor)
    ensures InBuffer(rows, c) ==> InBuffer(rows, r)
    ensures r.cx <= RowLen(rows, r.cy)
  {
    if key.ArrowLeft? && c.cx == 0 && c.cy > 0 then
      Cursor(Max(RowLen(rows, c.cy - 1) - 1, 0), c.cy - 1)
    else
      MovedAsWritten(rows, c, key)
  }

  /**
   * The movement rules: each arrow moves one step, wraps at the ends of rows and stays
   * inside the buffer; any other key only clamps the column. The rules hold also for a
   * column past the end of its row, where the final clamp pulls it back.
   */
  lemma MoveRules(rows: seq<Row>, c: Cursor, key: Key)
    requires InBuffer(rows, c)
    ensures var r := Moved(rows, c, key);
      && (key.ArrowRight? && c.cy < |rows| && c.cx == RowLen(rows, c.cy) ==> r == Cursor(0, c.cy + 1))
      && (key.ArrowRight? && c.cy < |rows| && c.cx < RowLen(rows, c.cy) ==> r == Cursor(c.cx + 1, c.cy))
      && (key.ArrowRight? && c.cy < |rows| && c.cx > RowLen(rows, c.cy) ==> r == Cursor(RowLen(rows, c.cy), c.cy))
      && (key.ArrowRight? && c.cy == |rows| ==> r == Cursor(0, c.cy))
      && (key.ArrowLeft? && c.cx > 0 ==> r == Cursor(Min(c.cx - 1, RowLen(rows, c.cy)), c.cy))
      && (key.ArrowLeft? && c.cx == 0 && c.cy > 0 ==> r == Cursor(Max(RowLen(rows, c.cy - 1) - 1, 0), c.cy - 1))
      && (key.ArrowLeft? && c == Cursor(0, 0) ==> r == c)
      && (key.ArrowUp? ==> r.cy == Max(c.cy - 1, 0) && r.cx == Min(c.cx, RowLen(rows, r.cy)))
      && (key.ArrowDown? ==> r.cy == (if c.cy < |rows| - 1 then c.cy + 1 else c.cy)
                             && r.cx == Min(c.cx, RowLen(rows, r.cy)))
      && (!(key.ArrowLeft? || key.ArrowRight? || key.ArrowUp? || key.ArrowDown?) ==> r == ClampColumn(rows, c))
  {
  }

  /**
   * The code as written differs from the corrected movement in exactly one case, where it
   * leaves the column at -1; everywhere else the two agree.
   */
  lemma MovedAsWrittenDiffers(rows: seq<Row>, c: Cursor, key: Key)
    requires InBuffer(rows, c)
    ensures MovedAsWritten(rows, c, key).cx < 0 <==> LeftWrapOntoEmptyRow(rows, c, key)
    ensures LeftWrapOntoEmptyRow(rows, c, key) ==> MovedAsWritten(rows, c, key) == Cursor(-1, c.cy - 1)
    ensures !LeftWrapOntoEmptyRow(rows, c, key) ==> MovedAsWritten(rows, c, key) == Moved(rows, c, key)
  {
  }

  /** ARROW_LEFT at the start of row 1 below an empty row 0: the code as written gives column -1. */
  lemma LeftWrapUnderflow()
    ensures MovedAsWritten([Row([]), Row(['a' as int])], Cursor(0, 1), ArrowLeft) == Cursor(-1, 0)
    ensures Moved([Row([]), Row(['a' as int])], Cursor(0, 1), ArrowLeft) == Cursor(0, 0)
  {
  }

  /**
   * The cursor cases of editorProcessKeypress as written. PAGE_DOWN and END read the
   * size of row cy even when cy is the virtual row past the end; that read is out of
   * bounds, shown here as None. PAGE_UP changes the row without clamping the column.
   */
  function KeypressAsWritten(rows: seq<Row>, c: Cursor, key: Key): (r: Option<Cursor>)
    ensures InBuffer(rows, c) && r.Some? ==> 0 <= r.value.cy <= |rows|
    ensures r.Some? && !key.PageUp? && c.cx <= RowLen(rows, c.cy) ==> r.value.cx <= RowLen(rows, r.value.cy)
  {
    match key
    case ArrowLeft => Some(MovedAsWritten(rows, c, key))
    case ArrowRight => Some(MovedAsWritten(rows, c, key))
    case ArrowUp => Some(MovedAsWritten(rows, c, key))
    case ArrowDown => Some(MovedAsWritten(rows, c, key))
    case PageUp => Some(Cursor(c.cx, 0))
    case PageDown =>
      var cy := if c.cy < |rows| then |rows| - 1 else c.cy;
      if 0 <= cy < |rows| then
        Some(if c.cx > rows[cy].Size() then Cursor(rows[cy].Size(), cy) else Cursor(c.cx, cy))
      else None
    case HomeKey => Some(Cursor(0, c.cy))
    case EndKey => if 0 <= c.cy < |rows| then Some(Cursor(rows[c.cy].Size(), c.cy)) else None
    case _ => Some(c)
  }

  /**
   * The cursor cases of editorProcessKeypress, corrected: the arrows move as Moved does,
   * PAGE_DOWN and END take the virtual row past the end to have length 0, as
   * editorMoveCursor does, and PAGE_UP clamps the column to row 0 as PAGE_DOWN clamps it
   * to the last row.
   */
  function Keypress(rows: seq<Row>, c: Cursor, key: Key): (r: Cursor)
    ensures InBuffer(rows, c) ==> InBuffer(rows, r)
    ensures c.cx <= RowLen(rows, c.cy) ==> r.cx <= RowLen(rows, r.cy)
    ensures key.PageUp? ==> r == Cursor(Min(c.cx, RowLen(rows, 0)), 0)
    ensures key.HomeKey? ==> r == Cursor(0, c.cy)
    ensures key.EndKey? ==> r == Cursor(RowLen(rows, c.cy), c.cy)
    ensures key.PageDown? && 0 <= c.cy < |rows| ==> r == Cursor(Min(c.cx, RowLen(rows, |rows| - 1)), |rows| - 1)
    ensures key.PageDown? && c.cy >= |rows| ==> r == Cursor(Min(c.cx, RowLen(rows, c.cy)), c.cy)
    ensures key.Byte? || key.DeleteKey? ==> r == c
  {
    match key
    case ArrowLeft => Moved(rows, c, key)
    case ArrowRight => Moved(rows, c, key)
    case ArrowUp => Moved(rows, c, key)
    case ArrowDown => Moved(rows, c, key)
    case PageUp => ClampColumn(rows, Cursor(c.cx, 0))
    case PageDown =>
      var cy := if c.cy < |rows| then |rows| - 1 else c.cy;
      if c.cx > RowLen(rows, cy) then Cursor(RowLen(rows, cy), cy) else Cursor(c.cx, cy)
    case HomeKey => Cursor(0, c.cy)
    case EndKey => Cursor(RowLen(rows, c.cy), c.cy)
    case _ => c
  }

  /** True in the one case where PAGE_UP as written leaves the column past the end of row 0. */
  predicate PageUpPastRowEnd(rows: seq<Row>, c: Cursor, key: Key) {
    key.PageUp? && c.cx > RowLen(rows, 0)
  }

  /**
   * The code as written reads out of bounds exactly when PAGE_DOWN or END is pressed on
   * the virtual row past the end (in particular on an empty buffer); PAGE_UP leaves the
   * column past the end of row 0 exactly when it is longer than that row; apart from these
   * and the ARROW_LEFT wrap it agrees with the corrected Keypress.
   */
  lemma KeypressAsWrittenDiffers(rows: seq<Row>, c: Cursor, key: Key)
    requires InBuffer(rows, c)
    ensures KeypressAsWritten(rows, c, key).None? <==> (key.PageDown? || key.EndKey?) && c.cy == |rows|
    ensures key.PageUp? ==> (KeypressAsWritten(rows, c, key).value.cx > RowLen(rows, 0)
                             <==> PageUpPastRowEnd(rows, c, key))
    ensures PageUpPastRowEnd(rows, c, key)
            ==> KeypressAsWritten(rows, c, key) == Some(Cursor(c.cx, 0))
                && Keypress(rows, c, key) == Cursor(RowLen(rows, 0), 0)
    ensures KeypressAsWritten(rows, c, key).Some? && !LeftWrapOntoEmptyRow(rows, c, key)
            && !PageUpPastRowEnd(rows, c, key)
            ==> KeypressAsWritten(rows, c, key) == Some(Keypress(rows, c, key))
  {
    if key.ArrowLeft? || key.ArrowRight? || key.ArrowUp? || key.ArrowDown? {
      MovedAsWrittenDiffers(rows, c, key);
    }
  }

  /** END on an empty buffer: the code as written reads E.rows[0] of a buffer with no rows. */
  lemma EndOnEmptyBufferFaults()
    ensures KeypressAsWritten([], Cursor(0, 0), EndKey).None?
    ensures KeypressAsWritten([], Cursor(0, 0), PageDown).None?
    ensures Keypress([], Cursor(0, 0), EndKey) == Cursor(0, 0)
  {
  }

  /**
   * PAGE_UP from column 2 of row 1 below an empty row 0: the code as written leaves the
   * cursor at column 2 of the empty row; corrected, it is clamped to column 0.
   */
  lemma PageUpLeavesColumnPastRowEnd()
    ensures var rows := [Row([]), Row(['a' as int, 'b' as int])];
      && KeypressAsWritten(rows, Cursor(2, 1), PageUp) == Some(Cursor(2, 0))
      && 2 > RowLen(rows, 0)
      && Keypress(rows, Cursor(2, 1), PageUp) == Cursor(0, 0)
  {
  }

  /**
   * One axis of editorScroll: the offset moves up to the cursor when the cursor is above
   * (left of) the window, and just far enough down (right) when it is below it.
   */
  function ScrollAxis(off: int, pos: int, extent: int): (r: int)
    ensures extent >= 1 ==> r <= pos < r + extent
    ensures off <= pos < off + extent ==> r == off
    ensures 0 <= off && 0 <= pos ==> 0 <= r
  {
    var up := if pos < off then pos else off;
    if pos >= up + extent then pos - extent + 1 else up
  }

  /** The whole state that editorScroll, editorDrawRows and editorRefreshScreen read. */
  datatype EditorState = EditorState(
    rows: seq<Row>,
    cx: int, cy: int,
    rowOff: int, colOff: int,
    screenRows: int, screenCols: int)

  /** editorScroll: both offsets moved so that the cursor is inside the window. */
  function Scrolled(s: EditorState): (r: EditorState)
    ensures r.rows == s.rows && r.cx == s.cx && r.cy == s.cy
    ensures r.screenRows == s.screenRows && r.screenCols == s.screenCols
    ensures s.screenRows >= 1 ==> r.rowOff <= r.cy < r.rowOff + r.screenRows
    ensures s.screenCols >= 1 ==> r.colOff <= r.cx < r.colOff + r.screenCols
  {
    s.(rowOff := ScrollAxis(s.rowOff, s.cy, s.screenRows),
       colOff := ScrollAxis(s.colOff, s.cx, s.screenCols))
  }

  /** Scrolling twice is scrolling once: a window that already shows the cursor is left alone. */
  lemma ScrollIdempotent(s: EditorState)
    requires s.screenRows >= 1 && s.screenCols >= 1
    ensures Scrolled(Scrolled(s)) == Scrolled(s)
  {
  }

  /** A line read by getline with every trailing '\n' and '\r' removed. */
  function TrimEol(line: seq<byte>): (r: seq<byte>)
    ensures |r| <= |line| && r == line[..|r|]
  {
    if |line| > 0 && (line[|line| - 1] == LF || line[|line| - 1] == CR)
    then TrimEol(line[..|line| - 1])
    else line
  }

  /**
   * TrimEol removes the longest run of '\n' and '\r' at the end of the line and nothing
   * else: what it keeps does not end in either, and all it drops is made of them.
   */
  lemma {:induction false} TrimEolRemovesLineEnds(line: seq<byte>)
    ensures var r := TrimEol(line);
      && r == line[..|r|]
      && (|r| > 0 ==> r[|r| - 1] != LF && r[|r| - 1] != CR)
      && (forall i :: |r| <= i < |line| ==> line[i] == LF || line[i] == CR)
  {
    if |line| > 0 && (line[|line| - 1] == LF || line[|line| - 1] == CR) {
      var shorter := line[..|line| - 1];
      TrimEolRemovesLineEnds(shorter);
      var r := TrimEol(shorter);
      forall i | |r| <= i < |line|
        ensures line[i] == LF || line[i] == CR
      {
        if i < |line| - 1 {
          assert line[i] == shorter[i];
        }
      }
    }
  }

  /** The rows editorOpen makes of the lines of a file: one row per line, line ends trimmed. */
  function LoadedRows(lines: seq<seq<byte>>): (rows: seq<Row>)
    ensures |rows| == |lines|
    ensures forall i :: 0 <= i < |lines| ==> rows[i] == Row(TrimEol(lines[i]))
  {
    seq(|lines|, i requires 0 <= i < |lines| => Row(TrimEol(lines[i])))
  }

  /** editorOpen as written: the getline before the loop reads the first line and drops it. */
  function OpenedAsWritten(lines: seq<seq<byte>>): (rows: seq<Row>)
    ensures |rows| == Max(|lines| - 1, 0)
    ensures forall i :: 0 <= i < |rows| ==> rows[i] == Row(TrimEol(lines[i + 1]))
  {
    if lines == [] then [] else LoadedRows(lines[1..])
  }

  /** The code as written loses the first line of every non-empty file. */
  lemma OpenDropsFirstLine(lines: seq<seq<byte>>)
    requires lines != []
    ensures |OpenedAsWritten(lines)| == |LoadedRows(lines)| - 1
    ensures OpenedAsWritten(lines) == LoadedRows(lines)[1..]
  {
  }
}
