/**
 * The global editor state `E` and the operations that update it in place: loading rows,
 * moving the cursor, handling a key, scrolling, and drawing a frame into an append buffer.
 */
module Editor {
  import opened Bytes
  import opened Common
  import opened KeyDecoder
  import opened AppendBuffer
  import opened EditorModel
  import opened Render

  class EditorConfig {
    var cx: int
    var cy: int
    var rowOff: int
    var colOff: int
    var screenRows: int
    var screenCols: int
    var numRows: int
    var rows: seq<Row>

    /**
     * numRows counts the rows; the cursor is on a row or on the virtual row after the last
     * one, at a column from 0 to the length of its row; offsets and screen size are not
     * negative.
     */
    ghost predicate Valid()
      reads this
    {
      && numRows == |rows|
      && InBuffer(rows, Cursor(cx, cy))
      && cx <= RowLen(rows, cy)
      && Drawable(State())
    }

    /** The fields as one value, the form in which the specification functions take them. */
    function State(): (s: EditorState)
      reads this
    {
      EditorState(rows, cx, cy, rowOff, colOff, screenRows, screenCols)
    }

    /** The cursor position. */
    function CursorAt(): (c: Cursor)
      reads this
    {
      Cursor(cx, cy)
    }

    /** initEditorConfig, with the window size the terminal reported. */
    constructor (windowRows: int, windowCols: int)
      requires windowRows >= 0 && windowCols >= 0
      ensures Valid()
      ensures State() == EditorState([], 0, 0, 0, 0, windowRows, windowCols)
    {
      cx, cy := 0, 0;
      rowOff, colOff := 0, 0;
      numRows := 0;
      rows := [];
      screenRows, screenCols := windowRows, windowCols;
    }

    /** editorAppendRow: a new last row holding the first len bytes of s. */
    method AppendRow(s: seq<byte>, len: int)
      requires Valid()
      requires 0 <= len <= |s|
      modifies this`rows, this`numRows
      ensures Valid()
      ensures numRows == old(numRows) + 1
      ensures rows == old(rows) + [Row(s[..len])]
      ensures rows[|rows| - 1].Size() == len
    {
      rows := rows + [Row(s[..len])];
      numRows := numRows + 1;
    }

    /**
     * editorOpen, given the lines getline returns: every line, with its trailing line ends
     * removed, becomes a row after the existing ones. (The code as written first drops
     * one line; see OpenedAsWritten.)
     */
    method Open(lines: seq<seq<byte>>)
      requires Valid()
      modifies this`rows, this`numRows
      ensures Valid()
      ensures rows == old(rows) + LoadedRows(lines)
    {
      var i := 0;
      while i < |lines|
        invariant 0 <= i <= |lines|
        invariant Valid()
        invariant cx == old(cx) && cy == old(cy)
        invariant rows == old(rows) + LoadedRows(lines[..i])
      {
        var line := lines[i];
        var lineLen := |line|;
        assert line[..lineLen] == line;
        while lineLen > 0 && (line[lineLen - 1] == LF || line[lineLen - 1] == CR)
          invariant 0 <= lineLen <= |line|
          invariant TrimEol(line) == TrimEol(line[..lineLen])
        {
          assert line[..lineLen][..lineLen - 1] == line[..lineLen - 1];
          lineLen := lineLen - 1;
        }
        assert line[..lineLen][..lineLen] == line[..lineLen];
        AppendRow(line, lineLen);
        assert LoadedRows(lines[..i + 1]) == LoadedRows(lines[..i]) + [Row(TrimEol(line))];
        i := i + 1;
      }
      assert lines[..i] == lines;
    }

    /** editorMoveCursor, with the wrap of ARROW_LEFT onto an empty row corrected. */
    method MoveCursor(key: Key)
      requires Valid()
      modifies this`cx, this`cy
      ensures Valid()
      ensures CursorAt() == Moved(rows, old(CursorAt()), key)
    {
      var onRow := cy < numRows;
      match key {
        case ArrowLeft =>
          if cx != 0 {
            cx := cx - 1;
          } else if cy > 0 {
            cy := cy - 1;
            cx := rows[cy].Size() - 1;
            if cx < 0 {
              cx := 0;
            }
          }
        case ArrowRight =>
          if onRow && cx < rows[cy].Size() {
            cx := cx + 1;
          } else if onRow && cx == rows[cy].Size() {
            cy := cy + 1;
            cx := 0;
          }
        case ArrowUp =>
          if cy != 0 {
            cy := cy - 1;
          }
        case ArrowDown =>
          if cy < numRows - 1 {
            cy := cy + 1;
          }
        case _ =>
      }
      var rowLen := if cy >= numRows then 0 else rows[cy].Size();
      if cx > rowLen {
        cx := rowLen;
      }
    }

    /**
     * The key handling of editorProcessKeypress for a key already read: arrows move the
     * cursor, PAGE_UP/PAGE_DOWN go to the first/last row, HOME/END to the start/end of the
     * row, Ctrl-Q asks to quit, and every other key does nothing.
     */
    method ProcessKeypress(key: Key) returns (quit: bool)
      requires Valid()
      modifies this`cx, this`cy
      ensures Valid()
      ensures quit <==> key == Byte(CTRL_Q)
      ensures CursorAt() == Keypress(rows, old(CursorAt()), key)
    {
      quit := false;
      match key {
        case ArrowLeft => MoveCursor(key);
        case ArrowRight => MoveCursor(key);
        case ArrowUp => MoveCursor(key);
        case ArrowDown => MoveCursor(key);
        case PageUp =>
          cy := 0;
          var rowLen := if cy >= numRows then 0 else rows[cy].Size();
          if cx > rowLen {
            cx := rowLen;
          }
        case PageDown =>
          if cy < numRows {
            cy := numRows - 1;
          }
          var rowLen := if cy >= numRows then 0 else rows[cy].Size();
          if cx > rowLen {
            cx := rowLen;
          }
        case HomeKey =>
          cx := 0;
        case EndKey =>
          cx := if cy >= numRows then 0 else rows[cy].Size();
        case Byte(b) =>
          quit := b == CTRL_Q;
        case DeleteKey =>
      }
    }

    /** editorScroll: moves the offsets so that the cursor is inside the window. */
    method Scroll()
      requires Valid()
      modifies this`rowOff, this`colOff
      ensures Valid()
      ensures State() == Scrolled(old(State()))
      ensures screenRows >= 1 ==> rowOff <= cy < rowOff + screenRows
      ensures screenCols >= 1 ==> colOff <= cx < colOff + screenCols
    {
      if cy < rowOff {
        rowOff := cy;
      }
      if cy >= rowOff + screenRows {
        rowOff := cy - screenRows + 1;
      }
      if cx < colOff {
        colOff := cx;
      }
      if cx >= colOff + screenCols {
        colOff := cx - screenCols + 1;
      }
    }

    /** One screen row of editorDrawRows, before its erase-line sequence. */
    method DrawLine(ab: ABuf, welcome: seq<byte>, y: int)
      requires Valid() && ab.Valid()
      requires 0 <= y < screenRows
      modifies ab
      ensures ab.Valid()
      ensures ab.Contents() == old(ab.Contents()) + LineContent(State(), welcome, y)
    {
      var fileRow := y + rowOff;
      if fileRow >= numRows {
        if numRows == 0 && y == screenRows / 3 {
          DrawWelcome(ab, welcome);
        } else {
          ab.Append([TILDE], 1, true);
        }
      } else {
        DrawFileRow(ab, fileRow);
      }
    }

    /** The welcome line: the text cut to the screen width, centred by a '~' and spaces. */
    method DrawWelcome(ab: ABuf, welcome: seq<byte>)
      requires Valid() && ab.Valid()
      modifies ab
      ensures ab.Valid()
      ensures ab.Contents() == old(ab.Contents()) + WelcomeLine(welcome, screenCols)
    {
      var wmLen := |welcome|;
      if wmLen > screenCols {
        wmLen := screenCols;
      }
      var padding := (screenCols - wmLen) / 2;
      AppendMargin(ab, padding);
      ab.Append(welcome, wmLen, true);
    }

    /**
     * The margin loop of the welcome line: a '~' when the margin is not empty, then one
     * space per remaining column of it.
     */
    method AppendMargin(ab: ABuf, padding: int)
      requires ab.Valid() && padding >= 0
      modifies ab
      ensures ab.Valid()
      ensures ab.Contents() == old(ab.Contents()) + Margin(padding)
    {
      var left := padding;
      if left != 0 {
        ab.Append([TILDE], 1, true);
        left := left - 1;
      }
      while left != 0
        invariant ab.Valid()
        invariant 0 <= left <= padding
        invariant padding > 0 ==> left < padding
        invariant ab.Contents() == old(ab.Contents()) + Margin(padding - left)
        decreases left
      {
        ghost var appended := ab.Contents();
        ab.Append([SPACE], 1, true);
        assert ab.Contents() == appended + [SPACE];
        MarginStep(padding - left);
        left := left - 1;
      }
    }

    /** The visible part of file row fileRow, copied byte by byte into a scratch block. */
    method DrawFileRow(ab: ABuf, fileRow: int)
      requires Valid() && ab.Valid()
      requires 0 <= fileRow < numRows
      modifies ab
      ensures ab.Valid()
      ensures ab.Contents() == old(ab.Contents()) + VisibleSlice(rows[fileRow], colOff, screenCols)
    {
      var len := rows[fileRow].Size() - colOff;
      if len < 0 {
        len := 0;
      }
      if len > screenCols {
        len := screenCols;
      }
      var chars := new byte[len];
      var i := 0;
      while i < len
        invariant 0 <= i <= len
        invariant forall k :: 0 <= k < i ==> chars[k] == rows[fileRow].chars[k + colOff]
        modifies chars
      {
        chars[i] := rows[fileRow].chars[i + colOff];
        i := i + 1;
      }
      assert chars[..] == VisibleSlice(rows[fileRow], colOff, screenCols);
      ab.Append(chars[..], len, true);
    }

    /**
     * editorDrawRows: appends every screen row followed by ESC [ K, with "\r\n" between
     * rows and none after the last.
     */
    method DrawRows(ab: ABuf, welcome: seq<byte>)
      requires Valid() && ab.Valid()
      modifies ab
      ensures ab.Valid()
      ensures ab.Contents() == old(ab.Contents()) + DrawnRows(State(), welcome)
    {
      ghost var start := ab.Contents();
      ghost var lines := ScreenLines(State(), welcome);
      var y := 0;
      while y < screenRows
        invariant 0 <= y <= screenRows
        invariant ab.Valid()
        invariant ab.Contents() == start + DrawnPrefix(lines, y)
      {
        DrawScreenRow(ab, welcome, y);
        assert lines[y] == LineContent(State(), welcome, y) + EraseLine;
        DrawnPrefixStep(start, lines, y);
        y := y + 1;
      }
      DrawnPrefixComplete(lines);
    }

    /** One pass of the loop of editorDrawRows: row y, ESC [ K, and "\r\n" unless y is the last row. */
    method DrawScreenRow(ab: ABuf, welcome: seq<byte>, y: int)
      requires Valid() && ab.Valid()
      requires 0 <= y < screenRows
      modifies ab
      ensures ab.Valid()
      ensures ab.Contents() == old(ab.Contents()) + (LineContent(State(), welcome, y) + EraseLine)
                               + (if y + 1 < screenRows then CRLF else [])
    {
      ghost var start := ab.Contents();
      DrawLine(ab, welcome, y);
      ghost var drawn := ab.Contents();
      ab.Append(EraseLine, 3, true);
      assert ab.Contents() == drawn + EraseLine;
      ghost var erased := ab.Contents();
      assert erased == start + (LineContent(State(), welcome, y) + EraseLine);
      if y < screenRows - 1 {
        ab.Append(CRLF, 2, true);
        assert ab.Contents() == erased + CRLF;
      }
    }

    /**
     * editorRefreshScreen: scrolls, then assembles the whole frame in one append buffer;
     * the frame is what the single write sends to the terminal.
     */
    method RefreshScreen(welcome: seq<byte>) returns (frame: seq<byte>)
      requires Valid()
      modifies this`rowOff, this`colOff
      ensures Valid()
      ensures State() == Scrolled(old(State()))
      ensures frame == Frame(State(), welcome)
    {
      Scroll();
      frame := AssembleFrame(welcome);
    }

    /**
     * The byte assembly of editorRefreshScreen: hide the cursor, home it, the screen rows,
     * the cursor position relative to the window, show the cursor.
     */
    method AssembleFrame(welcome: seq<byte>) returns (frame: seq<byte>)
      requires Valid()
      ensures frame == Frame(State(), welcome)
    {
      var ab := new ABuf();
      DrawFrameHead(ab, welcome);
      DrawFrameTail(ab, (cy - rowOff) + 1, (cx - colOff) + 1);
      frame := ab.b[..];
    }

    /** The first part of the frame, in an empty buffer: hide the cursor, home it, the screen rows. */
    method DrawFrameHead(ab: ABuf, welcome: seq<byte>)
      requires Valid() && ab.Valid() && ab.Contents() == []
      modifies ab
      ensures ab.Valid()
      ensures ab.Contents() == HideCursor + CursorHome + DrawnRows(State(), welcome)
    {
      ab.Append(HideCursor, 6, true);
      assert ab.Contents() == HideCursor;
      ab.Append(CursorHome, 3, true);
      assert ab.Contents() == HideCursor + CursorHome;
      DrawRows(ab, welcome);
    }

    /** The last part of the frame: the cursor moved to (row, col), then shown again. */
    method DrawFrameTail(ab: ABuf, row: int, col: int)
      requires ab.Valid()
      modifies ab
      ensures ab.Valid()
      ensures ab.Contents() == old(ab.Contents()) + CursorPosition(row, col) + ShowCursor
    {
      ghost var start := ab.Contents();
      var buf := CursorPosition(row, col);
      ab.Append(buf, |buf|, true);
      assert ab.Contents() == start + buf;
      ab.Append(ShowCursor, 6, true);
      assert ab.Contents() == start + buf + ShowCursor;
    }
  }
}
