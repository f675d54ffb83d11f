/**
 * The frame editorRefreshScreen writes to the terminal, as a function of the editor
 * state: hide the cursor, home it, draw every screen row (editorDrawRows), put the
 * cursor at its place in the window, show it again.
 */
module Render {
  import opened Bytes
  import opened Common
  import opened EditorModel

  /** ESC [ ? 2 5 l : hide the cursor. */
  const HideCursor: seq<byte> := [ESC, LBRACKET, '?' as int, '2' as int, '5' as int, 'l' as int]
  /** ESC [ ? 2 5 h : show the cursor. */
  const ShowCursor: seq<byte> := [ESC, LBRACKET, '?' as int, '2' as int, '5' as int, 'h' as int]
  /** ESC [ H : cursor to the top-left corner. */
  const CursorHome: seq<byte> := [ESC, LBRACKET, 'H' as int]
  /** ESC [ K : erase the rest of the line. */
  const EraseLine: seq<byte> := [ESC, LBRACKET, 'K' as int]
  /** The separator between screen rows. */
  const CRLF: seq<byte> := [CR, LF]

  /**
   * The part of a file row shown in a window whose left edge is column colOff and which is
   * cols columns wide.
   */
  function VisibleSlice(row: Row, colOff: nat, cols: nat): (r: seq<byte>)
    ensures |r| == Max(0, Min(row.Size() - colOff, cols))
    ensures forall i :: 0 <= i < |r| ==> r[i] == row.chars[colOff + i]
  {
    var len := Min(Max(row.Size() - colOff, 0), cols);
    if len == 0 then [] else row.chars[colOff..colOff + len]
  }

  /** n spaces. */
  function Spaces(n: nat): (r: seq<byte>)
    ensures |r| == n && forall i :: 0 <= i < n ==> r[i] == SPACE
  {
    seq(n, _ => SPACE)
  }

  /** The welcome line: the text cut to the screen width, after its left margin. */
  function WelcomeLine(welcome: seq<byte>, cols: nat): (r: seq<byte>)
    ensures |r| <= cols
  {
    var wmLen := Min(|welcome|, cols);
    Margin((cols - wmLen) / 2) + welcome[..wmLen]
  }

  /**
   * The welcome text is centred: as much of it as fits is shown after a margin of '~' and
   * spaces, and the space left on its right is the margin or one byte more.
   */
  lemma WelcomeLineCentred(welcome: seq<byte>, cols: nat)
    ensures var r := WelcomeLine(welcome, cols);
      var shown := Min(|welcome|, cols);
      var pad := (cols - shown) / 2;
      && |r| == pad + shown
      && r[pad..] == welcome[..shown]
      && (pad > 0 ==> r[0] == TILDE)
      && (forall i :: 1 <= i < pad ==> r[i] == SPACE)
      && 0 <= (cols - |r|) - pad <= 1
  {
    var shown := Min(|welcome|, cols);
    var pad := (cols - shown) / 2;
    var r := WelcomeLine(welcome, cols);
    assert r == Margin(pad) + welcome[..shown];
    if pad > 0 {
      assert Margin(pad) == [TILDE] + Spaces(pad - 1);
    }
  }

  /** The left margin of the welcome line: '~' followed by spaces, n bytes in all. */
  function Margin(n: nat): (r: seq<byte>)
    ensures |r| == n
    ensures n > 0 ==> r[0] == TILDE
    ensures forall i :: 1 <= i < n ==> r[i] == SPACE
  {
    if n > 0 then [TILDE] + Spaces(n - 1) else []
  }

  /** Each further margin byte is a space. */
  lemma MarginStep(n: nat)
    requires n >= 1
    ensures Margin(n + 1) == Margin(n) + [SPACE]
  {
    assert Spaces(n) == Spaces(n - 1) + [SPACE];
  }

  /** The state editorDrawRows can draw: offsets and screen size are never negative. */
  predicate Drawable(s: EditorState) {
    s.rowOff >= 0 && s.colOff >= 0 && s.screenRows >= 0 && s.screenCols >= 0
  }

  /** What screen row y shows, before the erase-line sequence. */
  function LineContent(s: EditorState, welcome: seq<byte>, y: nat): (r: seq<byte>)
    requires Drawable(s)
    ensures s.screenCols >= 1 ==> |r| <= s.screenCols
  {
    var fileRow := y + s.rowOff;
    if fileRow >= |s.rows| then
      if |s.rows| == 0 && y == s.screenRows / 3 then WelcomeLine(welcome, s.screenCols)
      else [TILDE]
    else VisibleSlice(s.rows[fileRow], s.colOff, s.screenCols)
  }

  /** The screen rows, each ending with the erase-line sequence. */
  function ScreenLines(s: EditorState, welcome: seq<byte>): (lines: seq<seq<byte>>)
    requires Drawable(s)
    ensures |lines| == s.screenRows
    ensures forall y :: 0 <= y < |lines| ==> lines[y] == LineContent(s, welcome, y) + EraseLine
  {
    seq(s.screenRows, y requires 0 <= y => LineContent(s, welcome, y) + EraseLine)
  }

  /** The lines with the separator between each two of them, and none after the last. */
  function Join(lines: seq<seq<byte>>, sep: seq<byte>): (r: seq<byte>) {
    if lines == [] then []
    else if |lines| == 1 then lines[0]
    else lines[0] + sep + Join(lines[1..], sep)
  }

  /** Appending a line to a non-empty list adds one separator and the line. */
  lemma {:induction false} JoinSnoc(lines: seq<seq<byte>>, line: seq<byte>, sep: seq<byte>)
    requires lines != []
    ensures Join(lines + [line], sep) == Join(lines, sep) + sep + line
  {
    if |lines| > 1 {
      assert (lines + [line])[1..] == lines[1..] + [line];
      JoinSnoc(lines[1..], line, sep);
    } else {
      assert (lines + [line])[1..] == [line];
    }
  }

  /** Join holds the lines and one separator between each two of them, and nothing else. */
  lemma {:induction false} JoinLength(lines: seq<seq<byte>>, sep: seq<byte>)
    requires lines != []
    ensures |Join(lines, sep)| == (|lines| - 1) * |sep| + SumLengths(lines)
  {
    if |lines| > 1 {
      JoinLength(lines[1..], sep);
    }
  }

  function SumLengths(lines: seq<seq<byte>>): (n: nat) {
    if lines == [] then 0 else |lines[0]| + SumLengths(lines[1..])
  }

  /** The first y lines joined, followed by the separator when another line comes after them. */
  function DrawnPrefix(lines: seq<seq<byte>>, y: nat): (r: seq<byte>)
    requires y <= |lines|
  {
    Join(lines[..y], CRLF) + (if 0 < y < |lines| then CRLF else [])
  }

  /**
   * Drawing line y after what is already in the buffer extends the prefix by that line
   * and, unless it is the last, a separator.
   */
  lemma DrawnPrefixStep(before: seq<byte>, lines: seq<seq<byte>>, y: nat)
    requires y < |lines|
    ensures before + DrawnPrefix(lines, y + 1)
            == before + DrawnPrefix(lines, y) + lines[y] + (if y + 1 < |lines| then CRLF else [])
  {
    var done := lines[..y];
    assert lines[..y + 1] == done + [lines[y]];
    if y > 0 {
      JoinSnoc(done, lines[y], CRLF);
    } else {
      assert lines[..1] == [lines[0]];
    }
  }

  /** Once every line is drawn, the prefix is the whole join. */
  lemma DrawnPrefixComplete(lines: seq<seq<byte>>)
    ensures DrawnPrefix(lines, |lines|) == Join(lines, CRLF)
  {
    assert lines[..|lines|] == lines;
  }

  /** The joined lines end with the last line. */
  lemma {:induction false} JoinEndsWithLast(lines: seq<seq<byte>>, sep: seq<byte>)
    requires lines != []
    ensures var r := Join(lines, sep);
      |r| >= |lines[|lines| - 1]| && r[|r| - |lines[|lines| - 1]|..] == lines[|lines| - 1]
  {
    if |lines| > 1 {
      JoinEndsWithLast(lines[1..], sep);
    }
  }

  /**
   * What editorDrawRows appends: the screen rows joined by "\r\n". Nothing at all for a
   * screen without rows; otherwise it ends with the erase-line sequence of the last row.
   */
  function DrawnRows(s: EditorState, welcome: seq<byte>): (r: seq<byte>)
    requires Drawable(s)
    ensures s.screenRows == 0 ==> r == []
    ensures s.screenRows >= 1 ==> |r| >= |EraseLine| && r[|r| - |EraseLine|..] == EraseLine
  {
    var lines := ScreenLines(s, welcome);
    if lines == [] then []
    else
      JoinEndsWithLast(lines, CRLF);
      Join(lines, CRLF)
  }

  /** The decimal digits of n, most significant first, with no leading zero. */
  function Digits(n: nat): (r: seq<byte>)
    ensures |r| >= 1 && forall i :: 0 <= i < |r| ==> IsDigit(r[i])
    ensures n > 0 ==> r[0] != DIGIT_ZERO
  {
    if n < 10 then [DIGIT_ZERO + n]
    else Digits(n / 10) + [DIGIT_ZERO + n % 10]
  }

  /** The number a string of decimal digits stands for. */
  function DigitsValue(s: seq<byte>): (n: nat)
    requires forall i :: 0 <= i < |s| ==> IsDigit(s[i])
  {
    if s == [] then 0
    else
      assert IsDigit(s[|s| - 1]);
      DigitsValue(s[..|s| - 1]) * 10 + (s[|s| - 1] as int - DIGIT_ZERO as int)
  }

  /** Reading back the digits gives the number. */
  lemma {:induction false} DigitsRoundTrip(n: nat)
    ensures DigitsValue(Digits(n)) == n
  {
    var d := Digits(n);
    if n >= 10 {
      assert d[..|d| - 1] == Digits(n / 10);
      DigitsRoundTrip(n / 10);
    }
  }

  /**
   * printf's %d of an int: a '-' exactly for a negative number, then the decimal digits
   * of its magnitude, which read back to that magnitude.
   */
  function Decimal(n: int): (r: seq<byte>)
    ensures |r| >= 1 && (r[0] == MINUS <==> n < 0)
    ensures n >= 0 ==> (forall i :: 0 <= i < |r| ==> IsDigit(r[i])) && DigitsValue(r) == n
    ensures n < 0 ==> (forall i :: 1 <= i < |r| ==> IsDigit(r[i])) && DigitsValue(r[1..]) == -n
  {
    if n < 0 then
      DigitsRoundTrip(-n);
      assert ([MINUS] + Digits(-n))[1..] == Digits(-n);
      [MINUS] + Digits(-n)
    else
      DigitsRoundTrip(n);
      Digits(n)
  }

  /** ESC [ row ; col H : move the cursor to a 1-based screen position. */
  function CursorPosition(row: int, col: int): (r: seq<byte>)
    ensures |r| >= 6 && r[..2] == [ESC, LBRACKET] && r[|r| - 1] == 'H' as int
  {
    [ESC, LBRACKET] + Decimal(row) + [SEMICOLON] + Decimal(col) + ['H' as int]
  }

  /**
   * For a position that is not negative, everything between the CSI and the final 'H' is
   * a decimal digit or the ';' between row and column.
   */
  lemma CursorPositionDigits(row: int, col: int)
    requires row >= 0 && col >= 0
    ensures var r := CursorPosition(row, col);
      forall i :: 2 <= i < |r| - 1 ==> IsDigit(r[i]) || r[i] == SEMICOLON
  {
    var rs := Decimal(row);
    var cs := Decimal(col);
    var r := CursorPosition(row, col);
    assert forall i :: 2 <= i < 2 + |rs| ==> r[i] == rs[i - 2];
    assert forall i :: 3 + |rs| <= i < |r| - 1 ==> r[i] == cs[i - 3 - |rs|];
  }

  /**
   * The frame of editorRefreshScreen, for a state that editorScroll has already adjusted:
   * it starts by hiding and homing the cursor and ends by showing it again.
   */
  function Frame(s: EditorState, welcome: seq<byte>): (r: seq<byte>)
    requires Drawable(s)
    ensures |r| >= |HideCursor| + |CursorHome| + |ShowCursor|
    ensures r[..|HideCursor| + |CursorHome|] == HideCursor + CursorHome
    ensures r[|r| - |ShowCursor|..] == ShowCursor
  {
    HideCursor + CursorHome + DrawnRows(s, welcome)
    + CursorPosition(s.cy - s.rowOff + 1, s.cx - s.colOff + 1)
    + ShowCursor
  }

  /**
   * After scrolling, the cursor sequence of the frame names a position on the screen:
   * its row is in 1..screenRows and its column in 1..screenCols, both written without sign.
   */
  lemma CursorOnScreen(s: EditorState)
    requires s.screenRows >= 1 && s.screenCols >= 1
    ensures var t := Scrolled(s);
      && 1 <= t.cy - t.rowOff + 1 <= s.screenRows
      && 1 <= t.cx - t.colOff + 1 <= s.screenCols
      && CursorPosition(t.cy - t.rowOff + 1, t.cx - t.colOff + 1)
         == [ESC, LBRACKET] + Digits(t.cy - t.rowOff + 1) + [SEMICOLON]
            + Digits(t.cx - t.colOff + 1) + ['H' as int]
  {
  }

  /**
   * The rows part of the frame ends with its last screen row and ESC [ K: the separator
   * comes only between rows, never after the last one.
   */
  lemma DrawnRowsEnd(s: EditorState, welcome: seq<byte>)
    requires Drawable(s) && s.screenRows >= 1
    ensures var n := s.screenRows;
      DrawnRows(s, welcome)
      == (if n > 1 then Join(ScreenLines(s, welcome)[..n - 1], CRLF) + CRLF else [])
         + LineContent(s, welcome, n - 1) + EraseLine
  {
    var lines := ScreenLines(s, welcome);
    var n := |lines|;
    if n > 1 {
      assert lines == lines[..n - 1] + [lines[n - 1]];
      JoinSnoc(lines[..n - 1], lines[n - 1], CRLF);
    }
  }

  /** The rows part of the frame holds exactly screenRows - 1 separators besides the rows. */
  lemma DrawnRowsLength(s: EditorState, welcome: seq<byte>)
    requires Drawable(s) && s.screenRows >= 1
    ensures |DrawnRows(s, welcome)| == (s.screenRows - 1) * |CRLF| + SumLengths(ScreenLines(s, welcome))
  {
    JoinLength(ScreenLines(s, welcome), CRLF);
  }
}
