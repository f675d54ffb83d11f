# Read-only terminal viewer, modelled in Dafny

The program is a small read-only viewer for the terminal, built on the pattern of kilo. It
puts the terminal in raw mode and loads a file as an array of rows. Then it loops: redraw the
screen, read one key, act on it. Keys come in as single bytes or as VT100/xterm escape
sequences, and the editing keys among them move the cursor. Each redraw assembles a whole
frame in a growable append buffer and sends it with a single write. Ctrl-Q clears the screen
and quits.

This project models the core of `main.c`:

- **`KeyDecoder`** (`key_decoder.dfy`): the key decoder of `editorReadKey`.
  - `Decode` is a pure function from the first byte and the bytes that arrived after it.
  - `ReadKey` is the reading loop. It runs over a finite stream of `read()` outcomes: a byte,
    a timeout, or a failure with or without `EAGAIN`.
  - The decoder is proved against a table of the recognised sequences. A round-trip lemma
    shows that the encoding of each key other than Escape decodes back to that key. A lone
    ESC is Escape only when the read after it times out, which `Decode`'s contract covers.
- **`AppendBuffer`** (`append_buffer.dfy`): `abAppend`, modelled as the class `ABuf` over a
  heap array. A failed `realloc` is a parameter.
- **`EditorModel`** (`editor_model.dfy`): the editor state as values.
  - Cursor movement, the cursor cases of `editorProcessKeypress`, `editorScroll`, and the
    line trimming of `editorOpen`.
  - Where the code misbehaves (four places, see Findings), the model holds both the code as
    written and the corrected definition, plus a lemma that pins down where the two differ.
- **`Render`** (`render.dfy`): the frame that `editorRefreshScreen` writes, as a function of
  the state. This covers the screen rows of `editorDrawRows`, the welcome line and the
  decimal cursor-position sequence.
- **`Editor`** (`editor.dfy`): the global `E`, modelled as the class `EditorConfig`.
  - Its methods update the cursor, the offsets and the rows in place. They keep the cursor on
    a row of the file or on the virtual row just after it, at a column from 0 to the length of
    that row.
  - Each method is proved against the value-level functions above.
  - The drawing methods append to an `ABuf` and are proved to produce exactly the frame
    `Render` describes.
  - Integers are unbounded. Bytes are `0..255`.

Keys are a datatype (`KeyDecoder.Key`), not the integer codes of `main.h`. `main.h` is not
part of this model. Its key codes are replaced by the datatype's constructors, and its
version string becomes the `welcome` parameter of the drawing methods.

The viewer's design calls for Page Up and Page Down to clamp the column, so that the column
never passes the end of the cursor's row. PAGE_DOWN does this at `main.c:281-282`, but PAGE_UP
(`main.c:275-277`) only sets the row. The model records the code as written
(`EditorModel.KeypressAsWritten`) and clamps in the corrected `EditorModel.Keypress` (see
Findings).

## Model

| member | source | states |
|---|---|---|
| KeyDecoder.TildeKey | main.c:127-141 | `ESC [ d ~` names a key exactly for the digits 1, 3, 4, 5, 6, 7 and 8, and that key is one of Page Up, Page Down, Home, End and Delete. Any other digit gives Escape. Which digit gives which key is established by DecodeMatchesTable. |
| KeyDecoder.CsiLetterKey | main.c:146-160 | `ESC [ x` names a key exactly for A, B, C, D, H and F, and that key is one of the four arrows, Home and End. Any other byte gives Escape. Which letter gives which key is established by DecodeMatchesTable. |
| KeyDecoder.Ss3Key | main.c:163-173 | `ESC O x` names a key exactly for H and F, and that key is Home or End. Any other byte gives Escape. Which letter gives which key is established by DecodeMatchesTable. |
| KeyDecoder.Decode | main.c:112-178 | A byte other than ESC is the key itself, with no further read. After ESC, between one and three more reads are made, never more than the bytes that arrived plus the read that timed out. ESC followed by fewer than two bytes, or by `[` and a digit with nothing after them, is the Escape key. |
| KeyDecoder.DecodeMatchesTable | main.c:119-173 | After ESC the key is the one listed for the two-byte prefix (`[A` `[B` `[C` `[D` `[H` `[F` `OH` `OF`) or the three-byte prefix (`[5~` `[6~` `[1~` `[7~` `[4~` `[8~` `[3~`). Every other sequence is Escape. |
| KeyDecoder.DecodeEncoding | main.c:112-178 | Round trip: whatever bytes follow, the terminal encoding of any key other than Escape decodes to that key and uses exactly the encoding's bytes. |
| KeyDecoder.Arrived | main.c:115-124 | The bytes read one per call after ESC are the leading bytes of the stream, up to the first read that delivers no byte. |
| KeyDecoder.WaitEnd | main.c:107-111 | The waiting loop reads again after a timeout or EAGAIN and stops at the first outcome of any other kind. |
| KeyDecoder.ReadKeySpec | main.c:103-179 | `editorReadKey` over a stream of read outcomes. It reports no input exactly when every outcome is a timeout or EAGAIN. It reports a read error exactly when a failure other than EAGAIN comes before any byte. Otherwise it gives a key and uses between one outcome and the whole stream. |
| KeyDecoder.ReadKey | main.c:103-179 | Matches ReadKeySpec. No input if only timeouts and EAGAIN arrive. A read error if another failure comes first. Otherwise the first byte decoded with the bytes that follow it, having used at least one outcome and no more than the stream holds. |
| KeyDecoder.ReadSequence | main.c:112-174 | The key and the number of reads after ESC are those of Decode on the bytes that arrive, capped by the stream's length. |
| KeyDecoder.ArrivedAt | main.c:115-124 | A byte at position p is the first byte of what arrives from p on. A read that is not a byte ends the arrivals. |
| AppendBuffer.ABuf.constructor | main.c:368 | A new buffer is empty. |
| AppendBuffer.ABuf.Append | main.c:54-62 | When realloc succeeds, the contents become the old contents followed by the first n bytes of s. When it fails, the buffer is left exactly as it was. |
| EditorModel.RowLen | main.c:258-259 | The length used for the cursor's row: the row's size on a row of the file, and 0 on the virtual row just past the end. |
| EditorModel.ClampColumn | main.c:258-261 | The column ends at most at the row's length (0 on the virtual row past the end). A column already within it is unchanged. The row never changes. |
| EditorModel.MovedAsWritten | main.c:223-262 | `editorMoveCursor` as written. A row within 0..numRows stays within it, and the final clamp leaves the column at most at the row's length. The column can still be -1 (see MovedAsWrittenDiffers). |
| EditorModel.Moved | main.c:223-262 | Corrected cursor movement. A cursor inside the buffer (row 0..numRows, column >= 0) stays inside it, and its column never passes the end of its row. |
| EditorModel.MoveRules | main.c:230-261 | Each arrow's rule, for every cursor in the buffer, including one whose column lies past the end of its row. LEFT steps back, clamped to the row's length, or wraps to the end of the previous row. RIGHT steps forward, wraps to the start of the next row, or clamps a column past the end. On the virtual row RIGHT only clamps the column to 0. UP and DOWN change the row within the file and clamp the column. Any other key only clamps the column. |
| EditorModel.MovedAsWrittenDiffers | main.c:230-238 | The code as written yields a negative column exactly when LEFT wraps onto an empty previous row, where it gives column -1. In every other case it equals the corrected movement. |
| EditorModel.LeftWrapUnderflow | main.c:236 | Rows `""` and `"a"`, cursor at (0, 1), LEFT: as written the cursor goes to (-1, 0); corrected, to (0, 0). |
| EditorModel.KeypressAsWritten | main.c:267-289 | The cursor cases of `editorProcessKeypress` as written, with an out-of-bounds row read as no result. Any result keeps the cursor's row within 0..numRows. Every key but PAGE_UP keeps the column within its row. |
| EditorModel.Keypress | main.c:267-289 | Corrected. The cursor stays in the buffer, and a column within its row stays within its row for every key. PAGE_UP goes to row 0 and clamps the column to that row. PAGE_DOWN goes to the last row (or stays on the virtual row) and clamps the column. HOME goes to column 0. END goes to the row's length. Plain bytes and DELETE leave the cursor alone. |
| EditorModel.KeypressAsWrittenDiffers | main.c:275-289 | The code as written reads a row out of bounds exactly when PAGE_DOWN or END is pressed on the virtual row past the end. PAGE_UP as written leaves the column past the end of row 0 exactly when the column exceeds that row's length; the corrected PAGE_UP puts it at the row's end. Apart from these cases and the LEFT wrap, the code agrees with Keypress. |
| EditorModel.EndOnEmptyBufferFaults | main.c:278-288 | On an empty buffer, END and PAGE_DOWN as written read a row that does not exist. The corrected END leaves the cursor at (0, 0). |
| EditorModel.PageUpLeavesColumnPastRowEnd | main.c:275-277 | Rows `""` and `"ab"`, cursor (2, 1), PAGE_UP. As written the cursor goes to (2, 0), past the end of the empty row 0. Corrected, it goes to (0, 0). |
| EditorModel.ScrollAxis | main.c:302-310 | Afterwards the position lies inside the window of the given extent. An offset that already shows the position is unchanged. Offsets stay non-negative. |
| EditorModel.Scrolled | main.c:300-311 | Scrolling changes only the two offsets. After it, the cursor's row is within the screen rows and its column within the screen columns. |
| EditorModel.ScrollIdempotent | main.c:300-311 | Scrolling twice is the same as scrolling once. |
| EditorModel.TrimEol | main.c:42-44 | The trimmed line is a prefix of the line. |
| EditorModel.TrimEolRemovesLineEnds | main.c:42-44 | Trimming removes the whole trailing run of `\n` and `\r` and nothing else. What remains does not end in either byte. |
| EditorModel.LoadedRows | main.c:40-47 | One row per line of the file, in order, each holding its line with the line ends trimmed. |
| EditorModel.OpenedAsWritten | main.c:38-47 | `editorOpen` as written: one row fewer than the file has lines (none for an empty file). Row i holds line i + 1, trimmed. |
| EditorModel.OpenDropsFirstLine | main.c:38-47 | As written, the rows loaded from a non-empty file are the intended rows without the first one. |
| Render.VisibleSlice | main.c:345-355 | The visible part of a file row: from column colOff onward, at most screenCols bytes and never less than none, each byte taken from the row. |
| Render.WelcomeLine | main.c:326-336 | The welcome line is no wider than the screen. |
| Render.WelcomeLineCentred | main.c:326-336 | The welcome text, cut to the screen width, comes after a margin of half the remaining width. The margin starts with `~` and continues with spaces. The space left on the right is the margin or one byte more. |
| Render.Margin | main.c:328-335 | The left margin of the welcome line is padding bytes wide: a `~` first, then spaces. |
| Render.MarginStep | main.c:334-335 | Each further pass of the padding loop adds one space to the margin. |
| Render.LineContent | main.c:317-356 | What one screen row shows fits in the screen's width. |
| Render.ScreenLines | main.c:315-361 | There is one line per screen row. Each is that row's content followed by ESC [ K. |
| Render.JoinSnoc | main.c:358-360 | Drawing one more line adds one `\r\n` and that line. |
| Render.JoinLength | main.c:358-360 | The drawn rows hold one `\r\n` between each two lines, and nothing else. |
| Render.DrawnPrefixStep | main.c:315-361 | Each pass of the drawing loop extends the output by the next line, and by `\r\n` unless it is the last line. |
| Render.DrawnPrefixComplete | main.c:315-361 | Once every row is drawn, the output is all the lines joined by `\r\n`. |
| Render.JoinEndsWithLast | main.c:358-360 | The joined lines end with the last line, with no separator after it. |
| Render.DrawnRows | main.c:313-362 | What `editorDrawRows` appends. It is empty for a screen without rows. Otherwise it ends with ESC [ K. |
| Render.DrawnRowsEnd | main.c:358-360 | The drawn rows end with the last screen row and ESC [ K, with no `\r\n` after them. |
| Render.DrawnRowsLength | main.c:358-360 | The drawn rows are exactly screenRows - 1 separators longer than the sum of the lines. |
| Render.Digits | main.c:375 | `%d` of a non-negative number gives at least one decimal digit and no leading zero. |
| Render.DigitsRoundTrip | main.c:375 | Reading the digits back gives the number. |
| Render.Decimal | main.c:375 | `%d` of an int. It starts with `-` exactly for a negative number. The rest is decimal digits that read back to the number's magnitude. |
| Render.CursorPosition | main.c:375 | The cursor sequence starts with ESC [ and ends with `H`. |
| Render.CursorPositionDigits | main.c:375 | For a position that is not negative, every byte between ESC [ and `H` is a digit or the `;` between row and column. |
| Render.Frame | main.c:370-378 | The frame starts by hiding the cursor and moving it home, and ends by showing it. |
| Render.CursorOnScreen | main.c:366-375 | After scrolling, the cursor sequence of the frame names row 1..screenRows and column 1..screenCols, written without a sign. |
| Editor.EditorConfig.constructor | main.c:386-397 | Cursor and offsets 0, no rows, and the screen size the terminal reported. |
| Editor.EditorConfig.AppendRow | main.c:17-26 | One row is added after the existing ones, holding the first len bytes of s. numRows grows by one. |
| Editor.EditorConfig.Open | main.c:28-50 | The rows become the old rows followed by every line of the file, trimmed (corrected: the first line is kept). |
| Editor.EditorConfig.MoveCursor | main.c:223-262 | The new cursor is the corrected movement of the old one. The invariant is kept: the cursor stays in the buffer, at a column from 0 to its row's length. |
| Editor.EditorConfig.ProcessKeypress | main.c:264-296 | Reports quit exactly for Ctrl-Q (`'q'` with the top three bits cleared). The new cursor is Keypress of the old one, PAGE_UP clamp included, so the column invariant is kept. |
| Editor.EditorConfig.Scroll | main.c:300-311 | The new state is Scrolled of the old one, so the cursor is inside the window. |
| Editor.EditorConfig.DrawLine | main.c:317-356 | Appends exactly the content of screen row y. |
| Editor.EditorConfig.DrawWelcome | main.c:321-337 | Appends exactly the centred welcome line. |
| Editor.EditorConfig.AppendMargin | main.c:328-335 | Appends a `~` and then spaces, padding bytes in all. |
| Editor.EditorConfig.DrawFileRow | main.c:345-355 | Appends exactly the visible part of the file row. |
| Editor.EditorConfig.DrawScreenRow | main.c:317-360 | Appends one screen row, ESC [ K, and `\r\n` unless the row is the last. |
| Editor.EditorConfig.DrawRows | main.c:313-362 | Appends all screen rows joined by `\r\n`. |
| Editor.EditorConfig.RefreshScreen | main.c:364-382 | Scrolls, then returns Frame: hide cursor, home, the drawn rows, the cursor position relative to the window, show cursor. |
| Editor.EditorConfig.AssembleFrame | main.c:368-378 | The bytes assembled in the append buffer are exactly Frame of the current state. |
| Editor.EditorConfig.DrawFrameHead | main.c:370-372 | In an empty buffer, appends exactly: hide cursor, cursor home, then the drawn rows. |
| Editor.EditorConfig.DrawFrameTail | main.c:374-378 | Appends exactly the cursor sequence for (row, col), then show cursor. |

## Left out

- Raw mode (`enableRawMode`, `disableRawMode`, `main.c:79-101`) and `die` (`main.c:71-77`): both change terminal attributes and exit the process. A read error is the result `ReadError` instead.
- Ctrl-Q's screen clear and `exit` (`main.c:290-294`): `ProcessKeypress` only reports that the key asks to quit.
- `getWindowSize` and `getCursorPosition` (`main.c:181-219`): they query the terminal through `ioctl` and `sscanf`. The window size is a parameter of the constructor.
- The I/O calls themselves. `read` becomes a stream of outcomes passed to `ReadKey`. `editorProcessKeypress` gets its key already decoded. `RefreshScreen` returns the frame instead of calling `write`. `fopen`, `getline` and `fclose` become the list of lines passed to `Open`; a failing `fopen` is not modelled.
- The main loop of `main` (`main.c:399-412`) and `abFree` (`main.c:64-67`): the loop is I/O sequencing and `abFree` only releases memory.
- `main.h` is not part of this model. The welcome text is a parameter. The truncation of `snprintf` to its 80-byte buffer is not modelled, so the text is assumed to fit.
- `editorReadKey` stores bytes in a `char`. Where `char` is signed, a byte of 0x80 or more comes back as a negative `int`. The model keeps the byte's value 0..255.
- `malloc` or `realloc` failure in `editorAppendRow` and in the scratch copy of `editorDrawRows` is not modelled. Nor is the leak of that scratch block (`main.c:351`).
- The C `int` fields (cursor, offsets, sizes) are unbounded integers, so overflow is not modelled.
- Editor.EditorConfig.DrawRows: draws on the assumption that every `realloc` in `abAppend` succeeds. `ABuf.Append` itself models the failure, which silently drops that piece of the frame.
- Editor.EditorConfig.AssembleFrame: likewise assumes that every `abAppend` succeeds.

## Findings

| source | as written | input that shows it | evidently intended | confidence | as-written member | corrected member |
|---|---|---|---|---|---|---|
| main.c:236 | ARROW_LEFT at column 0 wraps to `size - 1` of the previous row. For an empty row that is -1, and the clamp at lines 260-261 only lowers the column. `editorScroll` then sets `colOff` to -1, and drawing reads `chars[-1]`. | rows `""`, `"a"`; cursor (0, 1); ARROW_LEFT | column `max(size - 1, 0)` | high; not executed | EditorModel.MovedAsWritten, shown by EditorModel.LeftWrapUnderflow | EditorModel.Moved |
| main.c:281, main.c:288 | PAGE_DOWN and END read `E.rows[E.cy].size` even when `cy == numRows` (the virtual row after the file). On an empty buffer `E.rows` is NULL. | empty file; END or PAGE_DOWN at (0, 0) | the virtual row has length 0, as `editorMoveCursor` assumes at lines 258-259 | high; not executed | EditorModel.KeypressAsWritten, shown by EditorModel.EndOnEmptyBufferFaults | EditorModel.Keypress |
| main.c:275-277 | PAGE_UP sets the row to 0 but does not clamp the column, while PAGE_DOWN does (lines 281-282). The cursor is left past the end of row 0, and the column invariant that `editorMoveCursor` keeps no longer holds. | rows `""`, `"ab"`; cursor (2, 1); PAGE_UP gives (2, 0) | clamp the column to row 0's length, as PAGE_DOWN clamps it to the last row | medium; not executed | EditorModel.KeypressAsWritten, shown by EditorModel.PageUpLeavesColumnPastRowEnd | EditorModel.Keypress |
| main.c:38 | A `getline` before the loop reads the first line and never stores it. | a file with lines `a`, `b` loads the single row `b` | every line becomes a row | high; not executed | EditorModel.OpenedAsWritten, shown by EditorModel.OpenDropsFirstLine | EditorModel.LoadedRows, used by Editor.EditorConfig.Open |
