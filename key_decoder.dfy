/**
 * The key decoder of editorReadKey: a plain byte is a key by itself; ESC starts a
 * VT100/xterm control sequence (CSI `ESC [`, SS3 `ESC O`, ECMA-48 section 5.4) of at most
 * three more bytes, and a byte that does not arrive before the read timeout ends the
 * sequence early.
 */
module KeyDecoder {
  import opened Bytes
  import opened Common

  /** A decoded key: a literal byte, or one of the editing keys named by a sequence. */
  datatype Key =
    | Byte(b: byte)
    | ArrowLeft | ArrowRight | ArrowUp | ArrowDown
    | DeleteKey | HomeKey | EndKey | PageUp | PageDown

  /** The literal Escape key, also the result of every sequence the decoder does not know. */
  const Escape: Key := Byte(ESC)

  /** Key of a complete `ESC [ digit ~` sequence. */
  function TildeKey(d: byte): (k: Key)
    ensures k != Escape <==> d in ['1' as int, '3' as int, '4' as int, '5' as int, '6' as int, '7' as int, '8' as int]
    ensures k in {PageUp, PageDown, HomeKey, EndKey, DeleteKey, Escape}
  {
    if d == '5' as int then PageUp
    else if d == '6' as int then PageDown
    else if d == '1' as int || d == '7' as int then HomeKey
    else if d == '4' as int || d == '8' as int then EndKey
    else if d == '3' as int then DeleteKey
    else Escape
  }

  /** Key of a complete `ESC [ letter` sequence. */
  function CsiLetterKey(b: byte): (k: Key)
    ensures k != Escape <==> b in ['A' as int, 'B' as int, 'C' as int, 'D' as int, 'H' as int, 'F' as int]
    ensures k in {ArrowUp, ArrowDown, ArrowRight, ArrowLeft, HomeKey, EndKey, Escape}
  {
    if b == 'A' as int then ArrowUp
    else if b == 'B' as int then ArrowDown
    else if b == 'C' as int then ArrowRight
    else if b == 'D' as int then ArrowLeft
    else if b == 'H' as int then HomeKey
    else if b == 'F' as int then EndKey
    else Escape
  }

  /** Key of a complete `ESC O letter` sequence. */
  function Ss3Key(b: byte): (k: Key)
    ensures k != Escape <==> b in ['H' as int, 'F' as int]
    ensures k in {HomeKey, EndKey, Escape}
  {
    if b == 'H' as int then HomeKey
    else if b == 'F' as int then EndKey
    else Escape
  }

  /** A decoded key and the number of read calls made after the first byte. */
  datatype Decoded = Decoded(key: Key, readCalls: nat)

  /**
   * Decodes the first byte `c` given the bytes `arrived` that came in, one per read,
   * before the first read that timed out. A read is issued only while the sequence is
   * still undecided, so a read that times out counts as a read and ends decoding.
   */
  function Decode(c: byte, arrived: seq<byte>): (d: Decoded)
    ensures c != ESC ==> d == Decoded(Byte(c), 0)
    ensures c == ESC ==> 1 <= d.readCalls <= 3 && d.readCalls <= |arrived| + 1
    ensures c == ESC && |arrived| < 2 ==> d == Decoded(Escape, |arrived| + 1)
    ensures c == ESC && |arrived| == 2 && arrived[0] == LBRACKET && IsDigit(arrived[1])
            ==> d == Decoded(Escape, 3)
  {
    if c != ESC then Decoded(Byte(c), 0)
    else if |arrived| == 0 then Decoded(Escape, 1)
    else if |arrived| == 1 then Decoded(Escape, 2)
    else if arrived[0] == LBRACKET then
      if IsDigit(arrived[1]) then
        if |arrived| == 2 then Decoded(Escape, 3)
        else Decoded(if arrived[2] == TILDE then TildeKey(arrived[1]) else Escape, 3)
      else Decoded(CsiLetterKey(arrived[1]), 2)
    else if arrived[0] == 'O' as int then Decoded(Ss3Key(arrived[1]), 2)
    else Decoded(Escape, 2)
  }

  /** The table of recognised sequences, written out as the bytes that follow ESC. */
  const Sequences: map<seq<byte>, Key> := map[
    [LBRACKET, 'A' as int] := ArrowUp,
    [LBRACKET, 'B' as int] := ArrowDown,
    [LBRACKET, 'C' as int] := ArrowRight,
    [LBRACKET, 'D' as int] := ArrowLeft,
    [LBRACKET, 'H' as int] := HomeKey,
    [LBRACKET, 'F' as int] := EndKey,
    ['O' as int, 'H' as int] := HomeKey,
    ['O' as int, 'F' as int] := EndKey,
    [LBRACKET, '5' as int, TILDE] := PageUp,
    [LBRACKET, '6' as int, TILDE] := PageDown,
    [LBRACKET, '1' as int, TILDE] := HomeKey,
    [LBRACKET, '7' as int, TILDE] := HomeKey,
    [LBRACKET, '4' as int, TILDE] := EndKey,
    [LBRACKET, '8' as int, TILDE] := EndKey,
    [LBRACKET, '3' as int, TILDE] := DeleteKey
  ]

  /** The key the table gives the bytes after ESC: their two- or three-byte prefix, else Escape. */
  function Lookup(a: seq<byte>): (k: Key) {
    if |a| >= 2 && a[..2] in Sequences then Sequences[a[..2]]
    else if |a| >= 3 && a[..3] in Sequences then Sequences[a[..3]]
    else Escape
  }

  /** The decoder recognises exactly the table: every other sequence after ESC is Escape. */
  lemma DecodeMatchesTable(a: seq<byte>)
    ensures Decode(ESC, a).key == Lookup(a)
  {
    if |a| >= 2 {
      var p := a[..2];
      assert p == [a[0], a[1]];
      if |a| >= 3 {
        var q := a[..3];
        assert q == [a[0], a[1], a[2]];
      }
    }
  }

  /** The byte sequence a terminal sends for each key (the first of the table's encodings). */
  function Encoding(k: Key): (e: seq<byte>)
    ensures |e| >= 1
  {
    match k
    case Byte(b) => [b]
    case ArrowUp => [ESC, LBRACKET, 'A' as int]
    case ArrowDown => [ESC, LBRACKET, 'B' as int]
    case ArrowRight => [ESC, LBRACKET, 'C' as int]
    case ArrowLeft => [ESC, LBRACKET, 'D' as int]
    case HomeKey => [ESC, LBRACKET, 'H' as int]
    case EndKey => [ESC, LBRACKET, 'F' as int]
    case PageUp => [ESC, LBRACKET, '5' as int, TILDE]
    case PageDown => [ESC, LBRACKET, '6' as int, TILDE]
    case DeleteKey => [ESC, LBRACKET, '3' as int, TILDE]
  }

  /**
   * Round trip: whatever follows it, the encoding of a key other than Escape decodes to
   * that key and consumes exactly its own bytes. (Escape itself needs the timeout that
   * follows it; Decode's contract covers that case.)
   */
  lemma DecodeEncoding(k: Key, more: seq<byte>)
    requires k != Escape
    ensures Decode(Encoding(k)[0], Encoding(k)[1..] + more) == Decoded(k, |Encoding(k)| - 1)
  {
    var e := Encoding(k);
    var a := e[1..] + more;
    if k.Byte? {
      assert e[0] == k.b;
    } else {
      assert e[0] == ESC;
      assert a[0] == e[1] && a[1] == e[2];
      if |e| == 4 {
        assert a[2] == e[3];
      }
    }
  }

  /** What one read() call on the terminal returned. */
  datatype ReadOutcome =
    | Got(b: byte)             // one byte read
    | Timeout                  // zero bytes within the read timeout
    | Failed(wouldBlock: bool) // -1, with errno EAGAIN or another error

  /** The result of editorReadKey on a finite stream of read outcomes. */
  datatype KeyRead =
    | KeyRead(key: Key, consumed: nat) // a key, and how many outcomes it used up
    | ReadError                        // a failed read other than EAGAIN: the source dies
    | NoInput                          // the stream ended while still waiting for a byte

  /** The bytes delivered by the reads at the head of `outs`, up to the first one that is not a byte. */
  function Arrived(outs: seq<ReadOutcome>): (r: seq<byte>)
    ensures |r| <= |outs|
    ensures forall i :: 0 <= i < |r| ==> outs[i] == Got(r[i])
    ensures |r| < |outs| ==> !outs[|r|].Got?
  {
    if outs == [] || !outs[0].Got? then [] else [outs[0].b] + Arrived(outs[1..])
  }

  /** True of an outcome on which the waiting loop reads again. */
  predicate KeepsWaiting(o: ReadOutcome) {
    o == Timeout || o == Failed(true)
  }

  /** Index, from `i` on, of the first outcome that ends the waiting loop, or |outs|. */
  function WaitEnd(outs: seq<ReadOutcome>, i: nat): (r: nat)
    requires i <= |outs|
    ensures i <= r <= |outs|
    ensures forall j :: i <= j < r ==> KeepsWaiting(outs[j])
    ensures r < |outs| ==> !KeepsWaiting(outs[r])
    decreases |outs| - i
  {
    if i == |outs| || !KeepsWaiting(outs[i]) then i else WaitEnd(outs, i + 1)
  }

  /** editorReadKey as a function of the stream of read outcomes. */
  function ReadKeySpec(outs: seq<ReadOutcome>): (r: KeyRead)
    ensures r.NoInput? <==> forall i :: 0 <= i < |outs| ==> KeepsWaiting(outs[i])
    ensures r.ReadError? <==> exists i :: 0 <= i < |outs| && outs[i] == Failed(false)
                                         && forall j :: 0 <= j < i ==> KeepsWaiting(outs[j])
    ensures r.KeyRead? ==> 1 <= r.consumed <= |outs|
  {
    var i := WaitEnd(outs, 0);
    if i == |outs| then NoInput
    else if outs[i].Failed? then ReadError
    else
      var d := Decode(outs[i].b, Arrived(outs[i + 1..]));
      KeyRead(d.key, Min(i + 1 + d.readCalls, |outs|))
  }

  /** A byte at position p of the stream is the first of the bytes that arrive from p on. */
  lemma ArrivedAt(outs: seq<ReadOutcome>, p: nat)
    requires p <= |outs|
    ensures p < |outs| && outs[p].Got? ==> Arrived(outs[p..]) == [outs[p].b] + Arrived(outs[p + 1..])
    ensures p == |outs| || !outs[p].Got? ==> Arrived(outs[p..]) == []
  {
    if p < |outs| {
      assert outs[p..][1..] == outs[p + 1..];
    }
  }

  /**
   * editorReadKey: waits for a byte, skipping timeouts and EAGAIN, then decodes it,
   * reading the rest of an escape sequence one byte at a time.
   */
  method ReadKey(outs: seq<ReadOutcome>) returns (r: KeyRead)
    ensures r == ReadKeySpec(outs)
    ensures r.KeyRead? ==> 1 <= r.consumed <= |outs|
  {
    var i := 0;
    while i < |outs| && KeepsWaiting(outs[i])
      invariant 0 <= i <= |outs|
      invariant WaitEnd(outs, 0) == WaitEnd(outs, i)
    {
      i := i + 1;
    }
    if i == |outs| {
      return NoInput;
    }
    if outs[i].Failed? {
      return ReadError;
    }
    var c := outs[i].b;
    if c != ESC {
      return KeyRead(Byte(c), i + 1);
    }
    var key, next := ReadSequence(outs, i + 1);
    return KeyRead(key, next);
  }

  /**
   * The escape-sequence branch of editorReadKey: reads after an ESC, one byte per read,
   * and stops at the first read that brings no byte or once the sequence is decided.
   */
  method ReadSequence(outs: seq<ReadOutcome>, start: nat) returns (key: Key, next: nat)
    requires start <= |outs|
    ensures var d := Decode(ESC, Arrived(outs[start..]));
      key == d.key && next == Min(start + d.readCalls, |outs|)
  {
    ghost var arrived := Arrived(outs[start..]);
    var pos := start;
    ArrivedAt(outs, pos);
    if pos == |outs| || !outs[pos].Got? {
      return Escape, Min(pos + 1, |outs|);
    }
    var s0 := outs[pos].b;
    pos := pos + 1;
    ArrivedAt(outs, pos);
    if pos == |outs| || !outs[pos].Got? {
      return Escape, Min(pos + 1, |outs|);
    }
    var s1 := outs[pos].b;
    pos := pos + 1;
    ArrivedAt(outs, pos);
    assert arrived == [s0, s1] + Arrived(outs[pos..]);
    key := Escape;
    if s0 == LBRACKET {
      if IsDigit(s1) {
        if pos == |outs| || !outs[pos].Got? {
          return Escape, Min(pos + 1, |outs|);
        }
        var s2 := outs[pos].b;
        pos := pos + 1;
        assert arrived[2] == s2;
        if s2 == TILDE {
          key := TildeKey(s1);
        }
      } else {
        key := CsiLetterKey(s1);
      }
    } else if s0 == 'O' as int {
      key := Ss3Key(s1);
    }
    return key, pos;
  }
}
