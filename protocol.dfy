/** Value-level vocabulary of the UART echo firmware: bytes, the two buffer
    sizes, the circular index arithmetic of the receive buffer, the framing of
    a transmitted message (everything up to and including the first carriage
    return), and the two C library calls the main loop relies on (`strncpy`
    and `strncmp`). The stateful firmware in module Firmware is specified in
    terms of these functions. */
module Protocol {

  /** A C `char` on the target: one byte. */
  newtype byte = x: int | 0 <= x < 256

  /** RX_BUF_SIZE: capacity of the circular input buffer. */
  const RxBufSize: int := 80
  /** TX_BUF_SIZE: capacity of the linear output buffer. */
  const TxBufSize: int := 80

  /** Carriage return, the line terminator (value 13). */
  const CR: byte := 13
  /** Line feed, ends the canned texts but is never transmitted. */
  const LF: byte := 10

  /** Bytes of an ASCII string literal. */
  function Ascii(s: string): seq<byte>
    requires forall i | 0 <= i < |s| :: s[i] as int < 256
  {
    seq(|s|, i requires 0 <= i < |s| => s[i] as int as byte)
  }

  /** The command word "hello\r", terminator included. */
  const HelloCmd: seq<byte> := [104, 101, 108, 108, 111, 13]
  /** "Hello! I am working properly!\r\n": the reply loaded when the
      command word is recognised. */
  const GreetingText: seq<byte> :=
    [72, 101, 108, 108, 111, 33, 32, 73, 32, 97, 109, 32, 119, 111, 114, 107,
     105, 110, 103, 32, 112, 114, 111, 112, 101, 114, 108, 121, 33, 13, 10]
  /** "Input Buffer is full\r\n": the diagnostic loaded when the receive
      buffer overflowed. */
  const InputFullText: seq<byte> :=
    [73, 110, 112, 117, 116, 32, 66, 117, 102, 102, 101, 114, 32, 105, 115, 32,
     102, 117, 108, 108, 13, 10]
  /** "Output buffer is full\r\n": the diagnostic loaded when a line does
      not fit the transmit buffer. */
  const OutputFullText: seq<byte> :=
    [79, 117, 116, 112, 117, 116, 32, 98, 117, 102, 102, 101, 114, 32, 105, 115,
     32, 102, 117, 108, 108, 13, 10]

  /** The byte constants spell the string literals of the firmware. */
  lemma HelloIsAscii()
    ensures HelloCmd == Ascii("hello\r")
  {
  }

  lemma GreetingIsAscii()
    ensures GreetingText == Ascii("Hello! I am working properly!\r\n")
  {
  }

  lemma InputFullIsAscii()
    ensures InputFullText == Ascii("Input Buffer is full\r\n")
  {
  }

  lemma OutputFullIsAscii()
    ensures OutputFullText == Ascii("Output buffer is full\r\n")
  {
  }

  // ---------------------------------------------------------------------
  // Circular index arithmetic of the receive buffer
  // ---------------------------------------------------------------------

  /** One step of a receive-buffer cursor: increment, and back to 0 once it
      reaches RX_BUF_SIZE. */
  function Advance(i: int): (r: int)
    requires 0 <= i < RxBufSize
    ensures 0 <= r < RxBufSize
    ensures r == (i + 1) % RxBufSize
  {
    if i + 1 >= RxBufSize then 0 else i + 1
  }

  /** The slot `k` places after `start`, going round the buffer. */
  function RingIndex(start: int, k: int): (r: int)
    requires 0 <= start < RxBufSize && 0 <= k < RxBufSize
    ensures 0 <= r < RxBufSize
    ensures r == (start + k) % RxBufSize
  {
    if start + k < RxBufSize then start + k else start + k - RxBufSize
  }

  /** The `n` bytes of `buf` that start at slot `start`, in circular order. */
  function RingSlice(buf: seq<byte>, start: int, n: int): (r: seq<byte>)
    requires |buf| == RxBufSize && 0 <= start < RxBufSize && 0 <= n <= RxBufSize
    ensures |r| == n
  {
    seq(n, k requires 0 <= k < n => buf[RingIndex(start, k)])
  }

  /** Number of unread bytes given the two cursors and the two flags: the
      flags decide the case where the cursors coincide. */
  function Occupancy(idIn: int, idOut: int, empty: bool, full: bool): (n: int)
    requires 0 <= idIn < RxBufSize && 0 <= idOut < RxBufSize
    ensures 0 <= n <= RxBufSize
    ensures n == 0 <==> empty || (!full && idIn == idOut)
    ensures n == RxBufSize <==> !empty && full
  {
    if empty then 0
    else if full then RxBufSize
    else if idIn >= idOut then idIn - idOut
    else idIn + RxBufSize - idOut
  }

  /** Writing a byte at the first free slot appends it to the unread bytes. */
  lemma RingSliceAppend(buf: seq<byte>, start: int, n: int, b: byte)
    requires |buf| == RxBufSize && 0 <= start < RxBufSize && 0 <= n < RxBufSize
    ensures RingSlice(buf[RingIndex(start, n) := b], start, n + 1) == RingSlice(buf, start, n) + [b]
  {
  }

  /** Reading the slot at `start` and advancing it removes the head of the
      unread bytes. */
  lemma RingSliceDrop(buf: seq<byte>, start: int, n: int)
    requires |buf| == RxBufSize && 0 <= start < RxBufSize && 0 < n <= RxBufSize
    ensures RingSlice(buf, start, n)[0] == buf[start]
    ensures RingSlice(buf, Advance(start), n - 1) == RingSlice(buf, start, n)[1..]
  {
  }

  /** The invariant of the receive cursors and flags: both cursors inside
      the buffer, the two flags exclusive, and equal cursors exactly when one
      of the flags says empty or full. */
  predicate RxCursors(idIn: int, idOut: int, empty: bool, full: bool)
  {
    0 <= idIn < RxBufSize && 0 <= idOut < RxBufSize
    && !(empty && full) && ((empty || full) <==> idIn == idOut)
  }

  // ---------------------------------------------------------------------
  // Message framing
  // ---------------------------------------------------------------------

  /** What the transmit handler sends from a buffer whose cursor starts at
      0: every byte up to and including the first carriage return. */
  function Frame(s: seq<byte>): (r: seq<byte>)
    ensures |r| <= |s| && r == s[..|r|]
    ensures CR !in s ==> r == s
    ensures CR in s ==> 0 < |r| && r[|r| - 1] == CR && CR !in r[..|r| - 1]
  {
    if s == [] then []
    else if s[0] == CR then [CR]
    else [s[0]] + Frame(s[1..])
  }

  /** A line that ends at its first carriage return is framed intact,
      whatever follows it in the buffer. */
  lemma FrameOfLine(line: seq<byte>, rest: seq<byte>)
    requires 0 < |line| && line[|line| - 1] == CR && CR !in line[..|line| - 1]
    ensures Frame(line + rest) == line
  {
    var s := line + rest;
    var r := Frame(s);
    assert s[|line| - 1] == CR;
    assert CR in s;
  }

  // ---------------------------------------------------------------------
  // The C library calls on TX_buf
  // ---------------------------------------------------------------------

  /** `strncpy(TX_buf, text, TX_BUF_SIZE)` for a literal without NUL bytes:
      the text, then NUL padding up to the buffer size. */
  function Strncpy(text: seq<byte>): (r: seq<byte>)
    requires |text| <= TxBufSize
    ensures |r| == TxBufSize && r[..|text|] == text
    ensures forall i | |text| <= i < TxBufSize :: r[i] == 0
  {
    text + seq(TxBufSize - |text|, _ => 0)
  }

  /** `strncmp(a, b, n) == 0`: the first `n` bytes agree, where comparison
      stops early at a NUL common to both. */
  function StrnEqual(a: seq<byte>, b: seq<byte>, n: nat): (r: bool)
    requires n <= |a| && n <= |b|
    ensures r <==> forall i | 0 <= i < n && 0 !in a[..i] :: a[i] == b[i]
  {
    n == 0 || (a[0] == b[0] && (a[0] == 0 || StrnEqual(a[1..], b[1..], n - 1)))
  }

  /** Against a pattern without NUL bytes, `strncmp` is plain equality of
      the first `n` bytes. */
  lemma {:induction false} StrnEqualWithoutNul(a: seq<byte>, b: seq<byte>, n: nat)
    requires n <= |a| && n <= |b|
    requires forall i | 0 <= i < n :: b[i] != 0
    ensures StrnEqual(a, b, n) <==> a[..n] == b[..n]
  {
    if n > 0 {
      StrnEqualWithoutNul(a[1..], b[1..], n - 1);
      assert a[..n] == [a[0]] + a[1..][..n - 1];
      assert b[..n] == [b[0]] + b[1..][..n - 1];
    }
  }

  /** The reply to a terminated input line: the greeting (without its line
      feed, which is never transmitted) for the command word, the line itself
      otherwise. */
  function Response(line: seq<byte>): seq<byte>
  {
    if line == HelloCmd then GreetingText[..|GreetingText| - 1] else line
  }

  /** The command test of the main loop compares only the first six bytes of
      TX_buf, but a line occupies TX_buf from index 0 and holds its only
      carriage return at its end, so the test succeeds exactly for the line
      "hello\r" and never for a longer line sharing its first five letters. */
  lemma HelloMatchExact(buf: seq<byte>, n: int)
    requires 6 <= |buf| && 0 < n <= |buf|
    requires buf[n - 1] == CR && CR !in buf[..n - 1]
    ensures StrnEqual(buf, HelloCmd, 6) <==> buf[..n] == HelloCmd
  {
    assert forall i | 0 <= i < 6 :: HelloCmd[i] != 0;
    StrnEqualWithoutNul(buf, HelloCmd, 6);
    if buf[..6] == HelloCmd[..6] {
      assert buf[5] == CR;
    }
  }

  // ---------------------------------------------------------------------
  // TX_buf and its cursor across main loop and TXE branch
  // ---------------------------------------------------------------------

  /** The invariant of TX_buf and its cursor: the bytes below the cursor
      hold no carriage return (the line being assembled, or the part of the
      armed message already sent), and an armed message still has its
      terminator at or after the cursor. */
  predicate TxCursor(buf: seq<byte>, id: int, ready: bool)
  {
    |buf| == TxBufSize && 0 <= id <= TxBufSize
    && (forall i | 0 <= i < id :: buf[i] != CR)
    && (ready ==> exists j | id <= j < TxBufSize :: buf[j] == CR)
  }

  /** Sending the byte under the cursor of an armed message sends the next
      byte of its frame, and keeps the invariant: the cursor advances past
      an ordinary byte, and the message is disarmed with the cursor back at
      0 after its carriage return. */
  lemma SendStep(buf: seq<byte>, id: int)
    requires TxCursor(buf, id, true)
    ensures id < |Frame(buf)| && Frame(buf)[id] == buf[id]
    ensures buf[id] == CR <==> id + 1 == |Frame(buf)|
    ensures buf[id] == CR ==> TxCursor(buf, 0, false)
    ensures buf[id] != CR ==> TxCursor(buf, id + 1, true)
  {
  }

  /** Writing a drained byte at the cursor of the line being assembled:
      the line grows by that byte, and stays free of carriage returns unless
      the byte is one. */
  lemma EchoWrite(buf: seq<byte>, id: int, v: byte)
    requires TxCursor(buf, id, false) && id < TxBufSize
    ensures buf[id := v][..id + 1] == buf[..id] + [v]
    ensures TxCursor(buf[id := v], id, false)
    ensures v != CR ==> TxCursor(buf[id := v], id + 1, false)
  {
  }

  /** Appending a carriage return completes the line: the command test on
      TX_buf then recognises exactly the line "hello\r", and the buffer, if
      left as it is, holds an armed message that is transmitted as the line
      itself. */
  lemma EchoTerminator(buf: seq<byte>, id: int)
    requires TxCursor(buf, id, false) && id < TxBufSize && buf[id] == CR
    ensures var line := buf[..id + 1];
            (StrnEqual(buf, HelloCmd, 6) <==> line == HelloCmd)
            && TxCursor(buf, 0, true) && Frame(buf) == line
  {
    var line := buf[..id + 1];
    assert line[..id] == buf[..id];
    HelloMatchExact(buf, id + 1);
    assert buf == line + buf[id + 1..];
    FrameOfLine(line, buf[id + 1..]);
  }

  /** The shape shared by the three canned texts: a carriage return and a
      line feed at the end and no other carriage return. */
  predicate CannedShape(text: seq<byte>)
  {
    2 <= |text| <= TxBufSize && text[|text| - 2] == CR && text[|text| - 1] == LF
    && CR !in text[..|text| - 2]
  }

  /** The three canned texts have that shape. */
  lemma GreetingShape()
    ensures CannedShape(GreetingText)
  {
  }

  lemma InputFullShape()
    ensures CannedShape(InputFullText)
  {
  }

  lemma OutputFullShape()
    ensures CannedShape(OutputFullText)
  {
  }

  /** A canned text loaded with `strncpy` is transmitted up to its carriage
      return: its trailing line feed never goes out. */
  lemma FrameOfCanned(text: seq<byte>)
    requires CannedShape(text)
    ensures Frame(Strncpy(text)) == text[..|text| - 1]
    ensures TxCursor(Strncpy(text), 0, true)
  {
  }
}
