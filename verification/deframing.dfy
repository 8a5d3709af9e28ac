/** The receiving half of the SLIP link as a pure state machine: the state the
    receiver keeps between chunks, what one byte does to it, and what a whole
    chunk does.  `SerialLink.Link.Receive` is proved to follow it. */
module Deframing {
  import opened Framing

  /** What the receiver remembers between calls: the datagram being assembled
      (`dados`) and whether the last byte was an unresolved ESC (`achou_0xdb`). */
  datatype DecoderState = DecoderState(buffer: Datagram, escaped: bool)

  /** The state of a newly created link: nothing assembled, no escape pending. */
  const Fresh := DecoderState([], false)

  /** The effect of consuming some bytes: the state afterwards and the
      datagrams handed upward, in the order they were completed. */
  datatype Run = Run(state: DecoderState, emitted: seq<Datagram>)

  /** The list of deliveries a completed buffer gives: none for an empty one. */
  function Deliver(d: Datagram): (r: seq<Datagram>)
    ensures |r| <= 1 && (r == [] <==> d == [])
    ensures d != [] ==> r == [d]
  {
    if d == [] then [] else [d]
  }

  /** The escape code after an ESC, decoded: ESC_END stands for END, ESC_ESC
      for ESC, and any other byte is dropped. */
  function Unescape(b: Byte): (r: seq<Byte>)
    ensures |r| <= 1
    ensures r != [] <==> b == ESC_END || b == ESC_ESC
    ensures r != [] ==> IsSpecial(r[0]) && EscapeByte(r[0]) == [ESC, b]
  {
    if b == ESC_END then [END] else if b == ESC_ESC then [ESC] else []
  }

  /** One byte of input, in the order the receiver tests it: END closes the
      frame (delivering a non-empty buffer and leaving the flag alone), ESC
      raises the flag whatever it was, a byte after ESC is decoded and lowers
      the flag, any other byte is appended. */
  function Step(s: DecoderState, b: Byte): (r: Run)
    ensures |r.emitted| <= 1
    ensures r.emitted != [] ==> b == END && r.emitted == [s.buffer] && s.buffer != []
    ensures b == ESC ==> r == Run(DecoderState(s.buffer, true), [])
    ensures b != END ==> r.state.escaped == (b == ESC)
    ensures b != END ==> |s.buffer| <= |r.state.buffer| <= |s.buffer| + 1
  {
    if b == END then
      if |s.buffer| > 0 then Run(DecoderState([], s.escaped), [s.buffer])
      else Run(s, [])
    else if b == ESC then
      Run(DecoderState(s.buffer, true), [])
    else if s.escaped then
      Run(DecoderState(s.buffer + Unescape(b), false), [])
    else
      Run(DecoderState(s.buffer + [b], false), [])
  }

  /** A chunk of input, byte by byte from the front.  Only END delivers, so a
      chunk delivers at most one datagram per END it holds, and never an empty
      one. */
  function Feed(s: DecoderState, chunk: seq<Byte>): (r: Run)
    ensures forall k :: 0 <= k < |r.emitted| ==> r.emitted[k] != []
    ensures |r.emitted| <= multiset(chunk)[END]
    decreases |chunk|
  {
    if chunk == [] then Run(s, [])
    else
      var first := Step(s, chunk[0]);
      var rest := Feed(first.state, chunk[1..]);
      assert multiset(chunk) == multiset([chunk[0]]) + multiset(chunk[1..]) by {
        assert chunk == [chunk[0]] + chunk[1..];
      }
      Run(rest.state, first.emitted + rest.emitted)
  }

  /** Carry on from the end of run `r` with more input. */
  function Continue(r: Run, chunk: seq<Byte>): Run {
    var next := Feed(r.state, chunk);
    Run(next.state, r.emitted + next.emitted)
  }

  /** Feeding a list of chunks one call after another. */
  function FeedChunks(s: DecoderState, chunks: seq<seq<Byte>>): Run
    decreases |chunks|
  {
    if chunks == [] then Run(s, [])
    else
      var first := Feed(s, chunks[0]);
      var rest := FeedChunks(first.state, chunks[1..]);
      Run(rest.state, first.emitted + rest.emitted)
  }

  /** All chunks joined into one byte string. */
  function Flatten(chunks: seq<seq<Byte>>): seq<Byte>
    decreases |chunks|
  {
    if chunks == [] then [] else chunks[0] + Flatten(chunks[1..])
  }

  /** A chunk of one byte is one step. */
  lemma FeedOne(s: DecoderState, b: Byte)
    ensures Feed(s, [b]) == Step(s, b)
  {
    assert [b][1..] == [];
  }

  /** One more byte after a chunk is one more step from where the chunk left
      off; this is what each turn of the receiving loop does. */
  lemma FeedSnoc(s: DecoderState, c: seq<Byte>, b: Byte)
    ensures Feed(s, c + [b]).state == Step(Feed(s, c).state, b).state
    ensures Feed(s, c + [b]).emitted == Feed(s, c).emitted + Step(Feed(s, c).state, b).emitted
  {
    FeedAppend(s, c, [b]);
    FeedOne(Feed(s, c).state, b);
  }

  /** Fragmentation invariance: feeding `a` and then `b` leaves the same state
      and delivers the same datagrams, in the same order, as feeding `a + b`. */
  lemma {:induction false} FeedAppend(s: DecoderState, a: seq<Byte>, b: seq<Byte>)
    ensures Feed(s, a + b) == Continue(Feed(s, a), b)
    decreases |a|
  {
    if a == [] {
      assert a + b == b;
    } else {
      assert (a + b)[0] == a[0];
      assert (a + b)[1..] == a[1..] + b;
      var first := Step(s, a[0]);
      FeedAppend(first.state, a[1..], b);
    }
  }

  /** However the input is cut into chunks, the link ends in the same state
      and delivers the same datagrams as when it all arrives at once. */
  lemma {:induction false} FeedChunksFlatten(s: DecoderState, chunks: seq<seq<Byte>>)
    ensures FeedChunks(s, chunks) == Feed(s, Flatten(chunks))
    decreases |chunks|
  {
    if chunks != [] {
      FeedChunksFlatten(Feed(s, chunks[0]).state, chunks[1..]);
      FeedAppend(s, chunks[0], Flatten(chunks[1..]));
    }
  }

  /** END never touches the escape flag: after any run of END bytes the flag
      is what it was, the buffer is empty, and the old buffer was delivered
      if it was not empty. */
  lemma {:induction false} EndsKeepEscape(s: DecoderState, ends: seq<Byte>)
    requires ends != [] && forall i :: 0 <= i < |ends| ==> ends[i] == END
    ensures Feed(s, ends) == Run(DecoderState([], s.escaped), Deliver(s.buffer))
    decreases |ends|
  {
    var first := Step(s, ends[0]);
    assert first == Run(DecoderState([], s.escaped), Deliver(s.buffer));
    if |ends| > 1 {
      EndsKeepEscape(first.state, ends[1..]);
    }
  }

  /** ESC raises the flag whatever its value, so a run of ESC bytes before an
      escape code acts like a single ESC: a doubled ESC is not an error. */
  lemma {:induction false} EscRunCollapses(s: DecoderState, escs: seq<Byte>, x: Byte)
    requires escs != [] && forall i :: 0 <= i < |escs| ==> escs[i] == ESC
    ensures Feed(s, escs + [x]) == Feed(s, [ESC, x])
    decreases |escs|
  {
    var first := Step(s, ESC);
    assert first.state == DecoderState(s.buffer, true);
    assert (escs + [x])[0] == ESC && (escs + [x])[1..] == escs[1..] + [x];
    assert [ESC, x][1..] == [x];
    if |escs| > 1 {
      EscRunCollapses(first.state, escs[1..], x);
      assert Step(first.state, ESC).state == first.state;
    } else {
      assert escs[1..] + [x] == [x];
    }
  }

  /** After an ESC, ESC_END adds END to the buffer, ESC_ESC adds ESC, any other
      byte (other than END and ESC) adds nothing; in all three cases the flag
      is lowered and nothing is delivered. */
  lemma EscapedByte(s: DecoderState, x: Byte)
    requires s.escaped && !IsSpecial(x)
    ensures Step(s, x) == Run(DecoderState(s.buffer + Unescape(x), false), [])
    ensures x == ESC_END ==> Step(s, x).state.buffer == s.buffer + [END]
    ensures x == ESC_ESC ==> Step(s, x).state.buffer == s.buffer + [ESC]
    ensures x != ESC_END && x != ESC_ESC ==> Step(s, x).state.buffer == s.buffer
  {
  }

  /** Ordinary bytes with no escape pending are appended unchanged, the flag
      stays down and nothing is delivered. */
  lemma {:induction false} PlainBytes(p: Datagram, d: seq<Byte>)
    requires forall i :: 0 <= i < |d| ==> !IsSpecial(d[i])
    ensures Feed(DecoderState(p, false), d) == Run(DecoderState(p + d, false), [])
    decreases |d|
  {
    if d == [] {
      assert p + d == p;
    } else {
      assert p + d == (p + [d[0]]) + d[1..];
      PlainBytes(p + [d[0]], d[1..]);
    }
  }
}
