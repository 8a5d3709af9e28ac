/** How the two halves of the link fit together: what the receiver makes of
    the frames the sender writes, alone, back to back, cut into arbitrary
    chunks, or after a stray escape. */
module FrameRoundTrip {
  import opened Framing
  import opened Deframing

  /** The byte stream a sender produces for several datagrams in turn. */
  function Frames(ds: seq<Datagram>): seq<Byte>
    decreases |ds|
  {
    if ds == [] then [] else Encode(ds[0]) + Frames(ds[1..])
  }

  /** The datagrams of `ds` that are not empty, in order: what a receiver
      delivers of them. */
  function NonEmpty(ds: seq<Datagram>): seq<Datagram>
    decreases |ds|
  {
    if ds == [] then [] else Deliver(ds[0]) + NonEmpty(ds[1..])
  }

  /** What a receiver with an escape pending makes of the first datagram byte
      of a frame: an escaped byte arrives intact (its own ESC raises the flag
      again), any other byte is taken as an escape code. */
  function AfterStrayEscape(x: Byte): seq<Byte> {
    if IsSpecial(x) then [x] else Unescape(x)
  }

  /** Moving the first byte of `d` onto `p` does not change `p + d`. */
  lemma SplitFirst(p: Datagram, d: Datagram)
    requires d != []
    ensures p + [d[0]] + d[1..] == p + d
  {
  }

  /** Input that delivers nothing may be followed by more: the deliveries are
      those of the rest, from where the first part left off. */
  lemma FeedThen(s: DecoderState, a: seq<Byte>, b: seq<Byte>, mid: DecoderState)
    requires Feed(s, a) == Run(mid, [])
    ensures Feed(s, a + b) == Feed(mid, b)
  {
    FeedAppend(s, a, b);
  }

  /** One escaped datagram byte, decoded with no escape pending, is appended. */
  lemma FeedEscapeByte(p: Datagram, x: Byte)
    ensures Feed(DecoderState(p, false), EscapeByte(x)) == Run(DecoderState(p + [x], false), [])
  {
    var s := DecoderState(p, false);
    if IsSpecial(x) {
      var e := EscapeByte(x);
      assert e == [e[0]] + [e[1]];
      FeedAppend(s, [e[0]], [e[1]]);
      FeedOne(s, e[0]);
      FeedOne(DecoderState(p, true), e[1]);
    } else {
      FeedOne(s, x);
    }
  }

  /** The receiver decodes an escaped body back to the bytes it came from,
      appending them to whatever it already holds and delivering nothing. */
  lemma {:induction false} FeedEscaped(p: Datagram, d: Datagram)
    ensures Feed(DecoderState(p, false), Escape(d)) == Run(DecoderState(p + d, false), [])
    decreases |d|
  {
    if d == [] {
      assert p + d == p;
    } else {
      var mid := DecoderState(p + [d[0]], false);
      FeedEscapeByte(p, d[0]);
      FeedEscaped(p + [d[0]], d[1..]);
      SplitFirst(p, d);
      FeedThen(DecoderState(p, false), EscapeByte(d[0]), Escape(d[1..]), mid);
    }
  }

  /** A frame is its opening END followed by the body and closing END. */
  lemma EncodeSplit(d: Datagram)
    ensures Encode(d) == [END] + (Escape(d) + [END])
  {
  }

  /** A frame's body and closing END, met with no escape pending, append the
      datagram to what the receiver holds, deliver the result if it is not
      empty and leave the receiver fresh. */
  lemma FrameBody(q: Datagram, d: Datagram)
    ensures Feed(DecoderState(q, false), Escape(d) + [END]) == Run(Fresh, Deliver(q + d))
  {
    FeedEscaped(q, d);
    FeedThen(DecoderState(q, false), Escape(d), [END], DecoderState(q + d, false));
    FeedOne(DecoderState(q + d, false), END);
  }

  /** A non-empty frame is its opening END, the escaped first byte, the rest
      of the body and the closing END. */
  lemma EncodeSplitFirst(d: Datagram)
    requires d != []
    ensures Encode(d) == [END] + (EscapeByte(d[0]) + (Escape(d[1..]) + [END]))
  {
  }

  /** The first escaped byte of a frame, met with an escape pending. */
  lemma PendingFirstByte(x: Byte)
    ensures Feed(DecoderState([], true), EscapeByte(x)) == Run(DecoderState(AfterStrayEscape(x), false), [])
  {
    var pending := DecoderState([], true);
    var e := EscapeByte(x);
    if IsSpecial(x) {
      assert e[0] == ESC && e[1..] == [e[1]];
      assert Step(pending, ESC) == Run(pending, []);
      FeedOne(pending, e[1]);
      assert Step(pending, e[1]) == Run(DecoderState([x], false), []);
    } else {
      FeedOne(pending, x);
      assert [] + Unescape(x) == AfterStrayEscape(x);
    }
  }

  /** With no escape pending, a frame first flushes what the receiver held,
      then delivers its own datagram if that is not empty, and leaves the
      receiver fresh. */
  lemma EncodeThenFeed(p: Datagram, d: Datagram)
    ensures Feed(DecoderState(p, false), Encode(d)) == Run(Fresh, Deliver(p) + Deliver(d))
  {
    var s := DecoderState(p, false);
    EncodeSplit(d);
    FrameBody([], d);
    FeedOne(s, END);
    FeedAppend(s, [END], Escape(d) + [END]);
    assert [] + d == d;
  }

  /** Round trip: a fresh receiver given the frame of `d` delivers exactly `d`
      (nothing if `d` is empty) and is fresh again afterwards. */
  lemma RoundTrip(d: Datagram)
    ensures Feed(Fresh, Encode(d)) == Run(Fresh, if d == [] then [] else [d])
  {
    EncodeThenFeed([], d);
  }

  /** Frames written back to back are delivered one by one, in order, byte
      exact, empty datagrams left out, and the receiver ends fresh. */
  lemma {:induction false} ConcatenatedFrames(ds: seq<Datagram>)
    ensures Feed(Fresh, Frames(ds)) == Run(Fresh, NonEmpty(ds))
    decreases |ds|
  {
    if ds != [] {
      FeedAppend(Fresh, Encode(ds[0]), Frames(ds[1..]));
      RoundTrip(ds[0]);
      ConcatenatedFrames(ds[1..]);
    }
  }

  /** The same holds however the stream of frames is cut into chunks between
      calls. */
  lemma ChunkedFrames(chunks: seq<seq<Byte>>, ds: seq<Datagram>)
    requires Flatten(chunks) == Frames(ds)
    ensures FeedChunks(Fresh, chunks) == Run(Fresh, NonEmpty(ds))
  {
    FeedChunksFlatten(Fresh, chunks);
    ConcatenatedFrames(ds);
  }

  /** An escape left pending when a frame begins survives its opening END and
      is resolved by the frame's first byte: an escaped first byte still
      arrives intact, any other first byte is read as an escape code (so
      it becomes END, ESC or nothing). */
  lemma DanglingEscape(p: Datagram, d: Datagram)
    ensures d == [] ==> Feed(DecoderState(p, true), Encode(d)) == Run(DecoderState([], true), Deliver(p))
    ensures d != [] ==> Feed(DecoderState(p, true), Encode(d))
                        == Run(Fresh, Deliver(p) + Deliver(AfterStrayEscape(d[0]) + d[1..]))
  {
    var s := DecoderState(p, true);
    var pending := DecoderState([], true);
    if d == [] {
      assert Encode(d) == [END, END];
      EndsKeepEscape(s, Encode(d));
    } else {
      var x := d[0];
      var tail := Escape(d[1..]) + [END];
      EncodeSplitFirst(d);
      FeedOne(s, END);
      PendingFirstByte(x);
      FeedThen(pending, EscapeByte(x), tail, DecoderState(AfterStrayEscape(x), false));
      FrameBody(AfterStrayEscape(x), d[1..]);
      FeedAppend(s, [END], EscapeByte(x) + tail);
    }
  }

  /** A stray ESC before the frame of a one-byte datagram costs the whole
      datagram when that byte is neither special nor an escape code. */
  lemma StrayEscapeLosesDatagram(x: Byte)
    requires !IsSpecial(x) && x != ESC_END && x != ESC_ESC
    ensures Feed(Fresh, [ESC] + Encode([x])) == Run(Fresh, [])
  {
    var pending := DecoderState([], true);
    FeedOne(Fresh, ESC);
    assert Step(Fresh, ESC) == Run(pending, []);
    FeedThen(Fresh, [ESC], Encode([x]), pending);
    DanglingEscape([], [x]);
    assert AfterStrayEscape(x) == [];
    assert [x][1..] == [];
    assert Deliver([]) == [];
  }

  /** The frame of C0 01 DB: both special bytes escaped, the ordinary one
      copied. */
  lemma ExampleEncode()
    ensures Encode([0xC0, 0x01, 0xDB]) == [0xC0, 0xDB, 0xDC, 0x01, 0xDB, 0xDD, 0xC0]
  {
  }

  /** That frame, received in three pieces, is delivered once and intact. */
  lemma ExampleSplitFrame()
    ensures FeedChunks(Fresh, [[0xC0, 0xDB], [0xDC, 0x01, 0xDB, 0xDD], [0xC0]]) == Run(Fresh, [[0xC0, 0x01, 0xDB]])
  {
    var d: Datagram := [0xC0, 0x01, 0xDB];
    var chunks: seq<seq<Byte>> := [[0xC0, 0xDB], [0xDC, 0x01, 0xDB, 0xDD], [0xC0]];
    var frame: seq<Byte> := [0xC0, 0xDB, 0xDC, 0x01, 0xDB, 0xDD, 0xC0];
    assert Flatten(chunks) == frame by {
      assert chunks[1..][1..][1..] == [];
      assert Flatten(chunks[1..][1..]) == [0xC0];
    }
    assert Frames([d]) == frame by {
      assert [d][1..] == [];
      ExampleEncode();
    }
    ChunkedFrames(chunks, [d]);
    assert NonEmpty([d]) == [d] by {
      assert [d][1..] == [];
    }
  }

  /** Delimiters with nothing between them deliver nothing. */
  lemma ExampleIdle()
    ensures Feed(Fresh, [0xC0, 0xC0]) == Run(Fresh, [])
  {
    EndsKeepEscape(Fresh, [0xC0, 0xC0]);
  }

  /** Two frames in one chunk are delivered in order. */
  lemma ExampleTwoFrames()
    ensures Feed(Fresh, [0x61, 0x62, 0xC0, 0x63, 0x64, 0xC0]) == Run(Fresh, [[0x61, 0x62], [0x63, 0x64]])
  {
    var ab: Datagram := [0x61, 0x62];
    var cd: Datagram := [0x63, 0x64];
    assert [0x61, 0x62, 0xC0, 0x63, 0x64, 0xC0] == (ab + [END]) + (cd + [END]);
    TwoClosedFrames(ab, cd);
  }

  /** Ordinary bytes then END, twice, from a fresh receiver: two deliveries. */
  lemma TwoClosedFrames(a: Datagram, b: Datagram)
    requires a != [] && forall i :: 0 <= i < |a| ==> !IsSpecial(a[i])
    requires b != [] && forall i :: 0 <= i < |b| ==> !IsSpecial(b[i])
    ensures Feed(Fresh, (a + [END]) + (b + [END])) == Run(Fresh, [a, b])
  {
    ClosedFrame(a);
    ClosedFrame(b);
    FeedAppend(Fresh, a + [END], b + [END]);
    assert [a] + [b] == [a, b];
  }

  /** Ordinary bytes then END, from a fresh receiver: one delivery. */
  lemma ClosedFrame(d: Datagram)
    requires d != [] && forall i :: 0 <= i < |d| ==> !IsSpecial(d[i])
    ensures Feed(Fresh, d + [END]) == Run(Fresh, [d])
  {
    var held := DecoderState(d, false);
    PlainBytes([], d);
    assert [] + d == d;
    FeedThen(Fresh, d, [END], held);
    FeedOne(held, END);
    assert Step(held, END) == Run(Fresh, [d]);
  }
}
