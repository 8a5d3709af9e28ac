/** One link over a serial line (`Enlace`): the sender builds frames, the
    receiver keeps its partial datagram and escape flag in fields across calls
    and hands each completed datagram upward. */
module SerialLink {
  import opened Framing
  import opened Deframing

  class Link {
    /** The datagram being assembled (`dados`). */
    var buffer: Datagram
    /** Whether the last byte was an ESC not yet resolved (`achou_0xdb`). */
    var escaped: bool
    /** Every datagram handed to the upward callback so far, in order. */
    var delivered: seq<Datagram>

    /** The receiver's fields as a value of the pure state machine. */
    function State(): DecoderState
      reads this
    {
      DecoderState(buffer, escaped)
    }

    /** A new link has nothing assembled, no escape pending and has delivered
        nothing. */
    constructor ()
      ensures State() == Fresh && delivered == []
    {
      buffer := [];
      escaped := false;
      delivered := [];
    }

    /** `enviar`: the frame for `datagram`, built byte by byte through the
        escape table and wrapped in END delimiters. */
    method Send(datagram: Datagram) returns (frame: seq<Byte>)
      ensures frame == Encode(datagram)
    {
      var body: seq<Byte> := [];
      for i := 0 to |datagram|
        invariant body == Escape(datagram[..i])
      {
        var b := datagram[i];
        if b == END {
          body := body + [ESC, ESC_END];
        } else if b == ESC {
          body := body + [ESC, ESC_ESC];
        } else {
          body := body + [b];
        }
        assert datagram[..i + 1] == datagram[..i] + [b];
        EscapeAppend(datagram[..i], [b]);
        assert Escape([b]) == EscapeByte(b) + Escape([]);
      }
      assert datagram[..|datagram|] == datagram;
      frame := [END] + body + [END];
    }

    /** `__raw_recv`: consume a chunk byte by byte; the fields and the
        deliveries afterwards are exactly those of the pure state machine run
        from the fields' old values. */
    method Receive(chunk: seq<Byte>)
      modifies this
      ensures State() == Feed(old(State()), chunk).state
      ensures delivered == old(delivered) + Feed(old(State()), chunk).emitted
    {
      ghost var start := State();
      ghost var before := delivered;
      for i := 0 to |chunk|
        invariant State() == Feed(start, chunk[..i]).state
        invariant delivered == before + Feed(start, chunk[..i]).emitted
      {
        ReceiveByte(chunk[i]);
        assert chunk[..i + 1] == chunk[..i] + [chunk[i]];
        FeedSnoc(start, chunk[..i], chunk[i]);
      }
      assert chunk[..|chunk|] == chunk;
    }

    /** The body of the receiving loop for one byte, tested in `__raw_recv`'s
        order: END, then ESC, then a pending escape, then an ordinary byte. */
    method ReceiveByte(b: Byte)
      modifies this
      ensures State() == Step(old(State()), b).state
      ensures delivered == old(delivered) + Step(old(State()), b).emitted
    {
      if b == END {
        if |buffer| > 0 {
          var completed := buffer;
          buffer := [];
          delivered := delivered + [completed];
        }
      } else if b == ESC {
        escaped := true;
      } else if escaped {
        if b == ESC_END {
          buffer := buffer + [END];
        } else if b == ESC_ESC {
          buffer := buffer + [ESC];
        }
        escaped := false;
      } else {
        buffer := buffer + [b];
      }
    }
  }
}
