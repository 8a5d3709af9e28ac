/** The sending half of the SLIP link (RFC 1055): the escape table and the
    frame that `Enlace.enviar` builds for one datagram.  Everything here is a
    function of the datagram alone. */
module Framing {

  /** One octet on the serial line. */
  newtype Byte = b: int | 0 <= b < 256

  /** A datagram handed to or delivered by the link: any byte string, empty included. */
  type Datagram = seq<Byte>

  /** The four special bytes of RFC 1055. */
  const END: Byte := 0xC0
  const ESC: Byte := 0xDB
  const ESC_END: Byte := 0xDC
  const ESC_ESC: Byte := 0xDD

  /** The bytes that cannot travel as themselves inside a frame. */
  predicate IsSpecial(b: Byte) {
    b == END || b == ESC
  }

  /** How many bytes of `d` need an escape. */
  function SpecialCount(d: Datagram): nat {
    multiset(d)[END] + multiset(d)[ESC]
  }

  /** The wire form of one datagram byte: END and ESC become two-byte escape
      sequences, every other byte stands for itself. */
  function EscapeByte(b: Byte): (r: seq<Byte>)
    ensures END !in r && 1 <= |r| <= 2
    ensures r[0] == ESC <==> IsSpecial(b)
    ensures IsSpecial(b) ==> |r| == 2 && (r[1] == ESC_END <==> b == END) && (r[1] == ESC_ESC <==> b == ESC)
    ensures !IsSpecial(b) ==> r == [b]
  {
    if b == END then [ESC, ESC_END]
    else if b == ESC then [ESC, ESC_ESC]
    else [b]
  }

  /** The escaped body of a frame: each datagram byte in turn through the table. */
  function Escape(d: Datagram): (r: seq<Byte>)
    ensures |d| <= |r| <= 2 * |d|
  {
    if d == [] then [] else EscapeByte(d[0]) + Escape(d[1..])
  }

  /** The frame `enviar` writes for a datagram: END, the escaped body, END. */
  function Encode(d: Datagram): (r: seq<Byte>)
    ensures |d| + 2 <= |r| <= 2 * |d| + 2
    ensures r[0] == END && r[|r| - 1] == END
  {
    [END] + Escape(d) + [END]
  }

  /** Well-formed frame body: no END at all, and every ESC is immediately
      followed by one of the two escape codes. */
  predicate WellEscaped(e: seq<Byte>) {
    END !in e &&
    forall i :: 0 <= i < |e| && e[i] == ESC ==> i + 1 < |e| && (e[i + 1] == ESC_END || e[i + 1] == ESC_ESC)
  }

  /** Escaping is a homomorphism: the body of a concatenation is the
      concatenation of the bodies, so no byte is reordered. */
  lemma {:induction false} EscapeAppend(a: Datagram, b: Datagram)
    ensures Escape(a + b) == Escape(a) + Escape(b)
  {
    if a == [] {
      assert a + b == b;
    } else {
      assert (a + b)[0] == a[0];
      assert (a + b)[1..] == a[1..] + b;
      EscapeAppend(a[1..], b);
    }
  }

  /** Each datagram byte, wherever it sits, turns into exactly its table entry,
      between the bodies of what precedes and what follows it. */
  lemma EscapeInOrder(a: Datagram, x: Byte, b: Datagram)
    ensures Escape(a + [x] + b) == Escape(a) + EscapeByte(x) + Escape(b)
    ensures x == END ==> EscapeByte(x) == [ESC, ESC_END]
    ensures x == ESC ==> EscapeByte(x) == [ESC, ESC_ESC]
    ensures !IsSpecial(x) ==> EscapeByte(x) == [x]
  {
    assert Escape([x]) == EscapeByte(x) by {
      assert [x][1..] == [];
    }
    calc {
      Escape(a + [x] + b);
      { EscapeAppend(a + [x], b); }
      Escape(a + [x]) + Escape(b);
      { EscapeAppend(a, [x]); }
      Escape(a) + EscapeByte(x) + Escape(b);
    }
  }

  /** The body grows by one byte per escaped byte; a datagram with nothing to
      escape is its own body. */
  lemma {:induction false} EscapeLength(d: Datagram)
    ensures |Escape(d)| == |d| + SpecialCount(d)
    ensures SpecialCount(d) == 0 ==> Escape(d) == d
  {
    if d != [] {
      assert d == [d[0]] + d[1..];
      assert multiset(d) == multiset([d[0]]) + multiset(d[1..]);
      EscapeLength(d[1..]);
    }
  }

  /** Two well-formed bodies concatenate to a well-formed body. */
  lemma WellEscapedAppend(a: seq<Byte>, b: seq<Byte>)
    requires WellEscaped(a) && WellEscaped(b)
    ensures WellEscaped(a + b)
  {
    var e := a + b;
    forall i | 0 <= i < |e| && e[i] == ESC
      ensures i + 1 < |e| && (e[i + 1] == ESC_END || e[i + 1] == ESC_ESC)
    {
      if i < |a| {
        assert a[i] == ESC;
      } else {
        assert b[i - |a|] == ESC;
      }
    }
  }

  /** Every escaped body is well formed: END never occurs in it and no ESC
      dangles or introduces anything but an escape code. */
  lemma {:induction false} EscapeWellFormed(d: Datagram)
    ensures WellEscaped(Escape(d))
  {
    if d != [] {
      EscapeWellFormed(d[1..]);
      WellEscapedAppend(EscapeByte(d[0]), Escape(d[1..]));
    }
  }

  /** A frame starts and ends with END and has no END strictly inside, so the
      receiver can always find its boundaries. */
  lemma EncodeDelimited(d: Datagram)
    ensures |Encode(d)| >= 2
    ensures Encode(d)[0] == END && Encode(d)[|Encode(d)| - 1] == END
    ensures forall i :: 0 < i < |Encode(d)| - 1 ==> Encode(d)[i] != END
  {
    EscapeWellFormed(d);
    var f := Encode(d);
    forall i | 0 < i < |f| - 1
      ensures f[i] != END
    {
      assert f[i] == Escape(d)[i - 1];
    }
  }

  /** A frame is two bytes longer than its datagram plus one byte per escape. */
  lemma EncodeLength(d: Datagram)
    ensures |Encode(d)| == |d| + 2 + SpecialCount(d)
  {
    EscapeLength(d);
  }
}
