# SLIP framing for a serial link, in Dafny

This project models the framing layer of a small network stack's link layer.
Each `Enlace` object drives one serial line and uses the byte-stuffing scheme of
RFC 1055 (SLIP). The special bytes are END = 0xC0, ESC = 0xDB, ESC_END = 0xDC
and ESC_ESC = 0xDD.

- **Sending** (`Enlace.enviar`): each byte of the datagram is escaped. END
  becomes ESC ESC_END, ESC becomes ESC ESC_ESC, and every other byte is copied.
  The result is wrapped in END delimiters.
- **Receiving** (`Enlace.__raw_recv`): arbitrary chunks of the byte stream are
  consumed one byte at a time. Two fields carry state across calls: the partial
  datagram `dados` and the pending-escape flag `achou_0xdb`. Each completed,
  non-empty datagram is handed to the upward callback.

The Dafny modules are:

- `Framing` (framing.dfy): the byte type, the escape table, `Escape` and
  `Encode`, and their properties. These are delimiting, length, order of bytes
  and well-formedness of the escaped body.
- `Deframing` (deframing.dfy): the receiver as a pure state machine.
  `DecoderState` is the pair of fields. `Step` is one byte. `Feed` is a chunk,
  returning the new state and the datagrams delivered. This module also holds
  the lemmas about fragmentation and about each kind of byte.
- `FrameRoundTrip` (roundtrip.dfy): the receiver applied to the sender's
  output. It covers one frame, frames back to back, frames cut into arbitrary
  chunks, and frames that follow a stray ESC.
- `SerialLink` (serial_link.dfy): the class `Link`, with fields `buffer`
  (`dados`), `escaped` (`achou_0xdb`) and `delivered`. `delivered` is the list
  of datagrams passed to the callback. `Send` is the encoding loop. `Receive`
  is the receiving loop, and it is proved to follow `Deframing.Feed`.
- `LinkLayer` (link_layer.dfy): the send path of `CamadaEnlace`. It chooses the
  link bound to the next hop, and an unknown next hop is an error.

Three behaviours of the code are easy to misread, and the model follows the
code:

- An END does not clear a pending escape. The flag survives a frame boundary
  and is resolved by the next frame's first byte (`DanglingEscape`,
  `StrayEscapeLosesDatagram`).
- An ESC that arrives while an escape is already pending is not dropped as
  malformed. It just sets the flag again (`EscRunCollapses`).
- After an ESC, a byte other than END, ESC, ESC_END or ESC_ESC is dropped. The reference
  decoder in RFC 1055 keeps such a byte. This code drops it, and the model does
  too (`EscapedByte`).

## Model

| member | source | states |
|---|---|---|
| `Framing.EscapeByte` | slip.py:59-64 | The escape table for one byte. END becomes ESC ESC_END and ESC becomes ESC ESC_ESC, so the second byte of an escape says which of the two was meant. Any other byte stands for itself. The result never contains END, and it starts with ESC exactly when the byte is END or ESC. |
| `Framing.Escape` | slip.py:58-64 | The escaped body is at least as long as the datagram and at most twice as long. Its exact length, byte order and well-formedness are stated by `EscapeLength`, `EscapeAppend`/`EscapeInOrder` and `EscapeWellFormed`. |
| `Framing.Encode` | slip.py:56-65 | The frame `enviar` writes is between n + 2 and 2n + 2 bytes long for a datagram of n bytes, and it starts and ends with END. `EncodeDelimited`, `EncodeLength` and `FrameRoundTrip.RoundTrip` state the rest. |
| `Framing.EscapeInOrder` | slip.py:58-64 | Where a byte sits in the datagram, its wire form is END -> ESC ESC_END, ESC -> ESC ESC_ESC, or the byte itself. That form goes between the escaped bytes before it and those after it. |
| `Framing.EscapeAppend` | slip.py:58-64 | Escaping distributes over concatenation, so no byte is reordered. |
| `Framing.EscapeLength` | slip.py:58-64 | The escaped body is one byte longer per END or ESC in the datagram. A datagram with neither is its own body. |
| `Framing.EscapeWellFormed` | slip.py:58-64 | The escaped body never contains END. Every ESC in it is followed by ESC_END or ESC_ESC. |
| `Framing.EncodeDelimited` | slip.py:56-65 | A frame starts and ends with END and has no END strictly between them. |
| `Framing.EncodeLength` | slip.py:56-65 | The frame's length is the datagram's length plus 2 plus the number of END and ESC bytes in the datagram. |
| `Deframing.Deliver` | slip.py:80-84 | A completed buffer is handed upward only when it is non-empty, and then as exactly one datagram, the buffer itself. |
| `Deframing.Unescape` | slip.py:94-97 | After an ESC, ESC_END decodes to END and ESC_ESC decodes to ESC. Any other code decodes to nothing. A decoded byte is END or ESC, and its entry in `EscapeByte` is ESC followed by the code, so decoding inverts the escape table. |
| `Deframing.Step` | slip.py:79-100 | One byte delivers at most one datagram. It delivers only on END, and then only the old non-empty buffer. ESC raises the flag, leaves the buffer as it was and delivers nothing, whatever the flag was before. A byte other than END leaves the flag raised exactly when it is ESC. It also grows the buffer by at most one byte. |
| `Deframing.Feed` | slip.py:78-100 | A chunk never delivers an empty datagram. It delivers at most one datagram per END it contains. |
| `Deframing.FeedAppend` | slip.py:68-100 | Feeding `a` and then `b` gives the same final state and the same deliveries, in order, as feeding `a + b`. |
| `Deframing.FeedChunksFlatten` | slip.py:68-100 | Any split of the input into successive calls gives the same final state and deliveries as the whole input in one call. |
| `Deframing.FeedSnoc` | slip.py:78 | One more byte after a chunk is one `Step` from the state that the chunk left. |
| `Deframing.FeedOne` | slip.py:78 | A one-byte chunk is one `Step`. |
| `Deframing.EndsKeepEscape` | slip.py:79-88 | Any run of END bytes delivers the buffer if it is non-empty and nothing otherwise. It empties the buffer and leaves the escape flag as it was. |
| `Deframing.EscRunCollapses` | slip.py:90-91 | ESC sets the flag whatever its value, so any run of ESC bytes before a byte acts as a single ESC. |
| `Deframing.EscapedByte` | slip.py:93-98 | When an escape is pending, ESC_END appends END, ESC_ESC appends ESC, and any other byte that is not END or ESC appends nothing. In each case the flag is lowered and nothing is delivered. |
| `Deframing.PlainBytes` | slip.py:99-100 | Bytes other than END and ESC, met with no escape pending, are appended unchanged. The flag stays down and nothing is delivered. |
| `FrameRoundTrip.FeedEscapeByte` | slip.py:58-98 | One escaped datagram byte, received with no escape pending, appends exactly that byte. |
| `FrameRoundTrip.FeedEscaped` | slip.py:58-100 | An escaped body, received with no escape pending, appends exactly the original datagram and delivers nothing. |
| `FrameRoundTrip.FrameBody` | slip.py:58-84 | A body and its closing END, received with no escape pending, deliver the held bytes plus the datagram (if non-empty). The receiver is then fresh. |
| `FrameRoundTrip.EncodeThenFeed` | slip.py:56-100 | With no escape pending, a frame first delivers whatever the receiver held (if non-empty), then the datagram (if non-empty). It leaves the receiver fresh. |
| `FrameRoundTrip.RoundTrip` | slip.py:46-100 | A fresh receiver fed `Encode(d)` delivers exactly `[d]` (nothing when `d` is empty) and is fresh again. |
| `FrameRoundTrip.ConcatenatedFrames` | slip.py:56-100 | Frames written back to back are delivered in order, byte for byte, with empty datagrams left out. The receiver ends fresh. |
| `FrameRoundTrip.ChunkedFrames` | slip.py:56-100 | The same holds however the stream of frames is split across calls. |
| `FrameRoundTrip.PendingFirstByte` | slip.py:90-98 | With an escape pending, a frame's first escaped byte decodes as `AfterStrayEscape`. An END or ESC byte still arrives intact. Any other byte is read as an escape code. |
| `FrameRoundTrip.DanglingEscape` | slip.py:79-98 | A pending escape survives a frame's opening END. The frame's first byte then resolves it, and the rest of the frame is delivered normally. An empty frame leaves the flag raised. |
| `FrameRoundTrip.StrayEscapeLosesDatagram` | slip.py:79-98 | Take a one-byte datagram whose byte is neither END, ESC, ESC_END nor ESC_ESC. A stray ESC before its frame makes the whole datagram vanish, and the receiver ends fresh. |
| `FrameRoundTrip.ExampleEncode` | slip.py:56-65 | The frame of C0 01 DB is C0 DB DC 01 DB DD C0. |
| `FrameRoundTrip.ExampleSplitFrame` | slip.py:76-100 | That frame, received in the three pieces C0 DB / DC 01 DB DD / C0, delivers C0 01 DB exactly once. |
| `FrameRoundTrip.ExampleIdle` | slip.py:79-80 | Two bare END bytes deliver nothing. |
| `FrameRoundTrip.ExampleTwoFrames` | slip.py:78-100 | `ab` END `cd` END in one chunk delivers `ab` and then `cd`. |
| `FrameRoundTrip.ClosedFrame` | slip.py:78-100 | Plain bytes followed by END, fed to a fresh receiver, deliver those bytes once. |
| `FrameRoundTrip.TwoClosedFrames` | slip.py:78-100 | Two such frames in one chunk are delivered in order. |
| `SerialLink.Link.constructor` | slip.py:43-47 | A new link has an empty buffer, no pending escape and no deliveries: its state is `Deframing.Fresh`, the initial value of the pair `Deframing.DecoderState` of `dados` and `achou_0xdb`. |
| `SerialLink.Link.Send` | slip.py:52-66 | The loop's frame equals `Encode(datagram)`. All the `Framing` and `FrameRoundTrip` lemmas therefore apply to it. |
| `SerialLink.Link.ReceiveByte` | slip.py:79-100 | The loop body for one byte. It updates the fields and the callback log exactly as `Step` does from their old values. |
| `SerialLink.Link.Receive` | slip.py:68-100 | After the loop, the fields are `Feed(old state, chunk).state`. The callback log has grown by exactly `Feed(old state, chunk).emitted`, in order. |
| `LinkLayer.Route` | slip.py:28-35 | An unknown next hop is an error. Otherwise the result names that hop's link and the frame `Encode(datagram)`, which decodes back to the datagram at a fresh receiver. |

## Left out

- The serial line itself is not part of this model. `linha_serial.enviar` and
  `linha_serial.registrar_recebedor` (slip.py:45, 66) are calls into a
  transport object that is not part of this model. `Link.Send` returns the frame
  instead of writing it. `Link.Receive` is called with each chunk the line
  would deliver.
- The upward callback is modelled as appending to `Link.delivered`
  (slip.py:84). The `try`/`except` around it and the printed traceback
  (slip.py:83-88) are exception handling and console output. The buffer is
  already reset before the callback runs, so a failing callback cannot change
  the framing state, and the model has no failing callback.
- `Enlace.registrar_recebedor` (slip.py:49-50) only stores the callback. It is
  represented by `delivered`.
- `CamadaEnlace.__init__`, `registrar_recebedor` and `_callback`
  (slip.py:4-26, 37-39) are glue. They build the address-to-link map, store a
  callback, and forward upward only when a callback is set. Only the lookup rule
  of `CamadaEnlace.enviar` is modelled, as `LinkLayer.Route`.
- `ignore_checksum` (slip.py:2) is never used.
- Python's `bytes`/`bytearray` conversions (slip.py:56, 76) have no counterpart.
  Datagrams and chunks are already sequences of `Byte` values in 0..255.
