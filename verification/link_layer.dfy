/** The link layer's send path (`CamadaEnlace.enviar`): pick the link bound
    to the next hop and frame the datagram for it. */
module LinkLayer {
  import opened Framing
  import opened Deframing
  import opened FrameRoundTrip

  datatype Result<T, E> = Ok(value: T) | Err(error: E)

  /** Why a datagram could not be sent: no link reaches that address (the
      failed dictionary lookup in `CamadaEnlace.enviar`). */
  datatype SendError = UnknownNextHop(nextHop: string)

  /** The link to use and the frame to write on it, or an error when
      `nextHop` is not a key of `links`.  A fresh receiver at the far end of
      that link gets the datagram back. */
  function Route<L>(links: map<string, L>, datagram: Datagram, nextHop: string): (r: Result<(L, seq<Byte>), SendError>)
    ensures r.Ok? <==> nextHop in links
    ensures r.Err? ==> r.error == UnknownNextHop(nextHop)
    ensures r.Ok? ==> r.value.0 == links[nextHop] && r.value.1 == Encode(datagram)
    ensures r.Ok? ==> Feed(Fresh, r.value.1) == Run(Fresh, if datagram == [] then [] else [datagram])
  {
    if nextHop in links then
      RoundTrip(datagram);
      Ok((links[nextHop], Encode(datagram)))
    else
      Err(UnknownNextHop(nextHop))
  }
}
