/** DefaultDispatcher: handlers by packet id. A handler is an identifier; calling it is the caller's business. */
module Dispatcher {
  import opened Bytes
  import opened Framing

  datatype Outcome<+H> = TooShort | UnknownId(id: nat) | Handled(handler: H, packet: seq<byte>)

  /** What happens to a buffer of which `size` bytes are announced to the handler. */
  function Resolve<H>(handlers: map<nat, H>, buffer: seq<byte>, size: nat): Outcome<H>
    requires size <= |buffer|
  {
    if size < HEADER_SIZE then TooShort
    else if IdField(buffer) in handlers then Handled(handlers[IdField(buffer)], buffer[..size])
    else UnknownId(IdField(buffer))
  }

  class DefaultDispatcher<H> {
    var handlers: map<nat, H>

    constructor ()
      ensures handlers == map[]
    {
      handlers := map[];
    }

    method RegisterHandler(id: nat, handler: H)
      modifies this
      ensures handlers == old(handlers)[id := handler]
    {
      handlers := handlers[id := handler];
    }

    method Dispatch(buffer: seq<byte>, size: nat) returns (outcome: Outcome<H>)
      requires size <= |buffer|
      ensures outcome == Resolve(handlers, buffer, size)
      ensures outcome.TooShort? <==> size < HEADER_SIZE
      ensures size >= HEADER_SIZE ==>
        && (IdField(buffer) !in handlers ==> outcome.UnknownId? && outcome.id == IdField(buffer))
        && (IdField(buffer) in handlers ==>
            outcome.Handled? && outcome.handler == handlers[IdField(buffer)] && outcome.packet == buffer[..size])
    {
      if size < HEADER_SIZE {
        return TooShort;
      }
      var id := U16At(buffer, 2);
      if id in handlers {
        outcome := Handled(handlers[id], buffer[..size]);
      } else {
        outcome := UnknownId(id);
      }
    }
  }

  /** The size passed to Dispatch is a 16-bit cast of the packet's length; for a framed packet the cast loses nothing. */
  lemma WholePacketHandled<H>(handlers: map<nat, H>, packet: seq<byte>)
    requires IsPacket(packet)
    ensures Resolve(handlers, packet, |packet| % U16_RANGE)
      == if IdField(packet) in handlers then Handled(handlers[IdField(packet)], packet) else UnknownId(IdField(packet))
  {
    assert packet[..|packet|] == packet;
  }
}
