/** The typed packets of the game protocol: MakeSendBuffer, the Write / Read pairs and HandlePacket. */
module ClientPackets {
  import opened Bytes
  import opened Framing
  import opened Cipher
  import opened PacketStreams
  import opened Dispatcher
  import EndToEnd

  const C_LOGIN: nat := 1001
  const S_LOGIN_RES: nat := 1002
  const S_PING: nat := 1003
  const C_PONG: nat := 1004
  const S_DISCONNECT: nat := 1005

  datatype Packet =
    | Login(username: seq<byte>, password: seq<byte>)
    | LoginRes(success: bool, playerId: nat)
    | Ping
    | Pong
    | Disconnect
  {
    function Fields(): seq<Field> {
      match this
      case Login(u, p) => [Text(u), Text(p)]
      case LoginRes(s, id) => [Number(if s then 1 else 0, 1), Number(id, 4)]
      case _ => []
    }

    /** The id that the callers of MakeSendBuffer give it. */
    function Id(): nat {
      match this
      case Login(_, _) => C_LOGIN
      case LoginRes(_, _) => S_LOGIN_RES
      case Ping => S_PING
      case Pong => C_PONG
      case Disconnect => S_DISCONNECT
    }

    /** The packet as it is sent. */
    function Buffer(): seq<byte> {
      PacketBuffer(Id(), this)
    }

    /** A login may be too long for the 16-bit size field; the other packets are short. */
    predicate Fits() {
      Login? ==> 8 + |username| + |password| < U16_RANGE
    }

    method Write(stream: PacketStream)
      modifies stream.buffer
      ensures stream.buffer.bytes == old(stream.buffer.bytes) + EncodeAll(Fields())
    {
      hide Encode, EncodeAll;
      assert EncodeAll([]) == [] by { EncodeNone(); }
      match this
      case Login(u, p) =>
        stream.PutText(u);
        stream.PutText(p);
        EncodeTwo(Text(u), Text(p));
      case LoginRes(s, id) =>
        stream.PutNumber(if s then 1 else 0, 1);
        stream.PutNumber(id, 4);
        EncodeTwo(Number(if s then 1 else 0, 1), Number(id, 4));
      case _ =>
    }
  }

  lemma EncodeNone()
    ensures EncodeAll([]) == []
  {
  }

  lemma EncodeTwo(f: Field, g: Field)
    ensures EncodeAll([f, g]) == Encode(f) + Encode(g)
  {
    assert [f, g][1..] == [g] && [g][1..] == [];
    assert EncodeAll([g]) == Encode(g) + EncodeAll([g][1..]);
  }

  /** A header for the given body, then the body: the size field is the length modulo 2^16. */
  function SendBuffer(id: nat, body: seq<byte>): (r: seq<byte>)
    ensures |r| == HEADER_SIZE + |body|
  {
    LittleEndian((HEADER_SIZE + |body|) % U16_RANGE, 2) + LittleEndian(id, 2) + body
  }

  function PacketBuffer(id: nat, pkt: Packet): seq<byte> {
    SendBuffer(id, EncodeAll(pkt.Fields()))
  }

  /** Reserve a header, append the body through a stream, then patch the header in place. */
  method MakeSendBuffer(id: nat, pkt: Packet) returns (result: seq<byte>)
    ensures result == PacketBuffer(id, pkt)
  {
    var buffer := new ByteVector(seq(HEADER_SIZE, i => 0));
    var stream := new PacketStream(buffer, 0);
    pkt.Write(stream);
    var size := |buffer.bytes| % U16_RANGE;
    assert buffer.bytes[HEADER_SIZE..] == EncodeAll(pkt.Fields());
    buffer.bytes := LittleEndian(size, 2) + buffer.bytes[2..];
    buffer.bytes := buffer.bytes[..2] + LittleEndian(id, 2) + buffer.bytes[HEADER_SIZE..];
    result := buffer.bytes;
  }

  lemma HeaderFields(id: nat, body: seq<byte>)
    requires id < U16_RANGE
    ensures SizeField(SendBuffer(id, body)) == (HEADER_SIZE + |body|) % U16_RANGE
    ensures IdField(SendBuffer(id, body)) == id
  {
    var buf, size := SendBuffer(id, body), (HEADER_SIZE + |body|) % U16_RANGE;
    Pow256Of2();
    LittleEndianRoundTrip(size, 2);
    LittleEndianRoundTrip(id, 2);
    assert buf[0..2] == LittleEndian(size, 2) && buf[2..4] == LittleEndian(id, 2);
    U16AtIsLittleEndian(buf, 0);
    U16AtIsLittleEndian(buf, 2);
  }

  /** A send buffer, byte by byte. */
  lemma SendBufferBytes(id: nat, body: seq<byte>)
    ensures var size := HEADER_SIZE + |body|;
      SendBuffer(id, body) == [size % 256, size / 256 % 256, id % 256, id / 256 % 256] + body
  {
    TwoBytes((HEADER_SIZE + |body|) % U16_RANGE);
    TwoBytes(id);
    LowDigits(HEADER_SIZE + |body|);
    hide LittleEndian;
  }

  lemma LowDigits(n: nat)
    ensures (n % U16_RANGE) % 256 == n % 256 && (n % U16_RANGE) / 256 % 256 == n / 256 % 256
  {
    var q, high, low := n / U16_RANGE, n % U16_RANGE / 256, n % 256;
    assert n == 256 * (256 * q + high) + low;
    assert n / 256 == 256 * q + high;
  }

  lemma TwoBytes(n: nat)
    ensures LittleEndian(n, 2) == [n % 256, n / 256 % 256]
  {
    assert LittleEndian(n / 256, 1) == [n / 256 % 256] + LittleEndian(n / 256 / 256, 0);
  }

  lemma FourBytes(n: nat)
    ensures LittleEndian(n, 4) == [n % 256, n / 256 % 256, n / 65536 % 256, n / 16777216 % 256]
  {
    TwoBytes(n / 65536);
    assert LittleEndian(n / 256, 3) == [n / 256 % 256] + LittleEndian(n / 256 / 256, 2);
    assert n / 256 / 256 == n / 65536 && n / 65536 / 256 == n / 16777216;
  }

  /** Every kind of packet, byte by byte. */
  lemma PacketBytes(pkt: Packet)
    ensures var size := |pkt.Buffer()|;
      && pkt.Buffer()[..HEADER_SIZE] == [size % 256, size / 256 % 256, pkt.Id() % 256, pkt.Id() / 256 % 256]
      && match pkt
         case Login(u, p) =>
           var m, n := |u| % U16_RANGE, |p| % U16_RANGE;
           pkt.Buffer()[HEADER_SIZE..] == [m % 256, m / 256] + u[..m] + ([n % 256, n / 256] + p[..n])
         case LoginRes(success, id) =>
           pkt.Buffer()[HEADER_SIZE..] == [if success then 1 else 0]
           + [id % 256, id / 256 % 256, id / 65536 % 256, id / 16777216 % 256]
         case _ => size == HEADER_SIZE
  {
    var body := EncodeAll(pkt.Fields());
    SendBufferBytes(pkt.Id(), body);
    assert pkt.Buffer()[HEADER_SIZE..] == body;
    match pkt
    case Login(u, p) => LoginBody(u, p);
    case LoginRes(success, id) => LoginResBody(success, id);
    case _ => EncodeNone();
    hide *;
  }

  lemma LoginBody(u: seq<byte>, p: seq<byte>)
    ensures var m, n := |u| % U16_RANGE, |p| % U16_RANGE;
      EncodeAll(Login(u, p).Fields()) == [m % 256, m / 256] + u[..m] + ([n % 256, n / 256] + p[..n])
  {
    EncodeTwo(Text(u), Text(p));
    TwoBytes(|u| % U16_RANGE);
    TwoBytes(|p| % U16_RANGE);
    hide EncodeAll, LittleEndian;
  }

  lemma LoginResBody(success: bool, id: nat)
    ensures EncodeAll(LoginRes(success, id).Fields())
      == [if success then 1 else 0] + [id % 256, id / 256 % 256, id / 65536 % 256, id / 16777216 % 256]
  {
    EncodeTwo(Number(if success then 1 else 0, 1), Number(id, 4));
    OneByte(if success then 1 else 0);
    FourBytes(id);
    hide EncodeAll, LittleEndian;
  }

  lemma OneByte(n: byte)
    ensures LittleEndian(n, 1) == [n]
  {
    assert LittleEndian(n, 1) == [n % 256] + LittleEndian(n / 256, 0);
  }

  /**
   The receiver frames a send buffer as exactly one packet, with nothing left over, if and only if its
   length fits the 16-bit size field.
   */
  lemma FramedExactlyWhenShort(id: nat, body: seq<byte>)
    requires id < U16_RANGE
    ensures var buf := SendBuffer(id, body);
      && (Parse(buf) == [buf] && Rest(buf) == [] <==> |buf| < U16_RANGE)
      && (IsPacket(buf) <==> |buf| < U16_RANGE)
  {
    HeaderFields(id, body);
    var buf := SendBuffer(id, body);
    if |buf| < U16_RANGE {
      ParsePrefix([buf], buf);
      assert Flatten([buf]) == buf + Flatten([buf][1..]);
    } else if Parse(buf) == [buf] {
      ParsePartition(buf);
    }
  }

  /** What the login handler does with a packet: the strings it reads and the reply it sends. */
  datatype Handling = HandledLogin(username: seq<byte>, password: seq<byte>, reply: seq<byte>) | UnknownPacket(id: nat)

  function Handle(packet: seq<byte>): Handling
    requires |packet| >= HEADER_SIZE
  {
    if IdField(packet) == C_LOGIN then
      var u := ReadText(packet, HEADER_SIZE, []);
      var p := ReadText(packet, u.readPos, []);
      HandledLogin(u.value, p.value, PacketBuffer(S_LOGIN_RES, LoginRes(true, 12345)))
    else UnknownPacket(IdField(packet))
  }

  method HandlePacket(packet: seq<byte>) returns (handling: Handling)
    requires |packet| >= HEADER_SIZE
    ensures handling == Handle(packet)
  {
    var vecBuffer := new ByteVector(packet);
    var stream := new PacketStream(vecBuffer, HEADER_SIZE);
    var id := U16At(packet, 2);
    if id == C_LOGIN {
      var username := stream.GetText([]);
      var password := stream.GetText([]);
      var reply := MakeSendBuffer(S_LOGIN_RES, LoginRes(true, 12345));
      handling := HandledLogin(username, password, reply);
    } else {
      handling := UnknownPacket(id);
    }
  }

  /**
   Every packet with the id of a login is answered, malformed ones included: a string that is not there
   in full is empty, and the second one is then looked for right behind the first one's length.
   */
  lemma HandleEveryLogin(packet: seq<byte>)
    requires |packet| >= HEADER_SIZE && IdField(packet) == C_LOGIN
    ensures var h, first := Handle(packet), TextAt(packet, HEADER_SIZE);
      && h.HandledLogin? && h.reply == LoginRes(true, 12345).Buffer()
      && h.username == (if first.Some? then first.value else [])
      && var start := if |packet| < 6 then 4 else if first == None then 6 else 6 + |first.value|;
      h.password == (if TextAt(packet, start).Some? then TextAt(packet, start).value else [])
  {
    ReadsExactly(packet, HEADER_SIZE, 0, 0, []);
    ReadsExactly(packet, ReadText(packet, HEADER_SIZE, []).readPos, 0, 0, []);
    hide ReadText;
  }

  lemma HandleEveryOther(packet: seq<byte>)
    requires |packet| >= HEADER_SIZE && IdField(packet) != C_LOGIN
    ensures Handle(packet).UnknownPacket? && Handle(packet).id == IdField(packet)
  {
  }

  /** The string that stands at the given place, if it is there in full. */
  function TextAt(s: seq<byte>, i: nat): Option<seq<byte>> {
    if i + 2 <= |s| && i + 2 + U16At(s, i) <= |s| then Some(s[i + 2..i + 2 + U16At(s, i)]) else None
  }

  function LoginBuffer(username: seq<byte>, password: seq<byte>): seq<byte> {
    PacketBuffer(C_LOGIN, Login(username, password))
  }

  lemma LoginLength(u: seq<byte>, p: seq<byte>)
    ensures |LoginBuffer(u, p)| == 8 + |u| % U16_RANGE + |p| % U16_RANGE
  {
    EncodeTwo(Text(u), Text(p));
  }

  /** The handler recovers the two strings cut to 16-bit lengths, on every send buffer of a login. */
  lemma HandleLogin(u: seq<byte>, p: seq<byte>)
    ensures Handle(LoginBuffer(u, p)) == HandledLogin(u[..|u| % U16_RANGE], p[..|p| % U16_RANGE],
        PacketBuffer(S_LOGIN_RES, LoginRes(true, 12345)))
  {
    var buf, body := LoginBuffer(u, p), EncodeAll(Login(u, p).Fields());
    HeaderFields(C_LOGIN, body);
    EncodeTwo(Text(u), Text(p));
    var header := buf[..HEADER_SIZE];
    assert buf == header + Encode(Text(u)) + Encode(Text(p)) == header + Encode(Text(u)) + Encode(Text(p)) + [];
    FieldRoundTrip(header, Text(u), Encode(Text(p)), Text([]));
    FieldRoundTrip(header + Encode(Text(u)), Text(p), [], Text([]));
  }

  /** The wire carries exactly one packet, and the handler reads from it the given strings. */
  predicate Delivers(wire: seq<byte>, cipher: Option<seq<byte>>, u: seq<byte>, p: seq<byte>) {
    && |Parse(wire)| == 1 && Rest(wire) == []
    && var packet := Encipher(Parse(wire)[0], cipher);
    && |packet| >= HEADER_SIZE
    && Handle(packet).HandledLogin? && Handle(packet).username == u && Handle(packet).password == p
  }

  /**
   A login crosses the enciphered wire intact if and only if its two strings and the 8 bytes around
   them fit the 16-bit size field: for all strings and every key.
   */
  lemma LoginIntactExactlyWhenItFits(u: seq<byte>, p: seq<byte>, cipher: Option<seq<byte>>)
    ensures Delivers(Encipher(LoginBuffer(u, p), cipher), cipher, u, p) <==> 8 + |u| + |p| < U16_RANGE
  {
    hide Handle, SendBuffer, EncodeAll, Packet.Fields, Parse, Rest, Encipher, SizeField;
    var buf := LoginBuffer(u, p);
    var wire := Encipher(buf, cipher);
    LoginLength(u, p);
    HandleLogin(u, p);
    EncipherKeepsHeader(buf, cipher);
    EncipherInvolution(buf, cipher);
    FramedExactlyWhenShort(C_LOGIN, EncodeAll(Login(u, p).Fields()));
    if 8 + |u| + |p| < U16_RANGE {
      SinglePacket(wire);
    }
    if Delivers(wire, cipher, u, p) {
      SinglePacket(wire);
      assert |u[..|u| % U16_RANGE]| == |u| && |p[..|p| % U16_RANGE]| == |p|;
    }
  }

  /** A stream that parses to one packet and nothing else is that packet. */
  lemma SinglePacket(wire: seq<byte>)
    ensures |Parse(wire)| == 1 && Rest(wire) == [] <==> IsPacket(wire)
    ensures IsPacket(wire) ==> Parse(wire) == [wire]
  {
    if IsPacket(wire) {
      assert Flatten([wire]) == wire + Flatten([wire][1..]);
      ParseUnique(wire, [wire], []);
    }
    if |Parse(wire)| == 1 && Rest(wire) == [] {
      ParsePartition(wire);
      var x := Parse(wire)[0];
      assert Flatten(Parse(wire)) == x + Flatten(Parse(wire)[1..]);
      assert x == wire;
    }
  }

  /** The packet goes whole to the handler of its id, if there is one, and a login's strings are read back from it. */
  ghost predicate ReadsAs<H>(packet: seq<byte>, pkt: Packet, handlers: map<nat, H>) {
    && IsPacket(packet)
    && Resolve(handlers, packet, |packet| % U16_RANGE)
    == (if pkt.Id() in handlers then Handled(handlers[pkt.Id()], packet) else UnknownId(pkt.Id()))
    && Handle(packet)
    == (if pkt.Login? then HandledLogin(pkt.username, pkt.password, LoginRes(true, 12345).Buffer())
        else UnknownPacket(pkt.Id()))
  }

  /** A packet that fits is read as what it was made from. */
  lemma FittingReadsAs<H>(pkt: Packet, handlers: map<nat, H>)
    requires pkt.Fits()
    ensures ReadsAs(pkt.Buffer(), pkt, handlers)
  {
    hide SendBuffer, EncodeAll, Parse, Rest, SizeField;
    HeaderFields(pkt.Id(), EncodeAll(pkt.Fields()));
    BodyLength(pkt);
    FramedExactlyWhenShort(pkt.Id(), EncodeAll(pkt.Fields()));
    WholePacketHandled(handlers, pkt.Buffer());
    if pkt.Login? {
      hide Handle, Resolve;
      var u, p := pkt.username, pkt.password;
      HandleLogin(u, p);
      assert u[..|u| % U16_RANGE] == u && p[..|p| % U16_RANGE] == p;
    }
  }

  lemma BodyLength(pkt: Packet)
    requires pkt.Fits()
    ensures |pkt.Buffer()| < U16_RANGE
  {
    match pkt
    case Login(u, p) => LoginLength(u, p);
    case LoginRes(success, id) => EncodeTwo(Number(if success then 1 else 0, 1), Number(id, 4));
    case _ => EncodeNone();
  }

  function Buffers(pkts: seq<Packet>): (r: seq<seq<byte>>)
    ensures |r| == |pkts|
  {
    seq(|pkts|, i requires 0 <= i < |pkts| => pkts[i].Buffer())
  }

  predicate AllFit(pkts: seq<Packet>) {
    forall i :: 0 <= i < |pkts| ==> pkts[i].Fits()
  }

  lemma AllReadAs<H>(pkts: seq<Packet>, handlers: map<nat, H>)
    requires AllFit(pkts)
    ensures ArePackets(Buffers(pkts))
    ensures forall i :: 0 <= i < |pkts| ==> ReadsAs(Buffers(pkts)[i], pkts[i], handlers)
  {
    hide Packet.Fits, Packet.Buffer;
    forall i | 0 <= i < |pkts| ensures ReadsAs(Buffers(pkts)[i], pkts[i], handlers) {
      FittingReadsAs(pkts[i], handlers);
    }
    assert forall i :: 0 <= i < |pkts| ==> ReadsAs(Buffers(pkts)[i], pkts[i], handlers) && IsPacket(Buffers(pkts)[i]);
  }

  /**
   Typed end to end: at every moment of every run in which packets of any kinds are sent that fit, the
   i-th packet dispatched is the i-th sent: it goes whole to the handler of its own id, and the strings
   of a login are read back.
   */
  lemma PacketsArrive<H>(c: EndToEnd.Config, events: seq<EndToEnd.Event>, pkts: seq<Packet>, handlers: map<nat, H>)
    requires !c.threadPool && AllFit(pkts) && EndToEnd.Sent(events) == Buffers(pkts)
    ensures var dispatched := EndToEnd.Run(c, events).dispatched;
      && |dispatched| <= |pkts|
      && (EndToEnd.Drained(EndToEnd.Run(c, events)) ==> |dispatched| == |pkts|)
      && forall i :: 0 <= i < |dispatched| ==> ReadsAs(dispatched[i], pkts[i], handlers)
  {
    hide ReadsAs, Buffers, AllFit, EndToEnd.Run, EndToEnd.Sent, EndToEnd.Drained;
    AllReadAs(pkts, handlers);
    EndToEnd.DirectDelivery(c, events);
    var dispatched := EndToEnd.Run(c, events).dispatched;
    assert forall i :: 0 <= i < |dispatched| ==> dispatched[i] == Buffers(pkts)[i];
  }

  /**
   Typed end to end with a thread pool: at every moment the packets dispatched are, with
   multiplicities, among those sent, each read as the packet it was made from; once nothing is left
   and no task waits, they are all of them. The order is not kept.
   */
  lemma PooledPacketsArrive<H>(c: EndToEnd.Config, events: seq<EndToEnd.Event>, pkts: seq<Packet>,
                               handlers: map<nat, H>)
    requires AllFit(pkts) && EndToEnd.Sent(events) == Buffers(pkts)
    ensures var l := EndToEnd.Run(c, events);
      && multiset(l.dispatched) <= multiset(Buffers(pkts))
      && (EndToEnd.Settled(l) ==> multiset(l.dispatched) == multiset(Buffers(pkts)))
      && forall i :: 0 <= i < |l.dispatched| ==>
        exists j :: 0 <= j < |pkts|
          && l.dispatched[i] == Buffers(pkts)[j] && ReadsAs(l.dispatched[i], pkts[j], handlers)
  {
    hide ReadsAs, Buffers, AllFit, EndToEnd.Run, EndToEnd.Sent, EndToEnd.Settled;
    AllReadAs(pkts, handlers);
    EndToEnd.DispatchedAmongSent(c, events);
    var l, sent := EndToEnd.Run(c, events), Buffers(pkts);
    forall i | 0 <= i < |l.dispatched|
      ensures exists j :: 0 <= j < |pkts| && l.dispatched[i] == sent[j] && ReadsAs(l.dispatched[i], pkts[j], handlers)
    {
      var j :| 0 <= j < |sent| && sent[j] == l.dispatched[i];
    }
  }

  /** The reply is one packet with the reply's id, from which the client reads success and the player id. */
  lemma ReplyDecodes(playerId: nat, success: bool, oldSuccess: nat, oldId: nat)
    requires playerId < U32_RANGE
    ensures var reply := PacketBuffer(S_LOGIN_RES, LoginRes(success, playerId));
      && IsPacket(reply) && IdField(reply) == S_LOGIN_RES
      && ReadAll(reply, HEADER_SIZE, [Number(oldSuccess, 1), Number(oldId, 4)]).value
      == [Number(if success then 1 else 0, 1), Number(playerId, 4)]
  {
    var fields := LoginRes(success, playerId).Fields();
    var reply := PacketBuffer(S_LOGIN_RES, LoginRes(success, playerId));
    EncodeTwo(fields[0], fields[1]);
    HeaderFields(S_LOGIN_RES, EncodeAll(fields));
    FramedExactlyWhenShort(S_LOGIN_RES, EncodeAll(fields));
    Pow256Of2();
    assert Pow256(4) == 256 * (256 * Pow256(2));
    assert fields[0].Valid();
    RoundTrip(reply[..HEADER_SIZE], fields, [], [Number(oldSuccess, 1), Number(oldId, 4)]);
    assert reply[..HEADER_SIZE] + EncodeAll(fields) + [] == reply;
    UnchangedExactlyWhenShort(fields);
  }
}
