/** The repeating-key XOR cipher and its use on the bodies of packets. */
module Cipher {
  import opened Bytes
  import opened Framing

  /** Byte i of the result is byte i of s combined with byte i mod |key| of the key. */
  function XorSeq(s: seq<byte>, key: seq<byte>): (r: seq<byte>)
    ensures |r| == |s|
  {
    if key == [] then s else seq(|s|, i requires 0 <= i < |s| => Xor(s[i], key[i % |key|]))
  }

  /** The in-place loop computes XorSeq. */
  method ApplyXor(buffer: array<byte>, key: seq<byte>)
    modifies buffer
    ensures buffer[..] == XorSeq(old(buffer[..]), key)
    ensures key == [] ==> buffer[..] == old(buffer[..])
    ensures key != [] ==> forall i, k :: 0 <= i < buffer.Length && 0 <= k < 8 ==>
      (Bit(buffer[i], k) == 1 <==> Bit(old(buffer[i]), k) != Bit(key[i % |key|], k))
  {
    var length := buffer.Length;
    if |key| == 0 || length == 0 {
      return;
    }
    var i := 0;
    while i < length
      invariant 0 <= i <= length
      invariant forall k :: 0 <= k < i ==> buffer[k] == Xor(old(buffer[k]), key[k % |key|])
      invariant forall k :: i <= k < length ==> buffer[k] == old(buffer[k])
    {
      buffer[i] := Xor(buffer[i], key[i % |key|]);
      i := i + 1;
    }
    forall i, k | 0 <= i < length && 0 <= k < 8
      ensures Bit(buffer[i], k) == 1 <==> Bit(old(buffer[i]), k) != Bit(key[i % |key|], k)
    {
      XorBitwise(old(buffer[i]), key[i % |key|], k);
    }
  }

  /** Decryption is encryption: the cipher undoes itself, for every key, the empty one included. */
  lemma XorSeqInvolution(s: seq<byte>, key: seq<byte>)
    ensures XorSeq(XorSeq(s, key), key) == s
  {
    if key != [] {
      var t := XorSeq(XorSeq(s, key), key);
      forall i | 0 <= i < |s| ensures t[i] == s[i] {
        XorInvolution(s[i], key[i % |key|]);
      }
    }
  }

  /** What PacketSession sends for a message: the header stays readable, the body is enciphered. */
  function Encipher(msg: seq<byte>, cipher: Option<seq<byte>>): (r: seq<byte>)
    ensures |r| == |msg|
  {
    if cipher.Some? && |msg| > HEADER_SIZE then
      msg[..HEADER_SIZE] + XorSeq(msg[HEADER_SIZE..], cipher.value)
    else msg
  }

  /**
   Bit by bit: in the body of an enciphered message, a bit is set exactly where the message and the key,
   which begins anew with the body and repeats, differ. The header, and everything without a key, stays.
   */
  lemma EncipheredBit(msg: seq<byte>, key: seq<byte>, i: nat, k: nat)
    requires HEADER_SIZE <= i < |msg| && key != [] && k < 8
    ensures Bit(Encipher(msg, Some(key))[i], k) == 1 <==> Bit(msg[i], k) != Bit(key[(i - HEADER_SIZE) % |key|], k)
  {
    assert msg[HEADER_SIZE..][i - HEADER_SIZE] == msg[i];
    XorBitwise(msg[i], key[(i - HEADER_SIZE) % |key|], k);
  }

  lemma NotEnciphered(msg: seq<byte>, cipher: Option<seq<byte>>, i: nat)
    requires i < |msg| && (i < HEADER_SIZE || cipher == None || cipher == Some([]))
    ensures Encipher(msg, cipher)[i] == msg[i]
  {
  }

  function EncipherAll(ms: seq<seq<byte>>, cipher: Option<seq<byte>>): (r: seq<seq<byte>>)
    ensures |r| == |ms|
  {
    seq(|ms|, i requires 0 <= i < |ms| => Encipher(ms[i], cipher))
  }

  lemma EncipherAllAppend(a: seq<seq<byte>>, b: seq<seq<byte>>, cipher: Option<seq<byte>>)
    ensures EncipherAll(a + b, cipher) == EncipherAll(a, cipher) + EncipherAll(b, cipher)
  {
  }

  lemma EncipherOne(msg: seq<byte>, cipher: Option<seq<byte>>)
    ensures EncipherAll([msg], cipher) == [Encipher(msg, cipher)]
  {
  }

  lemma EncipherInvolution(msg: seq<byte>, cipher: Option<seq<byte>>)
    ensures Encipher(Encipher(msg, cipher), cipher) == msg
  {
    if cipher.Some? && |msg| > HEADER_SIZE {
      XorSeqInvolution(msg[HEADER_SIZE..], cipher.value);
      var e := Encipher(msg, cipher);
      assert e[..HEADER_SIZE] == msg[..HEADER_SIZE];
      assert e[HEADER_SIZE..] == XorSeq(msg[HEADER_SIZE..], cipher.value);
    }
  }

  lemma EncipherAllInvolution(ms: seq<seq<byte>>, cipher: Option<seq<byte>>)
    ensures EncipherAll(EncipherAll(ms, cipher), cipher) == ms
  {
    forall i | 0 <= i < |ms| ensures Encipher(Encipher(ms[i], cipher), cipher) == ms[i] {
      EncipherInvolution(ms[i], cipher);
    }
  }

  /** Enciphering leaves the two header fields alone, so a packet stays a packet of the same id. */
  lemma EncipherKeepsHeader(msg: seq<byte>, cipher: Option<seq<byte>>)
    requires |msg| >= HEADER_SIZE
    ensures Encipher(msg, cipher)[..HEADER_SIZE] == msg[..HEADER_SIZE]
    ensures SizeField(Encipher(msg, cipher)) == SizeField(msg)
    ensures IdField(Encipher(msg, cipher)) == IdField(msg)
    ensures IsPacket(Encipher(msg, cipher)) <==> IsPacket(msg)
  {
    forall i | 0 <= i < HEADER_SIZE ensures Encipher(msg, cipher)[i] == msg[i] {
    }
  }

  /** Framing and ciphering commute: the receiver may cut the enciphered stream first and decipher later. */
  lemma ParseEnciphered(ps: seq<seq<byte>>, cipher: Option<seq<byte>>)
    requires ArePackets(ps)
    ensures ArePackets(EncipherAll(ps, cipher))
    ensures Parse(Flatten(EncipherAll(ps, cipher))) == EncipherAll(Parse(Flatten(ps)), cipher)
    ensures Rest(Flatten(EncipherAll(ps, cipher))) == []
  {
    var es := EncipherAll(ps, cipher);
    forall i | 0 <= i < |ps| ensures IsPacket(es[i]) {
      EncipherKeepsHeader(ps[i], cipher);
    }
    ParsePrefix(ps, Flatten(ps));
    ParsePrefix(es, Flatten(es));
  }

  /** The body of PacketSession::Send, and of decryption on delivery: copy, cipher the body, copy back. */
  method EncipherMessage(msg: seq<byte>, cipher: Option<seq<byte>>) returns (result: seq<byte>)
    ensures result == Encipher(msg, cipher)
  {
    if cipher.Some? {
      var encrypted := new byte[|msg|](i requires 0 <= i < |msg| => msg[i]);
      assert encrypted[..] == msg;
      EncipherInPlace(encrypted, cipher.value);
      result := encrypted[..];
    } else {
      result := msg;
    }
  }

  method EncipherInPlace(data: array<byte>, key: seq<byte>)
    modifies data
    ensures data[..] == Encipher(old(data[..]), Some(key))
  {
    if data.Length > HEADER_SIZE {
      var size := data.Length - HEADER_SIZE;
      var body := new byte[size](i requires 0 <= i < size reads data => data[HEADER_SIZE + i]);
      assert body[..] == old(data[..])[HEADER_SIZE..];
      ApplyXor(body, key);
      var i := 0;
      while i < size
        invariant 0 <= i <= size
        invariant body[..] == XorSeq(old(data[..])[HEADER_SIZE..], key)
        invariant data[..HEADER_SIZE + i] == old(data[..HEADER_SIZE]) + body[..i]
      {
        data[HEADER_SIZE + i] := body[i];
        i := i + 1;
      }
      assert data[..] == data[..HEADER_SIZE + size];
      assert body[..size] == body[..];
    }
  }
}
