/**
 How a byte stream is cut into packets: a 4-byte header (u16 size, u16 id, both little-endian) whose
 size field counts the whole packet. `Parse` is the specification of Session::OnRecv; it is defined
 here by recursion and characterised, independently, by `ParseUnique`.
 */
module Framing {
  import opened Bytes

  const HEADER_SIZE: nat := 4

  function SizeField(s: seq<byte>): (n: nat)
    requires |s| >= HEADER_SIZE
    ensures n < U16_RANGE
  {
    U16At(s, 0)
  }

  function IdField(s: seq<byte>): (n: nat)
    requires |s| >= HEADER_SIZE
    ensures n < U16_RANGE
  {
    U16At(s, 2)
  }

  /** A whole packet stands at the front of s. */
  predicate Complete(s: seq<byte>) {
    |s| >= HEADER_SIZE && HEADER_SIZE <= SizeField(s) <= |s|
  }

  /** A header stands at the front of s whose size is smaller than a header. */
  predicate Malformed(s: seq<byte>) {
    |s| >= HEADER_SIZE && SizeField(s) < HEADER_SIZE
  }

  /** p is exactly one packet. */
  predicate IsPacket(p: seq<byte>) {
    |p| >= HEADER_SIZE && SizeField(p) == |p|
  }

  predicate ArePackets(ps: seq<seq<byte>>) {
    forall i :: 0 <= i < |ps| ==> IsPacket(ps[i])
  }

  /** The packets at the front of s, in order. */
  function Parse(s: seq<byte>): seq<seq<byte>>
    decreases |s|
  {
    if Complete(s) then [s[..SizeField(s)]] + Parse(s[SizeField(s)..]) else []
  }

  /** What is left of s after the packets of Parse(s). */
  function Rest(s: seq<byte>): (r: seq<byte>)
    ensures |r| <= |s|
    decreases |s|
  {
    if Complete(s) then Rest(s[SizeField(s)..]) else s
  }

  /** The stream has run into a header that can never be served. */
  predicate Stuck(s: seq<byte>) {
    Malformed(Rest(s))
  }

  lemma {:induction false} ParsePartition(s: seq<byte>)
    ensures Flatten(Parse(s)) + Rest(s) == s
    ensures ArePackets(Parse(s))
    ensures !Complete(Rest(s))
    decreases |s|
  {
    if Complete(s) {
      var n := SizeField(s);
      ParsePartition(s[n..]);
      assert Parse(s)[1..] == Parse(s[n..]);
      assert s == s[..n] + s[n..];
    }
  }

  /** Parse is the only way to write s as packets followed by something that does not start with one. */
  lemma {:induction false} ParseUnique(s: seq<byte>, ps: seq<seq<byte>>, r: seq<byte>)
    requires s == Flatten(ps) + r
    requires ArePackets(ps) && !Complete(r)
    ensures Parse(s) == ps && Rest(s) == r
  {
    if ps != [] {
      var n := |ps[0]|;
      assert s == ps[0] + (Flatten(ps[1..]) + r);
      assert s[..n] == ps[0] && s[n..] == Flatten(ps[1..]) + r;
      ParseUnique(s[n..], ps[1..], r);
    } else {
      assert s == r;
    }
  }

  lemma Reassociate(p: seq<byte>, r: seq<byte>, b: seq<byte>, q: seq<byte>, u: seq<byte>)
    requires r + b == q + u
    ensures p + r + b == p + q + u
  {
    assert p + r + b == p + (r + b);
    assert p + q + u == p + (q + u);
  }

  /** Parsing may be resumed from the remainder: the fact behind incremental reception. */
  lemma ParseAppend(a: seq<byte>, b: seq<byte>)
    ensures Parse(a + b) == Parse(a) + Parse(Rest(a) + b)
    ensures Rest(a + b) == Rest(Rest(a) + b)
  {
    ParsePartition(a);
    var t := Rest(a) + b;
    ParsePartition(t);
    FlattenAppend(Parse(a), Parse(t));
    Reassociate(Flatten(Parse(a)), Rest(a), b, Flatten(Parse(t)), Rest(t));
    ParseUnique(a + b, Parse(a) + Parse(t), Rest(t));
  }

  /** A malformed header is absorbing: nothing that follows it is ever delivered. */
  lemma StuckForever(a: seq<byte>, b: seq<byte>)
    requires Stuck(a)
    ensures Parse(a + b) == Parse(a) && Rest(a + b) == Rest(a) + b && Stuck(a + b)
  {
    ParseAppend(a, b);
  }

  /** The size field at the front of what is left is already there, and smaller than a header. */
  predicate Doomed(s: seq<byte>) {
    |Rest(s)| >= 2 && U16At(Rest(s), 0) < HEADER_SIZE
  }

  /** Bytes that complete one packet at the front of r, which does not announce a size below a header. */
  function Completion(r: seq<byte>): (b: seq<byte>)
    requires !Complete(r) && !(|r| >= 2 && U16At(r, 0) < HEADER_SIZE)
    ensures Complete(r + b)
  {
    if |r| >= 2 then seq(U16At(r, 0) + HEADER_SIZE, i => 0)
    else [HEADER_SIZE, 0, 0, 0, 0] + seq(U16_RANGE, i => 0)
  }

  /**
   Reception is over for good, exactly: nothing more is ever delivered, whatever follows, if and only
   if the size field standing at the front of the remainder is below 4. The other two header bytes
   need not have arrived.
   */
  lemma DoomedExactly(a: seq<byte>)
    ensures Doomed(a) <==> forall b :: Parse(a + b) == Parse(a)
  {
    ParsePartition(a);
    var r := Rest(a);
    if Doomed(a) {
      forall b ensures Parse(a + b) == Parse(a) {
        ParseAppend(a, b);
        assert !Complete(r + b);
      }
    } else {
      var b := Completion(r);
      ParseAppend(a, b);
      assert |Parse(r + b)| > 0;
    }
  }

  /** Two bytes are enough. */
  lemma TwoBytesDoom(b: seq<byte>)
    ensures Doomed([0, 0]) && !Stuck([0, 0]) && Parse([0, 0] + b) == []
  {
    DoomedExactly([0, 0]);
    assert Parse([0, 0] + b) == Parse([0, 0]) == [];
  }

  /** A stream that is not stuck never has more than one incomplete packet waiting. */
  lemma RestBound(s: seq<byte>)
    requires !Stuck(s)
    ensures |Rest(s)| <= U16_RANGE - 2
  {
    ParsePartition(s);
  }

  /** Any initial part of a stream of packets parses to an initial part of those packets. */
  lemma ParsePrefix(ps: seq<seq<byte>>, x: seq<byte>)
    requires ArePackets(ps) && x <= Flatten(ps)
    ensures Parse(x) <= ps
    ensures x == Flatten(ps) ==> Parse(x) == ps && Rest(x) == []
    ensures !Stuck(x)
  {
    var y := Flatten(ps)[|x|..];
    assert x + y == Flatten(ps) == Flatten(ps) + [];
    ParseUnique(x + y, ps, []);
    ParseAppend(x, y);
    if x == Flatten(ps) {
      ParseUnique(x, ps, []);
    }
    if Stuck(x) {
      StuckForever(x, y);
    }
  }
}
