/** Bytes, little-endian integers and the exclusive or, as the C++ code sees them. */
module Bytes {

  type byte = x: int | 0 <= x < 256

  datatype Option<+T> = None | Some(value: T)

  const U16_RANGE: nat := 0x1_0000
  const U32_RANGE: nat := 0x1_0000_0000
  const U64_RANGE: nat := 0x1_0000_0000_0000_0000

  /** 256 to the power w: how many values w bytes can hold. */
  function Pow256(w: nat): (p: nat)
    ensures p > 0
  {
    if w == 0 then 1 else 256 * Pow256(w - 1)
  }

  /** The low w bytes of n, least significant first: memcpy of an integer on the target machine. */
  function LittleEndian(n: nat, w: nat): (s: seq<byte>)
    ensures |s| == w
  {
    if w == 0 then [] else [n % 256] + LittleEndian(n / 256, w - 1)
  }

  function FromLittleEndian(s: seq<byte>): nat {
    if s == [] then 0 else s[0] + 256 * FromLittleEndian(s[1..])
  }

  /** Copying an integer out and back in keeps its value, for every width. */
  lemma {:induction false} LittleEndianRoundTrip(n: nat, w: nat)
    requires n < Pow256(w)
    ensures FromLittleEndian(LittleEndian(n, w)) == n
  {
    if w > 0 {
      LittleEndianRoundTrip(n / 256, w - 1);
      assert LittleEndian(n, w)[1..] == LittleEndian(n / 256, w - 1);
    }
  }

  /** Little-endian: each further byte weighs 256 times as much as the one before it. */
  lemma {:induction false} LastByteWeighsMost(s: seq<byte>, b: byte)
    ensures FromLittleEndian(s + [b]) == FromLittleEndian(s) + Pow256(|s|) * b
  {
    if s == [] {
      assert ([] + [b])[1..] == [];
    } else {
      LastByteWeighsMost(s[1..], b);
      assert (s + [b])[1..] == s[1..] + [b];
      assert 256 * (Pow256(|s| - 1) * b) == Pow256(|s|) * b;
    }
  }

  /** The unsigned 16-bit integer stored at offset i. */
  function U16At(s: seq<byte>, i: nat): (n: nat)
    requires i + 2 <= |s|
    ensures n < U16_RANGE
  {
    var low: nat, high: nat := s[i], s[i + 1];
    low + 256 * high
  }

  lemma U16AtIsLittleEndian(s: seq<byte>, i: nat)
    requires i + 2 <= |s|
    ensures FromLittleEndian(s[i..i + 2]) == U16At(s, i)
  {
    var t := s[i..i + 2];
    assert t[1..][1..] == [];
    assert FromLittleEndian(t[1..]) == t[1] + 256 * FromLittleEndian(t[1..][1..]);
  }

  /** Exclusive or of the low w bits. */
  function XorBits(a: nat, b: nat, w: nat): (c: nat)
    ensures c < Pow2(w)
  {
    if w == 0 then 0 else (a % 2 + b % 2) % 2 + 2 * XorBits(a / 2, b / 2, w - 1)
  }

  function Pow2(w: nat): (p: nat)
    ensures p > 0
  {
    if w == 0 then 1 else 2 * Pow2(w - 1)
  }

  lemma LowestBit(a: nat, b: nat, high: nat, x: nat)
    requires x == (a % 2 + b % 2) % 2 + 2 * high
    ensures x / 2 == high && (x % 2 + b % 2) % 2 == a % 2
  {
  }

  lemma {:induction false} XorBitsInvolution(a: nat, b: nat, w: nat)
    requires a < Pow2(w)
    ensures XorBits(XorBits(a, b, w), b, w) == a
  {
    if w > 0 {
      LowestBit(a, b, XorBits(a / 2, b / 2, w - 1), XorBits(a, b, w));
      XorBitsInvolution(a / 2, b / 2, w - 1);
    }
  }

  /** Bit k of n. */
  function Bit(n: nat, k: nat): (b: nat)
    ensures b < 2
  {
    if k == 0 then n % 2 else Bit(n / 2, k - 1)
  }

  /** A number is known by its bits. */
  lemma {:induction false} BitsDetermine(a: nat, b: nat, w: nat)
    requires a < Pow2(w) && b < Pow2(w)
    requires forall k :: 0 <= k < w ==> Bit(a, k) == Bit(b, k)
    ensures a == b
  {
    if w > 0 {
      forall k | 0 <= k < w - 1 ensures Bit(a / 2, k) == Bit(b / 2, k) {
        assert Bit(a, k + 1) == Bit(b, k + 1);
      }
      BitsDetermine(a / 2, b / 2, w - 1);
      assert Bit(a, 0) == Bit(b, 0);
    }
  }

  /** Bit by bit, the result is set exactly where the operands differ. */
  lemma {:induction false} XorBitsBitwise(a: nat, b: nat, w: nat, k: nat)
    requires k < w
    ensures Bit(XorBits(a, b, w), k) == if Bit(a, k) == Bit(b, k) then 0 else 1
  {
    LowestBit(a, b, XorBits(a / 2, b / 2, w - 1), XorBits(a, b, w));
    if k > 0 {
      XorBitsBitwise(a / 2, b / 2, w - 1, k - 1);
    }
  }

  /** The `^` of two bytes. */
  function Xor(a: byte, b: byte): byte {
    assert Pow2(8) == 256 by { assert Pow2(4) == 16; }
    XorBits(a, b, 8)
  }

  /** Of two bytes too, each bit of the result is set exactly where theirs differ. */
  lemma XorBitwise(a: byte, b: byte, k: nat)
    requires k < 8
    ensures Bit(Xor(a, b), k) == 1 <==> Bit(a, k) != Bit(b, k)
  {
    XorBitsBitwise(a, b, 8, k);
  }

  lemma XorInvolution(a: byte, b: byte)
    ensures Xor(Xor(a, b), b) == a
  {
    assert Pow2(8) == 256 by { assert Pow2(4) == 16; }
    XorBitsInvolution(a, b, 8);
  }

  /** The concatenation of a list of messages: what a byte stream carries. */
  function Flatten(ms: seq<seq<byte>>): seq<byte> {
    if ms == [] then [] else ms[0] + Flatten(ms[1..])
  }

  lemma Associative(a: seq<byte>, b: seq<byte>, c: seq<byte>)
    ensures a + (b + c) == a + b + c
  {
  }

  lemma SplitLast<T>(a: seq<T>, b: seq<T>)
    requires b != []
    ensures a + b == (a + b[..|b| - 1]) + [b[|b| - 1]]
  {
  }

  lemma {:induction false} FlattenAppend(a: seq<seq<byte>>, b: seq<seq<byte>>)
    ensures Flatten(a + b) == Flatten(a) + Flatten(b)
  {
    if a == [] {
      assert a + b == b;
    } else {
      FlattenAppend(a[1..], b);
      assert (a + b)[0] == a[0] && (a + b)[1..] == a[1..] + b;
      Associative(a[0], Flatten(a[1..]), Flatten(b));
    }
  }

  lemma FlattenSnoc(a: seq<seq<byte>>, m: seq<byte>)
    ensures Flatten(a + [m]) == Flatten(a) + m
  {
    FlattenAppend(a, [m]);
    assert Flatten([m]) == m + Flatten([m][1..]);
  }

  lemma MulMonotone(a: nat, b: nat, c: nat)
    requires a <= b
    ensures a * c <= b * c && (b - a) * c == b * c - a * c
  {
  }

  lemma MulDistributes(a: nat, b: nat, c: nat)
    ensures (a + b) * c == a * c + b * c
  {
  }

  lemma BelowRange(range: nat, x: nat)
    requires x < range
    ensures x % range == x
  {
  }

  /**
   A counter of the given range that starts at 1: its values are non-zero below `range` of them,
   distinct up to `range`, and no further.
   */
  lemma CounterExact(range: nat, values: seq<nat>)
    requires range > 1 && forall k :: 0 <= k < |values| ==> values[k] == (k + 1) % range
    ensures (forall k :: 0 <= k < |values| ==> values[k] != 0) <==> |values| < range
    ensures (forall j, k :: 0 <= j < k < |values| ==> values[j] != values[k]) <==> |values| <= range
  {
    forall k | 0 <= k < |values| && k + 1 < range ensures values[k] == k + 1 {
      BelowRange(range, k + 1);
    }
    if |values| >= range {
      assert values[range - 1] == range % range == 0;
    }
    if |values| > range {
      assert (range + 1) % range == 1;
      assert values[0] == values[range];
    }
  }
}
