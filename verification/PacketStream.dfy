/**
 PacketStream: little-endian fields appended to a byte vector, and read back at a cursor. Short reads
 raise no error, and what they do is part of the model: an integer that does not fit leaves variable
 and cursor alone; a string whose length is there but whose bytes are not moves the cursor past the
 length; and a string with fewer than two bytes left counts as having length 0 and becomes empty.
 */
module PacketStreams {
  import opened Bytes

  /** std::vector<uint8_t>, held by reference. */
  class ByteVector {
    var bytes: seq<byte>

    constructor (initial: seq<byte>)
      ensures bytes == initial
    {
      bytes := initial;
    }
  }

  /** A field of a packet: an integer of a fixed width, or a string. */
  datatype Field = Number(value: nat, width: nat) | Text(chars: seq<byte>) {
    predicate Valid() {
      Number? ==> value < Pow256(width)
    }

    /** The field as it is recovered: a string loses everything beyond its length modulo 2^16. */
    function Truncated(): Field {
      match this
      case Number(_, _) => this
      case Text(s) => Text(s[..|s| % U16_RANGE])
    }
  }

  predicate SameShape(f: Field, g: Field) {
    (f.Text? && g.Text?) || (f.Number? && g.Number? && f.width == g.width)
  }

  function Encode(f: Field): seq<byte> {
    match f
    case Number(v, w) => LittleEndian(v, w)
    case Text(s) => LittleEndian(|s| % U16_RANGE, 2) + s[..|s| % U16_RANGE]
  }

  function EncodeAll(fs: seq<Field>): seq<byte> {
    if fs == [] then [] else Encode(fs[0]) + EncodeAll(fs[1..])
  }

  datatype ReadResult<T> = ReadResult(value: T, readPos: nat)

  /** operator>> for an integer variable that holds `current`. */
  function ReadNumber(bytes: seq<byte>, readPos: nat, width: nat, current: nat): ReadResult<nat> {
    if readPos + width > |bytes| then ReadResult(current, readPos)
    else ReadResult(FromLittleEndian(bytes[readPos..readPos + width]), readPos + width)
  }

  /** operator>> for a string variable that holds `current`. */
  function ReadText(bytes: seq<byte>, readPos: nat, current: seq<byte>): ReadResult<seq<byte>> {
    var size := ReadNumber(bytes, readPos, 2, 0);
    if size.readPos + size.value > |bytes| then ReadResult(current, size.readPos)
    else ReadResult(bytes[size.readPos..size.readPos + size.value], size.readPos + size.value)
  }

  function ReadField(bytes: seq<byte>, readPos: nat, current: Field): ReadResult<Field> {
    match current
    case Number(v, w) => var r := ReadNumber(bytes, readPos, w, v); ReadResult(Number(r.value, w), r.readPos)
    case Text(s) => var r := ReadText(bytes, readPos, s); ReadResult(Text(r.value), r.readPos)
  }

  function ReadAll(bytes: seq<byte>, readPos: nat, current: seq<Field>): ReadResult<seq<Field>>
    decreases |current|
  {
    if current == [] then ReadResult([], readPos)
    else
      var first := ReadField(bytes, readPos, current[0]);
      var rest := ReadAll(bytes, first.readPos, current[1..]);
      ReadResult([first.value] + rest.value, rest.readPos)
  }

  class PacketStream {
    const buffer: ByteVector
    var readPos: nat

    constructor (buffer: ByteVector, offset: nat)
      ensures this.buffer == buffer && readPos == offset
    {
      this.buffer := buffer;
      readPos := offset;
    }

    method PutNumber(data: nat, width: nat)
      modifies buffer
      ensures buffer.bytes == old(buffer.bytes) + Encode(Number(data, width))
    {
      buffer.bytes := buffer.bytes + LittleEndian(data, width);
    }

    method PutText(data: seq<byte>)
      modifies buffer
      ensures buffer.bytes == old(buffer.bytes) + Encode(Text(data))
    {
      var size := |data| % U16_RANGE;
      Associative(buffer.bytes, LittleEndian(size, 2), data[..size]);
      hide LittleEndian;
      PutNumber(size, 2);
      buffer.bytes := buffer.bytes + data[..size];
    }

    method GetNumber(width: nat, current: nat) returns (data: nat)
      modifies `readPos
      ensures ReadResult(data, readPos) == ReadNumber(buffer.bytes, old(readPos), width, current)
      ensures old(readPos) + width > |buffer.bytes| ==> data == current && readPos == old(readPos)
      ensures old(readPos) + width <= |buffer.bytes| ==>
        data == FromLittleEndian(buffer.bytes[old(readPos)..old(readPos) + width]) && readPos == old(readPos) + width
    {
      data := current;
      if readPos + width > |buffer.bytes| {
        return;
      }
      data := FromLittleEndian(buffer.bytes[readPos..readPos + width]);
      readPos := readPos + width;
    }

    method GetText(current: seq<byte>) returns (data: seq<byte>)
      modifies `readPos
      ensures ReadResult(data, readPos) == ReadText(buffer.bytes, old(readPos), current)
      ensures old(readPos) + 2 > |buffer.bytes| ==>
        readPos == old(readPos) && data == (if old(readPos) <= |buffer.bytes| then [] else current)
      ensures old(readPos) + 2 <= |buffer.bytes| ==>
        var start, size := old(readPos) + 2, U16At(buffer.bytes, old(readPos));
        if start + size > |buffer.bytes| then data == current && readPos == start
        else data == buffer.bytes[start..start + size] && readPos == start + size
    {
      if readPos + 2 <= |buffer.bytes| {
        U16AtIsLittleEndian(buffer.bytes, readPos);
      }
      data := current;
      var size := GetNumber(2, 0);
      if readPos + size > |buffer.bytes| {
        return;
      }
      data := buffer.bytes[readPos..readPos + size];
      readPos := readPos + size;
    }
  }

  /**
   What a read does, for every buffer and cursor: an integer is all or nothing; a string takes its
   length first, keeps the variable if the bytes announced are not there, and becomes empty if not even
   the length is.
   */
  lemma ReadsExactly(bytes: seq<byte>, p: nat, width: nat, n: nat, s: seq<byte>)
    ensures var r := ReadNumber(bytes, p, width, n);
      if p + width > |bytes| then r.value == n && r.readPos == p
      else r.value == FromLittleEndian(bytes[p..p + width]) && r.readPos == p + width
    ensures var r := ReadText(bytes, p, s);
      if p > |bytes| then r.value == s && r.readPos == p
      else if p + 2 > |bytes| then r.value == [] && r.readPos == p
      else if p + 2 + U16At(bytes, p) > |bytes| then r.value == s && r.readPos == p + 2
      else r.value == bytes[p + 2..p + 2 + U16At(bytes, p)] && r.readPos == p + 2 + U16At(bytes, p)
  {
    if p + 2 <= |bytes| {
      U16AtIsLittleEndian(bytes, p);
    }
  }

  /** The cursor never moves back and, started inside the buffer, never leaves it: whole reads and short ones alike. */
  lemma {:induction false} CursorStaysInside(bytes: seq<byte>, readPos: nat, current: seq<Field>)
    ensures readPos <= ReadAll(bytes, readPos, current).readPos
    ensures readPos <= |bytes| ==> ReadAll(bytes, readPos, current).readPos <= |bytes|
    decreases |current|
  {
    if current != [] {
      CursorStaysInside(bytes, ReadField(bytes, readPos, current[0]).readPos, current[1..]);
    }
  }

  lemma Pow256Of2()
    ensures Pow256(2) == U16_RANGE
  {
    assert Pow256(1) == 256 * Pow256(0);
  }

  lemma Middle(a: seq<byte>, b: seq<byte>, c: seq<byte>)
    ensures (a + b + c)[|a|..|a| + |b|] == b
  {
  }

  /** One field, wherever it stands in a buffer, is read back whatever the variable held before. */
  lemma FieldRoundTrip(before: seq<byte>, f: Field, after: seq<byte>, current: Field)
    requires f.Valid() && SameShape(f, current)
    ensures ReadField(before + Encode(f) + after, |before|, current)
      == ReadResult(f.Truncated(), |before| + |Encode(f)|)
  {
    var bytes := before + Encode(f) + after;
    match f
    case Number(v, w) =>
      LittleEndianRoundTrip(v, w);
      Middle(before, LittleEndian(v, w), after);
    case Text(s) =>
      var n := |s| % U16_RANGE;
      Pow256Of2();
      LittleEndianRoundTrip(n, 2);
      var size := LittleEndian(n, 2);
      assert bytes == before + size + (s[..n] + after) == (before + size) + s[..n] + after;
      Middle(before, size, s[..n] + after);
      Middle(before + size, s[..n], after);
  }

  lemma Regroup(a: seq<byte>, b: seq<byte>, c: seq<byte>, d: seq<byte>)
    ensures a + (b + c) + d == a + b + (c + d) == a + b + c + d
  {
  }

  function TruncateAll(fs: seq<Field>): seq<Field> {
    if fs == [] then [] else [fs[0].Truncated()] + TruncateAll(fs[1..])
  }

  predicate SameShapes(fs: seq<Field>, gs: seq<Field>) {
    |fs| == |gs| && forall i :: 0 <= i < |fs| ==> SameShape(fs[i], gs[i])
  }

  predicate AllValid(fs: seq<Field>) {
    forall i :: 0 <= i < |fs| ==> fs[i].Valid()
  }

  /**
   Round trip: any list of fields, written one after another and read in the same order, comes back,
   each string cut to its length modulo 2^16, and the cursor ends just behind the last field.
   */
  lemma {:induction false} RoundTrip(before: seq<byte>, fs: seq<Field>, after: seq<byte>, current: seq<Field>)
    requires AllValid(fs) && SameShapes(fs, current)
    ensures ReadAll(before + EncodeAll(fs) + after, |before|, current)
      == ReadResult(TruncateAll(fs), |before| + |EncodeAll(fs)|)
    decreases |fs|
  {
    if fs != [] {
      hide Encode, ReadField, Pow256;
      var first, rest := Encode(fs[0]), EncodeAll(fs[1..]);
      FieldRoundTrip(before, fs[0], rest + after, current[0]);
      RoundTrip(before + first, fs[1..], after, current[1..]);
      Regroup(before, first, rest, after);
    }
  }

  predicate Short(f: Field) {
    f.Text? ==> |f.chars| < U16_RANGE
  }

  /** A list of fields survives the round trip unchanged if and only if none of its strings has 2^16 bytes or more. */
  lemma {:induction false} UnchangedExactlyWhenShort(fs: seq<Field>)
    ensures TruncateAll(fs) == fs <==> forall i :: 0 <= i < |fs| ==> Short(fs[i])
  {
    if fs != [] {
      UnchangedExactlyWhenShort(fs[1..]);
      assert TruncateAll(fs)[1..] == TruncateAll(fs[1..]);
      assert fs == [fs[0]] + fs[1..];
      assert Short(fs[0]) <==> fs[0].Truncated() == fs[0];
      assert forall i :: 0 < i < |fs| ==> fs[i] == fs[1..][i - 1];
    }
  }

  /** The encoding is injective on lists of the same shape whose strings are short. */
  lemma EncodingInjective(fs: seq<Field>, gs: seq<Field>)
    requires AllValid(fs) && AllValid(gs) && SameShapes(fs, gs)
    requires forall i :: 0 <= i < |fs| ==> Short(fs[i]) && Short(gs[i])
    requires EncodeAll(fs) == EncodeAll(gs)
    ensures fs == gs
  {
    RoundTrip([], fs, [], fs);
    RoundTrip([], gs, [], fs);
    UnchangedExactlyWhenShort(fs);
    UnchangedExactlyWhenShort(gs);
  }
}
