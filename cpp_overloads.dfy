/**
 * The C++ Pack and Unpack overloads of include/microdata.h, and the chained
 * use of a cursor that the header's documentation shows for a record.
 * C++ picks the overload from the static type of the value; here that type is
 * the constructor of Scalar (for Pack) or the ScalarType asked for (for Unpack).
 */
module CppOverloads {
  import opened MicrodataTypes
  import opened ScalarCodec
  import opened Sequences

  /** A value of one of the six scalar types, tagged with its type. */
  datatype Scalar =
    | U8(u8: UInt8) | U16(u16: UInt16) | U32(u32: UInt32)
    | I8(i8: Int8) | I16(i16: Int16) | I32(i32: Int32)

  function TypeOf(s: Scalar): (r: ScalarType)
  {
    match s
    case U8(_) => UINT8
    case U16(_) => UINT16
    case U32(_) => UINT32
    case I8(_) => INT8
    case I16(_) => INT16
    case I32(_) => INT32
  }

  function ValueOf(s: Scalar): (r: int)
    ensures InRange(r, TypeOf(s))
  {
    assert Pow256(1) == 0x100 && Pow256(2) == 0x1_0000 && Pow256(4) == 0x1_0000_0000;
    match s
    case U8(v) => v
    case U16(v) => v
    case U32(v) => v
    case I8(v) => v
    case I16(v) => v
    case I32(v) => v
  }

  /** The scalar of type t holding v. */
  function Make(t: ScalarType, v: int): (r: Scalar)
    requires InRange(v, t)
    ensures TypeOf(r) == t && ValueOf(r) == v
  {
    assert Pow256(1) == 0x100 && Pow256(2) == 0x1_0000 && Pow256(4) == 0x1_0000_0000;
    match (t.signed, t.width)
    case (false, 1) => U8(v)
    case (false, 2) => U16(v)
    case (false, 4) => U32(v)
    case (true, 1) => I8(v)
    case (true, 2) => I16(v)
    case (true, 4) => I32(v)
  }

  /** The bytes Pack writes for s. */
  function Serialize(s: Scalar): (r: seq<Byte>)
    ensures |r| == TypeOf(s).width
  {
    LittleEndian(ValueOf(s), TypeOf(s).width)
  }

  /** The scalar of type t that Unpack reads from bs. */
  function Deserialize(bs: seq<Byte>, t: ScalarType): (r: Scalar)
    requires |bs| == t.width
    ensures TypeOf(r) == t
  {
    Make(t, Value(bs, t))
  }

  /** Deserializing what was serialized gives the scalar back. */
  lemma SerializeDeserialize(s: Scalar)
    ensures Deserialize(Serialize(s), TypeOf(s)) == s
  {
    RoundTrip(ValueOf(s), TypeOf(s));
  }

  /** Serializing what was deserialized gives the bytes back: every byte pattern is some scalar's image. */
  lemma DeserializeSerialize(bs: seq<Byte>, t: ScalarType)
    requires |bs| == t.width
    ensures Serialize(Deserialize(bs, t)) == bs
  {
    LittleEndianValue(bs, t);
  }

  /** Pack: the overload for the type of s, which calls the matching Pack* function. */
  method Pack(buffer: array<Byte>, cursor: nat, s: Scalar) returns (next: nat)
    requires cursor + TypeOf(s).width <= buffer.Length
    modifies buffer
    ensures next == cursor + TypeOf(s).width
    ensures buffer[..] == old(buffer[..cursor]) + Serialize(s) + old(buffer[next..])
  {
    match s {
      case U8(v) => next := PackUint8(buffer, cursor, v);
      case U16(v) => next := PackUint16(buffer, cursor, v);
      case U32(v) => next := PackUint32(buffer, cursor, v);
      case I8(v) => next := PackInt8(buffer, cursor, v);
      case I16(v) => next := PackInt16(buffer, cursor, v);
      case I32(v) => next := PackInt32(buffer, cursor, v);
    }
  }

  /** Unpack: the overload for a pointer to type t, which calls the matching Unpack* function. */
  method Unpack(buffer: array<Byte>, cursor: nat, t: ScalarType) returns (s: Scalar, next: nat)
    requires cursor + t.width <= buffer.Length
    ensures next == cursor + t.width
    ensures s == Deserialize(buffer[cursor..next], t)
  {
    var v: int;
    match (t.signed, t.width) {
      case (false, 1) => { var u; u, next := UnpackUint8(buffer, cursor); v := u; }
      case (false, 2) => { var u; u, next := UnpackUint16(buffer, cursor); v := u; }
      case (false, 4) => { var u; u, next := UnpackUint32(buffer, cursor); v := u; }
      case (true, 1) => { var u; u, next := UnpackInt8(buffer, cursor); v := u; }
      case (true, 2) => { var u; u, next := UnpackInt16(buffer, cursor); v := u; }
      case (true, 4) => { var u; u, next := UnpackInt32(buffer, cursor); v := u; }
    }
    s := Make(t, v);
  }

  // ---------------------------------------------------------------------------
  // Records packed field after field

  function TypesOf(ss: seq<Scalar>): (r: seq<ScalarType>)
    ensures |r| == |ss|
  {
    if ss == [] then [] else [TypeOf(ss[0])] + TypesOf(ss[1..])
  }

  /** The number of bytes a record of the given field types occupies. */
  function TotalWidth(types: seq<ScalarType>): nat
  {
    if types == [] then 0 else types[0].width + TotalWidth(types[1..])
  }

  /** The bytes of the fields, each packed at the cursor the previous one returned. */
  function SerializeAll(ss: seq<Scalar>): (r: seq<Byte>)
    ensures |r| == TotalWidth(TypesOf(ss))
  {
    if ss == [] then [] else Serialize(ss[0]) + SerializeAll(ss[1..])
  }

  /** Fields of the given types unpacked one after the other from the front of bs. */
  function DeserializeAll(types: seq<ScalarType>, bs: seq<Byte>): (r: seq<Scalar>)
    requires TotalWidth(types) <= |bs|
    ensures TypesOf(r) == types
  {
    if types == [] then []
    else
      var w := types[0].width;
      [Deserialize(bs[..w], types[0])] + DeserializeAll(types[1..], bs[w..])
  }

  /**
   * Unpacking with the field types of a packed record, from a buffer that
   * holds the record followed by anything, gives the record back.
   */
  lemma {:induction false} LayoutRoundTrip(ss: seq<Scalar>, rest: seq<Byte>)
    ensures DeserializeAll(TypesOf(ss), SerializeAll(ss) + rest) == ss
  {
    if ss != [] {
      var head, tail := Serialize(ss[0]), SerializeAll(ss[1..]);
      var bs := SerializeAll(ss) + rest;
      assert SerializeAll(ss) == head + tail;
      SplitConcat(head, tail, rest);
      assert TypesOf(ss) == [TypeOf(ss[0])] + TypesOf(ss[1..]);
      SerializeDeserialize(ss[0]);
      LayoutRoundTrip(ss[1..], rest);
    }
  }

  /** Serializing a record of one more field puts that field's bytes first. */
  lemma SerializeCons(s: Scalar, ss: seq<Scalar>)
    ensures SerializeAll([s] + ss) == Serialize(s) + SerializeAll(ss)
  {
    assert ([s] + ss)[1..] == ss;
  }

  /** The fields of a record laid out as four: the bytes are the four packed values in turn. */
  lemma SerializeFour(a: Scalar, b: Scalar, c: Scalar, d: Scalar)
    ensures SerializeAll([a, b, c, d]) == Serialize(a) + Serialize(b) + Serialize(c) + Serialize(d)
  {
    assert [a, b, c, d] == [a] + [b, c, d] && [b, c, d] == [b] + [c, d] && [c, d] == [c] + [d] && [d] == [d] + [];
    SerializeCons(d, []);
    SerializeCons(c, [d]);
    SerializeCons(b, [c, d]);
    SerializeCons(a, [b, c, d]);
    Associative(Serialize(a), Serialize(b), Serialize(c) + Serialize(d));
    Associative(Serialize(a) + Serialize(b), Serialize(c), Serialize(d));
  }

  /** The record of the header's example: two uint8_t, an int16_t and a uint32_t, 8 bytes on the wire. */
  datatype MyData = MyData(val1: UInt8, val2: UInt8, val3: Int16, val4: UInt32)

  /** The field types of MyData, in declaration order. */
  function MyDataLayout(): (r: seq<ScalarType>)
    ensures TotalWidth(r) == 8
  {
    var r := [UINT8, UINT8, INT16, UINT32];
    assert r[1..] == [UINT8, INT16, UINT32] && [UINT8, INT16, UINT32][1..] == [INT16, UINT32];
    assert [INT16, UINT32][1..] == [UINT32] && [UINT32][1..] == [];
    assert TotalWidth([UINT32]) == 4;
    assert TotalWidth([INT16, UINT32]) == 6;
    assert TotalWidth([UINT8, INT16, UINT32]) == 7;
    r
  }

  /** The fields of d as scalars, in declaration order. */
  function Fields(d: MyData): (r: seq<Scalar>)
    ensures TypesOf(r) == MyDataLayout()
  {
    var a, b, c, e := U8(d.val1), U8(d.val2), I16(d.val3), U32(d.val4);
    assert [a, b, c, e][1..] == [b, c, e] && [b, c, e][1..] == [c, e] && [c, e][1..] == [e] && [e][1..] == [];
    assert TypesOf([e]) == [UINT32];
    assert TypesOf([c, e]) == [INT16, UINT32];
    assert TypesOf([b, c, e]) == [UINT8, INT16, UINT32];
    [a, b, c, e]
  }

  /** The header's packing example: four Pack calls chained through the cursor. */
  method PackMyData(buffer: array<Byte>, cursor: nat, d: MyData) returns (next: nat)
    requires cursor + 8 <= buffer.Length
    modifies buffer
    ensures next == cursor + 8
    ensures buffer[..] == old(buffer[..cursor]) + SerializeAll(Fields(d)) + old(buffer[next..])
  {
    var f0, f1, f2, f3 := U8(d.val1), U8(d.val2), I16(d.val3), U32(d.val4);
    ghost var s0 := buffer[..];
    next := Pack(buffer, cursor, f0);
    ghost var s1 := buffer[..];
    next := Pack(buffer, next, f1);
    ghost var s2 := buffer[..];
    ChainWrites(s0, s1, s2, cursor, Serialize(f0), Serialize(f1));
    next := Pack(buffer, next, f2);
    ghost var s3 := buffer[..];
    ChainWrites(s0, s2, s3, cursor, Serialize(f0) + Serialize(f1), Serialize(f2));
    next := Pack(buffer, next, f3);
    ChainWrites(s0, s3, buffer[..], cursor, Serialize(f0) + Serialize(f1) + Serialize(f2), Serialize(f3));
    SerializeFour(f0, f1, f2, f3);
  }

  /** The header's unpacking example: four Unpack calls chained through the cursor. */
  method UnpackMyData(buffer: array<Byte>, cursor: nat) returns (d: MyData, next: nat)
    requires cursor + 8 <= buffer.Length
    ensures next == cursor + 8
    ensures Fields(d) == DeserializeAll(MyDataLayout(), buffer[cursor..next])
  {
    var s1, s2, s3, s4;
    s1, next := Unpack(buffer, cursor, UINT8);
    s2, next := Unpack(buffer, next, UINT8);
    s3, next := Unpack(buffer, next, INT16);
    s4, next := Unpack(buffer, next, UINT32);
    d := MyData(s1.u8, s2.u8, s3.i16, s4.u32);
    ghost var bs := buffer[cursor..next];
    ghost var layout := MyDataLayout();
    assert layout[1..] == [UINT8, INT16, UINT32] && [UINT8, INT16, UINT32][1..] == [INT16, UINT32];
    assert [INT16, UINT32][1..] == [UINT32] && [UINT32][1..] == [];
    assert bs[1..] == buffer[cursor + 1..next] && bs[2..] == buffer[cursor + 2..next] && bs[4..] == buffer[cursor + 4..next];
    assert bs[4..][..4] == buffer[cursor + 4..next] && bs[2..][..2] == buffer[cursor + 2..cursor + 4];
    assert bs[2..][2..] == bs[4..] && bs[1..][1..] == bs[2..] && bs[1..][..1] == buffer[cursor + 1..cursor + 2];
    assert DeserializeAll([UINT32], bs[4..]) == [s4];
    assert DeserializeAll([INT16, UINT32], bs[2..]) == [s3, s4];
    assert DeserializeAll([UINT8, INT16, UINT32], bs[1..]) == [s2, s3, s4];
  }

  /** Unpacking a packed MyData gives it back. */
  lemma MyDataRoundTrip(d: MyData, rest: seq<Byte>)
    ensures DeserializeAll(MyDataLayout(), SerializeAll(Fields(d)) + rest) == Fields(d)
  {
    LayoutRoundTrip(Fields(d), rest);
  }

  /** The header's example values on the wire; 24000 packs to 0xC0 0x5D, which contains SLIP's END byte. */
  // The record is a parameter pinned by the precondition, rather than a literal in
  // the postcondition, which keeps the solver from unfolding SerializeAll on a literal.
  lemma MyDataExampleBytes(d: MyData)
    requires d == MyData(42, 55, 24000, 456234234)
    ensures SerializeAll(Fields(d)) == [42, 55, 0xC0, 0x5D, 0xFA, 0x94, 0x31, 0x1B]
  {
    var a, b, c, e := U8(d.val1), U8(d.val2), I16(d.val3), U32(d.val4);
    assert Fields(d) == [a, b, c, e];
    SerializeFour(a, b, c, e);
    var x, y, z, w := Serialize(a), Serialize(b), Serialize(c), Serialize(e);
    assert x + y == [42, 55] by {
      assert LittleEndian(42, 1) == [42] && LittleEndian(55, 1) == [55];
    }
    assert z == [0xC0, 0x5D] by {
      LittleEndianTwo(24000);
    }
    assert w == [0xFA, 0x94, 0x31, 0x1B] by {
      LittleEndianFour(456234234);
    }
  }
}
