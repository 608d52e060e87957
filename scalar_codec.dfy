/**
 * The Pack* and Unpack* functions of src/microdata.c: fixed-width little-endian
 * serialisation of 8, 16 and 32-bit integers at a cursor into a byte buffer.
 * A pointer cursor is modelled as an index into the buffer; each call returns
 * the index just past the bytes it wrote or read.
 */
module ScalarCodec {
  import opened MicrodataTypes

  /**
   * The `width` bytes of x, least significant first. Byte k is
   * (x >> 8k) & 0xFF with >> the arithmetic shift (floor division), so a
   * negative x yields the bytes of its two's complement.
   */
  function LittleEndian(x: int, width: nat): (r: seq<Byte>)
    ensures |r| == width
    decreases width
  {
    if width == 0 then [] else [x % 0x100] + LittleEndian(x / 0x100, width - 1)
  }

  /** The unsigned number whose bytes, least significant first, are bs. */
  function Assemble(bs: seq<Byte>): (r: nat)
    ensures r < Pow256(|bs|)
  {
    if bs == [] then 0 else bs[0] + 0x100 * Assemble(bs[1..])
  }

  /** Reads the bit pattern u of a w-byte integer as two's complement. */
  function ToSigned(u: nat, w: Width): (r: int)
    requires u < Pow256(w)
    ensures InRange(r, ScalarType(true, w))
    ensures r % Pow256(w) == u
  {
    if u < Pow256(w) / 2 then u else u - Pow256(w)
  }

  /**
   * C's conversion of an int to a w-byte type: modulo 2^(8w), read as two's
   * complement for a signed type (the behaviour of every two's-complement
   * compiler, and what the conversions in the Unpack* macros rely on).
   */
  function Convert(x: int, t: ScalarType): (r: int)
    ensures InRange(r, t)
    ensures r % Pow256(t.width) == x % Pow256(t.width)
  {
    if t.signed then ToSigned(x % Pow256(t.width), t.width) else x % Pow256(t.width)
  }

  /** The value of type t whose little-endian bytes are bs. */
  function Value(bs: seq<Byte>, t: ScalarType): (r: int)
    requires |bs| == t.width
    ensures InRange(r, t)
  {
    if t.signed then ToSigned(Assemble(bs), t.width) else Assemble(bs)
  }

  /** Assembling the little-endian bytes of x gives back x modulo 2^(8w). */
  lemma {:induction false} AssembleLittleEndian(x: int, w: nat)
    ensures Assemble(LittleEndian(x, w)) == x % Pow256(w)
    decreases w
  {
    if w > 0 {
      var b := LittleEndian(x, w);
      assert b[1..] == LittleEndian(x / 0x100, w - 1);
      AssembleLittleEndian(x / 0x100, w - 1);
      NestedMod(x, Pow256(w - 1));
    }
  }

  /** Taking the low byte, then the next w-1 bytes of the rest, is taking x modulo 256 * m. */
  lemma NestedMod(x: int, m: int)
    requires 0 < m
    ensures x % 0x100 + 0x100 * (x / 0x100 % m) == x % (0x100 * m)
  {
    var h := x / 0x100;
    var q := h / m;
    var r := x % 0x100 + 0x100 * (h % m);
    assert x == 0x100 * h + x % 0x100;
    assert h == m * q + h % m;
    assert 0x100 * h == (0x100 * m) * q + 0x100 * (h % m);
    assert 0x100 * (h % m) <= 0x100 * (m - 1);
    DivModUnique(x, 0x100 * m, q, r);
  }

  /** Writing out the number that bs spells gives back bs: LittleEndian and Assemble are inverse. */
  lemma {:induction false} LittleEndianAssemble(bs: seq<Byte>)
    ensures LittleEndian(Assemble(bs), |bs|) == bs
  {
    if bs != [] {
      var a := Assemble(bs);
      assert a % 0x100 == bs[0] && a / 0x100 == Assemble(bs[1..]);
      LittleEndianAssemble(bs[1..]);
    }
  }

  /**
   * The pack/unpack round trip: reading back, as the same type, the bytes
   * written for any value of that type gives back the value.
   */
  lemma RoundTrip(v: int, t: ScalarType)
    requires InRange(v, t)
    ensures Value(LittleEndian(v, t.width), t) == v
  {
    AssembleLittleEndian(v, t.width);
    var m := Pow256(t.width);
    if v < 0 {
      DivModUnique(v, m, -1, v + m);
    } else {
      DivModUnique(v, m, 0, v);
    }
  }

  /**
   * The other direction of the round trip: every `t.width` bytes are the
   * little-endian image of the value read from them, so unpacking and packing
   * again reproduces the buffer.
   */
  lemma LittleEndianValue(bs: seq<Byte>, t: ScalarType)
    requires |bs| == t.width
    ensures LittleEndian(Value(bs, t), t.width) == bs
  {
    var v := Value(bs, t);
    var m := Pow256(t.width);
    var a := Assemble(bs);
    ConvertPattern(bs, t);
    DivModUnique(a, m, 0, a);
    AssembleLittleEndian(v, t.width);
    assert Assemble(LittleEndian(v, t.width)) == a;
    LittleEndianAssemble(LittleEndian(v, t.width));
    LittleEndianAssemble(bs);
  }

  /** Euclidean division is unique: a quotient and remainder in range are a / m and a % m. */
  lemma DivModUnique(a: int, m: int, q: int, r: int)
    requires 0 < m && a == m * q + r && 0 <= r < m
    ensures a / m == q && a % m == r
  {
    var d := q - a / m;
    assert m * d == a % m - r;
    if d > 0 {
      assert false;
    } else if d < 0 {
      assert false;
    }
  }

  /** Congruence modulo m is preserved by addition. */
  lemma AddCongruent(x: int, y: int, x': int, y': int, m: int)
    requires 0 < m && x % m == x' % m && y % m == y' % m
    ensures (x + y) % m == (x' + y') % m
  {
    var rx, ry := x % m, y % m;
    var qx, qy, qx', qy' := x / m, y / m, x' / m, y' / m;
    assert x + y == m * (qx + qy) + (rx + ry);
    assert x' + y' == m * (qx' + qy') + (rx + ry);
    if rx + ry < m {
      DivModUnique(x + y, m, qx + qy, rx + ry);
      DivModUnique(x' + y', m, qx' + qy', rx + ry);
    } else {
      DivModUnique(x + y, m, qx + qy + 1, rx + ry - m);
      DivModUnique(x' + y', m, qx' + qy' + 1, rx + ry - m);
    }
  }

  /** Adding two converted values and converting the sum is converting the plain sum. */
  lemma ConvertSum(x: int, y: int, t: ScalarType)
    ensures Convert(Convert(x, t) + Convert(y, t), t) == Convert(x + y, t)
  {
    AddCongruent(Convert(x, t), Convert(y, t), x, y, Pow256(t.width));
  }

  /** Converting an unsigned bit pattern that fits the type is reading it as that type. */
  lemma ConvertPattern(bs: seq<Byte>, t: ScalarType)
    requires |bs| == t.width
    ensures Convert(Assemble(bs), t) == Value(bs, t)
  {
    var u := Assemble(bs);
    assert u % Pow256(t.width) == u;
  }

  // ---------------------------------------------------------------------------
  // Pack*: the PACK1, PACK2 and PACK4 macros write the bytes of `value`
  // through the cursor, least significant first, and advance it.

  method Pack1(buffer: array<Byte>, cursor: nat, value: int) returns (next: nat)
    requires cursor + 1 <= buffer.Length
    modifies buffer
    ensures next == cursor + 1
    ensures buffer[..] == old(buffer[..cursor]) + LittleEndian(value, 1) + old(buffer[next..])
  {
    next := cursor;
    buffer[next] := value % 0x100;
    next := next + 1;
  }

  method Pack2(buffer: array<Byte>, cursor: nat, value: int) returns (next: nat)
    requires cursor + 2 <= buffer.Length
    modifies buffer
    ensures next == cursor + 2
    ensures buffer[..] == old(buffer[..cursor]) + LittleEndian(value, 2) + old(buffer[next..])
  {
    next := cursor;
    buffer[next] := value % 0x100;
    next := next + 1;
    buffer[next] := value / 0x100 % 0x100;
    next := next + 1;
    LittleEndianTwo(value);
  }

  method Pack4(buffer: array<Byte>, cursor: nat, value: int) returns (next: nat)
    requires cursor + 4 <= buffer.Length
    modifies buffer
    ensures next == cursor + 4
    ensures buffer[..] == old(buffer[..cursor]) + LittleEndian(value, 4) + old(buffer[next..])
  {
    next := cursor;
    buffer[next] := value % 0x100;
    next := next + 1;
    buffer[next] := value / 0x100 % 0x100;
    next := next + 1;
    buffer[next] := value / 0x1_0000 % 0x100;
    next := next + 1;
    buffer[next] := value / 0x100_0000 % 0x100;
    next := next + 1;
    LittleEndianFour(value);
  }

  /** The two bytes of x, spelled out. */
  lemma LittleEndianTwo(x: int)
    ensures LittleEndian(x, 2) == [x % 0x100, x / 0x100 % 0x100]
  {
    assert LittleEndian(x, 2) == [x % 0x100] + LittleEndian(x / 0x100, 1);
  }

  /** The four bytes of x, spelled out. */
  lemma LittleEndianFour(x: int)
    ensures LittleEndian(x, 4) == [x % 0x100, x / 0x100 % 0x100, x / 0x1_0000 % 0x100, x / 0x100_0000 % 0x100]
  {
    var q1, q2, q3 := x / 0x100, x / 0x100 / 0x100, x / 0x100 / 0x100 / 0x100;
    assert q2 == x / 0x1_0000 && q3 == x / 0x100_0000;
    assert LittleEndian(x, 4) == [x % 0x100] + LittleEndian(q1, 3);
    assert LittleEndian(q1, 3) == [q1 % 0x100] + LittleEndian(q2, 2);
    assert LittleEndian(q2, 2) == [q2 % 0x100] + LittleEndian(q3, 1);
  }

  method PackUint8(buffer: array<Byte>, cursor: nat, value: UInt8) returns (next: nat)
    requires cursor + 1 <= buffer.Length
    modifies buffer
    ensures next == cursor + 1
    ensures buffer[..] == old(buffer[..cursor]) + LittleEndian(value, 1) + old(buffer[next..])
  {
    next := Pack1(buffer, cursor, value);
  }

  method PackUint16(buffer: array<Byte>, cursor: nat, value: UInt16) returns (next: nat)
    requires cursor + 2 <= buffer.Length
    modifies buffer
    ensures next == cursor + 2
    ensures buffer[..] == old(buffer[..cursor]) + LittleEndian(value, 2) + old(buffer[next..])
  {
    next := Pack2(buffer, cursor, value);
  }

  method PackUint32(buffer: array<Byte>, cursor: nat, value: UInt32) returns (next: nat)
    requires cursor + 4 <= buffer.Length
    modifies buffer
    ensures next == cursor + 4
    ensures buffer[..] == old(buffer[..cursor]) + LittleEndian(value, 4) + old(buffer[next..])
  {
    next := Pack4(buffer, cursor, value);
  }

  method PackInt8(buffer: array<Byte>, cursor: nat, value: Int8) returns (next: nat)
    requires cursor + 1 <= buffer.Length
    modifies buffer
    ensures next == cursor + 1
    ensures buffer[..] == old(buffer[..cursor]) + LittleEndian(value, 1) + old(buffer[next..])
  {
    next := Pack1(buffer, cursor, value);
  }

  method PackInt16(buffer: array<Byte>, cursor: nat, value: Int16) returns (next: nat)
    requires cursor + 2 <= buffer.Length
    modifies buffer
    ensures next == cursor + 2
    ensures buffer[..] == old(buffer[..cursor]) + LittleEndian(value, 2) + old(buffer[next..])
  {
    next := Pack2(buffer, cursor, value);
  }

  method PackInt32(buffer: array<Byte>, cursor: nat, value: Int32) returns (next: nat)
    requires cursor + 4 <= buffer.Length
    modifies buffer
    ensures next == cursor + 4
    ensures buffer[..] == old(buffer[..cursor]) + LittleEndian(value, 4) + old(buffer[next..])
  {
    next := Pack4(buffer, cursor, value);
  }

  // ---------------------------------------------------------------------------
  // Unpack*: the UNPACK macros start from 0 and add, for each byte k, the byte
  // shifted left by 8k and converted to the value's type; `*value += e` itself
  // converts the sum back to that type. The buffer is only read.

  method Unpack1(buffer: array<Byte>, cursor: nat, t: ScalarType) returns (value: int, next: nat)
    requires t.width == 1
    requires cursor + 1 <= buffer.Length
    ensures next == cursor + 1
    ensures value == Value(buffer[cursor..next], t)
  {
    var b0: int := buffer[cursor];
    value := 0;
    Accumulate(value, 0, b0, t);
    value := Convert(value + Convert(b0, t), t);
    next := cursor + 1;
    var bs := buffer[cursor..next];
    assert Assemble(bs) == buffer[cursor] by {
      assert bs[1..] == [];
    }
    ConvertPattern(bs, t);
  }

  method Unpack2(buffer: array<Byte>, cursor: nat, t: ScalarType) returns (value: int, next: nat)
    requires t.width == 2
    requires cursor + 2 <= buffer.Length
    ensures next == cursor + 2
    ensures value == Value(buffer[cursor..next], t)
  {
    var b0: int, b1: int := buffer[cursor], buffer[cursor + 1];
    var s1 := b1 * 0x100;
    value := 0;
    Accumulate(value, 0, b0, t);
    value := Convert(value + Convert(b0, t), t);
    Accumulate(value, b0, s1, t);
    value := Convert(value + Convert(s1, t), t);
    next := cursor + 2;
    var bs := buffer[cursor..next];
    assert Assemble(bs) == b0 + 0x100 * b1 by {
      assert bs[1..][1..] == [];
    }
    ConvertPattern(bs, t);
  }

  method Unpack4(buffer: array<Byte>, cursor: nat, t: ScalarType) returns (value: int, next: nat)
    requires t.width == 4
    requires cursor + 4 <= buffer.Length
    ensures next == cursor + 4
    ensures value == Value(buffer[cursor..next], t)
  {
    var b0: int, b1: int, b2: int, b3: int := buffer[cursor], buffer[cursor + 1], buffer[cursor + 2], buffer[cursor + 3];
    var s1, s2, s3 := b1 * 0x100, b2 * 0x1_0000, b3 * 0x100_0000;
    value := 0;
    Accumulate(value, 0, b0, t);
    value := Convert(value + Convert(b0, t), t);
    Accumulate(value, b0, s1, t);
    value := Convert(value + Convert(s1, t), t);
    Accumulate(value, b0 + s1, s2, t);
    value := Convert(value + Convert(s2, t), t);
    Accumulate(value, b0 + s1 + s2, s3, t);
    value := Convert(value + Convert(s3, t), t);
    next := cursor + 4;
    var bs := buffer[cursor..next];
    AssembleFour(bs);
    ConvertPattern(bs, t);
  }

  /** One `*value += e` step: adding to the converted running sum keeps it the converted sum. */
  lemma Accumulate(value: int, sum: int, e: int, t: ScalarType)
    requires value == Convert(sum, t)
    ensures Convert(value + Convert(e, t), t) == Convert(sum + e, t)
  {
    ConvertSum(sum, e, t);
  }

  /** The number four little-endian bytes spell. */
  lemma AssembleFour(bs: seq<Byte>)
    requires |bs| == 4
    ensures Assemble(bs) == bs[0] as int + 0x100 * bs[1] as int + 0x1_0000 * bs[2] as int + 0x100_0000 * bs[3] as int
  {
    assert bs[3..][1..] == [];
    assert Assemble(bs[3..]) == bs[3];
    assert Assemble(bs[2..]) == bs[2] as int + 0x100 * bs[3] as int by {
      assert bs[2..][1..] == bs[3..];
    }
    assert Assemble(bs[1..]) == bs[1] as int + 0x100 * bs[2] as int + 0x1_0000 * bs[3] as int by {
      assert bs[1..][1..] == bs[2..];
    }
  }

  method UnpackUint8(buffer: array<Byte>, cursor: nat) returns (value: UInt8, next: nat)
    requires cursor + 1 <= buffer.Length
    ensures next == cursor + 1
    ensures value == Assemble(buffer[cursor..next])
  {
    var v;
    v, next := Unpack1(buffer, cursor, UINT8);
    value := v;
  }

  method UnpackUint16(buffer: array<Byte>, cursor: nat) returns (value: UInt16, next: nat)
    requires cursor + 2 <= buffer.Length
    ensures next == cursor + 2
    ensures value == Assemble(buffer[cursor..next])
  {
    var v;
    v, next := Unpack2(buffer, cursor, UINT16);
    value := v;
  }

  method UnpackUint32(buffer: array<Byte>, cursor: nat) returns (value: UInt32, next: nat)
    requires cursor + 4 <= buffer.Length
    ensures next == cursor + 4
    ensures value == Assemble(buffer[cursor..next])
  {
    var v;
    v, next := Unpack4(buffer, cursor, UINT32);
    value := v;
  }

  method UnpackInt8(buffer: array<Byte>, cursor: nat) returns (value: Int8, next: nat)
    requires cursor + 1 <= buffer.Length
    ensures next == cursor + 1
    ensures value == ToSigned(Assemble(buffer[cursor..next]), 1)
  {
    var v;
    v, next := Unpack1(buffer, cursor, INT8);
    value := v;
  }

  method UnpackInt16(buffer: array<Byte>, cursor: nat) returns (value: Int16, next: nat)
    requires cursor + 2 <= buffer.Length
    ensures next == cursor + 2
    ensures value == ToSigned(Assemble(buffer[cursor..next]), 2)
  {
    var v;
    v, next := Unpack2(buffer, cursor, INT16);
    value := v;
  }

  method UnpackInt32(buffer: array<Byte>, cursor: nat) returns (value: Int32, next: nat)
    requires cursor + 4 <= buffer.Length
    ensures next == cursor + 4
    ensures value == ToSigned(Assemble(buffer[cursor..next]), 4)
  {
    var v;
    v, next := Unpack4(buffer, cursor, INT32);
    value := v;
  }

  /** Four 0xFF bytes read as int32_t are -1: the top byte's sign bit propagates. */
  lemma AllOnesIsMinusOne()
    ensures Value([0xFF, 0xFF, 0xFF, 0xFF], INT32) == -1
  {
    var bs: seq<Byte> := [0xFF, 0xFF, 0xFF, 0xFF];
    assert Assemble(bs[3..]) == 0xFF;
    assert Assemble(bs) == 0xFFFF_FFFF;
    assert Pow256(4) == 0x1_0000_0000;
  }
}
