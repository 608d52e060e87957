/** The types and constants declared by include/microdata.h. */
module MicrodataTypes {

  /** An octet: the element type (uint8_t) of every buffer the library touches. */
  type Byte = x: int | 0 <= x < 0x100

  /** SIZE_T is defined as uint8_t, so sizes, capacities and returned counts are 0..255. */
  type SizeT = x: int | 0 <= x < 0x100

  /** Marker for the end of a SLIP frame. */
  const SLIP_FRAME_END: Byte := 0xC0

  /** The byte widths of the library's scalar types. */
  type Width = w: nat | w == 1 || w == 2 || w == 4 witness 1

  /** 256 to the power k. */
  function Pow256(k: nat): (r: nat)
    ensures 0 < r
  {
    if k == 0 then 1 else 0x100 * Pow256(k - 1)
  }

  /** The six scalar types: uint8_t .. uint32_t and int8_t .. int32_t. */
  datatype ScalarType = ScalarType(signed: bool, width: Width)

  const UINT8: ScalarType := ScalarType(false, 1)
  const UINT16: ScalarType := ScalarType(false, 2)
  const UINT32: ScalarType := ScalarType(false, 4)
  const INT8: ScalarType := ScalarType(true, 1)
  const INT16: ScalarType := ScalarType(true, 2)
  const INT32: ScalarType := ScalarType(true, 4)

  /** The values a scalar type holds: [0, 2^(8w)) unsigned, [-2^(8w-1), 2^(8w-1)) signed. */
  predicate InRange(v: int, t: ScalarType)
  {
    var m: int := Pow256(t.width);
    if t.signed then -(m / 2) <= v < m / 2 else 0 <= v < m
  }

  type UInt8 = x: int | 0 <= x < 0x100
  type UInt16 = x: int | 0 <= x < 0x1_0000
  type UInt32 = x: int | 0 <= x < 0x1_0000_0000
  type Int8 = x: int | -0x80 <= x < 0x80
  type Int16 = x: int | -0x8000 <= x < 0x8000
  type Int32 = x: int | -0x8000_0000 <= x < 0x8000_0000
}
