/** The fixed-width primitive integer types the library is instantiated for,
    and the checked arithmetic (`checked_add`, `checked_sub`, `checked_mul`,
    `from_u64`) it uses to detect overflow. Values are unbounded `int`s; a
    type only contributes its range. `usize` and `isize` are taken to be
    64 bits wide. */
module PrimInt {

  datatype Option<+T> = None | Some(value: T)

  datatype IntType = U8 | U16 | U32 | U64 | U128 | Usize | I8 | I16 | I32 | I64 | I128 | Isize
  {
    /** Least value of the type. */
    function Min(): int {
      match this
      case U8 | U16 | U32 | U64 | U128 | Usize => 0
      case I8 => -0x80
      case I16 => -0x8000
      case I32 => -0x8000_0000
      case I64 | Isize => -0x8000_0000_0000_0000
      case I128 => -0x8000_0000_0000_0000_0000_0000_0000_0000
    }

    /** Greatest value of the type. */
    function Max(): int {
      match this
      case U8 => 0xFF
      case U16 => 0xFFFF
      case U32 => 0xFFFF_FFFF
      case U64 | Usize => 0xFFFF_FFFF_FFFF_FFFF
      case U128 => 0xFFFF_FFFF_FFFF_FFFF_FFFF_FFFF_FFFF_FFFF
      case I8 => 0x7F
      case I16 => 0x7FFF
      case I32 => 0x7FFF_FFFF
      case I64 | Isize => 0x7FFF_FFFF_FFFF_FFFF
      case I128 => 0x7FFF_FFFF_FFFF_FFFF_FFFF_FFFF_FFFF_FFFF
    }

    predicate Contains(v: int) {
      Min() <= v <= Max()
    }

    /** At most 64 bits wide. */
    predicate AtMost64Bits() {
      this !in {U128, I128}
    }
  }

  function CheckedAdd(t: IntType, a: int, b: int): Option<int> {
    if t.Contains(a + b) then Some(a + b) else None
  }

  function CheckedSub(t: IntType, a: int, b: int): Option<int> {
    if t.Contains(a - b) then Some(a - b) else None
  }

  function CheckedMul(t: IntType, a: int, b: int): Option<int> {
    if t.Contains(a * b) then Some(a * b) else None
  }

  /** Conversion of a `u64` constant into the type. */
  function FromU64(t: IntType, v: nat): Option<int> {
    if t.Contains(v) then Some(v) else None
  }
}
