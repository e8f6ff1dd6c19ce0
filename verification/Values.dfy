/** Runtime values. Integers carry the width of the source; floating-point values are
    not part of this model. */
module Values {

  type I32 = x: int | -0x8000_0000 <= x < 0x8000_0000
  type I64 = x: int | -0x8000_0000_0000_0000 <= x < 0x8000_0000_0000_0000

  datatype JValue = Int(i: I32) | Long(l: I64) | Obj(id: nat) | Null {

    /** Null, or the zero that `const` leaves in a reference register. */
    predicate IsNullRef() {
      this == Null || this == Int(0)
    }
  }

  /** Reduction to a signed 32-bit value, as the wrapping operations do. */
  function Wrap32(x: int): I32 {
    (x + 0x8000_0000) % 0x1_0000_0000 - 0x8000_0000
  }

  /** Reduction to a signed 64-bit value. */
  function Wrap64(x: int): I64 {
    (x + 0x8000_0000_0000_0000) % 0x1_0000_0000_0000_0000 - 0x8000_0000_0000_0000
  }

  function Pow2(n: nat): (r: nat)
    ensures r > 0
  {
    if n == 0 then 1 else 2 * Pow2(n - 1)
  }
}
