/** The C++ integer types, and the two operations on them that differ from the
    mathematical ones: truncating signed division and wrapping unsigned addition. */
module Machine {
  const INT64_MIN: int := -0x8000_0000_0000_0000
  const INT64_MAX: int := 0x7fff_ffff_ffff_ffff

  /** A clock or window value: stored in 64 bits, reasoned about as an integer. */
  type int64 = x: int | -0x8000_0000_0000_0000 <= x <= 0x7fff_ffff_ffff_ffff

  /** Checked machine integers: Dafny proves that no intermediate value leaves the range. */
  newtype i64 = x: int | -0x8000_0000_0000_0000 <= x <= 0x7fff_ffff_ffff_ffff
  newtype u32 = x: int | 0 <= x < 0x1_0000_0000

  /** C++ `a / b` for a positive divisor: truncation toward zero. */
  function TruncDiv(a: i64, b: i64): i64
    requires b > 0
  {
    if a >= 0 || a % b == 0 then a / b else a / b + 1
  }

  /** C++ `a % b` for a positive divisor: the remainder takes the sign of `a`. */
  function TruncMod(a: i64, b: i64): i64
    requires b > 0
  {
    if a >= 0 || a % b == 0 then a % b else a % b - b
  }

  /** C++ unsigned addition, modulo 2^32. */
  function WrapAdd(a: u32, b: u32): u32 {
    ((a as int + b as int) % 0x1_0000_0000) as u32
  }

  /** C++ conversion of a signed constant to `unsigned`, modulo 2^32. */
  function ToUnsigned(x: i64): u32 {
    (x as int % 0x1_0000_0000) as u32
  }
}
