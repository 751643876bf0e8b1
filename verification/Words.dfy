/** The fixed-width integers the sources compute with, as subsets of `int`. */
module Words {
  type u8 = x: int | 0 <= x < 0x100
  type u16 = x: int | 0 <= x < 0x1_0000
  type u32 = x: int | 0 <= x < 0x1_0000_0000
  type u64 = x: int | 0 <= x < 0x1_0000_0000_0000_0000
  type i32 = x: int | -0x8000_0000 <= x < 0x8000_0000
  type i64 = x: int | -0x8000_0000_0000_0000 <= x < 0x8000_0000_0000_0000

  const U64_MAX: u64 := 0xFFFF_FFFF_FFFF_FFFF

  function Min(a: int, b: int): int {
    if a <= b then a else b
  }

  function Max(a: int, b: int): int {
    if a <= b then b else a
  }

  /** Division rounding up: how many strides of `d` it takes to cover `n`. */
  function DivCeil(n: nat, d: nat): (q: nat)
    requires d >= 1
    ensures n <= d * q && (q > 0 ==> d * (q - 1) < n)
  {
    if n == 0 then 0
    else if n <= d then 1
    else
      var rest := DivCeil(n - d, d);
      assert d * (rest + 1) == d * rest + d && d * rest == d * (rest - 1) + d;
      1 + rest
  }
}
