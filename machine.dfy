/** The Rust integer types and casts the natives use, written out over
    unbounded integers. */
module Machine {
  const TwoTo63: int := 0x8000_0000_0000_0000
  const TwoTo64: int := 0x1_0000_0000_0000_0000

  /** The integers scripts pass to the natives are `i64`. */
  newtype i64 = x: int | -0x8000_0000_0000_0000 <= x < 0x8000_0000_0000_0000

  /** A pixel: `0x00RRGGBB` in a `u32`. */
  type u32 = x: int | 0 <= x < 0x1_0000_0000

  /** `v as usize`: a negative value wraps around to the top half of the
      `usize` range. */
  function AsUsize(v: i64): (n: nat)
    ensures n < TwoTo64
    ensures v >= 0 ==> n == v as int
    ensures v < 0 ==> n >= TwoTo63 && n - TwoTo64 == v as int
  {
    if v < 0 then v as int + TwoTo64 else v as int
  }

  /** `v as u32`: keeps the low 32 bits. */
  function AsU32(v: i64): (c: u32)
    ensures (c - v as int) % 0x1_0000_0000 == 0
    ensures 0 <= v < 0x1_0000_0000 ==> c == v as int
  {
    v as int % 0x1_0000_0000
  }

  /** `x as i32`: keeps the low 32 bits as a two's-complement number. */
  function AsI32(x: int): (r: int)
    ensures -0x8000_0000 <= r < 0x8000_0000
    ensures (r - x) % 0x1_0000_0000 == 0
    ensures -0x8000_0000 <= x < 0x8000_0000 ==> r == x
  {
    (x + 0x8000_0000) % 0x1_0000_0000 - 0x8000_0000
  }
}
