/** The Java long. */
module JavaTypes {
  const MIN_LONG: int := -0x8000_0000_0000_0000
  const MAX_LONG: int := 0x7FFF_FFFF_FFFF_FFFF

  type Long = n: int | MIN_LONG <= n <= MAX_LONG
}
