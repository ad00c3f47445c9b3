/** The 64-bit integers of the platform. */
module MachineIntegers {
  const TWO_63: int := 0x8000_0000_0000_0000
  const TWO_64: int := 0x1_0000_0000_0000_0000

  type NSInteger = x: int | -TWO_63 <= x < TWO_63
  type NSUInteger = x: int | 0 <= x < TWO_64 witness 0

  function AsUnsigned(x: int): NSUInteger {
    x % TWO_64
  }

  function AsSigned(x: int): NSInteger {
    var u := x % TWO_64;
    if u < TWO_63 then u else u - TWO_64
  }

  /** The ABS macro: negation wraps, so the least integer is its own absolute value. */
  function Abs(x: NSInteger): NSInteger {
    if x < 0 then AsSigned(-(x as int)) else x
  }
}
