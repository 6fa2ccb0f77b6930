/** Sixty-four-bit counters that saturate instead of wrapping. */
module Counters {
  const U64_MAX := 0xffff_ffff_ffff_ffff

  function SaturatingAdd(a: nat, b: nat): nat {
    if a + b > U64_MAX then U64_MAX else a + b
  }
}
