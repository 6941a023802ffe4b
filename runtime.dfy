/** Optional values, used for parse results and for the record a send emits. */
module Optional {
  datatype Option<+T> = None | Some(value: T)
}

/**
 * The pieces of the Arduino runtime that the fusion code relies on, stated as
 * values: the 32-bit `unsigned long` that `millis()` returns and the wrapping
 * subtraction on it, the `String` operations `startsWith` and `substring`,
 * and the numeric library calls (`String::toDouble`, `String::toInt`, `cos`,
 * `sin`), which the model keeps uninterpreted by passing them in.
 */
module ArduinoRuntime {

  const TwoTo32: int := 0x1_0000_0000
  const TwoTo64: int := 0x1_0000_0000_0000_0000

  /** An Arduino `unsigned long` / `uint32_t`. */
  type U32 = x: int | 0 <= x < 0x1_0000_0000

  /** `M_PI` from the C maths library. */
  const Pi: real := 3.14159265358979323846

  /**
   * The library conversions the parser calls. Nothing is assumed about them:
   * every property of the model holds for every choice of these four functions.
   */
  datatype Numerics = Numerics(
    toDouble: string -> real,
    toInt: string -> int,
    cos: real -> real,
    sin: real -> real)

  /** `a - b` on `unsigned long`: the difference modulo 2^32. */
  function WrappingSub(a: U32, b: U32): (r: U32)
    ensures (b + r) % TwoTo32 == a
    ensures b <= a ==> r == a - b
    ensures a < b ==> r == a - b + TwoTo32
  {
    (a - b) % TwoTo32
  }

  /**
   * Elapsed time measured by wrapping subtraction is the true delay `d` as long
   * as the delay is shorter than one full turn of the 32-bit clock, even when
   * the clock rolled over in between.
   */
  lemma ElapsedAcrossRollover(t: U32, d: nat)
    requires d < TwoTo32
    ensures WrappingSub((t + d) % TwoTo32, t) == d
  {
    if t + d >= TwoTo32 {
      assert (t + d) % TwoTo32 == t + d - TwoTo32;
    }
  }

  /** Arduino `String::startsWith`: false when the prefix is longer than the string. */
  function StartsWith(s: string, prefix: string): (b: bool)
    ensures b <==> |prefix| <= |s| && s[..|prefix|] == prefix
  {
    prefix <= s
  }

  /**
   * Arduino `String::substring(left, right)`: the bounds are swapped when
   * `left > right`, an empty string results when the (smaller) left bound is at
   * or past the end, and the right bound is clamped to the length.
   */
  function Substring(s: string, left: nat, right: nat): (r: string)
    ensures |r| <= |s|
    ensures left <= right <= |s| ==> r == s[left..right]
    ensures right < left <= |s| ==> r == s[right..left]
    ensures left >= |s| && right >= |s| ==> r == ""
    ensures left <= |s| <= right ==> r == s[left..]
    ensures right <= |s| <= left ==> r == s[right..]
  {
    var lo := if left <= right then left else right;
    var hi := if left <= right then right else left;
    if lo >= |s| then "" else s[lo..if hi <= |s| then hi else |s|]
  }
}
