/** The random helpers of the engine.  `Math.random()` is not modelled:
    every value it would return is a caller-supplied draw `u` with
    0 <= u < 1, and the helpers are the deterministic rules that turn such a
    draw into an integer or a letter. */
module Draws {

  /** A value `Math.random()` can return. */
  predicate IsDraw(u: real) {
    0.0 <= u < 1.0
  }

  /** A sequence of `n` draws. */
  predicate AllDraws(us: seq<real>, n: int) {
    |us| == n && forall i :: 0 <= i < |us| ==> IsDraw(us[i])
  }

  /** Every character is one of the 26 lowercase letters 'a'..'z'. */
  predicate Lowercase(s: seq<char>) {
    forall i :: 0 <= i < |s| ==> 'a' <= s[i] <= 'z'
  }

  /** `random(min, max)` for integer arguments (where `Math.ceil` and
      `Math.floor` leave them alone): `floor(u * (max - min)) + min`.
      The result lies in the half-open range [min, max). */
  function Random(min: int, max: int, u: real): (r: int)
    requires IsDraw(u)
    ensures min < max ==> min <= r < max
    ensures min == max ==> r == min
  {
    ScaledDrawFloor(max - min, u);
    (u * (max - min) as real).Floor + min
  }

  /** The floor of `u * n` is a valid index below `n`. */
  lemma ScaledDrawFloor(n: int, u: real)
    requires IsDraw(u)
    ensures n > 0 ==> 0 <= (u * n as real).Floor < n
    ensures n == 0 ==> (u * n as real).Floor == 0
  {
    if n > 0 {
      var x := u * n as real;
      assert 0.0 <= x by {
        assert 0.0 <= u && 0.0 < n as real;
      }
      assert x < n as real by {
        assert n as real - x == (1.0 - u) * n as real;
        assert 0.0 < (1.0 - u) * n as real;
      }
    }
  }

  /** `generateLetter()`: a character code drawn from [97, 123). */
  function GenerateLetter(u: real): (c: char)
    requires IsDraw(u)
    ensures 'a' <= c <= 'z'
  {
    Random(97, 123, u) as char
  }

  /** Letters built from draws are lowercase. */
  function Letters(us: seq<real>): (s: seq<char>)
    requires forall i :: 0 <= i < |us| ==> IsDraw(us[i])
    ensures |s| == |us| && Lowercase(s)
    ensures forall i :: 0 <= i < |us| ==> s[i] == GenerateLetter(us[i])
  {
    seq(|us|, i requires 0 <= i < |us| => GenerateLetter(us[i]))
  }
}
