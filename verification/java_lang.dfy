/** The few pieces of the Java platform the registry relies on: 32-bit `int`,
    `Integer.compare`, truncating integer division, and
    `String.compareToIgnoreCase` restricted to an ASCII case fold. */
module JavaLang {

  const MIN_INT: int := -0x8000_0000
  const MAX_INT: int := 0x7fff_ffff

  /** Java's `int`. */
  type int32 = x: int | MIN_INT <= x <= MAX_INT

  datatype Option<+T> = None | Some(value: T)

  /** `Integer.compare(x, y)`: -1, 0 or 1 as x is below, equal to or above y. */
  function CompareInt(x: int, y: int): (r: int)
    ensures -1 <= r <= 1
    ensures r < 0 <==> x < y
    ensures r > 0 <==> y < x
  {
    if x < y then -1 else if x == y then 0 else 1
  }

  /** Java's `/` on positive divisors: the quotient is truncated toward zero,
      so the remainder takes the sign of the dividend. */
  function JavaDiv(a: int, b: int): (q: int)
    requires b > 0
    ensures a >= 0 ==> 0 <= a - q * b < b
    ensures a < 0 ==> -b < a - q * b <= 0
  {
    if a >= 0 then a / b else -((-a) / b)
  }

  /** One character through `Character.toUpperCase` then `Character.toLowerCase`,
      restricted to ASCII letters. */
  function FoldChar(c: char): char {
    if 'A' <= c <= 'Z' then (c as int + 32) as char else c
  }

  /** A string with every character case-folded. */
  function Folded(s: string): (f: string)
    ensures |f| == |s|
  {
    if s == [] then [] else [FoldChar(s[0])] + Folded(s[1..])
  }

  /** `s.compareToIgnoreCase(t)`: the difference of the first pair of folded
      characters that differ, otherwise the difference of the lengths. */
  function CompareIgnoreCase(s: string, t: string): int {
    if s == [] || t == [] then |s| - |t|
    else if FoldChar(s[0]) != FoldChar(t[0]) then FoldChar(s[0]) as int - FoldChar(t[0]) as int
    else CompareIgnoreCase(s[1..], t[1..])
  }

  /** Swapping the arguments negates the result. */
  lemma {:induction false} CompareIgnoreCaseSwap(s: string, t: string)
    ensures CompareIgnoreCase(t, s) == -CompareIgnoreCase(s, t)
  {
    if s != [] && t != [] && FoldChar(s[0]) == FoldChar(t[0]) {
      CompareIgnoreCaseSwap(s[1..], t[1..]);
    }
  }

  /** The comparison is zero exactly when the two strings agree up to case. */
  lemma {:induction false} CompareIgnoreCaseZero(s: string, t: string)
    ensures CompareIgnoreCase(s, t) == 0 <==> Folded(s) == Folded(t)
  {
    if s == [] || t == [] {
    } else if FoldChar(s[0]) != FoldChar(t[0]) {
      assert Folded(s)[0] != Folded(t)[0];
    } else {
      CompareIgnoreCaseZero(s[1..], t[1..]);
      assert Folded(s) == [FoldChar(s[0])] + Folded(s[1..]);
      assert Folded(t) == [FoldChar(t[0])] + Folded(t[1..]);
      if Folded(s) == Folded(t) {
        assert Folded(s)[1..] == Folded(s[1..]);
        assert Folded(t)[1..] == Folded(t[1..]);
      }
    }
  }

  /** Strings that agree up to case compare alike against any third string. */
  lemma {:induction false} CompareIgnoreCaseCongruent(s: string, s': string, t: string)
    requires Folded(s) == Folded(s')
    ensures CompareIgnoreCase(s, t) == CompareIgnoreCase(s', t)
  {
    if s != [] && t != [] {
      assert Folded(s)[0] == Folded(s')[0];
      assert Folded(s)[1..] == Folded(s[1..]);
      assert Folded(s')[1..] == Folded(s'[1..]);
      CompareIgnoreCaseCongruent(s[1..], s'[1..], t[1..]);
    }
  }

  /** "Below, ignoring case" is transitive. */
  lemma {:induction false} CompareIgnoreCaseTransitive(s: string, t: string, u: string)
    requires CompareIgnoreCase(s, t) < 0 && CompareIgnoreCase(t, u) < 0
    ensures CompareIgnoreCase(s, u) < 0
  {
    if s != [] && t != [] && u != [] {
      if FoldChar(s[0]) == FoldChar(t[0]) && FoldChar(t[0]) == FoldChar(u[0]) {
        CompareIgnoreCaseTransitive(s[1..], t[1..], u[1..]);
      }
    }
  }
}
