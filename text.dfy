/** String helpers shared by the Python service and the Node gateway:
    optional values, ASCII lower-casing, last-occurrence search,
    unanchored substring search and decimal rendering of numbers. */
module Text {

  datatype Option<+T> = None | Some(value: T)

  /** Lower-cases an ASCII capital; every other character is kept.
      No non-ASCII character lower-cases to one of the letters the two
      services compare against, so ASCII lowering decides the same way. */
  function LowerChar(c: char): char
  {
    if 'A' <= c <= 'Z' then (c as int + 32) as char else c
  }

  function Lower(s: string): (r: string)
    ensures |r| == |s|
    ensures forall i :: 0 <= i < |s| ==> r[i] == LowerChar(s[i])
  {
    if s == [] then [] else [LowerChar(s[0])] + Lower(s[1..])
  }

  lemma LowerConcat(a: string, b: string)
    ensures Lower(a + b) == Lower(a) + Lower(b)
  {
    assert Lower(a + b) == Lower(a) + Lower(b) by {
      forall i | 0 <= i < |a + b|
        ensures Lower(a + b)[i] == (Lower(a) + Lower(b))[i]
      {
        if i < |a| { assert (a + b)[i] == a[i]; } else { assert (a + b)[i] == b[i - |a|]; }
      }
    }
  }

  lemma LowerSlice(s: string, k: nat)
    requires k <= |s|
    ensures Lower(s)[k..] == Lower(s[k..])
  {
  }

  lemma LowerIdempotent(s: string)
    ensures Lower(Lower(s)) == Lower(s)
  {
  }

  /** `k` is the position of the last '.' of `s`. */
  ghost predicate IsLastDot(s: string, k: int)
  {
    0 <= k < |s| && s[k] == '.' && forall i :: k < i < |s| ==> s[i] != '.'
  }

  /** A string has at most one last '.'. */
  lemma LastDotUnique(s: string, k: int, j: int)
    requires IsLastDot(s, k) && IsLastDot(s, j)
    ensures j == k
  {
    assert !(j < k) by { if k < |s| { assert s[k] == '.'; } }
    assert !(k < j) by { if j < |s| { assert s[j] == '.'; } }
  }

  /** Position of the last occurrence of `c` in `s`, if any. */
  function LastIndexOf(s: string, c: char): (r: Option<nat>)
    ensures r.Some? ==> r.value < |s| && s[r.value] == c && forall i :: r.value < i < |s| ==> s[i] != c
    ensures r.None? <==> c !in s
  {
    if s == [] then None
    else if s[|s| - 1] == c then Some(|s| - 1)
    else
      assert s == s[..|s| - 1] + [s[|s| - 1]];
      LastIndexOf(s[..|s| - 1], c)
  }

  /** In `stem + "." + ext` with no '.' in `ext`, the last '.' is the one
      joining the two parts. */
  lemma {:induction false} LastDotOfDottedName(stem: string, ext: string)
    requires '.' !in ext
    ensures LastIndexOf(stem + "." + ext, '.') == Some(|stem|)
    decreases |ext|
  {
    if ext != [] {
      var p := stem + "." + ext;
      var shorter := ext[..|ext| - 1];
      assert p[..|p| - 1] == stem + "." + shorter;
      assert p[|p| - 1] == ext[|ext| - 1];
      LastDotOfDottedName(stem, shorter);
    }
  }

  /** Position of the first occurrence of `c` in `s`, if any. */
  function IndexOf(s: string, c: char): (r: Option<nat>)
    ensures r.Some? ==> r.value < |s| && s[r.value] == c && c !in s[..r.value]
    ensures r.None? <==> c !in s
  {
    if s == [] then None
    else if s[0] == c then Some(0)
    else
      var r := IndexOf(s[1..], c);
      assert s == [s[0]] + s[1..];
      if r.Some? then
        assert s[..r.value + 1] == [s[0]] + s[1..][..r.value];
        Some(r.value + 1)
      else r
  }

  /** `t` occurs in `s` starting at position `i`. */
  ghost predicate OccursAt(t: string, s: string, i: int)
  {
    0 <= i && i + |t| <= |s| && s[i..i + |t|] == t
  }

  ghost predicate Occurs(t: string, s: string)
  {
    exists i :: OccursAt(t, s, i)
  }

  /** Dropping the first character shifts every occurrence one place left. */
  lemma OccursAtTail(t: string, s: string, i: int)
    requires |s| > 0 && i >= 0
    ensures OccursAt(t, s[1..], i) <==> OccursAt(t, s, i + 1)
  {
    if i + |t| <= |s| - 1 {
      assert s[1..][i..i + |t|] == s[i + 1..i + 1 + |t|];
    }
  }

  /** Unanchored search for `t` in `s`, as a regular expression made of
      the literal `t` alone finds it. */
  function Contains(s: string, t: string): (b: bool)
    ensures b <==> Occurs(t, s)
    decreases |s|
  {
    if |s| < |t| then false
    else if s[..|t|] == t then
      assert OccursAt(t, s, 0);
      true
    else
      var b := Contains(s[1..], t);
      assert !OccursAt(t, s, 0);
      assert Occurs(t, s) <==> Occurs(t, s[1..]) by {
        forall i | i >= 0 ensures OccursAt(t, s[1..], i) <==> OccursAt(t, s, i + 1) {
          OccursAtTail(t, s, i);
        }
        if Occurs(t, s) {
          var j :| OccursAt(t, s, j);
          assert OccursAt(t, s[1..], j - 1);
        }
      }
      b
  }

  predicate IsDigit(c: char)
  {
    '0' <= c <= '9'
  }

  function DigitChar(d: nat): (c: char)
    requires d < 10
    ensures IsDigit(c)
  {
    ('0' as int + d) as char
  }

  function DigitValue(c: char): nat
    requires IsDigit(c)
  {
    c as int - '0' as int
  }

  /** Decimal rendering of a non-negative integer, as a JavaScript template
      literal renders a whole number below 10^21. */
  function Decimal(n: nat): (s: string)
    ensures |s| >= 1
    ensures forall i :: 0 <= i < |s| ==> IsDigit(s[i])
    ensures n > 0 ==> s[0] != '0'
    decreases n
  {
    if n < 10 then [DigitChar(n)] else Decimal(n / 10) + [DigitChar(n % 10)]
  }

  function ParseDecimal(s: string): nat
    requires forall i :: 0 <= i < |s| ==> IsDigit(s[i])
  {
    if s == [] then 0 else 10 * ParseDecimal(s[..|s| - 1]) + DigitValue(s[|s| - 1])
  }

  /** Reading back a rendered number gives the number. */
  lemma {:induction false} ParseDecimalOfDecimal(n: nat)
    ensures ParseDecimal(Decimal(n)) == n
    decreases n
  {
    if n >= 10 {
      var s := Decimal(n);
      assert s[..|s| - 1] == Decimal(n / 10);
      ParseDecimalOfDecimal(n / 10);
    }
  }
}
