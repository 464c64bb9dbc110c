/**
 * The handful of Python string operations the troubleshooting server relies
 * on, written out over `seq<char>`: `str.isspace`, `str.strip`, ASCII
 * `str.lower`, `str.startswith`, `in`, `str.split('\n')`, `str.join` and the
 * decimal rendering of an `int` inside an f-string.
 */
module Text {

  // ---------------------------------------------------------------------
  // Whitespace and strip()
  // ---------------------------------------------------------------------

  /** The characters Python's `str.isspace` accepts, i.e. those `str.strip()` removes. */
  predicate IsSpace(c: char) {
    || c == ' ' || c == '\t' || c == '\n' || c == '\r'
    || c == '\U{B}' || c == '\U{C}'
    || ('\U{1C}' <= c <= '\U{1F}')
    || c == '\U{85}' || c == '\U{A0}' || c == '\U{1680}'
    || ('\U{2000}' <= c <= '\U{200A}')
    || c == '\U{2028}' || c == '\U{2029}' || c == '\U{202F}' || c == '\U{205F}' || c == '\U{3000}'
  }

  /** Every character is whitespace (Python: `not s.strip()`). */
  predicate IsBlank(s: string) {
    forall i :: 0 <= i < |s| ==> IsSpace(s[i])
  }

  /** Number of leading whitespace characters. */
  function LeadingSpaces(s: string): (n: nat)
    ensures n <= |s|
    ensures IsBlank(s[..n])
    ensures n < |s| ==> !IsSpace(s[n])
  {
    if s != [] && IsSpace(s[0]) then
      var n := 1 + LeadingSpaces(s[1..]);
      assert s[..n] == [s[0]] + s[1..][..n - 1];
      n
    else 0
  }

  /** Python `s.rstrip()`. */
  function TrimRight(s: string): (r: string)
    ensures |r| <= |s| && r == s[..|r|]
    ensures IsBlank(s[|r|..])
    ensures r == [] || !IsSpace(r[|r| - 1])
  {
    if s != [] && IsSpace(s[|s| - 1]) then
      var r := TrimRight(s[..|s| - 1]);
      assert s[|r|..] == s[..|s| - 1][|r|..] + [s[|s| - 1]];
      r
    else s
  }

  /**
   * Python `s.strip()`: what is left after removing whitespace from both
   * ends; `StripSpec` says where in `s` it lies.
   */
  function Strip(s: string): (r: string)
    ensures |r| <= |s|
    ensures r == [] || (!IsSpace(r[0]) && !IsSpace(r[|r| - 1]))
  {
    TrimRight(s[LeadingSpaces(s)..])
  }

  /**
   * strip() keeps the contiguous piece of `s` between a blank prefix and a
   * blank suffix, and is empty exactly when `s` is blank.
   */
  lemma StripSpec(s: string)
    ensures LeadingSpaces(s) + |Strip(s)| <= |s|
    ensures Strip(s) == s[LeadingSpaces(s)..LeadingSpaces(s) + |Strip(s)|]
    ensures IsBlank(s[..LeadingSpaces(s)]) && IsBlank(s[LeadingSpaces(s) + |Strip(s)|..])
    ensures Strip(s) == [] <==> IsBlank(s)
  {
    var n := LeadingSpaces(s);
    var r := Strip(s);
    var e := n + |r|;
    StripSlice(s, n, r, e);
    StripEmpty(s, n, r, e);
  }

  lemma StripSlice(s: string, n: nat, r: string, e: nat)
    requires n == LeadingSpaces(s) && r == Strip(s) && e == n + |r|
    ensures e <= |s| && r == s[n..e] && IsBlank(s[e..])
  {
    var t := s[n..];
    assert r == TrimRight(t);
    SuffixSlices(s, n, |r|, e);
  }

  /** Cutting the suffix `s[n..]` at `k` cuts `s` at `n` and `e`, that is `n + k`. */
  lemma SuffixSlices(s: string, n: nat, k: nat, e: nat)
    requires n + k <= |s| && e == n + k
    ensures s[n..][..k] == s[n..e] && s[n..][k..] == s[e..]
  {
  }

  lemma StripEmpty(s: string, n: nat, r: string, e: nat)
    requires n == LeadingSpaces(s) && r == Strip(s) && e == n + |r|
    requires e <= |s| && r == s[n..e] && IsBlank(s[e..])
    ensures r == [] <==> IsBlank(s)
  {
    BlankSplit(s, n);
    if r != [] {
      assert r[0] == s[n];
    } else {
      assert s[n..] == s[e..];
    }
  }

  lemma BlankSplit(s: string, n: nat)
    requires n <= |s|
    ensures IsBlank(s) <==> IsBlank(s[..n]) && IsBlank(s[n..])
  {
    if IsBlank(s[..n]) && IsBlank(s[n..]) {
      forall i | 0 <= i < |s| ensures IsSpace(s[i]) {
        if i < n {
          assert s[..n][i] == s[i];
        } else {
          assert s[n..][i - n] == s[i];
        }
      }
    }
  }

  /** A string without whitespace at either end is its own strip(). */
  lemma StripNoEdges(s: string)
    requires s == [] || (!IsSpace(s[0]) && !IsSpace(s[|s| - 1]))
    ensures Strip(s) == s
  {
    assert LeadingSpaces(s) == 0;
    if s != [] {
      assert s[..|s|] == s;
    }
  }

  /** strip() is idempotent. */
  lemma StripIdempotent(s: string)
    ensures Strip(Strip(s)) == Strip(s)
  {
    StripNoEdges(Strip(s));
  }

  // ---------------------------------------------------------------------
  // ASCII lower()
  // ---------------------------------------------------------------------

  /** Lower-case an ASCII capital; every other character is unchanged. */
  function LowerChar(c: char): (r: char)
    ensures !('A' <= r <= 'Z')
    ensures 'A' <= c <= 'Z' ==> 'a' <= r <= 'z'
    ensures !('A' <= c <= 'Z') ==> r == c
  {
    if 'A' <= c <= 'Z' then (c as int + 32) as char else c
  }

  /** Python `s.lower()`, restricted to ASCII letters. */
  function Lower(s: string): (r: string)
    ensures |r| == |s|
    ensures forall i :: 0 <= i < |r| ==> !('A' <= r[i] <= 'Z')
    ensures forall i :: 0 <= i < |s| && !('A' <= s[i] <= 'Z') ==> r[i] == s[i]
  {
    seq(|s|, i requires 0 <= i < |s| => LowerChar(s[i]))
  }

  /** Lowering keeps whitespace as whitespace and non-whitespace as non-whitespace. */
  lemma LowerCharSpace(c: char)
    ensures IsSpace(LowerChar(c)) == IsSpace(c)
  {
  }

  /** Each character of the lowered text is its own character lowered. */
  lemma LowerAt(s: string, i: nat)
    requires i < |s|
    ensures Lower(s)[i] == LowerChar(s[i])
  {
  }

  /** Lowering commutes with slicing. */
  lemma LowerSlice(s: string, i: nat, j: nat)
    requires i <= j <= |s|
    ensures Lower(s[i..j]) == Lower(s)[i..j]
  {
  }

  /** Lowering is idempotent. */
  lemma LowerIdempotent(s: string)
    ensures Lower(Lower(s)) == Lower(s)
  {
  }

  // ---------------------------------------------------------------------
  // startswith / in
  // ---------------------------------------------------------------------

  /** Python `s.startswith(p)`. */
  predicate StartsWith(s: string, p: string) {
    |p| <= |s| && s[..|p|] == p
  }

  /** `t` occurs in `s` starting at index `i`. */
  predicate OccursAt(s: string, t: string, i: nat) {
    i + |t| <= |s| && s[i..i + |t|] == t
  }

  /** Python `t in s`. */
  predicate Contains(s: string, t: string) {
    exists i :: 0 <= i <= |s| - |t| && OccursAt(s, t, i)
  }

  /** Concatenation regroups; stated once so that loops can cite it cheaply. */
  lemma Associative<T>(a: seq<T>, b: seq<T>, c: seq<T>)
    ensures (a + b) + c == a + (b + c)
  {
  }

  /** A suffix is the slice up to a cut followed by the suffix after it. */
  lemma ConsAt<T>(x: T, xs: seq<T>, k: nat, k1: nat)
    requires 0 < k <= |xs| && k1 == k - 1
    ensures ([x] + xs)[k] == xs[k1]
  {
  }

  lemma SliceSplit<T>(s: seq<T>, a: nat, b: nat)
    requires a <= b <= |s|
    ensures s[a..] == s[a..b] + s[b..]
  {
  }

  // ---------------------------------------------------------------------
  // split('\n') and join
  // ---------------------------------------------------------------------

  /** Python `s.split('\n')`: never empty, and no piece holds a newline. */
  function Lines(s: string): (r: seq<string>)
    ensures |r| >= 1
    ensures forall k :: 0 <= k < |r| ==> '\n' !in r[k]
    ensures |r| == 1 <==> '\n' !in s
  {
    if s == [] then [""]
    else if s[0] == '\n' then [""] + Lines(s[1..])
    else
      var rest := Lines(s[1..]);
      assert '\n' in s[1..] ==> '\n' in s;
      [[s[0]] + rest[0]] + rest[1..]
  }

  /** Python `sep.join(xs)`. */
  function Join(xs: seq<string>, sep: string): string
  {
    if |xs| == 0 then ""
    else if |xs| == 1 then xs[0]
    else xs[0] + sep + Join(xs[1..], sep)
  }

  /** Joining the lines of `s` with newlines gives back `s`. */
  lemma {:induction false} JoinLines(s: string)
    ensures Join(Lines(s), "\n") == s
  {
    if s == [] {
    } else if s[0] == '\n' {
      JoinLines(s[1..]);
      assert Lines(s)[1..] == Lines(s[1..]);
    } else {
      JoinLines(s[1..]);
      var rest := Lines(s[1..]);
      if |rest| > 1 {
        assert Lines(s)[1..] == rest[1..];
        assert Join(rest, "\n") == rest[0] + "\n" + Join(rest[1..], "\n");
      }
    }
  }

  /** Splitting a newline-join of newline-free pieces gives back the pieces. */
  lemma {:induction false} LinesJoin(xs: seq<string>)
    requires |xs| >= 1
    requires forall k :: 0 <= k < |xs| ==> '\n' !in xs[k]
    ensures Lines(Join(xs, "\n")) == xs
  {
    if |xs| == 1 {
      LinesNoNewline(xs[0]);
    } else {
      LinesJoin(xs[1..]);
      LinesCons(xs[0], Join(xs[1..], "\n"));
    }
  }

  lemma {:induction false} LinesNoNewline(s: string)
    requires '\n' !in s
    ensures Lines(s) == [s]
  {
    if s != [] {
      assert s[0] != '\n' && '\n' !in s[1..];
      LinesNoNewline(s[1..]);
      assert [s[0]] + s[1..] == s;
    }
  }

  lemma {:induction false} LinesCons(a: string, b: string)
    requires '\n' !in a
    ensures Lines(a + "\n" + b) == [a] + Lines(b)
  {
    if a == [] {
      assert a + "\n" + b == ['\n'] + b;
      assert (['\n'] + b)[1..] == b;
    } else {
      var x, a1 := a + "\n" + b, a[1..];
      assert a[0] != '\n' && '\n' !in a1;
      assert x[0] == a[0] && x[1..] == a1 + "\n" + b;
      LinesCons(a1, b);
      var rest := [a1] + Lines(b);
      LinesHead(x, rest);
      assert rest[0] == a1 && rest[1..] == Lines(b);
      assert [a[0]] + a1 == a;
    }
  }

  /** A line that does not start with a newline keeps its first character. */
  lemma LinesHead(x: string, rest: seq<string>)
    requires x != [] && x[0] != '\n' && rest == Lines(x[1..])
    ensures Lines(x) == [[x[0]] + rest[0]] + rest[1..]
  {
  }

  // ---------------------------------------------------------------------
  // Decimal numerals (f'{idx}')
  // ---------------------------------------------------------------------

  function DigitChar(d: nat): (c: char)
    requires d < 10
    ensures '0' <= c <= '9' && c as int - '0' as int == d
  {
    ('0' as int + d) as char
  }

  /** The decimal numeral of `n`, as `str(n)` prints it. */
  function NatToString(n: nat): (r: string)
    ensures |r| >= 1
    ensures forall i :: 0 <= i < |r| ==> '0' <= r[i] <= '9'
    ensures n >= 10 ==> r[0] != '0'
  {
    if n < 10 then [DigitChar(n)] else NatToString(n / 10) + [DigitChar(n % 10)]
  }

  /** The value of a string of decimal digits. */
  function DecimalValue(s: string): nat
    requires forall i :: 0 <= i < |s| ==> '0' <= s[i] <= '9'
  {
    if s == [] then 0
    else 10 * DecimalValue(s[..|s| - 1]) + (s[|s| - 1] as int - '0' as int)
  }

  /** Reading back the numeral gives the number: distinct numbers have distinct numerals. */
  lemma {:induction false} NatToStringRoundTrip(n: nat)
    ensures DecimalValue(NatToString(n)) == n
  {
    if n >= 10 {
      NatToStringRoundTrip(n / 10);
      var r := NatToString(n);
      assert r[..|r| - 1] == NatToString(n / 10);
    }
  }

  lemma NatToStringInjective(m: nat, n: nat)
    requires NatToString(m) == NatToString(n)
    ensures m == n
  {
    NatToStringRoundTrip(m);
    NatToStringRoundTrip(n);
  }
}
