/** Text primitives the application relies on: Python's `str.strip()` and the
    BINARY collation SQLite uses to compare `TEXT` values in `ORDER BY`. */
module Text {

  /** The characters for which Python's `str.isspace()` holds; these are the
      characters `str.strip()` removes when it is called without arguments. */
  predicate IsSpace(c: char) {
    var n := c as int;
    || (0x09 <= n <= 0x0D)
    || (0x1C <= n <= 0x20)
    || n == 0x85 || n == 0xA0 || n == 0x1680
    || (0x2000 <= n <= 0x200A)
    || n == 0x2028 || n == 0x2029 || n == 0x202F || n == 0x205F || n == 0x3000
  }

  predicate AllSpace(s: string) {
    forall k :: 0 <= k < |s| ==> IsSpace(s[k])
  }

  /** True when `s` neither starts nor ends with whitespace. */
  predicate IsStripped(s: string) {
    s == [] || (!IsSpace(s[0]) && !IsSpace(s[|s| - 1]))
  }

  /** Python `s.lstrip()`: the longest suffix of `s` that does not start with whitespace. */
  function TrimStart(s: string): (r: string)
    ensures |r| <= |s| && r == s[|s| - |r|..]
    ensures AllSpace(s[..|s| - |r|])
    ensures r == [] || !IsSpace(r[0])
  {
    if s != [] && IsSpace(s[0]) then
      var r := TrimStart(s[1..]);
      assert s[..|s| - |r|] == [s[0]] + s[1..][..|s| - 1 - |r|];
      r
    else
      s
  }

  /** Python `s.rstrip()`: the longest prefix of `s` that does not end with whitespace. */
  function TrimEnd(s: string): (r: string)
    ensures |r| <= |s| && r == s[..|r|]
    ensures AllSpace(s[|r|..])
    ensures r == [] || !IsSpace(r[|r| - 1])
  {
    if s != [] && IsSpace(s[|s| - 1]) then
      var r := TrimEnd(s[..|s| - 1]);
      assert s[|r|..] == s[..|s| - 1][|r|..] + [s[|s| - 1]];
      r
    else
      s
  }

  /** Python `s.strip()`: `s` with leading and trailing whitespace removed. */
  function Strip(s: string): (r: string)
    ensures IsStripped(r)
    ensures r == [] <==> AllSpace(s)
  {
    var t := TrimStart(s);
    var r := TrimEnd(t);
    assert r == [] ==> s == s[..|s| - |t|] + t;
    r
  }

  /** `r` is the slice of `s` starting at `i`, with only whitespace before
      and after it. */
  predicate SpaceAround(s: string, r: string, i: int) {
    0 <= i <= |s| - |r| && r == s[i..i + |r|] && AllSpace(s[..i]) && AllSpace(s[i + |r|..])
  }

  /** Whitespace cut from the front of `s` and then from the back of the
      rest leaves a slice of `s` with whitespace around it. */
  lemma SpaceAroundOf(s: string, t: string, r: string, i: nat)
    requires i <= |s| && t == s[i..] && AllSpace(s[..i])
    requires |r| <= |t| && r == t[..|r|] && AllSpace(t[|r|..])
    ensures SpaceAround(s, r, i)
  {
    assert s[i + |r|..] == t[|r|..];
  }

  /** The slice `Strip` keeps starts where `TrimStart` stops. */
  lemma StripSlice(s: string)
    ensures SpaceAround(s, Strip(s), |s| - |TrimStart(s)|)
  {
    var t := TrimStart(s);
    var r := TrimEnd(t);
    var i := |s| - |t|;
    assert Strip(s) == r;
    SpaceAroundOf(s, t, r, i);
  }

  /** What `Strip` removes is whitespace at either end, and nothing else. */
  lemma StripIsSlice(s: string)
    ensures exists i :: SpaceAround(s, Strip(s), i)
  {
    StripSlice(s);
  }

  /** Stripping a string that has no surrounding whitespace changes nothing. */
  lemma StripOfStripped(s: string)
    requires IsStripped(s)
    ensures Strip(s) == s
  {
    if s != [] {
      assert TrimStart(s) == s;
    }
  }

  lemma StripIdempotent(s: string)
    ensures Strip(Strip(s)) == Strip(s)
  {
    StripOfStripped(Strip(s));
  }

  lemma {:induction false} TrimStartAfterSpaces(pre: string, s: string)
    requires AllSpace(pre) && (s == [] || !IsSpace(s[0]))
    ensures TrimStart(pre + s) == s
  {
    if pre != [] {
      assert (pre + s)[1..] == pre[1..] + s;
      TrimStartAfterSpaces(pre[1..], s);
    }
  }

  lemma {:induction false} TrimEndBeforeSpaces(s: string, post: string)
    requires AllSpace(post) && (s == [] || !IsSpace(s[|s| - 1]))
    ensures TrimEnd(s + post) == s
  {
    if post != [] {
      var n := |post| - 1;
      assert (s + post)[..|s| + n] == s + post[..n];
      TrimEndBeforeSpaces(s, post[..n]);
    }
  }

  /** Whitespace around a stripped string is exactly what `Strip` removes. */
  lemma StripPadded(pre: string, s: string, post: string)
    requires AllSpace(pre) && AllSpace(post) && IsStripped(s)
    ensures Strip(pre + s + post) == s
  {
    assert pre + s + post == pre + (s + post);
    if s == [] {
      assert AllSpace(pre + s + post);
    } else {
      assert (s + post)[0] == s[0];
      TrimStartAfterSpaces(pre, s + post);
      TrimEndBeforeSpaces(s, post);
    }
  }

  /** SQLite's BINARY collation: `a` sorts strictly before `b`. Comparing
      Unicode scalar values one by one gives the same order as SQLite's
      `memcmp` of the UTF-8 encodings, a proper prefix sorting first. */
  predicate LexLess(a: string, b: string) {
    if a == [] then b != []
    else if b == [] then false
    else if a[0] != b[0] then a[0] < b[0]
    else LexLess(a[1..], b[1..])
  }

  lemma {:induction false} LexLessIrreflexive(a: string)
    ensures !LexLess(a, a)
  {
    if a != [] {
      LexLessIrreflexive(a[1..]);
    }
  }

  lemma {:induction false} LexLessTransitive(a: string, b: string, c: string)
    requires LexLess(a, b) && LexLess(b, c)
    ensures LexLess(a, c)
  {
    if a != [] && b != [] && c != [] && a[0] == b[0] == c[0] {
      LexLessTransitive(a[1..], b[1..], c[1..]);
    }
  }

  /** Any two different strings are ordered one way or the other. */
  lemma {:induction false} LexLessTotal(a: string, b: string)
    requires a != b
    ensures LexLess(a, b) || LexLess(b, a)
  {
    if a != [] && b != [] && a[0] == b[0] {
      assert a == [a[0]] + a[1..] && b == [b[0]] + b[1..];
      LexLessTotal(a[1..], b[1..]);
    }
  }

  /** Strings that share a prefix of equal length compare by the prefixes
      first and by the rest only when the prefixes agree. */
  lemma {:induction false} LexLessConcat(p: string, q: string, p': string, q': string)
    requires |p| == |p'|
    ensures LexLess(p + q, p' + q') <==> LexLess(p, p') || (p == p' && LexLess(q, q'))
  {
    if p == [] {
      assert p + q == q && p' + q' == q';
    } else {
      var a, b := p + q, p' + q';
      assert a != [] && b != [] && a[0] == p[0] && b[0] == p'[0];
      assert a[1..] == p[1..] + q && b[1..] == p'[1..] + q';
      LexLessConcat(p[1..], q, p'[1..], q');
      if p[0] == p'[0] {
        assert p == p' <==> p[1..] == p'[1..] by {
          assert p == [p[0]] + p[1..] && p' == [p'[0]] + p'[1..];
        }
      }
    }
  }
}
