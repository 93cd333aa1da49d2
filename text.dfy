/**
  The Python string operations the form-to-manifest layer relies on, on `string`
  (`seq<char>`): `str.strip()`, `str.split(c)`, `sep.join(xs)`, `sub in s`,
  `str.endswith`, `str.startswith` and `os.path.basename`.
 */
module Text {

  /** The characters Python's `str.isspace()` accepts, i.e. those `str.strip()` removes. */
  predicate IsSpace(c: char)
  {
    || c == ' '
    || ('\t' <= c <= '\r')
    || ('\U{1c}' <= c <= '\U{1f}')
    || c == '\U{85}' || c == '\U{a0}' || c == '\U{1680}'
    || ('\U{2000}' <= c <= '\U{200a}')
    || c == '\U{2028}' || c == '\U{2029}' || c == '\U{202f}' || c == '\U{205f}' || c == '\U{3000}'
  }

  /** `s.lstrip()`: the suffix left after the leading whitespace. */
  function TrimLeft(s: string): (r: string)
    ensures |r| <= |s|
    ensures forall k :: 0 <= k < |s| - |r| ==> IsSpace(s[k])
    ensures r == [] || !IsSpace(r[0])
  {
    if s != [] && IsSpace(s[0]) then TrimLeft(s[1..]) else s
  }

  /** What `lstrip()` leaves is a suffix of its input. */
  lemma {:induction false} TrimLeftSuffix(s: string)
    ensures TrimLeft(s) == s[|s| - |TrimLeft(s)|..]
  {
    if s != [] && IsSpace(s[0]) {
      TrimLeftSuffix(s[1..]);
    }
  }

  /** `s.rstrip()`: the prefix left before the trailing whitespace. */
  function TrimRight(s: string): (r: string)
    ensures |r| <= |s|
    ensures forall k :: |r| <= k < |s| ==> IsSpace(s[k])
    ensures r == [] || !IsSpace(r[|r| - 1])
  {
    if s != [] && IsSpace(s[|s| - 1]) then TrimRight(s[..|s| - 1]) else s
  }

  /** What `rstrip()` leaves is a prefix of its input. */
  lemma {:induction false} TrimRightPrefix(s: string)
    ensures TrimRight(s) == s[..|TrimRight(s)|]
  {
    if s != [] && IsSpace(s[|s| - 1]) {
      TrimRightPrefix(s[..|s| - 1]);
    }
  }

  /** `s.strip()`. */
  function Strip(s: string): (r: string)
    ensures |r| <= |s|
    ensures r == [] || (!IsSpace(r[0]) && !IsSpace(r[|r| - 1]))
  {
    TrimRightPrefix(TrimLeft(s));
    TrimRight(TrimLeft(s))
  }

  /** A string that `strip()` leaves as it is. */
  predicate Stripped(s: string)
  {
    s == [] || (!IsSpace(s[0]) && !IsSpace(s[|s| - 1]))
  }

  lemma StripStripped(s: string)
    requires Stripped(s)
    ensures Strip(s) == s
  {
  }

  /** `strip()` gives the empty string exactly for all-whitespace input. */
  lemma StripEmpty(s: string)
    ensures Strip(s) == [] <==> forall k :: 0 <= k < |s| ==> IsSpace(s[k])
  {
    var l := TrimLeft(s);
    TrimLeftSuffix(s);
    if l != [] {
      assert !IsSpace(s[|s| - |l|]);
    }
  }

  /** `sep.join(xs)`. */
  function Join(xs: seq<string>, sep: string): string
  {
    if |xs| == 0 then ""
    else if |xs| == 1 then xs[0]
    else xs[0] + sep + Join(xs[1..], sep)
  }

  /**
    `s.split(c)` for a one-character separator: the pieces between the
    occurrences of `c`; there is always at least one piece, and joining the
    pieces with `c` gives `s` back.
   */
  function Split(s: string, c: char): (r: seq<string>)
    ensures |r| >= 1
    ensures forall k :: 0 <= k < |r| ==> c !in r[k]
    ensures Join(r, [c]) == s
  {
    if s == [] then [""]
    else
      var rest := Split(s[1..], c);
      if s[0] == c then
        [""] + rest
      else
        assert |rest| > 1 ==> Join(rest, [c]) == rest[0] + [c] + Join(rest[1..], [c]);
        [[s[0]] + rest[0]] + rest[1..]
  }

  /** Splitting undoes joining when no piece holds the separator. */
  lemma {:induction false} SplitJoin(xs: seq<string>, c: char)
    requires |xs| >= 1
    requires forall k :: 0 <= k < |xs| ==> c !in xs[k]
    ensures Split(Join(xs, [c]), c) == xs
  {
    if |xs| == 1 {
      SplitNoSeparator(xs[0], c);
    } else {
      SplitJoin(xs[1..], c);
      SplitAfterPiece(xs[0], Join(xs[1..], [c]), c);
      assert xs == [xs[0]] + xs[1..];
    }
  }

  lemma {:induction false} SplitNoSeparator(s: string, c: char)
    requires c !in s
    ensures Split(s, c) == [s]
  {
    if s != [] {
      SplitNoSeparator(s[1..], c);
      assert s == [s[0]] + s[1..];
    }
  }

  lemma {:induction false} SplitAfterPiece(a: string, b: string, c: char)
    requires c !in a
    ensures Split(a + [c] + b, c) == [a] + Split(b, c)
  {
    if a == [] {
      assert ([] + [c] + b)[1..] == b;
    } else {
      SplitAfterPiece(a[1..], b, c);
      assert (a + [c] + b)[1..] == a[1..] + [c] + b;
      assert a == [a[0]] + a[1..];
    }
  }

  /** Appending a non-separator character extends the last piece only. */
  lemma {:induction false} SplitSnoc(s: string, x: char, c: char)
    requires x != c
    ensures var p, q := Split(s, c), Split(s + [x], c);
      |q| == |p| && q[..|p| - 1] == p[..|p| - 1] && q[|p| - 1] == p[|p| - 1] + [x]
  {
    if s == [] {
      assert Split([x], c) == [[x] + Split([], c)[0]] + Split([], c)[1..];
    } else {
      SplitSnoc(s[1..], x, c);
      assert (s + [x])[1..] == s[1..] + [x];
      var p, q := Split(s, c), Split(s + [x], c);
      var p', q' := Split(s[1..], c), Split(s[1..] + [x], c);
      if s[0] == c {
        assert p == [""] + p' && q == [""] + q';
        assert q[..|p| - 1] == [""] + q'[..|p'| - 1];
      } else {
        assert p == [[s[0]] + p'[0]] + p'[1..] && q == [[s[0]] + q'[0]] + q'[1..];
        if |p'| == 1 {
          assert q[..|p| - 1] == [] == p[..|p| - 1];
        } else {
          assert q[..|p| - 1] == [[s[0]] + q'[0]] + q'[1..|p'| - 1];
          assert p[..|p| - 1] == [[s[0]] + p'[0]] + p'[1..|p'| - 1];
          assert q'[..|p'| - 1] == p'[..|p'| - 1];
          assert q'[0] == p'[0] && q'[1..|p'| - 1] == p'[1..|p'| - 1];
        }
      }
    }
  }

  /** Python's `sub in s`. */
  predicate Contains(s: string, sub: string)
    decreases |s|
  {
    |sub| <= |s| && (s[..|sub|] == sub || Contains(s[1..], sub))
  }

  lemma ContainsAt(s: string, sub: string, i: nat)
    requires i + |sub| <= |s| && s[i..i + |sub|] == sub
    ensures Contains(s, sub)
  {
    assert s == s[..i] + s[i..];
    assert Contains(s[i..], sub);
    ContainsAppendRight(s[..i], s[i..], sub);
  }

  lemma {:induction false} ContainsAppendLeft(a: string, b: string, sub: string)
    requires Contains(a, sub)
    ensures Contains(a + b, sub)
    decreases |a|
  {
    if a[..|sub|] != sub {
      ContainsAppendLeft(a[1..], b, sub);
      assert (a + b)[1..] == a[1..] + b;
    } else {
      assert (a + b)[..|sub|] == a[..|sub|];
    }
  }

  lemma {:induction false} ContainsAppendRight(a: string, b: string, sub: string)
    requires Contains(b, sub)
    ensures Contains(a + b, sub)
    decreases |a|
  {
    if a != [] {
      ContainsAppendRight(a[1..], b, sub);
      assert (a + b)[1..] == a[1..] + b;
    } else {
      assert a + b == b;
    }
  }

  /** Every character of a contained string occurs in the containing one. */
  lemma {:induction false} ContainsChar(s: string, sub: string, x: char)
    requires Contains(s, sub) && x in sub
    ensures x in s
    decreases |s|
  {
    if s[..|sub|] != sub {
      ContainsChar(s[1..], sub, x);
    }
  }

  /** A match that does not hold the separator lies on one side of it. */
  lemma {:induction false} ContainsAround(x: string, c: char, y: string, sub: string)
    requires Contains(x + [c] + y, sub) && c !in sub
    ensures Contains(x, sub) || Contains(y, sub)
    decreases |x|
  {
    var s := x + [c] + y;
    assert |x| < |sub| ==> s[..|sub|][|x|] == c;
    if s[..|sub|] == sub {
      assert |sub| <= |x|;
      assert x[..|sub|] == s[..|sub|];
    } else if x == [] {
      assert s[1..] == y;
    } else {
      assert s[1..] == x[1..] + [c] + y;
      ContainsAround(x[1..], c, y, sub);
    }
  }

  /** A non-empty match in `sep.join(xs)` that avoids the separator lies within one element. */
  lemma {:induction false} ContainsInJoined(xs: seq<string>, c: char, sub: string)
    requires |sub| > 0 && c !in sub
    requires Contains(Join(xs, [c]), sub)
    ensures exists k :: 0 <= k < |xs| && Contains(xs[k], sub)
  {
    if |xs| == 0 {
    } else if |xs| == 1 {
      assert Contains(xs[0], sub);
    } else {
      ContainsAround(xs[0], c, Join(xs[1..], [c]), sub);
      if !Contains(xs[0], sub) {
        ContainsInJoined(xs[1..], c, sub);
        var k :| 0 <= k < |xs[1..]| && Contains(xs[1..][k], sub);
        assert Contains(xs[k + 1], sub);
      }
    }
  }

  /** What one element contains, the joined string contains. */
  lemma {:induction false} JoinedContains(xs: seq<string>, sep: string, k: nat, sub: string)
    requires k < |xs| && Contains(xs[k], sub)
    ensures Contains(Join(xs, sep), sub)
  {
    if |xs| > 1 {
      if k == 0 {
        ContainsAppendLeft(xs[0], sep + Join(xs[1..], sep), sub);
        assert xs[0] + sep + Join(xs[1..], sep) == xs[0] + (sep + Join(xs[1..], sep));
      } else {
        JoinedContains(xs[1..], sep, k - 1, sub);
        ContainsAppendRight(xs[0] + sep, Join(xs[1..], sep), sub);
      }
    }
  }

  /** `s.startswith(pre)`. */
  predicate StartsWith(s: string, pre: string)
  {
    |pre| <= |s| && s[..|pre|] == pre
  }

  /** `s.endswith(suf)`. */
  predicate EndsWith(s: string, suf: string)
  {
    |suf| <= |s| && s[|s| - |suf|..] == suf
  }

  /** `os.path.basename(p)` on POSIX: what follows the last `/`. */
  function Basename(p: string): (r: string)
    ensures EndsWith(p, r)
    ensures '/' !in r
    ensures r == p || p[|p| - |r| - 1] == '/'
  {
    if p == [] || p[|p| - 1] == '/' then ""
    else
      var r' := Basename(p[..|p| - 1]);
      assert p[..|p| - 1][|p| - 1 - |r'|..] == p[|p| - 1 - |r'|..|p| - 1];
      r' + [p[|p| - 1]]
  }
}
