/**
 The two Python string operations the helper relies on: `str.strip()` with
 no argument, and `sep.join(parts)`.
 */
module Strings {

  /**
   Python's `str.isspace` for a single character, by code point: tab to
   carriage return, the four information separators and space, next line,
   no-break space, ogham space mark, the spaces from en quad to hair space,
   line and paragraph separators, narrow no-break space, medium mathematical
   space and ideographic space.
   */
  predicate IsSpace(c: char) {
    var n := c as int;
    || (0x09 <= n <= 0x0D) || (0x1C <= n <= 0x20) || n == 0x85 || n == 0xA0 || n == 0x1680
    || (0x2000 <= n <= 0x200A) || n == 0x2028 || n == 0x2029 || n == 0x202F || n == 0x205F || n == 0x3000
  }

  /** Every character of `s` is whitespace. */
  predicate AllSpace(s: string) {
    forall k :: 0 <= k < |s| ==> IsSpace(s[k])
  }

  /** Drops the leading whitespace: what remains is a suffix of `s`. */
  function TrimStart(s: string): (r: string)
    ensures |r| <= |s| && r == s[|s| - |r|..]
    ensures AllSpace(s[..|s| - |r|])
    ensures r == [] || !IsSpace(r[0])
  {
    if s != [] && IsSpace(s[0]) then
      var r := TrimStart(s[1..]);
      assert forall k :: 1 <= k < |s| - |r| ==> s[k] == s[1..][k - 1];
      r
    else
      s
  }

  /** Drops the trailing whitespace: what remains is a prefix of `s`. */
  function TrimEnd(s: string): (r: string)
    ensures |r| <= |s| && r == s[..|r|]
    ensures AllSpace(s[|r|..])
    ensures r == [] || !IsSpace(r[|r| - 1])
  {
    if s != [] && IsSpace(s[|s| - 1]) then
      var r := TrimEnd(s[..|s| - 1]);
      assert forall k :: |r| <= k < |s| - 1 ==> s[k] == s[..|s| - 1][k];
      r
    else
      s
  }

  /**
   Python's `s.strip()`: removes all leading and trailing whitespace, so the
   result neither starts nor ends with whitespace. StripSplit below shows that
   it is a contiguous piece of `s` and that only whitespace was removed.
   */
  function Strip(s: string): (r: string)
    ensures |r| <= |s|
    ensures r == [] || (!IsSpace(r[0]) && !IsSpace(r[|r| - 1]))
  {
    TrimEnd(TrimStart(s))
  }

  lemma {:induction false} TrimStartOf(lead: string, rest: string)
    requires AllSpace(lead)
    requires rest == [] || !IsSpace(rest[0])
    ensures TrimStart(lead + rest) == rest
    decreases |lead|
  {
    if lead != [] {
      assert (lead + rest)[1..] == lead[1..] + rest;
      TrimStartOf(lead[1..], rest);
    } else {
      assert lead + rest == rest;
    }
  }

  lemma {:induction false} TrimEndOf(body: string, trail: string)
    requires AllSpace(trail)
    requires body == [] || !IsSpace(body[|body| - 1])
    ensures TrimEnd(body + trail) == body
    decreases |trail|
  {
    if trail != [] {
      assert (body + trail)[..|body + trail| - 1] == body + trail[..|trail| - 1];
      TrimEndOf(body, trail[..|trail| - 1]);
    } else {
      assert body + trail == body;
    }
  }

  /**
   Reference characterisation of `strip`: whatever whitespace surrounds a
   text that neither starts nor ends with whitespace, stripping gives back
   exactly that text.
   */
  lemma StripOf(lead: string, t: string, trail: string)
    requires AllSpace(lead) && AllSpace(trail)
    requires t == [] || (!IsSpace(t[0]) && !IsSpace(t[|t| - 1]))
    ensures Strip(lead + t + trail) == t
  {
    if t == [] {
      assert lead + t + trail == (lead + trail) + [];
      TrimStartOf(lead + trail, []);
    } else {
      assert lead + t + trail == lead + (t + trail);
      TrimStartOf(lead, t + trail);
      TrimEndOf(t, trail);
    }
  }

  lemma TrimStartSplit(s: string) returns (pre: string)
    ensures s == pre + TrimStart(s) && AllSpace(pre)
  {
    var t := TrimStart(s);
    pre := s[..|s| - |t|];
    assert s == pre + s[|s| - |t|..];
  }

  lemma TrimEndSplit(s: string) returns (post: string)
    ensures s == TrimEnd(s) + post && AllSpace(post)
  {
    var r := TrimEnd(s);
    post := s[|r|..];
    assert s == s[..|r|] + post;
  }

  /** `s` is the whitespace `strip` removes in front, the piece it keeps, and the whitespace it removes behind. */
  lemma StripSplit(s: string) returns (pre: string, post: string)
    ensures s == pre + Strip(s) + post
    ensures AllSpace(pre) && AllSpace(post)
  {
    pre := TrimStartSplit(s);
    post := TrimEndSplit(TrimStart(s));
  }

  lemma AllSpaceConcat(x: string, y: string)
    requires AllSpace(x) && AllSpace(y)
    ensures AllSpace(x + y)
  {
    assert forall k :: |x| <= k < |x| + |y| ==> (x + y)[k] == y[k - |x|];
  }

  lemma Regroup(lead: string, pre: string, r: string, post: string, trail: string)
    ensures lead + (pre + r + post) + trail == (lead + pre) + r + (post + trail)
  {
  }

  /** Extra whitespace around a string does not change what `strip` returns. */
  lemma StripAbsorbsSpace(lead: string, s: string, trail: string)
    requires AllSpace(lead) && AllSpace(trail)
    ensures Strip(lead + s + trail) == Strip(s)
  {
    var pre, post := StripSplit(s);
    Regroup(lead, pre, Strip(s), post, trail);
    AllSpaceConcat(lead, pre);
    AllSpaceConcat(post, trail);
    StripOf(lead + pre, Strip(s), post + trail);
  }

  /** A string with no whitespace at either end is left unchanged by `strip`. */
  lemma StripKeeps(t: string)
    requires t == [] || (!IsSpace(t[0]) && !IsSpace(t[|t| - 1]))
    ensures Strip(t) == t
  {
    assert TrimStart(t) == t;
  }

  lemma StripIdempotent(s: string)
    ensures Strip(Strip(s)) == Strip(s)
  {
    StripKeeps(Strip(s));
  }

  /** A whitespace-only string strips to the empty string. */
  lemma StripAllSpace(s: string)
    requires AllSpace(s)
    ensures Strip(s) == []
  {
    assert s + [] + [] == s;
    StripOf(s, [], []);
  }

  /**
   Python's `sep.join(parts)`. The result starts with the first part and ends
   with the last one.
   */
  function Join(parts: seq<string>, sep: string): (r: string)
    ensures |parts| > 0 ==> |parts[0]| <= |r| && r[..|parts[0]|] == parts[0]
    ensures |parts| > 0 ==> |parts[|parts| - 1]| <= |r| && r[|r| - |parts[|parts| - 1]|..] == parts[|parts| - 1]
  {
    if |parts| == 0 then ""
    else if |parts| == 1 then parts[0]
    else parts[0] + sep + Join(parts[1..], sep)
  }

  lemma Reassociate(a: string, b: string, c: string, d: string, e: string)
    ensures a + b + (c + d + e) == a + b + c + d + e
  {
  }

  /** Joining one more part adds exactly one separator and that part. */
  lemma {:induction false} JoinAppend(parts: seq<string>, x: string, sep: string)
    requires |parts| > 0
    ensures Join(parts + [x], sep) == Join(parts, sep) + sep + x
    decreases |parts|
  {
    if |parts| == 1 {
      assert parts + [x] == [parts[0], x];
      assert [parts[0], x][1..] == [x];
    } else {
      var whole := parts + [x];
      assert whole[0] == parts[0] && whole[1..] == parts[1..] + [x];
      JoinAppend(parts[1..], x, sep);
      calc {
        Join(whole, sep);
        parts[0] + sep + Join(parts[1..] + [x], sep);
        parts[0] + sep + (Join(parts[1..], sep) + sep + x);
        { Reassociate(parts[0], sep, Join(parts[1..], sep), sep, x); }
        (parts[0] + sep + Join(parts[1..], sep)) + sep + x;
      }
    }
  }
}
