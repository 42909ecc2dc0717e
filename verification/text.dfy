/**
 * Python's `str.strip()` with no argument, the normalisation every note field
 * goes through: whitespace is removed from both ends and nothing else changes.
 */
module Text {

  /** The characters for which Python's `str.isspace()` holds, which are the ones `strip()` removes. */
  predicate IsSpace(c: char)
  {
    || ('\U{9}' <= c <= '\U{D}')
    || ('\U{1C}' <= c <= '\U{20}')
    || c == '\U{85}' || c == '\U{A0}' || c == '\U{1680}'
    || ('\U{2000}' <= c <= '\U{200A}')
    || c == '\U{2028}' || c == '\U{2029}' || c == '\U{202F}' || c == '\U{205F}' || c == '\U{3000}'
  }

  /** Every character of `s` is whitespace (true of the empty string). */
  ghost predicate AllSpace(s: string)
  {
    forall i :: 0 <= i < |s| ==> IsSpace(s[i])
  }

  /** `s` has no whitespace at either end: the shape of anything `strip()` returns. */
  predicate IsStripped(s: string)
  {
    s == [] || (!IsSpace(s[0]) && !IsSpace(s[|s| - 1]))
  }

  /** `str.lstrip()`: drops the leading whitespace. */
  function TrimStart(s: string): (r: string)
    ensures |r| <= |s|
    ensures r == [] || !IsSpace(r[0])
  {
    if s != [] && IsSpace(s[0]) then TrimStart(s[1..]) else s
  }

  /** What `lstrip()` keeps is a suffix of `s`, and what it drops is whitespace only. */
  lemma {:induction false} TrimStartKeepsSuffix(s: string)
    ensures TrimStart(s) == s[|s| - |TrimStart(s)|..]
    ensures AllSpace(s[..|s| - |TrimStart(s)|])
  {
    if s != [] && IsSpace(s[0]) {
      var r := TrimStart(s[1..]);
      TrimStartKeepsSuffix(s[1..]);
      assert s[..|s| - |r|] == [s[0]] + s[1..][..|s| - 1 - |r|];
    }
  }

  /** `str.rstrip()`: drops the trailing whitespace. */
  function TrimEnd(s: string): (r: string)
    ensures |r| <= |s|
    ensures r == [] || !IsSpace(r[|r| - 1])
  {
    if s != [] && IsSpace(s[|s| - 1]) then TrimEnd(s[..|s| - 1]) else s
  }

  /** What `rstrip()` keeps is a prefix of `s`, and what it drops is whitespace only. */
  lemma {:induction false} TrimEndKeepsPrefix(s: string)
    ensures TrimEnd(s) == s[..|TrimEnd(s)|]
    ensures AllSpace(s[|TrimEnd(s)|..])
  {
    if s != [] && IsSpace(s[|s| - 1]) {
      var r := TrimEnd(s[..|s| - 1]);
      TrimEndKeepsPrefix(s[..|s| - 1]);
      assert s[|r|..] == s[..|s| - 1][|r|..] + [s[|s| - 1]];
    }
  }

  /** `str.strip()`: both ends at once; what is left starts and ends with a non-space, if anything is left. */
  function Strip(s: string): (r: string)
    ensures IsStripped(r)
    ensures |r| <= |s|
  {
    var t := TrimStart(s);
    TrimEndKeepsPrefix(t);
    TrimEnd(t)
  }

  /**
   * What `strip()` keeps is a run of `s` with only whitespace before and after it:
   * nothing but surrounding whitespace is removed.
   */
  lemma StripDecomposes(s: string)
    ensures var r := Strip(s);
            exists i :: 0 <= i <= |s| - |r| && s[i..i + |r|] == r && AllSpace(s[..i]) && AllSpace(s[i + |r|..])
  {
    var t := TrimStart(s);
    var r := TrimEnd(t);
    var i := |s| - |t|;
    TrimStartKeepsSuffix(s);
    TrimEndKeepsPrefix(t);
    assert t == s[i..];
    assert s[i..i + |r|] == r;
    assert s[i + |r|..] == t[|r|..];
    assert AllSpace(s[..i]) && AllSpace(s[i + |r|..]);
  }

  lemma {:induction false} TrimStartSkipsSpace(lead: string, t: string)
    requires AllSpace(lead)
    requires t == [] || !IsSpace(t[0])
    ensures TrimStart(lead + t) == t
  {
    if lead == [] {
      assert lead + t == t;
    } else {
      assert (lead + t)[1..] == lead[1..] + t;
      TrimStartSkipsSpace(lead[1..], t);
    }
  }

  lemma {:induction false} TrimEndSkipsSpace(t: string, trail: string)
    requires AllSpace(trail)
    requires t == [] || !IsSpace(t[|t| - 1])
    ensures TrimEnd(t + trail) == t
  {
    if trail == [] {
      assert t + trail == t;
    } else {
      var n := |trail| - 1;
      assert (t + trail)[..|t + trail| - 1] == t + trail[..n];
      TrimEndSkipsSpace(t, trail[..n]);
    }
  }

  /**
   * `strip()` removes exactly the surrounding whitespace: whatever whitespace is put
   * around a stripped string, stripping gives that string back.
   */
  lemma StripRemovesSurroundingSpace(lead: string, r: string, trail: string)
    requires AllSpace(lead) && AllSpace(trail) && IsStripped(r)
    ensures Strip(lead + r + trail) == r
  {
    if r == [] {
      assert lead + r + trail == lead + trail + [];
      TrimStartSkipsSpace(lead + trail, []);
    } else {
      assert lead + r + trail == lead + (r + trail);
      TrimStartSkipsSpace(lead, r + trail);
      TrimEndSkipsSpace(r, trail);
    }
  }

  /** Stripping twice is stripping once. */
  lemma StripIdempotent(s: string)
    ensures Strip(Strip(s)) == Strip(s)
  {
    var r := Strip(s);
    assert [] + r + [] == r;
    StripRemovesSurroundingSpace([], r, []);
  }

  /** A string strips to nothing exactly when it is empty or whitespace only. */
  lemma StripEmptyIff(s: string)
    ensures Strip(s) == [] <==> AllSpace(s)
  {
    if AllSpace(s) {
      assert s + [] + [] == s;
      StripRemovesSurroundingSpace(s, [], []);
    }
    if Strip(s) == [] {
      StripDecomposes(s);
      var i :| 0 <= i <= |s| && AllSpace(s[..i]) && AllSpace(s[i..]);
      forall k | 0 <= k < |s| ensures IsSpace(s[k]) {
        if k < i { assert s[k] == s[..i][k]; } else { assert s[k] == s[i..][k - i]; }
      }
    }
  }
}
