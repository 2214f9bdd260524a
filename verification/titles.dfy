/** The rule that turns a raw outline title into a section directory name:
    keep the characters that are alphanumeric or one of space, `_` and `-`,
    then strip surrounding whitespace (main.py:51, helpers.py:42). */
module Titles {
  import opened Text

  /** `c.isalnum()`, restricted to ASCII letters and digits. */
  predicate IsAlnum(c: char)
  {
    'a' <= c <= 'z' || 'A' <= c <= 'Z' || '0' <= c <= '9'
  }

  /** The characters a title keeps: letters, digits, space, underscore and
      hyphen. */
  predicate IsKept(c: char)
  {
    IsAlnum(c) || c == ' ' || c == '_' || c == '-'
  }

  /** The characters `str.strip()` removes, restricted to ASCII. */
  predicate IsSpace(c: char)
  {
    c == ' ' || 9 <= c as int <= 13 || 28 <= c as int <= 31
  }

  /** Every character of `s` survives the filter. */
  predicate AllKept(s: string)
  {
    forall i :: 0 <= i < |s| ==> IsKept(s[i])
  }

  /** Neither end of `s` is whitespace. */
  predicate Trimmed(s: string)
  {
    |s| > 0 ==> !IsSpace(s[0]) && !IsSpace(s[|s| - 1])
  }

  /** The title with every character that is not kept dropped, the rest in
      order. */
  function Keep(title: string): string
    decreases |title|
  {
    if |title| == 0 then ""
    else if IsKept(title[0]) then [title[0]] + Keep(title[1..])
    else Keep(title[1..])
  }

  /** The filter keeps exactly the kept characters, in their order. */
  lemma {:induction false} KeepSpec(title: string)
    ensures AllKept(Keep(title))
    ensures IsSubseq(Keep(title), title)
    ensures forall c :: c in title && IsKept(c) ==> c in Keep(title)
    decreases |title|
  {
    if |title| > 0 {
      KeepSpec(title[1..]);
      var rest := Keep(title[1..]);
      if IsKept(title[0]) {
        assert ([title[0]] + rest)[1..] == rest;
      }
      forall c | c in title && IsKept(c)
        ensures c in Keep(title)
      {
        if c != title[0] {
          assert c in title[1..];
        }
      }
    }
  }

  /** The filter keeps every permitted character as often as it occurs, and
      no other character. */
  lemma {:induction false} KeepCounts(title: string)
    ensures forall c :: multiset(Keep(title))[c] == if IsKept(c) then multiset(title)[c] else 0
    decreases |title|
  {
    if |title| > 0 {
      KeepCounts(title[1..]);
      assert title == [title[0]] + title[1..];
      assert multiset(title) == multiset([title[0]]) + multiset(title[1..]);
      if IsKept(title[0]) {
        assert multiset(Keep(title)) == multiset([title[0]]) + multiset(Keep(title[1..]));
      }
    }
  }

  /** `s` without its leading whitespace. */
  function StripLeft(s: string): string
    decreases |s|
  {
    if |s| > 0 && IsSpace(s[0]) then StripLeft(s[1..]) else s
  }

  lemma {:induction false} StripLeftSpec(s: string)
    ensures var r := StripLeft(s);
            && |r| <= |s| && r == s[|s| - |r|..]
            && (forall i :: 0 <= i < |s| - |r| ==> IsSpace(s[i]))
            && (|r| > 0 ==> !IsSpace(r[0]))
    decreases |s|
  {
    if |s| > 0 && IsSpace(s[0]) {
      StripLeftSpec(s[1..]);
    }
  }

  /** `s` without its trailing whitespace. */
  function StripRight(s: string): string
    decreases |s|
  {
    if |s| > 0 && IsSpace(s[|s| - 1]) then StripRight(s[..|s| - 1]) else s
  }

  lemma {:induction false} StripRightSpec(s: string)
    ensures var r := StripRight(s);
            && |r| <= |s| && r == s[..|r|]
            && (forall i :: |r| <= i < |s| ==> IsSpace(s[i]))
            && (|r| > 0 ==> !IsSpace(r[|r| - 1]))
    decreases |s|
  {
    if |s| > 0 && IsSpace(s[|s| - 1]) {
      StripRightSpec(s[..|s| - 1]);
    }
  }

  /** `r` is `s` with the whitespace-only prefix `s[..lo]` and suffix
      `s[hi..]` cut away. */
  ghost predicate CutsSpace(s: string, lo: int, hi: int, r: string)
  {
    && 0 <= lo <= hi <= |s| && r == s[lo..hi]
    && (forall i :: 0 <= i < lo ==> IsSpace(s[i]))
    && (forall i :: hi <= i < |s| ==> IsSpace(s[i]))
  }

  /** `s` without its leading and trailing whitespace. */
  function Strip(s: string): string
  {
    StripRight(StripLeft(s))
  }

  /** Stripping cuts away only whitespace and leaves none at either end. */
  lemma StripSpec(s: string)
    ensures Trimmed(Strip(s))
    ensures CutsSpace(s, |s| - |StripLeft(s)|, |s| - |StripLeft(s)| + |Strip(s)|, Strip(s))
  {
    StripLeftSpec(s);
    var l := StripLeft(s);
    StripRightSpec(l);
    var r := StripRight(l);
    var lo := |s| - |l|;
    var hi := lo + |r|;
    assert r == l[..|r|];
    assert l == s[lo..];
    assert r == s[lo..hi];
    assert forall i :: 0 <= i < lo ==> IsSpace(s[i]);
    forall i | hi <= i < |s|
      ensures IsSpace(s[i])
    {
      assert s[i] == l[i - lo];
    }
    if |r| > 0 {
      assert r[0] == l[0];
    }
  }

  lemma {:induction false} SliceIsSubseq(s: string, lo: int, hi: int)
    requires 0 <= lo <= hi <= |s|
    ensures IsSubseq(s[lo..hi], s)
    decreases |s|
  {
    if lo > 0 {
      SliceIsSubseq(s[1..], lo - 1, hi - 1);
      assert s[1..][lo - 1..hi - 1] == s[lo..hi];
    } else if hi < |s| {
      SliceIsSubseq(s[..|s| - 1], lo, hi);
      assert s[..|s| - 1][lo..hi] == s[lo..hi];
      SubseqSnoc(s[lo..hi], s[..|s| - 1], s[|s| - 1]);
      assert s[..|s| - 1] + [s[|s| - 1]] == s;
    } else {
      assert s[lo..hi] == s;
      SubseqRefl(s);
    }
  }

  /** The section directory name derived from a raw title. */
  function Sanitize(title: string): (r: string)
    ensures AllKept(r) && Trimmed(r)
    ensures IsSubseq(r, title)
    ensures forall i :: 0 <= i < |r| ==> r[i] != '/' && r[i] != '.'
  {
    KeepThenStrip(title);
    Strip(Keep(title))
  }

  lemma KeepThenStrip(title: string)
    ensures AllKept(Strip(Keep(title))) && Trimmed(Strip(Keep(title)))
    ensures IsSubseq(Strip(Keep(title)), title)
  {
    var k := Keep(title);
    KeepSpec(title);
    var r := Strip(k);
    StripSpec(k);
    var lo, hi := |k| - |StripLeft(k)|, |k| - |StripLeft(k)| + |r|;
    assert forall i :: 0 <= i < |r| ==> r[i] == k[lo + i];
    SliceIsSubseq(k, lo, hi);
    SubseqTrans(r, k, title);
  }

  /** A title that already passes the filter and is already trimmed is its
      own sanitised form. */
  lemma {:induction false} SanitizeClean(title: string)
    requires AllKept(title) && Trimmed(title)
    ensures Sanitize(title) == title
  {
    KeepAllKept(title);
  }

  lemma {:induction false} KeepAllKept(s: string)
    requires AllKept(s)
    ensures Keep(s) == s
    decreases |s|
  {
    if |s| > 0 {
      KeepAllKept(s[1..]);
      assert IsKept(s[0]);
      assert [s[0]] + s[1..] == s;
    }
  }

  /** Sanitising twice is the same as sanitising once. */
  lemma SanitizeIdempotent(title: string)
    ensures Sanitize(Sanitize(title)) == Sanitize(title)
  {
    SanitizeClean(Sanitize(title));
  }

  /** A sanitised name is unchanged by sanitising exactly when it was clean. */
  lemma SanitizeFixedPoints(title: string)
    ensures Sanitize(title) == title <==> AllKept(title) && Trimmed(title)
  {
    if AllKept(title) && Trimmed(title) {
      SanitizeClean(title);
    }
  }
}
