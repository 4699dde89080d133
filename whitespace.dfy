/** Whitespace as Python's `str.isspace` sees it, and `str.strip()` without arguments. */
module Whitespace {

  /** The characters for which Python's `str.isspace` holds: the ASCII controls
      TAB..CR and FS..US, SPACE, NEL, NBSP and the Unicode space separators. */
  predicate IsSpace(c: char) {
    || ('\t' <= c <= '\r')
    || ('\U{1C}' <= c <= '\U{1F}')
    || c == ' '
    || c == '\U{85}'
    || c == '\U{A0}'
    || c == '\U{1680}'
    || ('\U{2000}' <= c <= '\U{200A}')
    || c == '\U{2028}'
    || c == '\U{2029}'
    || c == '\U{202F}'
    || c == '\U{205F}'
    || c == '\U{3000}'
  }

  /** Drops the leading whitespace. */
  function TrimStart(s: string): string {
    if s != [] && IsSpace(s[0]) then TrimStart(s[1..]) else s
  }

  /** Drops the trailing whitespace. */
  function TrimEnd(s: string): string {
    if s != [] && IsSpace(s[|s| - 1]) then TrimEnd(s[..|s| - 1]) else s
  }

  /** `TrimStart` removes a run of whitespace from the front and stops at the first
      character that is not whitespace. */
  lemma {:induction false} TrimStartDropsLeadingSpace(s: string)
    ensures var r := TrimStart(s);
      && |r| <= |s| && r == s[|s| - |r|..]
      && (forall k | 0 <= k < |s| - |r| :: IsSpace(s[k]))
      && (r != [] ==> !IsSpace(r[0]))
  {
    if s != [] && IsSpace(s[0]) {
      var t := s[1..];
      TrimStartDropsLeadingSpace(t);
      var r := TrimStart(t);
      assert TrimStart(s) == r;
      assert t[|t| - |r|..] == s[|s| - |r|..];
      forall k | 0 <= k < |s| - |r|
        ensures IsSpace(s[k])
      {
        if k > 0 {
          assert s[k] == t[k - 1];
        }
      }
    }
  }

  /** `TrimEnd` removes a run of whitespace from the back and stops at the last
      character that is not whitespace. */
  lemma {:induction false} TrimEndDropsTrailingSpace(s: string)
    ensures var r := TrimEnd(s);
      && |r| <= |s| && r == s[..|r|]
      && (forall k | |r| <= k < |s| :: IsSpace(s[k]))
      && (r != [] ==> !IsSpace(r[|r| - 1]))
  {
    if s != [] && IsSpace(s[|s| - 1]) {
      var t := s[..|s| - 1];
      TrimEndDropsTrailingSpace(t);
      var r := TrimEnd(t);
      assert TrimEnd(s) == r;
      assert t[..|r|] == s[..|r|];
      forall k | |r| <= k < |s|
        ensures IsSpace(s[k])
      {
        if k < |t| {
          assert s[k] == t[k];
        }
      }
    }
  }

  /** `r` is `s` with its leading and trailing whitespace removed, and `r` starts at
      index `i` of `s`: everything outside the window is whitespace, and the window
      neither starts nor ends with whitespace. */
  ghost predicate StrippedAt(s: string, i: nat, r: string) {
    && i + |r| <= |s|
    && r == s[i..i + |r|]
    && (forall k | 0 <= k < i :: IsSpace(s[k]))
    && (forall k | i + |r| <= k < |s| :: IsSpace(s[k]))
    && (r != [] ==> !IsSpace(r[0]) && !IsSpace(r[|r| - 1]))
  }

  /** Python's `s.strip()`. */
  function Strip(s: string): string {
    TrimEnd(TrimStart(s))
  }

  /** `Strip` leaves a window of its argument with whitespace on neither end and only
      whitespace around it. */
  lemma StripRemovesSurroundingSpace(s: string)
    ensures exists i: nat :: StrippedAt(s, i, Strip(s))
  {
    var t := TrimStart(s);
    var r := TrimEnd(t);
    var i := |s| - |t|;
    TrimStartDropsLeadingSpace(s);
    TrimEndDropsTrailingSpace(t);
    SliceOfSuffix(s, t, r, i);
    assert forall k | i + |r| <= k < |s| :: IsSpace(s[k]) by {
      forall k | i + |r| <= k < |s| ensures IsSpace(s[k]) {
        assert s[k] == t[k - i];
      }
    }
    assert forall k | 0 <= k < i :: IsSpace(s[k]);
    assert r != [] ==> !IsSpace(r[0]) && !IsSpace(r[|r| - 1]) by {
      if r != [] {
        assert r[0] == t[0];
      }
    }
    assert StrippedAt(s, i, r);
    assert Strip(s) == r;
  }

  /** A prefix of a suffix is a slice. */
  lemma SliceOfSuffix(s: string, t: string, r: string, i: nat)
    requires i <= |s| && t == s[i..] && |r| <= |t| && r == t[..|r|]
    ensures i + |r| <= |s| && r == s[i..i + |r|]
    ensures forall k | i + |r| <= k < |s| :: s[k] == t[k - i]
  {
  }

  /** Two windows that both strip `s` are the same string. */
  lemma StrippedAtUnique(s: string, i: nat, r: string, j: nat, q: string)
    requires StrippedAt(s, i, r) && StrippedAt(s, j, q)
    ensures r == q
  {
    if r == [] || q == [] {
      assert r == [] && q == [];
    } else {
      assert s[i] == r[0] && s[j] == q[0];
      assert i == j;
      assert s[i + |r| - 1] == r[|r| - 1] && s[j + |q| - 1] == q[|q| - 1];
      assert |r| == |q|;
    }
  }

  /** `Strip` removes exactly the surrounding whitespace and changes nothing else:
      any window of `s` that is `s` without its surrounding whitespace is `Strip(s)`. */
  lemma StripIsTrim(s: string, i: nat, r: string)
    requires StrippedAt(s, i, r)
    ensures Strip(s) == r
  {
    StripRemovesSurroundingSpace(s);
    var j: nat :| StrippedAt(s, j, Strip(s));
    StrippedAtUnique(s, i, r, j, Strip(s));
  }

  /** A field with no surrounding whitespace is kept verbatim (so "007" stays "007"). */
  lemma StripKeepsTrimmedText(s: string)
    requires s != [] ==> !IsSpace(s[0]) && !IsSpace(s[|s| - 1])
    ensures Strip(s) == s
  {
    assert StrippedAt(s, 0, s);
    StripIsTrim(s, 0, s);
  }
}
