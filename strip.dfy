/** Version normalisation: the installed constraint and the desired version
    are both compared after Python's `str.strip('=')`, which removes every
    `=` character from the front and from the back of a string and keeps the
    middle as it is. */
module Strip {

  /** Every character of `p` is `=`. */
  predicate AllEq(p: string) {
    forall k :: 0 <= k < |p| ==> p[k] == '='
  }

  /** `r` neither starts nor ends with `=`. */
  predicate Trimmed(r: string) {
    r == [] || (r[0] != '=' && r[|r| - 1] != '=')
  }

  /** `r` is what is left of `s` once a run of `=` of length `i` at the front
      and a run of `=` at the back have been cut off. */
  predicate StrippedAt(s: string, r: string, i: nat) {
    i + |r| <= |s| && AllEq(s[..i]) && s[i..i + |r|] == r && AllEq(s[i + |r|..])
  }

  /** `r` is `s` with the `=` padding of both ends removed and nothing else. */
  ghost predicate StrippedOf(s: string, r: string) {
    Trimmed(r) && exists i: nat :: StrippedAt(s, r, i)
  }

  /** Drops the leading `=` characters. */
  function LStripEq(s: string): string
    decreases |s|
  {
    if s != [] && s[0] == '=' then LStripEq(s[1..]) else s
  }

  /** Drops the trailing `=` characters. */
  function RStripEq(s: string): string
    decreases |s|
  {
    if s != [] && s[|s| - 1] == '=' then RStripEq(s[..|s| - 1]) else s
  }

  /** `LStripEq` keeps a suffix, drops only `=`, and leaves no `=` in front. */
  lemma {:induction false} LStripEqSpec(s: string)
    ensures var r := LStripEq(s);
            |r| <= |s| && r == s[|s| - |r|..] && AllEq(s[..|s| - |r|]) && (r == [] || r[0] != '=')
    decreases |s|
  {
    if s != [] && s[0] == '=' {
      LStripEqSpec(s[1..]);
      var r := LStripEq(s);
      assert s[..|s| - |r|] == [s[0]] + s[1..][..|s| - 1 - |r|];
    }
  }

  /** `RStripEq` keeps a prefix, drops only `=`, and leaves no `=` at the end. */
  lemma {:induction false} RStripEqSpec(s: string)
    ensures var r := RStripEq(s);
            |r| <= |s| && r == s[..|r|] && AllEq(s[|r|..]) && (r == [] || r[|r| - 1] != '=')
    decreases |s|
  {
    if s != [] && s[|s| - 1] == '=' {
      RStripEqSpec(s[..|s| - 1]);
      var r := RStripEq(s);
      assert s[|r|..] == s[..|s| - 1][|r|..] + [s[|s| - 1]];
    }
  }

  /** Python's `s.strip('=')`. */
  function StripEq(s: string): string {
    RStripEq(LStripEq(s))
  }

  /** What `StripEq` leaves: the input with a run of `=` cut off each end,
      the middle unchanged, and no `=` left at either end. */
  lemma StripEqSpec(s: string)
    ensures StrippedOf(s, StripEq(s))
  {
    var l := LStripEq(s);
    var r := RStripEq(l);
    LStripEqSpec(s);
    RStripEqSpec(l);
    var i := |s| - |l|;
    assert s[i..i + |r|] == r by {
      assert l == s[i..];
      assert r == l[..|r|];
    }
    assert s[i + |r|..] == l[|r|..];
    assert s[..i] == s[..|s| - |l|];
    assert StrippedAt(s, r, i);
  }

  /** A string with no `=` at either end is left unchanged. */
  lemma {:induction false} StripEqOfTrimmed(t: string)
    requires Trimmed(t)
    ensures StripEq(t) == t
  {
    assert LStripEq(t) == t;
    assert RStripEq(t) == t;
  }

  /** Stripping twice is stripping once. */
  lemma {:induction false} StripEqIdempotent(s: string)
    ensures StripEq(StripEq(s)) == StripEq(s)
  {
    StripEqSpec(s);
    StripEqOfTrimmed(StripEq(s));
  }

  /** Two cuts that both leave an all-`=` prefix followed by a non-`=`
      character cut at the same place. */
  lemma FrontCutUnique(s: string, i: nat, j: nat)
    requires i < |s| && j < |s|
    requires AllEq(s[..i]) && s[i] != '='
    requires AllEq(s[..j]) && s[j] != '='
    ensures i == j
  {
  }

  /** Mirror image of `FrontCutUnique` for the back of the string. */
  lemma BackCutUnique(s: string, a: nat, b: nat)
    requires 0 < a <= |s| && 0 < b <= |s|
    requires AllEq(s[a..]) && s[a - 1] != '='
    requires AllEq(s[b..]) && s[b - 1] != '='
    ensures a == b
  {
  }

  /** Stripping leaves nothing exactly when the string is all `=`. */
  lemma EmptyStripIffAllEq(s: string, r: string, i: nat)
    requires StrippedAt(s, r, i) && Trimmed(r)
    ensures r == [] <==> AllEq(s)
  {
    if r == [] {
      forall k | 0 <= k < |s| ensures s[k] == '=' {
        if k < i { assert s[..i][k] == s[k]; } else { assert s[i..][k - i] == s[k]; }
      }
    } else {
      assert r[0] == s[i];
    }
  }

  /** `StrippedOf` singles out exactly one string: whatever `r` is left of `s`
      by cutting `=` runs off both ends so that no `=` remains at either end
      of `r`, it is `StripEq(s)`. */
  lemma {:induction false} StripEqUnique(s: string, r: string)
    requires StrippedOf(s, r)
    ensures r == StripEq(s)
  {
    var t := StripEq(s);
    StripEqSpec(s);
    var i: nat :| StrippedAt(s, r, i);
    var j: nat :| StrippedAt(s, t, j);
    EmptyStripIffAllEq(s, r, i);
    EmptyStripIffAllEq(s, t, j);
    if r != [] && t != [] {
      assert r[0] == s[i] && t[0] == s[j];
      FrontCutUnique(s, i, j);
      assert r[|r| - 1] == s[i + |r| - 1] && t[|t| - 1] == s[j + |t| - 1];
      BackCutUnique(s, i + |r|, j + |t|);
    }
  }

  /** A `==` pin as found in a lock file becomes the bare version. */
  lemma PinnedVersionExample()
    ensures StripEq("==1.0") == "1.0"
  {
    assert StrippedOf("==1.0", "1.0") by {
      assert StrippedAt("==1.0", "1.0", 2);
    }
    StripEqUnique("==1.0", "1.0");
  }

  /** Only `=` is stripped: another comparison operator stays in place. */
  lemma OtherOperatorKeptExample()
    ensures StripEq(">=1.0") == ">=1.0"
  {
    StripEqOfTrimmed(">=1.0");
  }
}
