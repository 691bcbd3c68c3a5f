/** FNM_PERIOD in fnmatch.c: "period must be matched by period". */
module FnmatchPeriod {
  import opened Bytes
  import opened Fnmatch

  /** A leading period: at the start or, where slashes are matched explicitly, behind a slash. */
  predicate Lead(s: CString, j: nat, fl: Flags)
    requires j <= |s|
  {
    Leading(s, 0, j, fl, true)
  }

  /** The pattern matches and neither a star nor a question mark nor a bracket expression
      stands at a leading period. */
  ghost predicate Explicit(p: Pattern, s: CString, j: nat, fl: Flags)
    requires j <= |s|
    decreases p
  {
    match p
    case End => Matches(End, s, j, fl)
    case Then(Star, r) => !Lead(s, j, fl) && exists k :: Run(s, j, k, fl) && Explicit(r, s, k, fl)
    case Then(t, r) => j < |s| && Fits(t, s[j], fl) && (t.Lit? || !Lead(s, j, fl)) && Explicit(r, s, j + 1, fl)
  }

  /** What `fnmatch` answers with FNM_PERIOD. */
  ghost predicate Accepts(pattern: CString, s: CString, fl: Flags) {
    Matches(Parse(pattern, 0, fl), s, 0, fl) && !Blocked(pattern, 0, s, 0, 0, fl)
  }

  lemma {:induction false} ExplicitMatches(p: Pattern, s: CString, j: nat, fl: Flags)
    requires j <= |s| && Explicit(p, s, j, fl)
    ensures Matches(p, s, j, fl)
    decreases p
  {
    if p.Then? {
      var k: nat := j + 1;
      if p.t == Star {
        k :| Run(s, j, k, fl) && Explicit(p.rest, s, k, fl);
      }
      ExplicitMatches(p.rest, s, k, fl);
    }
  }

  /** Where no leading period is ahead, nothing is demanded. */
  lemma {:induction false} NoLeads(p: Pattern, s: CString, j: nat, fl: Flags)
    requires j <= |s| && Matches(p, s, j, fl) && forall k: nat :: j <= k <= |s| ==> !Lead(s, k, fl)
    ensures Explicit(p, s, j, fl)
    decreases p
  {
    if p.Then? {
      var k: nat := j + 1;
      if p.t == Star {
        k :| Run(s, j, k, fl) && Matches(p.rest, s, k, fl);
      }
      NoLeads(p.rest, s, k, fl);
    }
  }

  /** A row of stars: one of them could take what they all take. */
  lemma {:induction false} ExplicitStars(pattern: CString, p: nat, s: CString, j: nat, fl: Flags) returns (k: nat)
    requires p < |pattern| && pattern[p] == 42 && j <= |s| && Explicit(Parse(pattern, p, fl), s, j, fl)
    ensures Run(s, j, k, fl) && Explicit(Parse(pattern, AfterStars(pattern, p), fl), s, k, fl)
    decreases |pattern| - p
  {
    k :| Run(s, j, k, fl) && Explicit(Parse(pattern, p + 1, fl), s, k, fl);
    assert AfterStars(pattern, p) == AfterStars(pattern, p + 1);
    if At(pattern, p + 1) == 42 {
      var m := ExplicitStars(pattern, p + 1, s, k, fl);
      k := m;
    }
  }

  /** And the other way round. */
  lemma {:induction false} StarsExplicit(pattern: CString, p: nat, s: CString, j: nat, fl: Flags, k: nat)
    requires p < |pattern| && pattern[p] == 42 && j <= |s| && !Lead(s, j, fl)
    requires Run(s, j, k, fl) && Explicit(Parse(pattern, AfterStars(pattern, p), fl), s, k, fl)
    ensures Explicit(Parse(pattern, p, fl), s, j, fl)
    decreases |pattern| - p
  {
    assert AfterStars(pattern, p) == AfterStars(pattern, p + 1);
    if At(pattern, p + 1) == 42 {
      StarsExplicit(pattern, p + 1, s, j, fl, k);
      assert Run(s, j, j, fl);
    }
  }

  lemma {:induction false} MatchesStars(pattern: CString, p: nat, s: CString, j: nat, fl: Flags) returns (k: nat)
    requires p < |pattern| && pattern[p] == 42 && j <= |s| && Matches(Parse(pattern, p, fl), s, j, fl)
    ensures Run(s, j, k, fl) && Matches(Parse(pattern, AfterStars(pattern, p), fl), s, k, fl)
    decreases |pattern| - p
  {
    k :| Run(s, j, k, fl) && Matches(Parse(pattern, p + 1, fl), s, k, fl);
    assert AfterStars(pattern, p) == AfterStars(pattern, p + 1);
    if At(pattern, p + 1) == 42 {
      var m := MatchesStars(pattern, p + 1, s, k, fl);
      k := m;
    }
  }

  /** A star before a slash takes everything up to the next slash. */
  lemma UpToSlash(pattern: CString, q: nat, s: CString, j: nat, k: nat, fl: Flags)
    requires q < |pattern| && pattern[q] == SLASH && fl.pathname && j <= |s| && Run(s, j, k, fl)
    requires Matches(Parse(pattern, q, fl), s, k, fl)
    ensures k == SlashFrom(s, j) < |s|
  {
    assert Parse(pattern, q, fl) == Then(Lit(SLASH), Parse(pattern, q + 1, fl));
    assert s[k] == SLASH;
  }

  lemma TokenRead(pattern: CString, p: nat, fl: Flags)
    requires p < |pattern| && pattern[p] != 42
    ensures Parse(pattern, p, fl).Then? && Parse(pattern, p, fl).t != Star
    ensures Parse(pattern, p, fl).t == Never ||
      Parse(pattern, p, fl).rest == Parse(pattern, TokenEnd(pattern, p, fl), fl)
    ensures Parse(pattern, p, fl).t.Any? || Parse(pattern, p, fl).t.Set? ==> pattern[p] == 63 || pattern[p] == 91
    ensures pattern[p] == 63 || pattern[p] == 91 ==> Parse(pattern, p, fl).t.Lit? ==> Parse(pattern, p, fl).t.c == 91
  {
  }

  /** A match in which every leading period is matched by a period is not blocked. */
  lemma {:induction false} ExplicitNotBlocked(pattern: CString, p: nat, s: CString, j: nat, fl: Flags)
    requires p <= |pattern| && j <= |s| && Explicit(Parse(pattern, p, fl), s, j, fl)
    ensures !Blocked(pattern, p, s, 0, j, fl)
    decreases |pattern| - p
  {
    if p == |pattern| {
    } else if pattern[p] == 42 {
      var q := AfterStars(pattern, p);
      var k := ExplicitStars(pattern, p, s, j, fl);
      if fl.pathname && At(pattern, q) == SLASH {
        ExplicitMatches(Parse(pattern, q, fl), s, k, fl);
        UpToSlash(pattern, q, s, j, k, fl);
        ExplicitNotBlocked(pattern, q, s, k, fl);
      }
    } else {
      TokenRead(pattern, p, fl);
      ExplicitNotBlocked(pattern, TokenEnd(pattern, p, fl), s, j + 1, fl);
    }
  }

  // ----- which strings a period can slip through in -----

  /** An ordinary character: neither a slash nor a leading period. */
  predicate Ordinary(s: CString, i: nat, fl: Flags)
    requires i <= |s|
  {
    i < |s| && s[i] != SLASH && !Lead(s, i, fl)
  }

  /** A period behind the slash at `k`.  Without FNM_NOESCAPE the slash may be quoted in the
      pattern; with it, an ordinary character in front of the slash is needed. */
  ghost predicate Slip(s: CString, k: nat, fl: Flags) {
    && fl.pathname && k + 1 < |s| && s[k] == SLASH && s[k + 1] == 46
    && (fl.noescape ==> exists i: nat :: i < k && Ordinary(s, i, fl))
  }

  ghost predicate Slips(s: CString, fl: Flags) {
    exists k: nat :: Slip(s, k, fl)
  }

  /** What a star takes is not followed by a leading period, unless it takes nothing. */
  lemma NoLeadBehind(s: CString, j: nat, k: nat, fl: Flags)
    requires Run(s, j, k, fl) && !Lead(s, j, fl)
    ensures !Lead(s, k, fl)
  {
    assert fl.pathname && j < k ==> s[k - 1] != SLASH;
  }

  /** A star that needs recursion lets the rest of the pattern match from `k` on: a leading
      period further on can slip through. */
  lemma LeadSlips(pattern: CString, q: nat, s: CString, k: nat, m: nat, fl: Flags)
    requires q < |pattern| && pattern[q] != 42 && !(pattern[q] == SLASH && fl.pathname)
    requires k < m <= |s| && !Lead(s, k, fl) && Matches(Parse(pattern, q, fl), s, k, fl) && Lead(s, m, fl)
    ensures Slip(s, m - 1, fl)
  {
    TokenRead(pattern, q, fl);
    if fl.noescape {
      assert s[k] != SLASH;
      assert Ordinary(s, k, fl);
    }
  }

  /** Where no period can slip through, a match that is not blocked is explicit. */
  lemma {:induction false} NotBlockedExplicit(pattern: CString, p: nat, s: CString, j: nat, fl: Flags)
    requires !Slips(s, fl) && p <= |pattern| && j <= |s|
    requires Matches(Parse(pattern, p, fl), s, j, fl) && !Blocked(pattern, p, s, 0, j, fl)
    ensures Explicit(Parse(pattern, p, fl), s, j, fl)
    decreases |pattern| - p
  {
    if p == |pattern| {
    } else if pattern[p] == 42 {
      var q := AfterStars(pattern, p);
      var k := MatchesStars(pattern, p, s, j, fl);
      if q == |pattern| {
      } else if fl.pathname && pattern[q] == SLASH {
        UpToSlash(pattern, q, s, j, k, fl);
        NotBlockedExplicit(pattern, q, s, k, fl);
      } else {
        NoLeadBehind(s, j, k, fl);
        forall m: nat | k < m <= |s| && Lead(s, m, fl) ensures Slip(s, m - 1, fl) {
          LeadSlips(pattern, q, s, k, m, fl);
        }
        NoLeads(Parse(pattern, q, fl), s, k, fl);
      }
      StarsExplicit(pattern, p, s, j, fl, k);
    } else {
      TokenRead(pattern, p, fl);
      NotBlockedExplicit(pattern, TokenEnd(pattern, p, fl), s, j + 1, fl);
    }
  }

  // ----- a pattern for a period that slips through -----

  /** Slashes for slashes and question marks for the rest of the string. */
  function Wildcard(c: byte): byte {
    if c == SLASH then SLASH else 63
  }

  function WildText(s: CString, m: nat): (t: CString)
    requires m <= |s|
    ensures |t| == |s| - m && forall n {:trigger s[n]} :: m <= n < |s| ==> t[n - m] == Wildcard(s[n])
    decreases |s| - m
  {
    if m == |s| then [] else [Wildcard(s[m])] + WildText(s, m + 1)
  }

  function Wild(s: CString, m: nat): Pattern
    requires m <= |s|
    decreases |s| - m
  {
    if m == |s| then End else Then(if s[m] == SLASH then Lit(SLASH) else Any, Wild(s, m + 1))
  }

  lemma {:induction false} WildRead(t: CString, off: nat, s: CString, m: nat, fl: Flags)
    requires m <= |s| && |t| == off + (|s| - m)
    requires forall n {:trigger s[n]} :: m <= n < |s| ==> t[off + n - m] == Wildcard(s[n])
    ensures Parse(t, off, fl) == Wild(s, m)
    decreases |s| - m
  {
    if m < |s| {
      WildRead(t, off + 1, s, m + 1, fl);
      assert t[off + m - m] == Wildcard(s[m]);
    }
  }

  lemma {:induction false} WildMatches(s: CString, m: nat, fl: Flags)
    requires m <= |s|
    ensures Matches(Wild(s, m), s, m, fl)
    decreases |s| - m
  {
    if m < |s| {
      WildMatches(s, m + 1, fl);
    }
  }

  lemma {:induction false} WildRoom(s: CString, m: nat, j: nat, fl: Flags)
    requires m <= |s| && j <= |s| && Explicit(Wild(s, m), s, j, fl)
    ensures j <= m
    decreases |s| - m
  {
    if m < |s| {
      WildRoom(s, m + 1, j + 1, fl);
    }
  }

  lemma {:induction false} WildDemands(s: CString, m: nat, k: nat, fl: Flags)
    requires m <= k < |s| && Lead(s, k, fl)
    ensures !Explicit(Wild(s, m), s, m, fl)
    decreases k - m
  {
    if m < k {
      WildDemands(s, m + 1, k, fl);
    }
  }

  /** Slashes and periods in front of the first star stand for themselves. */
  lemma {:induction false} Literally(t: CString, s: CString, m: nat, i: nat, fl: Flags)
    requires m <= i <= |s| && i <= |t|
    requires forall n {:trigger s[n]} :: m <= n < i ==> t[n] == s[n] && (s[n] == SLASH || s[n] == 46)
    ensures Matches(Parse(t, m, fl), s, m, fl) <==> Matches(Parse(t, i, fl), s, i, fl)
    ensures Explicit(Parse(t, m, fl), s, m, fl) <==> Explicit(Parse(t, i, fl), s, i, fl)
    ensures Blocked(t, m, s, 0, m, fl) <==> Blocked(t, i, s, 0, i, fl)
    decreases i - m
  {
    if m < i {
      Literally(t, s, m + 1, i, fl);
      assert t[m] == s[m];
      assert Parse(t, m, fl) == Then(Lit(s[m]), Parse(t, m + 1, fl));
    }
  }

  /** The text up to `i`, a star, and the rest with its slashes kept; a slash behind the star
      is quoted. */
  function SlipText(s: CString, i: nat): CString
    requires i < |s|
  {
    s[..i] + [42] + (if s[i] == SLASH then [ESCAPE, SLASH] else [63]) + WildText(s, i + 1)
  }

  /** The star of that pattern at its place. */
  lemma SlipStar(s: CString, i: nat, fl: Flags)
    requires i < |s| && (s[i] == SLASH ==> !fl.noescape)
    ensures var t := SlipText(s, i);
      && i < |t| && t[..i] == s[..i] && t[i] == 42 && At(t, i + 1) in {ESCAPE, 63}
      && Parse(t, i + 1, fl) == Wild(s, i)
  {
    var t, off := SlipText(s, i), i + (if s[i] == SLASH then 3 else 2);
    forall n {:trigger s[n]} | i + 1 <= n < |s| ensures t[off + n - (i + 1)] == Wildcard(s[n]) {
      assert t[off + n - (i + 1)] == WildText(s, i + 1)[n - (i + 1)];
    }
    WildRead(t, off, s, i + 1, fl);
    assert s[i] == SLASH ==> t[i + 1] == ESCAPE && t[i + 2] == SLASH;
    assert s[i] != SLASH ==> t[i + 1] == 63;
  }

  lemma StarSlips(t: CString, s: CString, i: nat, k: nat, fl: Flags)
    requires i < |t| && t[i] == 42 && At(t, i + 1) in {ESCAPE, 63} && i <= k < |s| && Lead(s, k, fl) && !Lead(s, i, fl)
    requires Parse(t, i + 1, fl) == Wild(s, i)
    ensures Matches(Parse(t, i, fl), s, i, fl) && !Blocked(t, i, s, 0, i, fl) && !Explicit(Parse(t, i, fl), s, i, fl)
  {
    WildMatches(s, i, fl);
    assert Run(s, i, i, fl);
    assert AfterStars(t, i) == AfterStars(t, i + 1) == i + 1;
    if Explicit(Parse(t, i, fl), s, i, fl) {
      var j: nat :| Run(s, i, j, fl) && Explicit(Wild(s, i), s, j, fl);
      WildRoom(s, i, j, fl);
      WildDemands(s, i, k, fl);
    }
  }

  /** Only slashes and leading periods stand before `i`, so that the pattern can begin with
      them, and a leading period comes behind it. */
  ghost predicate Entrance(s: CString, i: nat, k: nat, fl: Flags) {
    && i < k < |s| && Lead(s, k, fl) && !Lead(s, i, fl) && (s[i] == SLASH ==> !fl.noescape)
    && (forall n {:trigger s[n]} :: 0 <= n < i ==> s[n] == SLASH || s[n] == 46)
  }

  lemma Slipped(s: CString, i: nat, k: nat, fl: Flags)
    requires Entrance(s, i, k, fl)
    ensures Accepts(SlipText(s, i), s, fl) && !Explicit(Parse(SlipText(s, i), 0, fl), s, 0, fl)
  {
    var t := SlipText(s, i);
    SlipStar(s, i, fl);
    StarSlips(t, s, i, k, fl);
    assert forall n {:trigger s[n]} :: 0 <= n < i ==> t[n] == t[..i][n] == s[..i][n] == s[n];
    Literally(t, s, 0, i, fl);
  }

  lemma {:induction false} FindEntrance(s: CString, k: nat, fl: Flags, n: nat) returns (i: nat)
    requires Slip(s, k, fl) && n <= k && forall m: nat :: m < n ==> !Ordinary(s, m, fl)
    ensures Entrance(s, i, k + 1, fl)
    decreases k - n
  {
    if n == k || Ordinary(s, n, fl) {
      assert forall m {:trigger s[m]} :: 0 <= m < n ==> !Ordinary(s, m, fl);
      return n;
    }
    i := FindEntrance(s, k, fl, n + 1);
  }

  /** With FNM_PERIOD `fnmatch` demands, for every pattern, that leading periods are matched by
      periods exactly if no period of the string can slip through. */
  lemma PeriodsExplicitIff(s: CString, fl: Flags)
    ensures (forall pattern: CString :: Accepts(pattern, s, fl) <==> Explicit(Parse(pattern, 0, fl), s, 0, fl))
      <==> !Slips(s, fl)
  {
    if Slips(s, fl) {
      var k: nat :| Slip(s, k, fl);
      var i := FindEntrance(s, k, fl, 0);
      Slipped(s, i, k + 1, fl);
    } else {
      forall pattern: CString ensures Accepts(pattern, s, fl) <==> Explicit(Parse(pattern, 0, fl), s, 0, fl) {
        if Accepts(pattern, s, fl) {
          NotBlockedExplicit(pattern, 0, s, 0, fl);
        }
        if Explicit(Parse(pattern, 0, fl), s, 0, fl) {
          ExplicitMatches(Parse(pattern, 0, fl), s, 0, fl);
          ExplicitNotBlocked(pattern, 0, s, 0, fl);
        }
      }
    }
  }

  /** The pattern "*?/?" is found to match the string "a/." although its last question mark
      stands for a leading period. */
  lemma PeriodSlips(pattern: CString, s: CString, fl: Flags)
    requires pattern == [42, 63, 47, 63] && s == [97, 47, 46] && fl.pathname
    ensures Accepts(pattern, s, fl) && !Explicit(Parse(pattern, 0, fl), s, 0, fl)
  {
    Slipped(s, 0, 2, fl);
    var w := WildText(s, 1);
    assert s[1] == 47 && s[2] == 46;
    assert pattern == s[..0] + [42] + [63] + w;
  }
}
