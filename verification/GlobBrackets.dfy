/** Brackets inside braces: when the brace expansion of glob.c loses text. */
module GlobBrackets {
  import opened Glob
  import opened GlobBrace
  import opened GlobCalls

  /** Every bracket that the scan of the alternatives meets, at any depth of braces, stands at
      the very start of its alternative. */
  predicate BracketsLead(s: seq<Char>, pl: nat, pm: nat, d: nat, pe: nat)
    requires pl <= pm <= |s| && pe < |s|
    decreases |s| - pm
  {
    if pm > pe then true
    else if s[pm] == LBRACKET then pl == pm && BracketsLead(s, pl, Skip(s, pm) + 1, d, pe)
    else if s[pm] == LBRACE then BracketsLead(s, pl, pm + 1, d + 1, pe)
    else if s[pm] == RBRACE && d > 0 then BracketsLead(s, pl, pm + 1, d - 1, pe)
    else if s[pm] == RBRACE || (s[pm] == COMMA && d == 0) then BracketsLead(s, pm + 1, pm + 1, d, pe)
    else BracketsLead(s, pl, pm + 1, d, pe)
  }

  /** The first text ends at the next comma or at the closing brace.  It starts where the
      alternative does, unless that was forgotten. */
  lemma {:induction false} FirstText(s: seq<Char>, pl: nat, pm: nat, d: nat, pe: nat, forget: bool)
    requires pl <= pm <= |s| && Cut(s, pm, d, false) == pe < |s|
    ensures var ts, x := Texts(s, pl, pm, d, pe, forget), Cut(s, pm, d, true);
      pm <= x <= pe && ts != [] && |ts[0]| <= x - pl && (!forget ==> |ts[0]| == x - pl)
    decreases |s| - pm
  {
    if s[pm] == LBRACKET {
      FirstText(s, if forget then pm else pl, Skip(s, pm) + 1, d, pe, forget);
    } else if s[pm] == LBRACE {
      FirstText(s, pl, pm + 1, d + 1, pe, forget);
    } else if s[pm] == RBRACE {
      if d > 0 {
        FirstText(s, pl, pm + 1, d - 1, pe, forget);
      }
    } else if s[pm] != COMMA || d > 0 {
      FirstText(s, pl, pm + 1, d, pe, forget);
    }
  }

  /** The texts that take the place of a brace are those between its commas, with nothing lost,
      exactly if every bracket in it stands at the start of its alternative. */
  lemma {:induction false} NothingLostIff(s: seq<Char>, pl: nat, pm: nat, d: nat, pe: nat)
    requires pl <= pm <= |s| && Cut(s, pm, d, false) == pe < |s|
    ensures Texts(s, pl, pm, d, pe, true) == Texts(s, pl, pm, d, pe, false) <==> BracketsLead(s, pl, pm, d, pe)
    decreases |s| - pm
  {
    if s[pm] == LBRACKET {
      if pl == pm {
        NothingLostIff(s, pl, Skip(s, pm) + 1, d, pe);
      } else {
        FirstText(s, pm, Skip(s, pm) + 1, d, pe, true);
        FirstText(s, pl, Skip(s, pm) + 1, d, pe, false);
      }
    } else if s[pm] == LBRACE {
      NothingLostIff(s, pl, pm + 1, d + 1, pe);
    } else if s[pm] == RBRACE {
      if d > 0 {
        NothingLostIff(s, pl, pm + 1, d - 1, pe);
      }
    } else if s[pm] == COMMA && d == 0 {
      NothingLostIff(s, pm + 1, pm + 1, 0, pe);
      var t, u, v := s[pl..pm], Texts(s, pm + 1, pm + 1, 0, pe, true), Texts(s, pm + 1, pm + 1, 0, pe, false);
      assert ([t] + u)[1..] == u && ([t] + v)[1..] == v;
    } else {
      NothingLostIff(s, pl, pm + 1, d, pe);
    }
  }

  /** {xy[a],z} */
  const LOSING: seq<Char> := [123, 120, 121, 91, 97, 93, 44, 122, 125]

  lemma LosingTexts(s: seq<Char>)
    requires s == LOSING
    ensures Cut(s, 1, 0, false) == 8
    ensures Texts(s, 1, 1, 0, 8, true) == [[LBRACKET, 97, RBRACKET], [122]]
    ensures Texts(s, 1, 1, 0, 8, false) == [[120, 121, LBRACKET, 97, RBRACKET], [122]]
  {
    assert NextClose(s, 5) == 5;
    assert NextClose(s, 4) == 5;
    assert Skip(s, 3) == 5;
    assert Cut(s, 8, 0, false) == 8;
    assert Cut(s, 7, 0, false) == 8;
    assert Cut(s, 6, 0, false) == 8;
    assert Cut(s, 3, 0, false) == 8;
    assert s[7..8] == [122] && s[3..6] == [LBRACKET, 97, RBRACKET] && s[1..6] == [120, 121, LBRACKET, 97, RBRACKET];
    forall f ensures Texts(s, 7, 7, 0, 8, f) == [[122]] {
      assert Texts(s, 9, 9, 0, 8, f) == [];
      assert Texts(s, 7, 8, 0, 8, f) == [[122]] + [];
    }
    assert Texts(s, 3, 6, 0, 8, true) == [s[3..6]] + [[122]];
    assert Texts(s, 1, 6, 0, 8, false) == [s[1..6]] + [[122]];
    assert Texts(s, 1, 3, 0, 8, true) == Texts(s, 3, 6, 0, 8, true);
    assert Texts(s, 1, 3, 0, 8, false) == Texts(s, 1, 6, 0, 8, false);
  }

  /** The expansion of {xy[a],z} loses xy. */
  lemma BracketLosesText()
    ensures Calls(LOSING) == [[91, 97, 93], [122]]
  {
    var s := LOSING;
    LosingTexts(s);
    TextsFewer(s, 0, 1, 1, 0, 8, true);
    assert First(s, 0) == 0 && s[..0] == [] && s[9..] == [];
    TwoCalls([LBRACKET, 97, RBRACKET], [122], Texts(s, 1, 1, 0, 8, true), Count(s));
  }

  lemma TwoCalls(t: seq<Char>, z: seq<Char>, ts: seq<seq<Char>>, n: nat)
    requires LBRACE !in t && LBRACE !in z && ts == [t, z] && Fewer([], ts, [], n)
    ensures CallsOf([], ts, [], n) == [t, z]
  {
    var none: seq<Char>, last := [], ts[1..];
    NoBraceCalls(t);
    NoBraceCalls(z);
    assert ts[0] == t && last == [z] && last[1..] == [];
    assert none + t + none == t && none + z + none == z;
    assert CallsOf(none, last, none, n) == [z] + [];
    assert CallsOf(none, ts, none, n) == [t] + [z];
  }

  // ----- what stands in brackets -----

  lemma {:induction false} NextCloseIs(s: seq<Char>, i: nat, k: nat)
    requires i <= k <= |s| && 93 !in s[i..k] && (k < |s| ==> s[k] == 93)
    ensures NextClose(s, i) == k
    decreases k - i
  {
    if i < k {
      assert s[i] == s[i..k][0] && s[i..k][1..] == s[i + 1..k];
      NextCloseIs(s, i + 1, k);
    }
  }

  /** Braces and commas in brackets count for nothing, neither in the search for the closing
      brace nor between the alternatives. */
  lemma BracketsHide(a: seq<Char>, w: seq<Char>, b: seq<Char>, pl: nat, d: nat, pe: nat, flag: bool)
    requires 93 !in w
    ensures var s, i, j := a + [91] + w + [93] + b, |a|, |a| + |w| + 2;
      && Cut(s, i, d, flag) == Cut(s, j, d, flag)
      && (pl <= i <= pe < |s| ==> Texts(s, pl, i, d, pe, flag) == Texts(s, if flag then i else pl, j, d, pe, flag))
  {
    var s, i, k := a + [91] + w + [93] + b, |a|, |a| + 1 + |w|;
    assert s[i] == 91 && s[k] == 93 && s[i + 1..k] == w;
    NextCloseIs(s, i + 1, k);
  }

  /** A bracket that is not closed is an ordinary character, except that what is in front of it
      is forgotten. */
  lemma OpenBracketIsPlain(a: seq<Char>, w: seq<Char>, pl: nat, d: nat, pe: nat, flag: bool)
    requires 93 !in w
    ensures var s, i := a + [91] + w, |a|;
      && Cut(s, i, d, flag) == Cut(s, i + 1, d, flag)
      && (pl <= i <= pe < |s| ==> Texts(s, pl, i, d, pe, flag) == Texts(s, if flag then i else pl, i + 1, d, pe, flag))
  {
    var s, i := a + [91] + w, |a|;
    assert s[i] == 91 && s[i + 1..|s|] == w;
    NextCloseIs(s, i + 1, |s|);
  }
}
