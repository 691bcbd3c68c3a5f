/** What the calls of the brace expansion of glob.c mean. */
module GlobMeaning {
  import opened Glob
  import opened GlobBrace
  import opened GlobCalls

  // ----- scanning over pieces -----

  ghost predicate Stands(s: seq<Char>, i: nat, w: seq<Char>) {
    i + |w| <= |s| && s[i..i + |w|] == w
  }

  lemma StandsParts(s: seq<Char>, i: nat, a: seq<Char>, b: seq<Char>)
    requires Stands(s, i, a + b)
    ensures Stands(s, i, a) && Stands(s, i + |a|, b)
  {
    var w := s[i..i + |a + b|];
    assert s[i..i + |a|] == w[..|a|];
    assert s[i + |a|..i + |a| + |b|] == w[|a|..];
  }

  lemma StandsOne(s: seq<Char>, i: nat, c: Char)
    requires Stands(s, i, [c])
    ensures i < |s| && s[i] == c
  {
    assert s[i] == s[i..i + 1][0];
  }

  lemma BraceParts(s: seq<Char>, i: nat, v: seq<Char>, w: seq<Char>)
    requires Stands(s, i, [LBRACE] + v + [RBRACE] + w)
    ensures i + |v| + 2 + |w| <= |s| && s[i] == LBRACE && s[i + 1 + |v|] == RBRACE
    ensures Stands(s, i + 1, v) && Stands(s, i + 2 + |v|, w)
  {
    StandsParts(s, i, [LBRACE] + v + [RBRACE], w);
    StandsParts(s, i, [LBRACE] + v, [RBRACE]);
    StandsParts(s, i, [LBRACE], v);
    StandsOne(s, i, LBRACE);
    StandsOne(s, i + 1 + |v|, RBRACE);
  }

  lemma CommaParts(s: seq<Char>, i: nat, v: seq<Char>, w: seq<Char>)
    requires Stands(s, i, v + [COMMA] + w)
    ensures i + |v| + 1 + |w| <= |s| && s[i + |v|] == COMMA && Stands(s, i, v) && Stands(s, i + |v| + 1, w)
  {
    StandsParts(s, i, v + [COMMA], w);
    StandsParts(s, i, v, [COMMA]);
    StandsOne(s, i + |v|, COMMA);
  }

  /** A piece of a pattern inside braces is skipped. */
  lemma {:induction false} CutOver(s: seq<Char>, i: nat, ps: Pieces, w: seq<Char>, d: nat, comma: bool)
    requires Inner(ps) && w == Show(ps) && Stands(s, i, w)
    ensures Cut(s, i, d, comma) == Cut(s, i + |w|, d, comma)
    decreases ps, 1
  {
    match ps
    case Empty =>
    case And(Lone(c), r) =>
      StandsParts(s, i, [c], Show(r));
      StandsOne(s, i, c);
      CutOver(s, i + 1, r, Show(r), d, comma);
    case And(Brace(alts), r) => CutOverBrace(s, i, alts, ShowAlts(alts), r, Show(r), d, comma);
  }

  lemma {:induction false} CutOverBrace(s: seq<Char>, i: nat, alts: Alts, v: seq<Char>, r: Pieces,
                                        w: seq<Char>, d: nat, comma: bool)
    requires InnerAlts(alts) && Inner(r) && v == ShowAlts(alts) && w == Show(r)
    requires Stands(s, i, [LBRACE] + v + [RBRACE] + w)
    ensures Cut(s, i, d, comma) == Cut(s, i + |v| + 2 + |w|, d, comma)
    decreases And(Brace(alts), r), 0
  {
    BraceParts(s, i, v, w);
    CutOverAlts(s, i + 1, alts, v, d + 1, comma);
    CutOver(s, i + |v| + 2, r, w, d, comma);
  }

  lemma {:induction false} CutOverAlts(s: seq<Char>, i: nat, alts: Alts, w: seq<Char>, d: nat, comma: bool)
    requires InnerAlts(alts) && w == ShowAlts(alts) && Stands(s, i, w) && (d > 0 || !comma)
    ensures Cut(s, i, d, comma) == Cut(s, i + |w|, d, comma)
    decreases alts, 0
  {
    match alts
    case Last(p) => CutOver(s, i, p, w, d, comma);
    case Or(p, r) =>
      CommaParts(s, i, Show(p), ShowAlts(r));
      CutOver(s, i, p, Show(p), d, comma);
      CutOverAlts(s, i + |Show(p)| + 1, r, ShowAlts(r), d, comma);
  }

  /** A piece inside braces is a part of the current text. */
  lemma {:induction false} TextsOver(s: seq<Char>, pl: nat, i: nat, ps: Pieces, w: seq<Char>, d: nat, pe: nat, f: bool)
    requires Inner(ps) && w == Show(ps) && Stands(s, i, w) && pl <= i && i + |w| <= pe < |s|
    ensures Texts(s, pl, i, d, pe, f) == Texts(s, pl, i + |w|, d, pe, f)
    decreases ps, 1
  {
    match ps
    case Empty =>
    case And(Lone(c), r) =>
      StandsParts(s, i, [c], Show(r));
      StandsOne(s, i, c);
      TextsOver(s, pl, i + 1, r, Show(r), d, pe, f);
    case And(Brace(alts), r) => TextsOverBrace(s, pl, i, alts, ShowAlts(alts), r, Show(r), d, pe, f);
  }

  lemma {:induction false} TextsOverBrace(s: seq<Char>, pl: nat, i: nat, alts: Alts, v: seq<Char>, r: Pieces,
                                          w: seq<Char>, d: nat, pe: nat, f: bool)
    requires InnerAlts(alts) && Inner(r) && v == ShowAlts(alts) && w == Show(r)
    requires Stands(s, i, [LBRACE] + v + [RBRACE] + w) && pl <= i && i + |v| + 2 + |w| <= pe < |s|
    ensures Texts(s, pl, i, d, pe, f) == Texts(s, pl, i + |v| + 2 + |w|, d, pe, f)
    decreases And(Brace(alts), r), 0
  {
    BraceParts(s, i, v, w);
    TextsOverAlts(s, pl, i + 1, alts, v, d + 1, pe, f);
    TextsOver(s, pl, i + |v| + 2, r, w, d, pe, f);
  }

  lemma {:induction false} TextsOverAlts(s: seq<Char>, pl: nat, i: nat, alts: Alts, w: seq<Char>, d: nat, pe: nat,
                                         f: bool)
    requires InnerAlts(alts) && w == ShowAlts(alts) && Stands(s, i, w) && d > 0 && pl <= i && i + |w| <= pe < |s|
    ensures Texts(s, pl, i, d, pe, f) == Texts(s, pl, i + |w|, d, pe, f)
    decreases alts, 0
  {
    match alts
    case Last(p) => TextsOver(s, pl, i, p, w, d, pe, f);
    case Or(p, r) =>
      CommaParts(s, i, Show(p), ShowAlts(r));
      TextsOver(s, pl, i, p, Show(p), d, pe, f);
      TextsOverAlts(s, pl, i + |Show(p)| + 1, r, ShowAlts(r), d, pe, f);
  }

  function AltTexts(alts: Alts): seq<seq<Char>> {
    match alts
    case Last(p) => [Show(p)]
    case Or(p, r) => [Show(p)] + AltTexts(r)
  }

  /** Without brackets the texts that take the place of a brace are those of its alternatives. */
  lemma {:induction false} TextsAre(s: seq<Char>, i: nat, alts: Alts, w: seq<Char>, f: bool)
    requires InnerAlts(alts) && w == ShowAlts(alts) && Stands(s, i, w) && i + |w| < |s| && s[i + |w|] == RBRACE
    ensures Texts(s, i, i, 0, i + |w|, f) == AltTexts(alts)
    decreases alts
  {
    var v, pe := Show(alts.p), i + |w|;
    if alts.Or? {
      CommaParts(s, i, v, ShowAlts(alts.rest));
      TextsAre(s, i + |v| + 1, alts.rest, ShowAlts(alts.rest), f);
    }
    TextsOver(s, i, i, alts.p, v, 0, pe, f);
  }

  // ----- pieces and their text -----

  lemma {:induction false} ShowConcat(a: Pieces, b: Pieces)
    ensures Show(Concat(a, b)) == Show(a) + Show(b)
  {
    if a.And? {
      ShowConcat(a.tail, b);
    }
  }

  lemma {:induction false} OuterConcat(a: Pieces, b: Pieces)
    requires Outer(a) && Outer(b)
    ensures Outer(Concat(a, b))
  {
    if a.And? {
      OuterConcat(a.tail, b);
    }
  }

  lemma {:induction false} ShowLetters(w: seq<Char>)
    requires LBRACE !in w && LBRACKET !in w
    ensures Show(Letters(w)) == w && Outer(Letters(w))
  {
    if w != [] {
      ShowLetters(w[1..]);
    }
  }

  lemma {:induction false} ExpandLetters(pre: seq<Char>, w: seq<Char>, q: Pieces)
    ensures Expand(pre, Concat(Letters(w), q)) == Expand(pre + w, q)
    decreases |w|
  {
    if w == [] {
      assert pre + w == pre;
    } else {
      ExpandLetters(pre + [w[0]], w[1..], q);
      assert pre + [w[0]] + w[1..] == pre + w;
    }
  }

  // ----- what a pattern means, with a brace left open behind it or not -----

  /** Behind an open brace nothing is used, and a pair of braces is not alone. */
  function Mean(pre: seq<Char>, ps: Pieces, open: bool): seq<seq<Char>> {
    if open then Prefix(pre, Product(ps)) else Expand(pre, ps)
  }

  function MeanAlts(pre: seq<Char>, alts: Alts, r: Pieces, open: bool): seq<seq<Char>> {
    match alts
    case Last(p) => Mean(pre, Concat(p, r), open)
    case Or(p, m) => Mean(pre, Concat(p, r), open) + MeanAlts(pre, m, r, open)
  }

  lemma {:induction false} MeanAltsExpand(pre: seq<Char>, alts: Alts, r: Pieces)
    ensures MeanAlts(pre, alts, r, false) == ExpandAlts(pre, alts, r)
  {
    if alts.Or? {
      MeanAltsExpand(pre, alts.rest, r);
    }
  }

  lemma {:induction false} MeanAltsProduct(pre: seq<Char>, alts: Alts, r: Pieces)
    ensures MeanAlts(pre, alts, r, true) == Prefix(pre, Cross(Union(alts), Product(r)))
    decreases alts
  {
    ProductConcat(alts.p, r);
    if alts.Or? {
      MeanAltsProduct(pre, alts.rest, r);
      CrossAppend(Product(alts.p), Union(alts.rest), Product(r));
      PrefixAppend(pre, Cross(Product(alts.p), Product(r)), Cross(Union(alts.rest), Product(r)));
    }
  }

  lemma {:induction false} ProductLetters(w: seq<Char>, q: Pieces)
    ensures Product(Concat(Letters(w), q)) == Prefix(w, Product(q))
    decreases |w|
  {
    if w == [] {
      PrefixNothing(Product(q));
    } else {
      ProductLetters(w[1..], q);
      PrefixTwice([w[0]], w[1..], Product(q));
      assert [w[0]] + w[1..] == w;
    }
  }

  /** The pattern in which one alternative replaces the first brace. */
  lemma Chosen(w: seq<Char>, p: Pieces, r: Pieces, open: bool) returns (ps: Pieces)
    requires LBRACE !in w && LBRACKET !in w && Inner(p) && Outer(r)
    ensures Outer(ps) && Show(ps) == w + Show(p) + Show(r) && Mean([], ps, open) == Mean(w, Concat(p, r), open)
  {
    InnerOuter(p);
    OuterConcat(p, r);
    ShowConcat(p, r);
    ps := LettersFirst(w, Concat(p, r), open);
    Regroup(w, Show(p), Show(r));
  }

  lemma LettersFirst(w: seq<Char>, q: Pieces, open: bool) returns (ps: Pieces)
    requires LBRACE !in w && LBRACKET !in w && Outer(q)
    ensures Outer(ps) && Show(ps) == w + Show(q) && Mean([], ps, open) == Mean(w, q, open)
  {
    ShowLetters(w);
    OuterConcat(Letters(w), q);
    ShowConcat(Letters(w), q);
    ExpandLetters([], w, q);
    ProductLetters(w, q);
    PrefixNothing(Prefix(w, Product(q)));
    assert [] + w == w;
    return Concat(Letters(w), q);
  }

  /** A pattern with a brace: `w` is the text in front of the first one. */
  lemma {:induction false} FirstBrace(pre: seq<Char>, ps: Pieces) returns (w: seq<Char>, alts: Alts, r: Pieces)
    requires Outer(ps) && LBRACE in Show(ps)
    ensures Show(ps) == w + ([LBRACE] + ShowAlts(alts) + [RBRACE] + Show(r)) && LBRACE !in w
    ensures InnerAlts(alts) && Outer(r)
    ensures !(pre == [] && ps == PAIR) ==> Expand(pre, ps) == ExpandAlts(pre + w, alts, r)
    ensures Product(ps) == Prefix(w, Cross(Union(alts), Product(r)))
    decreases ps
  {
    if ps.head.Brace? {
      assert pre + [] == pre;
      PrefixNothing(Product(ps));
      return [], ps.head.alts, ps.tail;
    } else {
      var c := ps.head.c;
      w, alts, r := FirstBrace(pre + [c], ps.tail);
      assert pre + [c] + w == pre + ([c] + w);
      PrefixTwice([c], w, Cross(Union(alts), Product(r)));
      w := [c] + w;
    }
  }

  lemma MeanFirst(ps: Pieces, open: bool) returns (w: seq<Char>, alts: Alts, r: Pieces)
    requires Outer(ps) && LBRACE in Show(ps) && (open || ps != PAIR)
    ensures Show(ps) == w + ([LBRACE] + ShowAlts(alts) + [RBRACE] + Show(r)) && LBRACE !in w
    ensures InnerAlts(alts) && Outer(r) && Mean([], ps, open) == MeanAlts(w, alts, r, open)
  {
    w, alts, r := FirstBrace([], ps);
    assert [] + w == w;
    MeanAltsExpand(w, alts, r);
    MeanAltsProduct(w, alts, r);
    PrefixNothing(Product(ps));
  }

  lemma {:induction false} NoBrace(pre: seq<Char>, ps: Pieces)
    requires Outer(ps) && LBRACE !in Show(ps)
    ensures Expand(pre, ps) == [pre + Show(ps)]
    decreases ps
  {
    match ps
    case Empty => assert pre + [] == pre;
    case And(Lone(c), r) =>
      NoBrace(pre + [c], r);
      assert pre + [c] + Show(r) == pre + ([c] + Show(r));
    case And(Brace(alts), r) =>
  }

  lemma PairOnly(ps: Pieces)
    requires Outer(ps) && Show(ps) == [LBRACE, RBRACE]
    ensures ps == PAIR
  {
    assert Show(ps)[0] == LBRACE;
    var alts, r := ps.head.alts, ps.tail;
    assert |ShowAlts(alts)| + |Show(r)| == 0;
    ShowEmpty(r);
    ShowEmpty(alts.p);
  }

  lemma ShowEmpty(ps: Pieces)
    requires Show(ps) == []
    ensures ps == Empty
  {
  }

  lemma {:induction false} NoBraceProduct(ps: Pieces)
    requires Outer(ps) && LBRACE !in Show(ps)
    ensures Product(ps) == [Show(ps)]
    decreases ps
  {
    if ps.And? {
      NoBraceProduct(ps.tail);
    }
  }

  lemma {:induction false} NoBracket(ps: Pieces)
    requires Outer(ps)
    ensures LBRACKET !in Show(ps)
    decreases ps
  {
    if ps.And? {
      NoBracket(ps.tail);
      if ps.head.Brace? {
        NoBracketAlts(ps.head.alts);
      }
    }
  }

  lemma {:induction false} NoBracketAlts(alts: Alts)
    requires InnerAlts(alts)
    ensures LBRACKET !in ShowAlts(alts)
    decreases alts
  {
    InnerOuter(alts.p);
    NoBracket(alts.p);
    if alts.Or? {
      NoBracketAlts(alts.rest);
    }
  }

  // ----- the calls have that meaning -----

  /** A brace at the start of `tail` that is not closed. */
  ghost predicate LeftOpen(tail: seq<Char>) {
    tail != [] && tail[0] == LBRACE && Cut(tail, 1, 0, false) == |tail|
  }

  /** `t` is the end of `s`, behind `n` characters. */
  ghost predicate EndsWith(s: seq<Char>, n: nat, t: seq<Char>) {
    |s| == n + |t| && forall k {:trigger t[k]} :: 0 <= k < |t| ==> s[n + k] == t[k]
  }

  lemma {:induction false} NextCloseShift(s: seq<Char>, n: nat, t: seq<Char>, i: nat)
    requires EndsWith(s, n, t) && i <= |t|
    ensures NextClose(s, n + i) == n + NextClose(t, i)
    decreases |t| - i
  {
    if i < |t| && t[i] != RBRACKET {
      NextCloseShift(s, n, t, i + 1);
    }
  }

  lemma {:induction false} CutShift(s: seq<Char>, n: nat, t: seq<Char>, i: nat, d: nat, comma: bool)
    requires EndsWith(s, n, t) && i <= |t|
    ensures Cut(s, n + i, d, comma) == n + Cut(t, i, d, comma)
    decreases |t| - i
  {
    if i < |t| {
      var c := t[i];
      if c == LBRACKET {
        NextCloseShift(s, n, t, i + 1);
        CutShift(s, n, t, Skip(t, i) + 1, d, comma);
      } else if c == LBRACE {
        CutShift(s, n, t, i + 1, d + 1, comma);
      } else if c == RBRACE {
        if d > 0 {
          CutShift(s, n, t, i + 1, d - 1, comma);
        }
      } else if !(comma && d == 0 && c == COMMA) {
        CutShift(s, n, t, i + 1, d, comma);
      }
    }
  }

  lemma FirstAfter(s: seq<Char>, w: seq<Char>, t: seq<Char>)
    requires s == w + t && LBRACE !in w && t != [] && t[0] == LBRACE
    ensures First(s, 0) == |w| && s[..|w|] == w && s[|w|..] == t
  {
    var k := First(s, 0);
    assert s[|w|] == LBRACE && s[0..k] == s[..k];
  }

  /** `globexp1` on a pattern whose text is that of `ps`, perhaps with an open brace behind it. */
  lemma {:induction false} CallsMean(s: seq<Char>, ps: Pieces, tail: seq<Char>)
    requires Outer(ps) && s == Show(ps) + tail && (tail == [] || LeftOpen(tail))
    ensures Calls(s) == Mean([], ps, tail != [])
    decreases Count(s), 2, 0
  {
    var v := Show(ps);
    if LBRACE in v {
      if tail == [] && v == [LBRACE, RBRACE] {
        PairOnly(ps);
        assert s == v;
      } else {
        CallsFirst(s, ps, tail);
      }
    } else {
      CallsPlain(s, ps, tail);
    }
  }

  lemma CallsPlain(s: seq<Char>, ps: Pieces, tail: seq<Char>)
    requires Outer(ps) && s == Show(ps) + tail && (tail == [] || LeftOpen(tail)) && LBRACE !in Show(ps)
    ensures Calls(s) == Mean([], ps, tail != [])
  {
    MeanPlain(ps, tail != []);
    if tail == [] {
      assert s == Show(ps);
      NoBraceCalls(s);
    } else {
      OpenCalls(s, Show(ps), tail);
    }
  }

  lemma MeanPlain(ps: Pieces, open: bool)
    requires Outer(ps) && LBRACE !in Show(ps)
    ensures Mean([], ps, open) == [Show(ps)]
  {
    NoBrace([], ps);
    NoBraceProduct(ps);
    PrefixNothing(Product(ps));
    assert [] + Show(ps) == Show(ps);
  }

  /** A pattern whose first brace is open. */
  lemma OpenCalls(s: seq<Char>, v: seq<Char>, tail: seq<Char>)
    requires s == v + tail && LBRACE !in v && LeftOpen(tail)
    ensures Calls(s) == [v]
  {
    FirstAfter(s, v, tail);
    CutShift(s, |v|, tail, 1, 0, false);
  }

  lemma {:induction false} CallsFirst(s: seq<Char>, ps: Pieces, tail: seq<Char>)
    requires Outer(ps) && s == Show(ps) + tail && (tail == [] || LeftOpen(tail))
    requires LBRACE in Show(ps) && !(tail == [] && Show(ps) == [LBRACE, RBRACE])
    ensures Calls(s) == Mean([], ps, tail != [])
    decreases Count(s), 1, 0
  {
    var w, alts, r := MeanFirst(ps, tail != []);
    NoBracket(ps);
    assert LBRACKET !in w;
    BraceCalls(s, w, alts, ShowAlts(alts), Show(r), tail);
    CallsAlts(w, alts, r, tail, Count(s));
  }

  /** The calls for a pattern whose first brace is closed. */
  lemma BraceCalls(s: seq<Char>, w: seq<Char>, alts: Alts, v: seq<Char>, z: seq<Char>, tail: seq<Char>)
    requires s == w + ([LBRACE] + v + [RBRACE] + z) + tail && LBRACE !in w && InnerAlts(alts) && v == ShowAlts(alts)
    requires s != [LBRACE, RBRACE]
    ensures Fewer(w, AltTexts(alts), z + tail, Count(s))
    ensures Calls(s) == CallsOf(w, AltTexts(alts), z + tail, Count(s))
  {
    Located(s, w, v, z, tail);
    CallsAt(s, w, alts, v, |w| + 1 + |v|, z + tail);
  }

  lemma CallsAt(s: seq<Char>, w: seq<Char>, alts: Alts, v: seq<Char>, pe: nat, suf: seq<Char>)
    requires First(s, 0) == |w| && pe == |w| + 1 + |v| < |s| && s[..|w|] == w && s[|w|] == LBRACE
    requires s != [LBRACE, RBRACE]
    requires Stands(s, |w| + 1, v) && s[pe] == RBRACE && s[pe + 1..] == suf && InnerAlts(alts) && v == ShowAlts(alts)
    ensures Fewer(w, AltTexts(alts), suf, Count(s)) && Calls(s) == CallsOf(w, AltTexts(alts), suf, Count(s))
  {
    CutOverAlts(s, |w| + 1, alts, v, 0, false);
    TextsAre(s, |w| + 1, alts, v, true);
    TextsFewer(s, |w|, |w| + 1, |w| + 1, 0, pe, true);
    CallsStep(s, w, pe, AltTexts(alts), suf);
  }

  lemma CallsStep(s: seq<Char>, w: seq<Char>, pe: nat, ts: seq<seq<Char>>, suf: seq<Char>)
    requires s != [LBRACE, RBRACE] && First(s, 0) == |w| < |s| && Cut(s, |w| + 1, 0, false) == pe < |s|
    requires Texts(s, |w| + 1, |w| + 1, 0, pe, true) == ts && s[..|w|] == w && s[pe + 1..] == suf
    requires Fewer(w, ts, suf, Count(s))
    ensures Calls(s) == CallsOf(w, ts, suf, Count(s))
  {
  }

  /** Where the first brace is, and what is before, in and behind it. */
  lemma Located(s: seq<Char>, w: seq<Char>, v: seq<Char>, z: seq<Char>, tail: seq<Char>)
    requires s == w + ([LBRACE] + v + [RBRACE] + z) + tail && LBRACE !in w
    ensures First(s, 0) == |w| && s[..|w|] == w && Stands(s, |w| + 1, v)
    ensures |w| + 1 + |v| < |s| && s[|w| + 1 + |v|] == RBRACE && s[|w| + 2 + |v|..] == z + tail
  {
    var open := [LBRACE] + v + [RBRACE];
    Outermost(w, open, z, tail);
    FirstAfter(s, w, open + (z + tail));
    SplitText(s, |w|, v, z + tail);
  }

  lemma SplitText(s: seq<Char>, ptr: nat, v: seq<Char>, z: seq<Char>)
    requires ptr <= |s| && s[ptr..] == [LBRACE] + v + [RBRACE] + z
    ensures ptr + |v| + 1 < |s| && Stands(s, ptr + 1, v) && s[ptr + |v| + 1] == RBRACE && s[ptr + |v| + 2..] == z
  {
    assert [LBRACE] + v + [RBRACE] + z == [LBRACE] + (v + ([RBRACE] + z));
    TailPart(s, ptr, [LBRACE], v + ([RBRACE] + z));
    TailPart(s, ptr + 1, v, [RBRACE] + z);
    TailPart(s, ptr + 1 + |v|, [RBRACE], z);
    StandsOne(s, ptr + 1 + |v|, RBRACE);
  }

  lemma TailPart(s: seq<Char>, i: nat, a: seq<Char>, b: seq<Char>)
    requires i <= |s| && s[i..] == a + b
    ensures Stands(s, i, a) && s[i + |a|..] == b
  {
    assert s[i..i + |a|] == s[i..][..|a|];
    assert s[i + |a|..] == s[i..][|a|..];
  }

  lemma {:induction false} CallsAlts(w: seq<Char>, alts: Alts, r: Pieces, tail: seq<Char>, n: nat)
    requires LBRACE !in w && LBRACKET !in w && InnerAlts(alts) && Outer(r) && (tail == [] || LeftOpen(tail))
    requires Fewer(w, AltTexts(alts), Show(r) + tail, n)
    ensures CallsOf(w, AltTexts(alts), Show(r) + tail, n) == MeanAlts(w, alts, r, tail != [])
    decreases n, 0, alts
  {
    var ts, suf, v := AltTexts(alts), Show(r) + tail, Show(alts.p);
    assert ts[0] == v && v in ts;
    var q := Chosen(w, alts.p, r, tail != []);
    assert w + v + suf == Show(q) + tail;
    CallsMean(w + v + suf, q, tail);
    if alts.Or? {
      assert ts[1..] == AltTexts(alts.rest);
      CallsAlts(w, alts.rest, r, tail, n);
    } else {
      assert ts[1..] == [];
    }
  }

  // ----- every pattern whose braces are closed has pieces -----

  /** Every opening brace from `i` on is closed. */
  ghost predicate AllClosed(s: seq<Char>, i: nat) {
    forall j :: i <= j < |s| && s[j] == LBRACE ==> Cut(s, j + 1, 0, false) < |s|
  }

  lemma {:induction false} LessDeep(s: seq<Char>, i: nat, d: nat)
    requires i <= |s| && Cut(s, i, d, false) < |s|
    ensures Cut(s, i, 0, false) < |s|
    decreases d
  {
    if d > 0 {
      CutNest(s, i, d - 1, false);
      LessDeep(s, i, d - 1);
    }
  }

  /** The braces inside a closed one are closed. */
  lemma {:induction false} InnerClosed(s: seq<Char>, i: nat, d: nat, j: nat)
    requires LBRACKET !in s && i <= j < |s| && j < Cut(s, i, d, false) < |s| && s[j] == LBRACE
    ensures Cut(s, j + 1, 0, false) < |s|
    decreases j - i
  {
    if i == j {
      LessDeep(s, j + 1, d + 1);
    } else if s[i] == LBRACE {
      InnerClosed(s, i + 1, d + 1, j);
    } else if s[i] == RBRACE {
      InnerClosed(s, i + 1, d - 1, j);
    } else {
      InnerClosed(s, i + 1, d, j);
    }
  }

  /** From the inside of `e + 1` braces one gets out through the brace that closes them. */
  lemma {:induction false} CutNest(s: seq<Char>, i: nat, e: nat, comma: bool)
    requires i <= |s|
    ensures var m := Cut(s, i, e, false);
      Cut(s, i, e + 1, comma) == if m == |s| then m else Cut(s, m + 1, 0, comma)
    decreases |s| - i
  {
    if i < |s| {
      if s[i] == LBRACKET {
        CutNest(s, Skip(s, i) + 1, e, comma);
      } else if s[i] == LBRACE {
        CutNest(s, i + 1, e + 1, comma);
      } else if s[i] == RBRACE {
        if e > 0 {
          CutNest(s, i + 1, e - 1, comma);
        }
      } else {
        CutNest(s, i + 1, e, comma);
      }
    }
  }

  /** What stands at a cut, and how the two kinds of cut are related. */
  lemma {:induction false} CutComma(s: seq<Char>, i: nat, d: nat)
    requires i <= |s|
    ensures var c := Cut(s, i, d, true);
      && (c < |s| ==> s[c] == COMMA || s[c] == RBRACE)
      && Cut(s, i, d, false) == if c < |s| && s[c] == COMMA then Cut(s, c + 1, 0, false) else c
    decreases |s| - i
  {
    if i < |s| {
      if s[i] == LBRACKET {
        CutComma(s, Skip(s, i) + 1, d);
      } else if s[i] == LBRACE {
        CutComma(s, i + 1, d + 1);
      } else if s[i] == RBRACE {
        if d > 0 {
          CutComma(s, i + 1, d - 1);
        }
      } else if s[i] != COMMA || d > 0 {
        CutComma(s, i + 1, d);
      }
    }
  }

  lemma {:induction false} ReadAlts(s: seq<Char>, i: nat) returns (alts: Alts)
    requires LBRACKET !in s && i <= |s| && Cut(s, i, 0, false) < |s|
    ensures InnerAlts(alts) && ShowAlts(alts) == s[i..Cut(s, i, 0, false)]
    decreases |s| - i, 1
  {
    var c, k := Cut(s, i, 0, true), Cut(s, i, 0, false);
    CutComma(s, i, 0);
    var p := ReadInner(s, i);
    if s[c] == COMMA {
      var rest := ReadAlts(s, c + 1);
      assert s[i..k] == s[i..c] + [s[c]] + s[c + 1..k];
      return Or(p, rest);
    } else {
      return Last(p);
    }
  }

  lemma {:induction false} ReadInner(s: seq<Char>, i: nat) returns (ps: Pieces)
    requires LBRACKET !in s && i <= |s| && Cut(s, i, 0, true) < |s|
    ensures Inner(ps) && Show(ps) == s[i..Cut(s, i, 0, true)]
    decreases |s| - i, 0
  {
    var c := Cut(s, i, 0, true);
    if c == i {
      return Empty;
    } else if s[i] == LBRACE {
      CutNest(s, i + 1, 0, true);
      var m := Cut(s, i + 1, 0, false);
      var alts := ReadAlts(s, i + 1);
      var rest := ReadInner(s, m + 1);
      CloseIsBrace(s, i + 1, 0);
      Rejoin(s, i, m, c);
      return And(Brace(alts), rest);
    } else {
      var rest := ReadInner(s, i + 1);
      assert s[i..c] == [s[i]] + s[i + 1..c];
      return And(Lone(s[i]), rest);
    }
  }

  lemma Rejoin(s: seq<Char>, i: nat, m: nat, c: nat)
    requires i < m < c <= |s| && s[i] == LBRACE && s[m] == RBRACE
    ensures s[i..c] == [LBRACE] + s[i + 1..m] + [RBRACE] + s[m + 1..c]
  {
  }

  lemma {:induction false} CloseIsBrace(s: seq<Char>, i: nat, d: nat)
    requires i <= |s|
    ensures var m := Cut(s, i, d, false); m < |s| ==> s[m] == RBRACE
    decreases |s| - i
  {
    if i < |s| {
      if s[i] == LBRACKET {
        CloseIsBrace(s, Skip(s, i) + 1, d);
      } else if s[i] == LBRACE {
        CloseIsBrace(s, i + 1, d + 1);
      } else if s[i] == RBRACE {
        if d > 0 {
          CloseIsBrace(s, i + 1, d - 1);
        }
      } else {
        CloseIsBrace(s, i + 1, d);
      }
    }
  }

  lemma ClosedBehind(s: seq<Char>, i: nat, m: nat)
    requires LBRACKET !in s && i < |s| && s[i] == LBRACE && m == Cut(s, i + 1, 0, false) < |s| && s[m] == RBRACE
    ensures AllClosed(s, i) <==> AllClosed(s, m + 1)
  {
    forall j | i < j < m && s[j] == LBRACE ensures Cut(s, j + 1, 0, false) < |s| {
      InnerClosed(s, i + 1, 0, j);
    }
  }

  /** A pattern without brackets is the text of some pieces, up to an open brace if there is one. */
  lemma {:induction false} ReadOuter(s: seq<Char>, i: nat) returns (ps: Pieces, tail: seq<Char>)
    requires LBRACKET !in s && i <= |s|
    ensures Outer(ps) && Show(ps) + tail == s[i..] && (tail == [] || LeftOpen(tail))
    ensures tail == [] <==> AllClosed(s, i)
    decreases |s| - i
  {
    if i == |s| {
      return Empty, [];
    } else if s[i] == LBRACE {
      var m := Cut(s, i + 1, 0, false);
      if m == |s| {
        StaysOpen(s, i);
        return Empty, s[i..];
      }
      var alts := ReadAlts(s, i + 1);
      var r;
      r, tail := ReadOuter(s, m + 1);
      BraceHead(s, i, m, alts, r, tail);
      return And(Brace(alts), r), tail;
    } else {
      var r;
      r, tail := ReadOuter(s, i + 1);
      LoneHead(s, i, r, tail);
      return And(Lone(s[i]), r), tail;
    }
  }

  lemma StaysOpen(s: seq<Char>, i: nat)
    requires i < |s| && s[i] == LBRACE && Cut(s, i + 1, 0, false) == |s|
    ensures LeftOpen(s[i..]) && !AllClosed(s, i) && [] + s[i..] == s[i..]
  {
    CutShift(s, i, s[i..], 1, 0, false);
  }

  lemma LoneHead(s: seq<Char>, i: nat, ps: Pieces, tail: seq<Char>)
    requires i < |s| && s[i] != LBRACE && s[i] != LBRACKET && Outer(ps) && Show(ps) + tail == s[i + 1..]
    ensures Outer(And(Lone(s[i]), ps)) && Show(And(Lone(s[i]), ps)) + tail == s[i..]
    ensures AllClosed(s, i) <==> AllClosed(s, i + 1)
  {
    assert s[i..] == [s[i]] + s[i + 1..];
    Regroup([s[i]], Show(ps), tail);
  }

  lemma BraceHead(s: seq<Char>, i: nat, m: nat, alts: Alts, ps: Pieces, tail: seq<Char>)
    requires LBRACKET !in s && i < |s| && s[i] == LBRACE && m == Cut(s, i + 1, 0, false) < |s|
    requires ShowAlts(alts) == s[i + 1..m] && Show(ps) + tail == s[m + 1..] && InnerAlts(alts) && Outer(ps)
    ensures Outer(And(Brace(alts), ps)) && Show(And(Brace(alts), ps)) + tail == s[i..]
    ensures AllClosed(s, i) <==> AllClosed(s, m + 1)
  {
    CloseIsBrace(s, i + 1, 0);
    ClosedBehind(s, i, m);
    BraceText(s, i, m, ShowAlts(alts), Show(ps), tail);
  }

  lemma BraceText(s: seq<Char>, i: nat, m: nat, inner: seq<Char>, rest: seq<Char>, tail: seq<Char>)
    requires i < |s| && s[i] == LBRACE && m == Cut(s, i + 1, 0, false) < |s|
    requires inner == s[i + 1..m] && rest + tail == s[m + 1..]
    ensures [LBRACE] + inner + [RBRACE] + rest + tail == s[i..]
  {
    CloseIsBrace(s, i + 1, 0);
    Rejoin(s, i, m, |s|);
    Regroup([LBRACE] + inner + [RBRACE], rest, tail);
  }

  lemma Outermost(a: seq<Char>, b: seq<Char>, c: seq<Char>, d: seq<Char>)
    ensures a + (b + c) + d == a + (b + (c + d))
  {
    Regroup(a, b + c, d);
    Regroup(b, c, d);
  }

  lemma Regroup(a: seq<Char>, b: seq<Char>, c: seq<Char>)
    ensures a + b + c == a + (b + c)
  {
  }

  /** What the calls for a pattern without brackets are: its pieces are expanded, and if a brace
      is left open, the text from it on is not used. */
  ghost predicate Meant(pattern: seq<Char>, calls: seq<seq<Char>>, ps: Pieces, tail: seq<Char>) {
    && Outer(ps) && Show(ps) + tail == pattern && (tail == [] || LeftOpen(tail))
    && (tail == [] <==> AllClosed(pattern, 0)) && calls == Mean([], ps, tail != [])
  }

  /** `globexp1` on any pattern without brackets. */
  method ExpandBraces(pattern: seq<Char>) returns (calls: seq<seq<Char>>)
    requires LBRACKET !in pattern
    ensures exists ps, tail :: Meant(pattern, calls, ps, tail)
  {
    ghost var ps, tail := ReadOuter(pattern, 0);
    assert pattern[0..] == pattern;
    var g := new Globber();
    g.Expand1(pattern);
    CallsMean(pattern, ps, tail);
    assert Meant(pattern, g.calls, ps, tail);
    return g.calls;
  }

  /** Of x{a only x is used. */
  lemma OpenBraceDropsText()
    ensures Calls([120, 123, 97]) == [[120]]
  {
    var s: seq<Char>, w: seq<Char>, tail: seq<Char> := [120, LBRACE, 97], [120], [LBRACE, 97];
    ShowLetters(w);
    NoBraceProduct(Letters(w));
    PrefixNothing(Product(Letters(w)));
    assert Cut(tail, 2, 0, false) == 2;
    CallsMean(s, Letters(w), tail);
  }
}
