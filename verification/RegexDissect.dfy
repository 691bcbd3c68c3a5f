/** `dissect` (libc/posix/engine.c): which part of a match belongs to which subexpression. */
module RegexDissect {
  import opened Bytes
  import opened RegexStrip
  import opened RegexMatcher
  import opened RegexLanguage
  import opened RegexRuns
  import opened RegexTurns
  import opened RegexWays

  // ----- splitting a match between a subexpression and the rest -----

  /** A run through two adjoining ranges is a run through the first, then one through the second. */
  lemma SpansSplit(strip: seq<Sop>, lo: int, mid: int, hi: int, text: seq<byte>, i: int, j: int) returns (k: int)
    requires WellFormed(strip, lo, mid) && WellFormed(strip, mid, hi) && 0 <= i <= |text|
    requires Spans(strip, lo, hi, text, i, j)
    ensures i <= k <= j <= |text| && Spans(strip, lo, mid, text, i, k) && Spans(strip, mid, hi, text, k, j)
  {
    var via := (k: int, c: Config) =>
      Spans(strip, lo, mid, text, i, k) && Reaches(strip, mid, hi, text, Config(mid, k), c);
    var inv := (c: Config) =>
      if c.q < mid then Reaches(strip, lo, mid, text, Config(lo, i), c) else exists k :: via(k, c);
    assert inv(Config(lo, i)) by {
      ReachesRefl(strip, lo, mid, text, Config(lo, i));
      ReachesRefl(strip, mid, hi, text, Config(mid, i));
      assert lo == mid ==> via(i, Config(lo, i));
    }
    forall x, y | Edge(strip, lo, hi, text, x, y) && inv(x) ensures inv(y) {
      if x.q < mid {
        EpsSuccInRange(strip, lo, mid, x.q);
        ReachesStep(strip, lo, mid, text, Config(lo, i), x, y);
        ReachesRefl(strip, mid, hi, text, y);
        assert y.q == mid ==> y == Config(mid, y.i) && via(y.i, y);
      } else {
        var k :| via(k, x);
        EpsSuccInRange(strip, mid, hi, x.q);
        ReachesStep(strip, mid, hi, text, Config(mid, k), x, y);
        assert via(k, y);
      }
    }
    ReachesInvariant(strip, lo, hi, text, Config(lo, i), Config(hi, j), inv);
    k :| via(k, Config(hi, j));
    ReachesBounds(strip, lo, mid, text, Config(lo, i), Config(mid, k));
    ReachesBounds(strip, mid, hi, text, Config(mid, k), Config(hi, j));
  }

  /** `rest` can be the border between the group `ss..es` and the remainder `es..stopst`. */
  ghost predicate GroupBorder(strip: seq<Sop>, ss: int, es: int, stopst: int, text: seq<byte>, sp: int, stop: int,
                              rest: int) {
    Spans(strip, ss, es, text, sp, rest) && Spans(strip, es, stopst, text, rest, stop)
  }

  /** The loop shared by the OQUEST_, OPLUS_ and OCH_ cases: back off from the longest match
      of the group until the rest of the expression matches the rest of the text. */
  method SplitGroup(m: Match, sp: int, stop: int, ss: int, es: int, stopst: int) returns (rest: int)
    requires WellFormed(m.strip, ss, es) && WellFormed(m.strip, es, stopst)
    requires 0 <= sp <= stop <= |m.text|
    requires Spans(m.strip, ss, stopst, m.text, sp, stop)
    ensures sp <= rest <= stop && GroupBorder(m.strip, ss, es, stopst, m.text, sp, stop, rest)
    ensures forall k :: rest < k <= stop ==> !GroupBorder(m.strip, ss, es, stopst, m.text, sp, stop, k)
  {
    ghost var k := SpansSplit(m.strip, ss, es, stopst, m.text, sp, stop);
    var stp := stop;
    while true
      invariant k <= stp <= stop
      invariant forall b :: stp < b <= stop ==> !GroupBorder(m.strip, ss, es, stopst, m.text, sp, stop, b)
      decreases stp
    {
      var r := m.Slow(sp, stp, ss, es);
      assert r.At? && k <= r.p;
      rest := r.p;
      var tail := m.Slow(rest, stop, es, stopst);
      if tail == At(stop) {
        break;
      }
      stp := rest - 1;
    }
  }

  // ----- the branch of a choice -----

  /** The first branch that matches `text[i..j]`, or else the last branch. */
  ghost function PickAlts(a: Alts, text: seq<byte>, i: int, j: int): Re {
    match a
    case Last(re) => re
    case More(re, rest) => if Lang(re, text, i, j) then re else PickAlts(rest, text, i, j)
  }

  ghost function Pick(f: Re, r: Alts, text: seq<byte>, i: int, j: int): Re {
    if Lang(f, text, i, j) then f else PickAlts(r, text, i, j)
  }

  /** The branch that is found is the one on the way taken. */
  lemma {:induction false} PickedAlt(a: Alts, text: seq<byte>, i: int, j: int, n: int)
    requires LangAlts(a, text, i, j) && ParensAlts(a, n)
    ensures var p := PickAlts(a, text, i, j);
      && Lang(p, text, i, j) && Parens(p, n)
      && TakenAlts(a, text, i, j) == Taken(p, text, i, j) && (CleanAlts(a, text, i, j) <==> Clean(p, text, i, j))
    decreases a
  {
    if a.More? && !Lang(a.re, text, i, j) {
      PickedAlt(a.rest, text, i, j, n);
    }
  }

  lemma PickedBranch(f: Re, r: Alts, text: seq<byte>, i: int, j: int, n: int)
    requires LangItem(Choice(f, r), text, i, j) && ParensItem(Choice(f, r), n)
    ensures var p, it := Pick(f, r, text, i, j), Choice(f, r);
      && Lang(p, text, i, j) && Parens(p, n)
      && TakenItem(it, text, i, j) == Taken(p, text, i, j) && (CleanItem(it, text, i, j) <==> Clean(p, text, i, j))
  {
    if !Lang(f, text, i, j) {
      PickedAlt(r, text, i, j, n);
    }
  }

  /** What is left of the branches when one of them is looked at. */
  datatype Tail = NoMore | Then(alts: Alts)

  /** The search has come to the branch `cur`, which ends at `esub`: before an OOR1 and the
      remaining branches, or at the O_CH.  None of the branches before it matched. */
  ghost predicate Looking(strip: seq<Sop>, text: seq<byte>, i: int, j: int, hi: int, ssub: int, esub: int,
                          cur: Re, tail: Tail, picked: Re) {
    match tail
    case NoMore =>
      && 0 <= ssub <= esub == hi - 1 < |strip| && ReAt(strip, ssub, esub, cur)
      && Lang(cur, text, i, j) && picked == cur
    case Then(a) =>
      && 0 <= ssub <= esub < hi && ReAt(strip, ssub, esub, cur) && AltsAt(strip, esub + 1, hi, a)
      && (Lang(cur, text, i, j) || LangAlts(a, text, i, j)) && picked == Pick(cur, a, text, i, j)
  }

  lemma NextBranch(strip: seq<Sop>, at: int, es: int, a: Alts)
    requires AltsAt(strip, at, es, a)
    ensures 0 <= at < es <= |strip| && strip[at].OOr2?
    ensures var e := at + strip[at].fwd;
      && at < e < es && (strip[e].OOr2? ==> at + 1 < e)
      && if strip[e].OOr2? then a.More? && ReAt(strip, at + 1, e - 1, a.re) && AltsAt(strip, e, es, a.rest)
         else a.Last? && e == es - 1 && ReAt(strip, at + 1, e, a.re)
  {
    AltsChoiceEnd(strip, at, es, a);
    if a.More? {
      AltsChoiceEnd(strip, at + strip[at].fwd, es, a.rest);
    }
  }

  /** `slow(m, sp, rest, ssub, esub) == rest` on the strip of an expression. */
  method MatchesAll(m: Match, sp: int, rest: int, ssub: int, esub: int, ghost re: Re) returns (whole: bool)
    requires ReAt(m.strip, ssub, esub, re) && 0 <= sp <= rest <= |m.text|
    ensures whole <==> Lang(re, m.text, sp, rest)
  {
    ReOk(m.strip, ssub, esub, re);
    SpansIffLang(m.strip, ssub, esub, re, m.text, sp, rest);
    var s := m.Slow(sp, rest, ssub, esub);
    whole := s == At(rest);
  }

  /** The step of the search from a branch that does not match to the next one. */
  lemma LookOn(strip: seq<Sop>, text: seq<byte>, i: int, j: int, hi: int, ssub: int, esub: int,
               cur: Re, tail: Tail, picked: Re)
    requires Looking(strip, text, i, j, hi, ssub, esub, cur, tail, picked) && !Lang(cur, text, i, j)
    ensures tail.Then? && esub + 1 < |strip| && strip[esub + 1].OOr2?
    ensures var a := tail.alts;
      var e := esub + 1 + strip[esub + 1].fwd;
      && esub + 1 < e < hi <= |strip|
      && if strip[e].OOr2? then a.More? && Looking(strip, text, i, j, hi, esub + 2, e - 1, a.re, Then(a.rest), picked)
         else Looking(strip, text, i, j, hi, esub + 2, e, a.re, NoMore, picked)
  {
    NextBranch(strip, esub + 1, hi, tail.alts);
  }

  /** The loop of the OCH_ case that finds the first branch matching all of `text[sp..rest]`. */
  method FindBranch(m: Match, sp: int, rest: int, ss: int, ghost es: int, ghost f: Re, ghost r: Alts)
    returns (ssub: int, esub: int)
    requires ItemAt(m.strip, ss, es, Choice(f, r)) && LangItem(Choice(f, r), m.text, sp, rest)
    ensures ReAt(m.strip, ssub, esub, Pick(f, r, m.text, sp, rest)) && ss < ssub <= esub < es
  {
    LangItemBounds(Choice(f, r), m.text, sp, rest);
    ssub := ss + 1;
    esub := ss + m.strip[ss].fwd - 1;
    ghost var cur, tail, picked := f, Then(r), Pick(f, r, m.text, sp, rest);
    while true
      invariant Looking(m.strip, m.text, sp, rest, es, ssub, esub, cur, tail, picked) && ss < ssub
      decreases tail.Then?, if tail.Then? then tail.alts else r
    {
      var whole := MatchesAll(m, sp, rest, ssub, esub, cur);
      if whole {
        break;
      }
      LookOn(m.strip, m.text, sp, rest, es, ssub, esub, cur, tail, picked);
      esub := esub + 1;
      ssub := esub + 1;
      esub := esub + m.strip[esub].fwd;
      cur := tail.alts.re;
      if m.strip[esub].OOr2? {
        esub := esub - 1;
        tail := Then(tail.alts.rest);
      } else {
        tail := NoMore;
      }
    }
  }

  // ----- the last turn of a loop -----

  lemma SlowIsTurn(strip: seq<Sop>, text: seq<byte>, ssub: int, esub: int, b: Re, i: int, rest: int)
    requires ReAt(strip, ssub, esub, b) && 0 <= i <= rest <= |text|
    ensures forall e :: Spans(strip, ssub, esub, text, i, e) <==> Lang(b, text, i, e)
    ensures forall e :: Longest(strip, ssub, esub, text, i, rest, e) ==> LongestTurn(b, text, i, rest, e)
  {
    forall e ensures Spans(strip, ssub, esub, text, i, e) <==> Lang(b, text, i, e) {
      SpansIffLang(strip, ssub, esub, b, text, i, e);
    }
  }

  /** The search of the OPLUS_ case for the last turn of the loop.  It takes the longest
      match of the body at every turn; `ok` is the assertion that this exhausts the text. */
  method FindLastTurn(m: Match, sp: int, rest: int, ssub: int, esub: int, ghost b: Re) returns (ok: bool, ssp: int)
    requires ReAt(m.strip, ssub, esub, b) && LangItem(Plus(b), m.text, sp, rest)
    ensures ok <==> GreedyEnd(b, m.text, sp, rest) == rest
    ensures Exhaustive(b) ==> ok
    ensures ok ==> ssp == LastStart(b, m.text, sp, rest) && Lang(b, m.text, ssp, rest)
  {
    LangItemBounds(Plus(b), m.text, sp, rest);
    ReOk(m.strip, ssub, esub, b);
    PlusHasTurn(b, m.text, sp, rest);
    ssp := sp;
    var oldssp := ssp;
    var sep;
    while true
      invariant sp <= ssp <= rest && GreedyEnd(b, m.text, sp, rest) == GreedyEnd(b, m.text, ssp, rest)
      invariant LastStart(b, m.text, sp, rest) ==
        if HasTurn(b, m.text, ssp, rest) then LastStart(b, m.text, ssp, rest) else oldssp
      decreases rest - ssp
    {
      sep := m.Slow(ssp, rest, ssub, esub);
      SlowIsTurn(m.strip, m.text, ssub, esub, b, ssp, rest);
      if sep == Null || sep == At(ssp) {
        assert !exists e :: ssp < e && LongestTurn(b, m.text, ssp, rest, e);
        break;
      }
      GreedyStep(b, m.text, ssp, rest, sep.p);
      oldssp := ssp;
      ssp := sep.p;
    }
    if sep == Null {
      sep := At(ssp);
      ssp := oldssp;
    }
    ok := sep == At(rest);
    TurnsExhaustIff(b);
    if ok {
      LastTurnIsTurn(b, m.text, sp, rest);
    }
  }

  // ----- the whole of dissect -----

  /** The identification of the end of the subexpression at `ss`. */
  method FindGroupEnd(strip: seq<Sop>, ss: int, ghost es: int, ghost it: Item) returns (r: int)
    requires 0 <= ss < |strip| && es == GroupEnd(strip, ss) && ItemAt(strip, ss, es, it)
    ensures r == es
  {
    r := ss;
    match strip[ss] {
      case OPlusOpen(n) => r := r + n;
      case OQuestOpen(n) => r := r + n;
      case OChOpen(n) =>
        AltsChoiceEnd(strip, ss + n, es, it.rest);
        while !strip[r].OChClose?
          invariant ss <= r < |strip| && (r == ss || (strip[r].OOr2? || strip[r].OChClose?))
          invariant if r == ss then strip[r] == OChOpen(n) else ChoiceEnd(strip, r) == es - 1
          decreases |strip| - r
        {
          r := r + strip[r].fwd;
        }
      case _ =>
    }
    r := r + 1;
  }

  lemma HeadOf(strip: seq<Sop>, lo: int, hi: int, re: Re)
    requires ReAt(strip, lo, hi, re)
    ensures 0 <= lo <= hi <= |strip| && WellFormed(strip, lo, hi)
    ensures re.Nil? <==> lo == hi
    ensures re.Cons? ==> lo < GroupEnd(strip, lo) <= hi && WellFormed(strip, lo, GroupEnd(strip, lo)) &&
                         WellFormed(strip, GroupEnd(strip, lo), hi)
  {
    ReOk(strip, lo, hi, re);
    if re.Cons? {
      ItemOk(strip, lo, GroupEnd(strip, lo), re.head);
      ReOk(strip, GroupEnd(strip, lo), hi, re.tail);
    }
  }

  /** The expression `re` stands in the range, matches the text and has slots for its parentheses. */
  ghost predicate Ready(strip: seq<Sop>, text: seq<byte>, n: int, ss: int, stopst: int, sp: int, stop: int, re: Re) {
    ReAt(strip, ss, stopst, re) && Lang(re, text, sp, stop) && Parens(re, n)
  }

  /** `dissect`: the text `start..stop` is known to match, and the parentheses passed on the way
      taken are recorded.  `ok` is false when the assertion of a loop fails. */
  method Dissect(m: Match, start: int, stop: int, startst: int, stopst: int, ghost re: Re) returns (ok: bool)
    requires Ready(m.strip, m.text, |m.pmatch|, startst, stopst, start, stop, re)
    modifies m`pmatch
    ensures |m.pmatch| == |old(m.pmatch)| && (ok <==> Clean(re, m.text, start, stop))
    ensures ok ==> m.pmatch == Record(old(m.pmatch), m.off, Taken(re, m.text, start, stop))
    decreases stopst - startst, 2
  {
    var sp, ss := start, startst;
    ghost var cur, n, ev := re, |m.pmatch|, [];
    HeadOf(m.strip, ss, stopst, cur);
    while ss < stopst
      invariant startst <= ss <= stopst && Ready(m.strip, m.text, n, ss, stopst, sp, stop, cur)
      invariant |m.pmatch| == n && m.pmatch == Record(old(m.pmatch), m.off, ev)
      invariant OnTheWay(re, m.text, start, stop, cur, sp, ev)
      decreases stopst - ss
    {
      HeadOf(m.strip, ss, stopst, cur);
      var es := FindGroupEnd(m.strip, ss, GroupEnd(m.strip, ss), cur.head);
      var rest;
      ok, rest := DissectItem(m, sp, stop, ss, es, stopst, cur);
      FurtherOn(re, m.text, start, stop, cur, sp, ev, rest);
      if !ok {
        return;
      }
      RecordConcat(old(m.pmatch), m.off, ev, TakenItem(cur.head, m.text, sp, rest));
      ev := ev + TakenItem(cur.head, m.text, sp, rest);
      sp, ss, cur := rest, es, cur.tail;
    }
    HeadOf(m.strip, ss, stopst, cur);
    assert ev + [] == ev;
    ok := true;
  }

  /** With `ev` recorded and `cur` to come from `sp` on, the way of `re` is followed. */
  ghost predicate OnTheWay(re: Re, text: seq<byte>, start: int, stop: int, cur: Re, sp: int, ev: seq<Event>) {
    && Taken(re, text, start, stop) == ev + Taken(cur, text, sp, stop)
    && (Clean(re, text, start, stop) <==> Clean(cur, text, sp, stop))
  }

  lemma FurtherOn(re: Re, text: seq<byte>, start: int, stop: int, cur: Re, sp: int, ev: seq<Event>, rest: int)
    requires OnTheWay(re, text, start, stop, cur, sp, ev) && cur.Cons?
    requires rest == BorderOf(cur.head, cur.tail, text, sp, stop)
    ensures !CleanItem(cur.head, text, sp, rest) ==> !Clean(re, text, start, stop)
    ensures CleanItem(cur.head, text, sp, rest) ==>
      OnTheWay(re, text, start, stop, cur.tail, rest, ev + TakenItem(cur.head, text, sp, rest))
  {
    var a, b := TakenItem(cur.head, text, sp, rest), Taken(cur.tail, text, rest, stop);
    assert ev + (a + b) == ev + a + b;
  }

  /** The split of a match between the first item of an expression and the rest of it. */
  method SplitItem(m: Match, sp: int, stop: int, ss: int, es: int, stopst: int, ghost cur: Re) returns (rest: int)
    requires cur.Cons? && ReAt(m.strip, ss, stopst, cur) && es == GroupEnd(m.strip, ss) && Lang(cur, m.text, sp, stop)
    ensures sp <= rest <= stop && LastBorder(cur.head, cur.tail, m.text, sp, stop, rest)
  {
    HeadOf(m.strip, ss, stopst, cur);
    LangBounds(cur, m.text, sp, stop);
    SpansIffLang(m.strip, ss, stopst, cur, m.text, sp, stop);
    rest := SplitGroup(m, sp, stop, ss, es, stopst);
    forall k | sp <= k <= stop
      ensures GroupBorder(m.strip, ss, es, stopst, m.text, sp, stop, k) <==>
              LangItem(cur.head, m.text, sp, k) && Lang(cur.tail, m.text, k, stop)
    {
      assert ReAt(m.strip, ss, es, Cons(cur.head, Nil));
      SpansIffLang(m.strip, ss, es, Cons(cur.head, Nil), m.text, sp, k);
      SpansIffLang(m.strip, es, stopst, cur.tail, m.text, k, stop);
      LangOne(cur.head, m.text, sp, k);
    }
    forall k | k > rest ensures !Border(cur.head, cur.tail, m.text, sp, stop, k) {
      if Border(cur.head, cur.tail, m.text, sp, stop, k) {
        LangBounds(cur.tail, m.text, k, stop);
      }
    }
  }

  lemma OpOfItem(strip: seq<Sop>, lo: int, hi: int, it: Item)
    requires ItemAt(strip, lo, hi, it)
    ensures 0 <= lo < hi <= |strip|
    ensures match it
      case One(a) => strip[lo] == AtomOp(a)
      case Plus(b) => strip[lo].OPlusOpen? && ReAt(strip, lo + 1, hi - 1, b)
      case Quest(b) => strip[lo].OQuestOpen? && ReAt(strip, lo + 1, hi - 1, b)
      case Choice(_, _) => strip[lo].OChOpen?
  {
  }

  lemma RecordOne(slots: seq<Slot>, off: int, e: Event)
    requires e.num < |slots|
    ensures Record(slots, off, [e]) ==
      slots[e.num := if e.Open? then slots[e.num].(so := e.at + off) else slots[e.num].(eo := e.at + off)]
  {
    assert [e][..0] == [];
  }

  /** An atom has only one border. */
  lemma AtomBorder(a: Atom, t: Re, text: seq<byte>, sp: int, stop: int)
    requires Lang(Cons(One(a), t), text, sp, stop)
    ensures LastBorder(One(a), t, text, sp, stop, if a.LParen? || a.RParen? then sp else sp + 1)
  {
    AtomSplit(a, t, text, sp, stop);
  }

  /** The body of an optional group is entered exactly if it matches the text of the group. */
  method DissectQuest(m: Match, sp: int, rest: int, ss: int, es: int, ghost b: Re) returns (ok: bool)
    requires ItemAt(m.strip, ss, es, Quest(b)) && LangItem(Quest(b), m.text, sp, rest)
    requires ParensItem(Quest(b), |m.pmatch|)
    modifies m`pmatch
    ensures |m.pmatch| == |old(m.pmatch)| && (ok <==> CleanItem(Quest(b), m.text, sp, rest))
    ensures ok ==> m.pmatch == Record(old(m.pmatch), m.off, TakenItem(Quest(b), m.text, sp, rest))
    decreases es - ss, 0
  {
    OpOfItem(m.strip, ss, es, Quest(b));
    HeadOf(m.strip, ss + 1, es - 1, b);
    LangItemBounds(Quest(b), m.text, sp, rest);
    SpansIffLang(m.strip, ss + 1, es - 1, b, m.text, sp, rest);
    var inner := m.Slow(sp, rest, ss + 1, es - 1);
    if inner != Null {
      ok := Dissect(m, sp, rest, ss + 1, es - 1, b);
    } else {
      ok := true;
    }
  }

  /** The last turn of a loop. */
  method DissectPlus(m: Match, sp: int, rest: int, ss: int, es: int, ghost b: Re) returns (ok: bool)
    requires ItemAt(m.strip, ss, es, Plus(b)) && LangItem(Plus(b), m.text, sp, rest)
    requires ParensItem(Plus(b), |m.pmatch|)
    modifies m`pmatch
    ensures |m.pmatch| == |old(m.pmatch)| && (ok <==> CleanItem(Plus(b), m.text, sp, rest))
    ensures ok ==> m.pmatch == Record(old(m.pmatch), m.off, TakenItem(Plus(b), m.text, sp, rest))
    decreases es - ss, 0
  {
    OpOfItem(m.strip, ss, es, Plus(b));
    var ssp;
    ok, ssp := FindLastTurn(m, sp, rest, ss + 1, es - 1, b);
    if ok {
      ok := Dissect(m, ssp, rest, ss + 1, es - 1, b);
    }
  }

  /** The first branch of a choice that matches. */
  method DissectChoice(m: Match, sp: int, rest: int, ss: int, es: int, ghost f: Re, ghost r: Alts) returns (ok: bool)
    requires ItemAt(m.strip, ss, es, Choice(f, r)) && LangItem(Choice(f, r), m.text, sp, rest)
    requires ParensItem(Choice(f, r), |m.pmatch|)
    modifies m`pmatch
    ensures |m.pmatch| == |old(m.pmatch)| && (ok <==> CleanItem(Choice(f, r), m.text, sp, rest))
    ensures ok ==> m.pmatch == Record(old(m.pmatch), m.off, TakenItem(Choice(f, r), m.text, sp, rest))
    decreases es - ss, 0
  {
    OpOfItem(m.strip, ss, es, Choice(f, r));
    var ssub, esub := FindBranch(m, sp, rest, ss, es, f, r);
    PickedBranch(f, r, m.text, sp, rest, |m.pmatch|);
    ok := Dissect(m, sp, rest, ssub, esub, Pick(f, r, m.text, sp, rest));
  }

  /** The `switch` of `dissect` on the operator at `ss`, the first of the expression `cur`. */
  method DissectItem(m: Match, sp: int, stop: int, ss: int, es: int, stopst: int, ghost cur: Re)
    returns (ok: bool, rest: int)
    requires Ready(m.strip, m.text, |m.pmatch|, ss, stopst, sp, stop, cur) && cur.Cons?
    requires es == GroupEnd(m.strip, ss)
    modifies m`pmatch
    ensures |m.pmatch| == |old(m.pmatch)| && (ok <==> CleanItem(cur.head, m.text, sp, rest))
    ensures rest == BorderOf(cur.head, cur.tail, m.text, sp, stop) && Lang(cur.tail, m.text, rest, stop)
    ensures ok ==> m.pmatch == Record(old(m.pmatch), m.off, TakenItem(cur.head, m.text, sp, rest))
    decreases stopst - ss, 1
  {
    HeadOf(m.strip, ss, stopst, cur);
    OpOfItem(m.strip, ss, es, cur.head);
    assert ParensItem(cur.head, |m.pmatch|);
    if cur.head.One? {
      AtomBorder(cur.head.atom, cur.tail, m.text, sp, stop);
    }
    ok := true;
    match m.strip[ss] {
      case OQuestOpen(_) =>
        rest := SplitItem(m, sp, stop, ss, es, stopst, cur);
        ok := DissectQuest(m, sp, rest, ss, es, cur.head.body);
      case OPlusOpen(_) =>
        rest := SplitItem(m, sp, stop, ss, es, stopst, cur);
        ok := DissectPlus(m, sp, rest, ss, es, cur.head.body);
      case OChOpen(_) =>
        rest := SplitItem(m, sp, stop, ss, es, stopst, cur);
        ok := DissectChoice(m, sp, rest, ss, es, cur.head.first, cur.head.rest);
      case OLParen(i) =>
        rest := sp;
        RecordOne(m.pmatch, m.off, Open(i, sp));
        m.pmatch := m.pmatch[i := m.pmatch[i].(so := sp + m.off)];
      case ORParen(i) =>
        rest := sp;
        RecordOne(m.pmatch, m.off, Close(i, sp));
        m.pmatch := m.pmatch[i := m.pmatch[i].(eo := sp + m.off)];
      case _ =>
        rest := sp + 1;
    }
    BorderIs(cur.head, cur.tail, m.text, sp, stop, rest);
  }
}
