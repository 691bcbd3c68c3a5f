/** The runs of the strip of a regular expression spell exactly its language. */
module RegexRuns {
  import opened Bytes
  import opened RegexStrip
  import opened RegexLanguage

  // ----- what has been read when a state is reached -----

  ghost predicate Here(text: seq<byte>, i: int, j: int) {
    0 <= i <= |text| && i == j
  }

  ghost predicate Star(b: Re, text: seq<byte>, i: int, j: int) {
    exists n: nat :: Rep(b, n, text, i, j)
  }

  /** `text[i..j]` may have been read on the way from the start of `re` to its state `q`. */
  ghost predicate AtRe(strip: seq<Sop>, lo: int, hi: int, re: Re, q: int, text: seq<byte>, i: int, j: int)
    decreases re, 0
  {
    match re
    case Nil => q == lo && Here(text, i, j)
    case Cons(h, t) =>
      0 <= lo < |strip| &&
      var mid := GroupEnd(strip, lo);
      if q < mid then AtItem(strip, lo, mid, h, q, text, i, j)
      else exists k :: LangItem(h, text, i, k) && AtRe(strip, mid, hi, t, q, text, k, j)
  }

  ghost predicate AtItem(strip: seq<Sop>, lo: int, hi: int, it: Item, q: int, text: seq<byte>, i: int, j: int)
    decreases it, 0
  {
    match it
    case One(a) => if q == lo then Here(text, i, j) else LangAtom(a, text, i, j)
    case Plus(b) =>
      if q == lo then Star(b, text, i, j)
      else if q == hi then LangItem(it, text, i, j)
      else exists k :: Star(b, text, i, k) && AtRe(strip, lo + 1, hi - 1, b, q, text, k, j)
    case Quest(b) =>
      if q == lo then Here(text, i, j)
      else if q >= hi - 1 then LangItem(it, text, i, j)
      else AtRe(strip, lo + 1, hi - 1, b, q, text, i, j)
    case Choice(f, r) =>
      if q == lo then Here(text, i, j)
      else if q >= hi - 1 then LangItem(it, text, i, j)
      else if !(0 <= lo < |strip| && strip[lo].OChOpen?) then false
      else if q < lo + strip[lo].fwd then AtRe(strip, lo + 1, lo + strip[lo].fwd - 1, f, q, text, i, j)
      else AtAlts(strip, lo + strip[lo].fwd, hi, r, q, text, i, j)
  }

  ghost predicate AtAlts(strip: seq<Sop>, lo: int, hi: int, a: Alts, q: int, text: seq<byte>, i: int, j: int)
    decreases a, 0
  {
    match a
    case Last(re) =>
      if q == lo then Here(text, i, j) else AtRe(strip, lo + 1, hi - 1, re, q, text, i, j)
    case More(re, rest) =>
      if q == lo then Here(text, i, j)
      else if !(0 <= lo < |strip| && strip[lo].OOr2?) then false
      else if q < lo + strip[lo].fwd then AtRe(strip, lo + 1, lo + strip[lo].fwd - 1, re, q, text, i, j)
      else AtAlts(strip, lo + strip[lo].fwd, hi, rest, q, text, i, j)
  }

  lemma AtStart(strip: seq<Sop>, lo: int, hi: int, re: Re, text: seq<byte>, i: int)
    requires ReAt(strip, lo, hi, re) && 0 <= i <= |text|
    ensures AtRe(strip, lo, hi, re, lo, text, i, i)
  {
    match re
    case Nil =>
    case Cons(h, t) =>
      ItemOk(strip, lo, GroupEnd(strip, lo), h);
      match h
      case Plus(b) => assert Rep(b, 0, text, i, i);
      case _ =>
  }

  lemma {:induction false} AtEnd(strip: seq<Sop>, lo: int, hi: int, re: Re, text: seq<byte>, i: int, j: int)
    requires ReAt(strip, lo, hi, re) && AtRe(strip, lo, hi, re, hi, text, i, j)
    ensures Lang(re, text, i, j)
    decreases re
  {
    match re
    case Nil =>
    case Cons(h, t) =>
      var mid := GroupEnd(strip, lo);
      ReOk(strip, mid, hi, t);
      var k :| LangItem(h, text, i, k) && AtRe(strip, mid, hi, t, hi, text, k, j);
      AtEnd(strip, mid, hi, t, text, k, j);
  }

  lemma {:induction false} LangBounds(re: Re, text: seq<byte>, i: int, j: int)
    requires Lang(re, text, i, j)
    ensures 0 <= i <= j <= |text|
    decreases re, 0
  {
    match re
    case Nil =>
    case Cons(h, t) =>
      var k :| LangItem(h, text, i, k) && Lang(t, text, k, j);
      LangItemBounds(h, text, i, k);
      LangBounds(t, text, k, j);
  }

  lemma {:induction false} LangItemBounds(it: Item, text: seq<byte>, i: int, j: int)
    requires LangItem(it, text, i, j)
    ensures 0 <= i <= j <= |text|
    decreases it, 0
  {
    match it
    case One(_) =>
    case Plus(b) =>
      var n: nat :| n >= 1 && Rep(b, n, text, i, j);
      RepBounds(b, n, text, i, j);
    case Quest(b) =>
      if Lang(b, text, i, j) {
        LangBounds(b, text, i, j);
      }
    case Choice(f, r) =>
      if Lang(f, text, i, j) {
        LangBounds(f, text, i, j);
      } else {
        LangAltsBounds(r, text, i, j);
      }
  }

  lemma {:induction false} LangAltsBounds(a: Alts, text: seq<byte>, i: int, j: int)
    requires LangAlts(a, text, i, j)
    ensures 0 <= i <= j <= |text|
    decreases a, 0
  {
    if Lang(a.re, text, i, j) {
      LangBounds(a.re, text, i, j);
    } else {
      LangAltsBounds(a.rest, text, i, j);
    }
  }

  lemma {:induction false} RepBounds(b: Re, n: nat, text: seq<byte>, i: int, j: int)
    requires Rep(b, n, text, i, j)
    ensures 0 <= i <= j <= |text|
    decreases b, n + 1
  {
    if n > 0 {
      var k :| Rep(b, n - 1, text, i, k) && Lang(b, text, k, j);
      RepBounds(b, n - 1, text, i, k);
      LangBounds(b, text, k, j);
    }
  }

  // ----- every move keeps it -----

  lemma {:induction false} KeepRe(strip: seq<Sop>, lo: int, hi: int, re: Re, text: seq<byte>, i: int,
                                  x: Config, y: Config)
    requires ReAt(strip, lo, hi, re) && Edge(strip, lo, hi, text, x, y)
    requires AtRe(strip, lo, hi, re, x.q, text, i, x.i) && 0 <= x.i <= |text|
    ensures AtRe(strip, lo, hi, re, y.q, text, i, y.i) && 0 <= y.i <= |text| && lo <= y.q <= hi
    decreases re, 0
  {
    ReOk(strip, lo, hi, re);
    MoveInRange(strip, lo, hi, text, x, y);
    match re
    case Nil =>
    case Cons(h, t) =>
      var mid := GroupEnd(strip, lo);
      ItemOk(strip, lo, mid, h);
      if x.q < mid {
        KeepItem(strip, lo, mid, h, text, i, x, y);
        AtStart(strip, mid, hi, t, text, y.i);
      } else {
        var k :| LangItem(h, text, i, k) && AtRe(strip, mid, hi, t, x.q, text, k, x.i);
        KeepRe(strip, mid, hi, t, text, k, x, y);
      }
  }

  lemma MoveInRange(strip: seq<Sop>, lo: int, hi: int, text: seq<byte>, x: Config, y: Config)
    requires OpsOk(strip, lo, hi) && Edge(strip, lo, hi, text, x, y)
    ensures lo <= y.q <= hi
  {
    EpsSuccInRange(strip, lo, hi, x.q);
  }

  lemma {:induction false} KeepItem(strip: seq<Sop>, lo: int, hi: int, it: Item, text: seq<byte>, i: int,
                                    x: Config, y: Config)
    requires ItemAt(strip, lo, hi, it) && Edge(strip, lo, hi, text, x, y)
    requires AtItem(strip, lo, hi, it, x.q, text, i, x.i) && 0 <= x.i <= |text|
    ensures lo <= y.q <= hi && 0 <= y.i <= |text|
    ensures if y.q == hi then LangItem(it, text, i, y.i) else AtItem(strip, lo, hi, it, y.q, text, i, y.i)
    decreases it, 1
  {
    ItemOk(strip, lo, hi, it);
    MoveInRange(strip, lo, hi, text, x, y);
    match it
    case One(_) =>
    case Plus(b) => KeepPlus(strip, lo, hi, b, text, i, x, y);
    case Quest(b) => KeepQuest(strip, lo, hi, b, text, i, x, y);
    case Choice(f, r) => KeepChoice(strip, lo, hi, f, r, text, i, x, y);
  }

  lemma OneMore(b: Re, text: seq<byte>, i: int, k: int, j: int)
    requires Star(b, text, i, k) && Lang(b, text, k, j)
    ensures Star(b, text, i, j) && LangItem(Plus(b), text, i, j)
  {
    var n: nat :| Rep(b, n, text, i, k);
    assert Rep(b, n + 1, text, i, j);
  }

  lemma {:induction false} KeepPlus(strip: seq<Sop>, lo: int, hi: int, b: Re, text: seq<byte>, i: int,
                                    x: Config, y: Config)
    requires ItemAt(strip, lo, hi, Plus(b)) && Edge(strip, lo, hi, text, x, y) && lo <= y.q <= hi
    requires AtItem(strip, lo, hi, Plus(b), x.q, text, i, x.i) && 0 <= x.i <= |text|
    ensures 0 <= y.i <= |text| && AtItem(strip, lo, hi, Plus(b), y.q, text, i, y.i)
    decreases b, 1
  {
    if x.q == lo {
      AtStart(strip, lo + 1, hi - 1, b, text, x.i);
    } else {
      var k :| Star(b, text, i, k) && AtRe(strip, lo + 1, hi - 1, b, x.q, text, k, x.i);
      if x.q == hi - 1 {
        AtEnd(strip, lo + 1, hi - 1, b, text, k, x.i);
        OneMore(b, text, i, k, x.i);
      } else {
        KeepRe(strip, lo + 1, hi - 1, b, text, k, x, y);
      }
    }
  }

  lemma {:induction false} KeepQuest(strip: seq<Sop>, lo: int, hi: int, b: Re, text: seq<byte>, i: int,
                                     x: Config, y: Config)
    requires ItemAt(strip, lo, hi, Quest(b)) && Edge(strip, lo, hi, text, x, y) && lo <= y.q <= hi
    requires AtItem(strip, lo, hi, Quest(b), x.q, text, i, x.i) && 0 <= x.i <= |text|
    ensures 0 <= y.i <= |text| && AtItem(strip, lo, hi, Quest(b), y.q, text, i, y.i)
    decreases b, 1
  {
    if x.q == lo {
      AtStart(strip, lo + 1, hi - 1, b, text, x.i);
    } else if x.q < hi - 1 {
      KeepRe(strip, lo + 1, hi - 1, b, text, i, x, y);
      if y.q == hi - 1 {
        AtEnd(strip, lo + 1, hi - 1, b, text, i, y.i);
      }
    }
  }

  /** A move inside a branch, or from its end to the O_CH at `close`. */
  lemma {:induction false} KeepBranch(strip: seq<Sop>, lo: int, hi: int, re: Re, close: int, text: seq<byte>, i: int,
                                      x: Config, y: Config)
    requires ReAt(strip, lo, hi, re) && Edge(strip, lo, close, text, x, y) && lo <= x.q <= hi < close
    requires hi < |strip| && (strip[hi].OOr1? ==> ChoiceEnd(strip, hi + 1) == close)
    requires x.q == hi ==> strip[hi].OOr1?
    requires AtRe(strip, lo, hi, re, x.q, text, i, x.i) && 0 <= x.i <= |text|
    ensures 0 <= y.i <= |text|
    ensures if x.q == hi then y.q == close && Lang(re, text, i, y.i)
            else lo <= y.q <= hi && AtRe(strip, lo, hi, re, y.q, text, i, y.i)
    decreases re, 1
  {
    if x.q == hi {
      AtEnd(strip, lo, hi, re, text, i, x.i);
    } else {
      assert Edge(strip, lo, hi, text, x, y);
      KeepRe(strip, lo, hi, re, text, i, x, y);
    }
  }

  lemma {:induction false} KeepChoice(strip: seq<Sop>, lo: int, hi: int, f: Re, r: Alts, text: seq<byte>, i: int,
                                      x: Config, y: Config)
    requires ItemAt(strip, lo, hi, Choice(f, r)) && Edge(strip, lo, hi, text, x, y) && lo <= y.q <= hi
    requires AtItem(strip, lo, hi, Choice(f, r), x.q, text, i, x.i) && 0 <= x.i <= |text|
    ensures 0 <= y.i <= |text| && AtItem(strip, lo, hi, Choice(f, r), y.q, text, i, y.i)
    decreases Choice(f, r), 0
  {
    var mid := lo + strip[lo].fwd;
    AltsChoiceEnd(strip, mid, hi, r);
    AltsRoom(strip, mid, hi, r);
    if x.q == lo {
      KeepOpen(strip, lo, hi, f, r, text, i, x, y);
    } else if x.q == hi - 1 {
    } else if x.q < mid {
      KeepBranch(strip, lo + 1, mid - 1, f, hi - 1, text, i, x, y);
    } else {
      KeepAlts(strip, mid, hi, r, text, i, x, y);
    }
  }

  /** From the operator that opens a choice. */
  lemma KeepOpen(strip: seq<Sop>, lo: int, hi: int, f: Re, r: Alts, text: seq<byte>, i: int, x: Config, y: Config)
    requires ItemAt(strip, lo, hi, Choice(f, r)) && Edge(strip, lo, hi, text, x, y) && lo <= y.q <= hi && x.q == lo
    requires AtItem(strip, lo, hi, Choice(f, r), x.q, text, i, x.i) && 0 <= x.i <= |text|
    ensures 0 <= y.i <= |text| && AtItem(strip, lo, hi, Choice(f, r), y.q, text, i, y.i)
  {
    var mid := lo + strip[lo].fwd;
    AtStart(strip, lo + 1, mid - 1, f, text, x.i);
    AltsAtStart(strip, mid, hi, r, text, x.i);
  }

  lemma AltsRoom(strip: seq<Sop>, lo: int, hi: int, a: Alts)
    requires AltsAt(strip, lo, hi, a)
    ensures lo < hi - 1 && strip[hi - 1].OChClose?
  {
    AltsChoiceEnd(strip, lo, hi, a);
  }

  lemma AltsAtStart(strip: seq<Sop>, lo: int, hi: int, a: Alts, text: seq<byte>, i: int)
    requires 0 <= i <= |text|
    ensures AtAlts(strip, lo, hi, a, lo, text, i, i)
  {
  }

  lemma {:induction false} KeepAlts(strip: seq<Sop>, lo: int, hi: int, a: Alts, text: seq<byte>, i: int,
                                    x: Config, y: Config)
    requires AltsAt(strip, lo, hi, a) && Edge(strip, lo, hi, text, x, y) && x.q < hi - 1
    requires AtAlts(strip, lo, hi, a, x.q, text, i, x.i) && 0 <= x.i <= |text|
    ensures 0 <= y.i <= |text| && lo <= y.q <= hi - 1
    ensures if y.q == hi - 1 then LangAlts(a, text, i, y.i) else AtAlts(strip, lo, hi, a, y.q, text, i, y.i)
    decreases a, 0
  {
    AltsRoom(strip, lo, hi, a);
    match a
    case Last(re) => KeepLast(strip, lo, hi, re, text, i, x, y);
    case More(re, rest) =>
      var mid := lo + strip[lo].fwd;
      AltsChoiceEnd(strip, mid, hi, rest);
      AltsRoom(strip, mid, hi, rest);
      if x.q == lo {
        AtStart(strip, lo + 1, mid - 1, re, text, x.i);
        AltsAtStart(strip, mid, hi, rest, text, x.i);
      } else if x.q < mid {
        KeepBranch(strip, lo + 1, mid - 1, re, hi - 1, text, i, x, y);
      } else {
        KeepAlts(strip, mid, hi, rest, text, i, x, y);
      }
  }

  lemma {:induction false} KeepLast(strip: seq<Sop>, lo: int, hi: int, re: Re, text: seq<byte>, i: int,
                                    x: Config, y: Config)
    requires AltsAt(strip, lo, hi, Last(re)) && Edge(strip, lo, hi, text, x, y) && x.q < hi - 1
    requires if x.q == lo then Here(text, i, x.i) else AtRe(strip, lo + 1, hi - 1, re, x.q, text, i, x.i)
    requires 0 <= x.i <= |text|
    ensures 0 <= y.i <= |text| && lo < y.q <= hi - 1
    ensures if y.q == hi - 1 then Lang(re, text, i, y.i)
            else AtRe(strip, lo + 1, hi - 1, re, y.q, text, i, y.i)
    decreases re, 1
  {
    if x.q == lo {
      AtStart(strip, lo + 1, hi - 1, re, text, x.i);
    } else {
      KeepRe(strip, lo + 1, hi - 1, re, text, i, x, y);
    }
    if y.q == hi - 1 {
      AtEnd(strip, lo + 1, hi - 1, re, text, i, y.i);
    }
  }

  /** Every run through the strip of an expression spells a word of its language. */
  lemma RunSpellsWord(strip: seq<Sop>, lo: int, hi: int, re: Re, text: seq<byte>, i: int, j: int)
    requires ReAt(strip, lo, hi, re) && 0 <= i <= |text| && Spans(strip, lo, hi, text, i, j)
    ensures Lang(re, text, i, j)
  {
    var inv := (c: Config) => AtRe(strip, lo, hi, re, c.q, text, i, c.i) && 0 <= c.i <= |text|;
    AtStart(strip, lo, hi, re, text, i);
    forall x, y | Edge(strip, lo, hi, text, x, y) && inv(x) ensures inv(y) {
      KeepRe(strip, lo, hi, re, text, i, x, y);
    }
    ReachesInvariant(strip, lo, hi, text, Config(lo, i), Config(hi, j), inv);
    AtEnd(strip, lo, hi, re, text, i, j);
  }

  // ----- every word has a run -----

  lemma WiderRange(strip: seq<Sop>, lo: int, hi: int, lo': int, hi': int, text: seq<byte>, a: Config, b: Config)
    requires 0 <= lo' <= lo && hi <= hi' <= |strip| && Reaches(strip, lo, hi, text, a, b)
    ensures Reaches(strip, lo', hi', text, a, b)
  {
    var path :| PathFromTo(strip, lo, hi, text, path, a, b);
    assert PathFromTo(strip, lo', hi', text, path, a, b);
  }

  /** An empty move, then a run. */
  lemma EpsThen(strip: seq<Sop>, lo: int, hi: int, text: seq<byte>, p: int, q: int, i: int, b: Config)
    requires 0 <= lo <= p < hi <= |strip| && q in EpsSucc(strip, p)
    requires Reaches(strip, lo, hi, text, Config(q, i), b)
    ensures Reaches(strip, lo, hi, text, Config(p, i), b)
  {
    ReachesRefl(strip, lo, hi, text, Config(p, i));
    ReachesStep(strip, lo, hi, text, Config(p, i), Config(p, i), Config(q, i));
    ReachesTrans(strip, lo, hi, text, Config(p, i), Config(q, i), b);
  }

  /** A run, then an empty move. */
  lemma ThenEps(strip: seq<Sop>, lo: int, hi: int, text: seq<byte>, a: Config, p: int, q: int, j: int)
    requires 0 <= lo <= p < hi <= |strip| && q in EpsSucc(strip, p)
    requires Reaches(strip, lo, hi, text, a, Config(p, j))
    ensures Reaches(strip, lo, hi, text, a, Config(q, j))
  {
    ReachesStep(strip, lo, hi, text, a, Config(p, j), Config(q, j));
  }

  lemma {:induction false} RunRe(strip: seq<Sop>, lo: int, hi: int, re: Re, text: seq<byte>, i: int, j: int)
    requires ReAt(strip, lo, hi, re) && Lang(re, text, i, j)
    ensures Spans(strip, lo, hi, text, i, j)
    decreases re, 0
  {
    match re
    case Nil => ReachesRefl(strip, lo, hi, text, Config(lo, i));
    case Cons(h, t) =>
      var mid := GroupEnd(strip, lo);
      var k :| LangItem(h, text, i, k) && Lang(t, text, k, j);
      RunItem(strip, lo, mid, h, text, i, k);
      RunRe(strip, mid, hi, t, text, k, j);
      ItemOk(strip, lo, mid, h);
      ReOk(strip, mid, hi, t);
      WiderRange(strip, lo, mid, lo, hi, text, Config(lo, i), Config(mid, k));
      WiderRange(strip, mid, hi, lo, hi, text, Config(mid, k), Config(hi, j));
      ReachesTrans(strip, lo, hi, text, Config(lo, i), Config(mid, k), Config(hi, j));
  }

  /** The body of a group, run inside the range of the group. */
  lemma {:induction false} RunBody(strip: seq<Sop>, lo: int, hi: int, from: int, to: int, b: Re,
                                   text: seq<byte>, i: int, j: int)
    requires ReAt(strip, from, to, b) && Lang(b, text, i, j) && 0 <= lo <= from && to <= hi <= |strip|
    ensures Reaches(strip, lo, hi, text, Config(from, i), Config(to, j))
    decreases b, 1
  {
    RunRe(strip, from, to, b, text, i, j);
    WiderRange(strip, from, to, lo, hi, text, Config(from, i), Config(to, j));
  }

  lemma {:induction false} RunItem(strip: seq<Sop>, lo: int, hi: int, it: Item, text: seq<byte>, i: int, j: int)
    requires ItemAt(strip, lo, hi, it) && LangItem(it, text, i, j)
    ensures Spans(strip, lo, hi, text, i, j)
    decreases it, 1
  {
    ReachesRefl(strip, lo, hi, text, Config(hi, j));
    match it
    case One(a) =>
      ReachesRefl(strip, lo, hi, text, Config(lo, i));
      ReachesStep(strip, lo, hi, text, Config(lo, i), Config(lo, i), Config(hi, j));
    case Plus(b) =>
      var n: nat :| n >= 1 && Rep(b, n, text, i, j);
      var k := LastTurn(b, n, text, i, j);
      RunLoop(strip, lo, hi, b, n - 1, text, i, k);
      RunTurn(strip, lo, hi, b, text, i, k, j);
      ThenEps(strip, lo, hi, text, Config(lo, i), hi - 1, hi, j);
    case Quest(b) =>
      EpsThen(strip, lo, hi, text, hi - 1, hi, j, Config(hi, j));
      if Lang(b, text, i, j) {
        RunBody(strip, lo, hi, lo + 1, hi - 1, b, text, i, j);
        ReachesTrans(strip, lo, hi, text, Config(lo + 1, i), Config(hi - 1, j), Config(hi, j));
        EpsThen(strip, lo, hi, text, lo, lo + 1, i, Config(hi, j));
      } else {
        EpsThen(strip, lo, hi, text, lo, hi - 1, i, Config(hi, j));
      }
    case Choice(f, r) =>
      RunChoice(strip, lo, hi, f, r, text, i, j);
  }

  lemma LastTurn(b: Re, n: nat, text: seq<byte>, i: int, j: int) returns (k: int)
    requires n >= 1 && Rep(b, n, text, i, j)
    ensures Rep(b, n - 1, text, i, k) && Lang(b, text, k, j)
  {
    k :| Rep(b, n - 1, text, i, k) && Lang(b, text, k, j);
  }

  /** One turn of a loop, from its head to its end, after a run to its head. */
  lemma {:induction false} RunTurn(strip: seq<Sop>, lo: int, hi: int, b: Re, text: seq<byte>, i: int, k: int, j: int)
    requires ItemAt(strip, lo, hi, Plus(b)) && Lang(b, text, k, j)
    requires Reaches(strip, lo, hi, text, Config(lo, i), Config(lo, k))
    ensures Reaches(strip, lo, hi, text, Config(lo, i), Config(hi - 1, j))
    decreases b, 2
  {
    ThenEps(strip, lo, hi, text, Config(lo, i), lo, lo + 1, k);
    RunBody(strip, lo, hi, lo + 1, hi - 1, b, text, k, j);
    ReachesTrans(strip, lo, hi, text, Config(lo, i), Config(lo + 1, k), Config(hi - 1, j));
  }

  lemma {:induction false} RunLoop(strip: seq<Sop>, lo: int, hi: int, b: Re, n: nat, text: seq<byte>, i: int, j: int)
    requires ItemAt(strip, lo, hi, Plus(b)) && Rep(b, n, text, i, j)
    ensures Reaches(strip, lo, hi, text, Config(lo, i), Config(lo, j))
    decreases b, n + 3
  {
    if n == 0 {
      ReachesRefl(strip, lo, hi, text, Config(lo, i));
    } else {
      var k :| Rep(b, n - 1, text, i, k) && Lang(b, text, k, j);
      RunLoop(strip, lo, hi, b, n - 1, text, i, k);
      RunTurn(strip, lo, hi, b, text, i, k, j);
      ThenEps(strip, lo, hi, text, Config(lo, i), hi - 1, lo, j);
    }
  }

  lemma {:induction false} RunChoice(strip: seq<Sop>, lo: int, hi: int, f: Re, r: Alts, text: seq<byte>, i: int, j: int)
    requires ItemAt(strip, lo, hi, Choice(f, r)) && LangItem(Choice(f, r), text, i, j)
    ensures Spans(strip, lo, hi, text, i, j)
    decreases Choice(f, r), 0
  {
    var mid := lo + strip[lo].fwd;
    AltsChoiceEnd(strip, mid, hi, r);
    if Lang(f, text, i, j) {
      RunFirst(strip, lo, hi, f, r, text, i, j);
    } else {
      RunAlts(strip, mid, hi, r, text, i, j);
      WiderRange(strip, mid, hi, lo, hi, text, Config(mid, i), Config(hi - 1, j));
      EpsThen(strip, lo, hi, text, lo, mid, i, Config(hi - 1, j));
    }
    ThenEps(strip, lo, hi, text, Config(lo, i), hi - 1, hi, j);
  }

  lemma {:induction false} RunFirst(strip: seq<Sop>, lo: int, hi: int, f: Re, r: Alts, text: seq<byte>, i: int, j: int)
    requires ItemAt(strip, lo, hi, Choice(f, r)) && Lang(f, text, i, j)
    ensures Reaches(strip, lo, hi, text, Config(lo, i), Config(hi - 1, j))
    decreases f, 2
  {
    var mid := lo + strip[lo].fwd;
    AltsChoiceEnd(strip, mid, hi, r);
    RunBody(strip, lo, hi, lo + 1, mid - 1, f, text, i, j);
    ThenEps(strip, lo, hi, text, Config(lo + 1, i), mid - 1, hi - 1, j);
    EpsThen(strip, lo, hi, text, lo, lo + 1, i, Config(hi - 1, j));
  }

  lemma {:induction false} RunAlts(strip: seq<Sop>, lo: int, hi: int, a: Alts, text: seq<byte>, i: int, j: int)
    requires AltsAt(strip, lo, hi, a) && LangAlts(a, text, i, j)
    ensures Reaches(strip, lo, hi, text, Config(lo, i), Config(hi - 1, j))
    decreases a, 0
  {
    match a
    case Last(re) =>
      RunBody(strip, lo, hi, lo + 1, hi - 1, re, text, i, j);
      EpsThen(strip, lo, hi, text, lo, lo + 1, i, Config(hi - 1, j));
    case More(re, rest) =>
      var mid := lo + strip[lo].fwd;
      AltsChoiceEnd(strip, mid, hi, rest);
      if Lang(re, text, i, j) {
        RunBody(strip, lo, hi, lo + 1, mid - 1, re, text, i, j);
        ThenEps(strip, lo, hi, text, Config(lo + 1, i), mid - 1, hi - 1, j);
        EpsThen(strip, lo, hi, text, lo, lo + 1, i, Config(hi - 1, j));
      } else {
        RunAlts(strip, mid, hi, rest, text, i, j);
        WiderRange(strip, mid, hi, lo, hi, text, Config(mid, i), Config(hi - 1, j));
        EpsThen(strip, lo, hi, text, lo, mid, i, Config(hi - 1, j));
      }
  }

  /** The strip of an expression matches exactly the words of its language. */
  lemma SpansIffLang(strip: seq<Sop>, lo: int, hi: int, re: Re, text: seq<byte>, i: int, j: int)
    requires ReAt(strip, lo, hi, re) && 0 <= i <= |text|
    ensures Spans(strip, lo, hi, text, i, j) <==> Lang(re, text, i, j)
  {
    if Spans(strip, lo, hi, text, i, j) {
      RunSpellsWord(strip, lo, hi, re, text, i, j);
    }
    if Lang(re, text, i, j) {
      RunRe(strip, lo, hi, re, text, i, j);
    }
  }

  // ----- words of loops -----

  lemma LangOne(it: Item, text: seq<byte>, i: int, j: int)
    ensures Lang(Cons(it, Nil), text, i, j) <==> LangItem(it, text, i, j)
  {
    if LangItem(it, text, i, j) {
      LangItemBounds(it, text, i, j);
      assert Lang(Nil, text, j, j);
    }
  }

  lemma RepOne(b: Re, text: seq<byte>, i: int, j: int)
    ensures Rep(b, 1, text, i, j) <==> Lang(b, text, i, j)
  {
    if Lang(b, text, i, j) {
      LangBounds(b, text, i, j);
      assert Rep(b, 0, text, i, i);
    }
  }

  /** A word can be split off at the front as well as at the end. */
  lemma {:induction false} RepSplit(b: Re, n: nat, text: seq<byte>, i: int, j: int) returns (k: int)
    requires n > 0 && Rep(b, n, text, i, j)
    ensures Lang(b, text, i, k) && Rep(b, n - 1, text, k, j)
    decreases n
  {
    var m := LastTurn(b, n, text, i, j);
    if n == 1 {
      LangBounds(b, text, m, j);
      return j;
    } else {
      k := RepSplit(b, n - 1, text, i, m);
      RepMore(b, n - 2, text, k, m, j);
    }
  }

  lemma {:induction false} RepJoin(b: Re, n: nat, text: seq<byte>, i: int, k: int, j: int)
    requires Lang(b, text, i, k) && Rep(b, n, text, k, j)
    ensures Rep(b, n + 1, text, i, j)
    decreases n
  {
    if n == 0 {
      RepOne(b, text, i, j);
    } else {
      var m := LastTurn(b, n, text, k, j);
      RepJoin(b, n - 1, text, i, k, m);
      RepMore(b, n, text, i, m, j);
    }
  }

  lemma RepMore(b: Re, n: nat, text: seq<byte>, i: int, m: int, j: int)
    requires Rep(b, n, text, i, m) && Lang(b, text, m, j)
    ensures Rep(b, n + 1, text, i, j)
  {
  }

  /** An atom takes one character, a parenthesis none. */
  lemma AtomSplit(a: Atom, t: Re, text: seq<byte>, sp: int, stop: int)
    requires Lang(Cons(One(a), t), text, sp, stop)
    ensures var k := if a.LParen? || a.RParen? then sp else sp + 1;
      LangAtom(a, text, sp, k) && Lang(t, text, k, stop)
  {
  }
}
