/** When the match reported by `matcher` is the leftmost one.

    `fast` takes a state set equal to that of a fresh start as proof that no match is under
    way, and `matcher` looks for the start of the match only from the last such position on.
    The inference is not sound for every strip; this module finds exactly the strips for
    which it is. */
module RegexLeftmost {
  import opened Bytes
  import opened RegexStrip
  import opened RegexEngine
  import opened RegexMatcher

  /** Reading `u` completes no match and leaves exactly the states of a fresh start, and yet
      `u` can be continued by `v` to a match. */
  ghost predicate Confuses(strip: seq<Sop>, lo: int, hi: int, u: seq<byte>, v: seq<byte>) {
    && u != []
    && Spans(strip, lo, hi, u + v, 0, |u + v|)
    && !AnyMatch(strip, lo, hi, u)
    && Threads(strip, lo, hi, u, 0, |u|) == Fresh(strip, lo, hi)
  }

  ghost predicate Confusable(strip: seq<Sop>, lo: int, hi: int) {
    exists u, v :: Confuses(strip, lo, hi, u, v)
  }

  lemma {:induction false} Least(p: int -> bool, from: int, n: int) returns (m: int)
    requires from <= n && p(n)
    ensures from <= m <= n && p(m) && forall k :: from <= k < m ==> !p(k)
    decreases n - from
  {
    if p(from) {
      m := from;
    } else {
      m := Least(p, from + 1, n);
    }
  }

  lemma {:induction false} Greatest(p: int -> bool, n: int, last: int) returns (m: int)
    requires n <= last && p(n)
    ensures n <= m <= last && p(m) && forall k :: m < k <= last ==> !p(k)
    decreases last - n
  {
    if p(last) {
      m := last;
    } else {
      m := Greatest(p, n, last - 1);
    }
  }

  lemma ThreadsOfPrefix(strip: seq<Sop>, lo: int, hi: int, text: seq<byte>, n: int, j: int)
    requires 0 <= j <= n <= |text|
    ensures Threads(strip, lo, hi, text[..n], 0, j) == Threads(strip, lo, hi, text, 0, j)
  {
    var u := text[..n];
    assert u == text[0..n];
    forall q, k | 0 <= k <= j
      ensures Reaches(strip, lo, hi, text, Config(lo, k), Config(q, j)) <==>
              Reaches(strip, lo, hi, u, Config(lo, k), Config(q, j))
    {
      Window(strip, lo, hi, text, 0, n, Config(lo, k), Config(q, j));
    }
    forall q ensures Live(strip, lo, hi, text, 0, |text|, q, j) <==> Live(strip, lo, hi, u, 0, |u|, q, j) {
    }
  }

  lemma FirstEndExists(strip: seq<Sop>, lo: int, hi: int, text: seq<byte>) returns (e: int)
    requires lo <= hi && AnyMatch(strip, lo, hi, text)
    ensures FirstEnd(strip, lo, hi, text, e)
  {
    var i, j :| 0 <= i <= j <= |text| && Spans(strip, lo, hi, text, i, j);
    ThreadEnds(strip, lo, hi, text, 0, j);
    var ends := n => hi in Threads(strip, lo, hi, text, 0, n);
    e := Least(ends, 0, j);
    forall n | 0 <= n < e ensures hi !in Threads(strip, lo, hi, text, 0, n) {
      assert !ends(n);
    }
  }

  lemma ColdExists(strip: seq<Sop>, lo: int, hi: int, text: seq<byte>, e: int) returns (cold: int)
    requires WellFormed(strip, lo, hi) && 0 <= e <= |text|
    ensures Scanned(strip, lo, hi, text, 0, e, cold)
  {
    FreshAnywhere(strip, lo, hi, text, 0);
    assert Threads(strip, lo, hi, text, 0, 0) == States(strip, lo, hi, text, 0, 0, 0);
    var isCold := n => Threads(strip, lo, hi, text, 0, n) == Fresh(strip, lo, hi);
    cold := Greatest(isCold, 0, e);
    forall n | cold < n <= e ensures Threads(strip, lo, hi, text, 0, n) != Fresh(strip, lo, hi) {
      assert !isCold(n);
    }
  }

  lemma LongestExists(strip: seq<Sop>, lo: int, hi: int, text: seq<byte>, so: int) returns (eo: int)
    requires StartsAt(strip, lo, hi, text, so)
    ensures Longest(strip, lo, hi, text, so, |text|, eo)
  {
    var j :| so <= j <= |text| && Spans(strip, lo, hi, text, so, j);
    var ends := n => Spans(strip, lo, hi, text, so, n);
    eo := Greatest(ends, j, |text|);
    forall n | eo < n <= |text| ensures !Spans(strip, lo, hi, text, so, n) {
      assert !ends(n);
    }
  }

  /** Whenever there is a match, one is reported. */
  lemma ReportedExists(strip: seq<Sop>, lo: int, hi: int, text: seq<byte>) returns (cold: int, so: int, eo: int)
    requires WellFormed(strip, lo, hi) && AnyMatch(strip, lo, hi, text)
    ensures ColdPoint(strip, lo, hi, text, cold) && cold <= so
    ensures Reported(strip, lo, hi, text, so, eo)
  {
    var e := FirstEndExists(strip, lo, hi, text);
    cold := ColdExists(strip, lo, hi, text, e);
    var k := StartAfterCold(strip, lo, hi, text, cold);
    var starts := n => StartsAt(strip, lo, hi, text, n);
    so := Least(starts, cold, k);
    forall n | cold <= n < so ensures !StartsAt(strip, lo, hi, text, n) {
      assert !starts(n);
    }
    eo := LongestExists(strip, lo, hi, text, so);
  }

  /** At most one match is reported. */
  lemma ReportedUnique(strip: seq<Sop>, lo: int, hi: int, text: seq<byte>, so: int, eo: int, so': int, eo': int)
    requires Reported(strip, lo, hi, text, so, eo) && Reported(strip, lo, hi, text, so', eo')
    ensures so == so' && eo == eo'
  {
    var c :| ColdPoint(strip, lo, hi, text, c) && c <= so &&
             forall k :: c <= k < so ==> !StartsAt(strip, lo, hi, text, k);
    var c' :| ColdPoint(strip, lo, hi, text, c') && c' <= so' &&
              forall k :: c' <= k < so' ==> !StartsAt(strip, lo, hi, text, k);
    var e :| FirstEnd(strip, lo, hi, text, e) && Scanned(strip, lo, hi, text, 0, e, c);
    var e' :| FirstEnd(strip, lo, hi, text, e') && Scanned(strip, lo, hi, text, 0, e', c');
    assert e == e' && c == c';
    assert StartsAt(strip, lo, hi, text, so) && StartsAt(strip, lo, hi, text, so');
  }

  /** A confusing pair of words is a text on which the reported match is not leftmost. */
  lemma ConfusedReport(strip: seq<Sop>, lo: int, hi: int, u: seq<byte>, v: seq<byte>) returns (so: int, eo: int)
    requires WellFormed(strip, lo, hi) && Confuses(strip, lo, hi, u, v)
    ensures Reported(strip, lo, hi, u + v, so, eo)
    ensures !LeftmostLongest(strip, lo, hi, u + v, so, eo)
  {
    var text := u + v;
    assert text[..|u|] == u;
    var cold;
    cold, so, eo := ReportedExists(strip, lo, hi, text);
    var e :| FirstEnd(strip, lo, hi, text, e) && Scanned(strip, lo, hi, text, 0, e, cold);
    if e <= |u| {
      ThreadsOfPrefix(strip, lo, hi, text, |u|, e);
      ThreadEnds(strip, lo, hi, u, 0, e);
      assert false;
    }
    ThreadsOfPrefix(strip, lo, hi, text, |u|, |u|);
    assert cold >= |u|;
    var c :| ColdPoint(strip, lo, hi, text, c) && c <= so &&
             forall k :: c <= k < so ==> !StartsAt(strip, lo, hi, text, k);
    assert StartsAt(strip, lo, hi, text, 0);
  }

  /** A reported match that is not leftmost comes from a confusing pair of words. */
  lemma MissedStart(strip: seq<Sop>, lo: int, hi: int, text: seq<byte>, so: int, eo: int)
    requires WellFormed(strip, lo, hi)
    requires Reported(strip, lo, hi, text, so, eo) && !LeftmostLongest(strip, lo, hi, text, so, eo)
    ensures Confusable(strip, lo, hi)
  {
    var cold :| ColdPoint(strip, lo, hi, text, cold) && cold <= so &&
                forall k :: cold <= k < so ==> !StartsAt(strip, lo, hi, text, k);
    var e :| FirstEnd(strip, lo, hi, text, e) && Scanned(strip, lo, hi, text, 0, e, cold);
    var i :| 0 <= i < so && StartsAt(strip, lo, hi, text, i);
    var j :| i <= j <= |text| && Spans(strip, lo, hi, text, i, j);
    assert i < cold;
    MatchAcrossCold(strip, lo, hi, text, e, cold, i, j);
  }

  lemma MatchAcrossCold(strip: seq<Sop>, lo: int, hi: int, text: seq<byte>, e: int, cold: int, i: int, j: int)
    requires WellFormed(strip, lo, hi)
    requires FirstEnd(strip, lo, hi, text, e) && Scanned(strip, lo, hi, text, 0, e, cold)
    requires 0 <= i < cold && i <= j <= |text| && Spans(strip, lo, hi, text, i, j)
    ensures Confusable(strip, lo, hi)
  {
    ThreadEnds(strip, lo, hi, text, 0, j);
    assert e <= j;
    var u, v := text[i..cold], text[cold..j];
    assert u + v == text[i..j];
    NarrowRun(strip, lo, hi, text, i, j, Config(lo, i), Config(hi, j));
    NoMatchBeforeCold(strip, lo, hi, text, e, cold, i);
    FreshAtCold(strip, lo, hi, text, cold, i);
    ConfusingPair(strip, lo, hi, u, v);
  }

  lemma ConfusingPair(strip: seq<Sop>, lo: int, hi: int, u: seq<byte>, v: seq<byte>)
    requires u != [] && Spans(strip, lo, hi, u + v, 0, |u + v|) && !AnyMatch(strip, lo, hi, u)
    requires Threads(strip, lo, hi, u, 0, |u|) == Fresh(strip, lo, hi)
    ensures Confusable(strip, lo, hi)
  {
    assert Confuses(strip, lo, hi, u, v);
  }

  lemma FreshStopEndsAtOnce(strip: seq<Sop>, lo: int, hi: int, text: seq<byte>, e: int)
    requires WellFormed(strip, lo, hi) && FirstEnd(strip, lo, hi, text, e) && hi in Fresh(strip, lo, hi)
    ensures e == 0
  {
    FreshAnywhere(strip, lo, hi, text, 0);
    assert Live(strip, lo, hi, text, 0, 0, hi, 0);
    assert Live(strip, lo, hi, text, 0, |text|, hi, 0);
    assert hi in Threads(strip, lo, hi, text, 0, 0);
  }

  lemma NoMatchBeforeCold(strip: seq<Sop>, lo: int, hi: int, text: seq<byte>, e: int, cold: int, i: int)
    requires WellFormed(strip, lo, hi)
    requires FirstEnd(strip, lo, hi, text, e) && Scanned(strip, lo, hi, text, 0, e, cold) && 0 <= i < cold
    ensures !AnyMatch(strip, lo, hi, text[i..cold])
  {
    var u := text[i..cold];
    forall x, y | 0 <= x <= y <= |u| ensures !Spans(strip, lo, hi, u, x, y) {
      Window(strip, lo, hi, text, i, cold, Config(lo, i + x), Config(hi, i + y));
      if Spans(strip, lo, hi, u, x, y) {
        ThreadEnds(strip, lo, hi, text, 0, i + y);
        assert hi in Fresh(strip, lo, hi);
        FreshStopEndsAtOnce(strip, lo, hi, text, e);
        assert false;
      }
    }
  }

  lemma FreshAtCold(strip: seq<Sop>, lo: int, hi: int, text: seq<byte>, cold: int, i: int)
    requires WellFormed(strip, lo, hi) && 0 <= i < cold <= |text|
    requires Threads(strip, lo, hi, text, 0, cold) == Fresh(strip, lo, hi)
    ensures Threads(strip, lo, hi, text[i..cold], 0, cold - i) == Fresh(strip, lo, hi)
  {
    var u := text[i..cold];
    var s := Threads(strip, lo, hi, u, 0, |u|);
    forall q | q in s ensures q in Fresh(strip, lo, hi) {
      var k :| 0 <= k <= |u| && Reaches(strip, lo, hi, u, Config(lo, k), Config(q, |u|));
      Window(strip, lo, hi, text, i, cold, Config(lo, i + k), Config(q, cold));
      assert Live(strip, lo, hi, text, 0, |text|, q, cold);
      assert q in Threads(strip, lo, hi, text, 0, cold);
    }
    FreshAnywhere(strip, lo, hi, u, |u|);
    forall q | q in Fresh(strip, lo, hi) ensures q in s {
      assert Live(strip, lo, hi, u, |u|, |u|, q, |u|);
      assert Live(strip, lo, hi, u, 0, |u|, q, |u|);
    }
  }

  /** The reported match is the leftmost-longest one on every text exactly for the strips
      that have no confusing pair of words. */
  lemma LeftmostIffNotConfusable(strip: seq<Sop>, lo: int, hi: int)
    requires WellFormed(strip, lo, hi)
    ensures (forall text, so, eo :: Reported(strip, lo, hi, text, so, eo) ==>
               LeftmostLongest(strip, lo, hi, text, so, eo))
            <==> !Confusable(strip, lo, hi)
  {
    if Confusable(strip, lo, hi) {
      var u, v :| Confuses(strip, lo, hi, u, v);
      var so, eo := ConfusedReport(strip, lo, hi, u, v);
    } else {
      forall text, so, eo | Reported(strip, lo, hi, text, so, eo)
        ensures LeftmostLongest(strip, lo, hi, text, so, eo)
      {
        if !LeftmostLongest(strip, lo, hi, text, so, eo) {
          MissedStart(strip, lo, hi, text, so, eo);
        }
      }
    }
  }

  // ----- a condition that can be read off the strip -----

  /** No state that follows a character operator is entered by a fresh start. */
  ghost predicate NoReentry(strip: seq<Sop>, lo: int, hi: int) {
    0 <= lo <= hi <= |strip| &&
    forall p :: lo <= p < hi && (strip[p].OChar? || strip[p].OAny? || strip[p].OAnyOf?) ==>
      p + 1 !in Fresh(strip, lo, hi)
  }

  /** The character move with which a run arrives at text position `c`. */
  lemma ArrivesByCharacter(strip: seq<Sop>, lo: int, hi: int, text: seq<byte>, a: Config, b: Config, c: int)
    returns (p: int)
    requires Reaches(strip, lo, hi, text, a, b) && 0 <= a.i < c <= b.i
    ensures 0 <= lo <= p < hi <= |strip| && c <= |text| && Takes(strip[p], text[c - 1])
    ensures Reaches(strip, lo, hi, text, a, Config(p, c - 1))
  {
    var came := (p: int) => 0 <= lo <= p < hi <= |strip| && c <= |text| && Takes(strip[p], text[c - 1]) &&
      Reaches(strip, lo, hi, text, a, Config(p, c - 1));
    var inv := (x: Config) => a.i <= x.i && Reaches(strip, lo, hi, text, a, x) && (x.i >= c ==> exists p :: came(p));
    ReachesRefl(strip, lo, hi, text, a);
    forall x, y | Edge(strip, lo, hi, text, x, y) && inv(x) ensures inv(y) {
      ReachesStep(strip, lo, hi, text, a, x, y);
      if x.i < c <= y.i {
        assert x == Config(x.q, c - 1) && came(x.q);
      }
    }
    ReachesInvariant(strip, lo, hi, text, a, b, inv);
    p :| came(p);
  }

  lemma NoReentryNotConfusable(strip: seq<Sop>, lo: int, hi: int)
    requires WellFormed(strip, lo, hi) && NoReentry(strip, lo, hi)
    ensures !Confusable(strip, lo, hi)
  {
    if u, v :| Confuses(strip, lo, hi, u, v) {
      var text, n := u + v, |u|;
      assert text[..n] == u;
      var p := ArrivesByCharacter(strip, lo, hi, text, Config(lo, 0), Config(hi, |text|), n);
      assert Live(strip, lo, hi, text, 0, |text|, p, n - 1);
      LiveStep(strip, lo, hi, text, 0, |text|, Config(p, n - 1), Config(p + 1, n));
      ThreadsOfPrefix(strip, lo, hi, text, n, n);
      assert false;
    }
  }

  // ----- a strip for which the reported match is not leftmost -----

  /** The strip of the extended regular expression (b*|a)c. */
  const DEMO: seq<Sop> := [
    OEnd, OLParen(1), OChOpen(7), OQuestOpen(4), OPlusOpen(2), OChar(98), OPlusClose(2), OQuestClose(4),
    OOr1(6), OOr2(2), OChar(97), OChClose(3), ORParen(1), OChar(99), OEnd
  ]

  lemma DemoWellFormed()
    ensures WellFormed(DEMO, 1, 14)
  {
    assert ChoiceEnd(DEMO, 11) == 11;
    assert ChoiceEnd(DEMO, 9) == 11;
  }

  /** The way past an empty b* to the end of the choice. */
  lemma DemoEdges()
    ensures EpsSucc(DEMO, 1) == {2} && 3 in EpsSucc(DEMO, 2) && 8 in EpsSucc(DEMO, 7) && EpsSucc(DEMO, 8) == {11}
    ensures 7 in EpsSucc(DEMO, 3)
  {
    assert ChoiceEnd(DEMO, 11) == 11;
    assert ChoiceEnd(DEMO, 9) == 11;
  }

  /** After an `a` the choice is over, and so it is after an empty b*. */
  lemma DemoFresh()
    ensures 11 in Fresh(DEMO, 1, 14)
  {
    DemoWellFormed();
    DemoEdges();
    var f := Fresh(DEMO, 1, 14);
    StatesClosed(DEMO, 1, 14, [], 0, 0, 0);
    ReachesRefl(DEMO, 1, 14, [], Config(1, 0));
    assert Live(DEMO, 1, 14, [], 0, 0, 1, 0);
    assert 1 in f;
    assert EpsSucc(DEMO, 1) <= f && EpsSucc(DEMO, 2) <= f && EpsSucc(DEMO, 3) <= f && EpsSucc(DEMO, 7) <= f
      && EpsSucc(DEMO, 8) <= f;
  }

  lemma StaysFresh(strip: seq<Sop>, lo: int, hi: int, c: byte)
    requires WellFormed(strip, lo, hi)
    requires forall q :: lo <= q < hi && Takes(strip[q], c) ==> q + 1 in Fresh(strip, lo, hi)
    ensures Threads(strip, lo, hi, [c], 0, 1) == Fresh(strip, lo, hi)
  {
    var f, text := Fresh(strip, lo, hi), [c];
    FreshAnywhere(strip, lo, hi, text, 0);
    assert Threads(strip, lo, hi, text, 0, 0) == States(strip, lo, hi, text, 0, 0, 0);
    StatesClosed(strip, lo, hi, [], 0, 0, 0);
    assert IsStep(strip, lo, hi, f, Ch(text[0]), f, f);
    AdvanceStates(strip, lo, hi, text, 0, 1, 0, f, f, f);
  }

  lemma DemoNoMatch()
    ensures !AnyMatch(DEMO, 1, 14, [97])
  {
    forall i, j | 0 <= i <= j <= 1 ensures !Spans(DEMO, 1, 14, [97], i, j) {
      if Spans(DEMO, 1, 14, [97], i, j) {
        var inv := (c: Config) => c.q != 14;
        assert ChoiceEnd(DEMO, 11) == 11;
        assert ChoiceEnd(DEMO, 9) == 11;
        ReachesInvariant(DEMO, 1, 14, [97], Config(1, i), Config(14, j), inv);
      }
    }
  }

  lemma DemoMatch()
    ensures Spans(DEMO, 1, 14, [97, 99], 0, 2)
  {
    var path := [Config(1, 0), Config(2, 0), Config(9, 0), Config(10, 0), Config(11, 1), Config(12, 1),
                 Config(13, 1), Config(14, 2)];
    assert PathFromTo(DEMO, 1, 14, [97, 99], path, Config(1, 0), Config(14, 2));
  }

  /** On the text "ac" the match of (b*|a)c that is reported is not the leftmost one. */
  lemma LeftmostFails() returns (so: int, eo: int)
    ensures WellFormed(DEMO, 1, 14) && Reported(DEMO, 1, 14, [97, 99], so, eo)
    ensures !LeftmostLongest(DEMO, 1, 14, [97, 99], so, eo)
  {
    DemoWellFormed();
    DemoFresh();
    assert forall q :: 1 <= q < 14 && Takes(DEMO[q], 97) ==> q == 10;
    StaysFresh(DEMO, 1, 14, 97);
    DemoNoMatch();
    DemoMatch();
    assert [97] + [99] == [97, 99];
    assert Confuses(DEMO, 1, 14, [97], [99]);
    so, eo := ConfusedReport(DEMO, 1, 14, [97], [99]);
  }
}
