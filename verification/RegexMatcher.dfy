/** The matching loops of libc/posix/engine.c and what they find. */
module RegexMatcher {
  import opened Bytes
  import opened RegexStrip
  import opened RegexEngine

  /** A text pointer that may be NULL. */
  datatype Pos = Null | At(p: int)

  /** The states of all runs started at or after `from`, when the text has been read up to `j`. */
  ghost function Threads(strip: seq<Sop>, lo: int, hi: int, text: seq<byte>, from: int, j: int): set<int> {
    States(strip, lo, hi, text, from, |text|, j)
  }

  /** `p` is the greatest end, up to `stop`, of a match that starts at `start`. */
  ghost predicate Longest(strip: seq<Sop>, lo: int, hi: int, text: seq<byte>, start: int, stop: int, p: int) {
    && start <= p <= stop
    && Spans(strip, lo, hi, text, start, p)
    && (forall e :: p < e <= stop ==> !Spans(strip, lo, hi, text, start, e))
  }

  lemma StopStateIsSpan(strip: seq<Sop>, lo: int, hi: int, text: seq<byte>, start: int, j: int)
    requires lo <= hi && start <= j
    ensures hi in States(strip, lo, hi, text, start, start, j) <==> Spans(strip, lo, hi, text, start, j)
  {
  }

  /** Text already passed by `fast`: what its variables mean when it looks at position `p`. */
  ghost predicate Scanned(strip: seq<Sop>, lo: int, hi: int, text: seq<byte>, start: int, p: int, coldp: int) {
    && start <= coldp <= p
    && Threads(strip, lo, hi, text, start, coldp) == Fresh(strip, lo, hi)
    && (forall c :: coldp < c <= p ==> Threads(strip, lo, hi, text, start, c) != Fresh(strip, lo, hi))
  }

  ghost predicate NoEndBefore(strip: seq<Sop>, lo: int, hi: int, text: seq<byte>, start: int, p: int) {
    forall e :: start <= e < p ==> hi !in Threads(strip, lo, hi, text, start, e)
  }

  lemma NoEndYet(strip: seq<Sop>, lo: int, hi: int, text: seq<byte>, start: int, p: int)
    requires NoEndBefore(strip, lo, hi, text, start, p) && hi !in Threads(strip, lo, hi, text, start, p)
    ensures NoEndBefore(strip, lo, hi, text, start, p + 1)
  {
  }

  /** One entry of `pmatch`. */
  datatype Slot = Slot(so: int, eo: int)

  /** struct match: the strip, the text between `beginp` and `endp`, the offset `off` of the
      text in the string, the cold point and the slots of the subexpressions. */
  class Match {
    const strip: seq<Sop>
    const text: seq<byte>
    const off: int
    var coldp: int
    var pmatch: seq<Slot>

    constructor (strip: seq<Sop>, text: seq<byte>, off: int)
      ensures this.strip == strip && this.text == text && this.off == off
    {
      this.strip, this.text, this.off := strip, text, off;
      coldp, pmatch := 0, [];
    }

    /** `slow`: the longest match of the strip range that starts exactly at `start`. */
    method Slow(start: int, stop: int, startst: int, stopst: int) returns (matchp: Pos)
      requires WellFormed(strip, startst, stopst) && 0 <= start <= stop <= |text|
      ensures matchp.Null? <==> forall e :: start <= e <= stop ==> !Spans(strip, startst, stopst, text, start, e)
      ensures matchp.At? ==> Longest(strip, startst, stopst, text, start, stop, matchp.p)
    {
      var p := start;
      var st := {startst};
      st := Step(strip, startst, stopst, st, Nothing, st);
      StartStates(strip, startst, stopst, text, start, {startst}, st);
      matchp := Null;
      while true
        invariant start <= p <= stop
        invariant st == States(strip, startst, stopst, text, start, start, p)
        invariant matchp.Null? ==> forall e :: start <= e < p ==> !Spans(strip, startst, stopst, text, start, e)
        invariant matchp.At? ==> matchp.p < p && Longest(strip, startst, stopst, text, start, p - 1, matchp.p)
        decreases stop - p
      {
        StopStateIsSpan(strip, startst, stopst, text, start, p);
        if stopst in st {
          matchp := At(p);
        }
        if st == {} || p == stop {
          break;
        }
        var tmp := st;
        st := {};
        st := Step(strip, startst, stopst, tmp, Ch(text[p]), st);
        AdvanceStates(strip, startst, stopst, text, start, start, p, tmp, {}, st);
        p := p + 1;
      }
      forall e | p < e <= stop ensures !Spans(strip, startst, stopst, text, start, e) {
        EmptyForever(strip, startst, stopst, text, start, start, p, e);
        StopStateIsSpan(strip, startst, stopst, text, start, e);
      }
    }

    /** `fast`: the first position at which any match ends, and in `coldp` the last position
        up to there at which the state set was that of a fresh start. */
    method Fast(start: int, stop: int, startst: int, stopst: int) returns (r: Pos)
      requires WellFormed(strip, startst, stopst) && 0 <= start <= stop <= |text|
      modifies this`coldp
      ensures r.Null? ==> NoEndBefore(strip, startst, stopst, text, start, stop + 1)
      ensures r.At? ==>
        && start < r.p <= stop + 1
        && stopst in Threads(strip, startst, stopst, text, start, r.p - 1)
        && NoEndBefore(strip, startst, stopst, text, start, r.p - 1)
      ensures Scanned(strip, startst, stopst, text, start, if r.At? then r.p - 1 else stop, coldp)
    {
      var p := start;
      var st := {startst};
      st := Step(strip, startst, stopst, st, Nothing, st);
      StartStates(strip, startst, stopst, text, start, {startst}, st);
      var freshSt := st;
      var cold := Null;
      while true
        invariant start <= p <= stop
        invariant freshSt == Fresh(strip, startst, stopst)
        invariant st == Threads(strip, startst, stopst, text, start, p)
        invariant p == start ==> st == freshSt
        invariant p > start ==> cold.At? && Scanned(strip, startst, stopst, text, start, p - 1, cold.p)
        invariant NoEndBefore(strip, startst, stopst, text, start, p)
        decreases stop - p
      {
        if st == freshSt {
          cold := At(p);
        }
        assert cold.At? && Scanned(strip, startst, stopst, text, start, p, cold.p);
        if stopst !in st {
          NoEndYet(strip, startst, stopst, text, start, p);
        }
        if stopst in st || p == stop {
          break;
        }
        var tmp := st;
        st := freshSt;
        st := Step(strip, startst, stopst, tmp, Ch(text[p]), st);
        AdvanceStates(strip, startst, stopst, text, start, |text|, p, tmp, freshSt, st);
        p := p + 1;
      }
      coldp := cold.p;
      if stopst in st {
        return At(p + 1);
      } else {
        return Null;
      }
    }
  }

  // ----- what is reported -----

  ghost predicate AnyMatch(strip: seq<Sop>, lo: int, hi: int, text: seq<byte>) {
    exists i, j :: 0 <= i <= j <= |text| && Spans(strip, lo, hi, text, i, j)
  }

  /** Some match starts at `i`. */
  ghost predicate StartsAt(strip: seq<Sop>, lo: int, hi: int, text: seq<byte>, i: int) {
    exists j :: i <= j <= |text| && Spans(strip, lo, hi, text, i, j)
  }

  ghost predicate LeftmostLongest(strip: seq<Sop>, lo: int, hi: int, text: seq<byte>, so: int, eo: int) {
    && 0 <= so && Longest(strip, lo, hi, text, so, |text|, eo)
    && (forall i :: 0 <= i < so ==> !StartsAt(strip, lo, hi, text, i))
  }

  /** `e` is the first position at which a match ends. */
  ghost predicate FirstEnd(strip: seq<Sop>, lo: int, hi: int, text: seq<byte>, e: int) {
    0 <= e <= |text| && hi in Threads(strip, lo, hi, text, 0, e) && NoEndBefore(strip, lo, hi, text, 0, e)
  }

  /** `cold` is the last position, up to the first end of a match, at which the state set
      was that of a fresh start. */
  ghost predicate ColdPoint(strip: seq<Sop>, lo: int, hi: int, text: seq<byte>, cold: int) {
    exists e :: FirstEnd(strip, lo, hi, text, e) && Scanned(strip, lo, hi, text, 0, e, cold)
  }

  /** The match that `matcher` reports: the longest one at the first start from the cold
      point on. */
  ghost predicate Reported(strip: seq<Sop>, lo: int, hi: int, text: seq<byte>, so: int, eo: int) {
    && Longest(strip, lo, hi, text, so, |text|, eo)
    && exists cold ::
        && ColdPoint(strip, lo, hi, text, cold) && cold <= so
        && forall k :: cold <= k < so ==> !StartsAt(strip, lo, hi, text, k)
  }

  lemma ThreadEnds(strip: seq<Sop>, lo: int, hi: int, text: seq<byte>, from: int, j: int)
    requires lo <= hi && from <= j <= |text|
    ensures hi in Threads(strip, lo, hi, text, from, j) <==>
            exists k :: from <= k <= j && Spans(strip, lo, hi, text, k, j)
  {
    if hi in Threads(strip, lo, hi, text, from, j) {
      var k :| from <= k <= |text| && k <= j && Reaches(strip, lo, hi, text, Config(lo, k), Config(hi, j));
      assert Spans(strip, lo, hi, text, k, j);
    }
    if k :| from <= k <= j && Spans(strip, lo, hi, text, k, j) {
      assert Live(strip, lo, hi, text, from, |text|, hi, j);
    }
  }

  lemma NoEndNoMatch(strip: seq<Sop>, lo: int, hi: int, text: seq<byte>)
    requires lo <= hi && NoEndBefore(strip, lo, hi, text, 0, |text| + 1)
    ensures !AnyMatch(strip, lo, hi, text)
  {
    forall i, j | 0 <= i <= j <= |text| ensures !Spans(strip, lo, hi, text, i, j) {
      ThreadEnds(strip, lo, hi, text, 0, j);
    }
  }

  /** Where the state set is that of a fresh start, every match still under way could as
      well have started there. */
  lemma MatchFromCold(strip: seq<Sop>, lo: int, hi: int, text: seq<byte>, cold: int, i: int, e: int)
    requires WellFormed(strip, lo, hi) && 0 <= i <= cold <= e <= |text|
    requires Threads(strip, lo, hi, text, 0, cold) == Fresh(strip, lo, hi)
    requires Spans(strip, lo, hi, text, i, e)
    ensures Spans(strip, lo, hi, text, cold, e)
  {
    var q := CutAt(strip, lo, hi, text, Config(lo, i), Config(hi, e), cold);
    ReachesBounds(strip, lo, hi, text, Config(lo, i), Config(q, cold));
    assert Live(strip, lo, hi, text, 0, |text|, q, cold);
    FreshAnywhere(strip, lo, hi, text, cold);
    assert q in Threads(strip, lo, hi, text, 0, cold);
    assert Live(strip, lo, hi, text, cold, cold, q, cold);
    ReachesTrans(strip, lo, hi, text, Config(lo, cold), Config(q, cold), Config(hi, e));
  }

  lemma StartAfterCold(strip: seq<Sop>, lo: int, hi: int, text: seq<byte>, cold: int) returns (k: int)
    requires WellFormed(strip, lo, hi) && ColdPoint(strip, lo, hi, text, cold)
    ensures 0 <= cold <= k <= |text| && StartsAt(strip, lo, hi, text, k)
  {
    var e :| FirstEnd(strip, lo, hi, text, e) && Scanned(strip, lo, hi, text, 0, e, cold);
    ThreadEnds(strip, lo, hi, text, 0, e);
    k :| 0 <= k <= e && Spans(strip, lo, hi, text, k, e);
    if k < cold {
      MatchFromCold(strip, lo, hi, text, cold, k, e);
      k := cold;
    }
  }

  datatype Outcome = NoMatch | InvArg | Yes | Found(so: int, eo: int)

  /** `matcher` without back-references and without the `must` prescreen.  `gf` and `gl`
      delimit the strip between its two end markers; `bounds` are the offsets given with
      REG_STARTEND.  Slot 0 of `pmatch` is the result when a slot is asked for. */
  method Matcher(strip: seq<Sop>, gf: int, gl: int, nosub: bool, input: seq<byte>, nmatch: nat,
                 startend: bool, bounds: (nat, nat)) returns (r: Outcome)
    requires WellFormed(strip, gf, gl)
    requires startend ==> bounds.0 <= |input| && bounds.1 <= |input|
    ensures r.InvArg? <==> startend && bounds.1 < bounds.0
    ensures !r.InvArg? ==>
      var start := if startend then bounds.0 else 0;
      var text := input[start..if startend then bounds.1 else |input|];
      && (r.NoMatch? <==> !AnyMatch(strip, gf, gl, text))
      && (!r.NoMatch? ==> (r.Yes? <==> nosub || nmatch == 0))
      && (r.Found? ==> Reported(strip, gf, gl, text, r.so - start, r.eo - start))
  {
    var slots := if nosub then 0 else nmatch;
    var start := if startend then bounds.0 else 0;
    var stop := if startend then bounds.1 else |input|;
    if stop < start {
      return InvArg;
    }
    var m := new Match(strip, input[start..stop], start);
    var text := m.text;
    var endp := m.Fast(0, |text|, gf, gl);
    if endp.Null? {
      NoEndNoMatch(strip, gf, gl, text);
      return NoMatch;
    }
    ghost var cold := m.coldp;
    assert FirstEnd(strip, gf, gl, text, endp.p - 1);
    assert ColdPoint(strip, gf, gl, text, cold);
    ghost var k := StartAfterCold(strip, gf, gl, text, cold);
    assert AnyMatch(strip, gf, gl, text);
    if slots == 0 {
      return Yes;
    }
    while true
      invariant cold <= m.coldp <= k
      invariant forall i :: cold <= i < m.coldp ==> !StartsAt(strip, gf, gl, text, i)
      decreases k - m.coldp
    {
      endp := m.Slow(m.coldp, |text|, gf, gl);
      if endp.At? {
        break;
      }
      m.coldp := m.coldp + 1;
    }
    assert Reported(strip, gf, gl, text, m.coldp, endp.p);
    return Found(start + m.coldp, start + endp.p);
  }
}
