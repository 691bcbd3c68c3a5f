/** The state-set simulation of libc/posix/engine.c: `step`, `slow`, `fast` and `matcher`. */
module RegexEngine {
  import opened Bytes
  import opened RegexStrip

  /** The character argument of `step`: a text character, or the code NOTHING. */
  datatype Input = Nothing | Ch(c: byte)

  ghost predicate InRange(s: set<int>, lo: int, hi: int) {
    forall q :: q in s ==> lo <= q <= hi
  }

  ghost predicate EpsClosed(strip: seq<Sop>, lo: int, hi: int, s: set<int>)
    requires 0 <= lo <= hi <= |strip|
  {
    forall q :: lo <= q < hi && q in s ==> EpsSucc(strip, q) <= s
  }

  /** Every state of `bef` whose operator takes the input passes to its successor in `aft`. */
  ghost predicate TakesInto(strip: seq<Sop>, lo: int, hi: int, bef: set<int>, ch: Input, aft: set<int>)
    requires 0 <= lo <= hi <= |strip|
  {
    ch.Ch? ==> forall q :: lo <= q < hi && q in bef && Takes(strip[q], ch.c) ==> q + 1 in aft
  }

  ghost predicate Bounds(strip: seq<Sop>, lo: int, hi: int, bef: set<int>, ch: Input, aft: set<int>, s: set<int>)
    requires 0 <= lo <= hi <= |strip|
  {
    aft <= s && TakesInto(strip, lo, hi, bef, ch, s) && EpsClosed(strip, lo, hi, s)
  }

  /** `r` is the least set that contains `aft` and the character successors of `bef`
      and is closed under the empty moves. */
  ghost predicate IsStep(strip: seq<Sop>, lo: int, hi: int, bef: set<int>, ch: Input, aft: set<int>, r: set<int>)
    requires 0 <= lo <= hi <= |strip|
  {
    && Bounds(strip, lo, hi, bef, ch, aft, r)
    && (forall s :: Bounds(strip, lo, hi, bef, ch, aft, s) ==> r <= s)
  }

  /** The obligations of position `q` in the scan of `step`. */
  ghost predicate Settled(strip: seq<Sop>, q: int, bef: set<int>, ch: Input, aft: set<int>)
    requires 0 <= q < |strip|
  {
    && (q in aft ==> EpsSucc(strip, q) <= aft)
    && (ch.Ch? && q in bef && Takes(strip[q], ch.c) ==> q + 1 in aft)
  }

  /** The macro FWD(dst, src, n): a state on in `src` at `here` turns on `here + n` in `dst`. */
  function Fwd(dst: set<int>, src: set<int>, here: int, n: int): set<int> {
    if here in src then dst + {here + n} else dst
  }

  function Back(dst: set<int>, src: set<int>, here: int, n: int): set<int> {
    if here in src then dst + {here - n} else dst
  }

  ghost function Span(lo: int, hi: int): (r: set<int>)
    ensures forall q :: q in r <==> lo <= q <= hi
    decreases hi - lo
  {
    if hi < lo then {} else Span(lo, hi - 1) + {hi}
  }

  lemma Smaller(a: set<int>, b: set<int>, u: set<int>, x: int)
    requires a <= b <= u && x in b && x !in a
    ensures |u - b| < |u - a|
  {
    assert u - b <= (u - a) - {x};
    SubsetSize(u - b, (u - a) - {x});
  }

  lemma SubsetSize(a: set<int>, b: set<int>)
    requires a <= b
    ensures |a| <= |b|
  {
    assert b == a + (b - a);
  }

  /** The states that the operator at `pc` turns on. */
  ghost function TurnedOn(strip: seq<Sop>, pc: int, bef: set<int>, ch: Input, aft: set<int>): set<int>
    requires 0 <= pc < |strip|
  {
    (if pc in aft then EpsSucc(strip, pc) else {}) +
    (if ch.Ch? && pc in bef && Takes(strip[pc], ch.c) then {pc + 1} else {})
  }

  /** Where the scan goes on after the operator at `pc`: only a loop end sends it back, and
      only when it has just turned on the head of its loop. */
  ghost function NextScan(strip: seq<Sop>, pc: int, before: set<int>, after: set<int>): int
    requires 0 <= pc < |strip|
  {
    if strip[pc].OPlusClose? && pc - strip[pc].back in after && pc - strip[pc].back !in before
    then pc - strip[pc].back else pc + 1
  }

  lemma ScanFacts(strip: seq<Sop>, start: int, stop: int, pc: int, bef: set<int>, ch: Input,
                  aft0: set<int>, aft: set<int>, next: int)
    requires WellFormed(strip, start, stop) && start <= pc < stop
    requires InRange(aft0, start, stop)
    requires aft == aft0 + TurnedOn(strip, pc, bef, ch, aft0)
    requires next == NextScan(strip, pc, aft0, aft)
    ensures aft0 <= aft && InRange(aft, start, stop)
    ensures start <= next <= pc + 1
    ensures next == pc + 1 ==> Settled(strip, pc, bef, ch, aft)
    ensures next <= pc ==> next in aft && next !in aft0
    ensures forall q :: q in aft && q !in aft0 ==> next <= q
    ensures forall s :: aft0 <= s && Settled(strip, pc, bef, ch, s) ==> aft <= s
  {
    assert OpOk(strip, start, stop, pc);
    EpsSuccInRange(strip, start, stop, pc);
    assert forall q :: q in EpsSucc(strip, pc) ==> q > pc || (strip[pc].OPlusClose? && q == pc - strip[pc].back);
  }

  /** The `switch` of `step`: the operator at `pc` is applied to `aft0`, and `next` is the
      position scanned after it. */
  method Execute(strip: seq<Sop>, start: int, stop: int, pc: int, bef: set<int>, ch: Input, aft0: set<int>)
    returns (aft: set<int>, next: int)
    requires WellFormed(strip, start, stop) && start <= pc < stop
    requires InRange(bef, start, stop) && InRange(aft0, start, stop)
    ensures aft0 <= aft && InRange(aft, start, stop)
    ensures start <= next <= pc + 1
    ensures next == pc + 1 ==> Settled(strip, pc, bef, ch, aft)
    ensures next <= pc ==> next in aft && next !in aft0
    ensures forall q :: q in aft && q !in aft0 ==> next <= q
    ensures forall s :: aft0 <= s && Settled(strip, pc, bef, ch, s) ==> aft <= s
  {
    assert OpOk(strip, start, stop, pc);
    aft, next := aft0, pc;
    match strip[pc] {
      case OEnd =>
      case OChar(c) =>
        if ch == Ch(c) {
          aft := Fwd(aft, bef, pc, 1);
        }
      case OAny =>
        if ch.Ch? {
          aft := Fwd(aft, bef, pc, 1);
        }
      case OAnyOf(cs) =>
        if ch.Ch? && ch.c in cs {
          aft := Fwd(aft, bef, pc, 1);
        }
      case OPlusClose(n) =>
        aft := Fwd(aft, aft, pc, 1);
        var i := pc - n in aft;
        aft := Back(aft, aft, pc, n);
        if !i && pc - n in aft {
          next := next - (n + 1);
        }
      case OQuestOpen(n) =>
        aft := Fwd(aft, aft, pc, 1);
        aft := Fwd(aft, aft, pc, n);
      case OChOpen(n) =>
        aft := Fwd(aft, aft, pc, 1);
        aft := Fwd(aft, aft, pc, n);
      case OOr1(_) =>
        if pc in aft {
          var look := FindChoiceEnd(strip, pc);
          aft := Fwd(aft, aft, pc, look);
        }
      case OOr2(n) =>
        aft := Fwd(aft, aft, pc, 1);
        if !strip[pc + n].OChClose? {
          aft := Fwd(aft, aft, pc, n);
        }
      case _ =>
        aft := Fwd(aft, aft, pc, 1);
    }
    next := next + 1;
    ScanFacts(strip, start, stop, pc, bef, ch, aft0, aft, next);
  }

  /** `step`: one pass over the strip from `start` to `stop`, rewinding to the head of a
      loop whenever a loop end turns the head on for the first time. */
  method Step(strip: seq<Sop>, start: int, stop: int, bef: set<int>, ch: Input, aft0: set<int>)
    returns (aft: set<int>)
    requires WellFormed(strip, start, stop)
    requires InRange(bef, start, stop) && InRange(aft0, start, stop)
    ensures InRange(aft, start, stop)
    ensures IsStep(strip, start, stop, bef, ch, aft0, aft)
  {
    aft := aft0;
    var pc := start;
    while pc != stop
      invariant start <= pc <= stop
      invariant aft0 <= aft && InRange(aft, start, stop)
      invariant forall q :: start <= q < pc ==> Settled(strip, q, bef, ch, aft)
      invariant forall s :: Bounds(strip, start, stop, bef, ch, aft0, s) ==> aft <= s
      decreases |Span(start, stop) - aft|, stop - pc
    {
      ghost var before, from := aft, pc;
      aft, pc := Execute(strip, start, stop, pc, bef, ch, aft);
      SubsetSize(Span(start, stop) - aft, Span(start, stop) - before);
      if pc <= from {
        Smaller(before, aft, Span(start, stop), pc);
      }
      forall q | start <= q < pc ensures Settled(strip, q, bef, ch, aft) {
        assert q < from ==> Settled(strip, q, bef, ch, before);
      }
      forall s | Bounds(strip, start, stop, bef, ch, aft0, s) ensures aft <= s {
        assert before <= s && Settled(strip, from, bef, ch, s);
      }
    }
    assert forall q {:trigger EpsSucc(strip, q)} {:trigger Takes(strip[q], ch.c)} ::
        start <= q < stop ==> Settled(strip, q, bef, ch, aft);
  }

  /** The loop of the OOR1 case that follows the OOR2 operands to the O_CH. */
  method FindChoiceEnd(strip: seq<Sop>, pc: int) returns (look: int)
    requires 0 <= pc < |strip| && ChoiceEnd(strip, pc + 1) != -1
    ensures look >= 1 && pc + look == ChoiceEnd(strip, pc + 1)
  {
    look := 1;
    while !strip[pc + look].OChClose?
      invariant 1 <= look && pc + look < |strip|
      invariant ChoiceEnd(strip, pc + look) == ChoiceEnd(strip, pc + 1) != -1
      decreases |strip| - look
    {
      look := look + strip[pc + look].fwd;
    }
  }

  /** The check that `slow` and `fast` assert after every step: on a closed set a step
      without a character changes nothing. */
  lemma NothingStepIsIdentity(strip: seq<Sop>, lo: int, hi: int, bef: set<int>, st: set<int>, r: set<int>)
    requires 0 <= lo <= hi <= |strip| && EpsClosed(strip, lo, hi, st)
    requires IsStep(strip, lo, hi, bef, Nothing, st, r)
    ensures r == st
  {
    assert Bounds(strip, lo, hi, bef, Nothing, st, st);
  }

  // ----- state sets of the runs -----

  /** Some run that enters the range at a text position in `from..to` is in state `q` at `j`. */
  ghost predicate Live(strip: seq<Sop>, lo: int, hi: int, text: seq<byte>, from: int, to: int, q: int, j: int) {
    exists k :: from <= k <= to && k <= j && Reaches(strip, lo, hi, text, Config(lo, k), Config(q, j))
  }

  ghost function States(strip: seq<Sop>, lo: int, hi: int, text: seq<byte>, from: int, to: int, j: int): set<int> {
    set q | q in Span(lo, hi) && Live(strip, lo, hi, text, from, to, q, j)
  }

  /** The states entered before any character is read. */
  ghost function Fresh(strip: seq<Sop>, lo: int, hi: int): set<int> {
    States(strip, lo, hi, [], 0, 0, 0)
  }

  lemma LiveStep(strip: seq<Sop>, lo: int, hi: int, text: seq<byte>, from: int, to: int, a: Config, b: Config)
    requires WellFormed(strip, lo, hi)
    requires a.q in States(strip, lo, hi, text, from, to, a.i) && Edge(strip, lo, hi, text, a, b)
    ensures b.q in States(strip, lo, hi, text, from, to, b.i)
  {
    var k :| from <= k <= to && k <= a.i && Reaches(strip, lo, hi, text, Config(lo, k), Config(a.q, a.i));
    ReachesStep(strip, lo, hi, text, Config(lo, k), a, b);
    EpsSuccInRange(strip, lo, hi, a.q);
  }

  lemma StatesClosed(strip: seq<Sop>, lo: int, hi: int, text: seq<byte>, from: int, to: int, j: int)
    requires WellFormed(strip, lo, hi)
    ensures EpsClosed(strip, lo, hi, States(strip, lo, hi, text, from, to, j))
  {
    var s := States(strip, lo, hi, text, from, to, j);
    forall q, r | lo <= q < hi && q in s && r in EpsSucc(strip, q) ensures r in s {
      LiveStep(strip, lo, hi, text, from, to, Config(q, j), Config(r, j));
    }
  }

  /** The first step of `slow` and `fast` computes the states at the starting position. */
  lemma StartIsStep(strip: seq<Sop>, lo: int, hi: int, text: seq<byte>, k: int, bef: set<int>)
    requires WellFormed(strip, lo, hi)
    ensures IsStep(strip, lo, hi, bef, Nothing, {lo}, States(strip, lo, hi, text, k, k, k))
  {
    var r := States(strip, lo, hi, text, k, k, k);
    ReachesRefl(strip, lo, hi, text, Config(lo, k));
    StatesClosed(strip, lo, hi, text, k, k, k);
    forall s | Bounds(strip, lo, hi, bef, Nothing, {lo}, s) ensures r <= s {
      forall q | q in r ensures q in s {
        var inv := (c: Config) => c.i >= k && (c.i == k ==> c.q in s);
        ReachesInvariant(strip, lo, hi, text, Config(lo, k), Config(q, k), inv);
      }
    }
  }

  lemma StepUnique(strip: seq<Sop>, lo: int, hi: int, bef: set<int>, ch: Input, aft: set<int>, r: set<int>,
                   r': set<int>)
    requires 0 <= lo <= hi <= |strip|
    requires IsStep(strip, lo, hi, bef, ch, aft, r) && IsStep(strip, lo, hi, bef, ch, aft, r')
    ensures r == r'
  {
  }

  lemma FreshAnywhere(strip: seq<Sop>, lo: int, hi: int, text: seq<byte>, k: int)
    requires WellFormed(strip, lo, hi)
    ensures Fresh(strip, lo, hi) == States(strip, lo, hi, text, k, k, k)
  {
    StartIsStep(strip, lo, hi, [], 0, {});
    StartIsStep(strip, lo, hi, text, k, {});
    StepUnique(strip, lo, hi, {}, Nothing, {lo}, Fresh(strip, lo, hi), States(strip, lo, hi, text, k, k, k));
  }

  /** What is added to the state set after the character at `j`, before stepping. */
  ghost function Restart(strip: seq<Sop>, lo: int, hi: int, to: int, j: int): set<int> {
    if j + 1 <= to then Fresh(strip, lo, hi) else {}
  }

  /** A step over the character at `j` takes the states at `j` to the states at `j + 1`. */
  lemma AdvanceIsStep(strip: seq<Sop>, lo: int, hi: int, text: seq<byte>, from: int, to: int, j: int)
    requires WellFormed(strip, lo, hi) && 0 <= from <= j < |text|
    ensures IsStep(strip, lo, hi, States(strip, lo, hi, text, from, to, j), Ch(text[j]),
                   Restart(strip, lo, hi, to, j), States(strip, lo, hi, text, from, to, j + 1))
  {
    var bef, aft := States(strip, lo, hi, text, from, to, j), Restart(strip, lo, hi, to, j);
    var r := States(strip, lo, hi, text, from, to, j + 1);
    StatesClosed(strip, lo, hi, text, from, to, j + 1);
    FreshAnywhere(strip, lo, hi, text, j + 1);
    forall q | lo <= q < hi && q in bef && Takes(strip[q], text[j]) ensures q + 1 in r {
      LiveStep(strip, lo, hi, text, from, to, Config(q, j), Config(q + 1, j + 1));
    }
    forall s | Bounds(strip, lo, hi, bef, Ch(text[j]), aft, s) ensures r <= s {
      forall q | q in r ensures q in s {
        AdvanceLeast(strip, lo, hi, text, from, to, j, q, s);
      }
    }
  }

  lemma AdvanceLeast(strip: seq<Sop>, lo: int, hi: int, text: seq<byte>, from: int, to: int, j: int, q: int,
                     s: set<int>)
    requires WellFormed(strip, lo, hi) && 0 <= from <= j < |text|
    requires Bounds(strip, lo, hi, States(strip, lo, hi, text, from, to, j), Ch(text[j]),
                    Restart(strip, lo, hi, to, j), s)
    requires q in States(strip, lo, hi, text, from, to, j + 1)
    ensures q in s
  {
    var k :| from <= k <= to && k <= j + 1 && Reaches(strip, lo, hi, text, Config(lo, k), Config(q, j + 1));
    if k == j + 1 {
      FreshAnywhere(strip, lo, hi, text, j + 1);
      assert Live(strip, lo, hi, text, j + 1, j + 1, q, j + 1);
    } else {
      var inv := (c: Config) => Reaches(strip, lo, hi, text, Config(lo, k), c) && (c.i == j + 1 ==> c.q in s);
      ReachesRefl(strip, lo, hi, text, Config(lo, k));
      forall a, b | Edge(strip, lo, hi, text, a, b) && inv(a) ensures inv(b) {
        ReachesStep(strip, lo, hi, text, Config(lo, k), a, b);
        if b.i == j + 1 && a.i == j {
          assert Live(strip, lo, hi, text, from, to, a.q, j);
        }
      }
      ReachesInvariant(strip, lo, hi, text, Config(lo, k), Config(q, j + 1), inv);
    }
  }

  lemma StartStates(strip: seq<Sop>, lo: int, hi: int, text: seq<byte>, k: int, bef: set<int>, r: set<int>)
    requires WellFormed(strip, lo, hi) && IsStep(strip, lo, hi, bef, Nothing, {lo}, r)
    ensures r == Fresh(strip, lo, hi)
    ensures forall to :: to >= k ==> r == States(strip, lo, hi, text, k, to, k)
  {
    StartIsStep(strip, lo, hi, text, k, bef);
    StepUnique(strip, lo, hi, bef, Nothing, {lo}, r, States(strip, lo, hi, text, k, k, k));
    FreshAnywhere(strip, lo, hi, text, k);
    forall to | to >= k ensures States(strip, lo, hi, text, k, to, k) == States(strip, lo, hi, text, k, k, k) {
    }
  }

  lemma AdvanceStates(strip: seq<Sop>, lo: int, hi: int, text: seq<byte>, from: int, to: int, j: int,
                      bef: set<int>, aft: set<int>, r: set<int>)
    requires WellFormed(strip, lo, hi) && 0 <= from <= j < |text|
    requires bef == States(strip, lo, hi, text, from, to, j) && aft == Restart(strip, lo, hi, to, j)
    requires IsStep(strip, lo, hi, bef, Ch(text[j]), aft, r)
    ensures r == States(strip, lo, hi, text, from, to, j + 1)
  {
    AdvanceIsStep(strip, lo, hi, text, from, to, j);
    StepUnique(strip, lo, hi, bef, Ch(text[j]), aft, r, States(strip, lo, hi, text, from, to, j + 1));
  }

  /** Once no state is on and no run is started again, no state is ever on again. */
  lemma {:induction false} EmptyForever(strip: seq<Sop>, lo: int, hi: int, text: seq<byte>, from: int, to: int,
                                        j: int, j': int)
    requires WellFormed(strip, lo, hi) && 0 <= from <= to <= j <= j' <= |text|
    requires States(strip, lo, hi, text, from, to, j) == {}
    ensures States(strip, lo, hi, text, from, to, j') == {}
    decreases j' - j
  {
    if j < j' {
      AdvanceIsStep(strip, lo, hi, text, from, to, j);
      assert Bounds(strip, lo, hi, {}, Ch(text[j]), {}, {});
      EmptyForever(strip, lo, hi, text, from, to, j + 1, j');
    }
  }
}
