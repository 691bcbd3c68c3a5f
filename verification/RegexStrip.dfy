/** The compiled form of a regular expression (libc/posix/regex2.h) and its meaning as a
    nondeterministic automaton: the positions of the strip are the states, and a state is
    the point just before the operator at that position is executed. */
module RegexStrip {
  import opened Bytes

  /** One strip operator.  The operands of the bracketing operators are relative offsets:
      `fwd` counts towards the end of the strip and `back` towards its beginning. */
  datatype Sop =
    | OEnd
    | OChar(ch: byte)
    | OAny
    | OAnyOf(cs: set<byte>)
    | OPlusOpen(fwd: nat)
    | OPlusClose(back: nat)
    | OQuestOpen(fwd: nat)
    | OQuestClose(back: nat)
    | OLParen(num: nat)
    | ORParen(num: nat)
    | OChOpen(fwd: nat)
    | OOr1(back: nat)
    | OOr2(fwd: nat)
    | OChClose(back: nat)

  /** Does the operator consume the character `c`? */
  predicate Takes(s: Sop, c: byte) {
    (s.OChar? && s.ch == c) || s.OAny? || (s.OAnyOf? && c in s.cs)
  }

  /** Where the chain of OOr2 operators starting at `at` ends: the position of its O_CH,
      or -1 if the chain is broken. */
  function ChoiceEnd(strip: seq<Sop>, at: nat): (r: int)
    ensures r == -1 || (at <= r < |strip| && strip[r].OChClose?)
    decreases |strip| - at
  {
    if at >= |strip| then -1
    else match strip[at]
      case OChClose(_) => at
      case OOr2(n) => if n == 0 then -1 else ChoiceEnd(strip, at + n)
      case _ => -1
  }

  /** The states entered from state `p` without consuming a character. */
  function EpsSucc(strip: seq<Sop>, p: int): (r: set<int>)
    requires 0 <= p < |strip|
  {
    match strip[p]
    case OEnd => {}
    case OChar(_) => {}
    case OAny => {}
    case OAnyOf(_) => {}
    case OPlusClose(n) => {p + 1, p - n}
    case OQuestOpen(n) => {p + 1, p + n}
    case OChOpen(n) => {p + 1, p + n}
    case OOr1(_) => {ChoiceEnd(strip, p + 1)}
    case OOr2(n) =>
      if p + n < |strip| && !strip[p + n].OChClose? then {p + 1, p + n} else {p + 1}
    case _ => {p + 1}
  }

  /** The operand conditions that the matching engine asserts or relies on, for the
      operator at `p` of the range `lo..hi`: no operator leads out of the range. */
  predicate OpOk(strip: seq<Sop>, lo: int, hi: int, p: int)
    requires 0 <= lo <= p < hi <= |strip|
  {
    match strip[p]
    case OEnd => p == hi - 1
    case OPlusClose(n) => n <= p - lo
    case OQuestOpen(n) => 1 <= n <= hi - p
    case OChOpen(n) => 1 <= n < hi - p && strip[p + n].OOr2?
    case OOr1(_) => ChoiceEnd(strip, p + 1) != -1 && ChoiceEnd(strip, p + 1) < hi
    case OOr2(n) => 1 <= n < hi - p && (strip[p + n].OOr2? || strip[p + n].OChClose?)
    case _ => true
  }

  ghost predicate WellFormed(strip: seq<Sop>, lo: int, hi: int) {
    0 <= lo <= hi <= |strip| &&
    forall p :: lo <= p < hi ==> OpOk(strip, lo, hi, p)
  }

  lemma EpsSuccInRange(strip: seq<Sop>, lo: int, hi: int, p: int)
    requires WellFormed(strip, lo, hi) && lo <= p < hi
    ensures forall q :: q in EpsSucc(strip, p) ==> lo <= q <= hi
  {
    assert OpOk(strip, lo, hi, p);
  }

  // ----- runs of the automaton -----

  /** A state together with a position in the text. */
  datatype Config = Config(q: int, i: int)

  /** One move inside the range `lo..hi`: an empty move, or the consumption of a character. */
  ghost predicate Edge(strip: seq<Sop>, lo: int, hi: int, text: seq<byte>, a: Config, b: Config) {
    && 0 <= lo <= a.q < hi <= |strip|
    && (|| (b.i == a.i && b.q in EpsSucc(strip, a.q))
        || (0 <= a.i < |text| && Takes(strip[a.q], text[a.i]) && b == Config(a.q + 1, a.i + 1)))
  }

  ghost predicate IsPath(strip: seq<Sop>, lo: int, hi: int, text: seq<byte>, path: seq<Config>) {
    && |path| > 0
    && forall k :: 0 < k < |path| ==> Edge(strip, lo, hi, text, path[k - 1], path[k])
  }

  ghost predicate PathFromTo(strip: seq<Sop>, lo: int, hi: int, text: seq<byte>,
                             path: seq<Config>, a: Config, b: Config) {
    IsPath(strip, lo, hi, text, path) && path[0] == a && path[|path| - 1] == b
  }

  ghost predicate Reaches(strip: seq<Sop>, lo: int, hi: int, text: seq<byte>, a: Config, b: Config) {
    exists path :: PathFromTo(strip, lo, hi, text, path, a, b)
  }

  /** The range `lo..hi` of the strip matches exactly `text[i..j]`. */
  ghost predicate Spans(strip: seq<Sop>, lo: int, hi: int, text: seq<byte>, i: int, j: int) {
    Reaches(strip, lo, hi, text, Config(lo, i), Config(hi, j))
  }

  lemma ReachesRefl(strip: seq<Sop>, lo: int, hi: int, text: seq<byte>, a: Config)
    ensures Reaches(strip, lo, hi, text, a, a)
  {
    assert PathFromTo(strip, lo, hi, text, [a], a, a);
  }

  lemma ReachesStep(strip: seq<Sop>, lo: int, hi: int, text: seq<byte>, a: Config, b: Config, c: Config)
    requires Reaches(strip, lo, hi, text, a, b) && Edge(strip, lo, hi, text, b, c)
    ensures Reaches(strip, lo, hi, text, a, c)
  {
    var path :| PathFromTo(strip, lo, hi, text, path, a, b);
    assert PathFromTo(strip, lo, hi, text, path + [c], a, c);
  }

  lemma ReachesTrans(strip: seq<Sop>, lo: int, hi: int, text: seq<byte>, a: Config, b: Config, c: Config)
    requires Reaches(strip, lo, hi, text, a, b) && Reaches(strip, lo, hi, text, b, c)
    ensures Reaches(strip, lo, hi, text, a, c)
  {
    var p :| PathFromTo(strip, lo, hi, text, p, a, b);
    var q :| PathFromTo(strip, lo, hi, text, q, b, c);
    var r := p + q[1..];
    forall k | 0 < k < |r| ensures Edge(strip, lo, hi, text, r[k - 1], r[k]) {
      if k >= |p| {
        assert r[k] == q[k - |p| + 1] && r[k - 1] == q[k - |p|];
      }
    }
    assert PathFromTo(strip, lo, hi, text, r, a, c);
  }

  /** A property kept by every move holds at the end of every run. */
  lemma {:induction false} PathInvariant(strip: seq<Sop>, lo: int, hi: int, text: seq<byte>,
                                         path: seq<Config>, inv: Config -> bool)
    requires IsPath(strip, lo, hi, text, path) && inv(path[0])
    requires forall a, b :: Edge(strip, lo, hi, text, a, b) && inv(a) ==> inv(b)
    ensures inv(path[|path| - 1])
  {
    if |path| > 1 {
      PathInvariant(strip, lo, hi, text, path[..|path| - 1], inv);
      assert Edge(strip, lo, hi, text, path[|path| - 2], path[|path| - 1]);
    }
  }

  lemma ReachesInvariant(strip: seq<Sop>, lo: int, hi: int, text: seq<byte>,
                         a: Config, b: Config, inv: Config -> bool)
    requires Reaches(strip, lo, hi, text, a, b) && inv(a)
    requires forall a, b :: Edge(strip, lo, hi, text, a, b) && inv(a) ==> inv(b)
    ensures inv(b)
  {
    var path :| PathFromTo(strip, lo, hi, text, path, a, b);
    PathInvariant(strip, lo, hi, text, path, inv);
  }

  /** Runs never leave the range and never move backwards in the text. */
  lemma ReachesBounds(strip: seq<Sop>, lo: int, hi: int, text: seq<byte>, a: Config, b: Config)
    requires WellFormed(strip, lo, hi) && lo <= a.q <= hi && 0 <= a.i <= |text|
    requires Reaches(strip, lo, hi, text, a, b)
    ensures lo <= b.q <= hi && a.i <= b.i <= |text|
  {
    var inv := (c: Config) => lo <= c.q <= hi && a.i <= c.i <= |text|;
    forall x, y | Edge(strip, lo, hi, text, x, y) && inv(x) ensures inv(y) {
      EpsSuccInRange(strip, lo, hi, x.q);
    }
    ReachesInvariant(strip, lo, hi, text, a, b, inv);
  }

  /** A run that reads past text position `c` can be cut there. */
  lemma CutAt(strip: seq<Sop>, lo: int, hi: int, text: seq<byte>, a: Config, b: Config, c: int) returns (q: int)
    requires Reaches(strip, lo, hi, text, a, b) && a.i <= c <= b.i
    ensures Reaches(strip, lo, hi, text, a, Config(q, c)) && Reaches(strip, lo, hi, text, Config(q, c), b)
  {
    var inv := (x: Config) => Reaches(strip, lo, hi, text, a, x) && (x.i >= c ==> exists q ::
      Reaches(strip, lo, hi, text, a, Config(q, c)) && Reaches(strip, lo, hi, text, Config(q, c), x));
    ReachesRefl(strip, lo, hi, text, a);
    forall x, y | Edge(strip, lo, hi, text, x, y) && inv(x) ensures inv(y) {
      ReachesStep(strip, lo, hi, text, a, x, y);
      if x.i >= c {
        var q :| Reaches(strip, lo, hi, text, a, Config(q, c)) && Reaches(strip, lo, hi, text, Config(q, c), x);
        ReachesStep(strip, lo, hi, text, Config(q, c), x, y);
      } else if y.i >= c {
        ReachesRefl(strip, lo, hi, text, y);
        assert y == Config(y.q, c);
      }
    }
    assert a.i >= c ==> a == Config(a.q, c);
    ReachesInvariant(strip, lo, hi, text, a, b, inv);
    q :| Reaches(strip, lo, hi, text, a, Config(q, c)) && Reaches(strip, lo, hi, text, Config(q, c), b);
  }

  function Shift(c: Config, d: int): Config {
    Config(c.q, c.i + d)
  }

  lemma NarrowRun(strip: seq<Sop>, lo: int, hi: int, text: seq<byte>, from: int, to: int, a: Config, b: Config)
    requires 0 <= from <= a.i && b.i <= to <= |text| && from <= to
    requires Reaches(strip, lo, hi, text, a, b)
    ensures Reaches(strip, lo, hi, text[from..to], Shift(a, -from), Shift(b, -from))
  {
    var sub := text[from..to];
    var inv := (c: Config) => from <= c.i &&
      (c.i <= to ==> Reaches(strip, lo, hi, sub, Shift(a, -from), Shift(c, -from)));
    ReachesRefl(strip, lo, hi, sub, Shift(a, -from));
    forall x, y | Edge(strip, lo, hi, text, x, y) && inv(x) ensures inv(y) {
      if y.i <= to {
        assert Edge(strip, lo, hi, sub, Shift(x, -from), Shift(y, -from));
        ReachesStep(strip, lo, hi, sub, Shift(a, -from), Shift(x, -from), Shift(y, -from));
      }
    }
    ReachesInvariant(strip, lo, hi, text, a, b, inv);
  }

  lemma WidenEdge(strip: seq<Sop>, lo: int, hi: int, text: seq<byte>, from: int, to: int, a: Config, b: Config)
    requires 0 <= from <= to <= |text| && 0 <= a.i && Edge(strip, lo, hi, text[from..to], a, b)
    ensures Edge(strip, lo, hi, text, Shift(a, from), Shift(b, from)) && 0 <= b.i
  {
  }

  lemma WidenRun(strip: seq<Sop>, lo: int, hi: int, text: seq<byte>, from: int, to: int, a: Config, b: Config)
    requires 0 <= from <= a.i && from <= to <= |text|
    requires Reaches(strip, lo, hi, text[from..to], Shift(a, -from), Shift(b, -from))
    ensures Reaches(strip, lo, hi, text, a, b)
  {
    var sub := text[from..to];
    var inv := (c: Config) => 0 <= c.i && Reaches(strip, lo, hi, text, a, Shift(c, from));
    ReachesRefl(strip, lo, hi, text, a);
    assert Shift(Shift(a, -from), from) == a && Shift(Shift(b, -from), from) == b;
    forall x, y | Edge(strip, lo, hi, sub, x, y) && inv(x) ensures inv(y) {
      WidenEdge(strip, lo, hi, text, from, to, x, y);
      ReachesStep(strip, lo, hi, text, a, Shift(x, from), Shift(y, from));
    }
    ReachesInvariant(strip, lo, hi, sub, Shift(a, -from), Shift(b, -from), inv);
  }

  /** A run depends only on the characters it reads. */
  lemma Window(strip: seq<Sop>, lo: int, hi: int, text: seq<byte>, from: int, to: int, a: Config, b: Config)
    requires 0 <= from <= a.i && b.i <= to <= |text| && from <= to
    ensures Reaches(strip, lo, hi, text, a, b) <==>
            Reaches(strip, lo, hi, text[from..to], Shift(a, -from), Shift(b, -from))
  {
    if Reaches(strip, lo, hi, text, a, b) {
      NarrowRun(strip, lo, hi, text, from, to, a, b);
    }
    if Reaches(strip, lo, hi, text[from..to], Shift(a, -from), Shift(b, -from)) {
      WidenRun(strip, lo, hi, text, from, to, a, b);
    }
  }
}
