/** The FOR and NEXT statements of basic.c. */
module BasicFor {
  import opened Bytes
  import opened BasicLines
  import opened BasicNumber
  import opened BasicExpr

  /** Conversion of a 64-bit value to a 32-bit `int`. */
  function Int32(n: int): (r: int)
    ensures -0x8000_0000 <= r < 0x8000_0000 && (-0x8000_0000 <= n < 0x8000_0000 ==> r == n)
    ensures (r - n) % 0x1_0000_0000 == 0
  {
    (n + 0x8000_0000) % 0x1_0000_0000 - 0x8000_0000
  }

  /** A frame of the stack. `txtpos` and `line` say where to go on; the limit and the step of a
      loop are kept in 32 bits. */
  datatype Frame =
    | For(v: byte, terminal: int, step: int, txtpos: nat, line: int)
    | Gosub(txtpos: nat, line: int)

  /** The stack, the frame at `sp` first, the variables, and where the program is. */
  datatype State = State(vars: seq<int>, stack: seq<Frame>, txtpos: nat, line: int)

  /** How a NEXT ends: the body runs once more, the loop is over, or one of two complaints. */
  datatype Jump = Again | Over | How | What

  predicate IsLoop(f: Frame, v: byte) {
    f.For? && f.v == v
  }

  /** The first frame of a loop over `v`, or the size of the stack. */
  function Find(stack: seq<Frame>, v: byte): (k: nat)
    ensures k <= |stack|
    ensures forall i :: 0 <= i < k ==> !IsLoop(stack[i], v)
    ensures k < |stack| ==> IsLoop(stack[k], v)
  {
    if stack == [] || IsLoop(stack[0], v) then 0 else 1 + Find(stack[1..], v)
  }

  function Entered(s: State, v: byte, initial: int, terminal: int, step: int): State
    requires IsLetter(v) && |s.vars| == 26
  {
    s.(vars := s.vars[v - 65 := initial],
       stack := [For(v, Int32(terminal), Int32(step), s.txtpos, s.line)] + s.stack)
  }

  /** NEXT for the loop over `v`, with the cursor behind the statement. */
  function Nexted(s: State, v: byte): (r: (State, Jump))
    requires |s.vars| == 26
    ensures |r.0.vars| == 26
  {
    var k := Find(s.stack, v);
    if k == |s.stack| || !IsLetter(v) then (s, How)
    else
      var f, x := s.stack[k], Wrap(s.vars[v - 65] + s.stack[k].step);
      var t := s.(vars := s.vars[v - 65 := x]);
      if (f.step > 0 && x <= f.terminal) || (f.step < 0 && x >= f.terminal) then
        (t.(txtpos := f.txtpos, line := f.line), Again)
      else (t.(stack := s.stack[k + 1..]), Over)
  }

  class Interpreter {
    const text: seq<byte>
    const vars: array<int>
    var stack: seq<Frame>
    var txtpos: nat
    var line: int

    constructor (text: seq<byte>)
      ensures fresh(vars) && Valid() && stack == [] && txtpos == 0 && this.text == text
    {
      this.text, vars, stack, txtpos, line := text, new int[26], [], 0, 0;
    }

    ghost predicate Valid()
      reads this`stack, this`txtpos
    {
      vars.Length == 26 && txtpos <= |text| && forall f :: f in stack && f.For? ==> IsLetter(f.v) && f.txtpos <= |text|
    }

    ghost function Now(): State
      reads this`stack, this`txtpos, this`line, vars
    {
      State(vars[..], stack, txtpos, line)
    }

    /** The end of the FOR statement, once its expressions are evaluated. */
    method Enter(v: byte, initial: int, terminal: int, step: int)
      requires Valid() && IsLetter(v)
      modifies this`stack, vars
      ensures Valid() && Now() == Entered(old(Now()), v, initial, terminal, step)
    {
      vars[v - 65] := initial;
      stack := [For(v, Int32(terminal), Int32(step), txtpos, line)] + stack;
    }

    /** The walk along the frames for a NEXT whose variable is in front of the cursor. */
    method Walk(v: byte) returns (j: Jump)
      requires Valid()
      modifies this`stack, this`txtpos, this`line, vars
      ensures Valid() && (Now(), j) == Nexted(old(Now()), v)
    {
      var k := 0;
      while k < |stack| && !IsLoop(stack[k], v)
        invariant k <= |stack| && forall i :: 0 <= i < k ==> !IsLoop(stack[i], v)
      {
        k := k + 1;
      }
      FoundAt(stack, v, k);
      if k == |stack| {
        return How;
      }
      var f := stack[k];
      vars[v - 65] := Wrap(vars[v - 65] + f.step);
      if (f.step > 0 && vars[v - 65] <= f.terminal) || (f.step < 0 && vars[v - 65] >= f.terminal) {
        txtpos, line := f.txtpos, f.line;
        return Again;
      }
      stack := stack[k + 1..];
      return Over;
    }

    /** The NEXT statement.  The walk takes the character in front of the cursor as the
        variable: after blanks that is no letter, and no loop is found. */
    method Next() returns (j: Jump)
      requires Valid()
      modifies this`stack, this`txtpos, this`line, vars
      ensures Valid()
      ensures var s, p := old(Now()), SkipBlanks(text, old(txtpos));
        if !IsLetter(At(text, p)) then (Now(), j) == (s.(txtpos := p), How)
        else
          var q := SkipBlanks(text, p + 1);
          if At(text, q) != 58 && At(text, q) != NL then (Now(), j) == (s.(txtpos := q), What)
          else if q > p + 1 then (Now(), j) == (s.(txtpos := q), How)
          else (Now(), j) == Nexted(s.(txtpos := q), At(text, p))
    {
      txtpos := IgnoreBlanks(text, txtpos);
      if !IsLetter(At(text, txtpos)) {
        return How;
      }
      txtpos := txtpos + 1;
      ghost var p := txtpos;
      txtpos := IgnoreBlanks(text, txtpos);
      if At(text, txtpos) != 58 && At(text, txtpos) != NL {
        return What;
      }
      BlankBefore(text, p);
      j := Walk(text[txtpos - 1]);
    }
  }

  lemma {:induction false} BlankBefore(t: seq<byte>, i: nat)
    requires i <= |t|
    ensures i <= SkipBlanks(t, i) <= |t|
    ensures var q := SkipBlanks(t, i); q > i ==> t[q - 1] == SPACE || t[q - 1] == TAB
    decreases |t| - i
  {
    if i < |t| && (t[i] == SPACE || t[i] == TAB) {
      BlankBefore(t, i + 1);
    }
  }

  lemma FoundAt(stack: seq<Frame>, v: byte, k: nat)
    requires k <= |stack| && (forall i :: 0 <= i < k ==> !IsLoop(stack[i], v)) && (k < |stack| ==> IsLoop(stack[k], v))
    ensures Find(stack, v) == k
  {
  }

  // ----- how often a loop runs -----

  /** The loop of frame `f` is the innermost one over its variable, and `below` is under it. */
  ghost predicate Within(s: State, f: Frame, below: seq<Frame>) {
    && f.For? && IsLetter(f.v) && |s.vars| == 26 && |below| < |s.stack|
    && Find(s.stack, f.v) == |s.stack| - |below| - 1
    && s.stack[|s.stack| - |below| - 1] == f && s.stack[|s.stack| - |below|..] == below
  }

  /** What a run of the body must leave alone: the loop variable, the frame of the loop and
      what is below it.  It may leave frames of its own above. */
  ghost predicate Keeps(a: State, b: State, f: Frame, below: seq<Frame>) {
    Within(a, f, below) ==> Within(b, f, below) && b.vars[f.v - 65] == a.vars[f.v - 65]
  }

  /** max(1, floor((terminal - initial) / step) + 1), and once for a step of zero. */
  function Count(initial: int, terminal: int, step: int): (n: nat)
    ensures n >= 1
  {
    var n := if step > 0 then (terminal - initial) / step + 1
             else if step < 0 then (initial - terminal) / -step + 1
             else 1;
    if n < 1 then 1 else n
  }

  lemma Quotient(d: int, s: int, n: nat)
    requires s > 0
    ensures n <= d / s <==> n * s <= d
  {
    var q := d / s;
    assert q * s <= d < q * s + s;
    if n <= q {
      Monotone(n, q, s);
    } else {
      Monotone(q + 1, n, s);
    }
  }

  lemma Monotone(a: int, b: int, s: int)
    requires a <= b && s > 0
    ensures a * s <= b * s
  {
    assert b * s - a * s == (b - a) * s;
  }

  /** After `n` turns there is another one exactly if the variable is still within the limit. */
  lemma MoreTurns(initial: int, terminal: int, step: int, n: nat)
    requires n >= 1
    ensures n < Count(initial, terminal, step) <==>
      (step > 0 && initial + n * step <= terminal) || (step < 0 && initial + n * step >= terminal)
  {
    if step > 0 {
      Quotient(terminal - initial, step, n);
    } else if step < 0 {
      Quotient(initial - terminal, -step, n);
    }
  }

  /** `tops` and `ends` are the states at the beginning and at the end of the bodies of a loop
      that FOR started in state `s`; between them the NEXT of the loop went on. */
  ghost predicate IsRun(s: State, f: Frame, initial: int, tops: seq<State>, ends: seq<State>) {
    && |tops| == |ends| > 0 && |s.vars| == 26 && f.For? && IsLetter(f.v)
    && tops[0] == s.(vars := s.vars[f.v - 65 := initial], stack := [f] + s.stack)
    && (forall k :: 0 <= k < |tops| ==> Keeps(tops[k], ends[k], f, s.stack))
    && (forall k :: 0 <= k < |ends| ==> |ends[k].vars| == 26)
    && (forall k :: 0 < k < |tops| ==> Nexted(ends[k - 1], f.v) == (tops[k], Again))
  }

  /** FOR starts a run of one body. */
  lemma EnteredRun(s: State, v: byte, initial: int, terminal: int, step: int, end: State)
    requires |s.vars| == 26 && IsLetter(v)
    requires var f := For(v, Int32(terminal), Int32(step), s.txtpos, s.line);
      |end.vars| == 26 && Keeps(Entered(s, v, initial, terminal, step), end, f, s.stack)
    ensures var f := For(v, Int32(terminal), Int32(step), s.txtpos, s.line);
      IsRun(s, f, initial, [Entered(s, v, initial, terminal, step)], [end])
  {
  }

  /** The first addition of the step stays within 64 bits. */
  predicate Fits(initial: int, f: Frame) {
    f.For? && MIN <= initial <= MAX && MIN <= initial + f.step <= MAX
    && -0x8000_0000 <= f.terminal < 0x8000_0000 && -0x8000_0000 <= f.step < 0x8000_0000
  }

  lemma {:induction false} TurnValue(s: State, f: Frame, initial: int, tops: seq<State>, ends: seq<State>)
    requires IsRun(s, f, initial, tops, ends) && Fits(initial, f)
    ensures var e := ends[|ends| - 1];
      Within(e, f, s.stack) && e.vars[f.v - 65] == initial + (|ends| - 1) * f.step
    ensures |ends| > 1 ==> |ends| - 1 < Count(initial, f.terminal, f.step)
    decreases |tops|
  {
    var n := |tops| - 1;
    if n == 0 {
      assert tops[0].stack[1..] == s.stack;
      FoundAt(tops[0].stack, f.v, 0);
    } else {
      ShorterRun(s, f, initial, tops, ends, n);
      TurnValue(s, f, initial, tops[..n], ends[..n]);
      NextTurn(ends[n - 1], f, s.stack, initial, n);
    }
    assert Keeps(tops[n], ends[n], f, s.stack);
  }

  lemma ShorterRun(s: State, f: Frame, initial: int, tops: seq<State>, ends: seq<State>, n: nat)
    requires IsRun(s, f, initial, tops, ends) && 0 < n < |tops|
    ensures IsRun(s, f, initial, tops[..n], ends[..n]) && ends[..n][n - 1] == ends[n - 1]
    ensures Nexted(ends[n - 1], f.v) == (tops[n], Again)
  {
  }

  /** The NEXT after the `n`th body. */
  lemma NextTurn(e: State, f: Frame, below: seq<Frame>, initial: int, n: nat)
    requires n >= 1 && Within(e, f, below) && Fits(initial, f) && e.vars[f.v - 65] == initial + (n - 1) * f.step
    requires n > 1 ==> n - 1 < Count(initial, f.terminal, f.step)
    ensures var (t, j) := Nexted(e, f.v);
      && (j == Again <==> n < Count(initial, f.terminal, f.step))
      && (j == Again ==> t.stack == e.stack && t.txtpos == f.txtpos && t.line == f.line && Within(t, f, below))
      && (j != Again ==> j == Over && t.stack == below && t.txtpos == e.txtpos && t.line == e.line)
      && t.vars == e.vars[f.v - 65 := initial + n * f.step]
  {
    TurnInRange(initial, f, n, initial + n * f.step);
    var k := Find(e.stack, f.v);
    assert e.stack[k] == f && e.stack[k + 1..] == below;
  }

  lemma Scaled(m: nat, step: int)
    ensures m * step + step == (m + 1) * step
    ensures (step >= 0 ==> m * step >= 0) && (step <= 0 ==> m * step <= 0)
  {
  }

  /** The variable has the value `y`, which is the initial one or passed the test against the
      limit, and so the step can be added to it without overflow. */
  lemma StepFits(initial: int, f: Frame, y: int)
    requires Fits(initial, f) && (f.step >= 0 ==> initial <= y) && (f.step <= 0 ==> y <= initial)
    requires y == initial || (f.step > 0 && y <= f.terminal) || (f.step < 0 && y >= f.terminal)
    ensures MIN <= y + f.step <= MAX
  {
  }

  lemma TurnInRange(initial: int, f: Frame, n: nat, x: int)
    requires n >= 1 && Fits(initial, f) && x == initial + n * f.step
    requires n > 1 ==> n - 1 < Count(initial, f.terminal, f.step)
    ensures Wrap(initial + (n - 1) * f.step + f.step) == x
    ensures n < Count(initial, f.terminal, f.step) <==>
      (f.step > 0 && x <= f.terminal) || (f.step < 0 && x >= f.terminal)
  {
    Scaled(n - 1, f.step);
    MoreTurns(initial, f.terminal, f.step, n);
    if n > 1 {
      MoreTurns(initial, f.terminal, f.step, n - 1);
    }
    StepFits(initial, f, initial + (n - 1) * f.step);
  }

  /** After the `n`th body of a run NEXT goes back to the body exactly if `n` is less than
      the count; otherwise it leaves the stack as it was before the FOR. */
  lemma LoopRuns(s: State, f: Frame, initial: int, tops: seq<State>, ends: seq<State>)
    requires IsRun(s, f, initial, tops, ends) && Fits(initial, f)
    ensures |ends| <= Count(initial, f.terminal, f.step)
    ensures var (t, j) := Nexted(ends[|ends| - 1], f.v);
      && (j == Over <==> |ends| == Count(initial, f.terminal, f.step))
      && (j == Again <==> |ends| < Count(initial, f.terminal, f.step))
      && (j == Over ==> t.stack == s.stack)
      && t.vars[f.v - 65] == initial + |ends| * f.step
  {
    TurnValue(s, f, initial, tops, ends);
    NextTurn(ends[|ends| - 1], f, s.stack, initial, |ends|);
  }
}
