/** The parentheses that a match passes: by any way of matching, and by the way that `dissect`
    (libc/posix/engine.c) takes. */
module RegexWays {
  import opened Bytes
  import opened RegexMatcher
  import opened RegexLanguage
  import opened RegexRuns
  import opened RegexTurns

  // ----- the subexpressions of a match -----

  /** A parenthesis passed at a text position. */
  datatype Event = Open(num: nat, at: int) | Close(num: nat, at: int)

  /** `ev` lists the parentheses passed by some way of matching `text[i..j]` with `re`; of
      the turns of a loop only the last one counts. */
  ghost predicate Events(re: Re, text: seq<byte>, i: int, j: int, ev: seq<Event>)
    decreases re, 0
  {
    match re
    case Nil => Here(text, i, j) && ev == []
    case Cons(h, t) =>
      exists k, n :: 0 <= n <= |ev| && ItemEvents(h, text, i, k, ev[..n]) && Events(t, text, k, j, ev[n..])
  }

  ghost predicate ItemEvents(it: Item, text: seq<byte>, i: int, j: int, ev: seq<Event>)
    decreases it, 0
  {
    match it
    case One(a) => LangAtom(a, text, i, j) && ev == AtomEvents(a, i)
    case Plus(b) => exists k :: Star(b, text, i, k) && Events(b, text, k, j, ev)
    case Quest(b) => (Here(text, i, j) && ev == []) || Events(b, text, i, j, ev)
    case Choice(f, r) => Events(f, text, i, j, ev) || AltsEvents(r, text, i, j, ev)
  }

  ghost predicate AltsEvents(a: Alts, text: seq<byte>, i: int, j: int, ev: seq<Event>)
    decreases a, 0
  {
    match a
    case Last(re) => Events(re, text, i, j, ev)
    case More(re, rest) => Events(re, text, i, j, ev) || AltsEvents(rest, text, i, j, ev)
  }

  function AtomEvents(a: Atom, i: int): seq<Event> {
    match a
    case LParen(n) => [Open(n, i)]
    case RParen(n) => [Close(n, i)]
    case _ => []
  }

  /** The slots after the events, in order; `off` is the offset of the text in the string. */
  function Record(slots: seq<Slot>, off: int, ev: seq<Event>): (r: seq<Slot>)
    ensures |r| == |slots|
    decreases ev
  {
    if ev == [] then slots
    else
      var e := ev[|ev| - 1];
      var r := Record(slots, off, ev[..|ev| - 1]);
      if e.num >= |r| then r
      else match e
        case Open(n, at) => r[n := r[n].(so := at + off)]
        case Close(n, at) => r[n := r[n].(eo := at + off)]
  }

  lemma {:induction false} RecordConcat(slots: seq<Slot>, off: int, a: seq<Event>, b: seq<Event>)
    ensures Record(slots, off, a + b) == Record(Record(slots, off, a), off, b)
    decreases b
  {
    if b == [] {
      assert a + b == a;
    } else {
      RecordConcat(slots, off, a, b[..|b| - 1]);
      assert (a + b)[..|a + b| - 1] == a + b[..|b| - 1];
    }
  }

  /** The parentheses of the expression have slots. */
  predicate Parens(re: Re, n: int) {
    match re
    case Nil => true
    case Cons(h, t) => ParensItem(h, n) && Parens(t, n)
  }

  predicate ParensItem(it: Item, n: int) {
    match it
    case One(LParen(i)) => 0 < i < n
    case One(RParen(i)) => 0 < i < n
    case One(_) => true
    case Plus(b) => Parens(b, n)
    case Quest(b) => Parens(b, n)
    case Choice(f, r) => Parens(f, n) && ParensAlts(r, n)
  }

  predicate ParensAlts(a: Alts, n: int) {
    match a
    case Last(re) => Parens(re, n)
    case More(re, rest) => Parens(re, n) && ParensAlts(rest, n)
  }

  // ----- the way that is taken -----

  /** `k` can be the border between the item and the rest of the expression. */
  ghost predicate Border(h: Item, t: Re, text: seq<byte>, i: int, j: int, k: int) {
    LangItem(h, text, i, k) && Lang(t, text, k, j)
  }

  ghost predicate LastBorder(h: Item, t: Re, text: seq<byte>, i: int, j: int, k: int) {
    Border(h, t, text, i, j, k) && forall m :: m > k ==> !Border(h, t, text, i, j, m)
  }

  /** The largest border. */
  ghost function BorderOf(h: Item, t: Re, text: seq<byte>, i: int, j: int): int {
    if exists k :: LastBorder(h, t, text, i, j, k) then
      var k :| LastBorder(h, t, text, i, j, k);
      k
    else i
  }

  lemma BorderIs(h: Item, t: Re, text: seq<byte>, i: int, j: int, k: int)
    requires LastBorder(h, t, text, i, j, k)
    ensures BorderOf(h, t, text, i, j) == k
  {
    assert forall m :: LastBorder(h, t, text, i, j, m) ==> m == k;
  }

  lemma {:induction false} BorderFrom(h: Item, t: Re, text: seq<byte>, i: int, j: int, k: int)
    requires Border(h, t, text, i, j, k)
    ensures LastBorder(h, t, text, i, j, BorderOf(h, t, text, i, j))
    decreases j - k
  {
    LangBounds(t, text, k, j);
    if m :| m > k && Border(h, t, text, i, j, m) {
      LangBounds(t, text, m, j);
      BorderFrom(h, t, text, i, j, m);
    } else {
      BorderIs(h, t, text, i, j, k);
    }
  }

  lemma BorderExists(re: Re, text: seq<byte>, i: int, j: int)
    requires re.Cons? && Lang(re, text, i, j)
    ensures LastBorder(re.head, re.tail, text, i, j, BorderOf(re.head, re.tail, text, i, j))
  {
    var k :| LangItem(re.head, text, i, k) && Lang(re.tail, text, k, j);
    BorderFrom(re.head, re.tail, text, i, j, k);
  }

  /** The parentheses passed when every item takes as much as the rest allows, every choice its
      first branch that fits, and every loop its longest turns, of which the last counts. */
  ghost function Taken(re: Re, text: seq<byte>, i: int, j: int): seq<Event>
    decreases re, 0
  {
    match re
    case Nil => []
    case Cons(h, t) =>
      var k := BorderOf(h, t, text, i, j);
      TakenItem(h, text, i, k) + Taken(t, text, k, j)
  }

  ghost function TakenItem(it: Item, text: seq<byte>, i: int, j: int): seq<Event>
    decreases it, 0
  {
    match it
    case One(a) => AtomEvents(a, i)
    case Plus(b) => Taken(b, text, LastStart(b, text, i, j), j)
    case Quest(b) => if Lang(b, text, i, j) then Taken(b, text, i, j) else []
    case Choice(f, r) => if Lang(f, text, i, j) then Taken(f, text, i, j) else TakenAlts(r, text, i, j)
  }

  ghost function TakenAlts(a: Alts, text: seq<byte>, i: int, j: int): seq<Event>
    decreases a, 0
  {
    match a
    case Last(re) => Taken(re, text, i, j)
    case More(re, rest) => if Lang(re, text, i, j) then Taken(re, text, i, j) else TakenAlts(rest, text, i, j)
  }

  /** On this way the longest turns of every loop exhaust its match. */
  ghost predicate Clean(re: Re, text: seq<byte>, i: int, j: int)
    decreases re, 0
  {
    match re
    case Nil => true
    case Cons(h, t) =>
      var k := BorderOf(h, t, text, i, j);
      CleanItem(h, text, i, k) && Clean(t, text, k, j)
  }

  ghost predicate CleanItem(it: Item, text: seq<byte>, i: int, j: int)
    decreases it, 0
  {
    match it
    case One(_) => true
    case Plus(b) => GreedyEnd(b, text, i, j) == j && Clean(b, text, LastStart(b, text, i, j), j)
    case Quest(b) => Lang(b, text, i, j) ==> Clean(b, text, i, j)
    case Choice(f, r) => if Lang(f, text, i, j) then Clean(f, text, i, j) else CleanAlts(r, text, i, j)
  }

  ghost predicate CleanAlts(a: Alts, text: seq<byte>, i: int, j: int)
    decreases a, 0
  {
    match a
    case Last(re) => Clean(re, text, i, j)
    case More(re, rest) => if Lang(re, text, i, j) then Clean(re, text, i, j) else CleanAlts(rest, text, i, j)
  }

  // ----- it is a way of matching -----

  lemma JoinEvents(h: Item, t: Re, text: seq<byte>, i: int, k: int, j: int, a: seq<Event>, b: seq<Event>)
    requires ItemEvents(h, text, i, k, a) && Events(t, text, k, j, b)
    ensures Events(Cons(h, t), text, i, j, a + b)
  {
    assert (a + b)[..|a|] == a && (a + b)[|a|..] == b;
  }

  lemma {:induction false} TakenEvents(re: Re, text: seq<byte>, i: int, j: int)
    requires Lang(re, text, i, j) && Clean(re, text, i, j)
    ensures Events(re, text, i, j, Taken(re, text, i, j))
    decreases re, 0
  {
    if re.Cons? {
      BorderExists(re, text, i, j);
      var k := BorderOf(re.head, re.tail, text, i, j);
      TakenItemEvents(re.head, text, i, k);
      TakenEvents(re.tail, text, k, j);
      JoinEvents(re.head, re.tail, text, i, k, j, TakenItem(re.head, text, i, k), Taken(re.tail, text, k, j));
    }
  }

  lemma {:induction false} TakenItemEvents(it: Item, text: seq<byte>, i: int, j: int)
    requires LangItem(it, text, i, j) && CleanItem(it, text, i, j)
    ensures ItemEvents(it, text, i, j, TakenItem(it, text, i, j))
    decreases it, 0
  {
    match it
    case One(_) =>
    case Plus(b) =>
      LangItemBounds(it, text, i, j);
      PlusHasTurn(b, text, i, j);
      LastTurnIsTurn(b, text, i, j);
      TakenEvents(b, text, LastStart(b, text, i, j), j);
    case Quest(b) =>
      if Lang(b, text, i, j) {
        TakenEvents(b, text, i, j);
      }
    case Choice(f, r) =>
      if Lang(f, text, i, j) {
        TakenEvents(f, text, i, j);
      } else {
        TakenAltsEvents(r, text, i, j);
      }
  }

  lemma {:induction false} TakenAltsEvents(a: Alts, text: seq<byte>, i: int, j: int)
    requires LangAlts(a, text, i, j) && CleanAlts(a, text, i, j)
    ensures AltsEvents(a, text, i, j, TakenAlts(a, text, i, j))
    decreases a, 0
  {
    if Lang(a.re, text, i, j) {
      TakenEvents(a.re, text, i, j);
    } else {
      TakenAltsEvents(a.rest, text, i, j);
    }
  }

  // ----- it is clean if the bodies of all loops are exhaustive -----

  ghost predicate Exhaustives(re: Re) {
    match re
    case Nil => true
    case Cons(h, t) => ExhaustivesItem(h) && Exhaustives(t)
  }

  ghost predicate ExhaustivesItem(it: Item) {
    match it
    case One(_) => true
    case Plus(b) => Exhaustive(b) && Exhaustives(b)
    case Quest(b) => Exhaustives(b)
    case Choice(f, r) => Exhaustives(f) && ExhaustivesAlts(r)
  }

  ghost predicate ExhaustivesAlts(a: Alts) {
    match a
    case Last(re) => Exhaustives(re)
    case More(re, rest) => Exhaustives(re) && ExhaustivesAlts(rest)
  }

  lemma {:induction false} ExhaustivesClean(re: Re, text: seq<byte>, i: int, j: int)
    requires Exhaustives(re) && Lang(re, text, i, j)
    ensures Clean(re, text, i, j)
    decreases re, 0
  {
    if re.Cons? {
      BorderExists(re, text, i, j);
      var k := BorderOf(re.head, re.tail, text, i, j);
      ExhaustivesCleanItem(re.head, text, i, k);
      ExhaustivesClean(re.tail, text, k, j);
    }
  }

  lemma {:induction false} ExhaustivesCleanItem(it: Item, text: seq<byte>, i: int, j: int)
    requires ExhaustivesItem(it) && LangItem(it, text, i, j)
    ensures CleanItem(it, text, i, j)
    decreases it, 0
  {
    match it
    case One(_) =>
    case Plus(b) =>
      LangItemBounds(it, text, i, j);
      TurnsExhaustIff(b);
      PlusHasTurn(b, text, i, j);
      LastTurnIsTurn(b, text, i, j);
      ExhaustivesClean(b, text, LastStart(b, text, i, j), j);
    case Quest(b) =>
      if Lang(b, text, i, j) {
        ExhaustivesClean(b, text, i, j);
      }
    case Choice(f, r) =>
      if Lang(f, text, i, j) {
        ExhaustivesClean(f, text, i, j);
      } else {
        ExhaustivesCleanAlts(r, text, i, j);
      }
  }

  lemma {:induction false} ExhaustivesCleanAlts(a: Alts, text: seq<byte>, i: int, j: int)
    requires ExhaustivesAlts(a) && LangAlts(a, text, i, j)
    ensures CleanAlts(a, text, i, j)
    decreases a, 0
  {
    if Lang(a.re, text, i, j) {
      ExhaustivesClean(a.re, text, i, j);
    } else {
      ExhaustivesCleanAlts(a.rest, text, i, j);
    }
  }

  /** By its form the body of every loop has words of one length only: a*, .*, [..]+, (ab)*. */
  predicate FixedLoops(re: Re) {
    match re
    case Nil => true
    case Cons(h, t) => FixedLoopsItem(h) && FixedLoops(t)
  }

  predicate FixedLoopsItem(it: Item) {
    match it
    case One(_) => true
    case Plus(b) => Width(b) >= 0
    case Quest(b) => FixedLoops(b)
    case Choice(f, r) => FixedLoops(f) && FixedLoopsAlts(r)
  }

  predicate FixedLoopsAlts(a: Alts) {
    match a
    case Last(re) => FixedLoops(re)
    case More(re, rest) => FixedLoops(re) && FixedLoopsAlts(rest)
  }

  lemma {:induction false} FixedLoopsExhaustive(re: Re)
    requires FixedLoops(re) || Width(re) >= 0
    ensures Exhaustives(re)
    decreases re, 0
  {
    if re.Cons? {
      FixedLoopsExhaustiveItem(re.head);
      FixedLoopsExhaustive(re.tail);
    }
  }

  lemma {:induction false} FixedLoopsExhaustiveItem(it: Item)
    requires FixedLoopsItem(it) || WidthItem(it) >= 0
    ensures ExhaustivesItem(it)
    decreases it, 0
  {
    match it
    case One(_) =>
    case Plus(b) =>
      WidthExhaustive(b);
      FixedLoopsExhaustive(b);
    case Quest(b) => FixedLoopsExhaustive(b);
    case Choice(f, r) =>
      FixedLoopsExhaustive(f);
      FixedLoopsExhaustiveAlts(r);
  }

  lemma {:induction false} FixedLoopsExhaustiveAlts(a: Alts)
    requires FixedLoopsAlts(a) || WidthAlts(a) >= 0
    ensures ExhaustivesAlts(a)
    decreases a, 0
  {
    FixedLoopsExhaustive(a.re);
    if a.More? {
      FixedLoopsExhaustiveAlts(a.rest);
    }
  }
}
