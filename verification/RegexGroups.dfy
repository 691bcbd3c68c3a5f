/** What the slots of a match delimit: for a pair of parentheses, the text that its body matched
    the last time the group was passed. */
module RegexGroups {
  import opened Bytes
  import opened RegexMatcher
  import opened RegexLanguage
  import opened RegexRuns
  import opened RegexTurns
  import opened RegexWays
  import opened RegexCompile

  // ----- groups in an expression -----

  /** The expression has no parenthesis with the number `n`. */
  predicate Free(re: Re, n: nat) {
    match re
    case Nil => true
    case Cons(h, t) => FreeItem(h, n) && Free(t, n)
  }

  predicate FreeItem(it: Item, n: nat) {
    match it
    case One(a) => a != LParen(n) && a != RParen(n)
    case Plus(b) => Free(b, n)
    case Quest(b) => Free(b, n)
    case Choice(f, r) => Free(f, n) && FreeAlts(r, n)
  }

  predicate FreeAlts(a: Alts, n: nat) {
    match a
    case Last(re) => Free(re, n)
    case More(re, rest) => Free(re, n) && FreeAlts(rest, n)
  }

  /** What stands in front of the closing parenthesis `n`. */
  function Inside(t: Re, n: nat): Re {
    if t.Nil? || t.head == One(RParen(n)) then Nil else Cons(t.head, Inside(t.tail, n))
  }

  /** What stands behind it. */
  function Behind(t: Re, n: nat): (r: Re)
    ensures r == t || (t decreases to r)
  {
    if t.Nil? then Nil else if t.head == One(RParen(n)) then t.tail else Behind(t.tail, n)
  }

  predicate Closes(t: Re, n: nat) {
    t.Cons? && (t.head == One(RParen(n)) || Closes(t.tail, n))
  }

  /** Wherever the parentheses `n` stand, also in loops and branches, they enclose `body`, which
      is free of them. */
  predicate Grouped(re: Re, n: nat, body: Re)
    decreases re
  {
    match re
    case Nil => true
    case Cons(h, t) =>
      if h == One(LParen(n)) then
        Closes(t, n) && Inside(t, n) == body && Free(body, n) && Grouped(Behind(t, n), n, body)
      else h != One(RParen(n)) && GroupedItem(h, n, body) && Grouped(t, n, body)
  }

  predicate GroupedItem(it: Item, n: nat, body: Re)
    decreases it
  {
    match it
    case One(_) => true
    case Plus(b) => Grouped(b, n, body)
    case Quest(b) => Grouped(b, n, body)
    case Choice(f, r) => Grouped(f, n, body) && GroupedAlts(r, n, body)
  }

  predicate GroupedAlts(a: Alts, n: nat, body: Re)
    decreases a
  {
    match a
    case Last(re) => Grouped(re, n, body)
    case More(re, rest) => Grouped(re, n, body) && GroupedAlts(rest, n, body)
  }

  /** The parentheses put around a subexpression make it a group. */
  lemma {:induction false} EnclosedGrouped(n: nat, body: Re, rest: Re)
    requires Free(body, n) && Grouped(rest, n, body)
    ensures Grouped(Cons(One(LParen(n)), Concat(body, Cons(One(RParen(n)), rest))), n, body)
  {
    InsideConcat(body, n, rest);
  }

  lemma {:induction false} InsideConcat(body: Re, n: nat, rest: Re)
    requires Free(body, n)
    ensures var t := Concat(body, Cons(One(RParen(n)), rest));
      Closes(t, n) && Inside(t, n) == body && Behind(t, n) == rest
    decreases body
  {
    if body.Cons? {
      InsideConcat(body.tail, n, rest);
    }
  }

  // ----- whether a group is passed, and where -----

  /** From `i` one gets to `k` by the longest nonempty turn, `n` times. */
  ghost predicate Chain(b: Re, text: seq<byte>, i: int, rest: int, k: int, n: nat)
    decreases n
  {
    if n == 0 then k == i
    else exists e :: i < e && LongestTurn(b, text, i, rest, e) && Chain(b, text, e, rest, k, n - 1)
  }

  /** The last of the longest turns starts at `k`; it is empty if there is an empty turn at the end. */
  ghost predicate LastTurn(b: Re, text: seq<byte>, i: int, rest: int, k: int) {
    && (exists n: nat :: Chain(b, text, i, rest, k, n))
    && k <= rest && Lang(b, text, k, rest) && (k < rest ==> !Lang(b, text, rest, rest))
  }

  /** `text[i..j]` is matched by `re` without passing the group `n`: items take as much as the
      rest allows, choices their first branch that fits, and loops their longest turns. */
  ghost predicate Unpassed(re: Re, n: nat, text: seq<byte>, i: int, j: int)
    decreases re
  {
    match re
    case Nil => Here(text, i, j)
    case Cons(h, t) =>
      exists k :: LastBorder(h, t, text, i, j, k) && UnpassedItem(h, n, text, i, k) && Unpassed(t, n, text, k, j)
  }

  ghost predicate UnpassedItem(it: Item, n: nat, text: seq<byte>, i: int, j: int)
    decreases it
  {
    match it
    case One(a) => a != LParen(n)
    case Plus(b) => exists k :: LastTurn(b, text, i, j, k) && Unpassed(b, n, text, k, j)
    case Quest(b) => Lang(b, text, i, j) ==> Unpassed(b, n, text, i, j)
    case Choice(f, r) => if Lang(f, text, i, j) then Unpassed(f, n, text, i, j) else UnpassedAlts(r, n, text, i, j)
  }

  ghost predicate UnpassedAlts(a: Alts, n: nat, text: seq<byte>, i: int, j: int)
    decreases a
  {
    match a
    case Last(re) => Unpassed(re, n, text, i, j)
    case More(re, rest) =>
      if Lang(re, text, i, j) then Unpassed(re, n, text, i, j) else UnpassedAlts(rest, n, text, i, j)
  }

  /** The group `n` is passed on that way, for the last time from `a` to `b`. */
  ghost predicate PassedAt(re: Re, n: nat, text: seq<byte>, i: int, j: int, a: int, b: int)
    decreases re
  {
    match re
    case Nil => false
    case Cons(h, t) =>
      if h == One(LParen(n)) then
        exists k :: Within(t, n, text, i, j, k) &&
          (PassedAt(Behind(t, n), n, text, k, j, a, b) ||
           (a == i && b == k && Unpassed(Behind(t, n), n, text, k, j)))
      else
        exists k :: LastBorder(h, t, text, i, j, k) &&
          (PassedAt(t, n, text, k, j, a, b) || (PassedAtItem(h, n, text, i, k, a, b) && Unpassed(t, n, text, k, j)))
  }

  ghost predicate PassedAtItem(it: Item, n: nat, text: seq<byte>, i: int, j: int, a: int, b: int)
    decreases it
  {
    match it
    case One(_) => false
    case Plus(x) => exists k :: LastTurn(x, text, i, j, k) && PassedAt(x, n, text, k, j, a, b)
    case Quest(x) => Lang(x, text, i, j) && PassedAt(x, n, text, i, j, a, b)
    case Choice(f, r) =>
      if Lang(f, text, i, j) then PassedAt(f, n, text, i, j, a, b) else PassedAtAlts(r, n, text, i, j, a, b)
  }

  ghost predicate PassedAtAlts(x: Alts, n: nat, text: seq<byte>, i: int, j: int, a: int, b: int)
    decreases x
  {
    match x
    case Last(re) => PassedAt(re, n, text, i, j, a, b)
    case More(re, rest) =>
      if Lang(re, text, i, j) then PassedAt(re, n, text, i, j, a, b) else PassedAtAlts(rest, n, text, i, j, a, b)
  }

  /** The items in front of the closing parenthesis take the text from `i` to `k`, one after
      another and each as much as the rest allows. */
  ghost predicate Within(t: Re, n: nat, text: seq<byte>, i: int, j: int, k: int)
    decreases t
  {
    match t
    case Nil => false
    case Cons(h, r) =>
      if h == One(RParen(n)) then k == i && Lang(r, text, k, j)
      else exists m :: LastBorder(h, r, text, i, j, m) && Within(r, n, text, m, j, k)
  }

  // ----- a group delimits a word of its body -----

  lemma {:induction false} WithinIsWord(t: Re, n: nat, text: seq<byte>, i: int, j: int, k: int)
    requires Within(t, n, text, i, j, k)
    ensures Lang(Inside(t, n), text, i, k) && Lang(Behind(t, n), text, k, j) && i <= k <= j
    decreases t
  {
    if t.head == One(RParen(n)) {
      LangBounds(t.tail, text, k, j);
    } else {
      var m :| LastBorder(t.head, t.tail, text, i, j, m) && Within(t.tail, n, text, m, j, k);
      LangItemBounds(t.head, text, i, m);
      WithinIsWord(t.tail, n, text, m, j, k);
    }
  }

  lemma {:induction false} PassedIsWord(re: Re, n: nat, body: Re, text: seq<byte>, i: int, j: int, a: int, b: int)
    requires Grouped(re, n, body) && PassedAt(re, n, text, i, j, a, b)
    ensures i <= a <= b <= j && Lang(body, text, a, b)
    decreases re
  {
    var h, t := re.head, re.tail;
    if h == One(LParen(n)) {
      var k :| Within(t, n, text, i, j, k) &&
        (PassedAt(Behind(t, n), n, text, k, j, a, b) ||
         (a == i && b == k && Unpassed(Behind(t, n), n, text, k, j)));
      WithinIsWord(t, n, text, i, j, k);
      if PassedAt(Behind(t, n), n, text, k, j, a, b) {
        PassedIsWord(Behind(t, n), n, body, text, k, j, a, b);
      }
    } else {
      var k :| LastBorder(h, t, text, i, j, k) &&
        (PassedAt(t, n, text, k, j, a, b) || (PassedAtItem(h, n, text, i, k, a, b) && Unpassed(t, n, text, k, j)));
      LangItemBounds(h, text, i, k);
      LangBounds(t, text, k, j);
      if PassedAt(t, n, text, k, j, a, b) {
        PassedIsWord(t, n, body, text, k, j, a, b);
      } else {
        PassedItemIsWord(h, n, body, text, i, k, a, b);
      }
    }
  }

  lemma {:induction false} PassedItemIsWord(it: Item, n: nat, body: Re, text: seq<byte>, i: int, j: int, a: int, b: int)
    requires GroupedItem(it, n, body) && PassedAtItem(it, n, text, i, j, a, b)
    ensures i <= a <= b <= j && Lang(body, text, a, b)
    decreases it
  {
    match it
    case Plus(x) =>
      var k :| LastTurn(x, text, i, j, k) && PassedAt(x, n, text, k, j, a, b);
      var m: nat :| Chain(x, text, i, j, k, m);
      ChainForward(x, text, i, j, k, m);
      PassedIsWord(x, n, body, text, k, j, a, b);
    case Quest(x) => PassedIsWord(x, n, body, text, i, j, a, b);
    case Choice(f, r) =>
      if Lang(f, text, i, j) {
        PassedIsWord(f, n, body, text, i, j, a, b);
      } else {
        PassedAltIsWord(r, n, body, text, i, j, a, b);
      }
  }

  lemma {:induction false} PassedAltIsWord(x: Alts, n: nat, body: Re, text: seq<byte>, i: int, j: int, a: int, b: int)
    requires GroupedAlts(x, n, body) && PassedAtAlts(x, n, text, i, j, a, b)
    ensures i <= a <= b <= j && Lang(body, text, a, b)
    decreases x
  {
    if x.Last? || Lang(x.re, text, i, j) {
      PassedIsWord(x.re, n, body, text, i, j, a, b);
    } else {
      PassedAltIsWord(x.rest, n, body, text, i, j, a, b);
    }
  }

  lemma {:induction false} ChainForward(b: Re, text: seq<byte>, i: int, rest: int, k: int, n: nat)
    requires Chain(b, text, i, rest, k, n)
    ensures i <= k
    decreases n
  {
    if n > 0 {
      var e :| i < e && LongestTurn(b, text, i, rest, e) && Chain(b, text, e, rest, k, n - 1);
      ChainForward(b, text, e, rest, k, n - 1);
    }
  }

  // ----- a group is either passed or not, and at one place -----

  lemma OneBorder(h: Item, t: Re, text: seq<byte>, i: int, j: int, k: int, m: int)
    requires LastBorder(h, t, text, i, j, k) && LastBorder(h, t, text, i, j, m)
    ensures k == m
  {
  }

  lemma {:induction false} OneWithin(t: Re, n: nat, text: seq<byte>, i: int, j: int, k: int, m: int)
    requires Within(t, n, text, i, j, k) && Within(t, n, text, i, j, m)
    ensures k == m
    decreases t
  {
    if t.head != One(RParen(n)) {
      var x :| LastBorder(t.head, t.tail, text, i, j, x) && Within(t.tail, n, text, x, j, k);
      var y :| LastBorder(t.head, t.tail, text, i, j, y) && Within(t.tail, n, text, y, j, m);
      OneBorder(t.head, t.tail, text, i, j, x, y);
      OneWithin(t.tail, n, text, x, j, k, m);
    }
  }

  lemma {:induction false} OneChain(b: Re, text: seq<byte>, i: int, rest: int, k: int, n: nat, l: int, m: nat)
    requires Chain(b, text, i, rest, k, n) && Chain(b, text, i, rest, l, m) && n <= m
    ensures Chain(b, text, k, rest, l, m - n)
    decreases n
  {
    if n > 0 {
      var e :| i < e && LongestTurn(b, text, i, rest, e) && Chain(b, text, e, rest, k, n - 1);
      var e' :| i < e' && LongestTurn(b, text, i, rest, e') && Chain(b, text, e', rest, l, m - 1);
      assert e == e';
      OneChain(b, text, e, rest, k, n - 1, l, m - 1);
    }
  }

  lemma OneLastTurn(b: Re, text: seq<byte>, i: int, rest: int, k: int, l: int)
    requires LastTurn(b, text, i, rest, k) && LastTurn(b, text, i, rest, l)
    ensures k == l
  {
    var n: nat :| Chain(b, text, i, rest, k, n);
    var m: nat :| Chain(b, text, i, rest, l, m);
    if n <= m {
      OneEnd(b, text, i, rest, k, n, l, m);
    } else {
      OneEnd(b, text, i, rest, l, m, k, n);
    }
  }

  lemma OneEnd(b: Re, text: seq<byte>, i: int, rest: int, k: int, n: nat, l: int, m: nat)
    requires Chain(b, text, i, rest, k, n) && Chain(b, text, i, rest, l, m) && n <= m
    requires k <= rest && Lang(b, text, k, rest) && (k < rest ==> !Lang(b, text, rest, rest))
    requires l <= rest && Lang(b, text, l, rest)
    ensures k == l
  {
    OneChain(b, text, i, rest, k, n, l, m);
    ChainForward(b, text, k, rest, l, m - n);
  }

  /** A group that is passed is not unpassed, and it is passed for the last time at one place. */
  lemma {:induction false} PassedOnce(re: Re, n: nat, text: seq<byte>, i: int, j: int, a: int, b: int, c: int, d: int)
    requires PassedAt(re, n, text, i, j, a, b)
    ensures !Unpassed(re, n, text, i, j)
    ensures PassedAt(re, n, text, i, j, c, d) ==> c == a && d == b
    decreases re
  {
    var h, t := re.head, re.tail;
    if h == One(LParen(n)) {
      var k :| Within(t, n, text, i, j, k) &&
        (PassedAt(Behind(t, n), n, text, k, j, a, b) ||
         (a == i && b == k && Unpassed(Behind(t, n), n, text, k, j)));
      if PassedAt(re, n, text, i, j, c, d) {
        var m :| Within(t, n, text, i, j, m) &&
          (PassedAt(Behind(t, n), n, text, m, j, c, d) ||
           (c == i && d == m && Unpassed(Behind(t, n), n, text, m, j)));
        OneWithin(t, n, text, i, j, k, m);
        if PassedAt(Behind(t, n), n, text, k, j, a, b) {
          PassedOnce(Behind(t, n), n, text, k, j, a, b, c, d);
        } else if PassedAt(Behind(t, n), n, text, k, j, c, d) {
          PassedOnce(Behind(t, n), n, text, k, j, c, d, a, b);
        }
      }
    } else {
      var k :| LastBorder(h, t, text, i, j, k) &&
        (PassedAt(t, n, text, k, j, a, b) || (PassedAtItem(h, n, text, i, k, a, b) && Unpassed(t, n, text, k, j)));
      PassedOnceBehind(re, n, text, i, j, k, a, b, c, d);
    }
  }

  lemma {:induction false} PassedOnceBehind(re: Re, n: nat, text: seq<byte>, i: int, j: int, k: int,
                                            a: int, b: int, c: int, d: int)
    requires re.Cons? && re.head != One(LParen(n)) && LastBorder(re.head, re.tail, text, i, j, k)
    requires PassedAt(re.tail, n, text, k, j, a, b) ||
      (PassedAtItem(re.head, n, text, i, k, a, b) && Unpassed(re.tail, n, text, k, j))
    ensures !Unpassed(re, n, text, i, j)
    ensures PassedAt(re, n, text, i, j, c, d) ==> c == a && d == b
    decreases re, 0
  {
    var h, t := re.head, re.tail;
    if PassedAt(t, n, text, k, j, a, b) {
      PassedOnce(t, n, text, k, j, a, b, c, d);
    } else {
      PassedOnceItem(h, n, text, i, k, a, b, c, d);
      if PassedAt(t, n, text, k, j, c, d) {
        PassedOnce(t, n, text, k, j, c, d, c, d);
      }
    }
    forall m | LastBorder(h, t, text, i, j, m) ensures m == k {
      OneBorder(h, t, text, i, j, k, m);
    }
  }

  lemma {:induction false} PassedOnceItem(it: Item, n: nat, text: seq<byte>, i: int, j: int,
                                          a: int, b: int, c: int, d: int)
    requires PassedAtItem(it, n, text, i, j, a, b)
    ensures !UnpassedItem(it, n, text, i, j)
    ensures PassedAtItem(it, n, text, i, j, c, d) ==> c == a && d == b
    decreases it
  {
    match it
    case Plus(x) =>
      var k :| LastTurn(x, text, i, j, k) && PassedAt(x, n, text, k, j, a, b);
      PassedOnce(x, n, text, k, j, a, b, c, d);
      forall m | LastTurn(x, text, i, j, m) ensures m == k {
        OneLastTurn(x, text, i, j, m, k);
      }
    case Quest(x) => PassedOnce(x, n, text, i, j, a, b, c, d);
    case Choice(f, r) =>
      if Lang(f, text, i, j) {
        PassedOnce(f, n, text, i, j, a, b, c, d);
      } else {
        PassedOnceAlts(r, n, text, i, j, a, b, c, d);
      }
  }

  lemma {:induction false} PassedOnceAlts(x: Alts, n: nat, text: seq<byte>, i: int, j: int,
                                          a: int, b: int, c: int, d: int)
    requires PassedAtAlts(x, n, text, i, j, a, b)
    ensures !UnpassedAlts(x, n, text, i, j)
    ensures PassedAtAlts(x, n, text, i, j, c, d) ==> c == a && d == b
    decreases x
  {
    if x.Last? || Lang(x.re, text, i, j) {
      PassedOnce(x.re, n, text, i, j, a, b, c, d);
    } else {
      PassedOnceAlts(x.rest, n, text, i, j, a, b, c, d);
    }
  }

  // ----- what the record of a way says of a group -----

  /** The slot of the group after the events. */
  function SlotAfter(s: Slot, n: nat, ev: seq<Event>): Slot
    decreases ev
  {
    if ev == [] then s
    else
      var r := SlotAfter(s, n, ev[..|ev| - 1]);
      match ev[|ev| - 1]
      case Open(m, at) => if m == n then r.(so := at) else r
      case Close(m, at) => if m == n then r.(eo := at) else r
  }

  lemma {:induction false} RecordSlot(slots: seq<Slot>, n: nat, ev: seq<Event>)
    requires n < |slots|
    ensures Record(slots, 0, ev)[n] == SlotAfter(slots[n], n, ev)
    decreases ev
  {
    if ev != [] {
      RecordSlot(slots, n, ev[..|ev| - 1]);
    }
  }

  lemma {:induction false} SlotConcat(s: Slot, n: nat, a: seq<Event>, b: seq<Event>)
    ensures SlotAfter(s, n, a + b) == SlotAfter(SlotAfter(s, n, a), n, b)
    decreases b
  {
    if b == [] {
      assert a + b == a;
    } else {
      SlotConcat(s, n, a, b[..|b| - 1]);
      assert (a + b)[..|a + b| - 1] == a + b[..|b| - 1];
    }
  }

  lemma {:induction false} FreeTaken(re: Re, n: nat, text: seq<byte>, i: int, j: int, s: Slot)
    requires Free(re, n)
    ensures SlotAfter(s, n, Taken(re, text, i, j)) == s
    decreases re
  {
    if re.Cons? {
      var k := BorderOf(re.head, re.tail, text, i, j);
      FreeTakenItem(re.head, n, text, i, k, s);
      FreeTaken(re.tail, n, text, k, j, s);
      SlotConcat(s, n, TakenItem(re.head, text, i, k), Taken(re.tail, text, k, j));
    }
  }

  lemma {:induction false} FreeTakenItem(it: Item, n: nat, text: seq<byte>, i: int, j: int, s: Slot)
    requires FreeItem(it, n)
    ensures SlotAfter(s, n, TakenItem(it, text, i, j)) == s
    decreases it
  {
    match it
    case One(a) => AtomSlot(a, n, i, s);
    case Plus(b) => FreeTaken(b, n, text, LastStart(b, text, i, j), j, s);
    case Quest(b) => FreeTaken(b, n, text, i, j, s);
    case Choice(f, r) =>
      FreeTaken(f, n, text, i, j, s);
      FreeTakenAlts(r, n, text, i, j, s);
  }

  lemma {:induction false} FreeTakenAlts(x: Alts, n: nat, text: seq<byte>, i: int, j: int, s: Slot)
    requires FreeAlts(x, n)
    ensures SlotAfter(s, n, TakenAlts(x, text, i, j)) == s
    decreases x
  {
    FreeTaken(x.re, n, text, i, j, s);
    if x.More? {
      FreeTakenAlts(x.rest, n, text, i, j, s);
    }
  }

  lemma AtomSlot(a: Atom, n: nat, i: int, s: Slot)
    ensures SlotAfter(s, n, AtomEvents(a, i)) ==
      if a == LParen(n) then s.(so := i) else if a == RParen(n) then s.(eo := i) else s
  {
    if a.LParen? || a.RParen? {
      assert AtomEvents(a, i)[..0] == [];
    }
  }

  /** Behind an opening parenthesis the way leads through the body to the closing one. */
  lemma {:induction false} TakenInside(t: Re, n: nat, text: seq<byte>, i: int, j: int, s: Slot) returns (k: int)
    requires Closes(t, n) && Free(Inside(t, n), n) && Lang(t, text, i, j) && Clean(t, text, i, j)
    ensures Within(t, n, text, i, j, k) && Lang(Behind(t, n), text, k, j) && Clean(Behind(t, n), text, k, j)
    ensures SlotAfter(s, n, Taken(t, text, i, j)) == SlotAfter(s.(eo := k), n, Taken(Behind(t, n), text, k, j))
    decreases t
  {
    var h, r := t.head, t.tail;
    BorderExists(t, text, i, j);
    var m := BorderOf(h, r, text, i, j);
    SlotConcat(s, n, TakenItem(h, text, i, m), Taken(r, text, m, j));
    if h == One(RParen(n)) {
      AtomSlot(RParen(n), n, i, s);
      return m;
    }
    FreeTakenItem(h, n, text, i, m, s);
    k := TakenInside(r, n, text, m, j, s);
  }

  /** Either the group is not passed and its slot keeps its value, or the slot delimits the last time. */
  ghost predicate Delimits(re: Re, n: nat, text: seq<byte>, i: int, j: int, s: Slot, r: Slot) {
    (r == s && Unpassed(re, n, text, i, j)) || PassedAt(re, n, text, i, j, r.so, r.eo)
  }

  ghost predicate DelimitsItem(it: Item, n: nat, text: seq<byte>, i: int, j: int, s: Slot, r: Slot) {
    (r == s && UnpassedItem(it, n, text, i, j)) || PassedAtItem(it, n, text, i, j, r.so, r.eo)
  }

  lemma {:induction false} TakenDelimits(re: Re, n: nat, body: Re, text: seq<byte>, i: int, j: int, s: Slot)
    requires Grouped(re, n, body) && Lang(re, text, i, j) && Clean(re, text, i, j)
    ensures Delimits(re, n, text, i, j, s, SlotAfter(s, n, Taken(re, text, i, j)))
    decreases re
  {
    if re.Nil? {
      return;
    }
    var h, t := re.head, re.tail;
    BorderExists(re, text, i, j);
    var k := BorderOf(h, t, text, i, j);
    var s' := SlotAfter(s, n, TakenItem(h, text, i, k));
    SlotConcat(s, n, TakenItem(h, text, i, k), Taken(t, text, k, j));
    if h == One(LParen(n)) {
      AtomSlot(LParen(n), n, i, s);
      var m := TakenInside(t, n, text, i, j, s');
      TakenDelimits(Behind(t, n), n, body, text, m, j, s'.(eo := m));
    } else {
      TakenItemDelimits(h, n, body, text, i, k, s);
      TakenDelimits(t, n, body, text, k, j, s');
    }
  }

  lemma {:induction false} TakenItemDelimits(it: Item, n: nat, body: Re, text: seq<byte>, i: int, j: int, s: Slot)
    requires it != One(LParen(n)) && it != One(RParen(n)) && GroupedItem(it, n, body)
    requires LangItem(it, text, i, j) && CleanItem(it, text, i, j)
    ensures DelimitsItem(it, n, text, i, j, s, SlotAfter(s, n, TakenItem(it, text, i, j)))
    decreases it
  {
    match it
    case One(a) => AtomSlot(a, n, i, s);
    case Plus(b) =>
      LangItemBounds(it, text, i, j);
      PlusHasTurn(b, text, i, j);
      LastTurnIsTurn(b, text, i, j);
      LastStartIsLast(b, text, i, j);
      TakenDelimits(b, n, body, text, LastStart(b, text, i, j), j, s);
    case Quest(b) =>
      if Lang(b, text, i, j) {
        TakenDelimits(b, n, body, text, i, j, s);
      }
    case Choice(f, r) =>
      if Lang(f, text, i, j) {
        TakenDelimits(f, n, body, text, i, j, s);
      } else {
        TakenAltsDelimit(r, n, body, text, i, j, s);
      }
  }

  lemma {:induction false} TakenAltsDelimit(x: Alts, n: nat, body: Re, text: seq<byte>, i: int, j: int, s: Slot)
    requires GroupedAlts(x, n, body) && LangAlts(x, text, i, j) && CleanAlts(x, text, i, j)
    ensures var r := SlotAfter(s, n, TakenAlts(x, text, i, j));
      (r == s && UnpassedAlts(x, n, text, i, j)) || PassedAtAlts(x, n, text, i, j, r.so, r.eo)
    decreases x
  {
    if x.Last? || Lang(x.re, text, i, j) {
      TakenDelimits(x.re, n, body, text, i, j, s);
    } else {
      TakenAltsDelimit(x.rest, n, body, text, i, j, s);
    }
  }

  lemma {:induction false} LastStartIsLast(b: Re, text: seq<byte>, i: int, rest: int)
    requires 0 <= i <= |text| && HasTurn(b, text, i, rest) && GreedyEnd(b, text, i, rest) == rest
    ensures LastTurn(b, text, i, rest, LastStart(b, text, i, rest))
    decreases rest - i
  {
    if e :| i < e && LongestTurn(b, text, i, rest, e) {
      GreedyStep(b, text, i, rest, e);
      LangBounds(b, text, i, e);
      if HasTurn(b, text, e, rest) {
        LastStartIsLast(b, text, e, rest);
        var k := LastStart(b, text, e, rest);
        var n: nat :| Chain(b, text, e, rest, k, n);
        assert Chain(b, text, i, rest, k, n + 1);
      } else {
        NoTurnAtEnd(b, text, e, rest);
        assert Chain(b, text, i, rest, i, 0);
      }
    } else {
      assert Chain(b, text, i, rest, i, 0);
    }
  }

  lemma NoTurnAtEnd(b: Re, text: seq<byte>, e: int, rest: int)
    requires !HasTurn(b, text, e, rest) && GreedyEnd(b, text, e, rest) == rest && e <= rest
    ensures e == rest && !Lang(b, text, rest, rest)
  {
    if Lang(b, text, e, e) {
      var m := LongestExists(b, text, e, e, rest);
    }
  }

  /** An expression has no parentheses beyond those that have slots. */
  lemma {:induction false} ParensFree(re: Re, m: int, n: nat)
    requires Parens(re, m) && m <= n
    ensures Free(re, n)
    decreases re
  {
    if re.Cons? {
      ParensFreeItem(re.head, m, n);
      ParensFree(re.tail, m, n);
    }
  }

  lemma {:induction false} ParensFreeItem(it: Item, m: int, n: nat)
    requires ParensItem(it, m) && m <= n
    ensures FreeItem(it, n)
    decreases it
  {
    match it
    case One(_) =>
    case Plus(b) => ParensFree(b, m, n);
    case Quest(b) => ParensFree(b, m, n);
    case Choice(f, r) =>
      ParensFree(f, m, n);
      ParensFreeAlts(r, m, n);
  }

  lemma {:induction false} ParensFreeAlts(x: Alts, m: int, n: nat)
    requires ParensAlts(x, m) && m <= n
    ensures FreeAlts(x, n)
    decreases x
  {
    ParensFree(x.re, m, n);
    if x.More? {
      ParensFreeAlts(x.rest, m, n);
    }
  }

  // ----- the slot of a group -----

  /** The slot says whether the group was passed, and where for the last time; what it
      delimits is a word of the body inside the match. */
  ghost predicate SlotOfGroup(re: Re, n: nat, body: Re, text: seq<byte>, so: int, eo: int, s: Slot) {
    && (s == Slot(-1, -1) <==> Unpassed(re, n, text, so, eo))
    && (s != Slot(-1, -1) ==>
          so <= s.so <= s.eo <= eo && Lang(body, text, s.so, s.eo) && PassedAt(re, n, text, so, eo, s.so, s.eo))
  }

  lemma GroupDelimited(re: Re, n: nat, body: Re, text: seq<byte>, so: int, eo: int, s: Slot)
    requires Grouped(re, n, body) && Lang(re, text, so, eo) && Clean(re, text, so, eo)
    requires s == SlotAfter(Slot(-1, -1), n, Taken(re, text, so, eo))
    ensures SlotOfGroup(re, n, body, text, so, eo, s)
  {
    LangBounds(re, text, so, eo);
    TakenDelimits(re, n, body, text, so, eo, Slot(-1, -1));
    if PassedAt(re, n, text, so, eo, s.so, s.eo) {
      PassedIsWord(re, n, body, text, so, eo, s.so, s.eo);
      PassedOnce(re, n, text, so, eo, s.so, s.eo, s.so, s.eo);
    }
  }

  /** The same of the slots that the record of the way gives. */
  lemma GroupRecorded(re: Re, nsub: nat, n: nat, body: Re, text: seq<byte>, so: int, eo: int, rec: seq<Slot>)
    requires Grouped(re, n, body) && Lang(re, text, so, eo) && Clean(re, text, so, eo) && Parens(re, nsub + 1)
    requires rec == Record(seq(nsub + 1, _ => Slot(-1, -1)), 0, Taken(re, text, so, eo))
    ensures SlotOfGroup(re, n, body, text, so, eo, if n < |rec| then rec[n] else Slot(-1, -1))
  {
    var ev, none := Taken(re, text, so, eo), Slot(-1, -1);
    if n < |rec| {
      RecordSlot(seq(nsub + 1, _ => none), n, ev);
    } else {
      ParensFree(re, nsub + 1, n);
      FreeTaken(re, n, text, so, eo, none);
    }
    GroupDelimited(re, n, body, text, so, eo, SlotAfter(none, n, ev));
  }
}
