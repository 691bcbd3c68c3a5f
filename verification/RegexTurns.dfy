/** The last turn of a loop, as `dissect` (libc/posix/engine.c) looks for it: by taking the
    longest turn over and over. */
module RegexTurns {
  import opened Bytes
  import opened RegexLanguage
  import opened RegexRuns

  /** `e` is the end of the longest word of `b` that starts at `i` and ends by `rest`. */
  ghost predicate LongestTurn(b: Re, text: seq<byte>, i: int, rest: int, e: int) {
    i <= e <= rest && Lang(b, text, i, e) && forall k :: e < k <= rest ==> !Lang(b, text, i, k)
  }

  /** Some turn, empty or not, starts at `i`. */
  ghost predicate HasTurn(b: Re, text: seq<byte>, i: int, rest: int) {
    exists e :: LongestTurn(b, text, i, rest, e)
  }

  /** Where taking the longest nonempty turn over and over from `i` on comes to a stop. */
  ghost function GreedyEnd(b: Re, text: seq<byte>, i: int, rest: int): int
    decreases rest - i
  {
    if exists e :: i < e && LongestTurn(b, text, i, rest, e) then
      var e :| i < e && LongestTurn(b, text, i, rest, e);
      GreedyEnd(b, text, e, rest)
    else i
  }

  /** Where the last of these turns starts; an empty turn at the end counts as one. */
  ghost function LastStart(b: Re, text: seq<byte>, i: int, rest: int): int
    decreases rest - i
  {
    if exists e :: i < e && LongestTurn(b, text, i, rest, e) then
      var e :| i < e && LongestTurn(b, text, i, rest, e);
      if HasTurn(b, text, e, rest) then LastStart(b, text, e, rest) else i
    else i
  }

  lemma GreedyStep(b: Re, text: seq<byte>, i: int, rest: int, e: int)
    requires i < e && LongestTurn(b, text, i, rest, e)
    ensures GreedyEnd(b, text, i, rest) == GreedyEnd(b, text, e, rest)
    ensures LastStart(b, text, i, rest) == if HasTurn(b, text, e, rest) then LastStart(b, text, e, rest) else i
  {
    assert forall e' :: i < e' && LongestTurn(b, text, i, rest, e') ==> e' == e;
  }

  lemma {:induction false} LongestExists(b: Re, text: seq<byte>, i: int, k: int, rest: int) returns (e: int)
    requires i <= k <= rest && Lang(b, text, i, k)
    ensures k <= e && LongestTurn(b, text, i, rest, e)
    decreases rest - k
  {
    if m :| k < m <= rest && Lang(b, text, i, m) {
      e := LongestExists(b, text, i, m, rest);
    } else {
      e := k;
    }
  }

  /** The turns taken make up the text up to where they stop. */
  lemma {:induction false} GreedyStar(b: Re, text: seq<byte>, i: int, rest: int)
    requires 0 <= i <= |text|
    ensures Star(b, text, i, GreedyEnd(b, text, i, rest))
    decreases rest - i
  {
    if e :| i < e && LongestTurn(b, text, i, rest, e) {
      GreedyStep(b, text, i, rest, e);
      LangBounds(b, text, i, e);
      GreedyStar(b, text, e, rest);
      var n: nat :| Rep(b, n, text, e, GreedyEnd(b, text, e, rest));
      RepJoin(b, n, text, i, e, GreedyEnd(b, text, e, rest));
    } else {
      assert Rep(b, 0, text, i, i);
    }
  }

  lemma PlusHasTurn(b: Re, text: seq<byte>, i: int, j: int)
    requires LangItem(Plus(b), text, i, j)
    ensures HasTurn(b, text, i, j)
  {
    var n := PlusTurns(b, text, i, j);
    var k := RepSplit(b, n, text, i, j);
    LangBounds(b, text, i, k);
    RepBounds(b, n - 1, text, k, j);
    var e := LongestExists(b, text, i, k, j);
  }

  /** If the turns exhaust the match, the last one is a word behind other words. */
  lemma {:induction false} LastTurnIsTurn(b: Re, text: seq<byte>, i: int, rest: int)
    requires 0 <= i <= |text| && HasTurn(b, text, i, rest) && GreedyEnd(b, text, i, rest) == rest
    ensures i <= LastStart(b, text, i, rest) <= rest && Star(b, text, i, LastStart(b, text, i, rest))
    ensures Lang(b, text, LastStart(b, text, i, rest), rest)
    decreases rest - i
  {
    assert Rep(b, 0, text, i, i);
    if e :| i < e && LongestTurn(b, text, i, rest, e) {
      GreedyStep(b, text, i, rest, e);
      if HasTurn(b, text, e, rest) {
        LangBounds(b, text, i, e);
        LastTurnIsTurn(b, text, e, rest);
        var n: nat :| Rep(b, n, text, e, LastStart(b, text, e, rest));
        RepJoin(b, n, text, i, e, LastStart(b, text, e, rest));
      }
    }
  }

  // ----- which loops are exhausted by their longest turns -----

  /** After the longest turn the rest of a match is still made up of turns. */
  ghost predicate Exhaustive(b: Re) {
    forall text, i, j, e ::
      LangItem(Plus(b), text, i, j) && i < e && LongestTurn(b, text, i, j, e) ==> Star(b, text, e, j)
  }

  lemma PlusTurns(b: Re, text: seq<byte>, i: int, j: int) returns (n: nat)
    requires LangItem(Plus(b), text, i, j)
    ensures n >= 1 && Rep(b, n, text, i, j)
  {
    n :| n >= 1 && Rep(b, n, text, i, j);
  }

  /** A match of a loop that is not empty starts with a turn that is not empty. */
  lemma {:induction false} NonemptyTurn(b: Re, n: nat, text: seq<byte>, i: int, j: int) returns (k: int)
    requires i < j && Rep(b, n, text, i, j)
    ensures i < k <= j && Lang(b, text, i, k)
    decreases n
  {
    k := RepSplit(b, n, text, i, j);
    LangBounds(b, text, i, k);
    RepBounds(b, n - 1, text, k, j);
    if k == i {
      k := NonemptyTurn(b, n - 1, text, i, j);
    }
  }

  lemma {:induction false} ExhaustiveGreedy(b: Re, text: seq<byte>, i: int, j: int)
    requires Exhaustive(b) && Star(b, text, i, j)
    ensures GreedyEnd(b, text, i, j) == j
    decreases j - i
  {
    var n: nat :| Rep(b, n, text, i, j);
    RepBounds(b, n, text, i, j);
    if i < j {
      var k := NonemptyTurn(b, n, text, i, j);
      var e := LongestExists(b, text, i, k, j);
      GreedyStep(b, text, i, j, e);
      assert LangItem(Plus(b), text, i, j);
      ExhaustiveGreedy(b, text, e, j);
    }
  }

  /** The assertion of `dissect` that the longest turns exhaust the match of the loop holds on
      every text exactly if the body is exhaustive. */
  lemma TurnsExhaustIff(b: Re)
    ensures (forall text, i, j :: LangItem(Plus(b), text, i, j) ==> GreedyEnd(b, text, i, j) == j) <==> Exhaustive(b)
  {
    if Exhaustive(b) {
      forall text, i, j | LangItem(Plus(b), text, i, j) ensures GreedyEnd(b, text, i, j) == j {
        var n := PlusTurns(b, text, i, j);
        ExhaustiveGreedy(b, text, i, j);
      }
    } else {
      var text, i, j, e :| LangItem(Plus(b), text, i, j) && i < e && LongestTurn(b, text, i, j, e)
        && !Star(b, text, e, j);
      LangItemBounds(Plus(b), text, i, j);
      GreedyStep(b, text, i, j, e);
      GreedyStar(b, text, e, j);
    }
  }

  // ----- bodies that are exhaustive -----

  /** No word of the body goes on where another one ends. */
  ghost predicate PrefixFree(b: Re) {
    forall text, i, j, k :: Lang(b, text, i, j) && Lang(b, text, i, k) ==> j == k
  }

  lemma PrefixFreeExhaustive(b: Re)
    requires PrefixFree(b)
    ensures Exhaustive(b)
  {
    forall text, i, j, e | LangItem(Plus(b), text, i, j) && i < e && LongestTurn(b, text, i, j, e)
      ensures Star(b, text, e, j)
    {
      var n := PlusTurns(b, text, i, j);
      var k := RepSplit(b, n, text, i, j);
      assert k == e;
    }
  }

  /** Two words of the body after each other are a word of it, as for a loop inside a loop. */
  ghost predicate ConcatClosed(b: Re) {
    forall text, i, k, j :: Lang(b, text, i, k) && Lang(b, text, k, j) ==> Lang(b, text, i, j)
  }

  lemma {:induction false} ConcatClosedRep(b: Re, n: nat, text: seq<byte>, i: int, j: int)
    requires ConcatClosed(b) && n >= 1 && Rep(b, n, text, i, j)
    ensures Lang(b, text, i, j)
    decreases n
  {
    if n == 1 {
      RepOne(b, text, i, j);
    } else {
      var k := LastTurn(b, n, text, i, j);
      ConcatClosedRep(b, n - 1, text, i, k);
    }
  }

  lemma ConcatClosedExhaustive(b: Re)
    requires ConcatClosed(b)
    ensures Exhaustive(b)
  {
    forall text, i, j, e | LangItem(Plus(b), text, i, j) && i < e && LongestTurn(b, text, i, j, e)
      ensures Star(b, text, e, j)
    {
      var n := PlusTurns(b, text, i, j);
      ConcatClosedRep(b, n, text, i, j);
      LangBounds(b, text, i, j);
      assert e == j && Rep(b, 0, text, j, j);
    }
  }

  /** The length of all words of the expression, if they have the same length by its form. */
  function Width(re: Re): int {
    match re
    case Nil => 0
    case Cons(h, t) => if WidthItem(h) < 0 || Width(t) < 0 then -1 else WidthItem(h) + Width(t)
  }

  function WidthItem(it: Item): int {
    match it
    case One(LParen(_)) => 0
    case One(RParen(_)) => 0
    case One(_) => 1
    case Plus(_) => -1
    case Quest(_) => -1
    case Choice(f, r) => if Width(f) == WidthAlts(r) then Width(f) else -1
  }

  function WidthAlts(a: Alts): int {
    match a
    case Last(re) => Width(re)
    case More(re, rest) => if Width(re) == WidthAlts(rest) then Width(re) else -1
  }

  lemma {:induction false} WidthLang(re: Re, text: seq<byte>, i: int, j: int)
    requires Width(re) >= 0 && Lang(re, text, i, j)
    ensures j == i + Width(re)
    decreases re, 0
  {
    if re.Cons? {
      var k :| LangItem(re.head, text, i, k) && Lang(re.tail, text, k, j);
      WidthLangItem(re.head, text, i, k);
      WidthLang(re.tail, text, k, j);
    }
  }

  lemma {:induction false} WidthLangItem(it: Item, text: seq<byte>, i: int, j: int)
    requires WidthItem(it) >= 0 && LangItem(it, text, i, j)
    ensures j == i + WidthItem(it)
    decreases it, 0
  {
    if it.Choice? {
      if Lang(it.first, text, i, j) {
        WidthLang(it.first, text, i, j);
      } else {
        WidthLangAlts(it.rest, text, i, j);
      }
    }
  }

  lemma {:induction false} WidthLangAlts(a: Alts, text: seq<byte>, i: int, j: int)
    requires WidthAlts(a) >= 0 && LangAlts(a, text, i, j)
    ensures j == i + WidthAlts(a)
    decreases a, 0
  {
    if Lang(a.re, text, i, j) {
      WidthLang(a.re, text, i, j);
    } else {
      WidthLangAlts(a.rest, text, i, j);
    }
  }

  /** So it is for a*, .*, [..]+, (ab)* and (a|b)+, and for every body of fixed width. */
  lemma WidthExhaustive(b: Re)
    requires Width(b) >= 0
    ensures Exhaustive(b)
  {
    forall text, i, j, k | Lang(b, text, i, j) && Lang(b, text, i, k) ensures j == k {
      WidthLang(b, text, i, j);
      WidthLang(b, text, i, k);
    }
    PrefixFreeExhaustive(b);
  }

  // ----- a loop whose longest turns do not exhaust the match -----

  function Word1(x: byte): Re {
    Cons(One(Chr(x)), Nil)
  }

  function Word2(x: byte, y: byte): Re {
    Cons(One(Chr(x)), Word1(y))
  }

  lemma Word1Lang(x: byte, text: seq<byte>, i: int, j: int)
    ensures Lang(Word1(x), text, i, j) <==> 0 <= i < |text| && j == i + 1 && text[i] == x
  {
    LangOne(One(Chr(x)), text, i, j);
  }

  lemma Word2Lang(x: byte, y: byte, text: seq<byte>, i: int, j: int)
    ensures Lang(Word2(x, y), text, i, j) <==>
      0 <= i && i + 1 < |text| && j == i + 2 && text[i] == x && text[i + 1] == y
  {
    Word1Lang(y, text, i + 1, j);
    if Lang(Word2(x, y), text, i, j) {
      AtomSplit(Chr(x), Word1(y), text, i, j);
    } else if 0 <= i && i + 1 < |text| && text[i] == x {
      assert LangItem(One(Chr(x)), text, i, i + 1);
    }
  }

  /** The body of (a|ab|bc)+. */
  const TURN: Re := Cons(Choice(Word1(97), More(Word2(97, 98), Last(Word2(98, 99)))), Nil)

  lemma TurnLang(text: seq<byte>, i: int, j: int)
    requires text == [97, 98, 99]
    ensures Lang(TURN, text, i, j) <==> (i, j) in {(0, 1), (0, 2), (1, 3)}
  {
    LangOne(TURN.head, text, i, j);
    Word1Lang(97, text, i, j);
    Word2Lang(97, 98, text, i, j);
    Word2Lang(98, 99, text, i, j);
    assert LangAlts(More(Word2(97, 98), Last(Word2(98, 99))), text, i, j) <==>
      Lang(Word2(97, 98), text, i, j) || LangAlts(Last(Word2(98, 99)), text, i, j);
  }

  /** (a|ab|bc)+ matches "abc", but its longest turns stop after "ab": `dissect` asserts in vain. */
  lemma LongestTurnsFail()
    ensures LangItem(Plus(TURN), [97, 98, 99], 0, 3) && GreedyEnd(TURN, [97, 98, 99], 0, 3) == 2 && !Exhaustive(TURN)
  {
    var text := [97, 98, 99];
    forall i, j ensures Lang(TURN, text, i, j) <==> (i, j) in {(0, 1), (0, 2), (1, 3)} {
      TurnLang(text, i, j);
    }
    assert Rep(TURN, 0, text, 0, 0);
    OneMore(TURN, text, 0, 0, 1);
    OneMore(TURN, text, 0, 1, 3);
    assert LongestTurn(TURN, text, 0, 3, 2);
    GreedyStep(TURN, text, 0, 3, 2);
    assert !exists e :: 2 < e && LongestTurn(TURN, text, 2, 3, e);
    TurnsExhaustIff(TURN);
  }
}
