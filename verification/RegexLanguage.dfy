/** Regular expressions, the strips that regcomp.c lays out for them, and the theorem that
    the runs of such a strip spell exactly the language of the expression. */
module RegexLanguage {
  import opened Bytes
  import opened RegexStrip

  /** A concatenation of items.  The parentheses of a subexpression are items of their own
      that match the empty string, as they are in the strip. */
  datatype Re = Nil | Cons(head: Item, tail: Re)

  datatype Atom = Chr(c: byte) | Any | AnyOf(cs: set<byte>) | LParen(num: nat) | RParen(num: nat)

  datatype Item =
    | One(atom: Atom)
    | Plus(body: Re)
    | Quest(body: Re)
    | Choice(first: Re, rest: Alts)

  datatype Alts = Last(re: Re) | More(re: Re, rest: Alts)

  // ----- the language -----

  ghost predicate Lang(re: Re, text: seq<byte>, i: int, j: int)
    decreases re, 0
  {
    match re
    case Nil => 0 <= i <= |text| && i == j
    case Cons(h, t) => exists k :: LangItem(h, text, i, k) && Lang(t, text, k, j)
  }

  ghost predicate LangItem(it: Item, text: seq<byte>, i: int, j: int)
    decreases it, 0
  {
    match it
    case One(a) => LangAtom(a, text, i, j)
    case Plus(b) => exists n: nat :: n >= 1 && Rep(b, n, text, i, j)
    case Quest(b) => (0 <= i <= |text| && i == j) || Lang(b, text, i, j)
    case Choice(f, r) => Lang(f, text, i, j) || LangAlts(r, text, i, j)
  }

  ghost predicate LangAtom(a: Atom, text: seq<byte>, i: int, j: int) {
    match a
    case Chr(c) => 0 <= i < |text| && j == i + 1 && text[i] == c
    case Any => 0 <= i < |text| && j == i + 1
    case AnyOf(cs) => 0 <= i < |text| && j == i + 1 && text[i] in cs
    case LParen(_) => 0 <= i <= |text| && i == j
    case RParen(_) => 0 <= i <= |text| && i == j
  }

  ghost predicate LangAlts(a: Alts, text: seq<byte>, i: int, j: int)
    decreases a, 0
  {
    match a
    case Last(re) => Lang(re, text, i, j)
    case More(re, rest) => Lang(re, text, i, j) || LangAlts(rest, text, i, j)
  }

  /** `text[i..j]` is a sequence of `n` words of the language of `b`. */
  ghost predicate Rep(b: Re, n: nat, text: seq<byte>, i: int, j: int)
    decreases b, n + 1
  {
    if n == 0 then 0 <= i <= |text| && i == j
    else exists k :: Rep(b, n - 1, text, i, k) && Lang(b, text, k, j)
  }

  // ----- where the parts of an expression stand in a strip -----

  /** The end of the subexpression that starts at `ss`, as `dissect` finds it: past the
      closing operator of a group, past the operator itself otherwise. */
  function GroupEnd(strip: seq<Sop>, ss: int): int
    requires 0 <= ss < |strip|
  {
    match strip[ss]
    case OPlusOpen(n) => ss + n + 1
    case OQuestOpen(n) => ss + n + 1
    case OChOpen(n) => ChoiceEnd(strip, ss + n) + 1
    case _ => ss + 1
  }

  /** The range `lo..hi` of the strip is the strip of `re`. */
  ghost predicate ReAt(strip: seq<Sop>, lo: int, hi: int, re: Re)
    decreases re, 0
  {
    match re
    case Nil => 0 <= lo == hi <= |strip|
    case Cons(h, t) =>
      && 0 <= lo < |strip|
      && ItemAt(strip, lo, GroupEnd(strip, lo), h) && ReAt(strip, GroupEnd(strip, lo), hi, t)
  }

  ghost predicate ItemAt(strip: seq<Sop>, lo: int, hi: int, it: Item)
    decreases it, 0
  {
    match it
    case One(a) => 0 <= lo < |strip| && hi == lo + 1 && strip[lo] == AtomOp(a)
    case Plus(b) =>
      && 0 <= lo < hi - 1 < |strip| && ReAt(strip, lo + 1, hi - 1, b)
      && strip[lo] == OPlusOpen(hi - 1 - lo) && strip[hi - 1] == OPlusClose(hi - 1 - lo)
    case Quest(b) =>
      && 0 <= lo < hi - 1 < |strip| && ReAt(strip, lo + 1, hi - 1, b)
      && strip[lo] == OQuestOpen(hi - 1 - lo) && strip[hi - 1] == OQuestClose(hi - 1 - lo)
    case Choice(f, r) =>
      && 0 <= lo < hi <= |strip| && strip[lo].OChOpen?
      && var mid := lo + strip[lo].fwd;
         && lo + 2 <= mid < hi && ReAt(strip, lo + 1, mid - 1, f)
         && strip[mid - 1] == OOr1(mid - 1 - lo) && AltsAt(strip, mid, hi, r)
  }

  ghost predicate AltsAt(strip: seq<Sop>, lo: int, hi: int, a: Alts)
    decreases a, 0
  {
    match a
    case Last(re) =>
      && 0 <= lo < hi - 1 < |strip| && ReAt(strip, lo + 1, hi - 1, re)
      && strip[lo] == OOr2(hi - 1 - lo) && strip[hi - 1] == OChClose(hi - lo)
    case More(re, rest) =>
      && 0 <= lo < hi <= |strip| && strip[lo].OOr2?
      && var mid := lo + strip[lo].fwd;
         && lo + 2 <= mid < hi && ReAt(strip, lo + 1, mid - 1, re)
         && strip[mid - 1] == OOr1(mid - lo) && AltsAt(strip, mid, hi, rest)
  }

  function AtomOp(a: Atom): Sop {
    match a
    case Chr(c) => OChar(c)
    case Any => OAny
    case AnyOf(cs) => OAnyOf(cs)
    case LParen(i) => OLParen(i)
    case RParen(i) => ORParen(i)
  }

  /** From the OOR2 of any branch the chain of OOR2 operands leads to the O_CH. */
  lemma {:induction false} AltsChoiceEnd(strip: seq<Sop>, lo: int, hi: int, a: Alts)
    requires AltsAt(strip, lo, hi, a)
    ensures 0 <= lo < hi <= |strip| && strip[lo].OOr2? && ChoiceEnd(strip, lo) == hi - 1
    decreases a, 0
  {
    match a
    case Last(re) =>
    case More(re, rest) =>
      AltsChoiceEnd(strip, lo + strip[lo].fwd, hi, rest);
  }

  // ----- strips of expressions are well formed -----

  ghost predicate OpsOk(strip: seq<Sop>, lo: int, hi: int) {
    0 <= lo <= hi <= |strip| &&
    forall p :: lo <= p < hi ==> !strip[p].OEnd? && OpOk(strip, lo, hi, p)
  }

  lemma Widen(strip: seq<Sop>, lo: int, hi: int, lo': int, hi': int)
    requires OpsOk(strip, lo', hi') && 0 <= lo <= lo' && hi' <= hi <= |strip|
    ensures forall p :: lo' <= p < hi' ==> !strip[p].OEnd? && OpOk(strip, lo, hi, p)
  {
    forall p | lo' <= p < hi' ensures !strip[p].OEnd? && OpOk(strip, lo, hi, p) {
      assert OpOk(strip, lo', hi', p);
    }
  }

  lemma {:induction false} ReOk(strip: seq<Sop>, lo: int, hi: int, re: Re)
    requires ReAt(strip, lo, hi, re)
    ensures OpsOk(strip, lo, hi)
    decreases re, 0
  {
    match re
    case Nil =>
    case Cons(h, t) =>
      var mid := GroupEnd(strip, lo);
      ItemOk(strip, lo, mid, h);
      ReOk(strip, mid, hi, t);
      Widen(strip, lo, hi, lo, mid);
      Widen(strip, lo, hi, mid, hi);
  }

  lemma GroupOk(strip: seq<Sop>, lo: int, hi: int)
    requires 0 <= lo < hi - 1 < |strip| && OpsOk(strip, lo + 1, hi - 1)
    requires !strip[lo].OEnd? && !strip[hi - 1].OEnd? && OpOk(strip, lo, hi, lo) && OpOk(strip, lo, hi, hi - 1)
    ensures OpsOk(strip, lo, hi)
  {
    Widen(strip, lo, hi, lo + 1, hi - 1);
  }

  lemma BranchesOk(strip: seq<Sop>, lo: int, mid: int, hi: int)
    requires 0 <= lo <= mid - 2 && mid < hi <= |strip| && strip[mid - 1].OOr1?
    requires ChoiceEnd(strip, mid) == hi - 1
    requires OpsOk(strip, lo + 1, mid - 1) && OpsOk(strip, mid, hi)
    requires !strip[lo].OEnd? && OpOk(strip, lo, hi, lo)
    ensures OpsOk(strip, lo, hi)
  {
    Widen(strip, lo, hi, lo + 1, mid - 1);
    Widen(strip, lo, hi, mid, hi);
    assert OpOk(strip, lo, hi, mid - 1);
  }

  lemma {:induction false} ItemOk(strip: seq<Sop>, lo: int, hi: int, it: Item)
    requires ItemAt(strip, lo, hi, it)
    ensures OpsOk(strip, lo, hi) && lo < hi
    decreases it, 0
  {
    match it
    case One(_) =>
    case Plus(b) =>
      ReOk(strip, lo + 1, hi - 1, b);
      GroupOk(strip, lo, hi);
    case Quest(b) =>
      ReOk(strip, lo + 1, hi - 1, b);
      GroupOk(strip, lo, hi);
    case Choice(f, r) =>
      var mid := lo + strip[lo].fwd;
      ReOk(strip, lo + 1, mid - 1, f);
      AltsOk(strip, mid, hi, r);
      AltsChoiceEnd(strip, mid, hi, r);
      BranchesOk(strip, lo, mid, hi);
  }

  lemma {:induction false} AltsOk(strip: seq<Sop>, lo: int, hi: int, a: Alts)
    requires AltsAt(strip, lo, hi, a)
    ensures OpsOk(strip, lo, hi)
    decreases a, 0
  {
    match a
    case Last(re) =>
      ReOk(strip, lo + 1, hi - 1, re);
      GroupOk(strip, lo, hi);
    case More(re, rest) =>
      var mid := lo + strip[lo].fwd;
      ReOk(strip, lo + 1, mid - 1, re);
      AltsOk(strip, mid, hi, rest);
      AltsChoiceEnd(strip, mid, hi, rest);
      BranchesOk(strip, lo, mid, hi);
  }

  lemma CodeWellFormed(strip: seq<Sop>, lo: int, hi: int, re: Re)
    requires ReAt(strip, lo, hi, re)
    ensures WellFormed(strip, lo, hi)
  {
    ReOk(strip, lo, hi, re);
  }
}
