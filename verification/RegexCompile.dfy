/** How regcomp.c lays out repetitions and alternatives, and that this means what it should. */
module RegexCompile {
  import opened Bytes
  import opened RegexStrip
  import opened RegexLanguage
  import opened RegexRuns
  import RegexLeftmost

  // ----- the code of an expression -----

  function Code(re: Re): seq<Sop>
    decreases re, 0
  {
    match re
    case Nil => []
    case Cons(h, t) => CodeItem(h) + Code(t)
  }

  function CodeItem(it: Item): (r: seq<Sop>)
    ensures r != []
    decreases it, 0
  {
    match it
    case One(a) => [AtomOp(a)]
    case Plus(b) => Enclosed(OPlusOpen(|Code(b)| + 1), Code(b), OPlusClose(|Code(b)| + 1))
    case Quest(b) => Enclosed(OQuestOpen(|Code(b)| + 1), Code(b), OQuestClose(|Code(b)| + 1))
    case Choice(f, r) => Enclosed(OChOpen(|Code(f)| + 2), Code(f), OOr1(|Code(f)| + 1)) + CodeAlts(r)
  }

  function CodeAlts(a: Alts): (r: seq<Sop>)
    ensures |r| >= 2
    decreases a, 0
  {
    match a
    case Last(re) => Enclosed(OOr2(|Code(re)| + 1), Code(re), OChClose(|Code(re)| + 2))
    case More(re, rest) => Enclosed(OOr2(|Code(re)| + 2), Code(re), OOr1(|Code(re)| + 2)) + CodeAlts(rest)
  }

  function Enclosed(open: Sop, c: seq<Sop>, close: Sop): seq<Sop> {
    [open] + c + [close]
  }

  ghost predicate Stands(strip: seq<Sop>, lo: int, c: seq<Sop>) {
    0 <= lo && lo + |c| <= |strip| && forall k {:trigger c[k]} :: 0 <= k < |c| ==> strip[lo + k] == c[k]
  }

  lemma StandsParts(strip: seq<Sop>, lo: int, a: seq<Sop>, b: seq<Sop>)
    requires Stands(strip, lo, a + b)
    ensures Stands(strip, lo, a) && Stands(strip, lo + |a|, b)
  {
    forall k | 0 <= k < |a| ensures strip[lo + k] == a[k] {
      assert (a + b)[k] == a[k];
    }
    forall k | 0 <= k < |b| ensures strip[lo + |a| + k] == b[k] {
      assert (a + b)[|a| + k] == b[k];
    }
  }

  lemma StandsEnclosed(strip: seq<Sop>, lo: int, open: Sop, c: seq<Sop>, close: Sop)
    requires Stands(strip, lo, Enclosed(open, c, close))
    ensures lo + |c| + 1 < |strip| && strip[lo] == open && strip[lo + |c| + 1] == close && Stands(strip, lo + 1, c)
  {
    StandsParts(strip, lo, [open] + c, [close]);
    StandsParts(strip, lo, [open], c);
    assert strip[lo + 0] == [open][0];
    assert strip[lo + 1 + |c| + 0] == [close][0];
  }

  lemma ConsAt(strip: seq<Sop>, lo: int, mid: int, hi: int, re: Re)
    requires re.Cons? && Laid(strip, lo, mid, re.head) && ReAt(strip, mid, hi, re.tail)
    ensures ReAt(strip, lo, hi, re)
  {
  }

  lemma ChoiceAt(strip: seq<Sop>, lo: int, mid: int, hi: int, it: Item)
    requires it.Choice? && 0 <= lo && lo + 2 <= mid < hi <= |strip|
    requires ReAt(strip, lo + 1, mid - 1, it.first) && AltsAt(strip, mid, hi, it.rest)
    requires strip[lo] == OChOpen(mid - lo) && strip[mid - 1] == OOr1(mid - 1 - lo)
    ensures Laid(strip, lo, hi, it)
  {
    AltsChoiceEnd(strip, mid, hi, it.rest);
  }

  lemma MoreAt(strip: seq<Sop>, lo: int, mid: int, hi: int, a: Alts)
    requires a.More? && 0 <= lo && lo + 2 <= mid < hi <= |strip|
    requires ReAt(strip, lo + 1, mid - 1, a.re) && AltsAt(strip, mid, hi, a.rest)
    requires strip[lo] == OOr2(mid - lo) && strip[mid - 1] == OOr1(mid - lo)
    ensures AltsAt(strip, lo, hi, a)
  {
  }

  /** Where the code of an expression stands, the strip is laid out for it. */
  lemma {:induction false} CodeAt(strip: seq<Sop>, lo: int, re: Re, c: seq<Sop>)
    requires c == Code(re) && Stands(strip, lo, c)
    ensures ReAt(strip, lo, lo + |c|, re)
    decreases re, 0
  {
    match re
    case Nil =>
    case Cons(h, t) =>
      var d, e := CodeItem(h), Code(t);
      StandsParts(strip, lo, d, e);
      CodeItemAt(strip, lo, h, d);
      CodeAt(strip, lo + |d|, t, e);
      ConsAt(strip, lo, lo + |d|, lo + |d| + |e|, re);
  }

  /** An item is laid out at `lo..hi`, and `dissect` finds its end there. */
  ghost predicate Laid(strip: seq<Sop>, lo: int, hi: int, it: Item) {
    0 <= lo < |strip| && ItemAt(strip, lo, hi, it) && GroupEnd(strip, lo) == hi
  }

  lemma {:induction false} CodeItemAt(strip: seq<Sop>, lo: int, it: Item, c: seq<Sop>)
    requires c == CodeItem(it) && Stands(strip, lo, c)
    ensures Laid(strip, lo, lo + |c|, it)
    decreases it, 2
  {
    match it
    case One(a) => CodeOneAt(strip, lo, a);
    case Plus(b) => CodePlusAt(strip, lo, it, Code(b), c);
    case Quest(b) => CodeQuestAt(strip, lo, it, Code(b), c);
    case Choice(f, r) => CodeChoiceAt(strip, lo, it, Code(f), CodeAlts(r), c);
  }

  lemma CodeOneAt(strip: seq<Sop>, lo: int, a: Atom)
    requires Stands(strip, lo, [AtomOp(a)])
    ensures Laid(strip, lo, lo + 1, One(a))
  {
    assert strip[lo + 0] == [AtomOp(a)][0];
  }

  lemma {:induction false} CodePlusAt(strip: seq<Sop>, lo: int, it: Item, d: seq<Sop>, c: seq<Sop>)
    requires it.Plus? && d == Code(it.body) && c == Enclosed(OPlusOpen(|d| + 1), d, OPlusClose(|d| + 1))
    requires Stands(strip, lo, c)
    ensures Laid(strip, lo, lo + |c|, it)
    decreases it, 0
  {
    StandsEnclosed(strip, lo, OPlusOpen(|d| + 1), d, OPlusClose(|d| + 1));
    CodeAt(strip, lo + 1, it.body, d);
  }

  lemma {:induction false} CodeQuestAt(strip: seq<Sop>, lo: int, it: Item, d: seq<Sop>, c: seq<Sop>)
    requires it.Quest? && d == Code(it.body) && c == Enclosed(OQuestOpen(|d| + 1), d, OQuestClose(|d| + 1))
    requires Stands(strip, lo, c)
    ensures Laid(strip, lo, lo + |c|, it)
    decreases it, 0
  {
    StandsEnclosed(strip, lo, OQuestOpen(|d| + 1), d, OQuestClose(|d| + 1));
    CodeAt(strip, lo + 1, it.body, d);
  }

  lemma {:induction false} CodeChoiceAt(strip: seq<Sop>, lo: int, it: Item, d: seq<Sop>, e: seq<Sop>, c: seq<Sop>)
    requires it.Choice? && d == Code(it.first) && e == CodeAlts(it.rest)
    requires c == Enclosed(OChOpen(|d| + 2), d, OOr1(|d| + 1)) + e && Stands(strip, lo, c)
    ensures Laid(strip, lo, lo + |c|, it)
    decreases it, 1
  {
    FirstAndRest(strip, lo, OChOpen(|d| + 2), d, OOr1(|d| + 1), e);
    ChoiceParts(strip, lo, lo + |d| + 2, it, d, e);
  }

  lemma {:induction false} ChoiceParts(strip: seq<Sop>, lo: int, mid: int, it: Item, d: seq<Sop>, e: seq<Sop>)
    requires it.Choice? && d == Code(it.first) && e == CodeAlts(it.rest)
    requires 0 <= lo && mid == lo + |d| + 2 && mid + |e| <= |strip|
    requires strip[lo] == OChOpen(mid - lo) && strip[mid - 1] == OOr1(mid - 1 - lo)
    requires Stands(strip, lo + 1, d) && Stands(strip, mid, e)
    ensures Laid(strip, lo, mid + |e|, it)
    decreases it, 0
  {
    CodeAt(strip, lo + 1, it.first, d);
    CodeAltsAt(strip, mid, it.rest, e);
    ChoiceAt(strip, lo, mid, mid + |e|, it);
  }

  lemma FirstAndRest(strip: seq<Sop>, lo: int, open: Sop, d: seq<Sop>, close: Sop, e: seq<Sop>)
    requires Stands(strip, lo, Enclosed(open, d, close) + e)
    ensures lo + |d| + 1 < |strip| && strip[lo] == open && strip[lo + |d| + 1] == close
    ensures Stands(strip, lo + 1, d) && Stands(strip, lo + |d| + 2, e) && lo + |d| + 2 + |e| <= |strip|
  {
    StandsParts(strip, lo, Enclosed(open, d, close), e);
    StandsEnclosed(strip, lo, open, d, close);
  }

  lemma {:induction false} CodeAltsAt(strip: seq<Sop>, lo: int, a: Alts, c: seq<Sop>)
    requires c == CodeAlts(a) && Stands(strip, lo, c)
    ensures AltsAt(strip, lo, lo + |c|, a)
    decreases a, 2
  {
    match a
    case Last(re) => CodeLastAt(strip, lo, a, Code(re));
    case More(re, rest) => CodeMoreAt(strip, lo, a, Code(re), CodeAlts(rest));
  }

  lemma {:induction false} CodeLastAt(strip: seq<Sop>, lo: int, a: Alts, d: seq<Sop>)
    requires a.Last? && d == Code(a.re) && Stands(strip, lo, Enclosed(OOr2(|d| + 1), d, OChClose(|d| + 2)))
    ensures AltsAt(strip, lo, lo + |d| + 2, a)
    decreases a, 0
  {
    StandsEnclosed(strip, lo, OOr2(|d| + 1), d, OChClose(|d| + 2));
    CodeAt(strip, lo + 1, a.re, d);
  }

  lemma {:induction false} CodeMoreAt(strip: seq<Sop>, lo: int, a: Alts, d: seq<Sop>, e: seq<Sop>)
    requires a.More? && d == Code(a.re) && e == CodeAlts(a.rest)
    requires Stands(strip, lo, Enclosed(OOr2(|d| + 2), d, OOr1(|d| + 2)) + e)
    ensures AltsAt(strip, lo, lo + |d| + 2 + |e|, a)
    decreases a, 1
  {
    FirstAndRest(strip, lo, OOr2(|d| + 2), d, OOr1(|d| + 2), e);
    MoreParts(strip, lo, lo + |d| + 2, a, d, e);
  }

  lemma {:induction false} MoreParts(strip: seq<Sop>, lo: int, mid: int, a: Alts, d: seq<Sop>, e: seq<Sop>)
    requires a.More? && d == Code(a.re) && e == CodeAlts(a.rest)
    requires 0 <= lo && mid == lo + |d| + 2 && mid + |e| <= |strip|
    requires strip[lo] == OOr2(mid - lo) && strip[mid - 1] == OOr1(mid - lo)
    requires Stands(strip, lo + 1, d) && Stands(strip, mid, e)
    ensures AltsAt(strip, lo, mid + |e|, a)
    decreases a, 0
  {
    CodeAt(strip, lo + 1, a.re, d);
    CodeAltsAt(strip, mid, a.rest, e);
    MoreAt(strip, lo, mid, mid + |e|, a);
  }

  // ----- bounded repetition -----

  function Concat(a: Re, b: Re): Re {
    match a
    case Nil => b
    case Cons(h, t) => Cons(h, Concat(t, b))
  }

  /** An upper bound of a repetition. */
  datatype Bound = Infinite | Upto(n: nat)

  predicate Within(n: nat, max: Bound) {
    max.Upto? ==> n <= max.n
  }

  /** (b|) */
  function Optional(b: Re): Re {
    Cons(Choice(b, Last(Nil)), Nil)
  }

  /** The expression that `repeat` makes of `b{from,max}`. */
  function Repeated(b: Re, from: nat, max: Bound): Re
    requires Within(from, max)
    decreases if max.Upto? then max.n else from, from, if max.Upto? then 0 else 1
  {
    if from == 0 then
      if max == Upto(0) then Nil else Optional(Repeated1(b, max))
    else if from == 1 then Repeated1(b, max)
    else Concat(b, Repeated(b, from - 1, Less(max)))
  }

  function Repeated1(b: Re, max: Bound): Re
    requires Within(1, max)
    decreases if max.Upto? then max.n else 0, 0, 0
  {
    if max.Infinite? then Cons(Plus(b), Nil)
    else if max.n == 1 then b
    else Concat(Optional(b), Repeated1(b, Upto(max.n - 1)))
  }

  /** `text[i..j]` is a sequence of as many words of `b` as the bounds admit. */
  ghost predicate Times(b: Re, from: nat, max: Bound, text: seq<byte>, i: int, j: int) {
    exists n: nat :: from <= n && Within(n, max) && Rep(b, n, text, i, j)
  }

  lemma LangFirst(re: Re, text: seq<byte>, i: int, j: int) returns (m: int)
    requires re.Cons? && Lang(re, text, i, j)
    ensures LangItem(re.head, text, i, m) && Lang(re.tail, text, m, j)
  {
    m :| LangItem(re.head, text, i, m) && Lang(re.tail, text, m, j);
  }

  lemma {:induction false} ConcatSplit(a: Re, b: Re, text: seq<byte>, i: int, j: int) returns (k: int)
    requires Lang(Concat(a, b), text, i, j)
    ensures Lang(a, text, i, k) && Lang(b, text, k, j)
    decreases a
  {
    if a.Nil? {
      LangBounds(b, text, i, j);
      return i;
    } else {
      var m := LangFirst(Concat(a, b), text, i, j);
      k := ConcatSplit(a.tail, b, text, m, j);
    }
  }

  lemma {:induction false} ConcatJoin(a: Re, b: Re, text: seq<byte>, i: int, k: int, j: int)
    requires Lang(a, text, i, k) && Lang(b, text, k, j)
    ensures Lang(Concat(a, b), text, i, j)
    decreases a
  {
    if a.Cons? {
      var m := LangFirst(a, text, i, k);
      ConcatJoin(a.tail, b, text, m, k, j);
    }
  }

  lemma LangOptional(b: Re, text: seq<byte>, i: int, j: int)
    ensures Lang(Optional(b), text, i, j) <==> Here(text, i, j) || Lang(b, text, i, j)
  {
    var it := Choice(b, Last(Nil));
    LangOne(it, text, i, j);
    assert LangAlts(Last(Nil), text, i, j) <==> Here(text, i, j);
  }

  function Less(max: Bound): Bound
    requires Within(1, max)
  {
    if max.Upto? then Upto(max.n - 1) else max
  }

  /** One more word in front. */
  lemma TimesFront(b: Re, from: nat, max: Bound, text: seq<byte>, i: int, k: int, j: int)
    requires Lang(b, text, i, k) && Times(b, from, max, text, k, j)
    ensures Times(b, from + 1, if max.Upto? then Upto(max.n + 1) else max, text, i, j)
  {
    var n: nat :| from <= n && Within(n, max) && Rep(b, n, text, k, j);
    RepJoin(b, n, text, i, k, j);
  }

  lemma TimesSplit(b: Re, from: nat, max: Bound, text: seq<byte>, i: int, j: int) returns (k: int)
    requires from > 0 && Within(1, max) && Times(b, from, max, text, i, j)
    ensures Lang(b, text, i, k) && Times(b, from - 1, Less(max), text, k, j)
  {
    var n: nat :| from <= n && Within(n, max) && Rep(b, n, text, i, j);
    k := RepSplit(b, n, text, i, j);
  }

  lemma {:induction false} Repeated1Lang(b: Re, max: Bound, text: seq<byte>, i: int, j: int)
    requires Within(1, max)
    ensures Lang(Repeated1(b, max), text, i, j) <==> Times(b, 1, max, text, i, j)
    decreases if max.Upto? then max.n else 0
  {
    if max.Infinite? {
      LangOne(Plus(b), text, i, j);
    } else if max.n == 1 {
      RepOne(b, text, i, j);
    } else {
      Repeated1More(b, max, text, i, j);
    }
  }

  /** (b|) in front of b{1,n-1}. */
  lemma {:induction false} Repeated1More(b: Re, max: Bound, text: seq<byte>, i: int, j: int)
    requires max.Upto? && max.n > 1
    ensures Lang(Repeated1(b, max), text, i, j) <==> Times(b, 1, max, text, i, j)
    decreases max.n, 0
  {
    var o, r := Optional(b), Repeated1(b, Less(max));
    if Lang(Repeated1(b, max), text, i, j) {
      var k := ConcatSplit(o, r, text, i, j);
      LangOptional(b, text, i, k);
      Repeated1Lang(b, Less(max), text, k, j);
      if Lang(b, text, i, k) {
        TimesFront(b, 1, Less(max), text, i, k, j);
        Fewer(b, 2, max, 1, max, text, i, j);
      } else {
        Fewer(b, 1, Less(max), 1, max, text, i, j);
      }
    }
    if Times(b, 1, max, text, i, j) {
      var k := OneOrMore(b, max, text, i, j);
      LangOptional(b, text, i, k);
      Repeated1Lang(b, Less(max), text, k, j);
      ConcatJoin(o, r, text, i, k, j);
    }
  }

  lemma Fewer(b: Re, from: nat, max: Bound, from': nat, max': Bound, text: seq<byte>, i: int, j: int)
    requires Times(b, from, max, text, i, j) && from' <= from && (max'.Upto? ==> max.Upto? && max.n <= max'.n)
    ensures Times(b, from', max', text, i, j)
  {
  }

  lemma OneOrMore(b: Re, max: Bound, text: seq<byte>, i: int, j: int) returns (k: int)
    requires max.Upto? && max.n > 1 && Times(b, 1, max, text, i, j)
    ensures (Here(text, i, k) || Lang(b, text, i, k)) && Times(b, 1, Less(max), text, k, j)
  {
    var n: nat :| 1 <= n && Within(n, max) && Rep(b, n, text, i, j);
    if n < max.n {
      RepBounds(b, n, text, i, j);
      return i;
    } else {
      k := RepSplit(b, n, text, i, j);
    }
  }

  /** What `repeat` makes of b{from,max} stands for that many words of `b`. */
  lemma {:induction false} RepeatedLang(b: Re, from: nat, max: Bound, text: seq<byte>, i: int, j: int)
    requires Within(from, max)
    ensures Lang(Repeated(b, from, max), text, i, j) <==> Times(b, from, max, text, i, j)
    decreases from
  {
    if from == 0 {
      RepeatedFromZero(b, max, text, i, j);
    } else if from == 1 {
      Repeated1Lang(b, max, text, i, j);
    } else {
      var r := Repeated(b, from - 1, Less(max));
      if Lang(Repeated(b, from, max), text, i, j) {
        var k := ConcatSplit(b, r, text, i, j);
        RepeatedLang(b, from - 1, Less(max), text, k, j);
        TimesFront(b, from - 1, Less(max), text, i, k, j);
      }
      if Times(b, from, max, text, i, j) {
        var k := TimesSplit(b, from, max, text, i, j);
        RepeatedLang(b, from - 1, Less(max), text, k, j);
        ConcatJoin(b, r, text, i, k, j);
      }
    }
  }

  lemma RepeatedFromZero(b: Re, max: Bound, text: seq<byte>, i: int, j: int)
    ensures Lang(Repeated(b, 0, max), text, i, j) <==> Times(b, 0, max, text, i, j)
  {
    if Here(text, i, j) {
      assert Rep(b, 0, text, i, j);
    }
    if max == Upto(0) {
      assert forall n: nat :: Within(n, max) ==> n == 0;
    } else {
      LangOptional(Repeated1(b, max), text, i, j);
      Repeated1Lang(b, max, text, i, j);
      if Times(b, 1, max, text, i, j) {
        Fewer(b, 1, max, 0, max, text, i, j);
      }
      if Times(b, 0, max, text, i, j) {
        var n: nat :| Within(n, max) && Rep(b, n, text, i, j);
        assert n == 0 ==> Here(text, i, j);
      }
    }
  }

  // ----- emitting -----

  lemma {:induction false} CodeConcat(a: Re, b: Re)
    ensures Code(Concat(a, b)) == Code(a) + Code(b)
    decreases a
  {
    if a.Cons? {
      CodeConcat(a.tail, b);
    }
  }

  lemma CodeOne(it: Item)
    ensures Code(Cons(it, Nil)) == CodeItem(it)
  {
  }

  /** What is put around the code `c` of an operand to make it optional. */
  function Either(c: seq<Sop>): seq<Sop> {
    Enclosed(OChOpen(|c| + 2), c, OOr1(|c| + 1)) + [OOr2(1), OChClose(2)]
  }

  lemma CodeOptional(b: Re)
    ensures Code(Optional(b)) == Either(Code(b))
  {
    CodeOne(Choice(b, Last(Nil)));
    LastEmpty();
  }

  lemma LastEmpty()
    ensures CodeAlts(Last(Nil)) == [OOr2(1), OChClose(2)]
  {
    assert Code(Nil) == [];
    assert Enclosed(OOr2(1), [], OChClose(2)) == [OOr2(1), OChClose(2)];
  }

  lemma InsideEither(pre: seq<Sop>, c: seq<Sop>)
    ensures |Either(c)| == |c| + 4 && (pre + Either(c))[|pre| + 1..|pre| + 1 + |c|] == c
  {
  }

  lemma CutBetween(a: seq<Sop>, b: seq<Sop>)
    ensures (a + b)[..|a|] == a && (a + b)[|a|..] == b
  {
  }

  lemma Regroup(a: seq<Sop>, b: seq<Sop>, c: seq<Sop>)
    ensures a + b + c == a + (b + c)
  {
  }

  function WithOperand(s: Sop, v: nat): Sop {
    match s
    case OChOpen(_) => OChOpen(v)
    case OOr2(_) => OOr2(v)
    case _ => s
  }

  class Compiler {
    var strip: seq<Sop>

    constructor ()
      ensures strip == []
    {
      strip := [];
    }

    /** EMIT */
    method Emit(s: Sop)
      modifies this
      ensures strip == old(strip) + [s]
    {
      strip := strip + [s];
    }

    /** `doinsert`: the operator is emitted and then moved to its place. */
    method Insert(s: Sop, pos: nat)
      requires pos <= |strip|
      modifies this
      ensures strip == old(strip)[..pos] + [s] + old(strip)[pos..]
    {
      var here := |strip|;
      Emit(s);
      strip := strip[..pos] + [strip[here]] + strip[pos..here];
    }

    /** AHEAD: the operator at `pos` is made to point here. */
    method Ahead(pos: nat)
      requires pos < |strip|
      modifies this
      ensures strip == old(strip)[pos := WithOperand(old(strip)[pos], |old(strip)| - pos)]
    {
      strip := strip[pos := WithOperand(strip[pos], |strip| - pos)];
    }

    /** `dupl`: a part of the strip is appended again. */
    method Dupl(start: nat, finish: nat) returns (copy: nat)
      requires start <= finish <= |strip|
      modifies this
      ensures copy == |old(strip)| && strip == old(strip) + old(strip)[start..finish]
    {
      copy := |strip|;
      strip := strip + strip[start..finish];
    }

    /** An operator on each side of the operand `c` at `pos`. */
    method Enclose(pos: nat, open: Sop, close: Sop, ghost c: seq<Sop>)
      requires pos <= |strip| && strip[pos..] == c
      modifies this
      ensures strip == old(strip)[..pos] + Enclosed(open, c, close)
    {
      Insert(open, pos);
      Emit(close);
    }

    /** `+` after the operand at `pos`. */
    method EmitPlus(pos: nat, ghost b: Re)
      requires pos <= |strip| && strip[pos..] == Code(b)
      modifies this
      ensures strip == old(strip)[..pos] + Code(Cons(Plus(b), Nil))
    {
      var n := |strip| - pos;
      CodeOne(Plus(b));
      Enclose(pos, OPlusOpen(n + 1), OPlusClose(n + 1), Code(b));
    }

    /** `*` after the operand at `pos`: as +? */
    method EmitStar(pos: nat, ghost b: Re)
      requires pos <= |strip| && strip[pos..] == Code(b)
      modifies this
      ensures strip == old(strip)[..pos] + Code(Cons(Quest(Cons(Plus(b), Nil)), Nil))
    {
      ghost var pre, c := strip[..pos], Code(Cons(Plus(b), Nil));
      EmitPlus(pos, b);
      CutBetween(pre, c);
      var n := |strip| - pos;
      CodeOne(Quest(Cons(Plus(b), Nil)));
      Enclose(pos, OQuestOpen(n + 1), OQuestClose(n + 1), c);
    }

    /** The end of an optional operand `c`, in front of which there is an OCH_ at `pos`. */
    method EmitEither(pos: nat, ghost c: seq<Sop>)
      requires pos < |strip| && strip[pos].OChOpen? && strip[pos + 1..] == c
      modifies this
      ensures strip == old(strip)[..pos] + Either(c)
    {
      ghost var pre, open := strip[..pos], strip[pos];
      assert strip == pre + [open] + c;
      Emit(OOr1(|strip| - pos));
      Ahead(pos);
      assert strip == pre + Enclosed(OChOpen(|c| + 2), c, OOr1(|c| + 1));
      Emit(OOr2(0));
      Ahead(|strip| - 1);
      Emit(OChClose(|strip| - (|strip| - 2)));
      assert strip == pre + Enclosed(OChOpen(|c| + 2), c, OOr1(|c| + 1)) + [OOr2(1)] + [OChClose(2)];
    }

    /** `?` after the operand at `pos`: as (y|) */
    method EmitQuest(pos: nat, ghost b: Re)
      requires pos <= |strip| && strip[pos..] == Code(b)
      modifies this
      ensures strip == old(strip)[..pos] + Code(Optional(b))
    {
      ghost var pre := strip[..pos];
      CodeOptional(b);
      Insert(OChOpen(|strip| - pos + 1), pos);
      assert strip[pos + 1..] == Code(b) && strip[..pos] == pre;
      EmitEither(pos, Code(b));
    }

    /** `repeat`: the operand from `start` on is repeated. */
    method Repeat(start: nat, from: nat, max: Bound, ghost b: Re)
      requires start <= |strip| && strip[start..] == Code(b) && Within(from, max)
      modifies this
      ensures strip == old(strip)[..start] + Code(Repeated(b, from, max))
      decreases if max.Upto? then max.n else if from == 0 then 1 else from, if from == 0 then 1 else 0
    {
      var finish := |strip|;
      ghost var pre, c := strip[..start], Code(b);
      assert strip == pre + c;
      if from == 0 {
        if max == Upto(0) {
          strip := strip[..|strip| - (finish - start)];
        } else {
          Insert(OChOpen(|strip| - start + 1), start);
          ghost var open := strip[start];
          assert strip[start + 1..] == c && strip[..start + 1] == pre + [open];
          Repeat(start + 1, 1, max, b);
          ghost var d := Code(Repeated1(b, max));
          assert strip[start + 1..] == d && strip[..start] == pre && strip[start] == open;
          EmitEither(start, d);
          CodeOptional(Repeated1(b, max));
        }
      } else if from == 1 {
        if max.Infinite? {
          EmitPlus(start, b);
        } else if max.n > 1 {
          RepeatOnce(start, max, b);
        }
      } else {
        var copy := Dupl(start, finish);
        CutBetween(pre + c, c);
        Repeat(copy, from - 1, if max.Upto? then Upto(max.n - 1) else max, b);
        Regroup(pre, c, Code(Repeated(b, from - 1, Less(max))));
        CodeConcat(b, Repeated(b, from - 1, Less(max)));
      }
    }

    /** The case of from one to several times: as x?x{1,n-1} */
    method RepeatOnce(start: nat, max: Bound, ghost b: Re)
      requires start <= |strip| && strip[start..] == Code(b) && max.Upto? && max.n > 1
      modifies this
      ensures strip == old(strip)[..start] + Code(Repeated1(b, max))
      decreases max.n - 1, 2
    {
      var finish := |strip|;
      ghost var pre, c := strip[..start], Code(b);
      EmitQuest(start, b);
      CodeOptional(b);
      ghost var o := Either(c);
      InsideEither(pre, c);
      var copy := Dupl(start + 1, finish + 1);
      assert copy == finish + 4;
      CutBetween(pre + o, c);
      Repeat(copy, 1, Upto(max.n - 1), b);
      Regroup(pre, o, Code(Repeated1(b, Less(max))));
      CodeConcat(Optional(b), Repeated1(b, Less(max)));
    }

    /** The loop of `p_ere` over the alternatives.  What the parser emits for each of them is
        its code. */
    method Alternation(branches: seq<Re>)
      requires branches != []
      modifies this
      ensures strip == old(strip) + Code(Alternatives(branches))
    {
      var conc := |strip|;
      ghost var pre := strip;
      var c := Code(branches[0]);
      strip := strip + c;
      if |branches| == 1 {
        return;
      }
      FirstBranch(conc, pre, c);
      CodeOne(Choice(branches[0], AltsOf(branches[1..])));
      MoreBranches(branches, pre, Enclosed(OChOpen(|c| + 2), c, OOr1(|c| + 1)), Code(Alternatives(branches)));
    }

    /** The loop from the second alternative on.  `first` is the code of the first one. */
    method MoreBranches(branches: seq<Re>, ghost pre: seq<Sop>, ghost first: seq<Sop>, ghost all: seq<Sop>)
      requires |branches| > 1 && strip == pre + first + [OOr2(0)] && |pre + first| > 0
      requires first + CodeAlts(AltsOf(branches[1..])) == all
      modifies this
      ensures strip == pre + all
    {
      var prevback, prevfwd := |strip| - 2, |strip| - 1;
      ghost var done := first;
      var k := 1;
      while k < |branches| - 1
        invariant 1 <= k < |branches| && strip == pre + done + [OOr2(0)]
        invariant 0 <= prevback == prevfwd - 1 && prevfwd == |pre + done|
        invariant done + CodeAlts(AltsOf(branches[k..])) == all
      {
        var c := Code(branches[k]);
        strip := strip + c;
        Branch(prevback, prevfwd, pre + done, c);
        prevback, prevfwd := |strip| - 2, |strip| - 1;
        Further(pre, done, c, branches, k);
        done := done + Enclosed(OOr2(|c| + 2), c, OOr1(|c| + 2));
        k := k + 1;
      }
      var c := Code(branches[k]);
      strip := strip + c;
      Final(prevback, prevfwd, pre + done, c);
      Regroup(pre, done, Enclosed(OOr2(|c| + 1), c, OChClose(|c| + 2)));
    }

    /** The first alternative, which starts at `conc`, is followed by another one. */
    method FirstBranch(conc: nat, ghost pre: seq<Sop>, ghost c: seq<Sop>)
      requires strip == pre + c && conc == |pre|
      modifies this
      ensures strip == pre + Enclosed(OChOpen(|c| + 2), c, OOr1(|c| + 1)) + [OOr2(0)]
    {
      Insert(OChOpen(|strip| - conc + 1), conc);
      Emit(OOr1(|strip| - conc));
      Ahead(conc);
      assert strip == pre + Enclosed(OChOpen(|c| + 2), c, OOr1(|c| + 1));
      Emit(OOr2(0));
    }

    /** Another alternative follows the one with the code `c`. */
    method Branch(prevback: nat, prevfwd: nat, ghost before: seq<Sop>, ghost c: seq<Sop>)
      requires strip == before + [OOr2(0)] + c && prevfwd == |before| == prevback + 1
      modifies this
      ensures strip == before + Enclosed(OOr2(|c| + 2), c, OOr1(|c| + 2)) + [OOr2(0)]
    {
      Emit(OOr1(|strip| - prevback));
      Ahead(prevfwd);
      assert strip == before + Enclosed(OOr2(|c| + 2), c, OOr1(|c| + 2));
      Emit(OOr2(0));
    }

    /** The alternative with the code `c` was the last one. */
    method Final(prevback: nat, prevfwd: nat, ghost before: seq<Sop>, ghost c: seq<Sop>)
      requires strip == before + [OOr2(0)] + c && prevfwd == |before| == prevback + 1
      modifies this
      ensures strip == before + Enclosed(OOr2(|c| + 1), c, OChClose(|c| + 2))
    {
      Ahead(prevfwd);
      Emit(OChClose(|strip| - prevback));
    }
  }

  lemma Further(pre: seq<Sop>, done: seq<Sop>, c: seq<Sop>, branches: seq<Re>, k: nat)
    requires k < |branches| - 1 && c == Code(branches[k])
    ensures var more := Enclosed(OOr2(|c| + 2), c, OOr1(|c| + 2));
      && pre + done + more == pre + (done + more)
      && done + more + CodeAlts(AltsOf(branches[k + 1..])) == done + CodeAlts(AltsOf(branches[k..]))
  {
    var more := Enclosed(OOr2(|c| + 2), c, OOr1(|c| + 2));
    assert branches[k..][1..] == branches[k + 1..];
    Regroup(pre, done, more);
    Regroup(done, more, CodeAlts(AltsOf(branches[k + 1..])));
  }

  function AltsOf(branches: seq<Re>): Alts
    requires branches != []
  {
    if |branches| == 1 then Last(branches[0]) else More(branches[0], AltsOf(branches[1..]))
  }

  /** The expression for alternatives: a single one stands for itself. */
  function Alternatives(branches: seq<Re>): Re
    requires branches != []
  {
    if |branches| == 1 then branches[0] else Cons(Choice(branches[0], AltsOf(branches[1..])), Nil)
  }

  /** Where the code `c` of `re` stands in a strip, it matches exactly the words of `re`. */
  lemma CodeSpans(strip: seq<Sop>, lo: int, re: Re, c: seq<Sop>, text: seq<byte>, i: int, j: int)
    requires c == Code(re) && Stands(strip, lo, c) && 0 <= i <= |text|
    ensures Spans(strip, lo, lo + |c|, text, i, j) <==> Lang(re, text, i, j)
  {
    CodeAt(strip, lo, re, c);
    SpansIffLang(strip, lo, lo + |c|, re, text, i, j);
  }

  /** The code of b{from,max} matches exactly as many words of `b` as that admits. */
  lemma RepeatedSpans(strip: seq<Sop>, lo: int, b: Re, from: nat, max: Bound, c: seq<Sop>, text: seq<byte>,
                      i: int, j: int)
    requires Within(from, max) && c == Code(Repeated(b, from, max)) && Stands(strip, lo, c) && 0 <= i <= |text|
    ensures Spans(strip, lo, lo + |c|, text, i, j) <==> Times(b, from, max, text, i, j)
  {
    CodeSpans(strip, lo, Repeated(b, from, max), c, text, i, j);
    RepeatedLang(b, from, max, text, i, j);
  }

  function Letter(c: byte): Re {
    Cons(One(Chr(c)), Nil)
  }

  /** The extended regular expression (b*|a)c. */
  function Demo(): Re {
    Cons(One(LParen(1)),
         Cons(Choice(Cons(Quest(Cons(Plus(Letter(98)), Nil)), Nil), Last(Letter(97))),
              Cons(One(RParen(1)), Letter(99))))
  }

  /** The code of b*|a. */
  const DEMO_CHOICE: seq<Sop> := [
    OChOpen(7), OQuestOpen(4), OPlusOpen(2), OChar(98), OPlusClose(2), OQuestClose(4), OOr1(6), OOr2(2), OChar(97),
    OChClose(3)
  ]

  lemma DemoChoice(star: Re)
    requires star == Cons(Quest(Cons(Plus(Letter(98)), Nil)), Nil)
    ensures CodeItem(Choice(star, Last(Letter(97)))) == DEMO_CHOICE
  {
    var plus := Cons(Plus(Letter(98)), Nil);
    assert Code(Letter(98)) == [OChar(98)] && Code(Letter(97)) == [OChar(97)];
    assert Code(plus) == [OPlusOpen(2), OChar(98), OPlusClose(2)];
    CodeOne(Quest(plus));
    assert Code(star) == [OQuestOpen(4), OPlusOpen(2), OChar(98), OPlusClose(2), OQuestClose(4)];
    assert CodeAlts(Last(Letter(97))) == [OOr2(2), OChar(97), OChClose(3)];
  }

  /** The strip on which the search is not leftmost is the code of (b*|a)c. */
  lemma DemoIsCompiled()
    ensures RegexLeftmost.DEMO == [OEnd] + Code(Demo()) + [OEnd]
  {
    var it := Choice(Cons(Quest(Cons(Plus(Letter(98)), Nil)), Nil), Last(Letter(97)));
    DemoChoice(it.first);
    DemoParens(it, CodeItem(it));
    DemoText(DEMO_CHOICE);
  }

  lemma DemoText(c: seq<Sop>)
    requires c == DEMO_CHOICE
    ensures RegexLeftmost.DEMO == [OEnd] + ([OLParen(1)] + (c + [ORParen(1), OChar(99)])) + [OEnd]
  {
  }

  lemma DemoParens(it: Item, c: seq<Sop>)
    requires c == CodeItem(it)
    ensures Code(Cons(One(LParen(1)), Cons(it, Cons(One(RParen(1)), Letter(99))))) ==
      [OLParen(1)] + (c + [ORParen(1), OChar(99)])
  {
    assert Code(Letter(99)) == [OChar(99)];
    assert Code(Cons(One(RParen(1)), Letter(99))) == [ORParen(1), OChar(99)];
    assert Code(Cons(it, Cons(One(RParen(1)), Letter(99)))) == c + [ORParen(1), OChar(99)];
  }
}
