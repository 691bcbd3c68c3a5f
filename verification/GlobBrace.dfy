/** Patterns with braces and what they stand for. */
module GlobBrace {
  import opened Glob

  const LBRACE: Char := 123
  const RBRACE: Char := 125
  const COMMA: Char := 44

  // ----- patterns with braces, and their expansion -----

  datatype Piece = Lone(c: Char) | Brace(alts: Alts)

  datatype Pieces = Empty | And(head: Piece, tail: Pieces)

  datatype Alts = Last(p: Pieces) | Or(p: Pieces, rest: Alts)

  function Show(ps: Pieces): seq<Char> {
    match ps
    case Empty => []
    case And(Lone(c), r) => [c] + Show(r)
    case And(Brace(alts), r) => [123] + ShowAlts(alts) + [125] + Show(r)
  }

  function ShowAlts(alts: Alts): seq<Char> {
    match alts
    case Last(p) => Show(p)
    case Or(p, r) => Show(p) + [44] + ShowAlts(r)
  }

  /** Within braces no character is a brace, a comma or an opening bracket. */
  predicate Inner(ps: Pieces) {
    match ps
    case Empty => true
    case And(Lone(c), r) => c != 123 && c != 125 && c != 44 && c != 91 && Inner(r)
    case And(Brace(alts), r) => InnerAlts(alts) && Inner(r)
  }

  predicate InnerAlts(alts: Alts) {
    match alts
    case Last(p) => Inner(p)
    case Or(p, r) => Inner(p) && InnerAlts(r)
  }

  /** Outside of braces commas and closing braces stand for themselves. */
  predicate Outer(ps: Pieces) {
    match ps
    case Empty => true
    case And(Lone(c), r) => c != 123 && c != 91 && Outer(r)
    case And(Brace(alts), r) => InnerAlts(alts) && Outer(r)
  }

  function Concat(a: Pieces, b: Pieces): Pieces {
    match a
    case Empty => b
    case And(h, t) => And(h, Concat(t, b))
  }

  function Letters(s: seq<Char>): Pieces {
    if s == [] then Empty else And(Lone(s[0]), Letters(s[1..]))
  }

  function Braces(ps: Pieces): nat {
    match ps
    case Empty => 0
    case And(Lone(_), r) => Braces(r)
    case And(Brace(alts), r) => 1 + BracesAlts(alts) + Braces(r)
  }

  function BracesAlts(alts: Alts): nat {
    match alts
    case Last(p) => Braces(p)
    case Or(p, r) => Braces(p) + BracesAlts(r)
  }

  lemma {:induction false} BracesConcat(a: Pieces, b: Pieces)
    ensures Braces(Concat(a, b)) == Braces(a) + Braces(b)
  {
    if a.And? {
      BracesConcat(a.tail, b);
    }
  }

  /** An empty pair of braces and nothing else. */
  const PAIR: Pieces := And(Brace(Last(Empty)), Empty)

  /** The strings that a pattern stands for, in order, with the text `pre` in front: the first
      brace is replaced by each of its alternatives.  A pair of braces that is all there is
      stands for itself. */
  function Expand(pre: seq<Char>, ps: Pieces): seq<seq<Char>>
    decreases Braces(ps), ps
  {
    match ps
    case Empty => [pre]
    case And(Lone(c), r) => Expand(pre + [c], r)
    case And(Brace(alts), r) => if pre == [] && ps == PAIR then [[123, 125]] else ExpandAlts(pre, alts, r)
  }

  function ExpandAlts(pre: seq<Char>, alts: Alts, r: Pieces): seq<seq<Char>>
    decreases BracesAlts(alts) + Braces(r) + 1, alts
  {
    BracesConcat(alts.p, r);
    match alts
    case Last(p) => Expand(pre, Concat(p, r))
    case Or(p, more) => Expand(pre, Concat(p, r)) + ExpandAlts(pre, more, r)
  }

  // ----- the expansion as a product -----

  /** `w` in front of each string. */
  function Prefix(w: seq<Char>, l: seq<seq<Char>>): seq<seq<Char>> {
    seq(|l|, (i: nat) requires i < |l| => w + l[i])
  }

  /** Each string of `a` with each string of `b` behind it, in order. */
  function Cross(a: seq<seq<Char>>, b: seq<seq<Char>>): seq<seq<Char>> {
    if a == [] then [] else Prefix(a[0], b) + Cross(a[1..], b)
  }

  function Product(ps: Pieces): seq<seq<Char>> {
    match ps
    case Empty => [[]]
    case And(Lone(c), r) => Prefix([c], Product(r))
    case And(Brace(alts), r) => Cross(Union(alts), Product(r))
  }

  function Union(alts: Alts): seq<seq<Char>> {
    match alts
    case Last(p) => Product(p)
    case Or(p, r) => Product(p) + Union(r)
  }

  lemma PrefixAppend(w: seq<Char>, a: seq<seq<Char>>, b: seq<seq<Char>>)
    ensures Prefix(w, a + b) == Prefix(w, a) + Prefix(w, b)
  {
  }

  lemma PrefixTwice(v: seq<Char>, w: seq<Char>, a: seq<seq<Char>>)
    ensures Prefix(v, Prefix(w, a)) == Prefix(v + w, a)
  {
    assert forall i :: 0 <= i < |a| ==> v + (w + a[i]) == (v + w) + a[i];
  }

  lemma PrefixNothing(a: seq<seq<Char>>)
    ensures Prefix([], a) == a
  {
    assert forall i :: 0 <= i < |a| ==> [] + a[i] == a[i];
  }

  lemma {:induction false} CrossAppend(a: seq<seq<Char>>, b: seq<seq<Char>>, c: seq<seq<Char>>)
    ensures Cross(a + b, c) == Cross(a, c) + Cross(b, c)
    decreases |a|
  {
    if a == [] {
      assert a + b == b;
    } else {
      assert (a + b)[1..] == a[1..] + b;
      CrossAppend(a[1..], b, c);
    }
  }

  lemma {:induction false} CrossPrefix(w: seq<Char>, a: seq<seq<Char>>, b: seq<seq<Char>>)
    ensures Cross(Prefix(w, a), b) == Prefix(w, Cross(a, b))
    decreases |a|
  {
    if a != [] {
      assert Prefix(w, a)[1..] == Prefix(w, a[1..]);
      CrossPrefix(w, a[1..], b);
      PrefixTwice(w, a[0], b);
      PrefixAppend(w, Prefix(a[0], b), Cross(a[1..], b));
    }
  }

  lemma {:induction false} CrossTwice(a: seq<seq<Char>>, b: seq<seq<Char>>, c: seq<seq<Char>>)
    ensures Cross(Cross(a, b), c) == Cross(a, Cross(b, c))
    decreases |a|
  {
    if a != [] {
      CrossTwice(a[1..], b, c);
      CrossPrefix(a[0], b, c);
      CrossAppend(Prefix(a[0], b), Cross(a[1..], b), c);
    }
  }

  lemma {:induction false} ProductConcat(a: Pieces, b: Pieces)
    ensures Product(Concat(a, b)) == Cross(Product(a), Product(b))
    decreases a
  {
    match a
    case Empty =>
      PrefixNothing(Product(b));
      var one: seq<seq<Char>> := [[]];
      assert one[1..] == [];
    case And(Lone(c), r) =>
      ProductConcat(r, b);
      CrossPrefix([c], Product(r), Product(b));
    case And(Brace(alts), r) =>
      ProductConcat(r, b);
      CrossTwice(Union(alts), Product(r), Product(b));
  }

  /** Behind some text the expansion is the product of the alternatives. */
  lemma {:induction false} ExpandBehind(pre: seq<Char>, ps: Pieces)
    requires pre != []
    ensures Expand(pre, ps) == Prefix(pre, Product(ps))
    decreases Braces(ps), ps
  {
    match ps
    case Empty => assert pre + [] == pre;
    case And(Lone(c), r) =>
      ExpandBehind(pre + [c], r);
      PrefixTwice(pre, [c], Product(r));
    case And(Brace(alts), r) => ExpandAltsBehind(pre, alts, r);
  }

  lemma {:induction false} ExpandAltsBehind(pre: seq<Char>, alts: Alts, r: Pieces)
    requires pre != []
    ensures ExpandAlts(pre, alts, r) == Prefix(pre, Cross(Union(alts), Product(r)))
    decreases BracesAlts(alts) + Braces(r) + 1, alts
  {
    BracesConcat(alts.p, r);
    ExpandBehind(pre, Concat(alts.p, r));
    ProductConcat(alts.p, r);
    if alts.Or? {
      ExpandAltsBehind(pre, alts.rest, r);
      CrossAppend(Product(alts.p), Union(alts.rest), Product(r));
      PrefixAppend(pre, Cross(Product(alts.p), Product(r)), Cross(Union(alts.rest), Product(r)));
    }
  }

  /** Some choice of alternatives leaves a pair of braces as the whole pattern. */
  predicate MeetsPair(ps: Pieces)
    decreases Braces(ps), ps
  {
    match ps
    case Empty => false
    case And(Lone(_), _) => false
    case And(Brace(alts), r) => ps == PAIR || AltsMeetPair(alts, r)
  }

  predicate AltsMeetPair(alts: Alts, r: Pieces)
    decreases BracesAlts(alts) + Braces(r) + 1, alts
  {
    BracesConcat(alts.p, r);
    MeetsPair(Concat(alts.p, r)) || (alts.Or? && AltsMeetPair(alts.rest, r))
  }

  lemma {:induction false} NoPair(ps: Pieces)
    requires !MeetsPair(ps)
    ensures Expand([], ps) == Product(ps)
    decreases Braces(ps), ps
  {
    match ps
    case Empty =>
    case And(Lone(c), r) =>
      assert [] + [c] == [c];
      ExpandBehind([c], r);
    case And(Brace(alts), r) => NoPairAlts(alts, r);
  }

  lemma {:induction false} NoPairAlts(alts: Alts, r: Pieces)
    requires !AltsMeetPair(alts, r)
    ensures ExpandAlts([], alts, r) == Cross(Union(alts), Product(r))
    decreases BracesAlts(alts) + Braces(r) + 1, alts
  {
    BracesConcat(alts.p, r);
    NoPair(Concat(alts.p, r));
    ProductConcat(alts.p, r);
    if alts.Or? {
      NoPairAlts(alts.rest, r);
      CrossAppend(Product(alts.p), Union(alts.rest), Product(r));
    }
  }

  lemma {:induction false} PairShows(ps: Pieces)
    requires MeetsPair(ps)
    ensures [LBRACE, RBRACE] in Expand([], ps)
    decreases Braces(ps), ps
  {
    if ps != PAIR {
      PairShowsAlts(ps.head.alts, ps.tail);
    }
  }

  lemma {:induction false} PairShowsAlts(alts: Alts, r: Pieces)
    requires AltsMeetPair(alts, r)
    ensures [LBRACE, RBRACE] in ExpandAlts([], alts, r)
    decreases BracesAlts(alts) + Braces(r) + 1, alts
  {
    BracesConcat(alts.p, r);
    if MeetsPair(Concat(alts.p, r)) {
      PairShows(Concat(alts.p, r));
    } else {
      PairShowsAlts(alts.rest, r);
    }
  }

  ghost predicate Free(l: seq<seq<Char>>) {
    forall i :: 0 <= i < |l| ==> LBRACE !in l[i]
  }

  lemma {:induction false} CrossFree(a: seq<seq<Char>>, b: seq<seq<Char>>)
    requires Free(a) && Free(b)
    ensures Free(Cross(a, b))
    decreases |a|
  {
    if a != [] {
      CrossFree(a[1..], b);
      assert forall i :: 0 <= i < |b| ==> LBRACE !in a[0] + b[i];
    }
  }

  lemma {:induction false} ProductFree(ps: Pieces)
    requires Outer(ps)
    ensures Free(Product(ps))
    decreases ps
  {
    match ps
    case Empty =>
    case And(Lone(c), r) => ProductFree(r);
    case And(Brace(alts), r) =>
      UnionFree(alts);
      ProductFree(r);
      CrossFree(Union(alts), Product(r));
  }

  lemma {:induction false} UnionFree(alts: Alts)
    requires InnerAlts(alts)
    ensures Free(Union(alts))
    decreases alts
  {
    InnerOuter(alts.p);
    ProductFree(alts.p);
    if alts.Or? {
      UnionFree(alts.rest);
    }
  }

  lemma {:induction false} InnerOuter(ps: Pieces)
    requires Inner(ps)
    ensures Outer(ps)
  {
    if ps.And? {
      InnerOuter(ps.tail);
    }
  }

  /** The expansion is the ordered product of the alternatives, except exactly where a pair of
      braces is left over as the whole pattern. */
  lemma ExpandIsProduct(ps: Pieces)
    requires Outer(ps)
    ensures Expand([], ps) == Product(ps) <==> !MeetsPair(ps)
  {
    if MeetsPair(ps) {
      PairShows(ps);
      ProductFree(ps);
      var pair := [LBRACE, RBRACE];
      assert pair[0] == LBRACE;
      assert LBRACE in pair;
    } else {
      NoPair(ps);
    }
  }
}
