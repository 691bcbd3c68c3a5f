/** Pattern compilation and matching of glob.c. */
module Glob {
  /** A character of a pattern under compilation: a byte, with marks in the upper bits. */
  type Char = c: int | 0 <= c < 0x1_0000

  const EOS: Char := 0
  const STAR: Char := 42
  const RANGE: Char := 45
  const QUESTION: Char := 63
  const LBRACKET: Char := 91
  const RBRACKET: Char := 93
  const NOT: Char := 33

  /** CHAR(c): the byte. */
  function Plain(c: Char): Char {
    c % 0x100
  }

  const M_ALL: Char := 0x8000 + 42
  const M_END: Char := 0x8000 + 93
  const M_NOT: Char := 0x8000 + 33
  const M_ONE: Char := 0x8000 + 63
  const M_RNG: Char := 0x8000 + 45
  const M_SET: Char := 0x8000 + 91

  // ----- what a pattern means -----

  datatype Item = One(c: Char) | Span(lo: Char, hi: Char)

  datatype Items = Nil | Cons(head: Item, tail: Items)

  datatype Token = Any | Star | Lit(c: Char) | Set(negate: bool, items: Items)

  datatype Pattern = End | Then(t: Token, rest: Pattern)

  predicate Holds(items: Items, k: Char) {
    match items
    case Nil => false
    case Cons(One(c), r) => c == k || Holds(r, k)
    case Cons(Span(lo, hi), r) => lo <= k <= hi || Holds(r, k)
  }

  predicate Fits(t: Token, k: Char) {
    match t
    case Any => true
    case Star => false
    case Lit(c) => c == k
    case Set(negate, items) => Holds(items, k) != negate
  }

  /** The characters from `j` to `k`, for a star to take. */
  predicate Run(name: seq<Char>, j: nat, k: nat) {
    j <= k <= |name|
  }

  /** The pattern matches the name from `j` on: each star takes a run of its choice. */
  ghost predicate Matches(p: Pattern, name: seq<Char>, j: nat)
    requires j <= |name|
    decreases p
  {
    match p
    case End => j == |name|
    case Then(Star, r) => exists k :: Run(name, j, k) && Matches(r, name, k)
    case Then(t, r) => j < |name| && Fits(t, name[j]) && Matches(r, name, j + 1)
  }

  // ----- reading a pattern -----

  /** A string of characters whose byte is not zero, read as zero at its end. */
  type Text = s: seq<Char> | forall i :: 0 <= i < |s| ==> Plain(s[i]) != EOS

  function At(s: Text, i: nat): Char {
    if i < |s| then s[i] else EOS
  }

  datatype Bracket = Unclosed | Closed(items: Items, next: nat)

  /** The items of a bracket expression from `i` on, of which there is at least one. */
  function ReadItems(s: Text, i: nat): (b: Bracket)
    ensures b.Closed? ==> i + 1 < b.next <= |s|
    decreases |s| - i
  {
    if i >= |s| then Unclosed
    else if At(s, i + 1) == RANGE && At(s, i + 2) != RBRACKET then
      if i + 2 >= |s| then Unclosed else ReadMore(s, i, i + 3, Span(Plain(s[i]), Plain(s[i + 2])))
    else ReadMore(s, i, i + 1, One(Plain(s[i])))
  }

  function ReadMore(s: Text, i: nat, j: nat, item: Item): (b: Bracket)
    requires i < j <= |s|
    ensures b.Closed? ==> i + 1 < b.next <= |s|
    decreases |s| - i, 0
  {
    if At(s, j) == RBRACKET then Closed(Cons(item, Nil), j + 1)
    else
      match ReadItems(s, j)
      case Unclosed => Unclosed
      case Closed(items, n) => Closed(Cons(item, items), n)
  }

  /** A bracket expression is closed exactly if a closing bracket follows its first character. */
  lemma {:induction false} ClosedIff(s: Text, i: nat)
    ensures ReadItems(s, i).Closed? <==> exists k :: i < k < |s| && s[k] == RBRACKET
    decreases |s| - i, 0
  {
    if i < |s| {
      if At(s, i + 1) == RANGE && At(s, i + 2) != RBRACKET {
        if i + 2 < |s| {
          MoreIff(s, i + 3);
        }
      } else {
        MoreIff(s, i + 1);
      }
    }
  }

  lemma {:induction false} MoreIff(s: Text, j: nat)
    requires j <= |s|
    ensures At(s, j) == RBRACKET || ReadItems(s, j).Closed? <==> exists k :: j <= k < |s| && s[k] == RBRACKET
    decreases |s| - j, 1
  {
    ClosedIff(s, j);
  }

  function Parse(s: Text, i: nat): Pattern
    decreases |s| - i
  {
    if i >= |s| then End
    else if s[i] == QUESTION then Then(Any, Parse(s, i + 1))
    else if s[i] == STAR then Then(Star, Parse(s, i + 1))
    else if s[i] == LBRACKET then
      var negate := At(s, i + 1) == NOT;
      match ReadItems(s, if negate then i + 2 else i + 1)
      case Unclosed => Then(Lit(LBRACKET), Parse(s, i + 1))
      case Closed(items, n) => Then(Set(negate, items), Parse(s, n))
    else Then(Lit(Plain(s[i])), Parse(s, i + 1))
  }

  // ----- the compiled form -----

  function EmitItems(items: Items): seq<Char> {
    match items
    case Nil => []
    case Cons(One(c), r) => [c] + EmitItems(r)
    case Cons(Span(lo, hi), r) => [lo, M_RNG, hi] + EmitItems(r)
  }

  function EmitToken(t: Token): seq<Char> {
    match t
    case Any => [M_ONE]
    case Star => [M_ALL]
    case Lit(c) => [c]
    case Set(negate, items) => Marks(negate) + EmitItems(items) + [M_END]
  }

  function Marks(negate: bool): seq<Char> {
    if negate then [M_SET, M_NOT] else [M_SET]
  }

  /** The compiled pattern; `star` tells whether a star stands in front of it. */
  function Emit(p: Pattern, star: bool): seq<Char> {
    match p
    case End => []
    case Then(t, r) => if t == Star && star then Emit(r, true) else EmitToken(t) + Emit(r, t == Star)
  }

  // ----- matching -----

  /** The pattern without the stars it starts with. */
  function DropStars(p: Pattern): (r: Pattern)
    ensures r.Then? ==> r.t != Star
    ensures r == p || r < p
  {
    if p.Then? && p.t == Star then DropStars(p.rest) else p
  }

  lemma {:induction false} EmitDrop(p: Pattern)
    ensures Emit(p, true) == Emit(DropStars(p), false)
  {
    if p.Then? && p.t == Star {
      EmitDrop(p.rest);
    }
  }

  /** Adjacent stars are as good as one. */
  lemma {:induction false} DropMatches(p: Pattern, name: seq<Char>, j: nat)
    requires j <= |name|
    ensures Matches(Then(Star, p), name, j) <==> Matches(Then(Star, DropStars(p)), name, j)
    decreases p
  {
    if p.Then? && p.t == Star {
      DropMatches(p.rest, name, j);
      if Matches(Then(Star, p), name, j) {
        var k: nat :| Run(name, j, k) && Matches(p, name, k);
        var m: nat :| Run(name, k, m) && Matches(p.rest, name, m);
        assert Run(name, j, m);
      }
      if Matches(p, name, j) {
        assert Run(name, j, j);
      }
    }
  }

  predicate PlainItems(items: Items) {
    match items
    case Nil => true
    case Cons(One(c), r) => 0 < c < 0x100 && PlainItems(r)
    case Cons(Span(lo, hi), r) => 0 < lo < 0x100 && 0 < hi < 0x100 && PlainItems(r)
  }

  /** All characters of the pattern are bytes other than zero. */
  predicate PlainPattern(p: Pattern) {
    match p
    case End => true
    case Then(Lit(c), r) => 0 < c < 0x100 && PlainPattern(r)
    case Then(Set(_, items), r) => PlainItems(items) && PlainPattern(r)
    case Then(_, r) => PlainPattern(r)
  }

  predicate IsName(name: seq<Char>) {
    forall i :: 0 <= i < |name| ==> 0 < name[i] < 0x100
  }

  function NameAt(name: seq<Char>, j: nat): Char {
    if j < |name| then name[j] else EOS
  }

  lemma Tail(pat: seq<Char>, i: nat, a: seq<Char>, b: seq<Char>)
    requires i <= |pat| && pat[i..] == a + b
    ensures i + |a| <= |pat| && pat[i + |a|..] == b
    ensures forall k {:trigger a[k]} :: 0 <= k < |a| ==> pat[i + k] == a[k]
  {
    assert pat[i + |a|..] == pat[i..][|a|..];
    forall k {:trigger a[k]} | 0 <= k < |a| ensures pat[i + k] == a[k] {
      assert pat[i..][k] == a[k];
    }
  }

  lemma {:induction false} PlainDrop(p: Pattern)
    requires PlainPattern(p)
    ensures PlainPattern(DropStars(p))
  {
    if p.Then? && p.t == Star {
      PlainDrop(p.rest);
    }
  }

  lemma EmitEmpty(p: Pattern)
    requires Emit(p, false) == []
    ensures p.End?
  {
  }

  /** The first character of the code of a token tells which one it is. */
  lemma EmitParts(pat: seq<Char>, i: nat, t: Token, rest: seq<Char>)
    requires i <= |pat| && pat[i..] == EmitToken(t) + rest && (t.Lit? ==> 0 < t.c < 0x100)
    ensures i < |pat| && (pat[i] == M_ALL <==> t.Star?)
    ensures (pat[i] == M_ONE <==> t.Any?) && (pat[i] == M_SET <==> t.Set?)
    ensures t.Lit? ==> pat[i] == t.c
    ensures !t.Set? ==> pat[i + 1..] == rest
  {
    Tail(pat, i, EmitToken(t), rest);
    assert pat[i + 0] == EmitToken(t)[0];
  }

  /** The items of a bracket expression and their end mark start with a byte or that mark. */
  lemma FirstItem(pat: seq<Char>, i: nat, items: Items, rest: seq<Char>)
    requires i <= |pat| && pat[i..] == EmitItems(items) + [M_END] + rest && PlainItems(items)
    ensures i < |pat| && pat[i] != M_NOT && pat[i] != M_RNG && (pat[i] == M_END <==> items.Nil?)
  {
    assert pat[i] == pat[i..][0];
  }

  lemma Regroup(a: seq<Char>, b: seq<Char>, c: seq<Char>, d: seq<Char>)
    ensures a + b + c + d == a + (b + c + d) == a + (b + c) + d
  {
  }

  lemma SetStart(pat: seq<Char>, i: nat, t: Token, rest: seq<Char>)
    requires t.Set? && PlainItems(t.items) && 0 < i <= |pat| && pat[i - 1..] == EmitToken(t) + rest
    ensures i < |pat| && (pat[i] == M_NOT <==> t.negate)
    ensures AtItems(pat, if t.negate then i + 1 else i, t.items, rest)
  {
    var open := Marks(t.negate);
    var inner := EmitItems(t.items) + [M_END] + rest;
    Regroup(open, EmitItems(t.items), [M_END], rest);
    Opened(pat, i - 1, t.negate, open, inner);
    FirstItem(pat, i - 1 + |open|, t.items, rest);
  }

  lemma Opened(pat: seq<Char>, i: nat, negate: bool, open: seq<Char>, inner: seq<Char>)
    requires open == Marks(negate) && i <= |pat| && pat[i..] == open + inner
    ensures |open| == (if negate then 2 else 1) && i + |open| <= |pat| && pat[i + |open|..] == inner
    ensures negate ==> pat[i + 1] == M_NOT
  {
    Tail(pat, i, open, inner);
    assert negate ==> open[1] == M_NOT;
  }

  /** The rest of a bracket expression is at `i`. */
  ghost predicate AtItems(pat: seq<Char>, i: nat, items: Items, rest: seq<Char>) {
    i < |pat| && PlainItems(items) && pat[i..] == EmitItems(items) + [M_END] + rest
  }

  lemma ItemStart(pat: seq<Char>, i: nat, items: Items, rest: seq<Char>)
    requires AtItems(pat, i, items, rest) && pat[i] != M_END
    ensures items.Cons? && i + 1 < |pat| && (pat[i + 1] == M_RNG <==> items.head.Span?)
    ensures items.head.One? ==> pat[i] == items.head.c && pat[i + 1..] == EmitItems(items.tail) + [M_END] + rest
    ensures items.head.Span? ==>
      && i + 3 < |pat| && pat[i] == items.head.lo && pat[i + 2] == items.head.hi
      && pat[i + 3..] == EmitItems(items.tail) + [M_END] + rest
  {
    FirstItem(pat, i, items, rest);
    var inner := EmitItems(items.tail) + [M_END] + rest;
    match items.head {
      case One(c) =>
        assert EmitItems(items) + [M_END] + rest == [c] + inner;
        Tail(pat, i, [c], inner);
        assert pat[i + 0] == [c][0];
        FirstItem(pat, i + 1, items.tail, rest);
      case Span(lo, hi) =>
        var w: seq<Char> := [lo, M_RNG, hi];
        assert EmitItems(items) + [M_END] + rest == w + inner;
        Tail(pat, i, w, inner);
        assert pat[i + 0] == w[0] && pat[i + 1] == w[1] && pat[i + 2] == w[2];
    }
  }

  lemma ItemsOver(pat: seq<Char>, i: nat, items: Items, rest: seq<Char>)
    requires AtItems(pat, i, items, rest) && pat[i] == M_END
    ensures items.Nil? && pat[i + 1..] == rest
  {
    FirstItem(pat, i, items, rest);
    Tail(pat, i, [M_END], rest);
  }

  /** `match` of the name from `j0` on against the compiled pattern from `i0` on, which stands
      for `p`. */
  method Match(name: seq<Char>, j0: nat, pat: seq<Char>, i0: nat, ghost p: Pattern) returns (ok: bool)
    requires j0 <= |name| && i0 <= |pat| && IsName(name) && PlainPattern(p) && pat[i0..] == Emit(p, false)
    ensures ok <==> Matches(p, name, j0)
    decreases p, 0
  {
    var i: nat, j: nat := i0, j0;
    ghost var q := p;
    while i < |pat|
      invariant i <= |pat| && j <= |name| && PlainPattern(q) && pat[i..] == Emit(q, false)
      invariant Matches(p, name, j0) <==> Matches(q, name, j)
      invariant q == p || q < p
      decreases q
    {
      assert q.Then?;
      ghost var t, r := q.t, q.rest;
      EmitParts(pat, i, t, Emit(r, t == Star));
      var c := pat[i];
      i := i + 1;
      if c == M_ALL {
        EmitDrop(r);
        DropMatches(r, name, j);
        PlainDrop(r);
        ok := MatchStar(name, j, pat, i, DropStars(r));
        return;
      } else if c == M_ONE {
        if NameAt(name, j) == EOS {
          return false;
        }
        j := j + 1;
      } else if c == M_SET {
        if NameAt(name, j) == EOS {
          return false;
        }
        var held;
        held, i := MatchSet(name[j], pat, i, t, Emit(r, false));
        if !held {
          return false;
        }
        j := j + 1;
      } else {
        if NameAt(name, j) != c {
          return false;
        }
        j := j + 1;
      }
      q := r;
    }
    EmitEmpty(q);
    return NameAt(name, j) == EOS;
  }

  ghost predicate NoneBefore(r: Pattern, name: seq<Char>, i: nat, j: nat)
    requires j <= |name|
  {
    forall k :: i <= k < j ==> !Matches(r, name, k)
  }

  /** The case of a star: the rest of the pattern is tried at one position after another. */
  method MatchStar(name: seq<Char>, j0: nat, pat: seq<Char>, i: nat, ghost r: Pattern) returns (ok: bool)
    requires j0 <= |name| && i <= |pat| && IsName(name) && PlainPattern(r) && pat[i..] == Emit(r, false)
    requires r.Then? ==> r.t != Star
    ensures ok <==> Matches(Then(Star, r), name, j0)
    decreases r, 1
  {
    if i == |pat| {
      EmitEmpty(r);
      assert Run(name, j0, |name|) && Matches(r, name, |name|);
      return true;
    }
    var j := j0;
    while true
      invariant j0 <= j <= |name| && NoneBefore(r, name, j0, j)
      decreases |name| - j
    {
      var m := Match(name, j, pat, i, r);
      if m {
        assert Run(name, j0, j);
        return true;
      }
      if NameAt(name, j) == EOS {
        return false;
      }
      assert NoneBefore(r, name, j0, j + 1);
      j := j + 1;
    }
  }

  /** The case of a bracket expression: `i` is behind its opening mark. */
  method MatchSet(k: Char, pat: seq<Char>, i0: nat, ghost t: Token, ghost rest: seq<Char>) returns (ok: bool, i: nat)
    requires t.Set? && PlainItems(t.items) && 0 < k < 0x100 && 0 < i0 <= |pat| && pat[i0 - 1..] == EmitToken(t) + rest
    ensures ok == Fits(t, k) && i0 < i <= |pat| && pat[i..] == rest
  {
    i := i0;
    SetStart(pat, i0, t, rest);
    var negate := pat[i] == M_NOT;
    if negate {
      i := i + 1;
    }
    var held := false;
    ghost var items := t.items;
    while pat[i] != M_END
      invariant i0 <= i && AtItems(pat, i, items, rest)
      invariant Holds(t.items, k) == (held || Holds(items, k))
      decreases items
    {
      var hit;
      hit, i := MatchItem(k, pat, i, items, rest);
      held := held || hit;
      items := items.tail;
    }
    ItemsOver(pat, i, items, rest);
    return held != negate, i + 1;
  }

  /** One item of a bracket expression. */
  method MatchItem(k: Char, pat: seq<Char>, i0: nat, ghost items: Items,
                   ghost rest: seq<Char>) returns (hit: bool, i: nat)
    requires AtItems(pat, i0, items, rest) && pat[i0] != M_END && 0 < k < 0x100
    ensures items.Cons? && Holds(items, k) == (hit || Holds(items.tail, k))
    ensures i0 < i && AtItems(pat, i, items.tail, rest)
  {
    ItemStart(pat, i0, items, rest);
    var c := pat[i0];
    i := i0 + 1;
    if pat[i] == M_RNG {
      hit := Plain(c) <= Plain(k) <= Plain(pat[i + 1]);
      i := i + 2;
    } else {
      hit := c == k;
    }
    FirstItem(pat, i, items.tail, rest);
  }

  // ----- compiling -----

  lemma {:induction false} PlainRead(s: Text, i: nat)
    ensures PlainPattern(Parse(s, i))
    decreases |s| - i
  {
    if i < |s| {
      var p := Parse(s, i);
      if p.t.Set? {
        var j := if p.t.negate then i + 2 else i + 1;
        PlainReadItems(s, j);
        PlainRead(s, ReadItems(s, j).next);
      } else {
        PlainRead(s, i + 1);
      }
    }
  }

  lemma {:induction false} PlainReadItems(s: Text, i: nat)
    requires ReadItems(s, i).Closed?
    ensures PlainItems(ReadItems(s, i).items)
    decreases |s| - i
  {
    var j := if At(s, i + 1) == RANGE && At(s, i + 2) != RBRACKET then i + 3 else i + 1;
    if At(s, j) != RBRACKET {
      PlainReadItems(s, j);
    }
  }

  /** From `i` on the array still holds the pattern. */
  ghost predicate Unread(src: array<Char>, text: Text, i: nat)
    reads src
  {
    |text| < src.Length && forall k :: i <= k <= |text| ==> src[k] == At(text, k)
  }

  /** One character of the compiled pattern is stored.  `src` may be the same array. */
  method Put(src: array<Char>, dst: array<Char>, n: nat, c: Char, ghost text: Text, ghost i: nat) returns (m: nat)
    requires Unread(src, text, i) && n < i && n < dst.Length
    modifies dst
    ensures m == n + 1 && dst[..m] == old(dst[..n]) + [c] && Unread(src, text, i)
  {
    dst[n] := c;
    return n + 1;
  }

  /** `g_strchr` for a closing bracket. */
  method FindClose(src: array<Char>, start: nat, ghost text: Text) returns (found: bool)
    requires Unread(src, text, start) && start <= |text|
    ensures found <==> exists k :: start <= k < |text| && text[k] == RBRACKET
  {
    var k := start;
    while src[k] != EOS
      invariant start <= k <= |text| && forall m :: start <= m < k ==> text[m] != RBRACKET
      decreases |text| - k
    {
      if src[k] == RBRACKET {
        return true;
      }
      k := k + 1;
    }
    return false;
  }

  predicate IsSpan(s: Text, i: nat) {
    At(s, i + 1) == RANGE && At(s, i + 2) != RBRACKET
  }

  function EmitItem(item: Item): seq<Char> {
    match item
    case One(c) => [c]
    case Span(lo, hi) => [lo, M_RNG, hi]
  }

  /** What the first item of a closed bracket expression is and what follows it. */
  lemma ItemRead(s: Text, i: nat, items: Items, next: nat)
    requires ReadItems(s, i) == Closed(items, next)
    ensures var j := if IsSpan(s, i) then i + 3 else i + 1;
      && items.Cons? && j < |s| && EmitItems(items) == EmitItem(items.head) + EmitItems(items.tail)
      && items.head == (if IsSpan(s, i) then Span(Plain(s[i]), Plain(s[i + 2])) else One(Plain(s[i])))
      && (if s[j] == RBRACKET then items.tail.Nil? && next == j + 1 else ReadItems(s, j) == Closed(items.tail, next))
  {
  }

  /** One item: `c` is its first character, and `i0` the position behind it. */
  method CompileItem(src: array<Char>, dst: array<Char>, i0: nat, n0: nat, c: Char, ghost text: Text,
                     ghost items: Items, ghost next: nat)
    returns (i: nat, n: nat)
    requires 0 < i0 <= |text| && n0 < i0 && Unread(src, text, i0) && |text| < dst.Length && c == text[i0 - 1]
    requires ReadItems(text, i0 - 1) == Closed(items, next)
    modifies dst
    ensures i0 <= i < |text| && n <= i && Unread(src, text, i)
    ensures items.Cons? && dst[..n] == old(dst[..n0]) + EmitItem(items.head)
    ensures text[i] == RBRACKET ==> items.tail.Nil? && next == i + 1
    ensures text[i] != RBRACKET ==> ReadItems(text, i) == Closed(items.tail, next)
  {
    ItemRead(text, i0 - 1, items, next);
    i := i0;
    n := Put(src, dst, n0, Plain(c), text, i);
    if src[i] == RANGE && src[i + 1] != RBRACKET {
      var c2 := src[i + 1];
      n := Put(src, dst, n, M_RNG, text, i + 2);
      n := Put(src, dst, n, Plain(c2), text, i + 2);
      i := i + 2;
    }
  }

  /** The loop over the items of a bracket expression that is known to be closed. */
  method CompileItems(src: array<Char>, dst: array<Char>, i0: nat, n0: nat, ghost text: Text,
                      ghost b: Bracket) returns (i: nat, n: nat)
    requires n0 <= i0 && Unread(src, text, i0) && |text| < dst.Length && b == ReadItems(text, i0) && b.Closed?
    modifies dst
    ensures i == b.next && i <= |text| && Unread(src, text, i) && n < i
    ensures dst[..n] == old(dst[..n0]) + EmitItems(b.items)
  {
    ghost var items, out := b.items, dst[..n0];
    ghost var all := out + EmitItems(items);
    var c := src[i0];
    i, n := i0 + 1, n0;
    while true
      invariant 0 < i <= |text| && n < i && c == text[i - 1] && Unread(src, text, i)
      invariant ReadItems(text, i - 1) == Closed(items, b.next) && dst[..n] == out && out + EmitItems(items) == all
      decreases |text| - i
    {
      i, n := CompileItem(src, dst, i, n, c, text, items, b.next);
      NextItem(out, items, all);
      out, items := out + EmitItem(items.head), items.tail;
      c := src[i];
      i := i + 1;
      if c == RBRACKET {
        break;
      }
    }
  }

  lemma NextItem(out: seq<Char>, items: Items, all: seq<Char>)
    requires items.Cons? && out + EmitItems(items) == all
    ensures out + EmitItem(items.head) + EmitItems(items.tail) == all
  {
    assert EmitItems(items) == EmitItem(items.head) + EmitItems(items.tail);
  }

  /** The case of an opening bracket, which is at `i0 - 1`: it is compiled as a set, or stands
      for itself if it is not closed. */
  method CompileBracket(src: array<Char>, dst: array<Char>, i0: nat, n0: nat, ghost text: Text) returns (i: nat, n: nat)
    requires 0 < i0 <= |text| && n0 < i0 && Unread(src, text, i0) && |text| < dst.Length && text[i0 - 1] == LBRACKET
    modifies dst
    ensures i0 <= i <= |text| && n <= i && Unread(src, text, i)
    ensures var p := Parse(text, i0 - 1);
      p.rest == Parse(text, i) && p.t != Star && dst[..n] == old(dst[..n0]) + EmitToken(p.t)
  {
    i := i0;
    var negate := src[i] == NOT;
    if negate {
      i := i + 1;
    }
    ClosedIff(text, i);
    var closed := false;
    if src[i] != EOS {
      closed := FindClose(src, i + 1, text);
    }
    if !closed {
      n := Put(src, dst, n0, LBRACKET, text, i0);
      return i0, n;
    }
    ghost var t := Parse(text, i0 - 1).t;
    ghost var out := dst[..n0];
    n := Put(src, dst, n0, M_SET, text, i);
    if negate {
      n := Put(src, dst, n, M_NOT, text, i);
    }
    ghost var open := dst[..n];
    i, n := CompileItems(src, dst, i, n, text, ReadItems(text, i));
    n := Put(src, dst, n, M_END, text, i);
    SetEmitted(out, t, open, dst[..n]);
  }

  lemma SetEmitted(out: seq<Char>, t: Token, open: seq<Char>, all: seq<Char>)
    requires t.Set? && open == (if t.negate then out + [M_SET] + [M_NOT] else out + [M_SET])
    requires all == open + EmitItems(t.items) + [M_END]
    ensures all == out + EmitToken(t)
  {
    assert open == out + Marks(t.negate);
    Regroup(out, Marks(t.negate), EmitItems(t.items), [M_END]);
  }

  function EmitOn(p: Pattern, out: seq<Char>, star: bool): seq<Char>
    requires p.Then?
  {
    if p.t == Star && star then out else out + EmitToken(p.t)
  }

  /** With `out` written and `p` to come, the compiled pattern will be `all`. */
  ghost predicate Progress(out: seq<Char>, p: Pattern, star: bool, all: seq<Char>) {
    (star <==> out != [] && out[|out| - 1] == M_ALL) && out + Emit(p, star) == all
  }

  lemma EmitStep(p: Pattern, out: seq<Char>, star: bool, all: seq<Char>)
    requires p.Then? && PlainPattern(p) && Progress(out, p, star, all)
    ensures Progress(EmitOn(p, out, star), p.rest, p.t == Star, all)
  {
    LastMark(p.t);
    if !(p.t == Star && star) {
      Extend(out, EmitToken(p.t), Emit(p.rest, p.t == Star), all);
    }
  }

  lemma Beginning(out: seq<Char>, p: Pattern)
    requires out == []
    ensures Progress(out, p, false, Emit(p, false))
  {
  }

  lemma Extend(out: seq<Char>, w: seq<Char>, r: seq<Char>, all: seq<Char>)
    requires out + (w + r) == all && w != []
    ensures out + w + r == all && (out + w)[|out + w| - 1] == w[|w| - 1]
  {
  }

  lemma LastMark(t: Token)
    requires t.Lit? ==> t.c < 0x100
    ensures var w := EmitToken(t); w != [] && (w[|w| - 1] == M_ALL <==> t == Star)
  {
  }

  lemma ParseOne(s: Text, i: nat)
    requires i < |s| && s[i] != LBRACKET
    ensures Parse(s, i) ==
      Then(if s[i] == STAR then Star else if s[i] == QUESTION then Any else Lit(Plain(s[i])), Parse(s, i + 1))
  {
  }

  /** One round of the compilation loop. */
  method CompileToken(src: array<Char>, dst: array<Char>, i0: nat, n0: nat, ghost text: Text,
                      ghost star: bool) returns (i: nat, n: nat)
    requires n0 <= i0 < |text| && Unread(src, text, i0) && |text| < dst.Length
    requires star <==> n0 > 0 && dst[n0 - 1] == M_ALL
    modifies dst
    ensures i0 < i <= |text| && n <= i && Unread(src, text, i)
    ensures Parse(text, i0).Then? && Parse(text, i0).rest == Parse(text, i)
    ensures dst[..n] == EmitOn(Parse(text, i0), old(dst[..n0]), star)
  {
    var c := src[i0];
    i, n := i0 + 1, n0;
    if c == LBRACKET {
      i, n := CompileBracket(src, dst, i, n, text);
      return;
    }
    ParseOne(text, i0);
    if c == STAR {
      if n == 0 || dst[n - 1] != M_ALL {
        n := Put(src, dst, n, M_ALL, text, i);
      }
    } else {
      n := Put(src, dst, n, if c == QUESTION then M_ONE else Plain(c), text, i);
    }
  }

  /** The compilation in `glob0`, from `src` to `dst`.  They may be the same array, as they
      are after tilde expansion. */
  method Compile(src: array<Char>, dst: array<Char>, ghost text: Text) returns (n: nat)
    requires Unread(src, text, 0) && |text| < dst.Length
    modifies dst
    ensures n <= |text| && dst[..n] == Emit(Parse(text, 0), false) && dst[n] == EOS
  {
    var i := 0;
    n := 0;
    ghost var star, all := false, Emit(Parse(text, 0), false);
    Beginning(dst[..n], Parse(text, 0));
    while src[i] != EOS
      invariant Halfway(src, dst, text, i, n, star, all)
      decreases |text| - i
    {
      i, n, star := CompileNext(src, dst, i, n, text, star, all);
    }
    Finished(src, dst, text, i, n, star, all);
    dst[n] := EOS;
  }

  /** The text up to `i` has been compiled to the first `n` characters of `dst`. */
  ghost predicate Halfway(src: array<Char>, dst: array<Char>, text: Text, i: nat, n: nat, star: bool, all: seq<Char>)
    reads src, dst
  {
    && n <= i <= |text| < dst.Length && Unread(src, text, i)
    && Progress(dst[..n], Parse(text, i), star, all)
  }

  lemma Finished(src: array<Char>, dst: array<Char>, text: Text, i: nat, n: nat, star: bool, all: seq<Char>)
    requires Halfway(src, dst, text, i, n, star, all) && src[i] == EOS
    ensures dst[..n] == all
  {
    assert At(text, i) == EOS;
    assert Parse(text, i) == End;
  }

  /** One round of the compilation. */
  method CompileNext(src: array<Char>, dst: array<Char>, i0: nat, n0: nat, ghost text: Text, ghost star: bool,
                     ghost all: seq<Char>) returns (i: nat, n: nat, ghost next: bool)
    requires Halfway(src, dst, text, i0, n0, star, all) && i0 < |text|
    modifies dst
    ensures i0 < i && Halfway(src, dst, text, i, n, next, all)
  {
    ghost var p, out := Parse(text, i0), dst[..n0];
    PlainRead(text, i0);
    EmitStep(p, out, star, all);
    i, n := CompileToken(src, dst, i0, n0, text, star);
    next := p.t == Star;
  }
}
