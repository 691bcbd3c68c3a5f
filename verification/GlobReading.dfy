/** How patterns of glob.c are written, and that they are read as they are written. */
module GlobReading {
  import opened Glob

  // ----- writing -----

  /** A pattern as it is written: a character with marks in its upper bits, as a quoted one has
      them, stands for its byte. */
  function Show(p: Pattern): seq<Char> {
    match p
    case End => []
    case Then(t, r) => ShowToken(t) + Show(r)
  }

  /** A star, a question mark, a character, and items in brackets, perhaps with an exclamation mark. */
  function ShowToken(t: Token): seq<Char> {
    match t
    case Star => [42]
    case Any => [63]
    case Lit(c) => [c]
    case Set(negate, items) => (if negate then [91, 33] else [91]) + ShowItems(items) + [93]
  }

  /** Characters, and ranges with a minus sign in them. */
  function ShowItems(items: Items): seq<Char> {
    match items
    case Nil => []
    case Cons(item, r) => ShowItem(item) + ShowItems(r)
  }

  function ShowItem(item: Item): seq<Char> {
    match item
    case One(c) => [c]
    case Span(lo, hi) => [lo, 45, hi]
  }

  // ----- what can be written -----

  function Start(items: Items): Char
    requires items.Cons?
  {
    match items.head
    case One(c) => c
    case Span(lo, _) => lo
  }

  /** A closing bracket can only be the first item, and no range ends with one; a minus sign
      behind a single character can only be the last item. */
  predicate Listed(items: Items, first: bool) {
    items.Cons? ==>
      && Plain(Start(items)) != 0 && (first || Start(items) != 93)
      && (items.head.Span? ==> items.head.hi != 93 && Plain(items.head.hi) != 0)
      && (items.head.One? && items.tail.Cons? && Start(items.tail) == 45 ==> items.tail == Cons(One(45), Nil))
      && Listed(items.tail, false)
  }

  /** Behind an opening bracket the text `w` does not close it: it has no closing bracket but
      perhaps as its first character, or behind an exclamation mark. */
  predicate Unclosing(w: seq<Char>) {
    var k := if |w| > 0 && w[0] == 33 then 2 else 1;
    forall i :: k <= i < |w| ==> w[i] != 93
  }

  /** The token can be written in front of the text `w`. */
  predicate Writable(t: Token, w: seq<Char>) {
    match t
    case Lit(c) => Plain(c) != 0 && c != 42 && c != 63 && (c == 91 ==> Unclosing(w))
    case Set(negate, items) => items.Cons? && Listed(items, true) && (Start(items) == 33 ==> negate)
    case _ => true
  }

  predicate Showable(p: Pattern) {
    match p
    case End => true
    case Then(t, r) => Writable(t, Show(r)) && Showable(r)
  }

  /** The pattern with the bytes of its characters. */
  function Bytes(p: Pattern): Pattern {
    match p
    case End => End
    case Then(t, r) => Then(TokenBytes(t), Bytes(r))
  }

  function TokenBytes(t: Token): Token {
    match t
    case Lit(c) => Lit(c % 256)
    case Set(negate, items) => Set(negate, ItemBytes(items))
    case _ => t
  }

  function ItemBytes(items: Items): Items {
    match items
    case Nil => Nil
    case Cons(One(c), r) => Cons(One(c % 256), ItemBytes(r))
    case Cons(Span(lo, hi), r) => Cons(Span(lo % 256, hi % 256), ItemBytes(r))
  }

  // ----- what is written is read -----

  lemma {:induction false} ItemsShown(s: Text, i: nat, items: Items, first: bool, rest: seq<Char>)
    requires i <= |s| && s[i..] == ShowItems(items) + ([93] + rest) && items.Cons? && Listed(items, first)
    ensures ReadItems(s, i) == Closed(ItemBytes(items), i + |ShowItems(items)| + 1)
    decreases items
  {
    var w, v := ShowItem(items.head), ShowItems(items.tail) + ([93] + rest);
    assert ShowItems(items) + ([93] + rest) == w + v;
    Tail(s, i, w, v);
    assert s[i] == w[0];
    assert items.head.Span? ==> s[i + 1] == w[1] && s[i + 2] == w[2];
    var j := i + |w|;
    assert s[j..][0] == s[j];
    if items.tail == Nil {
      assert v == [93] + rest;
    } else {
      assert s[j] == ShowItems(items.tail)[0] == Start(items.tail);
      ItemsShown(s, j, items.tail, false, rest);
    }
    if items.head.One? && items.tail == Cons(One(45), Nil) {
      assert ShowItems(items.tail) == [45];
      assert s[j + 1] == s[j..][1] == 93;
    }
  }

  lemma SetOpened(s: Text, i: nat, negate: bool, v: seq<Char>)
    requires i <= |s| && s[i..] == (if negate then [91, 33] else [91]) + v && v != [] && (v[0] == 33 ==> negate)
    ensures var j := if negate then i + 2 else i + 1;
      j < |s| && s[i] == 91 && (At(s, i + 1) == 33 <==> negate) && s[j..] == v
  {
    var open: seq<Char> := if negate then [91, 33] else [91];
    Tail(s, i, open, v);
    assert s[i] == open[0] && (negate ==> s[i + 1] == open[1]);
    assert s[i + |open|] == v[0];
  }

  lemma SetShown(s: Text, i: nat, negate: bool, items: Items, rest: seq<Char>)
    requires i <= |s| && s[i..] == (if negate then [91, 33] else [91]) + (ShowItems(items) + ([93] + rest))
    requires items.Cons? && Listed(items, true) && (Start(items) == 33 ==> negate)
    ensures i < |s| && var n := i + (if negate then 2 else 1) + |ShowItems(items)| + 1;
      n <= |s| && Parse(s, i) == Then(Set(negate, ItemBytes(items)), Parse(s, n))
  {
    SetOpened(s, i, negate, ShowItems(items) + ([93] + rest));
    ItemsShown(s, if negate then i + 2 else i + 1, items, true, rest);
  }

  lemma UnclosedShown(s: Text, i: nat, w: seq<Char>)
    requires i < |s| && s[i] == 91 && s[i + 1..] == w && Unclosing(w)
    ensures Parse(s, i) == Then(Lit(91), Parse(s, i + 1))
  {
    assert forall k {:trigger w[k]} :: 0 <= k < |w| ==> s[i + 1 + k] == w[k];
    var j := if At(s, i + 1) == NOT then i + 2 else i + 1;
    ClosedIff(s, j);
    forall k | j < k < |s| ensures s[k] != 93 {
      assert s[k] == w[k - (i + 1)];
    }
  }

  /** The first token of a text is read as it is written. */
  lemma TokenShown(s: Text, i: nat, t: Token, w: seq<Char>, v: seq<Char>)
    requires i <= |s| && w == ShowToken(t) && s[i..] == w + v && Writable(t, v)
    ensures i + |w| <= |s| && s[i + |w|..] == v && i < |s|
    ensures Parse(s, i) == Then(TokenBytes(t), Parse(s, i + |w|))
  {
    Tail(s, i, w, v);
    assert s[i] == w[0];
    if t.Set? {
      var open: seq<Char> := if t.negate then [91, 33] else [91];
      Opening(open, ShowItems(t.items), [93], v);
      SetShown(s, i, t.negate, t.items, v);
    } else if t == Lit(91) {
      UnclosedShown(s, i, v);
    }
  }

  lemma Opening(a: seq<Char>, b: seq<Char>, c: seq<Char>, d: seq<Char>)
    ensures a + b + c + d == a + (b + (c + d))
  {
  }

  /** Reading what is written gives the pattern. */
  lemma {:induction false} ReadShown(s: Text, i: nat, p: Pattern)
    requires i <= |s| && s[i..] == Show(p) && Showable(p)
    ensures Parse(s, i) == Bytes(p)
    decreases p
  {
    if p.Then? {
      var w := ShowToken(p.t);
      TokenShown(s, i, p.t, w, Show(p.rest));
      ReadShown(s, i + |w|, p.rest);
    }
  }

  // ----- every text is written so -----

  lemma {:induction false} ListedItems(s: Text, i: nat, first: bool) returns (items: Items)
    requires i < |s| && ReadItems(s, i).Closed? && (first || s[i] != 93)
    ensures items.Cons? && Listed(items, first) && Start(items) == s[i]
    ensures s[i..] == ShowItems(items) + ([93] + s[ReadItems(s, i).next..])
    decreases |s| - i
  {
    var n := ReadItems(s, i).next;
    var span := At(s, i + 1) == 45 && At(s, i + 2) != 93;
    var item := if span then Span(s[i], s[i + 2]) else One(s[i]);
    var j := if span then i + 3 else i + 1;
    assert s[i..] == ShowItem(item) + s[j..];
    if s[j] == 93 {
      assert s[j..] == [93] + s[j + 1..];
      assert ShowItems(Cons(item, Nil)) == ShowItem(item);
      return Cons(item, Nil);
    }
    var more := ListedItems(s, j, false);
    Grouped(ShowItem(item), ShowItems(more), [93] + s[n..]);
    if !span && s[j] == 45 {
      LastMinus(s, j, more, n);
    }
    items := Cons(item, more);
  }

  lemma Grouped(a: seq<Char>, b: seq<Char>, c: seq<Char>)
    ensures a + b + c == a + (b + c)
  {
  }

  /** A minus sign in front of the closing bracket is the last item. */
  lemma LastMinus(s: Text, j: nat, more: Items, n: nat)
    requires j + 1 < |s| && s[j] == 45 && s[j + 1] == 93 && more.Cons? && Listed(more, false) && Start(more) == 45
    requires n <= |s| && s[j..] == ShowItems(more) + ([93] + s[n..])
    ensures more == Cons(One(45), Nil)
  {
    var w := ShowItems(more) + ([93] + s[n..]);
    assert w[1] == s[j..][1] == 93;
  }

  /** Every text is that of a pattern that can be written. */
  lemma {:induction false} Written(s: Text, i: nat) returns (p: Pattern)
    requires i <= |s|
    ensures Showable(p) && Show(p) == s[i..]
    decreases |s| - i
  {
    if i == |s| {
      return End;
    }
    var t, n := WrittenToken(s, i);
    var r := Written(s, n);
    return Then(t, r);
  }

  lemma WrittenToken(s: Text, i: nat) returns (t: Token, n: nat)
    requires i < |s|
    ensures i < n <= |s| && Writable(t, s[n..]) && ShowToken(t) + s[n..] == s[i..]
  {
    var negate := At(s, i + 1) == 33;
    var j := if negate then i + 2 else i + 1;
    if s[i] == 91 && ReadItems(s, j).Closed? {
      t := WrittenSet(s, i, negate, j);
      return t, ReadItems(s, j).next;
    }
    if s[i] == 91 {
      StaysOpen(s, i, j);
    }
    assert s[i..] == [s[i]] + s[i + 1..];
    return if s[i] == 42 then Star else if s[i] == 63 then Any else Lit(s[i]), i + 1;
  }

  lemma WrittenSet(s: Text, i: nat, negate: bool, j: nat) returns (t: Token)
    requires i < |s| && s[i] == 91 && ReadItems(s, j).Closed?
    requires negate == (At(s, i + 1) == 33) && j == if negate then i + 2 else i + 1
    ensures Writable(t, s[ReadItems(s, j).next..]) && ShowToken(t) + s[ReadItems(s, j).next..] == s[i..]
  {
    ClosedIff(s, j);
    var items := ListedItems(s, j, true);
    var open: seq<Char> := if negate then [91, 33] else [91];
    assert s[i..] == open + s[j..];
    Opening(open, ShowItems(items), [93], s[ReadItems(s, j).next..]);
    return Set(negate, items);
  }

  lemma StaysOpen(s: Text, i: nat, j: nat)
    requires i < |s| && j == (if At(s, i + 1) == 33 then i + 2 else i + 1) && ReadItems(s, j).Unclosed?
    ensures Unclosing(s[i + 1..])
  {
    ClosedIff(s, j);
    var w := s[i + 1..];
    assert forall k {:trigger w[k]} :: 0 <= k < |w| ==> w[k] == s[i + 1 + k];
  }

  // ----- the names that a pattern stands for -----

  /** The numbers from `lo` to `hi`. */
  function Interval(lo: int, hi: int): (r: set<int>)
    ensures forall k :: k in r <==> lo <= k <= hi
    decreases hi - lo
  {
    if lo > hi then {} else {lo} + Interval(lo + 1, hi)
  }

  function ItemSet(items: Items): set<int> {
    match items
    case Nil => {}
    case Cons(One(c), r) => {c as int} + ItemSet(r)
    case Cons(Span(lo, hi), r) => Interval(lo, hi) + ItemSet(r)
  }

  /** The bytes that a token other than a star stands for. */
  function ByteSet(t: Token): set<int> {
    match t
    case Star => {}
    case Any => Interval(1, 255)
    case Lit(c) => {c as int}
    case Set(negate, items) => if negate then Interval(1, 255) - ItemSet(items) else ItemSet(items)
  }

  /** The name is a name of the pattern: one byte for each token, and any number for a star. */
  ghost predicate Names(p: Pattern, name: seq<Char>)
    decreases p
  {
    match p
    case End => name == []
    case Then(Star, r) => exists k :: 0 <= k <= |name| && Names(r, name[k..])
    case Then(t, r) => name != [] && name[0] in ByteSet(t) && Names(r, name[1..])
  }

  lemma {:induction false} HoldsInSet(items: Items, k: Char)
    ensures Holds(items, k) <==> k in ItemSet(items)
  {
    match items
    case Nil =>
    case Cons(One(c), r) => HoldsInSet(r, k);
    case Cons(Span(lo, hi), r) => HoldsInSet(r, k);
  }

  lemma FitsInSet(t: Token, k: Char)
    requires 1 <= k <= 255
    ensures Fits(t, k) <==> k in ByteSet(t)
  {
    if t.Set? {
      HoldsInSet(t.items, k);
    }
  }

  lemma {:induction false} MatchesIffNames(p: Pattern, name: seq<Char>, j: nat)
    requires j <= |name| && IsName(name)
    ensures Matches(p, name, j) <==> Names(p, name[j..])
    decreases p
  {
    if p.End? {
      return;
    }
    if p.t == Star {
      forall k | j <= k <= |name| ensures Matches(p.rest, name, k) <==> Names(p.rest, name[j..][k - j..]) {
        assert name[j..][k - j..] == name[k..];
        MatchesIffNames(p.rest, name, k);
      }
      if Matches(p, name, j) {
        var k: nat :| Run(name, j, k) && Matches(p.rest, name, k);
        assert Names(p.rest, name[j..][k - j..]);
      }
      if Names(p, name[j..]) {
        var m :| 0 <= m <= |name[j..]| && Names(p.rest, name[j..][m..]);
        assert Matches(p.rest, name, j + m) <==> Names(p.rest, name[j..][j + m - j..]);
        assert Run(name, j, j + m);
      }
    } else if j < |name| {
      FitsInSet(p.t, name[j]);
      assert name[j..][1..] == name[j + 1..];
      MatchesIffNames(p.rest, name, j + 1);
    }
  }

  /** Compiling a pattern, in place or not, and matching a name against the result tells whether
      it is a name of the pattern that is written there; some pattern always is. */
  method CompileAndMatch(src: array<Char>, dst: array<Char>, ghost text: Text, name: seq<Char>) returns (ok: bool)
    requires Unread(src, text, 0) && |text| < dst.Length && IsName(name)
    modifies dst
    ensures ok <==> Matches(Parse(text, 0), name, 0)
    ensures exists p :: Showable(p) && Show(p) == text
    ensures forall p :: Showable(p) && Show(p) == text ==> (ok <==> Names(Bytes(p), name))
  {
    var n := Compile(src, dst, text);
    PlainRead(text, 0);
    var pat := dst[..n];
    assert pat[0..] == pat && text[0..] == text && name[0..] == name;
    ok := Match(name, 0, pat, 0, Parse(text, 0));
    ghost var q := Written(text, 0);
    forall p | Showable(p) && Show(p) == text ensures ok <==> Names(Bytes(p), name) {
      ReadShown(text, 0, p);
      MatchesIffNames(Bytes(p), name, 0);
    }
  }
}
