/** How patterns of fnmatch.c are written, and that they are read as they are written, with and
    without FNM_NOESCAPE. */
module FnmatchReading {
  import opened Bytes
  import opened Fnmatch

  // ----- writing -----

  /** A character, with or without a backslash in front. */
  datatype Letter = Letter(quoted: bool, c: byte)

  datatype Member = Single(x: Letter) | Span(x: Letter, y: Letter)

  datatype Members = Empty | List(head: Member, tail: Members)

  /** `Barred` is a bracket expression in which a slash is met; nothing behind it is read. */
  datatype Symbol =
    | Asterisk
    | Question
    | Plain(x: Letter)
    | Brackets(mark: seq<byte>, items: Members)
    | Barred(mark: seq<byte>, items: Members, x: Letter, rest: seq<byte>)

  datatype Writing = Done | And(head: Symbol, tail: Writing)

  function ShowLetter(x: Letter): seq<byte> {
    if x.quoted then [92, x.c] else [x.c]
  }

  function ShowMember(it: Member): seq<byte> {
    match it
    case Single(x) => ShowLetter(x)
    case Span(x, y) => ShowLetter(x) + [45] + ShowLetter(y)
  }

  function ShowMembers(items: Members): seq<byte> {
    match items
    case Empty => []
    case List(it, r) => ShowMember(it) + ShowMembers(r)
  }

  function ShowSymbol(t: Symbol): seq<byte> {
    match t
    case Asterisk => [42]
    case Question => [63]
    case Plain(x) => ShowLetter(x)
    case Brackets(mark, items) => [91] + mark + ShowMembers(items) + [93]
    case Barred(mark, items, x, rest) => [91] + mark + ShowMembers(items) + (ShowLetter(x) + rest)
  }

  function Show(p: Writing): seq<byte> {
    match p
    case Done => []
    case And(t, r) => ShowSymbol(t) + Show(r)
  }

  // ----- what can be written -----

  /** A backslash does not stand for itself unless FNM_NOESCAPE is set. */
  predicate Readable(x: Letter, fl: Flags) {
    x.c != 0 && if x.quoted then !fl.noescape else x.c != 92 || fl.noescape
  }

  /** A character in front of this text would begin a range. */
  predicate Ranging(v: seq<byte>) {
    |v| >= 2 && v[0] == 45 && v[1] != 93
  }

  /** A character that can begin an item; a closing bracket can only as the first of them. */
  predicate Begins(x: Letter, first: bool, fl: Flags) {
    Readable(x, fl) && (first || x != Letter(false, 93)) && !(fl.pathname && x.c == 47)
  }

  /** The items can stand in front of the text `next`. */
  predicate Listed(items: Members, first: bool, next: seq<byte>, fl: Flags) {
    items.List? ==>
      && Begins(items.head.x, first, fl)
      && (items.head.Span? ==> Readable(items.head.y, fl) && items.head.y != Letter(false, 93))
      && (items.head.Single? ==> !Ranging(ShowMembers(items.tail) + next))
      && Listed(items.tail, false, next, fl)
  }

  /** An exclamation mark or a circumflex, or nothing if the text `v` behind begins with neither. */
  predicate Marked(mark: seq<byte>, v: seq<byte>) {
    mark == [33] || mark == [94] || (mark == [] && (v == [] || (v[0] != 33 && v[0] != 94)))
  }

  /** Where the text ends before an item is complete. */
  ghost predicate Incomplete(w: seq<byte>, first: bool, fl: Flags) {
    || w == []
    || (!fl.noescape && w == [92])
    || (!fl.noescape && exists x :: Begins(x, first, fl) && w == ShowLetter(x) + [45, 92])
  }

  /** Behind an opening bracket the text does not close it. */
  ghost predicate Unclosing(w: seq<byte>, fl: Flags) {
    exists mark, items, end :: w == mark + ShowMembers(items) + end && Open(mark, items, end, fl)
  }

  ghost predicate Open(mark: seq<byte>, items: Members, end: seq<byte>, fl: Flags) {
    && Marked(mark, ShowMembers(items) + end) && Listed(items, true, end, fl)
    && Incomplete(end, items.Empty?, fl)
  }

  /** The symbol can stand in front of the text `v`. */
  ghost predicate Writable(t: Symbol, v: seq<byte>, fl: Flags) {
    match t
    case Asterisk => true
    case Question => true
    case Plain(x) =>
      x.c != 0 &&
      if x.quoted then !fl.noescape
      else x.c != 42 && x.c != 63 && (x.c == 92 ==> fl.noescape || v == []) && (x.c == 91 ==> Unclosing(v, fl))
    case Brackets(mark, items) =>
      items.List? && Marked(mark, ShowMembers(items)) && Listed(items, true, [93] + v, fl)
    case Barred(mark, items, x, rest) =>
      && fl.pathname && x.c == 47 && Readable(x, fl) && v == []
      && Marked(mark, ShowMembers(items) + (ShowLetter(x) + rest)) && Listed(items, true, ShowLetter(x) + rest, fl)
  }

  ghost predicate Showable(p: Writing, fl: Flags) {
    match p
    case Done => true
    case And(t, r) => Writable(t, Show(r), fl) && Showable(r, fl)
  }

  // ----- what is meant -----

  function RangesOf(items: Members): seq<Range> {
    match items
    case Empty => []
    case List(Single(x), r) => [Range(x.c, x.c)] + RangesOf(r)
    case List(Span(x, y), r) => [Range(x.c, y.c)] + RangesOf(r)
  }

  function TokenOf(t: Symbol): Token {
    match t
    case Asterisk => Star
    case Question => Any
    case Plain(x) => Lit(x.c)
    case Brackets(mark, items) => Set(mark != [], RangesOf(items))
    case Barred(_, _, _, _) => Never
  }

  function PatternOf(p: Writing): Pattern {
    match p
    case Done => End
    case And(t, r) => Then(TokenOf(t), PatternOf(r))
  }

  // ----- what is written is read -----

  lemma Split(s: seq<byte>, i: nat, a: seq<byte>, b: seq<byte>)
    requires i <= |s| && s[i..] == a + b
    ensures i + |a| <= |s| && s[i + |a|..] == b
    ensures a != [] ==> s[i] == a[0]
  {
    assert s[i + |a|..] == s[i..][|a|..];
    assert a != [] ==> s[i..][0] == s[i];
  }

  lemma LetterRead(s: CString, i: nat, x: Letter, v: seq<byte>, fl: Flags)
    requires i <= |s| && s[i..] == ShowLetter(x) + v && Readable(x, fl)
    ensures Quoted(s, i, fl) == (x.c, i + |ShowLetter(x)|)
    ensures i + |ShowLetter(x)| <= |s| && s[i + |ShowLetter(x)|..] == v
    ensures s[i] == if x.quoted then 92 else x.c
  {
    Split(s, i, ShowLetter(x), v);
    assert x.quoted ==> s[i..][1] == s[i + 1] == x.c;
  }

  lemma SingleRead(s: CString, i: nat, x: Letter, v: seq<byte>, fl: Flags)
    requires i <= |s| && s[i..] == ShowLetter(x) + v && Readable(x, fl) && !(fl.pathname && x.c == 47)
    requires !Ranging(v)
    ensures ItemAt(s, i, fl) == Item(Range(x.c, x.c), i + |ShowLetter(x)|)
  {
    LetterRead(s, i, x, v, fl);
    var j := i + |ShowLetter(x)|;
    assert |v| > 0 ==> s[j] == v[0];
    assert |v| > 1 ==> s[j + 1] == v[1];
  }

  lemma SpanRead(s: CString, i: nat, x: Letter, y: Letter, v: seq<byte>, fl: Flags)
    requires i <= |s| && s[i..] == ShowLetter(x) + ([45] + (ShowLetter(y) + v))
    requires Readable(x, fl) && !(fl.pathname && x.c == 47) && Readable(y, fl) && y != Letter(false, 93)
    ensures var k := i + |ShowLetter(x)| + 1 + |ShowLetter(y)|;
      k <= |s| && s[k..] == v && ItemAt(s, i, fl) == Item(Range(x.c, y.c), k)
  {
    LetterRead(s, i, x, [45] + (ShowLetter(y) + v), fl);
    var j := i + |ShowLetter(x)|;
    Split(s, j, [45], ShowLetter(y) + v);
    LetterRead(s, j + 1, y, v, fl);
  }

  lemma Regroup(a: seq<byte>, b: seq<byte>, c: seq<byte>, d: seq<byte>)
    ensures a + b + c + d == a + (b + (c + d))
  {
  }

  lemma MemberRead(s: CString, i: nat, it: Member, first: bool, v: seq<byte>, fl: Flags)
    requires i <= |s| && s[i..] == ShowMember(it) + v && Begins(it.x, first, fl)
    requires it.Span? ==> Readable(it.y, fl) && it.y != Letter(false, 93)
    requires it.Single? ==> !Ranging(v)
    ensures var k := i + |ShowMember(it)|;
      && i < k <= |s| && s[k..] == v && (first || s[i] != 93)
      && ItemAt(s, i, fl) == Item(Range(it.x.c, if it.Span? then it.y.c else it.x.c), k)
  {
    Split(s, i, ShowMember(it), v);
    match it
    case Single(x) =>
      LetterRead(s, i, x, v, fl);
      SingleRead(s, i, x, v, fl);
    case Span(x, y) =>
      Regroup(ShowLetter(x), [45], ShowLetter(y), v);
      LetterRead(s, i, x, [45] + (ShowLetter(y) + v), fl);
      SpanRead(s, i, x, y, v, fl);
  }

  /** Reading the items, which end at `j`: a closing bracket may follow, or something that
      cannot be read. */
  ghost predicate Passes(s: CString, i: nat, items: Members, j: nat, fl: Flags) {
    && (items.List? && At(s, j) == 93 ==> Items(s, i, fl) == Closed(RangesOf(items), j + 1))
    && ((items.Empty? || At(s, j) != 93) && !Items(s, j, fl).Closed? ==> Items(s, i, fl) == Items(s, j, fl))
  }

  lemma PassOn(s: CString, i: nat, k: nat, items: Members, j: nat, fl: Flags)
    requires i < k <= j <= |s| && items.List? && Passes(s, k, items.tail, j, fl)
    requires ItemAt(s, i, fl) == Item(RangesOf(items)[0], k)
    requires if items.tail.Empty? then k == j else At(s, k) != 93
    ensures Passes(s, i, items, j, fl)
  {
    var r := RangesOf(items)[0];
    assert RangesOf(items) == [r] + RangesOf(items.tail);
    assert Items(s, i, fl) == More(s, i, k, r, fl);
    assert [r] + [] == [r];
  }

  lemma {:induction false} MembersRead(s: CString, i: nat, items: Members, first: bool, next: seq<byte>, j: nat,
                                       fl: Flags)
    requires i <= |s| && s[i..] == ShowMembers(items) + next && Listed(items, first, next, fl)
    requires j == i + |ShowMembers(items)|
    ensures j <= |s| && s[j..] == next && Passes(s, i, items, j, fl)
    ensures items.List? && !first ==> At(s, i) != 93
    decreases items
  {
    if items.List? {
      var k := FirstRead(s, i, items, first, next, fl);
      MembersRead(s, k, items.tail, false, next, j, fl);
      PassOn(s, i, k, items, j, fl);
    }
  }

  lemma FirstRead(s: CString, i: nat, items: Members, first: bool, next: seq<byte>, fl: Flags) returns (k: nat)
    requires i <= |s| && s[i..] == ShowMembers(items) + next && Listed(items, first, next, fl) && items.List?
    ensures i < k <= |s| && s[k..] == ShowMembers(items.tail) + next && Listed(items.tail, false, next, fl)
    ensures k + |ShowMembers(items.tail)| == i + |ShowMembers(items)| && (!first ==> At(s, i) != 93)
    ensures ItemAt(s, i, fl) == Item(RangesOf(items)[0], k)
  {
    var w, v := ShowMember(items.head), ShowMembers(items.tail) + next;
    assert ShowMembers(items) + next == w + v;
    MemberRead(s, i, items.head, first, v, fl);
    return i + |w|;
  }

  /** What cannot be read behind some items spoils the whole. */
  lemma Spoiled(s: CString, i: nat, items: Members, next: seq<byte>, j: nat, b: Bracket, fl: Flags)
    requires i <= |s| && s[i..] == ShowMembers(items) + next && Listed(items, true, next, fl)
    requires j == i + |ShowMembers(items)| && j <= |s|
    requires s[j..] == next ==> Items(s, j, fl) == b && (items.Empty? || At(s, j) != 93)
    requires !b.Closed?
    ensures Items(s, i, fl) == b
  {
    MembersRead(s, i, items, true, next, j, fl);
  }

  /** Where the items start, behind an opening bracket at `i` and the mark. */
  function Inner(i: nat, mark: seq<byte>): nat {
    if mark != [] then i + 2 else i + 1
  }

  ghost predicate OpensAt(s: CString, i: nat, mark: seq<byte>) {
    i < |s| && s[i] == 91 && Negated(At(s, i + 1)) == (mark != [])
  }

  lemma MarkRead(s: CString, i: nat, mark: seq<byte>, v: seq<byte>)
    requires i <= |s| && s[i..] == [91] + mark + v && Marked(mark, v)
    ensures OpensAt(s, i, mark) && Inner(i, mark) <= |s| && s[Inner(i, mark)..] == v
  {
    Split(s, i, [91] + mark, v);
    assert mark != [] ==> s[i + 1] == s[i..][1] == mark[0];
    assert mark == [] && v != [] ==> s[i + 1] == v[0];
  }

  lemma ParseOpen(s: CString, i: nat, mark: seq<byte>, fl: Flags)
    requires OpensAt(s, i, mark)
    ensures var b := Items(s, Inner(i, mark), fl);
      && (b.Closed? ==> Parse(s, i, fl) == Then(Set(mark != [], b.ranges), Parse(s, b.next, fl)))
      && (b.Slashed? ==> Parse(s, i, fl) == Then(Never, End))
      && (b.Unclosed? ==> Parse(s, i, fl) == Then(Lit(91), Parse(s, i + 1, fl)))
  {
  }

  lemma ClosedRead(s: CString, i: nat, items: Members, v: seq<byte>, k: nat, fl: Flags)
    requires i <= |s| && s[i..] == ShowMembers(items) + ([93] + v) && items.List? && k == i + |ShowMembers(items)|
    requires Listed(items, true, [93] + v, fl)
    ensures k < |s| && s[k + 1..] == v && Items(s, i, fl) == Closed(RangesOf(items), k + 1)
  {
    MembersRead(s, i, items, true, [93] + v, k, fl);
    Split(s, k, [93], v);
  }

  /** The symbol at `i` is read, and reading goes on at `n`. */
  ghost predicate Leads(s: CString, i: nat, t: Symbol, n: nat, fl: Flags) {
    Parse(s, i, fl) == Then(TokenOf(t), if t.Barred? then End else Parse(s, n, fl))
  }

  lemma BracketsRead(s: CString, i: nat, mark: seq<byte>, items: Members, v: seq<byte>, n: nat, fl: Flags)
    requires i <= |s| && s[i..] == [91] + mark + (ShowMembers(items) + ([93] + v))
    requires items.List? && Marked(mark, ShowMembers(items) + ([93] + v)) && Listed(items, true, [93] + v, fl)
    requires n == i + 1 + |mark| + |ShowMembers(items)| + 1
    ensures i < n <= |s| && Leads(s, i, Brackets(mark, items), n, fl)
  {
    MarkRead(s, i, mark, ShowMembers(items) + ([93] + v));
    var j := Inner(i, mark);
    ClosedRead(s, j, items, v, n - 1, fl);
    ParseClosed(s, i, mark, items, n, fl);
  }

  lemma ParseClosed(s: CString, i: nat, mark: seq<byte>, items: Members, n: nat, fl: Flags)
    requires OpensAt(s, i, mark) && n <= |s| && Items(s, Inner(i, mark), fl) == Closed(RangesOf(items), n)
    ensures Leads(s, i, Brackets(mark, items), n, fl)
  {
    ParseOpen(s, i, mark, fl);
  }

  lemma BarredRead(s: CString, i: nat, mark: seq<byte>, items: Members, x: Letter, rest: seq<byte>, fl: Flags)
    requires fl.pathname && x.c == 47 && Readable(x, fl)
    requires i <= |s| && s[i..] == [91] + mark + (ShowMembers(items) + (ShowLetter(x) + rest))
    requires Marked(mark, ShowMembers(items) + (ShowLetter(x) + rest))
    requires Listed(items, true, ShowLetter(x) + rest, fl)
    ensures i < |s| && Parse(s, i, fl) == Then(Never, End)
  {
    MarkRead(s, i, mark, ShowMembers(items) + (ShowLetter(x) + rest));
    var v, k := ShowLetter(x) + rest, Inner(i, mark) + |ShowMembers(items)|;
    Split(s, Inner(i, mark), ShowMembers(items), v);
    SlashRead(s, k, x, rest, fl);
    Spoiled(s, Inner(i, mark), items, v, k, Slashed, fl);
    ParseOpen(s, i, mark, fl);
  }

  lemma SlashRead(s: CString, i: nat, x: Letter, rest: seq<byte>, fl: Flags)
    requires i <= |s| && s[i..] == ShowLetter(x) + rest && fl.pathname && x.c == 47 && Readable(x, fl)
    ensures Items(s, i, fl) == Slashed && At(s, i) != 93
  {
    LetterRead(s, i, x, rest, fl);
  }

  lemma IncompleteRead(s: CString, i: nat, end: seq<byte>, first: bool, fl: Flags)
    requires i <= |s| && s[i..] == end && Incomplete(end, first, fl)
    ensures Items(s, i, fl) == Unclosed && (first || At(s, i) != 93)
  {
    if end == [92] && !fl.noescape {
      assert s[i] == end[0];
    } else if end != [] {
      var x :| Begins(x, first, fl) && end == ShowLetter(x) + [45, 92];
      LetterRead(s, i, x, [45, 92], fl);
      var j := i + |ShowLetter(x)|;
      assert s[j] == s[j..][0] && s[j + 1] == s[j..][1];
    }
  }

  lemma OpenRead(s: CString, i: nat, mark: seq<byte>, items: Members, end: seq<byte>, fl: Flags)
    requires i <= |s| && s[i..] == [91] + mark + (ShowMembers(items) + end) && Open(mark, items, end, fl)
    ensures i < |s| && Parse(s, i, fl) == Then(Lit(91), Parse(s, i + 1, fl))
  {
    MarkRead(s, i, mark, ShowMembers(items) + end);
    var k := Inner(i, mark) + |ShowMembers(items)|;
    Split(s, Inner(i, mark), ShowMembers(items), end);
    IncompleteRead(s, k, end, items.Empty?, fl);
    Spoiled(s, Inner(i, mark), items, end, k, Unclosed, fl);
    ParseOpen(s, i, mark, fl);
  }

  lemma UnclosedRead(s: CString, i: nat, w: seq<byte>, fl: Flags)
    requires i <= |s| && s[i..] == [91] + w && Unclosing(w, fl)
    ensures i < |s| && Parse(s, i, fl) == Then(Lit(91), Parse(s, i + 1, fl))
  {
    var mark, items, end :| w == mark + ShowMembers(items) + end && Open(mark, items, end, fl);
    Enclosed([91], mark, ShowMembers(items), end);
    OpenRead(s, i, mark, items, end, fl);
  }

  lemma Enclosed(a: seq<byte>, b: seq<byte>, c: seq<byte>, d: seq<byte>)
    ensures a + (b + c + d) == a + b + (c + d)
  {
  }

  /** The items of a bracket expression have some text, and with it the mark is clear. */
  lemma MarkedMore(mark: seq<byte>, items: Members, v: seq<byte>)
    requires items.List? && Marked(mark, ShowMembers(items))
    ensures Marked(mark, ShowMembers(items) + v)
  {
    var w := ShowMembers(items);
    assert ShowMember(items.head) != [];
    assert w != [] && (w + v)[0] == w[0];
  }

  lemma BracketsSymbol(s: CString, i: nat, mark: seq<byte>, items: Members, w: seq<byte>, v: seq<byte>, n: nat,
                       fl: Flags)
    requires i <= |s| && w == [91] + mark + ShowMembers(items) + [93] && s[i..] == w + v
    requires items.List? && Marked(mark, ShowMembers(items)) && Listed(items, true, [93] + v, fl)
    requires n == i + |w|
    ensures Leads(s, i, Brackets(mark, items), n, fl)
  {
    var inner := ShowMembers(items);
    MarkedMore(mark, items, [93] + v);
    Regroup([91] + mark, inner, [93], v);
    BracketsRead(s, i, mark, items, v, n, fl);
  }

  lemma BarredSymbol(s: CString, i: nat, t: Symbol, w: seq<byte>, v: seq<byte>, n: nat, fl: Flags)
    requires t.Barred? && i <= |s| && w == ShowSymbol(t) && s[i..] == w + v && Writable(t, v, fl)
    ensures v == [] && Leads(s, i, t, n, fl)
  {
    assert w + [] == w;
    BarredRead(s, i, t.mark, t.items, t.x, t.rest, fl);
  }

  /** The first symbol of a text is read as it is written. */
  lemma SymbolRead(s: CString, i: nat, t: Symbol, w: seq<byte>, v: seq<byte>, n: nat, fl: Flags)
    requires i <= |s| && w == ShowSymbol(t) && s[i..] == w + v && Writable(t, v, fl) && n == i + |w|
    ensures i < n <= |s| && s[n..] == v && (t.Barred? ==> v == [])
    ensures Leads(s, i, t, n, fl)
  {
    Split(s, i, w, v);
    match t
    case Brackets(mark, items) => BracketsSymbol(s, i, mark, items, w, v, n, fl);
    case Barred(_, _, _, _) => BarredSymbol(s, i, t, w, v, n, fl);
    case Plain(x) => PlainRead(s, i, x, v, fl);
    case _ =>
  }

  lemma PlainRead(s: CString, i: nat, x: Letter, v: seq<byte>, fl: Flags)
    requires i <= |s| && s[i..] == ShowLetter(x) + v && Writable(Plain(x), v, fl)
    ensures i < |s| && Parse(s, i, fl) == Then(Lit(x.c), Parse(s, i + |ShowLetter(x)|, fl))
  {
    Split(s, i, ShowLetter(x), v);
    if x == Letter(false, 91) {
      UnclosedRead(s, i, v, fl);
    } else if x.quoted {
      assert s[i..][1] == s[i + 1];
    }
  }

  ghost predicate IsRead(s: CString, i: nat, q: Pattern, fl: Flags) {
    Parse(s, i, fl) == q
  }

  lemma ReadOn(s: CString, i: nat, p: Writing, n: nat, fl: Flags)
    requires p.And? && Leads(s, i, p.head, n, fl)
    requires if p.head.Barred? then Show(p.tail) == [] else IsRead(s, n, PatternOf(p.tail), fl)
    ensures IsRead(s, i, PatternOf(p), fl)
  {
    Meant(p, Parse(s, i, fl), Parse(s, n, fl));
  }

  lemma Meant(p: Writing, q: Pattern, r: Pattern)
    requires p.And? && q == Then(TokenOf(p.head), if p.head.Barred? then End else r)
    requires if p.head.Barred? then Show(p.tail) == [] else r == PatternOf(p.tail)
    ensures q == PatternOf(p)
  {
  }

  /** Reading what is written gives what is meant. */
  lemma {:induction false} ReadShown(s: CString, i: nat, p: Writing, fl: Flags)
    requires i <= |s| && s[i..] == Show(p) && Showable(p, fl)
    ensures IsRead(s, i, PatternOf(p), fl)
    decreases p
  {
    if p.And? {
      var n := HeadRead(s, i, p, fl);
      if !p.head.Barred? {
        ReadShown(s, n, p.tail, fl);
      }
      ReadOn(s, i, p, n, fl);
    }
  }

  lemma HeadRead(s: CString, i: nat, p: Writing, fl: Flags) returns (n: nat)
    requires i <= |s| && s[i..] == Show(p) && Showable(p, fl) && p.And?
    ensures Leads(s, i, p.head, n, fl) && n <= |s| && s[n..] == Show(p.tail) && Showable(p.tail, fl)
    ensures p.head.Barred? ==> Show(p.tail) == []
  {
    var w := ShowSymbol(p.head);
    n := i + |w|;
    SymbolRead(s, i, p.head, w, Show(p.tail), n, fl);
  }

  // ----- every text is written so -----

  /** What follows the items, according to what they are read as. */
  ghost predicate Ends(s: CString, b: Bracket, items: Members, first: bool, next: seq<byte>, fl: Flags) {
    match b
    case Closed(_, n) => items.List? && n <= |s| && next == [93] + s[n..]
    case Slashed =>
      fl.pathname && exists x: Letter, rest :: x.c == 47 && Readable(x, fl) && next == ShowLetter(x) + rest
    case Unclosed => Incomplete(next, first && items.Empty?, fl)
  }

  lemma LetterWritten(s: CString, i: nat, fl: Flags) returns (x: Letter)
    requires i <= |s| && Quoted(s, i, fl).0 != NUL
    ensures Readable(x, fl) && x.c == Quoted(s, i, fl).0 && s[i..] == ShowLetter(x) + s[Quoted(s, i, fl).1..]
    ensures s[i] == if x.quoted then 92 else x.c
  {
    if s[i] == ESCAPE && !fl.noescape {
      assert s[i..] == [92, s[i + 1]] + s[i + 2..];
      return Letter(true, s[i + 1]);
    }
    return Letter(false, s[i]);
  }

  /** The item stands at `i`, and `j` is behind it. */
  ghost predicate MemberAt(s: CString, i: nat, it: Member, j: nat, first: bool, fl: Flags) {
    && i <= |s| && j <= |s| && s[i..] == ShowMember(it) + s[j..] && Begins(it.x, first, fl)
    && (it.Span? ==> Readable(it.y, fl) && it.y != Letter(false, 93))
    && (it.Single? ==> !Ranging(s[j..]))
  }

  /** One item. */
  lemma MemberWritten(s: CString, i: nat, first: bool, fl: Flags) returns (it: Member)
    requires i <= |s| && ItemAt(s, i, fl).Item? && (first || At(s, i) != 93)
    ensures MemberAt(s, i, it, ItemAt(s, i, fl).next, first, fl)
  {
    var j := Quoted(s, i, fl).1;
    var x := LetterWritten(s, i, fl);
    if At(s, j) == 45 && At(s, j + 1) != NUL && At(s, j + 1) != 93 {
      it := SpanWritten(s, i, j, x, first, fl);
    } else {
      SingleWritten(s, i, j, x, first, fl);
      it := Single(x);
    }
  }

  lemma SpanWritten(s: CString, i: nat, j: nat, x: Letter, first: bool, fl: Flags) returns (it: Member)
    requires i <= |s| && j < |s| && s[i..] == ShowLetter(x) + s[j..] && Begins(x, first, fl)
    requires At(s, j) == 45 && Quoted(s, j + 1, fl).0 != NUL && At(s, j + 1) != 93
    ensures MemberAt(s, i, it, Quoted(s, j + 1, fl).1, first, fl)
  {
    var y := LetterWritten(s, j + 1, fl);
    var k := Quoted(s, j + 1, fl).1;
    assert s[j..] == [45] + s[j + 1..];
    Regroup(ShowLetter(x), [45], ShowLetter(y), s[k..]);
    return Span(x, y);
  }

  lemma SingleWritten(s: CString, i: nat, j: nat, x: Letter, first: bool, fl: Flags)
    requires i <= |s| && j <= |s| && s[i..] == ShowLetter(x) + s[j..] && Begins(x, first, fl)
    requires !(At(s, j) == 45 && At(s, j + 1) != NUL && At(s, j + 1) != 93)
    ensures MemberAt(s, i, Single(x), j, first, fl)
  {
    var v := s[j..];
    assert |v| > 1 ==> v[0] == s[j] && v[1] == s[j + 1];
  }

  /** No further item can be read. */
  lemma NoMember(s: CString, i: nat, first: bool, fl: Flags)
    requires i <= |s| && !ItemAt(s, i, fl).Item? && (first || At(s, i) != 93)
    ensures Ends(s, Items(s, i, fl), Empty, first, s[i..], fl)
  {
    var (c, j) := Quoted(s, i, fl);
    if c == NUL {
      if i < |s| {
        assert s[i..] == [92];
      }
    } else {
      var x := LetterWritten(s, i, fl);
      if c == SLASH && fl.pathname {
        assert s[i..] == ShowLetter(x) + s[j..];
      } else {
        assert s[j..] == [45, 92];
        assert Begins(x, first, fl) && s[i..] == ShowLetter(x) + [45, 92];
      }
    }
  }

  /** How reading goes on behind an item. */
  lemma AfterMember(s: CString, i: nat, j: nat, it: Member, more: Members, first: bool, next: seq<byte>, fl: Flags)
    requires i < j <= |s| && ItemAt(s, i, fl).Item? && ItemAt(s, i, fl).next == j
    requires if At(s, j) == 93 then more == Empty && next == s[j..] else Ends(s, Items(s, j, fl), more, false, next, fl)
    ensures Ends(s, Items(s, i, fl), List(it, more), first, next, fl)
  {
    var r := ItemAt(s, i, fl).r;
    assert Items(s, i, fl) == More(s, i, j, r, fl);
    if At(s, j) == 93 {
      assert s[j..] == [93] + s[j + 1..];
    }
  }

  lemma {:induction false} MembersWritten(s: CString, i: nat, first: bool, fl: Flags)
    returns (items: Members, next: seq<byte>)
    requires i <= |s| && (first || At(s, i) != 93)
    ensures s[i..] == ShowMembers(items) + next && Listed(items, first, next, fl)
    ensures Ends(s, Items(s, i, fl), items, first, next, fl)
    decreases |s| - i
  {
    if !ItemAt(s, i, fl).Item? {
      NoMember(s, i, first, fl);
      return Empty, s[i..];
    }
    var it := MemberWritten(s, i, first, fl);
    var j := ItemAt(s, i, fl).next;
    var more: Members;
    if At(s, j) == 93 {
      more, next := Empty, s[j..];
    } else {
      more, next := MembersWritten(s, j, false, fl);
    }
    Front(it, more, next, s[j..]);
    AfterMember(s, i, j, it, more, first, next, fl);
    return List(it, more), next;
  }

  lemma Front(it: Member, more: Members, next: seq<byte>, v: seq<byte>)
    requires v == ShowMembers(more) + next
    ensures ShowMembers(List(it, more)) + next == ShowMember(it) + v
  {
    assert ShowMember(it) + ShowMembers(more) + next == ShowMember(it) + (ShowMembers(more) + next);
  }

  /** The text `v` is the symbol with `rest` behind it. */
  ghost predicate Heads(t: Symbol, rest: seq<byte>, v: seq<byte>, fl: Flags) {
    Writable(t, rest, fl) && ShowSymbol(t) + rest == v
  }

  lemma BracketWritten(s: CString, i: nat, fl: Flags) returns (t: Symbol, n: nat)
    requires i < |s| && s[i] == 91
    ensures i < n <= |s| && Heads(t, s[n..], s[i..], fl)
  {
    var mark := if Negated(At(s, i + 1)) then [s[i + 1]] else [];
    var items, next := MembersWritten(s, Inner(i, mark), true, fl);
    MarkWritten(s, i, mark, ShowMembers(items) + next);
    var b := Items(s, Inner(i, mark), fl);
    if b.Closed? {
      n := b.next;
      ClosedWritten(mark, items, s[n..], s[i..], fl);
      t := Brackets(mark, items);
    } else if b.Slashed? {
      n := |s|;
      t := BarredWritten(mark, items, next, s[i..], fl);
    } else {
      n := i + 1;
      OpenWritten(mark, items, next, s[i..], s[n..], fl);
      t := Plain(Letter(false, 91));
    }
  }

  lemma MarkWritten(s: CString, i: nat, mark: seq<byte>, v: seq<byte>)
    requires i < |s| && s[i] == 91 && mark == (if Negated(At(s, i + 1)) then [s[i + 1]] else [])
    requires Inner(i, mark) <= |s| && v == s[Inner(i, mark)..]
    ensures Marked(mark, v) && s[i..] == [91] + mark + v
  {
    assert mark == [] && v != [] ==> s[i + 1] == v[0];
  }

  lemma ClosedWritten(mark: seq<byte>, items: Members, v: seq<byte>, w: seq<byte>, fl: Flags)
    requires w == [91] + mark + (ShowMembers(items) + ([93] + v)) && items.List?
    requires Marked(mark, ShowMembers(items) + ([93] + v)) && Listed(items, true, [93] + v, fl)
    ensures Heads(Brackets(mark, items), v, w, fl)
  {
    var inner := ShowMembers(items);
    Regroup([91] + mark, inner, [93], v);
    assert inner != [] ==> (inner + ([93] + v))[0] == inner[0];
  }

  lemma BarredWritten(mark: seq<byte>, items: Members, next: seq<byte>, w: seq<byte>, fl: Flags) returns (t: Symbol)
    requires w == [91] + mark + (ShowMembers(items) + next)
    requires Marked(mark, ShowMembers(items) + next) && Listed(items, true, next, fl) && fl.pathname
    requires exists x: Letter, rest :: x.c == 47 && Readable(x, fl) && next == ShowLetter(x) + rest
    ensures Heads(t, [], w, fl)
  {
    var x: Letter, rest :| x.c == 47 && Readable(x, fl) && next == ShowLetter(x) + rest;
    t := Barred(mark, items, x, rest);
    Joined([91] + mark, ShowMembers(items), next);
    assert ShowSymbol(t) + [] == ShowSymbol(t);
  }

  lemma Joined(a: seq<byte>, b: seq<byte>, c: seq<byte>)
    ensures a + b + c == a + (b + c)
  {
  }

  lemma OpenWritten(mark: seq<byte>, items: Members, next: seq<byte>, w: seq<byte>, v: seq<byte>, fl: Flags)
    requires w == [91] + mark + (ShowMembers(items) + next) && |w| > 0 && v == w[1..]
    requires Marked(mark, ShowMembers(items) + next) && Listed(items, true, next, fl)
    requires Incomplete(next, items.Empty?, fl)
    ensures Heads(Plain(Letter(false, 91)), v, w, fl)
  {
    assert w == [91] + v;
    Behind(mark, ShowMembers(items), next, v);
    assert Open(mark, items, next, fl);
  }

  lemma Behind(a: seq<byte>, b: seq<byte>, c: seq<byte>, v: seq<byte>)
    requires [91] + v == [91] + a + (b + c)
    ensures v == a + b + c
  {
    assert v == ([91] + v)[1..] == ([91] + a + (b + c))[1..];
  }

  lemma SymbolWritten(s: CString, i: nat, fl: Flags) returns (t: Symbol, n: nat)
    requires i < |s|
    ensures i < n <= |s| && Heads(t, s[n..], s[i..], fl)
  {
    if s[i] == 91 {
      t, n := BracketWritten(s, i, fl);
      return;
    }
    if s[i] == 92 && !fl.noescape && i + 1 < |s| {
      assert s[i..] == [92, s[i + 1]] + s[i + 2..];
      return Plain(Letter(true, s[i + 1])), i + 2;
    }
    assert s[i..] == [s[i]] + s[i + 1..];
    return if s[i] == 42 then Asterisk else if s[i] == 63 then Question else Plain(Letter(false, s[i])), i + 1;
  }

  /** Every text is that of a pattern that can be written. */
  lemma {:induction false} Written(s: CString, i: nat, fl: Flags) returns (p: Writing)
    requires i <= |s|
    ensures Showable(p, fl) && Show(p) == s[i..]
    decreases |s| - i
  {
    if i == |s| {
      return Done;
    }
    var t, n := SymbolWritten(s, i, fl);
    var r := Written(s, n, fl);
    return And(t, r);
  }

  // ----- the strings that a pattern stands for -----

  /** The numbers from `lo` to `hi`. */
  function Interval(lo: int, hi: int): (r: set<int>)
    ensures forall k :: k in r <==> lo <= k <= hi
    decreases hi - lo
  {
    if lo > hi then {} else {lo} + Interval(lo + 1, hi)
  }

  /** A letter in its small form if FNM_CASEFOLD is set. */
  function Small(c: int, fl: Flags): int {
    if fl.casefold && 65 <= c <= 90 then c + 32 else c
  }

  /** The order of bytes is that of signed characters. */
  function Signed(c: int): int {
    if c <= 127 then c else c - 256
  }

  /** The bytes in a range. */
  function RangeBytes(lo: int, hi: int, fl: Flags): set<int> {
    var values := Interval(Signed(Small(lo, fl)), Signed(Small(hi, fl)));
    set k: int | k in Interval(1, 255) && Signed(Small(k, fl)) in values
  }

  function Listing(rs: seq<Range>, fl: Flags): set<int> {
    if rs == [] then {} else RangeBytes(rs[0].lo, rs[0].hi, fl) + Listing(rs[1..], fl)
  }

  /** All bytes that a wildcard can stand for: no slash under FNM_PATHNAME. */
  function AnyByte(fl: Flags): set<int> {
    if fl.pathname then Interval(1, 46) + Interval(48, 255) else Interval(1, 255)
  }

  /** The bytes that a token other than a star stands for. */
  function ByteSet(t: Token, fl: Flags): set<int> {
    match t
    case Star => {}
    case Never => {}
    case Any => AnyByte(fl)
    case Lit(c) =>
      if fl.casefold && 65 <= c <= 90 then {c as int, c + 32}
      else if fl.casefold && 97 <= c <= 122 then {c as int, c - 32}
      else {c as int}
    case Set(negate, rs) => if negate then AnyByte(fl) - Listing(rs, fl) else AnyByte(fl) * Listing(rs, fl)
  }

  /** The string is one of the pattern: a byte for each token, and any number for a star, but no
      slash under FNM_PATHNAME; under FNM_LEADING_DIR a slash and more may follow. */
  ghost predicate Agrees(p: Pattern, s: seq<byte>, fl: Flags)
    decreases p
  {
    match p
    case End => s == [] || (fl.leadingDir && s[0] == 47)
    case Then(Star, r) =>
      exists k :: 0 <= k <= |s| && (fl.pathname ==> 47 !in s[..k]) && Agrees(r, s[k..], fl)
    case Then(t, r) => s != [] && s[0] in ByteSet(t, fl) && Agrees(r, s[1..], fl)
  }

  lemma {:induction false} InListing(rs: seq<Range>, k: byte, fl: Flags)
    requires 1 <= k
    ensures InRanges(rs, k, fl) <==> k in Listing(rs, fl)
  {
    if rs != [] {
      InListing(rs[1..], k, fl);
      assert rs == [rs[0]] + rs[1..];
      assert InRange(rs[0], k, fl) <==> k in RangeBytes(rs[0].lo, rs[0].hi, fl);
      assert InRanges(rs, k, fl) <==> InRange(rs[0], k, fl) || InRanges(rs[1..], k, fl);
    }
  }

  lemma FitsInSet(t: Token, k: byte, fl: Flags)
    requires 1 <= k
    ensures Fits(t, k, fl) <==> k in ByteSet(t, fl)
  {
    if t.Set? {
      InListing(t.ranges, k, fl);
    }
  }

  lemma RunIsSlashless(s: CString, j: nat, k: nat, fl: Flags)
    requires j <= k <= |s|
    ensures Run(s, j, k, fl) <==> (fl.pathname ==> 47 !in s[j..][..k - j])
  {
    var w := s[j..][..k - j];
    assert forall m {:trigger w[m]} :: 0 <= m < |w| ==> w[m] == s[j + m];
    if fl.pathname && 47 !in w {
      forall m | j <= m < k ensures s[m] != SLASH {
        assert w[m - j] == s[m];
      }
    }
  }

  lemma {:induction false} MatchesIffAgrees(p: Pattern, s: CString, j: nat, fl: Flags)
    requires j <= |s|
    ensures Matches(p, s, j, fl) <==> Agrees(p, s[j..], fl)
    decreases p
  {
    if p.End? {
      assert j < |s| ==> s[j..][0] == s[j];
    } else if p.t == Star {
      StarAgrees(p, s, j, fl);
    } else if j < |s| {
      FitsInSet(p.t, s[j], fl);
      assert s[j..][1..] == s[j + 1..];
      MatchesIffAgrees(p.rest, s, j + 1, fl);
    }
  }

  lemma {:induction false} StarAgrees(p: Pattern, s: CString, j: nat, fl: Flags)
    requires j <= |s| && p.Then? && p.t == Star
    ensures Matches(p, s, j, fl) <==> Agrees(p, s[j..], fl)
    decreases p, 0
  {
    if Matches(p, s, j, fl) {
      var k: nat :| Run(s, j, k, fl) && Matches(p.rest, s, k, fl);
      assert s[j..][k - j..] == s[k..];
      RunIsSlashless(s, j, k, fl);
      MatchesIffAgrees(p.rest, s, k, fl);
    }
    if Agrees(p, s[j..], fl) {
      var m :| 0 <= m <= |s[j..]| && (fl.pathname ==> 47 !in s[j..][..m]) && Agrees(p.rest, s[j..][m..], fl);
      assert s[j..][m..] == s[j + m..];
      RunIsSlashless(s, j, j + m, fl);
      MatchesIffAgrees(p.rest, s, j + m, fl);
    }
  }

  /** A pattern without question marks, stars, brackets and, where they quote, backslashes. */
  predicate Ordinary(pattern: seq<byte>, fl: Flags) {
    63 !in pattern && 42 !in pattern && 91 !in pattern && (92 !in pattern || fl.noescape)
  }

  lemma {:induction false} OrdinaryMatches(pattern: CString, i: nat, s: CString, j: nat, fl: Flags)
    requires Ordinary(pattern, fl) && !fl.casefold && !fl.leadingDir && i <= |pattern| && j <= |s|
    ensures Matches(Parse(pattern, i, fl), s, j, fl) <==> s[j..] == pattern[i..]
    ensures !Blocked(pattern, i, s, 0, j, fl)
    decreases |pattern| - i
  {
    if i < |pattern| {
      assert Parse(pattern, i, fl) == Then(Lit(pattern[i]), Parse(pattern, i + 1, fl));
      assert pattern[i..] == [pattern[i]] + pattern[i + 1..];
      if j < |s| {
        assert s[j..] == [s[j]] + s[j + 1..];
        assert s[j..][1..] == s[j + 1..] && pattern[i..][1..] == pattern[i + 1..];
        OrdinaryMatches(pattern, i + 1, s, j + 1, fl);
      }
    }
  }

  /** `fnmatch`: it succeeds exactly if each star can be given a run of characters so that the
      pieces make up the string, or a part of it that a slash follows, and FNM_PERIOD does not
      block it.  What the pattern is follows from how it is written. */
  method Fnmatches(pattern: CString, s: CString, fl: Flags, period: bool) returns (r: int)
    ensures r == 0 || r == NOMATCH
    ensures r == 0 <==> Composes(Parse(pattern, 0, fl), s, fl) && !(period && Blocked(pattern, 0, s, 0, 0, fl))
    ensures exists p :: Showable(p, fl) && Show(p) == pattern
    ensures forall p :: Showable(p, fl) && Show(p) == pattern ==>
      (r == 0 <==> Agrees(PatternOf(p), s, fl) && !(period && Blocked(pattern, 0, s, 0, 0, fl)))
    ensures Ordinary(pattern, fl) && !fl.casefold && !fl.leadingDir ==> (r == 0 <==> s == pattern)
  {
    ghost var p0 := Parse(pattern, 0, fl);
    assert s[0..] == s && pattern[0..] == pattern;
    MatchesIffComposes(p0, s, fl);
    MatchesIffAgrees(p0, s, 0, fl);
    ghost var q := Written(pattern, 0, fl);
    forall p | Showable(p, fl) && Show(p) == pattern ensures PatternOf(p) == p0 {
      ReadShown(pattern, 0, p, fl);
    }
    if Ordinary(pattern, fl) && !fl.casefold && !fl.leadingDir {
      OrdinaryMatches(pattern, 0, s, 0, fl);
    }
    r := Match(pattern, 0, s, 0, fl, period);
  }
}
