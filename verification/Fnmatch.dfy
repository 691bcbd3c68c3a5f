/** The pattern matcher of fnmatch.c. */
module Fnmatch {
  import opened Bytes

  const SLASH: byte := 47
  const ESCAPE: byte := 92

  /** The flags FNM_NOESCAPE, FNM_PATHNAME, FNM_LEADING_DIR and FNM_CASEFOLD. */
  datatype Flags = Flags(noescape: bool, pathname: bool, leadingDir: bool, casefold: bool)

  /** The byte at a position; at its end the string reads as zero. */
  function At(s: CString, i: nat): byte {
    if i < |s| then s[i] else NUL
  }

  /** `tolower` in the C locale. */
  function Lower(c: byte): byte {
    if 65 <= c <= 90 then c + 32 else c
  }

  /** The value of a byte as a `char`, which is signed. */
  function Char(c: byte): int {
    if c < 128 then c else c - 256
  }

  // ----- patterns -----

  datatype Range = Range(lo: byte, hi: byte)

  /** `Never` is a bracket expression with a slash in it, where slashes are matched explicitly. */
  datatype Token = Any | Star | Lit(c: byte) | Set(negate: bool, ranges: seq<Range>) | Never

  datatype Pattern = End | Then(t: Token, rest: Pattern)

  function Folded(c: byte, fl: Flags): byte {
    if fl.casefold then Lower(c) else c
  }

  predicate InRange(r: Range, c: byte, fl: Flags) {
    Char(Folded(r.lo, fl)) <= Char(Folded(c, fl)) <= Char(Folded(r.hi, fl))
  }

  predicate InRanges(rs: seq<Range>, c: byte, fl: Flags) {
    exists r :: r in rs && InRange(r, c, fl)
  }

  /** A token other than a star matches a character. */
  predicate Fits(t: Token, c: byte, fl: Flags) {
    match t
    case Any => !(fl.pathname && c == SLASH)
    case Star => false
    case Lit(d) => Folded(d, fl) == Folded(c, fl)
    case Set(negate, rs) => !(fl.pathname && c == SLASH) && InRanges(rs, c, fl) != negate
    case Never => false
  }

  ghost predicate NoSlash(s: CString, i: nat, j: nat)
    requires j <= |s|
  {
    forall k :: i <= k < j ==> s[k] != SLASH
  }

  /** The characters from `j` to `k` can be taken by a star. */
  ghost predicate Run(s: CString, j: nat, k: nat, fl: Flags) {
    j <= k <= |s| && (fl.pathname ==> NoSlash(s, j, k))
  }

  /** The pattern matches the string from `j` on: each star takes a run of its choice. */
  ghost predicate Matches(p: Pattern, s: CString, j: nat, fl: Flags)
    requires j <= |s|
    decreases p
  {
    match p
    case End => j == |s| || (fl.leadingDir && s[j] == SLASH)
    case Then(Star, r) => exists k :: Run(s, j, k, fl) && Matches(r, s, k, fl)
    case Then(t, r) => j < |s| && Fits(t, s[j], fl) && Matches(r, s, j + 1, fl)
  }

  // ----- reading a pattern -----

  /** What a bracket expression turns out to be, and where the pattern goes on behind it. */
  datatype Bracket = Unclosed | Slashed | Closed(ranges: seq<Range>, next: nat)

  /** The character at `i`, which a backslash may quote, and the position after it. */
  function Quoted(p: CString, i: nat, fl: Flags): (r: (byte, nat))
    ensures r.0 != NUL ==> i < r.1 <= |p|
  {
    if At(p, i) == ESCAPE && !fl.noescape then (At(p, i + 1), i + 2) else (At(p, i), i + 1)
  }

  /** One item of a bracket expression: a character or a range. */
  datatype ItemResult = NoItem | SlashItem | Item(r: Range, next: nat)

  function ItemAt(p: CString, i: nat, fl: Flags): (it: ItemResult)
    ensures it.Item? ==> i < it.next <= |p|
  {
    var (c, j) := Quoted(p, i, fl);
    if c == NUL then NoItem
    else if c == SLASH && fl.pathname then SlashItem
    else if At(p, j) == 45 && At(p, j + 1) != NUL && At(p, j + 1) != 93 then
      var (c2, k) := Quoted(p, j + 1, fl);
      if c2 == NUL then NoItem else Item(Range(c, c2), k)
    else Item(Range(c, c), j)
  }

  /** The items of a bracket expression from `i` on; there is at least one. */
  function Items(p: CString, i: nat, fl: Flags): (r: Bracket)
    ensures r.Closed? ==> i < r.next <= |p|
    decreases |p| - i
  {
    match ItemAt(p, i, fl)
    case NoItem => Unclosed
    case SlashItem => Slashed
    case Item(r, j) => More(p, i, j, r, fl)
  }

  /** After an item: the closing bracket or another item. */
  function More(p: CString, i: nat, j: nat, r: Range, fl: Flags): (b: Bracket)
    requires i < j <= |p|
    ensures b.Closed? ==> i < b.next <= |p|
    decreases |p| - i, 0
  {
    if At(p, j) == 93 then Closed([r], j + 1)
    else
      match Items(p, j, fl)
      case Closed(rs, n) => Closed([r] + rs, n)
      case b => b
  }

  predicate Negated(c: byte) {
    c == 33 || c == 94
  }

  function Parse(p: CString, i: nat, fl: Flags): Pattern
    decreases |p| - i
  {
    var c := At(p, i);
    if c == NUL then End
    else if c == 63 then Then(Any, Parse(p, i + 1, fl))
    else if c == 42 then Then(Star, Parse(p, i + 1, fl))
    else if c == 91 then
      var negate := Negated(At(p, i + 1));
      match Items(p, if negate then i + 2 else i + 1, fl)
      case Closed(rs, n) => Then(Set(negate, rs), Parse(p, n, fl))
      case Slashed => Then(Never, End)
      case Unclosed => Then(Lit(91), Parse(p, i + 1, fl))
    else if c == ESCAPE && !fl.noescape && At(p, i + 1) != NUL then Then(Lit(At(p, i + 1)), Parse(p, i + 2, fl))
    else Then(Lit(c), Parse(p, i + 1, fl))
  }

  // ----- the shortcuts for stars -----

  /** Adjacent stars are as good as one. */
  lemma StarStar(r: Pattern, s: CString, j: nat, fl: Flags)
    requires j <= |s|
    ensures Matches(Then(Star, Then(Star, r)), s, j, fl) <==> Matches(Then(Star, r), s, j, fl)
  {
    var one := Then(Star, r);
    if Matches(one, s, j, fl) {
      assert Run(s, j, j, fl);
    }
    if Matches(Then(Star, one), s, j, fl) {
      var k: nat :| Run(s, j, k, fl) && Matches(one, s, k, fl);
      var m: nat :| Run(s, k, m, fl) && Matches(r, s, m, fl);
      assert Run(s, j, m, fl);
    }
  }

  /** A star at the end of the pattern. */
  lemma StarEnd(s: CString, j: nat, fl: Flags, f: nat)
    requires j <= f <= |s| && NoSlash(s, j, f) && (f < |s| ==> s[f] == SLASH)
    ensures Matches(Then(Star, End), s, j, fl) <==> !fl.pathname || fl.leadingDir || f == |s|
  {
    if !fl.pathname {
      assert Run(s, j, |s|, fl) && Matches(End, s, |s|, fl);
    } else if fl.leadingDir || f == |s| {
      assert Run(s, j, f, fl) && Matches(End, s, f, fl);
    }
  }

  /** A star before a slash, where slashes are matched explicitly: it must take everything up
      to the next slash. */
  lemma StarSlash(r: Pattern, s: CString, j: nat, fl: Flags, f: nat)
    requires j <= f <= |s| && NoSlash(s, j, f) && (f < |s| ==> s[f] == SLASH) && fl.pathname
    ensures Matches(Then(Star, Then(Lit(SLASH), r)), s, j, fl) <==> f < |s| && Matches(Then(Lit(SLASH), r), s, f, fl)
  {
    var q := Then(Lit(SLASH), r);
    if Matches(Then(Star, q), s, j, fl) {
      var k: nat :| Run(s, j, k, fl) && Matches(q, s, k, fl);
      assert s[k] == SLASH;
      assert k == f;
    }
    if f < |s| && Matches(q, s, f, fl) {
      assert Run(s, j, f, fl);
    }
  }

  /** A run for a star of the general kind ends before the end of the string and, where slashes
      are matched explicitly, no later than at the next slash. */
  lemma StarRun(r: Pattern, s: CString, j: nat, fl: Flags, e: nat)
    requires r.Then? && r.t != Star && Run(s, j, e, fl) && (e == |s| || (fl.pathname && s[e] == SLASH))
    requires forall k :: j <= k <= e && k < |s| ==> !Matches(r, s, k, fl)
    ensures !Matches(Then(Star, r), s, j, fl)
  {
    if Matches(Then(Star, r), s, j, fl) {
      var k: nat :| Run(s, j, k, fl) && Matches(r, s, k, fl);
    }
  }

  // ----- the matcher -----

  /** The next slash from `j` on, or the end. */
  function SlashFrom(s: CString, j: nat): (f: nat)
    requires j <= |s|
    ensures j <= f <= |s| && (forall k :: j <= k < f ==> s[k] != SLASH) && (f < |s| ==> s[f] == SLASH)
    decreases |s| - j
  {
    if j == |s| || s[j] == SLASH then j else SlashFrom(s, j + 1)
  }

  method Strchr(s: CString, j: nat) returns (f: nat)
    requires j <= |s|
    ensures f == SlashFrom(s, j) && NoSlash(s, j, f)
  {
    f := j;
    while At(s, f) != NUL && At(s, f) != SLASH
      invariant j <= f <= |s| && SlashFrom(s, f) == SlashFrom(s, j)
      decreases |s| - f
    {
      f := f + 1;
    }
  }

  /** Whether a leading period at `j` must be matched by a period. */
  predicate Leading(s: CString, start: nat, j: nat, fl: Flags, period: bool)
    requires j <= |s|
  {
    At(s, j) == 46 && period && (j == start || (fl.pathname && j > 0 && s[j - 1] == SLASH))
  }

  /** The position behind the stars at `i`. */
  function AfterStars(p: CString, i: nat): (q: nat)
    requires i <= |p|
    ensures i <= q <= |p| && At(p, q) != 42 && (At(p, i) == 42 ==> i < q)
    decreases |p| - i
  {
    if At(p, i) == 42 then AfterStars(p, i + 1) else i
  }

  /** The position behind the token at `i`. */
  function TokenEnd(p: CString, i: nat, fl: Flags): (q: nat)
    requires i < |p|
    ensures i < q <= |p|
  {
    if p[i] == 91 then
      match Items(p, if Negated(At(p, i + 1)) then i + 2 else i + 1, fl)
      case Closed(_, n) => n
      case _ => i + 1
    else if p[i] == ESCAPE && !fl.noescape && At(p, i + 1) != NUL then i + 2
    else i + 1
  }

  /** With FNM_PERIOD: before the first star that needs recursion, a question mark, a star or a
      bracket meets a leading period. */
  predicate Blocked(pattern: CString, p: nat, s: CString, start: nat, j: nat, fl: Flags)
    requires p <= |pattern| && j <= |s|
    decreases |pattern| - p
  {
    if p == |pattern| then false
    else if pattern[p] == 42 then
      || Leading(s, start, j, fl, true)
      || (&& fl.pathname && At(pattern, AfterStars(pattern, p)) == SLASH && SlashFrom(s, j) < |s|
          && Blocked(pattern, AfterStars(pattern, p), s, start, SlashFrom(s, j), fl))
    else
      || ((pattern[p] == 63 || pattern[p] == 91) && Leading(s, start, j, fl, true))
      || (j < |s| && Blocked(pattern, TokenEnd(pattern, p, fl), s, start, j + 1, fl))
  }

  datatype RangeResult = RangeMatch(next: nat) | RangeNomatch | RangeError

  /** What a bracket expression makes of a character. */
  function RangeOf(b: Bracket, negate: bool, c: byte, fl: Flags): RangeResult {
    match b
    case Unclosed => RangeError
    case Slashed => RangeNomatch
    case Closed(rs, n) => if InRanges(rs, c, fl) != negate then RangeMatch(n) else RangeNomatch
  }

  /** `rangematch`, on the pattern behind the opening bracket. */
  method Rangematch(p: CString, start: nat, test: byte, fl: Flags) returns (r: RangeResult)
    requires start <= |p|
    ensures r ==
      RangeOf(Items(p, if Negated(At(p, start)) then start + 1 else start, fl), Negated(At(p, start)), test, fl)
  {
    var i := start;
    var negate := Negated(At(p, i));
    if negate {
      i := i + 1;
    }
    ghost var all := Items(p, i, fl);
    ghost var seen: seq<Range> := [];
    var ok := false;
    while true
      invariant i <= |p| && Rest(all, seen, Items(p, i, fl)) && ok == InRanges(seen, test, fl)
      decreases |p| - i
    {
      var it := ItemAt(p, i, fl);
      if it.NoItem? {
        return RangeError;
      }
      if it.SlashItem? {
        return RangeNomatch;
      }
      OneMore(seen, it.r, test, fl);
      RestMore(all, seen, p, i, it.next, it.r, fl);
      if InRange(it.r, test, fl) {
        ok := true;
      }
      i, seen := it.next, seen + [it.r];
      if At(p, i) == 93 {
        break;
      }
    }
    return if ok == negate then RangeNomatch else RangeMatch(i + 1);
  }

  /** After the items `seen`, `rest` is what remains of the bracket expression `all`. */
  ghost predicate Rest(all: Bracket, seen: seq<Range>, rest: Bracket) {
    match rest
    case Closed(rs, n) => all == Closed(seen + rs, n)
    case _ => all == rest
  }

  lemma OneMore(seen: seq<Range>, r: Range, c: byte, fl: Flags)
    ensures InRanges(seen + [r], c, fl) <==> InRanges(seen, c, fl) || InRange(r, c, fl)
  {
    if InRange(r, c, fl) {
      assert r in seen + [r];
    }
    if InRanges(seen, c, fl) {
      var q :| q in seen && InRange(q, c, fl);
      assert q in seen + [r];
    }
  }

  lemma RestMore(all: Bracket, seen: seq<Range>, p: CString, i: nat, j: nat, r: Range, fl: Flags)
    requires i < j <= |p| && Rest(all, seen, More(p, i, j, r, fl))
    ensures At(p, j) == 93 ==> all == Closed(seen + [r], j + 1)
    ensures At(p, j) != 93 ==> Rest(all, seen + [r], Items(p, j, fl))
  {
    if At(p, j) != 93 && Items(p, j, fl).Closed? {
      var b := Items(p, j, fl);
      assert seen + ([r] + b.ranges) == seen + [r] + b.ranges;
    }
  }

  const NOMATCH := 1

  /** `fnmatch` of the pattern from `p0` on and the string from `s0` on; `period` is
      FNM_PERIOD. */
  method Match(pattern: CString, p0: nat, s: CString, s0: nat, fl: Flags, period: bool) returns (r: int)
    requires p0 <= |pattern| && s0 <= |s|
    ensures r == 0 || r == NOMATCH
    ensures r == 0 <==>
      Matches(Parse(pattern, p0, fl), s, s0, fl) && !(period && Blocked(pattern, p0, s, s0, s0, fl))
    decreases |pattern| - p0, 1
  {
    var p, j := p0, s0;
    while true
      invariant p0 <= p <= |pattern| && s0 <= j <= |s|
      invariant Matches(Parse(pattern, p0, fl), s, s0, fl) <==> Matches(Parse(pattern, p, fl), s, j, fl)
      invariant period ==> (Blocked(pattern, p0, s, s0, s0, fl) <==> Blocked(pattern, p, s, s0, j, fl))
      decreases |pattern| - p
    {
      var c := At(pattern, p);
      if c == NUL {
        if fl.leadingDir && At(s, j) == SLASH {
          return 0;
        }
        return if At(s, j) == NUL then 0 else NOMATCH;
      } else if c == 42 {
        p := SkipStars(pattern, p, s, j, fl);
        if Leading(s, s0, j, fl, period) {
          return NOMATCH;
        }
        if At(pattern, p) == NUL {
          var f := Strchr(s, j);
          StarEnd(s, j, fl, f);
          return if !fl.pathname || fl.leadingDir || f == |s| then 0 else NOMATCH;
        } else if At(pattern, p) == SLASH && fl.pathname {
          var f := Strchr(s, j);
          StarSlash(Parse(pattern, p + 1, fl), s, j, fl, f);
          if f == |s| {
            return NOMATCH;
          }
          j := f;
        } else {
          r := TryRuns(pattern, p, s, j, fl);
          return;
        }
      } else {
        if (c == 63 || c == 91) && Leading(s, s0, j, fl, period) {
          return NOMATCH;
        }
        var next := MatchOne(pattern, p, s, j, fl);
        if next.None? {
          return NOMATCH;
        }
        p, j := next.p, j + 1;
      }
    }
  }

  /** The position in the pattern after a token that matched, if it did. */
  datatype Next = None | Next(p: nat)

  ghost predicate Advances(pattern: CString, p: nat, s: CString, j: nat, fl: Flags, next: Next)
    requires p < |pattern| && j <= |s|
  {
    match next
    case None => !Matches(Parse(pattern, p, fl), s, j, fl)
    case Next(q) =>
      && p < q == TokenEnd(pattern, p, fl) <= |pattern| && j < |s|
      && (Matches(Parse(pattern, p, fl), s, j, fl) <==> Matches(Parse(pattern, q, fl), s, j + 1, fl))
  }

  /** The cases for a question mark, a bracket, a backslash and an ordinary character. */
  method MatchOne(pattern: CString, p: nat, s: CString, j: nat, fl: Flags) returns (next: Next)
    requires p < |pattern| && pattern[p] != 42 && j <= |s|
    ensures Advances(pattern, p, s, j, fl, next)
  {
    if pattern[p] == 63 {
      if At(s, j) == NUL || (At(s, j) == SLASH && fl.pathname) {
        return None;
      }
      return Next(p + 1);
    } else if pattern[p] == 91 {
      next := MatchSet(pattern, p, s, j, fl);
    } else {
      var c, q := pattern[p], p + 1;
      if c == ESCAPE && !fl.noescape && At(pattern, q) != NUL {
        c, q := pattern[q], q + 1;
      }
      assert Parse(pattern, p, fl) == Then(Lit(c), Parse(pattern, q, fl));
      if Differ(c, At(s, j), fl) {
        return None;
      }
      return Next(q);
    }
  }

  predicate Differ(c: byte, d: byte, fl: Flags) {
    c != d && !(fl.casefold && Lower(c) == Lower(d))
  }

  method MatchSet(pattern: CString, p: nat, s: CString, j: nat, fl: Flags) returns (next: Next)
    requires p < |pattern| && pattern[p] == 91 && j <= |s|
    ensures Advances(pattern, p, s, j, fl, next)
  {
    if At(s, j) == NUL || (At(s, j) == SLASH && fl.pathname) {
      SetNeedsCharacter(pattern, p, s, j, fl);
      return None;
    }
    var b := Rangematch(pattern, p + 1, s[j], fl);
    match b
    case RangeError => return if Differ(91, s[j], fl) then None else Next(p + 1);
    case RangeMatch(n) => return Next(n);
    case RangeNomatch => return None;
  }

  lemma SetNeedsCharacter(pattern: CString, p: nat, s: CString, j: nat, fl: Flags)
    requires p < |pattern| && pattern[p] == 91 && j <= |s|
    requires At(s, j) == NUL || (At(s, j) == SLASH && fl.pathname)
    ensures !Matches(Parse(pattern, p, fl), s, j, fl)
  {
  }

  /** The loop that collapses stars. */
  method SkipStars(pattern: CString, start: nat, s: CString, j: nat, fl: Flags) returns (p: nat)
    requires start < |pattern| && pattern[start] == 42 && j <= |s|
    ensures start < p == AfterStars(pattern, start)
    ensures Matches(Parse(pattern, start, fl), s, j, fl) <==> Matches(Then(Star, Parse(pattern, p, fl)), s, j, fl)
  {
    p := start + 1;
    while At(pattern, p) == 42
      invariant start < p <= |pattern| && AfterStars(pattern, p) == AfterStars(pattern, start)
      invariant Matches(Parse(pattern, start, fl), s, j, fl) <==> Matches(Then(Star, Parse(pattern, p, fl)), s, j, fl)
      decreases |pattern| - p
    {
      StarStar(Parse(pattern, p + 1, fl), s, j, fl);
      p := p + 1;
    }
  }

  /** The general case of a star: the rest of the pattern is tried at one position after
      another, without the demand on leading periods. */
  method TryRuns(pattern: CString, p: nat, s: CString, start: nat, fl: Flags) returns (r: int)
    requires p < |pattern| && pattern[p] != 42 && start <= |s|
    ensures r == 0 || r == NOMATCH
    ensures r == 0 <==> Matches(Then(Star, Parse(pattern, p, fl)), s, start, fl)
    decreases |pattern| - p, 2
  {
    ghost var rest := Parse(pattern, p, fl);
    var j := start;
    while At(s, j) != NUL
      invariant Run(s, start, j, fl)
      invariant forall k :: start <= k < j ==> !Matches(rest, s, k, fl)
      decreases |s| - j
    {
      var m := Match(pattern, p, s, j, fl, false);
      if m == 0 {
        assert Run(s, start, j, fl) && Matches(rest, s, j, fl);
        return 0;
      }
      if s[j] == SLASH && fl.pathname {
        break;
      }
      j := j + 1;
    }
    StarRun(rest, s, start, fl, j);
    return NOMATCH;
  }

  // ----- pieces of the string -----

  datatype Pieces = Nil | Cons(w: seq<byte>, rest: Pieces)

  function Join(ps: Pieces): seq<byte> {
    match ps
    case Nil => []
    case Cons(w, r) => w + Join(r)
  }

  /** One piece for each token: any run for a star, and a character that fits otherwise. */
  ghost predicate Assigns(p: Pattern, ps: Pieces, fl: Flags) {
    match p
    case End => ps.Nil?
    case Then(Star, r) => ps.Cons? && (fl.pathname ==> SLASH !in ps.w) && Assigns(r, ps.rest, fl)
    case Then(t, r) => ps.Cons? && |ps.w| == 1 && Fits(t, ps.w[0], fl) && Assigns(r, ps.rest, fl)
  }

  ghost predicate Covers(w: seq<byte>, s: seq<byte>, fl: Flags) {
    w == s || (fl.leadingDir && w + [SLASH] <= s)
  }

  ghost predicate Composes(p: Pattern, s: seq<byte>, fl: Flags) {
    exists ps :: Assigns(p, ps, fl) && Covers(Join(ps), s, fl)
  }

  lemma MatchesIffComposes(p: Pattern, s: CString, fl: Flags)
    ensures Matches(p, s, 0, fl) <==> Composes(p, s, fl)
  {
    assert s[0..] == s;
    if Matches(p, s, 0, fl) {
      var ps := PiecesOf(p, s, 0, fl);
    }
    if Composes(p, s, fl) {
      var ps :| Assigns(p, ps, fl) && Covers(Join(ps), s, fl);
      PiecesMatch(p, s, 0, fl, ps);
    }
  }

  lemma {:induction false} PiecesOf(p: Pattern, s: CString, j: nat, fl: Flags) returns (ps: Pieces)
    requires j <= |s| && Matches(p, s, j, fl)
    ensures Assigns(p, ps, fl) && Covers(Join(ps), s[j..], fl)
    decreases p
  {
    if p.End? {
      return Nil;
    }
    var k: nat := j + 1;
    if p.t == Star {
      k :| Run(s, j, k, fl) && Matches(p.rest, s, k, fl);
    }
    var qs := PiecesOf(p.rest, s, k, fl);
    CoversMore(s[j..k], Join(qs), s[k..], fl);
    assert s[j..k] + s[k..] == s[j..];
    return Cons(s[j..k], qs);
  }

  lemma CoversMore(v: seq<byte>, w: seq<byte>, s: seq<byte>, fl: Flags)
    ensures Covers(v + w, v + s, fl) <==> Covers(w, s, fl)
  {
    assert v + w == v + s ==> w == (v + w)[|v|..] == (v + s)[|v|..] == s;
    assert v + w + [SLASH] == v + (w + [SLASH]);
    assert v + (w + [SLASH]) <= v + s ==> w + [SLASH] == (v + (w + [SLASH]))[|v|..] <= (v + s)[|v|..] == s;
  }

  lemma {:induction false} PiecesMatch(p: Pattern, s: CString, j: nat, fl: Flags, ps: Pieces)
    requires j <= |s| && Assigns(p, ps, fl) && Covers(Join(ps), s[j..], fl)
    ensures Matches(p, s, j, fl)
    decreases p
  {
    if p.Then? {
      var k := j + |ps.w|;
      assert ps.w == s[j..][..|ps.w|] == s[j..k];
      assert s[j..] == ps.w + s[k..];
      CoversMore(ps.w, Join(ps.rest), s[k..], fl);
      PiecesMatch(p.rest, s, k, fl, ps.rest);
      if p.t == Star {
        assert Run(s, j, k, fl);
      }
    }
  }
}
