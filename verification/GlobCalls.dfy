/** Brace expansion of glob.c, as it works on the text of a pattern. */
module GlobCalls {
  import opened Glob
  import opened GlobBrace

  /** The number of opening braces. */
  function Count(s: seq<Char>): nat {
    if s == [] then 0 else (if s[0] == LBRACE then 1 else 0) + Count(s[1..])
  }

  lemma {:induction false} CountAppend(a: seq<Char>, b: seq<Char>)
    ensures Count(a + b) == Count(a) + Count(b)
  {
    if a == [] {
      assert a + b == b;
    } else {
      assert (a + b)[1..] == a[1..] + b;
      CountAppend(a[1..], b);
    }
  }

  /** Each expansion has fewer opening braces. */
  lemma FewerBraces(s: seq<Char>, ptr: nat, i: nat, j: nat, k: nat)
    requires ptr < i <= j <= k <= |s| && s[ptr] == LBRACE
    ensures Count(s[..ptr] + s[i..j] + s[k..]) < Count(s)
  {
    CountTail(s, 0, ptr);
    CountTail(s, ptr, i);
    CountTail(s, ptr, ptr + 1);
    CountTail(s, ptr + 1, i);
    CountTail(s, i, j);
    CountTail(s, j, k);
    CountAppend(s[..ptr] + s[i..j], s[k..]);
    CountAppend(s[..ptr], s[i..j]);
  }

  lemma CountTail(s: seq<Char>, i: nat, j: nat)
    requires i <= j <= |s|
    ensures Count(s[i..]) == Count(s[i..j]) + Count(s[j..])
  {
    assert s[i..] == s[i..j] + s[j..];
    CountAppend(s[i..j], s[j..]);
  }

  // ----- scanning -----

  /** The first opening brace, or the end. */
  function First(s: seq<Char>, i: nat): (k: nat)
    requires i <= |s|
    ensures i <= k <= |s| && (k < |s| ==> s[k] == LBRACE) && LBRACE !in s[i..k]
    decreases |s| - i
  {
    if i == |s| || s[i] == LBRACE then i
    else
      var k := First(s, i + 1);
      assert s[i..k] == [s[i]] + s[i + 1..k];
      k
  }

  function NextClose(s: seq<Char>, i: nat): (k: nat)
    requires i <= |s|
    ensures i <= k <= |s|
    decreases |s| - i
  {
    if i == |s| || s[i] == RBRACKET then i else NextClose(s, i + 1)
  }

  /** The bracket that closes the one at `i`, or `i` itself if there is none. */
  function Skip(s: seq<Char>, i: nat): (k: nat)
    requires i < |s|
    ensures i <= k < |s|
  {
    var k := NextClose(s, i + 1);
    if k == |s| then i else k
  }

  /** The first position from `i` on, which is `d` braces deep, of the brace that closes it,
      or also, with `comma`, of a comma that is not deeper.  What is in brackets is skipped. */
  function Cut(s: seq<Char>, i: nat, d: nat, comma: bool): (k: nat)
    requires i <= |s|
    ensures i <= k <= |s|
    decreases |s| - i
  {
    if i == |s| then i
    else if s[i] == LBRACKET then Cut(s, Skip(s, i) + 1, d, comma)
    else if s[i] == LBRACE then Cut(s, i + 1, d + 1, comma)
    else if s[i] == RBRACE then if d == 0 then i else Cut(s, i + 1, d - 1, comma)
    else if comma && d == 0 && s[i] == COMMA then i
    else Cut(s, i + 1, d, comma)
  }

  /** The texts that take the place of a brace which is closed at `pe`: the current one starts
      at `pl`, and the scan is at `pm`, `d` braces deep.  With `forget`, as in the code, a
      bracket makes it forget where the current text started. */
  function Texts(s: seq<Char>, pl: nat, pm: nat, d: nat, pe: nat, forget: bool): seq<seq<Char>>
    requires pl <= pm <= |s| && pe < |s|
    decreases |s| - pm
  {
    if pm > pe then []
    else if s[pm] == LBRACKET then Texts(s, if forget then pm else pl, Skip(s, pm) + 1, d, pe, forget)
    else if s[pm] == LBRACE then Texts(s, pl, pm + 1, d + 1, pe, forget)
    else if s[pm] == RBRACE && d > 0 then Texts(s, pl, pm + 1, d - 1, pe, forget)
    else if s[pm] == RBRACE || (s[pm] == COMMA && d == 0) then [s[pl..pm]] + Texts(s, pm + 1, pm + 1, d, pe, forget)
    else Texts(s, pl, pm + 1, d, pe, forget)
  }

  /** Each pattern that is expanded further has fewer than `n` opening braces. */
  ghost predicate Fewer(pre: seq<Char>, ts: seq<seq<Char>>, suf: seq<Char>, n: nat) {
    forall t :: t in ts ==> Count(pre + t + suf) < n
  }

  lemma {:induction false} TextsFewer(s: seq<Char>, ptr: nat, pl: nat, pm: nat, d: nat, pe: nat, forget: bool)
    requires ptr < pl <= pm <= |s| && pe < |s| && s[ptr] == LBRACE
    ensures Fewer(s[..ptr], Texts(s, pl, pm, d, pe, forget), s[pe + 1..], Count(s))
    decreases |s| - pm
  {
    if pm <= pe {
      if s[pm] == LBRACKET {
        TextsFewer(s, ptr, if forget then pm else pl, Skip(s, pm) + 1, d, pe, forget);
      } else if s[pm] == LBRACE {
        TextsFewer(s, ptr, pl, pm + 1, d + 1, pe, forget);
      } else if s[pm] == RBRACE && d > 0 {
        TextsFewer(s, ptr, pl, pm + 1, d - 1, pe, forget);
      } else if s[pm] == RBRACE || (s[pm] == COMMA && d == 0) {
        FewerBraces(s, ptr, pl, pm, pe + 1);
        TextsFewer(s, ptr, pm + 1, pm + 1, d, pe, forget);
      } else {
        TextsFewer(s, ptr, pl, pm + 1, d, pe, forget);
      }
    }
  }

  /** The patterns that `glob0` is called for, in order. */
  function Calls(s: seq<Char>): seq<seq<Char>>
    decreases Count(s), 1, 0
  {
    var ptr := First(s, 0);
    if s == [LBRACE, RBRACE] || ptr == |s| then [s]
    else
      var pe := Cut(s, ptr + 1, 0, false);
      if pe == |s| then [s[..ptr]]
      else
        TextsFewer(s, ptr, ptr + 1, ptr + 1, 0, pe, true);
        CallsOf(s[..ptr], Texts(s, ptr + 1, ptr + 1, 0, pe, true), s[pe + 1..], Count(s))
  }

  function CallsOf(pre: seq<Char>, ts: seq<seq<Char>>, suf: seq<Char>, n: nat): seq<seq<Char>>
    requires Fewer(pre, ts, suf, n)
    decreases n, 0, |ts|
  {
    if ts == [] then [] else Calls(pre + ts[0] + suf) + CallsOf(pre, ts[1..], suf, n)
  }

  lemma NoBraceCalls(s: seq<Char>)
    requires LBRACE !in s
    ensures Calls(s) == [s]
  {
    assert First(s, 0) == |s|;
  }

  // ----- the expansion at work -----

  /** The loop that ignores what is between brackets. */
  method SkipBracket(s: seq<Char>, i: nat) returns (j: nat)
    requires i < |s|
    ensures j == Skip(s, i)
  {
    j := i + 1;
    while j < |s| && s[j] != RBRACKET
      invariant j <= |s| && NextClose(s, j) == NextClose(s, i + 1)
    {
      j := j + 1;
    }
    if j == |s| {
      j := i;
    }
  }

  /** The brace that closes the one in front of `start`, or the end of the text. */
  method FindBrace(s: seq<Char>, start: nat) returns (pe: nat)
    requires start <= |s|
    ensures pe == Cut(s, start, 0, false)
  {
    var i := 0;
    pe := start;
    while pe < |s|
      invariant start <= pe <= |s| && 0 <= i && Cut(s, pe, i, false) == Cut(s, start, 0, false)
      decreases |s| - pe
    {
      if s[pe] == LBRACKET {
        pe := SkipBracket(s, pe);
      } else if s[pe] == LBRACE {
        i := i + 1;
      } else if s[pe] == RBRACE {
        if i == 0 {
          return;
        }
        i := i - 1;
      }
      pe := pe + 1;
    }
  }

  /** A copying loop: `s[from..end]` goes to `at`. */
  method Copy(buf: array<Char>, at: nat, s: seq<Char>, from: nat, end: nat) returns (n: nat)
    requires from <= end <= |s| && at + (end - from) <= buf.Length
    modifies buf
    ensures n == at + (end - from) && buf[..n] == old(buf[..at]) + s[from..end]
  {
    ghost var w := buf[..at];
    var i := from;
    n := at;
    while i < end
      invariant from <= i <= end && n == at + (i - from) && buf[..n] == w + s[from..i]
    {
      assert s[from..i + 1] == s[from..i] + [s[i]];
      buf[n] := s[i];
      i, n := i + 1, n + 1;
    }
  }

  class Globber {
    /** The patterns that `glob0` was called for. */
    var calls: seq<seq<Char>>

    constructor ()
      ensures calls == []
    {
      calls := [];
    }

    /** `glob0`, as far as brace expansion goes. */
    method Glob0(pattern: seq<Char>)
      modifies this
      ensures calls == old(calls) + [pattern]
    {
      calls := calls + [pattern];
    }

    /** `globexp1`. */
    method Expand1(pattern: seq<Char>)
      modifies this
      ensures calls == old(calls) + Calls(pattern)
      decreases Count(pattern), 5
    {
      if pattern == [LBRACE, RBRACE] {
        Glob0(pattern);
        return;
      }
      var ptr := 0;
      while ptr < |pattern| && pattern[ptr] != LBRACE
        invariant ptr <= |pattern| && First(pattern, ptr) == First(pattern, 0)
      {
        ptr := ptr + 1;
      }
      if ptr < |pattern| {
        Expand2(ptr, pattern);
        return;
      }
      Glob0(pattern);
    }

    /** `globexp2`, for the first brace of the pattern.  If it is not closed, only the text in
        front of it is used. */
    method Expand2(ptr: nat, pattern: seq<Char>)
      requires ptr == First(pattern, 0) < |pattern| && pattern != [LBRACE, RBRACE]
      modifies this
      ensures calls == old(calls) + Calls(pattern)
      ensures Cut(pattern, ptr + 1, 0, false) == |pattern| ==> calls == old(calls) + [pattern[..ptr]]
      decreases Count(pattern), 4
    {
      var buf := new Char[|pattern|];
      var ls := Copy(buf, 0, pattern, 0, ptr);
      assert buf[..ls] == pattern[..ptr];
      var pe := FindBrace(pattern, ptr + 1);
      if pe == |pattern| {
        Glob0(buf[..ls]);
        return;
      }
      TextsFewer(pattern, ptr, ptr + 1, ptr + 1, 0, pe, true);
      Alternatives(ptr, pattern, pe, buf);
    }

    /** The loop over the alternatives. */
    method Alternatives(ptr: nat, s: seq<Char>, pe: nat, buf: array<Char>)
      requires ptr < pe < |s| && s[ptr] == LBRACE && buf.Length == |s| && buf[..ptr] == s[..ptr]
      requires Fewer(s[..ptr], Texts(s, ptr + 1, ptr + 1, 0, pe, true), s[pe + 1..], Count(s))
      modifies this, buf
      ensures calls == old(calls) + CallsOf(s[..ptr], Texts(s, ptr + 1, ptr + 1, 0, pe, true), s[pe + 1..], Count(s))
      decreases Count(s), 3
    {
      ghost var ts := Texts(s, ptr + 1, ptr + 1, 0, pe, true);
      ghost var all := calls + CallsOf(s[..ptr], ts, s[pe + 1..], Count(s));
      var pl, pm, i := ptr + 1, ptr + 1, 0;
      while pm <= pe
        invariant ptr < pl <= pm <= |s| && 0 <= i && buf[..ptr] == s[..ptr] && ts == Texts(s, pl, pm, i, pe, true)
        invariant ToCome(s[..ptr], ts, s[pe + 1..], Count(s), calls, all)
        decreases |s| - pm
      {
        pl, pm, i, ts := Turn(ptr, s, pl, pm, i, pe, buf, ts, all);
      }
    }

    /** One character of the alternatives. */
    method Turn(ptr: nat, s: seq<Char>, pl: nat, pm: nat, i: nat, pe: nat, buf: array<Char>,
                ghost ts: seq<seq<Char>>, ghost all: seq<seq<Char>>)
      returns (pl': nat, pm': nat, i': nat, ghost ts': seq<seq<Char>>)
      requires ptr < pl <= pm <= pe < |s| && s[ptr] == LBRACE && buf.Length == |s| && buf[..ptr] == s[..ptr]
      requires ts == Texts(s, pl, pm, i, pe, true) && ToCome(s[..ptr], ts, s[pe + 1..], Count(s), calls, all)
      modifies this, buf
      ensures buf[..ptr] == s[..ptr] && ptr < pl' <= pm' <= |s| && pm < pm' && ts' == Texts(s, pl', pm', i', pe, true)
      ensures ToCome(s[..ptr], ts', s[pe + 1..], Count(s), calls, all)
      decreases Count(s), 2
    {
      pl', pm', i', ts' := pl, pm, i, ts;
      if s[pm] == LBRACKET {
        pl' := pm;
        pm' := SkipBracket(s, pm);
      } else if s[pm] == LBRACE {
        i' := i + 1;
      } else if s[pm] == RBRACE && i > 0 {
        i' := i - 1;
      } else if s[pm] == RBRACE || (s[pm] == COMMA && i == 0) {
        ts' := Texts(s, pm + 1, pm + 1, i, pe, true);
        assert ts == [s[pl..pm]] + ts';
        OneCall(s[..ptr], ts, s[pe + 1..], Count(s), calls, all);
        assert ts[0] == s[pl..pm] && ts[1..] == ts';
        Append(ptr, s, pl, pm, pe, buf);
        pl' := pm + 1;
      }
      pm' := pm' + 1;
    }

    /** The current alternative and the rest of the pattern are put behind the text in front of
        the brace, and the result is expanded. */
    method Append(ptr: nat, s: seq<Char>, pl: nat, pm: nat, pe: nat, buf: array<Char>)
      requires ptr < pl <= pm <= pe < |s| && s[ptr] == LBRACE && buf.Length == |s| && buf[..ptr] == s[..ptr]
      modifies this, buf
      ensures buf[..ptr] == s[..ptr] && calls == old(calls) + Calls(s[..ptr] + s[pl..pm] + s[pe + 1..])
      decreases Count(s), 0
    {
      var lm := Copy(buf, ptr, s, pl, pm);
      lm := Copy(buf, lm, s, pe + 1, |s|);
      assert buf[..lm] == s[..ptr] + s[pl..pm] + s[pe + 1..];
      assert buf[..ptr] == buf[..lm][..ptr];
      FewerBraces(s, ptr, pl, pm, pe + 1);
      Expand1(buf[..lm]);
    }
  }

  /** With the calls for `ts` to come, the calls will be `all`. */
  ghost predicate ToCome(pre: seq<Char>, ts: seq<seq<Char>>, suf: seq<Char>, n: nat, calls: seq<seq<Char>>,
                         all: seq<seq<Char>>) {
    Fewer(pre, ts, suf, n) && calls + CallsOf(pre, ts, suf, n) == all
  }

  lemma OneCall(pre: seq<Char>, ts: seq<seq<Char>>, suf: seq<Char>, n: nat, calls: seq<seq<Char>>, all: seq<seq<Char>>)
    requires ts != [] && ToCome(pre, ts, suf, n, calls, all)
    ensures ToCome(pre, ts[1..], suf, n, calls + Calls(pre + ts[0] + suf), all)
  {
    var a, b := Calls(pre + ts[0] + suf), CallsOf(pre, ts[1..], suf, n);
    assert calls + (a + b) == calls + a + b;
  }
}
