/** Vectors of strings in one buffer, each string ended by a zero byte, as in libc/argz. */
module Argz {
  import opened Bytes

  // ----- entries -----

  datatype Entries = Nil | Cons(e: CString, rest: Entries)

  /** The buffer that holds the entries. */
  function Flat(l: Entries): seq<byte> {
    match l
    case Nil => []
    case Cons(e, r) => e + [NUL] + Flat(r)
  }

  function Count(l: Entries): nat {
    match l
    case Nil => 0
    case Cons(_, r) => 1 + Count(r)
  }

  /** A buffer holds entries exactly if it is empty or its last byte is zero. */
  ghost predicate Ended(s: seq<byte>) {
    s != [] ==> s[|s| - 1] == NUL
  }

  function Parse(s: seq<byte>, e: CString): Entries {
    if s == [] then Nil
    else if s[0] == NUL then Cons(e, Parse(s[1..], []))
    else Parse(s[1..], e + [s[0]])
  }

  lemma {:induction false} ParseFlat(s: seq<byte>, e: CString)
    requires Ended(s) && (s == [] ==> e == [])
    ensures Flat(Parse(s, e)) == e + s
  {
    if s != [] {
      if s[0] == NUL {
        ParseFlat(s[1..], []);
        assert e + s == e + [NUL] + s[1..];
      } else {
        ParseFlat(s[1..], e + [s[0]]);
        assert e + s == e + [s[0]] + s[1..];
      }
    }
  }

  lemma {:induction false} FlatEnded(l: Entries)
    ensures Ended(Flat(l)) && (Flat(l) == [] <==> l.Nil?)
  {
    if l.Cons? {
      FlatEnded(l.rest);
    }
  }

  // ----- replacement -----

  /** Every leftmost occurrence of `str` that does not overlap an earlier one is replaced. */
  function Replaced(s: seq<byte>, str: seq<byte>, with: seq<byte>): seq<byte>
    requires str != []
    decreases |s|
  {
    if s == [] then []
    else if str <= s then with + Replaced(s[|str|..], str, with)
    else [s[0]] + Replaced(s[1..], str, with)
  }

  /** How many occurrences are replaced. */
  function Hits(s: seq<byte>, str: seq<byte>): nat
    requires str != []
    decreases |s|
  {
    if s == [] then 0
    else if str <= s then 1 + Hits(s[|str|..], str)
    else Hits(s[1..], str)
  }

  lemma {:induction false} ReplacedLength(s: seq<byte>, str: seq<byte>, with: seq<byte>)
    requires str != []
    ensures |Replaced(s, str, with)| == |s| + Hits(s, str) * (|with| - |str|)
    decreases |s|
  {
    if s != [] {
      if str <= s {
        ReplacedLength(s[|str|..], str, with);
        Distribute(Hits(s[|str|..], str), |with| - |str|);
      } else {
        ReplacedLength(s[1..], str, with);
      }
    }
  }

  lemma Distribute(n: nat, d: int)
    ensures (n + 1) * d == n * d + d
  {
  }

  /** No occurrence starts before `k`. */
  ghost predicate NoneBefore(s: seq<byte>, k: nat, str: seq<byte>)
    requires k <= |s|
  {
    forall i :: 0 <= i < k ==> !(str <= s[i..])
  }

  lemma NoneBeforeTail(s: seq<byte>, k: nat, str: seq<byte>)
    requires 0 < k <= |s| && NoneBefore(s, k, str)
    ensures !(str <= s) && NoneBefore(s[1..], k - 1, str)
  {
    assert s[0..] == s;
    assert !(str <= s[0..]);
    forall i | 0 <= i < k - 1 ensures !(str <= s[1..][i..]) {
      assert s[1..][i..] == s[i + 1..];
    }
  }

  /** Before the first occurrence nothing changes. */
  lemma {:induction false} FirstHit(s: seq<byte>, pre: seq<byte>, tail: seq<byte>, str: seq<byte>, with: seq<byte>)
    requires str != [] && s == pre + (str + tail) && NoneBefore(s, |pre|, str)
    ensures Replaced(s, str, with) == pre + with + Replaced(tail, str, with)
    ensures Hits(s, str) == 1 + Hits(tail, str)
    decreases |pre|
  {
    if pre == [] {
      assert s == str + tail;
      assert s[|str|..] == tail;
    } else {
      NoneBeforeTail(s, |pre|, str);
      assert s[1..] == pre[1..] + (str + tail);
      FirstHit(s[1..], pre[1..], tail, str, with);
      Joined(pre[0], pre[1..], with, Replaced(tail, str, with));
      assert [pre[0]] + pre[1..] == pre;
    }
  }

  lemma Joined(b: byte, x: seq<byte>, y: seq<byte>, z: seq<byte>)
    ensures [b] + (x + y + z) == [b] + x + y + z
  {
  }

  lemma {:induction false} NoHit(s: seq<byte>, str: seq<byte>, with: seq<byte>)
    requires str != [] && NoneBefore(s, |s|, str)
    ensures Replaced(s, str, with) == s && Hits(s, str) == 0
    decreases |s|
  {
    if s != [] {
      NoneBeforeTail(s, |s|, str);
      NoHit(s[1..], str, with);
    }
  }

  /** Replacement in a vector is replacement in each entry: no occurrence reaches from one
      entry into the next. */
  function ReplacedEach(l: Entries, str: CString, with: CString): Entries
    requires str != []
  {
    match l
    case Nil => Nil
    case Cons(e, r) => ReplacedPlain(e, str, with); Cons(Replaced(e, str, with), ReplacedEach(r, str, with))
  }

  lemma {:induction false} ReplacedPlain(s: CString, str: CString, with: CString)
    requires str != []
    ensures NUL !in Replaced(s, str, with)
    decreases |s|
  {
    if s != [] {
      if str <= s {
        ReplacedPlain(s[|str|..], str, with);
      } else {
        ReplacedPlain(s[1..], str, with);
      }
    }
  }

  lemma {:induction false} ReplacedEntry(e: CString, t: seq<byte>, str: CString, with: CString)
    requires str != []
    ensures Replaced(e + [NUL] + t, str, with) == Replaced(e, str, with) + [NUL] + Replaced(t, str, with)
    decreases |e|
  {
    var s := e + [NUL] + t;
    if e == [] {
      assert s[0] == NUL && str[0] != NUL;
      assert s[1..] == t;
    } else {
      NoStraddle(e, t, str);
      var n := if str <= e then |str| else 1;
      Dropped(e, t, n);
      ReplacedEntry(e[n..], t, str, with);
      var u, v := Replaced(e[n..], str, with), Replaced(t, str, with);
      assert with + (u + [NUL] + v) == with + u + [NUL] + v;
      assert [e[0]] + (u + [NUL] + v) == [e[0]] + u + [NUL] + v;
    }
  }

  lemma Dropped(e: seq<byte>, t: seq<byte>, n: nat)
    requires n <= |e|
    ensures (e + [NUL] + t)[n..] == e[n..] + [NUL] + t
  {
  }

  lemma NoStraddle(e: CString, t: seq<byte>, str: CString)
    ensures str <= e + [NUL] + t <==> str <= e
  {
    var s := e + [NUL] + t;
    assert s[|e|] == NUL;
  }

  lemma {:induction false} ReplacedEntries(l: Entries, str: CString, with: CString)
    requires str != []
    ensures Replaced(Flat(l), str, with) == Flat(ReplacedEach(l, str, with))
    ensures Count(ReplacedEach(l, str, with)) == Count(l)
  {
    if l.Cons? {
      ReplacedEntry(l.e, Flat(l.rest), str, with);
      ReplacedEntries(l.rest, str, with);
    }
  }

  // ----- finding and replacing -----

  ghost predicate HitAt(buf: seq<byte>, p: nat, str: seq<byte>) {
    p + |str| <= |buf| && buf[p..p + |str|] == str
  }

  ghost predicate NoneFrom(buf: seq<byte>, at: nat, p: nat, str: seq<byte>) {
    forall i :: at <= i < p ==> !HitAt(buf, i, str)
  }

  /** The inner loop of `_buf_findstr`, which stays in the buffer since that ends with a zero
      byte: whether `str` stands at `p`. */
  method Compare(str: CString, buf: seq<byte>, p: nat) returns (hit: bool)
    requires p < |buf| && Ended(buf)
    ensures hit <==> HitAt(buf, p, str)
  {
    var n := 0;
    while n < |str| && str[n] == buf[p + n]
      invariant n <= |str| && p + n < |buf| && buf[p..p + n] == str[..n]
    {
      assert buf[p..p + n + 1] == buf[p..p + n] + [buf[p + n]] && str[..n + 1] == str[..n] + [str[n]];
      n := n + 1;
    }
    if n < |str| {
      assert p + |str| <= |buf| ==> buf[p..p + |str|][n] == buf[p + n];
      return false;
    }
    assert str[..n] == str;
    return true;
  }

  /** `_buf_findstr`: the first occurrence from `at` on, of which the end is returned. */
  method FindStr(str: CString, buf: seq<byte>, at: nat) returns (found: bool, next: nat)
    requires str != [] && at <= |buf| && Ended(buf)
    ensures found ==>
      at + |str| <= next <= |buf| && HitAt(buf, next - |str|, str) && NoneFrom(buf, at, next - |str|, str)
    ensures !found ==> next == |buf| && NoneFrom(buf, at, |buf|, str)
  {
    var i := at;
    while i < |buf|
      invariant at <= i <= |buf| && NoneFrom(buf, at, i, str)
    {
      if str[0] == buf[i] {
        var hit := Compare(str, buf, i);
        if hit {
          return true, i + |str|;
        }
      } else {
        assert i + |str| <= |buf| ==> buf[i..i + |str|][0] == buf[i];
      }
      i := i + 1;
    }
    return false, |buf|;
  }

  /** What was found, for the rest of the buffer. */
  lemma Found(buf: seq<byte>, at: nat, next: nat, str: seq<byte>, with: seq<byte>)
    requires str != [] && at + |str| <= next <= |buf|
    requires HitAt(buf, next - |str|, str) && NoneFrom(buf, at, next - |str|, str)
    ensures Replaced(buf[at..], str, with) == buf[at..next - |str|] + with + Replaced(buf[next..], str, with)
    ensures Hits(buf[at..], str) == 1 + Hits(buf[next..], str)
  {
    var p := next - |str|;
    assert buf[at..] == buf[at..p] + (buf[p..next] + buf[next..]);
    NoneHere(buf, at, p, str);
    FirstHit(buf[at..], buf[at..p], buf[next..], str, with);
  }

  lemma NotFound(buf: seq<byte>, at: nat, str: seq<byte>, with: seq<byte>)
    requires str != [] && at <= |buf| && NoneFrom(buf, at, |buf|, str)
    ensures Replaced(buf[at..], str, with) == buf[at..] && Hits(buf[at..], str) == 0
  {
    NoneHere(buf, at, |buf|, str);
    NoHit(buf[at..], str, with);
  }

  lemma NoneHere(buf: seq<byte>, at: nat, p: nat, str: seq<byte>)
    requires at <= p <= |buf| && NoneFrom(buf, at, p, str)
    ensures NoneBefore(buf[at..], p - at, str)
  {
    forall i | 0 <= i < p - at ensures !(str <= buf[at..][i..]) {
      assert buf[at..][i..] == buf[at + i..];
      HitSlice(buf, at + i, str);
    }
  }

  lemma HitSlice(buf: seq<byte>, p: nat, str: seq<byte>)
    requires p <= |buf|
    ensures HitAt(buf, p, str) <==> str <= buf[p..]
  {
    var w := buf[p..];
    assert p + |str| <= |buf| ==> buf[p..p + |str|] == w[..|str|];
  }

  /** `memcpy` of `src[from..end]` to `at`. */
  method Memcpy(dst: array<byte>, at: nat, src: seq<byte>, from: nat, end: nat)
    requires from <= end <= |src| && at + (end - from) <= dst.Length
    modifies dst
    ensures dst[..at + (end - from)] == old(dst[..at]) + src[from..end]
    ensures dst[at + (end - from)..] == old(dst[at + (end - from)..])
  {
    forall i | 0 <= i < end - from {
      dst[at + i] := src[from + i];
    }
  }

  /** The first pass of `argz_replace`: the occurrences are counted. */
  method CountHits(argz: seq<byte>, str: CString, with: CString) returns (count: nat, newLen: int)
    requires str != [] && Ended(argz)
    ensures count == Hits(argz, str) && newLen == |argz| + count * (|with| - |str|)
  {
    var at := 0;
    count, newLen := 0, |argz|;
    assert argz[0..] == argz;
    while at < |argz|
      invariant 0 <= at <= |argz| && count + Hits(argz[at..], str) == Hits(argz, str)
      invariant newLen == |argz| + count * (|with| - |str|)
      decreases |argz| - at
    {
      var found, next := FindStr(str, argz, at);
      if found {
        Found(argz, at, next, str, with);
        Distribute(count, |with| - |str|);
        count := count + 1;
        newLen := newLen + (|with| - |str|);
      } else {
        NotFound(argz, at, str, with);
      }
      at := next;
    }
    assert argz[at..] == [];
  }

  /** What is in front of an occurrence is copied, and then the replacement. */
  method CopyHit(newArgz: array<byte>, start: nat, argz: seq<byte>, last: nat, p: nat,
                 with: CString) returns (iter: nat)
    requires last <= p <= |argz| && start + (p - last) + |with| <= newArgz.Length
    modifies newArgz
    ensures iter == start + (p - last) + |with| && newArgz[..iter] == old(newArgz[..start]) + argz[last..p] + with
  {
    Memcpy(newArgz, start, argz, last, p);
    iter := start + (p - last);
    Memcpy(newArgz, iter, with, 0, |with|);
    assert with[0..|with|] == with;
    iter := iter + |with|;
  }

  /** The second pass of `argz_replace`: the copies fill the new buffer exactly. */
  method CopyReplaced(argz: seq<byte>, str: CString, with: CString, newArgz: array<byte>)
    requires str != [] && Ended(argz) && newArgz.Length == |Replaced(argz, str, with)|
    modifies newArgz
    ensures newArgz[..] == Replaced(argz, str, with)
  {
    var at, last, iter := 0, 0, 0;
    assert argz[0..] == argz;
    ghost var rest := Replaced(argz, str, with);
    ghost var all := rest;
    while at < |argz|
      invariant 0 <= last <= at <= |argz| && 0 <= iter <= newArgz.Length
      invariant if last == at then rest == Replaced(argz[last..], str, with) else at == |argz| && rest == argz[last..]
      invariant newArgz[..iter] + rest == all
      decreases |argz| - at
    {
      var found, next := FindStr(str, argz, at);
      if found {
        iter, rest := CopyFound(newArgz, iter, argz, last, next, str, with, rest);
        last := next;
      } else {
        NotFound(argz, at, str, with);
      }
      at := next;
    }
    assert rest == argz[last..];
    CopyRest(newArgz, iter, argz, last);
  }

  /** An occurrence that ends at `next` was found; `rest` is what the replacement makes of the
      buffer from `last` on. */
  method CopyFound(newArgz: array<byte>, start: nat, argz: seq<byte>, last: nat, next: nat, str: CString,
                   with: CString, ghost rest: seq<byte>)
    returns (iter: nat, ghost more: seq<byte>)
    requires str != [] && last + |str| <= next <= |argz| && start <= newArgz.Length
    requires HitAt(argz, next - |str|, str) && NoneFrom(argz, last, next - |str|, str)
    requires rest == Replaced(argz[last..], str, with) && start + |rest| == newArgz.Length
    modifies newArgz
    ensures iter <= newArgz.Length && more == Replaced(argz[next..], str, with)
    ensures newArgz[..iter] + more == old(newArgz[..start]) + rest
  {
    Found(argz, last, next, str, with);
    more := Replaced(argz[next..], str, with);
    Placed(newArgz[..start], argz[last..next - |str|], with, rest, more, newArgz[..start] + rest);
    iter := CopyHit(newArgz, start, argz, last, next - |str|, with);
  }

  method CopyRest(newArgz: array<byte>, iter: nat, argz: seq<byte>, last: nat)
    requires last <= |argz| && iter + (|argz| - last) == newArgz.Length
    modifies newArgz
    ensures newArgz[..] == old(newArgz[..iter]) + argz[last..]
  {
    Memcpy(newArgz, iter, argz, last, |argz|);
    assert newArgz[..newArgz.Length] == newArgz[..];
  }

  lemma Placed(w: seq<byte>, x: seq<byte>, y: seq<byte>, r: seq<byte>, z: seq<byte>, all: seq<byte>)
    requires w + r == all && r == x + y + z
    ensures w + x + y + z == all && |w| + |x| + |y| <= |all|
  {
  }

  /** `argz_replace`: every entry is replaced in, and no entry is lost or added. */
  method Replace(argz: seq<byte>, str: CString, with: CString, ghost l: Entries) returns (result: seq<byte>, count: nat)
    requires str != [] && argz == Flat(l)
    ensures result == Replaced(argz, str, with) == Flat(ReplacedEach(l, str, with)) && count == Hits(argz, str)
    ensures |result| == |argz| + count * (|with| - |str|)
  {
    FlatEnded(l);
    ReplacedLength(argz, str, with);
    ReplacedEntries(l, str, with);
    var newLen;
    count, newLen := CountHits(argz, str, with);
    if count == 0 {
      Unchanged(argz, str, with);
      return argz, 0;
    }
    var newArgz := new byte[newLen];
    CopyReplaced(argz, str, with, newArgz);
    return newArgz[..], count;
  }

  lemma {:induction false} Unchanged(s: seq<byte>, str: seq<byte>, with: seq<byte>)
    requires str != [] && Hits(s, str) == 0
    ensures Replaced(s, str, with) == s
    decreases |s|
  {
    if s != [] {
      Unchanged(s[1..], str, with);
    }
  }

  // ----- inserting and deleting -----

  function At(l: Entries, i: nat): CString
    requires i < Count(l)
  {
    if i == 0 then l.e else At(l.rest, i - 1)
  }

  function InsertAt(l: Entries, k: nat, e: CString): (r: Entries)
    requires k <= Count(l)
    ensures Count(r) == Count(l) + 1
  {
    if k == 0 then Cons(e, l) else Cons(l.e, InsertAt(l.rest, k - 1, e))
  }

  function RemoveAt(l: Entries, k: nat): (r: Entries)
    requires k < Count(l)
    ensures Count(r) == Count(l) - 1
  {
    if k == 0 then l.rest else Cons(l.e, RemoveAt(l.rest, k - 1))
  }

  /** The position in the buffer at which entry `k` starts. */
  function Start(l: Entries, k: nat): nat
    requires k <= Count(l)
  {
    if k == 0 then 0 else |l.e| + 1 + Start(l.rest, k - 1)
  }

  /** The entry that a position is in, the byte that ends it included. */
  function EntryOf(l: Entries, pos: nat): (k: nat)
    requires pos < |Flat(l)|
    ensures k < Count(l)
  {
    if pos <= |l.e| then 0 else 1 + EntryOf(l.rest, pos - |l.e| - 1)
  }

  /** The entry starts at the position or before it and ends there or behind it. */
  lemma {:induction false} EntryHolds(l: Entries, pos: nat)
    requires pos < |Flat(l)|
    ensures var k := EntryOf(l, pos); Start(l, k) <= pos <= Start(l, k) + |At(l, k)|
  {
    if pos > |l.e| {
      EntryHolds(l.rest, pos - |l.e| - 1);
    }
  }

  /** The new entry is at its place and the others are in the same order. */
  lemma {:induction false} Inserted(l: Entries, k: nat, e: CString, i: nat)
    requires k <= Count(l) && i <= Count(l)
    ensures At(InsertAt(l, k, e), i) == if i < k then At(l, i) else if i == k then e else At(l, i - 1)
    decreases l
  {
    if k > 0 && i > 0 {
      Inserted(l.rest, k - 1, e, i - 1);
    }
  }

  lemma {:induction false} InsertRemove(l: Entries, k: nat, e: CString)
    requires k <= Count(l)
    ensures RemoveAt(InsertAt(l, k, e), k) == l && Start(InsertAt(l, k, e), k) == Start(l, k)
    decreases l
  {
    if k > 0 {
      InsertRemove(l.rest, k - 1, e);
    }
  }

  lemma {:induction false} FlatInsert(l: Entries, k: nat, e: CString)
    requires k <= Count(l)
    ensures Start(l, k) <= |Flat(l)|
    ensures Flat(InsertAt(l, k, e)) == Flat(l)[..Start(l, k)] + (e + [NUL]) + Flat(l)[Start(l, k)..]
    decreases l
  {
    if k > 0 {
      FlatInsert(l.rest, k - 1, e);
      Deeper(l.e + [NUL], Flat(l.rest), Start(l.rest, k - 1), e + [NUL]);
    }
  }

  lemma Deeper(a: seq<byte>, s: seq<byte>, i: nat, w: seq<byte>)
    requires i <= |s|
    ensures a + (s[..i] + w + s[i..]) == (a + s)[..|a| + i] + w + (a + s)[|a| + i..]
  {
    assert (a + s)[..|a| + i] == a + s[..i];
    assert (a + s)[|a| + i..] == s[i..];
  }

  /** Removing an entry takes it and the byte that ends it out of the buffer. */
  lemma {:induction false} FlatRemove(l: Entries, k: nat)
    requires k < Count(l)
    ensures Start(l, k) + |At(l, k)| < |Flat(l)| && Flat(l)[Start(l, k) + |At(l, k)|] == NUL
    ensures Flat(l)[Start(l, k)..Start(l, k) + |At(l, k)|] == At(l, k)
    ensures Flat(RemoveAt(l, k)) == Flat(l)[..Start(l, k)] + Flat(l)[Start(l, k) + |At(l, k)| + 1..]
  {
    var m, e := RemoveAt(l, k), At(l, k);
    RemoveInsert(l, k);
    FlatInsert(m, k, e);
    var s, p := Flat(m), Start(m, k);
    assert Flat(l) == s[..p] + (e + [NUL]) + s[p..];
  }

  lemma {:induction false} RemoveInsert(l: Entries, k: nat)
    requires k < Count(l)
    ensures InsertAt(RemoveAt(l, k), k, At(l, k)) == l && Start(RemoveAt(l, k), k) == Start(l, k)
    decreases l
  {
    if k > 0 {
      RemoveInsert(l.rest, k - 1);
    }
  }

  /** Going back from a position to a byte behind a zero byte, or to the beginning, finds the
      start of its entry. */
  lemma {:induction false} BackToStart(l: Entries, pos: nat, p: nat)
    requires p <= pos < |Flat(l)| && (p == 0 || Flat(l)[p - 1] == NUL)
    requires forall i :: p <= i < pos ==> Flat(l)[i] != NUL
    ensures p == Start(l, EntryOf(l, pos))
    decreases l
  {
    var s, n := Flat(l), |l.e| + 1;
    FlatBytes(l.e, Flat(l.rest));
    if pos >= n {
      assert s[n - 1] == NUL;
      RestBytes(l.e, Flat(l.rest), s, pos, p);
      BackToStart(l.rest, pos - n, p - n);
    }
  }

  lemma FlatBytes(e: CString, t: seq<byte>)
    ensures (e + [NUL] + t)[|e|] == NUL && forall i :: 0 <= i < |e| ==> (e + [NUL] + t)[i] != NUL
  {
    assert forall i :: 0 <= i < |e| ==> (e + [NUL] + t)[i] == e[i];
  }

  lemma RestBytes(e: CString, t: seq<byte>, s: seq<byte>, pos: nat, p: nat)
    requires s == e + [NUL] + t && |e| < p <= pos < |s| && s[p - 1] == NUL && forall i :: p <= i < pos ==> s[i] != NUL
    ensures var n := |e| + 1;
      (p == n || t[p - n - 1] == NUL) && forall i :: p - n <= i < pos - n ==> t[i] != NUL
  {
    var n := |e| + 1;
    assert forall i {:trigger t[i]} :: 0 <= i < |t| ==> t[i] == s[n + i];
  }

  datatype Pointer = Null | To(i: nat)

  /** The next zero byte from `i` on, or the last position. */
  function NextNul(s: seq<byte>, i: nat): (p: nat)
    requires i < |s|
    ensures i <= p < |s| && (s[p] == NUL || p == |s| - 1) && forall k :: i <= k < p ==> s[k] != NUL
    decreases |s| - i
  {
    if s[i] == NUL || i == |s| - 1 then i else NextNul(s, i + 1)
  }

  class Vector {
    /** The buffer; its length is `argz_len`. */
    var argz: array<byte>

    constructor ()
      ensures fresh(argz) && argz[..] == []
    {
      argz := new byte[0];
    }

    /** `realloc`: as much as fits of the old contents is kept. */
    method Realloc(n: nat)
      modifies this
      ensures fresh(argz) && argz.Length == n
      ensures n >= old(argz.Length) ==> argz[..old(argz.Length)] == old(argz[..])
      ensures n <= old(argz.Length) ==> argz[..] == old(argz[..n])
    {
      var a := new byte[n];
      var kept := if n < argz.Length then n else argz.Length;
      forall i | 0 <= i < kept {
        a[i] := argz[i];
      }
      argz := a;
    }

    /** `memmove` of `n` bytes within the buffer. */
    method Memmove(dst: nat, src: nat, n: nat)
      requires dst + n <= argz.Length && src + n <= argz.Length
      modifies argz
      ensures argz[dst..dst + n] == old(argz[src..src + n])
      ensures argz[..dst] == old(argz[..dst]) && argz[dst + n..] == old(argz[dst + n..])
    {
      forall i | 0 <= i < n {
        argz[dst + i] := argz[src + i];
      }
    }

    /** `argz_add`. */
    method Add(entry: CString, ghost l: Entries)
      requires argz[..] == Flat(l)
      modifies this
      ensures fresh(argz) && argz[..] == Flat(InsertAt(l, Count(l), entry))
    {
      var last := argz.Length;
      FlatInsert(l, Count(l), entry);
      StartLast(l);
      Realloc(last + |entry| + 1);
      Memcpy(argz, last, entry + [NUL], 0, |entry| + 1);
      assert argz[..argz.Length] == argz[..];
    }

    /** The loop of `argz_insert` that moves back to the start of the entry. */
    method EntryStart(before: nat, ghost l: Entries) returns (p: nat)
      requires argz[..] == Flat(l) && before < argz.Length
      ensures p == Start(l, EntryOf(l, before)) <= before
    {
      p := before;
      while p != 0 && argz[p - 1] != NUL
        invariant p <= before && forall i :: p <= i < before ==> argz[..][i] != NUL
      {
        p := p - 1;
      }
      BackToStart(l, before, p);
    }

    /** `argz_insert`: the new entry comes in front of the one that `before` points into. */
    method Insert(before: Pointer, entry: CString, ghost l: Entries) returns (ok: bool)
      requires argz[..] == Flat(l)
      modifies this
      ensures ok <==> before == Null || before.i < |Flat(l)|
      ensures !ok ==> argz == old(argz) && argz[..] == Flat(l)
      ensures ok ==> fresh(argz)
      ensures ok && before == Null ==> argz[..] == Flat(InsertAt(l, Count(l), entry))
      ensures ok && before != Null ==> argz[..] == Flat(InsertAt(l, EntryOf(l, before.i), entry))
    {
      if before == Null {
        Add(entry, l);
        return true;
      }
      if before.i >= argz.Length {
        return false;
      }
      var delta := EntryStart(before.i, l);
      FlatInsert(l, EntryOf(l, before.i), entry);
      Splice(delta, entry + [NUL]);
      return true;
    }

    /** Room is made at `delta` and filled. */
    method Splice(delta: nat, entry: seq<byte>)
      requires delta <= argz.Length
      modifies this
      ensures fresh(argz) && argz[..] == old(argz[..delta]) + entry + old(argz[delta..])
    {
      var length, len := argz.Length, |entry|;
      ghost var was := argz[..];
      Realloc(length + len);
      ghost var longer := argz[..];
      Memmove(delta + len, delta, length - delta);
      ghost var moved := argz[..];
      assert moved[delta + len..] == argz[delta + len..delta + len + (length - delta)] == longer[delta..length];
      Memcpy(argz, delta, entry, 0, len);
      assert entry[0..len] == entry;
      Spliced(was, longer, moved, argz[..], delta, entry);
    }

    /** `argz_delete`: what is at `entry` up to and including the next zero byte is removed; at
        the start of an entry that is the whole entry, and inside an entry its head is joined
        with the entry behind it. */
    method Delete(entry: Pointer, ghost l: Entries, ghost k: nat)
      requires argz[..] == Flat(l) && (entry != Null ==> entry.i < argz.Length)
      modifies this, argz
      ensures entry == Null ==> argz[..] == Flat(l)
      ensures entry != Null ==> argz[..] == old(argz[..entry.i]) + old(argz[NextNul(Flat(l), entry.i) + 1..])
      ensures entry != Null && k < Count(l) && entry.i == Start(l, k) ==> argz[..] == Flat(RemoveAt(l, k))
    {
      if entry == Null {
        return;
      }
      FlatEnded(l);
      var p := EntryEnd(entry.i);
      if k < Count(l) && entry.i == Start(l, k) {
        WholeEntry(l, k, entry.i, p);
      }
      CutOut(entry.i, p + 1);
    }

    /** The end of the string that starts at `at`, as `strlen` finds it. */
    method EntryEnd(at: nat) returns (p: nat)
      requires at < argz.Length && Ended(argz[..])
      ensures at <= p < argz.Length && argz[..][p] == NUL && forall i :: at <= i < p ==> argz[..][i] != NUL
      ensures p == NextNul(argz[..], at)
    {
      p := at;
      assert argz[argz.Length - 1] == argz[..][argz.Length - 1];
      while argz[p] != NUL
        invariant at <= p < argz.Length && forall i :: at <= i < p ==> argz[..][i] != NUL
        invariant NextNul(argz[..], p) == NextNul(argz[..], at)
        decreases argz.Length - p
      {
        p := p + 1;
      }
    }

    /** The bytes from `from` on move down to `at`. */
    method CutOut(at: nat, from: nat)
      requires at <= from <= argz.Length
      modifies this, argz
      ensures fresh(argz) && argz[..] == old(argz[..at]) + old(argz[from..])
    {
      var n := argz.Length - from;
      ghost var was := argz[..];
      assert argz[from..from + n] == was[from..];
      Memmove(at, from, n);
      assert argz[..at + n] == argz[..at] + argz[at..at + n] == was[..at] + was[from..];
      Realloc(at + n);
    }
  }

  /** A buffer `was` is made longer, its end is moved up, and the gap is filled. */
  lemma Spliced(was: seq<byte>, longer: seq<byte>, moved: seq<byte>, filled: seq<byte>, delta: nat, w: seq<byte>)
    requires delta <= |was| && |longer| == |moved| == |filled| == |was| + |w| && longer[..|was|] == was
    requires moved[delta + |w|..] == longer[delta..|was|] && moved[..delta + |w|] == longer[..delta + |w|]
    requires filled[..delta + |w|] == moved[..delta] + w && filled[delta + |w|..] == moved[delta + |w|..]
    ensures filled == was[..delta] + w + was[delta..]
  {
    assert moved[..delta] == moved[..delta + |w|][..delta] == longer[..delta + |w|][..delta] == longer[..delta];
    assert longer[..delta] == longer[..|was|][..delta] == was[..delta];
    assert longer[delta..|was|] == longer[..|was|][delta..] == was[delta..];
    assert filled == filled[..delta + |w|] + filled[delta + |w|..];
  }

  lemma {:induction false} StartLast(l: Entries)
    ensures Start(l, Count(l)) == |Flat(l)|
  {
    if l.Cons? {
      StartLast(l.rest);
    }
  }

  lemma EndOf(s: seq<byte>, i: nat, p: nat, e: CString)
    requires i <= p < |s| && s[p] == NUL && (forall j :: i <= j < p ==> s[j] != NUL)
    requires i + |e| < |s| && s[i + |e|] == NUL && s[i..i + |e|] == e
    ensures p == i + |e|
  {
    assert forall j :: i <= j < i + |e| ==> s[j] == s[i..i + |e|][j - i] == e[j - i];
  }

  lemma WholeEntry(l: Entries, k: nat, i: nat, p: nat)
    requires k < Count(l) && i == Start(l, k) && i < |Flat(l)| && p == NextNul(Flat(l), i) && Flat(l)[p] == NUL
    ensures Flat(l)[..i] + Flat(l)[p + 1..] == Flat(RemoveAt(l, k))
  {
    FlatRemove(l, k);
    EndOf(Flat(l), i, p, At(l, k));
  }

  /** Deleting an entry that was just inserted leaves the buffer as it was. */
  method InsertAndDelete(v: Vector, before: nat, entry: CString, ghost l: Entries)
    requires v.argz[..] == Flat(l) && before < v.argz.Length
    modifies v, v.argz
    ensures v.argz[..] == old(v.argz[..])
  {
    ghost var k := EntryOf(l, before);
    var start := v.EntryStart(before, l);
    var ok := v.Insert(To(before), entry, l);
    InsertRemove(l, k, entry);
    FlatRemove(InsertAt(l, k, entry), k);
    v.Delete(To(start), InsertAt(l, k, entry), k);
  }
}
