/** The global locale of locale.c: composite names, and updates that happen completely or not at all. */
module Locale {
  const ENCODING_LEN := 31
  const LC_ALL := 0

  /** One more than the number of the last category. */
  const LC_LAST := 7

  datatype Option<T> = None | Some(value: T)

  // ----- composite names -----

  datatype List = Nil | Cons(name: string, rest: List)

  function ToSeq(l: List): seq<string> {
    match l
    case Nil => []
    case Cons(n, r) => [n] + ToSeq(r)
  }

  function FromSeq(names: seq<string>): (l: List)
    ensures Length(l) == |names|
  {
    if names == [] then Nil else Cons(names[0], FromSeq(names[1..]))
  }

  function Length(l: List): nat {
    match l
    case Nil => 0
    case Cons(_, r) => 1 + Length(r)
  }

  lemma {:induction false} ToFrom(names: seq<string>)
    ensures ToSeq(FromSeq(names)) == names
  {
    if names != [] {
      ToFrom(names[1..]);
    }
  }

  /** The names, each with a slash in front. */
  function Tail(l: List): string {
    match l
    case Nil => ""
    case Cons(n, r) => "/" + n + Tail(r)
  }

  predicate AllSame(names: seq<string>) {
    forall i :: 0 <= i < |names| ==> names[i] == names[0]
  }

  /** One name if all categories agree, and all names separated by slashes otherwise. */
  function Compose(names: seq<string>): string
    requires |names| > 0
  {
    if AllSame(names) then names[0] else names[0] + Tail(FromSeq(names[1..]))
  }

  /** The first position from `i` on that is not a slash, or the end. */
  function PastSlashes(s: string, i: nat): (k: nat)
    requires i <= |s|
    ensures i <= k <= |s| && (k < |s| ==> s[k] != '/') && (k > i ==> s[k - 1] == '/')
    decreases |s| - i
  {
    if i < |s| && s[i] == '/' then PastSlashes(s, i + 1) else i
  }

  /** The first slash from `i` on, or the end. */
  function NextSlash(s: string, i: nat): (k: nat)
    requires i <= |s|
    ensures i <= k <= |s| && (k < |s| ==> s[k] == '/')
    decreases |s| - i
  {
    if i < |s| && s[i] != '/' then NextSlash(s, i + 1) else i
  }

  /** At most `left` names from `lo` on, the first of which ends at `r`; none may be too long. */
  function Names(s: string, lo: nat, r: nat, left: nat): (l: Option<List>)
    requires lo <= r <= |s|
    ensures l.Some? ==> Length(l.value) <= left && (left > 0 ==> l.value.Cons?)
    decreases left
  {
    if left == 0 then Some(Nil)
    else if r - lo > ENCODING_LEN then None
    else
      var next := PastSlashes(s, r);
      if next == |s| then Some(Cons(s[lo..r], Nil))
      else
        match Names(s, next, NextSlash(s, next), left - 1)
        case None => None
        case Some(rest) => Some(Cons(s[lo..r], rest))
  }

  /** The last name stands for the categories for which there is none. */
  function Fill(names: seq<string>, n: nat): (r: seq<string>)
    requires names != []
    ensures |names| <= n ==> |r| == n
    ensures forall i :: 0 <= i < |r| ==> r[i] == if i < |names| then names[i] else names[|names| - 1]
    decreases n - |names|
  {
    if |names| >= n then names else Fill(names + [names[|names| - 1]], n)
  }

  lemma {:induction false} ToSeqLength(l: List)
    ensures |ToSeq(l)| == Length(l)
  {
    if l.Cons? {
      ToSeqLength(l.rest);
    }
  }

  /** The names of `n` categories that a locale argument asks for.  The name of the first
      category ends at the last slash of the first run of slashes. */
  function Decompose(s: string, n: nat): (r: Option<seq<string>>)
    requires n > 0
    ensures r.Some? ==> |r.value| == n
  {
    var f := NextSlash(s, 0);
    if f == |s| then if |s| > ENCODING_LEN then None else Some(Fill([s], n))
    else
      var next := PastSlashes(s, f);
      if next == |s| then None
      else
        match Names(s, 0, next - 1, n)
        case None => None
        case Some(l) => ToSeqLength(l); Some(Fill(ToSeq(l), n))
  }

  /** A name that a category can have and that a composite name can hold. */
  predicate Simple(name: string) {
    0 < |name| <= ENCODING_LEN && '/' !in name
  }

  predicate AllSimple(l: List) {
    match l
    case Nil => true
    case Cons(n, r) => Simple(n) && AllSimple(r)
  }

  lemma {:induction false} SimpleList(names: seq<string>)
    requires forall k :: 0 <= k < |names| ==> Simple(names[k])
    ensures AllSimple(FromSeq(names))
  {
    if names != [] {
      SimpleList(names[1..]);
    }
  }

  lemma {:induction false} SlashAt(s: string, i: nat, name: string, rest: string)
    requires i <= |s| && s[i..] == name + rest && '/' !in name && (rest == "" || rest[0] == '/')
    ensures NextSlash(s, i) == i + |name| && s[i + |name|..] == rest
    decreases |name|
  {
    if name == "" {
      assert s[i..] == rest;
    } else {
      assert s[i] == s[i..][0] == name[0];
      assert s[i + 1..] == s[i..][1..] == name[1..] + rest;
      SlashAt(s, i + 1, name[1..], rest);
    }
  }

  /** The names of the list stand in the text from `lo` on, with slashes between them. */
  ghost predicate Spells(s: string, lo: nat, l: List)
    decreases l
  {
    match l
    case Nil => lo == |s|
    case Cons(n, r) =>
      && lo <= |s| && NextSlash(s, lo) == lo + |n| && s[lo..lo + |n|] == n && Simple(n)
      && Spells(s, PastSlashes(s, lo + |n|), r)
  }

  lemma {:induction false} TailSpells(s: string, lo: nat, l: List)
    requires lo <= |s| && l.Cons? && AllSimple(l) && s[lo..] == l.name + Tail(l.rest)
    ensures Spells(s, lo, l)
    decreases l
  {
    if l.rest.Cons? {
      var next := lo + |l.name| + 1;
      TwoNames(s, lo, l.name, l.rest.name, Tail(l.rest.rest));
      TailSpells(s, next, l.rest);
      SpellsStep(s, lo, l, next);
    } else {
      OneName(s, lo, l.name);
      SpellsStep(s, lo, l, |s|);
    }
  }

  lemma SpellsStep(s: string, lo: nat, l: List, next: nat)
    requires l.Cons? && Simple(l.name)
    requires lo <= |s| && NextSlash(s, lo) == lo + |l.name| && s[lo..lo + |l.name|] == l.name
    requires next == PastSlashes(s, lo + |l.name|) && Spells(s, next, l.rest)
    ensures Spells(s, lo, l)
  {
  }

  lemma OneName(s: string, lo: nat, n: string)
    requires lo <= |s| && s[lo..] == n + "" && Simple(n)
    ensures NextSlash(s, lo) == lo + |n| == |s| && s[lo..lo + |n|] == n
  {
    SlashAt(s, lo, n, "");
    FirstName(s, lo, n, "");
  }

  lemma TwoNames(s: string, lo: nat, n: string, m: string, rest: string)
    requires lo <= |s| && s[lo..] == n + ("/" + m + rest) && Simple(n) && Simple(m)
    ensures NextSlash(s, lo) == lo + |n| < |s| && s[lo..lo + |n|] == n
    ensures PastSlashes(s, lo + |n|) == lo + |n| + 1 && s[lo + |n| + 1..] == m + rest
  {
    SlashAt(s, lo, n, "/" + m + rest);
    FirstName(s, lo, n, "/" + m + rest);
    SecondName(s, lo + |n|, m, rest);
  }

  lemma {:induction false} SpelledNames(s: string, lo: nat, l: List)
    requires l.Cons? && Spells(s, lo, l)
    ensures Names(s, lo, lo + |l.name|, Length(l)) == Some(l)
    decreases l
  {
    if l.rest.Cons? {
      SpelledNames(s, PastSlashes(s, lo + |l.name|), l.rest);
    }
  }

  lemma FirstName(s: string, lo: nat, name: string, rest: string)
    requires lo <= |s| && s[lo..] == name + rest
    ensures lo + |name| <= |s| && s[lo..lo + |name|] == name
  {
    assert s[lo..lo + |name|] == s[lo..][..|name|];
  }

  lemma SecondName(s: string, r: nat, name: string, rest: string)
    requires r <= |s| && s[r..] == "/" + name + rest && Simple(name)
    ensures PastSlashes(s, r) == r + 1 && s[r + 1..] == name + rest
  {
    assert s[r..] == "/" + (name + rest);
    assert s[r] == s[r..][0] && s[r + 1] == s[r..][1] == name[0];
    assert s[r + 1..] == s[r..][1..];
  }

  /** A composite name is read as the names it was made of. */
  lemma RoundTrip(names: seq<string>)
    requires names != [] && forall k :: 0 <= k < |names| ==> Simple(names[k])
    ensures Decompose(Compose(names), |names|) == Some(names)
  {
    var s := Compose(names);
    assert s[0..] == s;
    if AllSame(names) {
      assert s + "" == s;
      SlashAt(s, 0, s, "");
      assert Fill([s], |names|) == names;
    } else {
      var l := FromSeq(names);
      SimpleList(names);
      ToFrom(names);
      var r := |names[0]|;
      SlashAt(s, 0, names[0], Tail(l.rest));
      SecondName(s, r, l.rest.name, Tail(l.rest.rest));
      TailSpells(s, 0, l);
      SpelledNames(s, 0, l);
    }
  }

  lemma {:induction false} NamesShort(s: string, lo: nat, r: nat, left: nat)
    requires lo <= r <= |s| && Names(s, lo, r, left).Some?
    ensures forall i :: 0 <= i < |ToSeq(Names(s, lo, r, left).value)| ==>
      |ToSeq(Names(s, lo, r, left).value)[i]| <= ENCODING_LEN
    decreases left
  {
    if left > 0 {
      var next := PastSlashes(s, r);
      if next < |s| {
        NamesShort(s, next, NextSlash(s, next), left - 1);
      }
    }
  }

  /** No name that is asked for is too long for a category. */
  lemma DecomposeShort(s: string, n: nat)
    requires n > 0 && Decompose(s, n).Some?
    ensures forall i :: 0 <= i < n ==> |Decompose(s, n).value[i]| <= ENCODING_LEN
  {
    var f := NextSlash(s, 0);
    if f < |s| {
      NamesShort(s, 0, PastSlashes(s, f) - 1, n);
    }
  }

  // ----- slashes inside names -----

  lemma {:induction false} NoSlashBefore(s: string, i: nat)
    requires i <= |s|
    ensures '/' !in s[i..NextSlash(s, i)]
    decreases |s| - i
  {
    if i < |s| && s[i] != '/' {
      NoSlashBefore(s, i + 1);
      assert s[i..NextSlash(s, i)] == [s[i]] + s[i + 1..NextSlash(s, i)];
    }
  }

  predicate SlashFree(l: List) {
    match l
    case Nil => true
    case Cons(n, r) => '/' !in n && SlashFree(r)
  }

  lemma {:induction false} NamesSlashFree(s: string, lo: nat, left: nat)
    requires lo <= |s| && Names(s, lo, NextSlash(s, lo), left).Some?
    ensures SlashFree(Names(s, lo, NextSlash(s, lo), left).value)
    decreases left
  {
    if left > 0 {
      NoSlashBefore(s, lo);
      var next := PastSlashes(s, NextSlash(s, lo));
      if next < |s| {
        NamesSlashFree(s, next, left - 1);
      }
    }
  }

  lemma {:induction false} SlashFreeAt(l: List, k: nat)
    requires SlashFree(l) && k < |ToSeq(l)|
    ensures '/' !in ToSeq(l)[k]
  {
    if k > 0 {
      SlashFreeAt(l.rest, k - 1);
    }
  }

  /** The first slash is followed by another one. */
  predicate DoubledSlash(s: string) {
    var f := NextSlash(s, 0);
    f + 1 < |s| && s[f + 1] == '/'
  }

  /** A name that is read holds a slash exactly if it is the first one and the first slash of the
      argument is doubled. */
  lemma SlashInName(s: string, n: nat, k: nat)
    requires n >= 2 && k < n && Decompose(s, n).Some?
    ensures '/' in Decompose(s, n).value[k] <==> k == 0 && DoubledSlash(s)
  {
    var f := NextSlash(s, 0);
    if f == |s| {
      NoSlashBefore(s, 0);
      assert s[0..f] == s;
    } else {
      FirstRun(s, f);
      SlashInList(s, PastSlashes(s, f), n, k);
    }
  }

  lemma SlashInList(s: string, next: nat, n: nat, k: nat)
    requires n >= 2 && k < n && 0 < next < |s| && s[next - 1] == '/' && s[next] != '/'
    requires Names(s, 0, next - 1, n).Some?
    ensures var l := ToSeq(Names(s, 0, next - 1, n).value);
      l != [] && ('/' in Fill(l, n)[k] <==> k == 0 && '/' in s[0..next - 1])
  {
    var l := Names(s, 0, next - 1, n).value;
    assert PastSlashes(s, next - 1) == next;
    NamesSlashFree(s, next, n - 1);
    ToSeqLength(l);
    var m := if k < |ToSeq(l)| then k else |ToSeq(l)| - 1;
    if m > 0 {
      SlashFreeAt(l.rest, m - 1);
    }
  }

  /** The text up to the last slash of the first run holds a slash if the run is longer than one. */
  lemma FirstRun(s: string, f: nat)
    requires f == NextSlash(s, 0) < |s| && PastSlashes(s, f) < |s|
    ensures f < PastSlashes(s, f) && ('/' in s[0..PastSlashes(s, f) - 1] <==> DoubledSlash(s))
  {
    var next := PastSlashes(s, f);
    NoSlashBefore(s, 0);
    if DoubledSlash(s) {
      assert next == PastSlashes(s, f + 1) == PastSlashes(s, f + 2);
      assert s[0..next - 1][f] == '/';
    } else {
      assert next == f + 1;
    }
  }

  /** Of a//b the first name is a with a slash. */
  lemma DoubledSlashExample(s: string, n: nat)
    requires s == "a//b" && n == 6
    ensures Decompose(s, n) == Some(["a/", "b", "b", "b", "b", "b"])
  {
    assert PastSlashes(s, 3) == 3 && NextSlash(s, 1) == 1 && NextSlash(s, 4) == 4 && PastSlashes(s, 4) == 4;
    assert PastSlashes(s, 2) == 3 && NextSlash(s, 0) == 1 && NextSlash(s, 3) == 4;
    assert PastSlashes(s, 1) == 3 && s[0..2] == "a/" && s[3..4] == "b";
    var l := Cons("a/", Cons("b", Nil));
    assert Names(s, 3, 4, n - 1) == Some(Cons("b", Nil));
    assert Names(s, 0, 2, n) == Some(l);
    assert ToSeq(Cons("b", Nil)) == ["b"];
    assert ToSeq(l) == ["a/", "b"];
    assert Fill(ToSeq(l), n) == ["a/", "b", "b", "b", "b", "b"];
  }

  // ----- the state -----

  /** "POSIX" is another name of the "C" locale. */
  function Canonical(name: string): string {
    if name == "POSIX" then "C" else name
  }

  /** The environment variables, by name. */
  type Environment = string -> Option<string>

  /** The names of the variables LC_ALL, LC_COLLATE, ... for the categories. */
  const VARIABLES: seq<string> :=
    ["LC_ALL", "LC_COLLATE", "LC_CTYPE", "LC_MONETARY", "LC_NUMERIC", "LC_TIME", "LC_MESSAGES"]

  predicate IsSet(v: Option<string>) {
    v.Some? && v.value != ""
  }

  /** `__get_locale_env`. */
  function FromEnvironment(env: Environment, category: nat, default: string): string
    requires category < LC_LAST
  {
    if IsSet(env(VARIABLES[0])) then env(VARIABLES[0]).value
    else if IsSet(env(VARIABLES[category])) then env(VARIABLES[category]).value
    else if IsSet(env("LANG")) then env("LANG").value
    else default
  }

  predicate Unset(v: Option<string>) {
    v == None || v == Some("")
  }

  /** The name that the environment gives to a category with the variable `own`: LC_ALL comes
      first, then the variable itself, then LANG, then the default. */
  ghost predicate Wins(env: Environment, own: string, default: string, name: string) {
    && (!Unset(env("LC_ALL")) ==> env("LC_ALL") == Some(name))
    && (Unset(env("LC_ALL")) && !Unset(env(own)) ==> env(own) == Some(name))
    && (Unset(env("LC_ALL")) && Unset(env(own)) && !Unset(env("LANG")) ==> env("LANG") == Some(name))
    && (Unset(env("LC_ALL")) && Unset(env(own)) && Unset(env("LANG")) ==> name == default)
  }

  /** The same for all categories. */
  ghost predicate AllWin(env: Environment, default: string, names: seq<string>) {
    && |names| == 6
    && Wins(env, "LC_COLLATE", default, names[0]) && Wins(env, "LC_CTYPE", default, names[1])
    && Wins(env, "LC_MONETARY", default, names[2]) && Wins(env, "LC_NUMERIC", default, names[3])
    && Wins(env, "LC_TIME", default, names[4]) && Wins(env, "LC_MESSAGES", default, names[5])
  }

  /** What the variable of a single category is called. */
  function OwnVariable(category: nat): string
    requires 1 <= category <= 6
  {
    match category
    case 1 => "LC_COLLATE"
    case 2 => "LC_CTYPE"
    case 3 => "LC_MONETARY"
    case 4 => "LC_NUMERIC"
    case 5 => "LC_TIME"
    case _ => "LC_MESSAGES"
  }

  /** A name that is taken is stored as it is, and POSIX as C. */
  ghost predicate TakenAs(name: string, accepts: string -> bool, stored: string) {
    && |name| <= 31 && (name == "POSIX" ==> stored == "C") && (name != "POSIX" ==> stored == name) && accepts(stored)
  }

  ghost predicate IsTaken(name: string, accepts: string -> bool) {
    exists stored :: TakenAs(name, accepts, stored)
  }

  /** The categories become `names` if all of them are taken, and nothing changes otherwise. */
  ghost predicate AllOrNothing(names: seq<string>, accepts: string -> bool, cats: seq<string>,
                               after: seq<string>, r: Option<string>)
    requires |names| == 6 && |cats| == |after| == 7
  {
    if forall k :: 0 <= k < 6 ==> IsTaken(names[k], accepts) then
      r == Some(Compose(after[1..])) && forall k :: 0 <= k < 6 ==> TakenAs(names[k], accepts, after[k + 1])
    else r == None && after == cats
  }

  /** The same for one category. */
  ghost predicate OneOrNothing(name: string, category: nat, accepts: string -> bool, cats: seq<string>,
                               after: seq<string>, r: Option<string>)
    requires |cats| == |after| == 7 && category <= 6
  {
    if IsTaken(name, accepts) then
      TakenAs(name, accepts, after[category]) && r == Some(after[category]) &&
      after == cats[category := after[category]]
    else r == None && after == cats
  }

  /** What `setlocale` with an empty argument makes of the categories `cats`: they become what
      the environment says. */
  ghost predicate FollowsEnvironment(cats: seq<string>, category: nat, env: Environment, default: string,
                                     accepts: string -> bool, after: seq<string>, r: Option<string>)
    requires |cats| == |after| == 7 && category <= 6
  {
    if category == 0 then forall names :: AllWin(env, default, names) ==> AllOrNothing(names, accepts, cats, after, r)
    else
      forall name :: Wins(env, OwnVariable(category), default, name) ==>
        OneOrNothing(name, category, accepts, cats, after, r)
  }

  /** What a call asks the categories to be, given what they are; nothing if a name is too
      long or there are only slashes. */
  function Asked(cats: seq<string>, category: nat, locale: string, env: Environment,
                 default: string): (r: Option<seq<string>>)
    requires |cats| == LC_LAST - 1 && category < LC_LAST
    ensures r.Some? ==> |r.value| == LC_LAST - 1
  {
    if category == LC_ALL then
      if locale == "" then
        var names := seq(LC_LAST - 1, (i: nat) requires i < LC_LAST - 1 => FromEnvironment(env, i + 1, default));
        if forall i :: 0 <= i < |names| ==> |names[i]| <= ENCODING_LEN then Some(names) else None
      else Decompose(locale, LC_LAST - 1)
    else
      var name := if locale == "" then FromEnvironment(env, category, default) else locale;
      if |name| <= ENCODING_LEN then Some(cats[category - 1 := name]) else None
  }

  /** A name that a category holds. */
  predicate Stored(name: string, accepts: string -> bool) {
    accepts(name) && name != "POSIX" && |name| <= ENCODING_LEN
  }

  predicate AllStored(cats: seq<string>, accepts: string -> bool) {
    |cats| == LC_LAST && forall k :: 1 <= k < LC_LAST ==> Stored(cats[k], accepts)
  }

  class GlobalLocale {
    /** Whether the checks of `__loadlocale` accept a name. */
    const accepts: string -> bool

    /** `__default_locale`. */
    const default: string

    /** The names of the categories; index 0 is not used. */
    var categories: seq<string>
    var newCategories: seq<string>
    var savedCategories: seq<string>
    var globalString: string

    constructor (accepts: string -> bool, default: string)
      requires accepts("C")
      ensures Valid() && this.accepts == accepts && this.default == default
      ensures forall i :: 0 <= i < LC_LAST ==> categories[i] == "C"
    {
      this.accepts, this.default := accepts, default;
      categories := ["C", "C", "C", "C", "C", "C", "C"];
      newCategories, savedCategories, globalString := categories, categories, "C";
    }

    /** The composite name is that of the stored names, which are all acceptable. */
    ghost predicate Valid()
      reads this
    {
      && Shaped() && globalString == Compose(categories[1..])
      && AllStored(categories, accepts)
    }

    ghost predicate Shaped()
      reads this
    {
      |categories| == |newCategories| == |savedCategories| == LC_LAST
    }

    /** `__loadlocale` with the name that is asked for.  A name that was accepted before is
        accepted again. */
    method Load(category: nat) returns (r: Option<string>)
      requires Shaped() && 1 <= category < LC_LAST && Stored(categories[category], accepts)
      requires |newCategories[category]| <= ENCODING_LEN
      modifies this`categories, this`newCategories
      ensures Shaped()
      ensures var name := Canonical(old(newCategories[category]));
        r == if accepts(name) then Some(name) else None
      ensures categories == if r.Some? then old(categories)[category := r.value] else old(categories)
      ensures r.Some? ==> Stored(categories[category], accepts)
      ensures forall i :: 0 <= i < LC_LAST && i != category ==> newCategories[i] == old(newCategories[i])
    {
      if newCategories[category] == categories[category] {
        return Some(categories[category]);
      }
      if newCategories[category] == "POSIX" {
        newCategories := newCategories[category := "C"];
      }
      if !accepts(newCategories[category]) {
        return None;
      }
      categories := categories[category := newCategories[category]];
      return Some(categories[category]);
    }

    /** `currentlocale`. */
    method CurrentLocale() returns (r: string)
      requires Shaped()
      modifies this`globalString
      ensures r == globalString == Compose(categories[1..])
    {
      ghost var names := categories[1..];
      globalString := categories[1];
      var i := 2;
      while i < LC_LAST && categories[1] == categories[i]
        invariant 2 <= i <= LC_LAST && forall k :: 1 <= k < i ==> categories[k] == categories[1]
      {
        i := i + 1;
      }
      if i < LC_LAST {
        assert names[i - 1] != names[0];
        i := 2;
        ghost var all := globalString + Tail(FromSeq(categories[2..]));
        assert names[1..] == categories[2..];
        while i < LC_LAST
          invariant 2 <= i <= LC_LAST && globalString + Tail(FromSeq(categories[i..])) == all
        {
          assert categories[i..][1..] == categories[i + 1..];
          globalString := globalString + "/";
          globalString := globalString + categories[i];
          i := i + 1;
        }
      }
      return globalString;
    }

    /** The categories are to be as the environment says. */
    method AskEnvironment(env: Environment) returns (ok: bool)
      requires Shaped()
      modifies this`newCategories
      ensures Shaped() && ok == Asked(categories[1..], LC_ALL, "", env, default).Some?
      ensures ok ==> newCategories[1..] == Asked(categories[1..], LC_ALL, "", env, default).value
    {
      var i := 1;
      while i < LC_LAST
        invariant 1 <= i <= LC_LAST && Shaped()
        invariant forall k :: 1 <= k < i ==>
          newCategories[k] == FromEnvironment(env, k, default) && |newCategories[k]| <= ENCODING_LEN
      {
        var name := FromEnvironment(env, i, default);
        if |name| > ENCODING_LEN {
          TooLong(categories[1..], env, i, default);
          return false;
        }
        newCategories := newCategories[i := name];
        i := i + 1;
      }
      EnvironmentNames(categories[1..], newCategories, env, default);
      return true;
    }

    /** The loop that reads a composite name: `r0` is the last slash of the first run of
        slashes, and something else follows it.  `n` is the number of names read. */
    method ReadNames(s: string, r0: nat, ghost all: Option<List>) returns (ok: bool, n: nat)
      requires Shaped() && r0 <= |s| && all == Names(s, 0, r0, LC_LAST - 1)
      modifies this`newCategories
      ensures Shaped() && ok == all.Some?
      ensures ok ==> 0 < n < LC_LAST && newCategories[1..n + 1] == ToSeq(all.value)
    {
      var lo: nat, r: nat, i: nat := 0, r0, 1;
      ghost var seen: seq<string> := [];
      while true
        invariant lo <= r <= |s| && 1 <= i <= LC_LAST && Shaped() && newCategories[1..i] == seen
        invariant Rest(all, seen, Names(s, lo, r, LC_LAST - i))
        decreases LC_LAST - i
      {
        if i == LC_LAST {
          RestNone(all, seen, s, lo, r);
          break;
        }
        if r - lo > ENCODING_LEN {
          return false, 0;
        }
        RestMore(all, seen, s, lo, r, LC_LAST - i);
        OneMoreName(newCategories, i, s[lo..r]);
        seen := seen + [s[lo..r]];
        newCategories := newCategories[i := s[lo..r]];
        i := i + 1;
        r := SkipSlashes(s, r);
        lo := r;
        r := FindSlash(s, r);
        if lo == |s| {
          break;
        }
      }
      return true, i - 1;
    }

    /** The categories without a name of their own get the last one. */
    method Repeat(n: nat, ghost names: seq<string>)
      requires Shaped() && 0 < n < LC_LAST && newCategories[1..n + 1] == names
      modifies this`newCategories
      ensures Shaped() && newCategories[1..] == Fill(names, LC_LAST - 1)
    {
      var i := n + 1;
      while i < LC_LAST
        invariant n < i <= LC_LAST && Shaped() && newCategories[1..i] == Fill(names, i - 1)
      {
        FillOne(names, i - 1);
        newCategories := newCategories[i := newCategories[i - 1]];
        i := i + 1;
      }
    }

    /** A locale argument for LC_ALL that is not empty. */
    method AskAll(s: string) returns (ok: bool)
      requires Shaped() && s != ""
      modifies this`newCategories
      ensures Shaped() && ok == Decompose(s, LC_LAST - 1).Some?
      ensures ok ==> newCategories[1..] == Decompose(s, LC_LAST - 1).value
    {
      var r := FindSlash(s, 0);
      if r == |s| {
        if |s| > ENCODING_LEN {
          return false;
        }
        newCategories := newCategories[1 := s];
        Repeat(1, [s]);
        return true;
      }
      var next := SkipSlashes(s, r);
      if next == |s| {
        return false;
      }
      ghost var all := Names(s, 0, next - 1, LC_LAST - 1);
      var n;
      ok, n := ReadNames(s, next - 1, all);
      if ok {
        Repeat(n, ToSeq(all.value));
      }
    }

    /** `newCategories` is filled from the locale argument. */
    method Ask(category: nat, locale: string, env: Environment, ghost asked: Option<seq<string>>) returns (ok: bool)
      requires Shaped() && category < LC_LAST && asked == Asked(categories[1..], category, locale, env, default)
      modifies this`newCategories
      ensures Shaped() && ok == asked.Some? && (ok ==> newCategories[1..] == asked.value)
    {
      newCategories := categories;
      if category == LC_ALL {
        if locale == "" {
          ok := AskEnvironment(env);
        } else {
          ok := AskAll(locale);
        }
        return;
      }
      var name := if locale == "" then FromEnvironment(env, category, default) else locale;
      if |name| > ENCODING_LEN {
        return false;
      }
      newCategories := newCategories[category := name];
      return true;
    }

    /** The categories below `i` are loaded again with the names they had.  No such reload
        fails, so that the fallback to "C" is never taken. */
    method RollBack(i: nat, ghost was: seq<string>)
      requires Shaped() && 1 <= i < LC_LAST && |was| == LC_LAST
      requires AllStored(was, accepts) && AllStored(categories, accepts)
      requires forall k :: 1 <= k < i ==> savedCategories[k] == was[k]
      requires forall k :: k == 0 || i <= k < LC_LAST ==> categories[k] == was[k]
      modifies this`categories, this`newCategories
      ensures Shaped() && categories == was
    {
      var j := 1;
      while j < i
        invariant 1 <= j <= i && Shaped() && AllStored(categories, accepts)
        invariant forall k :: 0 <= k < j || i <= k < LC_LAST ==> categories[k] == was[k]
      {
        newCategories := newCategories[j := savedCategories[j]];
        var r := Load(j);
        assert r.Some?;
        j := j + 1;
      }
    }

    /** All categories are loaded, or none. */
    method LoadAll() returns (ok: bool)
      requires Shaped() && Short(newCategories[1..]) && AllStored(categories, accepts)
      modifies this`categories, this`newCategories, this`savedCategories
      ensures Shaped() && AllStored(categories, accepts)
      ensures ok == AllAccepted(old(newCategories[1..]), accepts)
      ensures categories == if ok then [old(categories[0])] + Canonicals(old(newCategories[1..])) else old(categories)
    {
      ghost var was, want := categories, newCategories;
      assert forall k :: 1 <= k < LC_LAST ==> want[k] == want[1..][k - 1];
      var i := 1;
      while i < LC_LAST
        invariant 1 <= i <= LC_LAST && Shaped() && AllStored(categories, accepts)
        invariant forall k :: 1 <= k < i ==> savedCategories[k] == was[k]
        invariant forall k :: 1 <= k < i ==> accepts(Canonical(want[k])) && categories[k] == Canonical(want[k])
        invariant forall k :: k == 0 || i <= k < LC_LAST ==> categories[k] == was[k]
        invariant forall k :: i <= k < LC_LAST ==> newCategories[k] == want[k]
      {
        savedCategories := savedCategories[i := categories[i]];
        var r := Load(i);
        if r.None? {
          RollBack(i, was);
          assert !accepts(Canonical(want[1..][i - 1]));
          return false;
        }
        i := i + 1;
      }
      return true;
    }

    /** `_setlocale_r`. */
    method SetLocale(category: int, locale: Option<string>, env: Environment) returns (r: Option<string>)
      requires Valid()
      modifies this
      ensures Valid()
      ensures category < LC_ALL || category >= LC_LAST ==> r == None && categories == old(categories)
      ensures LC_ALL <= category < LC_LAST && locale.None? ==> categories == old(categories)
      ensures LC_ALL <= category < LC_LAST && locale.None? ==>
        r == Some(if category == LC_ALL then Compose(categories[1..]) else categories[category])
      ensures LC_ALL <= category < LC_LAST && locale.Some? ==>
        (categories, r) == Result(old(categories), category,
          Asked(old(categories[1..]), category, locale.value, env, default), accepts)
      ensures LC_ALL <= category < LC_LAST && locale == Some("") ==>
        FollowsEnvironment(old(categories), category, env, default, accepts, categories, r)
      ensures LC_ALL < category < LC_LAST && locale.Some? && locale != Some("") ==>
        OneOrNothing(locale.value, category, accepts, old(categories), categories, r)
      ensures category == LC_ALL && locale.Some? && locale != Some("") && Decompose(locale.value, 6).Some? ==>
        AllOrNothing(Decompose(locale.value, 6).value, accepts, old(categories), categories, r)
    {
      if category < LC_ALL || category >= LC_LAST {
        return None;
      }
      if locale.None? {
        return Some(if category == LC_ALL then globalString else categories[category]);
      }
      ghost var asked := Asked(categories[1..], category, locale.value, env, default);
      if locale == Some("") {
        EnvironmentFollowed(categories, category, env, default, accepts);
      } else if category > 0 {
        OneResult(categories, category, locale.value, accepts);
      } else if Decompose(locale.value, 6).Some? {
        DecomposeShort(locale.value, 6);
        AllResult(categories, Decompose(locale.value, 6).value, accepts);
      }
      var ok := Ask(category, locale.value, env, asked);
      if !ok {
        return None;
      }
      AskedShort(categories[1..], category, locale.value, env, default);
      if category != LC_ALL {
        r := Load(category);
        var _ := CurrentLocale();
        return;
      }
      ok := LoadAll();
      if !ok {
        return None;
      }
      var s := CurrentLocale();
      return Some(s);
    }
  }

  /** After the names `seen`, `rest` is what is left of the names `all`. */
  ghost predicate Rest(all: Option<List>, seen: seq<string>, rest: Option<List>) {
    match rest
    case None => all.None?
    case Some(l) => all.Some? && ToSeq(all.value) == seen + ToSeq(l)
  }

  lemma RestNone(all: Option<List>, seen: seq<string>, s: string, lo: nat, r: nat)
    requires lo <= r <= |s| && Rest(all, seen, Names(s, lo, r, 0))
    ensures all.Some? && ToSeq(all.value) == seen
  {
  }

  lemma OneMoreName(names: seq<string>, i: nat, name: string)
    requires 1 <= i < |names|
    ensures names[i := name][1..i + 1] == names[1..i] + [name]
  {
  }

  lemma RestMore(all: Option<List>, seen: seq<string>, s: string, lo: nat, r: nat, left: nat)
    requires lo <= r <= |s| && 0 < left && r - lo <= ENCODING_LEN && Rest(all, seen, Names(s, lo, r, left))
    ensures var next, more := PastSlashes(s, r), seen + [s[lo..r]];
      if next == |s| then all.Some? && ToSeq(all.value) == more
      else Rest(all, more, Names(s, next, NextSlash(s, next), left - 1))
  {
    var next := PastSlashes(s, r);
    if next == |s| {
      assert ToSeq(Cons(s[lo..r], Nil)) == [s[lo..r]];
    } else {
      var n := Names(s, next, NextSlash(s, next), left - 1);
      if n.Some? {
        assert seen + ([s[lo..r]] + ToSeq(n.value)) == seen + [s[lo..r]] + ToSeq(n.value);
      }
    }
  }

  lemma FillOne(names: seq<string>, n: nat)
    requires 0 < |names| <= n
    ensures Fill(names, n + 1) == Fill(names, n) + [Fill(names, n)[n - 1]]
  {
  }

  method SkipSlashes(s: string, i: nat) returns (k: nat)
    requires i <= |s|
    ensures k == PastSlashes(s, i)
  {
    k := i;
    while k < |s| && s[k] == '/'
      invariant k <= |s| && PastSlashes(s, k) == PastSlashes(s, i)
    {
      k := k + 1;
    }
  }

  /** `strchr` for a slash. */
  method FindSlash(s: string, i: nat) returns (k: nat)
    requires i <= |s|
    ensures k == NextSlash(s, i)
  {
    k := i;
    while k < |s| && s[k] != '/'
      invariant k <= |s| && NextSlash(s, k) == NextSlash(s, i)
    {
      k := k + 1;
    }
  }

  lemma TooLong(was: seq<string>, env: Environment, i: nat, default: string)
    requires |was| == LC_LAST - 1 && 1 <= i < LC_LAST && |FromEnvironment(env, i, default)| > ENCODING_LEN
    ensures Asked(was, LC_ALL, "", env, default).None?
  {
    var names := seq(LC_LAST - 1, (i: nat) requires i < LC_LAST - 1 => FromEnvironment(env, i + 1, default));
    assert names[i - 1] == FromEnvironment(env, i, default);
  }

  lemma EnvironmentNames(was: seq<string>, cats: seq<string>, env: Environment, default: string)
    requires |cats| == LC_LAST && |was| == LC_LAST - 1
    requires forall k :: 1 <= k < LC_LAST ==> cats[k] == FromEnvironment(env, k, default) && |cats[k]| <= ENCODING_LEN
    ensures Asked(was, LC_ALL, "", env, default) == Some(cats[1..])
  {
    var names := seq(LC_LAST - 1, (i: nat) requires i < LC_LAST - 1 => FromEnvironment(env, i + 1, default));
    assert names == cats[1..];
  }

  predicate Short(names: seq<string>) {
    |names| == LC_LAST - 1 && forall i :: 0 <= i < LC_LAST - 1 ==> |names[i]| <= ENCODING_LEN
  }

  predicate AllAccepted(names: seq<string>, accepts: string -> bool) {
    forall i :: 0 <= i < |names| ==> accepts(Canonical(names[i]))
  }

  function Canonicals(names: seq<string>): seq<string> {
    seq(|names|, (i: nat) requires i < |names| => Canonical(names[i]))
  }

  /** The categories after a call and what it returns: all that was asked for is done if every
      name is acceptable, and nothing otherwise. */
  function Result(cats: seq<string>, category: nat, asked: Option<seq<string>>,
                  accepts: string -> bool): (seq<string>, Option<string>)
    requires |cats| == LC_LAST && category < LC_LAST && (asked.Some? ==> |asked.value| == LC_LAST - 1)
  {
    if asked.None? then (cats, None)
    else if category == LC_ALL then
      if AllAccepted(asked.value, accepts) then
        ([cats[0]] + Canonicals(asked.value), Some(Compose(Canonicals(asked.value))))
      else (cats, None)
    else
      var name := Canonical(asked.value[category - 1]);
      if accepts(name) then (cats[category := name], Some(name)) else (cats, None)
  }

  lemma EnvironmentWins(env: Environment, category: nat, default: string, name: string)
    requires 1 <= category <= 6
    ensures Wins(env, OwnVariable(category), default, name) <==> name == FromEnvironment(env, category, default)
  {
  }

  lemma EnvironmentFollowed(cats: seq<string>, category: nat, env: Environment, default: string,
                            accepts: string -> bool)
    requires |cats| == 7 && category <= 6
    ensures var (after, r) := Result(cats, category, Asked(cats[1..], category, "", env, default), accepts);
      |after| == 7 && FollowsEnvironment(cats, category, env, default, accepts, after, r)
  {
    var (after, r) := Result(cats, category, Asked(cats[1..], category, "", env, default), accepts);
    if category > 0 {
      forall name | Wins(env, OwnVariable(category), default, name)
        ensures OneOrNothing(name, category, accepts, cats, after, r)
      {
        EnvironmentWins(env, category, default, name);
        OneResult(cats, category, name, accepts);
      }
    } else {
      forall names | AllWin(env, default, names) ensures AllOrNothing(names, accepts, cats, after, r) {
        WinsAsked(cats[1..], names, env, default);
        AllResult(cats, names, accepts);
      }
    }
  }

  lemma TakenIff(name: string, accepts: string -> bool)
    ensures IsTaken(name, accepts) <==> |name| <= ENCODING_LEN && accepts(Canonical(name))
    ensures |name| <= ENCODING_LEN && accepts(Canonical(name)) ==> TakenAs(name, accepts, Canonical(name))
  {
    if |name| <= ENCODING_LEN && accepts(Canonical(name)) {
      assert TakenAs(name, accepts, Canonical(name));
    }
  }

  lemma OneResult(cats: seq<string>, category: nat, name: string, accepts: string -> bool)
    requires |cats| == 7 && 1 <= category <= 6
    ensures var asked := if |name| <= ENCODING_LEN then Some(cats[1..][category - 1 := name]) else None;
      var (after, r) := Result(cats, category, asked, accepts);
      |after| == 7 && OneOrNothing(name, category, accepts, cats, after, r)
  {
    TakenIff(name, accepts);
  }

  /** The names that the environment gives are those asked for, unless one is too long. */
  lemma WinsAsked(was: seq<string>, names: seq<string>, env: Environment, default: string)
    requires |was| == 6 && AllWin(env, default, names)
    ensures Asked(was, 0, "", env, default) ==
      if forall i :: 0 <= i < |names| ==> |names[i]| <= ENCODING_LEN then Some(names) else None
  {
    EnvironmentWins(env, 1, default, names[0]);
    EnvironmentWins(env, 2, default, names[1]);
    EnvironmentWins(env, 3, default, names[2]);
    EnvironmentWins(env, 4, default, names[3]);
    EnvironmentWins(env, 5, default, names[4]);
    EnvironmentWins(env, 6, default, names[5]);
    var asked := seq(LC_LAST - 1, (i: nat) requires i < LC_LAST - 1 => FromEnvironment(env, i + 1, default));
    assert asked == names;
  }

  lemma AllResult(cats: seq<string>, names: seq<string>, accepts: string -> bool)
    requires |cats| == 7 && |names| == 6
    ensures var short := forall i :: 0 <= i < |names| ==> |names[i]| <= ENCODING_LEN;
      var (after, r) := Result(cats, 0, if short then Some(names) else None, accepts);
      |after| == 7 && AllOrNothing(names, accepts, cats, after, r)
  {
    forall k | 0 <= k < 6
      ensures IsTaken(names[k], accepts) <==> |names[k]| <= ENCODING_LEN && accepts(Canonical(names[k]))
    {
      TakenIff(names[k], accepts);
    }
    var after := [cats[0]] + Canonicals(names);
    assert after[1..] == Canonicals(names);
    forall k | 0 <= k < 6 && IsTaken(names[k], accepts) ensures TakenAs(names[k], accepts, after[k + 1]) {
      TakenIff(names[k], accepts);
    }
  }

  lemma AskedShort(cats: seq<string>, category: nat, locale: string, env: Environment, default: string)
    requires |cats| == LC_LAST - 1 && category < LC_LAST && Asked(cats, category, locale, env, default).Some?
    ensures category == LC_ALL ==> Short(Asked(cats, category, locale, env, default).value)
    ensures category > LC_ALL ==> |Asked(cats, category, locale, env, default).value[category - 1]| <= ENCODING_LEN
  {
    if category == LC_ALL && locale != "" {
      DecomposeShort(locale, LC_LAST - 1);
    }
  }

  /** The string that a call for LC_ALL returned brings the same names back later, from
      whatever state, if none of them holds a slash or is empty. */
  lemma Restored(cats: seq<string>, later: seq<string>, accepts: string -> bool, env: Environment, default: string)
    requires |cats| == |later| == LC_LAST
    requires forall i :: 1 <= i < LC_LAST ==> Stored(cats[i], accepts) && Simple(cats[i])
    ensures Compose(cats[1..]) != ""
    ensures Result(later, LC_ALL, Asked(later[1..], LC_ALL, Compose(cats[1..]), env, default), accepts) ==
      ([later[0]] + cats[1..], Some(Compose(cats[1..])))
  {
    var names := cats[1..];
    RoundTrip(names);
    assert Canonicals(names) == names;
    assert Simple(names[0]);
  }
}
