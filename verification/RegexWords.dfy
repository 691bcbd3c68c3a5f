/** The language of a regular expression as a set of strings: whether a piece of a text is a word
    depends on nothing but the piece. */
module RegexWords {
  import opened Bytes
  import opened RegexLanguage
  import opened RegexRuns
  import opened RegexCompile

  ghost predicate Word(re: Re, w: seq<byte>)
    decreases re, 0
  {
    match re
    case Nil => w == []
    case Cons(h, t) => exists n :: 0 <= n <= |w| && WordItem(h, w[..n]) && Word(t, w[n..])
  }

  ghost predicate WordItem(it: Item, w: seq<byte>)
    decreases it, 0
  {
    match it
    case One(Chr(c)) => w == [c]
    case One(Any) => |w| == 1
    case One(AnyOf(cs)) => |w| == 1 && w[0] in cs
    case One(_) => w == []
    case Plus(b) => exists n: nat :: n >= 1 && Power(b, n, w)
    case Quest(b) => w == [] || Word(b, w)
    case Choice(f, r) => Word(f, w) || WordAlts(r, w)
  }

  ghost predicate WordAlts(a: Alts, w: seq<byte>)
    decreases a, 0
  {
    match a
    case Last(re) => Word(re, w)
    case More(re, rest) => Word(re, w) || WordAlts(rest, w)
  }

  /** `n` words, one after another. */
  ghost predicate Power(b: Re, n: nat, w: seq<byte>)
    decreases b, n + 1
  {
    if n == 0 then w == []
    else exists m :: 0 <= m <= |w| && Power(b, n - 1, w[..m]) && Word(b, w[m..])
  }

  lemma Pieces(text: seq<byte>, i: int, k: int, j: int)
    requires 0 <= i <= k <= j <= |text|
    ensures text[i..j][..k - i] == text[i..k] && text[i..j][k - i..] == text[k..j]
  {
  }

  /** The matcher's language is that of the strings. */
  lemma {:induction false} LangIffWord(re: Re, text: seq<byte>, i: int, j: int)
    requires 0 <= i <= j <= |text|
    ensures Lang(re, text, i, j) <==> Word(re, text[i..j])
    decreases re, 0
  {
    match re
    case Nil =>
    case Cons(h, t) =>
      if Lang(re, text, i, j) {
        var k := LangFirst(re, text, i, j);
        LangItemBounds(h, text, i, k);
        LangBounds(t, text, k, j);
        Pieces(text, i, k, j);
        LangItemIffWord(h, text, i, k);
        LangIffWord(t, text, k, j);
      }
      var w := text[i..j];
      if Word(re, w) {
        var n :| 0 <= n <= |w| && WordItem(h, w[..n]) && Word(t, w[n..]);
        Pieces(text, i, i + n, j);
        LangItemIffWord(h, text, i, i + n);
        LangIffWord(t, text, i + n, j);
      }
  }

  lemma {:induction false} LangItemIffWord(it: Item, text: seq<byte>, i: int, j: int)
    requires 0 <= i <= j <= |text|
    ensures LangItem(it, text, i, j) <==> WordItem(it, text[i..j])
    decreases it, 0
  {
    match it
    case One(_) => assert i < j ==> text[i..j][0] == text[i];
    case Plus(b) =>
      forall n: nat ensures Rep(b, n, text, i, j) <==> Power(b, n, text[i..j]) {
        RepIffPower(b, n, text, i, j);
      }
    case Quest(b) => LangIffWord(b, text, i, j);
    case Choice(f, r) =>
      LangIffWord(f, text, i, j);
      LangAltsIffWord(r, text, i, j);
  }

  lemma {:induction false} LangAltsIffWord(a: Alts, text: seq<byte>, i: int, j: int)
    requires 0 <= i <= j <= |text|
    ensures LangAlts(a, text, i, j) <==> WordAlts(a, text[i..j])
    decreases a, 0
  {
    LangIffWord(a.re, text, i, j);
    if a.More? {
      LangAltsIffWord(a.rest, text, i, j);
    }
  }

  lemma LastWord(b: Re, n: nat, text: seq<byte>, i: int, j: int) returns (k: int)
    requires n > 0 && Rep(b, n, text, i, j)
    ensures Rep(b, n - 1, text, i, k) && Lang(b, text, k, j)
  {
    k :| Rep(b, n - 1, text, i, k) && Lang(b, text, k, j);
  }

  lemma {:induction false} RepIffPower(b: Re, n: nat, text: seq<byte>, i: int, j: int)
    requires 0 <= i <= j <= |text|
    ensures Rep(b, n, text, i, j) <==> Power(b, n, text[i..j])
    decreases b, n + 1
  {
    if n > 0 {
      var w := text[i..j];
      if Rep(b, n, text, i, j) {
        var k := LastWord(b, n, text, i, j);
        RepBounds(b, n - 1, text, i, k);
        LangBounds(b, text, k, j);
        Pieces(text, i, k, j);
        RepIffPower(b, n - 1, text, i, k);
        LangIffWord(b, text, k, j);
      }
      if Power(b, n, w) {
        var m :| 0 <= m <= |w| && Power(b, n - 1, w[..m]) && Word(b, w[m..]);
        Pieces(text, i, i + m, j);
        RepIffPower(b, n - 1, text, i, i + m);
        LangIffWord(b, text, i + m, j);
      }
    }
  }
}
