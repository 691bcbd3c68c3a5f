/** What a typed line is taken for: its number, its text, and the blanks around them. */
module BasicEntry {
  import opened Bytes
  import opened BasicLines
  import opened BasicNumber
  import opened BasicExpr
  import opened BasicText

  /** Decimal digits are read as the number they stand for, up to where the overflow trap
      closes. */
  lemma {:induction false} DigitsTaken(n: nat, s: seq<byte>, i: nat)
    requires Stands(s, i, DigitsOf(n))
    ensures n / 10 < MAX_UINT / 10 ==> Digits(s, i, 0) == Digits(s, i + |DigitsOf(n)|, n)
    ensures n / 10 >= MAX_UINT / 10 ==> Digits(s, i, 0).0 == MAX_UINT
    decreases n
  {
    if n > 0 {
      var q, c: byte := n / 10, 48 + n % 10;
      assert DigitsOf(n) == DigitsOf(q) + [c];
      StandsParts(s, i, DigitsOf(q), [c]);
      DigitsTaken(q, s, i);
      StandsByte(s, i + |DigitsOf(q)|, c);
      DigitTaken(s, i + |DigitsOf(q)|, q, n);
    }
  }

  /** One more digit. */
  lemma DigitTaken(s: seq<byte>, k: nat, q: nat, n: nat)
    requires k < |s| && q == n / 10 && At(s, k) == 48 + n % 10
    ensures Digits(s, k, q) == if q >= MAX_UINT / 10 then (MAX_UINT, k) else Digits(s, k + 1, n)
  {
    assert q * 10 + n % 10 == n;
  }

  lemma DigitsEnd(s: seq<byte>, i: nat, num: nat)
    requires i <= |s| && !IsDigit(At(s, i))
    ensures Digits(s, i, num) == (num, i)
  {
  }

  lemma BlanksSkipped(s: seq<byte>, i: nat, w: seq<byte>)
    requires Stands(s, i, w) && Blanks(w) && At(s, i + |w|) != 32 && At(s, i + |w|) != 9
    ensures SkipBlanks(s, i) == i + |w|
  {
    SkipOver(s, i, w);
  }

  lemma DigitsFirst(n: nat)
    requires n > 0
    ensures DigitsOf(n) != [] && IsDigit(DigitsOf(n)[0])
  {
    DecimalFirst(n);
  }

  /** The parts of a typed line: blanks, a number or nothing, blanks, a text, and the newline. */
  ghost predicate Parts(s: seq<byte>, b: seq<byte>, d: seq<byte>, w: seq<byte>, text: seq<byte>) {
    && s == b + d + w + text + [10] && Blanks(b) && Blanks(w) && 10 !in text
    && (text != [] ==> text[0] != 32 && text[0] != 9 && (w == [] ==> !IsDigit(text[0])))
  }

  lemma PartsStand(s: seq<byte>, b: seq<byte>, d: seq<byte>, w: seq<byte>, text: seq<byte>)
    requires Parts(s, b, d, w, text)
    ensures Stands(s, 0, b) && Stands(s, |b|, d) && Stands(s, |b| + |d|, w)
    ensures Stands(s, |b| + |d| + |w|, text + [10]) && |s| == |b| + |d| + |w| + |text| + 1
  {
    assert b + d + w + text + [10] == b + d + w + (text + [10]);
    assert Stands(s, 0, b + d + w + (text + [10]));
    StandsParts(s, 0, b + d + w, text + [10]);
    StandsParts(s, 0, b + d, w);
    StandsParts(s, 0, b, d);
  }

  /** The line is complete: the newline at its end is the only one. */
  lemma PartsTyped(s: seq<byte>, b: seq<byte>, d: seq<byte>, w: seq<byte>, text: seq<byte>)
    requires Parts(s, b, d, w, text) && forall k :: 0 <= k < |d| ==> IsDigit(d[k])
    ensures Typed(s)
  {
    var pre := b + d + w + text;
    assert s == pre + [10];
    assert forall k {:trigger pre[k]} :: 0 <= k < |pre| ==> pre[k] != 10;
    assert forall k {:trigger s[k]} :: 0 <= k < |pre| ==> s[k] == pre[k];
  }

  lemma {:induction false} AllDigits(n: nat)
    ensures forall k :: 0 <= k < |DigitsOf(n)| ==> IsDigit(DigitsOf(n)[k])
    decreases n
  {
    if n > 0 {
      AllDigits(n / 10);
    }
  }

  /** What stands behind the number at `i`, up to the newline, is the text. */
  lemma TextTaken(s: seq<byte>, num: nat, i: nat, w: seq<byte>, text: seq<byte>)
    requires Typed(s) && NumberOf(s) == (num, i) && Stands(s, i, w) && Blanks(w)
    requires Stands(s, i + |w|, text + [10]) && |s| == i + |w| + |text| + 1
    requires text != [] ==> text[0] != 32 && text[0] != 9
    ensures Entry(s) == Line(num % 0x1_0000_0000, text)
  {
    FirstStands(s, i + |w|, text + [10]);
    BlanksSkipped(s, i, w);
    EntryParts(s);
    assert s[i + |w|..] == s[i + |w|..i + |w| + |text + [10]|] == text + [10];
    assert Entry(s).text == (Entry(s).text + [10])[..|text|];
    assert text == (text + [10])[..|text|];
  }

  /** A typed line with a number: the number counts modulo 2^32, and from where the overflow trap
      closes it is the reserved one. */
  lemma NumberedEntry(s: seq<byte>, b: seq<byte>, n: nat, w: seq<byte>, text: seq<byte>)
    requires n > 0 && Parts(s, b, DigitsOf(n), w, text)
    ensures Typed(s)
    ensures n / 10 < MAX_UINT / 10 ==> Entry(s) == Line(n % 0x1_0000_0000, text)
    ensures n / 10 >= MAX_UINT / 10 ==> Entry(s).num == 0xFFFF_FFFF
  {
    var d := DigitsOf(n);
    var i, j := |b|, |b| + |d|;
    PartsStand(s, b, d, w, text);
    AllDigits(n);
    PartsTyped(s, b, d, w, text);
    DigitsFirst(n);
    FirstStands(s, i, d);
    BlanksSkipped(s, 0, b);
    DigitsTaken(n, s, i);
    if n / 10 < MAX_UINT / 10 {
      NumberTaken(s, n, i, j, w, text);
    } else {
      NumberTrapped(s, i);
    }
  }

  lemma NumberTrapped(s: seq<byte>, i: nat)
    requires Typed(s) && SkipBlanks(s, 0) == i && Digits(s, i, 0).0 == MAX_UINT
    ensures Entry(s).num == 0xFFFF_FFFF
  {
    EntryParts(s);
  }

  lemma NumberTaken(s: seq<byte>, n: nat, i: nat, j: nat, w: seq<byte>, text: seq<byte>)
    requires Typed(s) && SkipBlanks(s, 0) == i && Digits(s, i, 0) == Digits(s, j, n)
    requires Stands(s, j, w) && Blanks(w) && Stands(s, j + |w|, text + [10]) && |s| == j + |w| + |text| + 1
    requires text != [] ==> text[0] != 32 && text[0] != 9 && (w == [] ==> !IsDigit(text[0]))
    ensures Entry(s) == Line(n % 0x1_0000_0000, text)
  {
    BehindNumber(s, j, w, text);
    DigitsEnd(s, j, n);
    TextTaken(s, n, j, w, text);
  }

  lemma BehindNumber(s: seq<byte>, j: nat, w: seq<byte>, text: seq<byte>)
    requires Stands(s, j, w) && Stands(s, j + |w|, text + [10]) && Blanks(w)
    requires text != [] && w == [] ==> !IsDigit(text[0])
    ensures j <= |s| && !IsDigit(At(s, j))
  {
    FirstStands(s, j + |w|, text + [10]);
    if w != [] {
      FirstStands(s, j, w);
    }
  }

  /** A line number is taken as it is exactly if it is below 2^32; 2^32 itself is taken for a
      direct statement. */
  lemma NumberKept(s: seq<byte>, b: seq<byte>, n: nat, w: seq<byte>, text: seq<byte>)
    requires n > 0 && Parts(s, b, DigitsOf(n), w, text)
    ensures Typed(s) && (Entry(s).num == n <==> n < 0x1_0000_0000)
    ensures n == 0x1_0000_0000 ==> Entry(s).num == 0
  {
    NumberedEntry(s, b, n, w, text);
    Residue(n, Entry(s).num);
  }

  lemma Residue(n: nat, num: nat)
    requires n / 10 < MAX_UINT / 10 ==> num == n % 0x1_0000_0000
    requires n / 10 >= MAX_UINT / 10 ==> num == 0xFFFF_FFFF
    ensures num == n <==> n < 0x1_0000_0000
    ensures n == 0x1_0000_0000 ==> num == 0
  {
  }

  /** A typed line without a number is a direct statement. */
  lemma DirectEntry(s: seq<byte>, b: seq<byte>, text: seq<byte>)
    requires Parts(s, b, [], [], text)
    ensures Typed(s) && Entry(s) == Line(0, text)
  {
    PartsStand(s, b, [], [], text);
    PartsTyped(s, b, [], [], text);
    FirstStands(s, |b|, text + [10]);
    BlanksSkipped(s, 0, b);
    DigitsEnd(s, |b|, 0);
    TextTaken(s, 0, |b|, [], text);
  }
}
