/** The program store of basic.c as a value: numbered lines and their byte encoding. */
module BasicLines {
  import opened Bytes

  const NL: byte := 10

  /** sizeof(LINENUM) + sizeof(char): the line number and the length byte. */
  const HEADER := 5

  /** The line number that is never stored. */
  const LINENUM_END := 0xFFFF_FFFF

  datatype Line = Line(num: nat, text: seq<byte>)

  /** The stored lines in order. */
  datatype Listing = End | Then(line: Line, rest: Listing)

  const SPACE: byte := 32
  const TAB: byte := 9

  /** A line as it is read from what was typed: the text holds no newline and does not start
      with a blank. */
  predicate Typeable(l: Line) {
    0 < l.num < LINENUM_END && NL !in l.text && (l.text != [] ==> l.text[0] != SPACE && l.text[0] != TAB)
  }

  /** A line that the store can hold: its text does not start with a blank, its length fits
      the length byte, and the newline that ends it is the only one. */
  predicate Storable(l: Line) {
    Typeable(l) && l.text != [] && |l.text| + HEADER + 1 < 0x100
  }

  /** Storable lines with strictly ascending numbers. */
  predicate Sound(ls: Listing) {
    match ls
    case End => true
    case Then(l, r) => Storable(l) && (r.Then? ==> l.num < r.line.num) && Sound(r)
  }

  // ----- the encoding -----

  function Word(b0: byte, b1: byte, b2: byte, b3: byte): nat {
    b0 + 0x100 * b1 + 0x1_0000 * b2 + 0x100_0000 * b3
  }

  /** An unsigned 32-bit integer, least significant byte first. */
  function LittleEndian(n: nat): seq<byte> {
    [n % 0x100, n / 0x100 % 0x100, n / 0x100 / 0x100 % 0x100, n / 0x100 / 0x100 / 0x100 % 0x100]
  }

  lemma LittleEndianWord(n: nat)
    requires n < 0x1_0000_0000
    ensures var r := LittleEndian(n); Word(r[0], r[1], r[2], r[3]) == n
  {
    var n1 := n / 0x100;
    var n2 := n1 / 0x100;
    var n3 := n2 / 0x100;
    assert n3 < 0x100 && n2 == 0x100 * n3 + n2 % 0x100;
    assert n1 == 0x100 * n2 + n1 % 0x100;
    assert n == 0x100 * n1 + n % 0x100;
  }

  /** A line in the store: number, length of the whole line, text, newline. */
  function EncodeLine(l: Line): seq<byte> {
    LittleEndian(l.num) + [(|l.text| + HEADER + 1) % 0x100] + l.text + [NL]
  }

  lemma EncodeFields(l: Line)
    requires Storable(l)
    ensures var r := EncodeLine(l);
      && |r| == |l.text| + HEADER + 1 == r[4] && r[HEADER..] == l.text + [NL]
      && Word(r[0], r[1], r[2], r[3]) == l.num
  {
    LittleEndianWord(l.num);
  }

  /** The lines written one after another by `f`. */
  function Written(ls: Listing, f: Line -> seq<byte>): seq<byte> {
    match ls
    case End => []
    case Then(l, r) => f(l) + Written(r, f)
  }

  function Encode(ls: Listing): seq<byte> {
    Written(ls, EncodeLine)
  }

  /** The fields of the first line of an encoded listing. */
  lemma FirstLine(ls: Listing)
    requires Sound(ls) && ls.Then?
    ensures var e, n := Encode(ls), |ls.line.text| + HEADER + 1;
      && HEADER < n <= |e| && e[4] == n && Word(e[0], e[1], e[2], e[3]) == ls.line.num
      && e[HEADER..n - 1] == ls.line.text && e[n - 1] == NL
      && e[..n] == EncodeLine(ls.line) && e[n..] == Encode(ls.rest)
  {
    EncodeFields(ls.line);
    var a, b := EncodeLine(ls.line), Encode(ls.rest);
    assert Encode(ls) == a + b;
    assert (a + b)[HEADER..|a| - 1] == a[HEADER..][..|a| - 1 - HEADER];
  }

  // ----- editing -----

  /** The lines with a number below `n`. */
  function Below(ls: Listing, n: nat): Listing {
    match ls
    case End => End
    case Then(l, r) => if l.num < n then Then(l, Below(r, n)) else End
  }

  /** The lines from the first one on whose number is not below `n`. */
  function From(ls: Listing, n: nat): Listing {
    match ls
    case End => End
    case Then(l, r) => if l.num < n then From(r, n) else ls
  }

  function Append(a: Listing, b: Listing): Listing {
    match a
    case End => b
    case Then(l, r) => Then(l, Append(r, b))
  }

  /** The lines above `n`. */
  function Above(ls: Listing, n: nat): Listing {
    var f := From(ls, n);
    if f.Then? && f.line.num == n then f.rest else f
  }

  /** A numbered line is entered: it replaces the line with its number, and a line without
      text only deletes. */
  function Enter(ls: Listing, l: Line): Listing {
    Append(Below(ls, l.num), if l.text == [] then Above(ls, l.num) else Then(l, Above(ls, l.num)))
  }

  lemma {:induction false} WrittenAppend(a: Listing, b: Listing, f: Line -> seq<byte>)
    ensures Written(Append(a, b), f) == Written(a, f) + Written(b, f)
  {
    match a
    case End =>
    case Then(l, r) =>
      WrittenAppend(r, b, f);
      assert f(l) + (Written(r, f) + Written(b, f)) == (f(l) + Written(r, f)) + Written(b, f);
  }

  lemma EnterWritten(ls: Listing, l: Line, f: Line -> seq<byte>)
    ensures Written(Enter(ls, l), f) ==
      Written(Below(ls, l.num), f) + (if l.text == [] then [] else f(l)) + Written(Above(ls, l.num), f)
  {
    var a, b, c := Below(ls, l.num), Above(ls, l.num), if l.text == [] then [] else f(l);
    WrittenAppend(a, if l.text == [] then b else Then(l, b), f);
    assert Written(a, f) + (c + Written(b, f)) == Written(a, f) + c + Written(b, f);
    assert [] + Written(b, f) == Written(b, f);
  }

  lemma TextIsEmpty(l: Line)
    requires NL !in l.text
    ensures |EncodeLine(l)| > HEADER && (EncodeLine(l)[HEADER] == NL <==> l.text == [])
  {
    assert EncodeLine(l)[HEADER] == (l.text + [NL])[0];
  }

  lemma WrittenStep(o: seq<byte>, ls: Listing, f: Line -> seq<byte>)
    requires ls.Then?
    ensures o + Written(ls, f) == (o + f(ls.line)) + Written(ls.rest, f)
  {
  }

  // ----- the store is a finite map -----

  function AsMap(ls: Listing): map<nat, seq<byte>> {
    match ls
    case End => map[]
    case Then(l, r) => AsMap(r)[l.num := l.text]
  }

  ghost predicate AllAbove(ls: Listing, n: int) {
    forall k :: k in AsMap(ls) ==> k > n
  }

  lemma {:induction false} SoundAbove(ls: Listing, n: int)
    requires Sound(ls) && (ls.Then? ==> ls.line.num > n)
    ensures AllAbove(ls, n)
  {
    match ls
    case End =>
    case Then(l, r) => SoundAbove(r, n);
  }

  lemma {:induction false} SplitSound(ls: Listing, n: nat)
    requires Sound(ls)
    ensures Sound(Below(ls, n)) && Sound(From(ls, n)) && Sound(Above(ls, n))
    ensures ls == Append(Below(ls, n), From(ls, n))
    ensures AllAbove(Above(ls, n), n) && (From(ls, n).Then? ==> From(ls, n).line.num >= n)
  {
    match ls
    case End =>
    case Then(l, r) =>
      if l.num < n {
        SplitSound(r, n);
        assert Above(ls, n) == Above(r, n);
      } else {
        SoundAbove(Above(ls, n), n);
      }
  }

  /** Lines below a number can be followed by lines from that number on. */
  lemma {:induction false} JoinSound(ls: Listing, n: nat, b: Listing)
    requires Sound(ls) && Sound(b) && (b.Then? ==> b.line.num >= n)
    ensures Sound(Below(ls, n)) && Sound(Append(Below(ls, n), b))
  {
    match ls
    case End =>
    case Then(l, r) =>
      if l.num < n {
        JoinSound(r, n, b);
      }
  }

  lemma {:induction false} DeleteMap(ls: Listing, n: nat)
    requires Sound(ls)
    ensures AsMap(Append(Below(ls, n), Above(ls, n))) == AsMap(ls) - {n}
  {
    match ls
    case End =>
    case Then(l, r) =>
      if l.num < n {
        DeleteMap(r, n);
        assert Above(ls, n) == Above(r, n);
      } else {
        SplitSound(ls, n);
      }
  }

  lemma {:induction false} InsertMap(ls: Listing, l: Line, b: Listing)
    ensures AsMap(Append(Below(ls, l.num), Then(l, b))) == AsMap(Append(Below(ls, l.num), b))[l.num := l.text]
  {
    match ls
    case End =>
    case Then(h, r) =>
      if h.num < l.num {
        InsertMap(r, l, b);
      }
  }

  /** Entering a numbered line is the update of a finite map from numbers to texts, and keeps
      the listing sound. */
  lemma EnterIsMapUpdate(ls: Listing, l: Line)
    requires Sound(ls) && (l.text != [] ==> Storable(l))
    ensures Sound(Enter(ls, l))
    ensures AsMap(Enter(ls, l)) == if l.text == [] then AsMap(ls) - {l.num} else AsMap(ls)[l.num := l.text]
  {
    SplitSound(ls, l.num);
    DeleteMap(ls, l.num);
    InsertMap(ls, l, Above(ls, l.num));
    var above := Above(ls, l.num);
    assert above.Then? ==> above.line.num in AsMap(above);
    JoinSound(ls, l.num, if l.text == [] then above else Then(l, above));
  }

  // ----- a typed line -----

  const MAX_UINT := 0xFFFF_FFFF_FFFF_FFFF

  /** What `getln` leaves in memory: characters ended by the only newline. */
  predicate Typed(s: seq<byte>) {
    |s| > 0 && s[|s| - 1] == NL && forall i :: 0 <= i < |s| - 1 ==> s[i] != NL
  }

  function SkipBlanks(s: seq<byte>, i: nat): (r: nat)
    ensures i <= r && (i <= |s| ==> r <= |s|)
    decreases |s| - i
  {
    if i < |s| && (s[i] == SPACE || s[i] == TAB) then SkipBlanks(s, i + 1) else i
  }

  predicate IsDigit(c: int) {
    48 <= c <= 57
  }

  /** The number that starts at `i`, and the position after it.  A number about to overflow
      becomes the greatest one, and its remaining digits are left standing. */
  function Digits(s: seq<byte>, i: nat, num: nat): (r: (nat, nat))
    ensures i <= r.1 && (i <= |s| ==> r.1 <= |s|)
    decreases |s| - i
  {
    if i < |s| && IsDigit(s[i]) then
      if num >= MAX_UINT / 10 then (MAX_UINT, i) else Digits(s, i + 1, num * 10 + (s[i] - 48))
    else (num, i)
  }

  /** The number at the start of a line, after blanks, and the position after it. */
  function NumberOf(s: seq<byte>): (nat, nat) {
    Digits(s, SkipBlanks(s, 0), 0)
  }

  /** The line number, reduced to 32 bits, and the text after it without leading blanks. */
  function Entry(s: seq<byte>): (r: Line)
    requires Typed(s)
    ensures NL !in r.text && |r.text| < |s|
  {
    var (num, i) := NumberOf(s);
    var k := SkipBlanks(s, i);
    BlanksBefore(s, i);
    DigitsBefore(s, SkipBlanks(s, 0), 0);
    BlanksBefore(s, 0);
    Line(num % 0x1_0000_0000, s[k..|s| - 1])
  }

  /** The newline is neither a blank nor a digit. */
  lemma {:induction false} BlanksBefore(s: seq<byte>, i: nat)
    requires Typed(s)
    ensures i < |s| ==> SkipBlanks(s, i) < |s|
    decreases |s| - i
  {
    if i < |s| && (s[i] == SPACE || s[i] == TAB) {
      BlanksBefore(s, i + 1);
    }
  }

  lemma {:induction false} BlanksEnd(s: seq<byte>, i: nat)
    ensures var k := SkipBlanks(s, i); k < |s| ==> s[k] != SPACE && s[k] != TAB
    decreases |s| - i
  {
    if i < |s| && (s[i] == SPACE || s[i] == TAB) {
      BlanksEnd(s, i + 1);
    }
  }

  lemma {:induction false} DigitsBefore(s: seq<byte>, i: nat, num: nat)
    requires Typed(s)
    ensures i < |s| ==> Digits(s, i, num).1 < |s|
    decreases |s| - i
  {
    if i < |s| && IsDigit(s[i]) && num < MAX_UINT / 10 {
      DigitsBefore(s, i + 1, num * 10 + (s[i] - 48));
    }
  }

  /** A number other than zero takes at least one digit. */
  lemma NumberTakesRoom(s: seq<byte>, i: nat)
    ensures Digits(s, i, 0).0 != 0 ==> Digits(s, i, 0).1 > i
  {
  }

  /** Where the text of a typed line begins. */
  function TextStart(s: seq<byte>): nat {
    SkipBlanks(s, NumberOf(s).1)
  }

  lemma EntryParts(s: seq<byte>)
    requires Typed(s)
    ensures Entry(s).num == NumberOf(s).0 % 0x1_0000_0000
    ensures TextStart(s) < |s| && s[TextStart(s)..] == Entry(s).text + [NL]
    ensures Entry(s).num != 0 ==> TextStart(s) > 0
    ensures Entry(s).text != [] ==> Entry(s).text[0] != SPACE && Entry(s).text[0] != TAB
  {
    BlanksEnd(s, NumberOf(s).1);
    var i := Digits(s, SkipBlanks(s, 0), 0).1;
    BlanksBefore(s, 0);
    DigitsBefore(s, SkipBlanks(s, 0), 0);
    BlanksBefore(s, i);
    NumberTakesRoom(s, SkipBlanks(s, 0));
  }

  /** The length of a stored line, as the byte `linelen` counts it. */
  function LengthByte(l: Line): byte {
    (|l.text| + HEADER + 1) % 0x100
  }

  /** The bytes of the program after the merge of an entered line: as many of the line as its
      length byte says. */
  function Merged(ls: Listing, l: Line): seq<byte> {
    Encode(Below(ls, l.num)) + (if l.text == [] then [] else EncodeLine(l)[..LengthByte(l)]) + Encode(Above(ls, l.num))
  }

  /** The merge enters the line exactly if its length fits a byte. */
  lemma MergedIffFits(ls: Listing, l: Line)
    ensures Merged(ls, l) == Encode(Enter(ls, l)) <==> |l.text| + HEADER + 1 < 0x100
  {
    EnterWritten(ls, l, EncodeLine);
    var a, w, b := Encode(Below(ls, l.num)), EncodeLine(l), Encode(Above(ls, l.num));
    assert |w| == |l.text| + HEADER + 1;
    if |w| < 0x100 {
      assert w[..|w|] == w;
    } else {
      assert |a + w + b| != |a + w[..LengthByte(l)] + b|;
    }
  }

  /** If the length comes to 256, the line with the number is deleted instead. */
  lemma MergedDeletes(ls: Listing, l: Line)
    requires |l.text| + HEADER + 1 == 0x100
    ensures Merged(ls, l) == Encode(Enter(ls, Line(l.num, [])))
  {
    EnterWritten(ls, Line(l.num, []), EncodeLine);
  }

  /** The merge as it is decided by the byte behind the header. */
  lemma MergePlan(ls: Listing, l: Line, e: seq<byte>)
    requires Sound(ls) && Typeable(l) && e == EncodeLine(l)
    ensures |e| > HEADER && Merged(ls, l) ==
      Encode(Below(ls, l.num)) + (if e[HEADER] == NL then [] else e[..LengthByte(l)]) + Encode(Above(ls, l.num))
    ensures |l.text| + HEADER + 1 < 0x100 ==> Sound(Enter(ls, l)) && Merged(ls, l) == Encode(Enter(ls, l))
  {
    TextIsEmpty(l);
    if |l.text| + HEADER + 1 < 0x100 {
      MergedIffFits(ls, l);
      EnterIsMapUpdate(ls, l);
    }
  }

  // ----- many lines -----

  /** The lines of `more` are entered one after another. */
  function EnterAll(ls: Listing, more: seq<Line>): Listing {
    if more == [] then ls else Enter(EnterAll(ls, more[..|more| - 1]), more[|more| - 1])
  }

  function UpdateAll(m: map<nat, seq<byte>>, more: seq<Line>): map<nat, seq<byte>> {
    if more == [] then m else
      var l, r := more[|more| - 1], UpdateAll(m, more[..|more| - 1]);
      if l.text == [] then r - {l.num} else r[l.num := l.text]
  }

  /** Over any sequence of entries the store is a finite map from numbers to texts. */
  lemma {:induction false} EntriesAreUpdates(ls: Listing, more: seq<Line>)
    requires Sound(ls) && forall l :: l in more && l.text != [] ==> Storable(l)
    ensures Sound(EnterAll(ls, more)) && AsMap(EnterAll(ls, more)) == UpdateAll(AsMap(ls), more)
  {
    if more != [] {
      EntriesAreUpdates(ls, more[..|more| - 1]);
      EnterIsMapUpdate(EnterAll(ls, more[..|more| - 1]), more[|more| - 1]);
    }
  }

  function LinesOf(ls: Listing): seq<Line> {
    match ls
    case End => []
    case Then(l, r) => [l] + LinesOf(r)
  }

  lemma {:induction false} EnterLast(done: Listing, l: Line, rest: Listing)
    requires Sound(Append(done, Then(l, rest)))
    ensures Enter(done, l) == Append(done, Then(l, End))
    ensures Append(done, Then(l, rest)) == Append(Append(done, Then(l, End)), rest)
  {
    match done
    case End => assert Storable(l);
    case Then(h, r) =>
      HeadBelow(h, r, l, rest);
      EnterLast(r, l, rest);
  }

  lemma {:induction false} HeadBelow(h: Line, r: Listing, l: Line, rest: Listing)
    requires Sound(Append(Then(h, r), Then(l, rest)))
    ensures h.num < l.num
    decreases r
  {
    assert Append(Then(h, r), Then(l, rest)) == Then(h, Append(r, Then(l, rest)));
    if r.Then? {
      HeadBelow(r.line, r.rest, l, rest);
    }
  }

  lemma {:induction false} EnterAllConcat(ls: Listing, a: seq<Line>, b: seq<Line>)
    ensures EnterAll(ls, a + b) == EnterAll(EnterAll(ls, a), b)
    decreases |b|
  {
    if b == [] {
      assert a + b == a;
    } else {
      EnterAllConcat(ls, a, b[..|b| - 1]);
      assert (a + b)[..|a + b| - 1] == a + b[..|b| - 1];
    }
  }

  lemma {:induction false} ReloadAfter(done: Listing, ls: Listing)
    requires Sound(Append(done, ls))
    ensures EnterAll(done, LinesOf(ls)) == Append(done, ls)
    decreases ls
  {
    match ls
    case End => AppendEnd(done);
    case Then(l, r) =>
      EnterLast(done, l, r);
      EnterAllConcat(done, [l], LinesOf(r));
      assert [l][..0] == [];
      ReloadAfter(Append(done, Then(l, End)), r);
  }

  lemma {:induction false} AppendEnd(ls: Listing)
    ensures Append(ls, End) == ls
  {
    match ls
    case End =>
    case Then(_, r) => AppendEnd(r);
  }

  /** Entering the lines of a listing into an empty store gives the listing back. */
  lemma Reload(ls: Listing)
    requires Sound(ls)
    ensures EnterAll(End, LinesOf(ls)) == ls
  {
    ReloadAfter(End, ls);
  }
}
