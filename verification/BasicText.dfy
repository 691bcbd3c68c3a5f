/** What the evaluator does with pieces of text, one rule for each step. */
module BasicText {
  import opened Bytes
  import opened BasicLines
  import opened BasicNumber
  import opened BasicExpr

  function Absolute(v: int): int {
    if v < 0 then Wrap(-v) else v
  }

  function Total(plus: bool, a: int, b: int): int {
    if plus then Wrap(a + b) else Wrap(a - b)
  }

  function Product(times: bool, a: int, b: int): int {
    if times then Wrap(a * b) else if b == 0 then a else Wrap(Truncated(a, b))
  }

  /** The functions PEEK, ABS, RND, PUTC and GETC.  PEEK and GETC look outside the text. */
  datatype Func = Peek | Abs | Rnd | Putc | Getc

  function FuncName(f: Func): seq<byte> {
    match f
    case Peek => [80, 69, 69, 75]
    case Abs => [65, 66, 83]
    case Rnd => [82, 78, 68]
    case Putc => [80, 85, 84, 67]
    case Getc => [71, 69, 84, 67]
  }

  /** RND is always 3, and PUTC yields what it writes. */
  function Applied(f: Func, env: Env, v: int): int {
    match f
    case Peek => env.outside(0, v)
    case Abs => Absolute(v)
    case Rnd => 3
    case Putc => v
    case Getc => env.outside(6, v)
  }

  /** Where the function stands in the table. */
  function FuncIndex(f: Func): nat {
    match f
    case Peek => 0
    case Abs => 1
    case Rnd => 4
    case Putc => 5
    case Getc => 6
  }

  // ----- what may follow -----

  predicate After5(c: byte) {
    !IsDigit(c) && !IsLetter(c)
  }

  predicate After4(c: byte) {
    After5(c) && c != SPACE && c != TAB
  }

  predicate After3(c: byte) {
    After4(c) && c != 42 && c != 47
  }

  predicate After2(c: byte) {
    After3(c) && c != 43 && c != 45
  }

  /** A character that ends an expression: none that could continue it. */
  predicate Terminator(c: byte) {
    After2(c) && c != 60 && c != 61 && c != 62 && c != 33
  }

  /** The piece of text `p` stands at `i`. */
  ghost predicate Stands(t: seq<byte>, i: nat, p: seq<byte>) {
    i + |p| <= |t| && t[i..i + |p|] == p
  }

  lemma StandsParts(t: seq<byte>, i: nat, a: seq<byte>, b: seq<byte>)
    requires Stands(t, i, a + b)
    ensures Stands(t, i, a) && Stands(t, i + |a|, b)
  {
    var s := t[i..i + |a + b|];
    assert t[i..i + |a|] == s[..|a|];
    assert t[i + |a|..i + |a| + |b|] == s[|a|..];
  }

  lemma StandsByte(t: seq<byte>, i: nat, c: byte)
    requires Stands(t, i, [c])
    ensures i < |t| && At(t, i) == c
  {
    assert t[i] == t[i..i + 1][0];
  }

  /** Blanks and tabs. */
  predicate Blanks(w: seq<byte>) {
    forall k :: 0 <= k < |w| ==> w[k] == 32 || w[k] == 9
  }

  lemma {:induction false} SkipOver(t: seq<byte>, i: nat, w: seq<byte>)
    requires Stands(t, i, w) && Blanks(w)
    ensures SkipBlanks(t, i) == SkipBlanks(t, i + |w|)
    decreases |w|
  {
    if w != [] {
      assert w == [w[0]] + w[1..];
      StandsParts(t, i, [w[0]], w[1..]);
      StandsByte(t, i, w[0]);
      SkipOver(t, i + 1, w[1..]);
    }
  }

  predicate Opens(c: byte) {
    IsDigit(c) || IsLetter(c) || c == 40 || c == 45
  }

  lemma {:induction false} DecimalFirst(n: nat)
    ensures |Decimal(n)| > 0 && IsDigit(Decimal(n)[0]) && (n > 0 ==> Decimal(n)[0] != 48)
    decreases n
  {
    if n >= 10 {
      DecimalFirst(n / 10);
    } else if n > 0 {
      assert DigitsOf(0) == [];
    }
  }

  lemma FirstStands(t: seq<byte>, i: nat, p: seq<byte>)
    requires Stands(t, i, p) && |p| > 0
    ensures i < |t| && At(t, i) == p[0]
  {
    assert t[i] == t[i..i + |p|][0];
  }

  // ----- keywords -----

  lemma NoRelop(t: seq<byte>, j: nat)
    requires j <= |t| && Terminator(At(t, j))
    ensures ScanTable(t, j, RELOP_TAB) == (7, j)
  {
    NotFound(t, j, RELOP_TAB);
  }

  lemma {:induction false} NotFound(t: seq<byte>, j: nat, table: seq<seq<byte>>)
    requires j <= |t| && forall k :: 0 <= k < |table| ==> |table[k]| > 0 && At(t, j) != table[k][0]
    ensures ScanTable(t, j, table) == (|table|, j)
  {
    if table != [] {
      Differs(t, j, table[0], 0);
      NotFound(t, j, table[1..]);
    }
  }

  /** The first keyword of the table that fits is the one that stands there. */
  lemma {:induction false} Found(t: seq<byte>, j: nat, table: seq<seq<byte>>, k: nat)
    requires k < |table| && Stands(t, j, table[k])
    requires forall m :: 0 <= m < k ==> !StartsAt(t, j, table[m])
    ensures ScanTable(t, j, table) == (k, SkipBlanks(t, j + |table[k]|))
  {
    if k > 0 {
      assert !StartsAt(t, j, table[0]);
      Found(t, j, table[1..], k - 1);
    }
  }

  lemma Differs(t: seq<byte>, j: nat, kw: seq<byte>, m: nat)
    requires m < |kw| && At(t, j + m) != kw[m]
    ensures !StartsAt(t, j, kw)
  {
    assert j + |kw| <= |t| ==> At(t, j + m) == t[j..j + |kw|][m];
  }

  /** A relational operator before an operand or blanks is recognized, the longer ones first. */
  lemma RelopFound(t: seq<byte>, j: nat, op: nat)
    requires op < 7 && Stands(t, j, RELOP_TAB[op]) && j + |RELOP_TAB[op]| <= |t|
    requires At(t, j + |RELOP_TAB[op]|) != 61 && At(t, j + |RELOP_TAB[op]|) != 62
    ensures ScanTable(t, j, RELOP_TAB) == (op, SkipBlanks(t, j + |RELOP_TAB[op]|))
  {
    var kw := RELOP_TAB[op];
    assert At(t, j) == t[j..j + |kw|][0] == kw[0];
    assert |kw| == 2 ==> At(t, j + 1) == t[j..j + |kw|][1] == kw[1];
    forall m | 0 <= m < op ensures !StartsAt(t, j, RELOP_TAB[m]) {
      Differs(t, j, RELOP_TAB[m], if RELOP_TAB[m][0] != kw[0] then 0 else 1);
    }
    Found(t, j, RELOP_TAB, op);
  }

  /** The functions are recognized in front of a parenthesis. */
  lemma FuncFound(t: seq<byte>, j: nat, f: Func, w: seq<byte>)
    requires CallHead(t, j, f, w)
    ensures ScanTable(t, j, FUNC_TAB) == (FuncIndex(f), j + |FuncName(f)| + |w|)
    ensures IsLetter(At(t, j)) && IsLetter(At(t, j + 1))
  {
    var k, kw := FuncIndex(f), FuncName(f);
    NameFound(t, j, f, kw);
    assert FUNC_TAB[k] == kw;
    Found(t, j, FUNC_TAB, k);
    SkipOver(t, j + |kw|, w);
  }

  lemma NameFound(t: seq<byte>, j: nat, f: Func, kw: seq<byte>)
    requires kw == FuncName(f) && Stands(t, j, kw)
    ensures IsLetter(At(t, j)) && IsLetter(At(t, j + 1))
    ensures forall m :: 0 <= m < FuncIndex(f) ==> !StartsAt(t, j, FUNC_TAB[m])
  {
    assert At(t, j) == t[j..j + |kw|][0] == kw[0];
    assert At(t, j + 1) == t[j..j + |kw|][1] == kw[1];
    forall m | 0 <= m < FuncIndex(f) ensures !StartsAt(t, j, FUNC_TAB[m]) {
      Differs(t, j, FUNC_TAB[m], if FUNC_TAB[m][0] != kw[0] then 0 else 1);
    }
  }

  /** The name of a function, blanks, and an opening parenthesis. */
  ghost predicate CallHead(t: seq<byte>, i: nat, f: Func, w: seq<byte>) {
    var n := i + |FuncName(f)|;
    && Stands(t, i, FuncName(f)) && Stands(t, n, w) && Blanks(w)
    && n + |w| < |t| && At(t, n + |w|) == 40
  }

  lemma {:induction false} NumberRead(n: nat, t: seq<byte>, i: nat)
    requires Stands(t, i, DigitsOf(n))
    ensures Number(t, i, 0) == Number(t, i + |DigitsOf(n)|, Wrap(n))
    decreases n
  {
    if n > 0 {
      var q, r := n / 10, n % 10;
      assert DigitsOf(n) == DigitsOf(q) + [48 + r];
      StandsParts(t, i, DigitsOf(q), [48 + r]);
      NumberRead(q, t, i);
      StandsByte(t, i + |DigitsOf(q)|, 48 + r);
      WrapDigit(q, r);
    }
  }

  lemma NumEvaluates(n: nat, t: seq<byte>, env: Env, i: nat)
    requires Stands(t, i, Decimal(n)) && After5(At(t, i + |Decimal(n)|))
    ensures Expr4(t, env, i, false) == Res(Wrap(n), i + |Decimal(n)|, false)
  {
    DecimalFirst(n);
    FirstStands(t, i, Decimal(n));
    if n > 0 {
      NumberRead(n, t, i);
    }
  }

  /** What `printnum` writes reads back as the same number, unless it is the least one. */
  lemma PrintedReads(n: int, t: seq<byte>, env: Env, i: nat)
    requires MIN < n <= MAX && Stands(t, i, NumText(n)) && After4(At(t, i + |NumText(n)|))
    ensures Expr4(t, env, i, false) == Res(n, i + |NumText(n)|, false)
  {
    InRange(n);
    if n >= 0 {
      NumEvaluates(n, t, env, i);
    } else {
      InRange(-n);
      StandsParts(t, i, [45], Decimal(-n));
      StandsByte(t, i, 45);
      NumEvaluates(-n, t, env, i + 1);
      PlainNeg(t, env, i, -n, i + |NumText(n)|);
    }
  }

  lemma PlainNeg(t: seq<byte>, env: Env, i: nat, v: int, j: nat)
    requires i < |t| && At(t, i) == 45 && Expr4(t, env, i + 1, false) == Res(v, j, false)
    ensures Expr4(t, env, i, false) == Res(Wrap(-v), j, false)
  {
  }

  lemma PrintedLineReads(n: int, env: Env)
    requires MIN <= n <= MAX
    ensures Expr4(NumText(n) + [NL], env, 0, false) == Res(n, |NumText(n)|, false) <==> n != MIN
  {
    var t := NumText(n) + [NL];
    if n == MIN {
      assert Wrap(-n) == MIN;
      LeastFails(t, env);
    } else {
      PrintedReads(n, t, env, 0);
    }
  }

  /** The least number is written as a minus sign and an opening parenthesis. */
  lemma LeastFails(t: seq<byte>, env: Env)
    requires t == [45, 40, NL]
    ensures Expr4(t, env, 0, false).err
  {
    assert Expr4(t, env, 2, false) == Res(0, 2, true);
    assert Factors(t, env, 0, 2, true) == Res(0, 2, true);
    assert Expr3(t, env, 2, false) == Res(0, 2, true);
    assert Terms(t, env, 0, 2, true) == Res(0, 2, true);
    assert Expr2(t, env, 2, false) == Res(0, 2, true);
    assert Expression(t, env, 2, false) == Res(0, 2, true);
    assert Expr4(t, env, 1, false) == Res(0, 2, true);
  }

  /** Text at `i` of the form `open p close`. */
  lemma Bracketed(t: seq<byte>, i: nat, open: seq<byte>, p: seq<byte>, close: byte)
    requires Stands(t, i, open + p + [close])
    ensures Stands(t, i, open) && Stands(t, i + |open|, p) && At(t, i + |open| + |p|) == close
    ensures i + |open| + |p| + 1 <= |t|
  {
    StandsParts(t, i, open + p, [close]);
    StandsParts(t, i, open, p);
    StandsByte(t, i + |open| + |p|, close);
  }

  /** Text at `i` of the form `left op right`. */
  lemma Joined(t: seq<byte>, i: nat, left: seq<byte>, op: seq<byte>, right: seq<byte>)
    requires Stands(t, i, left + op + right)
    ensures Stands(t, i, left) && Stands(t, i + |left|, op) && Stands(t, i + |left| + |op|, right)
    ensures op != [] ==> i + |left| < |t| && At(t, i + |left|) == op[0]
  {
    StandsParts(t, i, left + op, right);
    StandsParts(t, i, left, op);
    if op != [] {
      FirstStands(t, i + |left|, op);
    }
  }

  /** The same with an operator of one byte. */
  lemma JoinedByte(t: seq<byte>, i: nat, left: seq<byte>, op: byte, right: seq<byte>)
    requires Stands(t, i, left + [op] + right)
    ensures Stands(t, i, left) && i + |left| < |t| && At(t, i + |left|) == op && Stands(t, i + |left| + 1, right)
  {
    Joined(t, i, left, [op], right);
  }

  lemma PlainParen(t: seq<byte>, env: Env, i: nat, v: int, j: nat)
    requires i < |t| && At(t, i) == 40 && Expression(t, env, i + 1, false) == Res(v, j, false)
    requires At(t, j) == 41
    ensures Expr4(t, env, i, false) == Res(v, j + 1, false)
  {
  }

  lemma PlainFunc(t: seq<byte>, env: Env, i: nat, f: Func, w: seq<byte>, k: nat, v: int, j: nat)
    requires CallHead(t, i, f, w) && k == i + |FuncName(f)| + |w|
    requires Expression(t, env, k + 1, false) == Res(v, j, false) && At(t, j) == 41
    ensures Expr4(t, env, i, false) == Res(Applied(f, env, v), j + 1, false)
  {
    FuncFound(t, i, f, w);
    PlainCall(t, env, f, k, v, j);
    PlainName(t, env, i, FuncIndex(f), k);
  }

  lemma PlainName(t: seq<byte>, env: Env, i: nat, f: nat, k: nat)
    requires i < |t| && IsLetter(At(t, i)) && IsLetter(At(t, i + 1)) && k < |t|
    requires ScanTable(t, i, FUNC_TAB) == (f, k) && f != 7 && At(t, k) == 40
    ensures Expr4(t, env, i, false) == Call(t, env, f, k, false)
  {
    assert SkipBlanks(t, i) == i;
  }

  lemma PlainCall(t: seq<byte>, env: Env, f: Func, k: nat, v: int, j: nat)
    requires k < |t| && Expression(t, env, k + 1, false) == Res(v, j, false) && At(t, j) == 41
    ensures Call(t, env, FuncIndex(f), k, false) == Res(Applied(f, env, v), j + 1, false)
  {
    assert Apply(t, env, FuncIndex(f), v, j + 1, false) == Res(Applied(f, env, v), j + 1, false);
  }

  lemma PlainMinus(t: seq<byte>, env: Env, i: nat, v: int, j: nat)
    requires i < |t| && At(t, i) == 45 && Expr3(t, env, i + 1, false) == Res(v, j, false)
    ensures Expr2(t, env, i, false) == Terms(t, env, Wrap(-v), j, false)
  {
  }

  // ----- the evaluator as a reader of a text -----

  /** What the levels of the evaluator make of the text at each position, when no error is
      set.  `factors` and `terms` are the loops, which also take the value so far. */
  datatype Reader = Reader(
    t: seq<byte>, env: Env, e4: nat -> Res, e3: nat -> Res, e2: nat -> Res, e0: nat -> Res,
    factors: (int, nat) -> Res, terms: (int, nat) -> Res)

  function ReaderOf(t: seq<byte>, env: Env): Reader {
    Reader(t, env,
           (i: nat) => if i <= |t| then Expr4(t, env, i, false) else Res(0, i, true),
           (i: nat) => if i <= |t| then Expr3(t, env, i, false) else Res(0, i, true),
           (i: nat) => if i <= |t| then Expr2(t, env, i, false) else Res(0, i, true),
           (i: nat) => if i <= |t| then Expression(t, env, i, false) else Res(0, i, true),
           (a: int, i: nat) => if i <= |t| then Factors(t, env, a, i, false) else Res(0, i, true),
           (a: int, i: nat) => if i <= |t| then Terms(t, env, a, i, false) else Res(0, i, true))
  }

  /** A predicate to instantiate the definition of `Genuine` with: the proofs about trees use
      the rules below and never look into the evaluator. */
  ghost predicate Look(k: nat) {
    true
  }

  ghost predicate Genuine(m: Reader) {
    forall k: nat {:trigger Look(k)} :: Look(k) ==> m == ReaderOf(m.t, m.env)
  }

  lemma Open(m: Reader)
    requires Genuine(m)
    ensures m == ReaderOf(m.t, m.env)
  {
    assert Look(0);
  }

  ghost predicate NoBlank(c: byte) {
    c != SPACE && c != TAB
  }

  lemma StepNeg(m: Reader, i: nat, v: int, j: nat)
    requires Genuine(m) && i < |m.t| && At(m.t, i) == 45 && m.e4(i + 1) == Res(v, j, false)
    ensures m.e4(i) == Res(Wrap(-v), j, false)
  {
    Open(m);
  }

  lemma StepParen(m: Reader, i: nat, v: int, j: nat)
    requires Genuine(m) && i < |m.t| && At(m.t, i) == 40 && m.e0(i + 1) == Res(v, j, false)
    requires At(m.t, j) == 41
    ensures m.e4(i) == Res(v, j + 1, false)
  {
    Open(m);
    PlainParen(m.t, m.env, i, v, j);
  }

  lemma StepFunc(m: Reader, i: nat, f: Func, w: seq<byte>, k: nat, v: int, j: nat)
    requires Genuine(m) && CallHead(m.t, i, f, w) && k == i + |FuncName(f)| + |w|
    requires m.e0(k + 1) == Res(v, j, false) && At(m.t, j) == 41
    ensures m.e4(i) == Res(Applied(f, m.env, v), j + 1, false)
  {
    Open(m);
    PlainFunc(m.t, m.env, i, f, w, k, v, j);
  }

  /** Blanks in front of an operand. */
  lemma StepBlanks(m: Reader, i: nat, w: seq<byte>)
    requires Genuine(m) && Stands(m.t, i, w) && Blanks(w)
    ensures m.e4(i) == m.e4(i + |w|)
  {
    Open(m);
    SkipOver(m.t, i, w);
  }

  /** Blanks behind the first factor. */
  lemma StepTrail(m: Reader, i: nat, v: int, j: nat, w: seq<byte>)
    requires Genuine(m) && i <= |m.t| && m.e4(i) == Res(v, j, false)
    requires Stands(m.t, j, w) && Blanks(w) && NoBlank(At(m.t, j + |w|))
    ensures m.e3(i) == m.factors(v, j + |w|)
  {
    Open(m);
    SkipOver(m.t, j, w);
  }

  lemma StepVar(m: Reader, i: nat, c: nat)
    requires Genuine(m) && i < |m.t| && c < 26 && At(m.t, i) == 65 + c && !IsLetter(At(m.t, i + 1))
    ensures m.e4(i) == Res(m.env.vars(c), i + 1, false)
  {
    Open(m);
  }

  lemma StepNum(m: Reader, i: nat, n: nat)
    requires Genuine(m) && Stands(m.t, i, Decimal(n)) && After5(At(m.t, i + |Decimal(n)|))
    ensures m.e4(i) == Res(Wrap(n), i + |Decimal(n)|, false)
  {
    Open(m);
    NumEvaluates(n, m.t, m.env, i);
  }

  lemma StepFactor(m: Reader, i: nat, v: int, j: nat)
    requires Genuine(m) && i <= |m.t| && m.e4(i) == Res(v, j, false) && NoBlank(At(m.t, j))
    ensures m.e3(i) == m.factors(v, j)
  {
    Open(m);
  }

  lemma StepProduct(m: Reader, times: bool, va: int, i: nat, vb: int, j: nat)
    requires Genuine(m) && i < |m.t| && At(m.t, i) == (if times then 42 else 47) && (times || vb != 0)
    requires m.e4(i + 1) == Res(vb, j, false)
    ensures m.factors(va, i) == m.factors(Product(times, va, vb), j)
  {
    Open(m);
    if !times {
      QuotTruncates(va, vb);
    }
  }

  lemma StopFactors(m: Reader, v: int, i: nat)
    requires Genuine(m) && i <= |m.t| && At(m.t, i) != 42 && At(m.t, i) != 47
    ensures m.factors(v, i) == Res(v, i, false)
  {
    Open(m);
  }

  lemma StepTerm(m: Reader, i: nat, v: int, j: nat)
    requires Genuine(m) && i <= |m.t| && m.e3(i) == Res(v, j, false) && At(m.t, i) != 45 && At(m.t, i) != 43
    ensures m.e2(i) == m.terms(v, j)
  {
    Open(m);
  }

  lemma StepMinus(m: Reader, i: nat, v: int, j: nat)
    requires Genuine(m) && i < |m.t| && At(m.t, i) == 45 && m.e3(i + 1) == Res(v, j, false)
    ensures m.e2(i) == m.terms(Wrap(-v), j)
  {
    Open(m);
    PlainMinus(m.t, m.env, i, v, j);
  }

  lemma StepSum(m: Reader, plus: bool, va: int, i: nat, vb: int, j: nat)
    requires Genuine(m) && i < |m.t| && At(m.t, i) == (if plus then 43 else 45)
    requires m.e3(i + 1) == Res(vb, j, false)
    ensures m.terms(va, i) == m.terms(Total(plus, va, vb), j)
  {
    Open(m);
  }

  lemma StopTerms(m: Reader, v: int, i: nat)
    requires Genuine(m) && i <= |m.t| && At(m.t, i) != 43 && At(m.t, i) != 45
    ensures m.terms(v, i) == Res(v, i, false)
  {
    Open(m);
  }

  lemma StepAlone(m: Reader, i: nat, v: int, j: nat)
    requires Genuine(m) && i <= |m.t| && m.e2(i) == Res(v, j, false) && Terminator(At(m.t, j))
    ensures m.e0(i) == Res(v, j, false)
  {
    Open(m);
    NoRelop(m.t, j);
  }

  lemma StepCompare(m: Reader, i: nat, op: nat, w: seq<byte>, va: int, j: nat, vb: int, k: nat)
    requires Genuine(m) && i <= |m.t| && op < 7 && m.e2(i) == Res(va, j, false)
    requires RelopAt(m.t, j, op, w) && m.e2(j + |RELOP_TAB[op]| + |w|) == Res(vb, k, false)
    ensures m.e0(i) == Res(Compare(op, va, vb), k, false)
  {
    Open(m);
    RelopSkipped(m.t, j, op, w);
  }

  /** A relational operator with blanks behind it, and then an operand. */
  ghost predicate RelopAt(t: seq<byte>, j: nat, op: nat, w: seq<byte>)
    requires op < 7
  {
    && Stands(t, j, RELOP_TAB[op]) && Stands(t, j + |RELOP_TAB[op]|, w) && Blanks(w)
    && Opens(At(t, j + |RELOP_TAB[op]| + |w|))
  }

  lemma RelopSkipped(t: seq<byte>, j: nat, op: nat, w: seq<byte>)
    requires op < 7 && RelopAt(t, j, op, w)
    ensures ScanTable(t, j, RELOP_TAB) == (op, j + |RELOP_TAB[op]| + |w|)
  {
    if w != [] {
      FirstStands(t, j + |RELOP_TAB[op]|, w);
    }
    RelopFound(t, j, op);
    SkipOver(t, j + |RELOP_TAB[op]|, w);
  }

  // ----- errors, which stay set -----

  lemma ErrNeg(m: Reader, i: nat)
    requires Genuine(m) && i < |m.t| && At(m.t, i) == 45 && m.e4(i + 1).err
    ensures m.e4(i).err
  {
    Open(m);
  }

  lemma ErrParen(m: Reader, i: nat)
    requires Genuine(m) && i < |m.t| && At(m.t, i) == 40 && m.e0(i + 1).err
    ensures m.e4(i).err
  {
    Open(m);
    assert Expression(m.t, m.env, i + 1, false).err;
    assert Paren(m.t, m.env, i, false).err;
  }

  lemma ErrFunc(m: Reader, i: nat, f: Func, w: seq<byte>, k: nat)
    requires Genuine(m) && CallHead(m.t, i, f, w) && k == i + |FuncName(f)| + |w| && m.e0(k + 1).err
    ensures m.e4(i).err
  {
    Open(m);
    FuncFound(m.t, i, f, w);
    ErrCall(m.t, m.env, FuncIndex(f), k);
    PlainName(m.t, m.env, i, FuncIndex(f), k);
  }

  lemma ErrCall(t: seq<byte>, env: Env, f: nat, k: nat)
    requires k < |t| && Expression(t, env, k + 1, false).err
    ensures Call(t, env, f, k, false).err
  {
  }

  lemma ErrFactor(m: Reader, i: nat)
    requires Genuine(m) && i <= |m.t| && m.e4(i).err
    ensures m.e3(i).err
  {
    Open(m);
  }

  /** The second operand sets the error, or is a zero divisor. */
  lemma ErrProduct(m: Reader, times: bool, va: int, i: nat)
    requires Genuine(m) && i < |m.t| && At(m.t, i) == (if times then 42 else 47)
    requires m.e4(i + 1).err || (!times && m.e4(i + 1).v == 0)
    ensures m.factors(va, i).err
  {
    Open(m);
    assert m.e4(i + 1) == Expr4(m.t, m.env, i + 1, false);
  }

  lemma ErrTerm(m: Reader, i: nat)
    requires Genuine(m) && i <= |m.t| && At(m.t, i) != 45 && At(m.t, i) != 43 && m.e3(i).err
    ensures m.e2(i).err
  {
    Open(m);
  }

  lemma ErrMinus(m: Reader, i: nat)
    requires Genuine(m) && i < |m.t| && At(m.t, i) == 45 && m.e3(i + 1).err
    ensures m.e2(i).err
  {
    Open(m);
    assert Expr3(m.t, m.env, i + 1, false).err;
    assert Terms(m.t, m.env, 0, i, false).err;
  }

  lemma ErrSum(m: Reader, plus: bool, va: int, i: nat)
    requires Genuine(m) && i < |m.t| && At(m.t, i) == (if plus then 43 else 45) && m.e3(i + 1).err
    ensures m.terms(va, i).err
  {
    Open(m);
    assert Expr3(m.t, m.env, i + 1, false).err;
  }

  lemma ErrAlone(m: Reader, i: nat)
    requires Genuine(m) && i <= |m.t| && m.e2(i).err
    ensures m.e0(i).err
  {
    Open(m);
  }

  lemma ErrCompare(m: Reader, i: nat, op: nat, w: seq<byte>, va: int, j: nat)
    requires Genuine(m) && i <= |m.t| && op < 7 && m.e2(i) == Res(va, j, false)
    requires RelopAt(m.t, j, op, w) && m.e2(j + |RELOP_TAB[op]| + |w|).err
    ensures m.e0(i).err
  {
    Open(m);
    RelopSkipped(m.t, j, op, w);
  }
}
