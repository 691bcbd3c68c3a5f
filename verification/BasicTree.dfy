/** Expression trees, how they are written, and that the evaluator computes their value. */
module BasicTree {
  import opened Bytes
  import opened BasicLines
  import opened BasicNumber
  import opened BasicExpr
  import opened BasicText

  /** The operators >=, <>, >, =, <=, < and !=. */
  datatype Relation = AtLeast | Unequal | Greater | Equal | AtMost | Less | Different

  function RelText(rel: Relation): seq<byte> {
    match rel
    case AtLeast => [62, 61]
    case Unequal => [60, 62]
    case Greater => [62]
    case Equal => [61]
    case AtMost => [60, 61]
    case Less => [60]
    case Different => [33, 61]
  }

  predicate Truth(rel: Relation, a: int, b: int) {
    match rel
    case AtLeast => a >= b
    case Unequal => a != b
    case Greater => a > b
    case Equal => a == b
    case AtMost => a <= b
    case Less => a < b
    case Different => a != b
  }

  /** `Fun` is a function call, `Prod` a product or a quotient, `Sum` a sum or a difference, and
      `Rel` a comparison.  `w` are blanks: behind the name of a function, behind a relational
      operator, and in `Before` and `Behind` around an operand. */
  datatype Tree =
    | Num(n: nat)
    | Var(c: nat)
    | Neg(e: Tree)
    | Fun(f: Func, w: seq<byte>, e: Tree)
    | Prod(times: bool, a: Tree, b: Tree)
    | Sum(plus: bool, a: Tree, b: Tree)
    | Rel(rel: Relation, a: Tree, w: seq<byte>, b: Tree)
    | Before(w: seq<byte>, e: Tree)
    | Behind(e: Tree, w: seq<byte>)

  /** Variables are letters, and blanks are blanks; those behind a relational operator belong to
      it and not to the operand. */
  predicate Proper(e: Tree) {
    match e
    case Num(_) => true
    case Var(c) => c < 26
    case Neg(x) => Proper(x)
    case Fun(_, w, x) => Blanks(w) && Proper(x)
    case Prod(_, a, b) => Proper(a) && Proper(b)
    case Sum(_, a, b) => Proper(a) && Proper(b)
    case Rel(_, a, w, b) => Proper(a) && Blanks(w) && Proper(b) && (Level(b) < 2 || !Loose(b))
    case Before(w, x) => Blanks(w) && w != [] && Proper(x)
    case Behind(x, w) => Proper(x) && Blanks(w) && w != []
  }

  /** The value in 64-bit arithmetic; a division by zero leaves the dividend. */
  function Value(e: Tree, env: Env): int {
    match e
    case Num(n) => Wrap(n)
    case Var(c) => env.vars(c)
    case Neg(x) => Wrap(-Value(x, env))
    case Fun(f, _, x) => Applied(f, env, Value(x, env))
    case Prod(times, a, b) => Product(times, Value(a, env), Value(b, env))
    case Sum(plus, a, b) => Total(plus, Value(a, env), Value(b, env))
    case Rel(rel, a, _, b) => if Truth(rel, Value(a, env), Value(b, env)) then 1 else 0
    case Before(_, x) => Value(x, env)
    case Behind(x, _) => Value(x, env)
  }

  /** No divisor is zero. */
  predicate Divides(e: Tree, env: Env) {
    match e
    case Num(_) => true
    case Var(_) => true
    case Neg(x) => Divides(x, env)
    case Fun(_, _, x) => Divides(x, env)
    case Prod(times, a, b) => Divides(a, env) && Divides(b, env) && (times || Value(b, env) != 0)
    case Sum(_, a, b) => Divides(a, env) && Divides(b, env)
    case Rel(_, a, _, b) => Divides(a, env) && Divides(b, env)
    case Before(_, x) => Divides(x, env)
    case Behind(x, _) => Divides(x, env)
  }

  // ----- writing a tree -----

  /** How tightly the outermost operator binds: comparison, sum, product, or none.  Blanks
      behind an operand can only stand behind the first factor of a product. */
  function Level(e: Tree): nat {
    match e
    case Rel(_, _, _, _) => 0
    case Sum(_, _, _) => 2
    case Prod(_, _, _) => 3
    case Behind(_, _) => 3
    case _ => 4
  }

  /** It is written with a minus sign in front. */
  predicate Signed(e: Tree) {
    e.Neg? || (e.Behind? && e.e.Neg?)
  }

  /** It is written with a blank in front. */
  predicate Loose(e: Tree) {
    match e
    case Before(_, _) => true
    case Behind(x, _) => Level(x) >= 4 && Loose(x)
    case Prod(_, a, _) => Level(a) >= 3 && !Signed(a) && Loose(a)
    case Sum(_, a, _) => Level(a) >= 2 && Loose(a)
    case Rel(_, a, _, _) => Level(a) >= 2 && Loose(a)
    case _ => false
  }

  /** The tree with parentheses where the level calls for them. */
  function Print(e: Tree, level: nat): seq<byte>
    requires Proper(e)
    decreases e, 1
  {
    if Level(e) >= level then Raw(e) else [40] + Raw(e) + [41]
  }

  /** The left operand of a product: a leading minus sign would take in the whole product. */
  function Left(e: Tree): seq<byte>
    requires Proper(e)
    decreases e, 1
  {
    if Level(e) >= 3 && !Signed(e) then Raw(e) else [40] + Raw(e) + [41]
  }

  function Raw(e: Tree): seq<byte>
    requires Proper(e)
    decreases e, 0
  {
    match e
    case Num(n) => Decimal(n)
    case Var(c) => [65 + c]
    case Neg(x) => [45] + Print(x, 4)
    case Fun(f, w, x) => FuncName(f) + w + ([40] + Raw(x) + [41])
    case Prod(times, a, b) => Left(a) + [if times then 42 else 47] + Print(b, 4)
    case Sum(plus, a, b) => Print(a, 2) + [if plus then 43 else 45] + Print(b, 3)
    case Rel(rel, a, w, b) => Print(a, 2) + RelText(rel) + (w + Print(b, 2))
    case Before(w, x) => w + Print(x, 4)
    case Behind(x, w) => Print(x, 4) + w
  }

  /** The first character, which is a blank or one that can open an operand, and no sign unless
      the operand is negated. */
  lemma {:induction false} FirstByte(e: Tree)
    requires Proper(e)
    ensures |Raw(e)| > 0
    ensures if Loose(e) then Raw(e)[0] == 32 || Raw(e)[0] == 9 else Opens(Raw(e)[0])
    ensures Level(e) >= 3 ==> (Raw(e)[0] == 45 <==> Signed(e))
    decreases e
  {
    match e
    case Num(n) => DecimalFirst(n);
    case Var(c) =>
    case Neg(x) =>
    case Fun(_, _, _) =>
    case Prod(_, a, _) => FirstByte(a);
    case Sum(_, a, _) => FirstByte(a);
    case Rel(_, a, _, _) => FirstByte(a);
    case Before(w, x) =>
    case Behind(x, _) => FirstByte(x);
  }

  /** The right operand of a comparison does not start with a blank. */
  lemma PrintFirst(e: Tree, level: nat)
    requires Proper(e)
    ensures |Print(e, level)| > 0 && (Level(e) < level || !Loose(e) ==> Opens(Print(e, level)[0]))
  {
    FirstByte(e);
  }

  // ----- the evaluator computes the value -----

  ghost predicate Fits(e: Tree, env: Env) {
    Proper(e) && Divides(e, env)
  }

  /** An operand in parentheses, a function call, a product, a sum or a comparison reads as it
      should when its operands do. */
  lemma ParenAt(m: Reader, i: nat, p: seq<byte>, v: int)
    requires Genuine(m) && Stands(m.t, i, [40] + p + [41]) && m.e0(i + 1) == Res(v, i + 1 + |p|, false)
    ensures m.e4(i) == Res(v, i + |p| + 2, false)
  {
    Bracketed(m.t, i, [40], p, 41);
    StandsByte(m.t, i, 40);
    StepParen(m, i, v, i + 1 + |p|);
  }

  lemma CallAt(m: Reader, i: nat, f: Func, w: seq<byte>, k: nat, p: seq<byte>, v: int)
    requires Genuine(m) && CallText(m.t, i, f, w, k, p) && m.e0(k + 1) == Res(v, k + 1 + |p|, false)
    ensures m.e4(i) == Res(Applied(f, m.env, v), k + 2 + |p|, false)
  {
    var j := k + 1 + |p|;
    StepFunc(m, i, f, w, k, v, j);
    assert j + 1 == k + 2 + |p|;
  }

  /** The parts of a function call, with the opening parenthesis at `k`. */
  ghost predicate CallText(t: seq<byte>, i: nat, f: Func, w: seq<byte>, k: nat, p: seq<byte>) {
    CallHead(t, i, f, w) && k == i + |FuncName(f)| + |w| && Stands(t, k + 1, p) && At(t, k + 1 + |p|) == 41
  }

  lemma CallParts(t: seq<byte>, i: nat, f: Func, w: seq<byte>, k: nat, p: seq<byte>)
    requires Stands(t, i, FuncName(f) + w + ([40] + p + [41])) && Blanks(w) && k == i + |FuncName(f)| + |w|
    ensures CallText(t, i, f, w, k, p)
  {
    StandsParts(t, i, FuncName(f) + w, [40] + p + [41]);
    StandsParts(t, i, FuncName(f), w);
    Bracketed(t, k, [40], p, 41);
    StandsByte(t, k, 40);
  }

  lemma ProductAt(m: Reader, i: nat, times: bool, p: seq<byte>, q: seq<byte>, va: int, vb: int)
    requires Genuine(m) && Stands(m.t, i, p + [if times then 42 else 47] + q) && (times || vb != 0)
    requires m.e3(i) == m.factors(va, i + |p|)
    requires m.e4(i + |p| + 1) == Res(vb, i + |p| + 1 + |q|, false)
    ensures m.e3(i) == m.factors(Product(times, va, vb), i + |p| + 1 + |q|)
  {
    JoinedByte(m.t, i, p, if times then 42 else 47, q);
    StepProduct(m, times, va, i + |p|, vb, i + |p| + 1 + |q|);
  }

  lemma SumAt(m: Reader, i: nat, plus: bool, p: seq<byte>, q: seq<byte>, va: int, vb: int)
    requires Genuine(m) && Stands(m.t, i, p + [if plus then 43 else 45] + q)
    requires m.e2(i) == m.terms(va, i + |p|)
    requires m.e3(i + |p| + 1) == Res(vb, i + |p| + 1 + |q|, false)
    ensures m.e2(i) == m.terms(Total(plus, va, vb), i + |p| + 1 + |q|)
  {
    JoinedByte(m.t, i, p, if plus then 43 else 45, q);
    StepSum(m, plus, va, i + |p|, vb, i + |p| + 1 + |q|);
  }

  /** Where a relation stands in the table, and what its case in the evaluator yields. */
  function Index(rel: Relation): nat {
    match rel
    case AtLeast => 0
    case Unequal => 1
    case Greater => 2
    case Equal => 3
    case AtMost => 4
    case Less => 5
    case Different => 6
  }

  lemma RelationIs(rel: Relation, a: int, b: int)
    ensures Index(rel) < 7 && RELOP_TAB[Index(rel)] == RelText(rel)
    ensures Compare(Index(rel), a, b) == if Truth(rel, a, b) then 1 else 0
  {
  }

  /** The parts of a comparison: `p` in front of the operator, and `q` at `k`, behind the blanks. */
  ghost predicate RelParts(t: seq<byte>, i: nat, p: seq<byte>, rel: Relation, w: seq<byte>, k: nat, q: seq<byte>) {
    && Stands(t, i, p) && RelopAt(t, i + |p|, Index(rel), w) && After2(At(t, i + |p|))
    && k == i + |p| + |RelText(rel)| + |w| && Stands(t, k, q)
  }

  lemma RelFirst(rel: Relation)
    ensures |RelText(rel)| > 0 && After2(RelText(rel)[0])
  {
  }

  lemma RelSplit(t: seq<byte>, i: nat, p: seq<byte>, rel: Relation, w: seq<byte>, k: nat, q: seq<byte>)
    requires Stands(t, i, p + RelText(rel) + (w + q)) && Blanks(w) && q != [] && Opens(q[0])
    requires k == i + |p| + |RelText(rel)| + |w|
    ensures RelParts(t, i, p, rel, w, k, q)
  {
    RelationIs(rel, 0, 0);
    RelFirst(rel);
    SplitAt(t, i, p, RelText(rel), w, q);
  }

  lemma SplitAt(t: seq<byte>, i: nat, p: seq<byte>, kw: seq<byte>, w: seq<byte>, q: seq<byte>)
    requires Stands(t, i, p + kw + (w + q)) && kw != [] && q != []
    ensures Stands(t, i, p) && Stands(t, i + |p|, kw) && Stands(t, i + |p| + |kw|, w)
    ensures Stands(t, i + |p| + |kw| + |w|, q)
    ensures At(t, i + |p|) == kw[0] && At(t, i + |p| + |kw| + |w|) == q[0]
  {
    Joined(t, i, p, kw, w + q);
    StandsParts(t, i + |p| + |kw|, w, q);
    FirstStands(t, i + |p| + |kw| + |w|, q);
  }

  lemma CompareAt(m: Reader, i: nat, rel: Relation, p: seq<byte>, w: seq<byte>, k: nat, q: seq<byte>, va: int, vb: int)
    requires Genuine(m) && RelParts(m.t, i, p, rel, w, k, q)
    requires m.e2(i) == Res(va, i + |p|, false) && m.e2(k) == Res(vb, k + |q|, false)
    ensures m.e0(i) == Res(if Truth(rel, va, vb) then 1 else 0, k + |q|, false)
  {
    RelationIs(rel, va, vb);
    StepCompare(m, i, Index(rel), w, va, i + |p|, vb, k + |q|);
  }

  lemma {:induction false} EvalParen(e: Tree, m: Reader, i: nat)
    requires Genuine(m) && Fits(e, m.env) && Stands(m.t, i, [40] + Raw(e) + [41])
    ensures m.e4(i) == Res(Value(e, m.env), i + |Raw(e)| + 2, false)
    decreases e, 9
  {
    Bracketed(m.t, i, [40], Raw(e), 41);
    Eval0(e, m, i + 1);
    ParenAt(m, i, Raw(e), Value(e, m.env));
  }

  lemma {:induction false} Eval4(e: Tree, m: Reader, i: nat, p: seq<byte>)
    requires Genuine(m) && Fits(e, m.env) && p == Print(e, 4) && Stands(m.t, i, p) && After5(At(m.t, i + |p|))
    ensures m.e4(i) == Res(Value(e, m.env), i + |p|, false)
    decreases e, 10
  {
    if Level(e) >= 4 {
      EvalRaw4(e, m, i);
    } else {
      EvalParen(e, m, i);
    }
  }

  lemma {:induction false} EvalRaw4(e: Tree, m: Reader, i: nat)
    requires Genuine(m) && Fits(e, m.env) && Level(e) == 4 && Stands(m.t, i, Raw(e)) && After5(At(m.t, i + |Raw(e)|))
    ensures m.e4(i) == Res(Value(e, m.env), i + |Raw(e)|, false)
    decreases e, 2
  {
    match e
    case Num(n) => StepNum(m, i, n);
    case Var(c) => EvalVar(e, m, i);
    case Neg(x) => EvalNeg(e, m, i, Print(x, 4));
    case Fun(f, w, x) => EvalFunc(e, m, i, i + |FuncName(f)| + |w|, Raw(x));
    case Before(w, x) => EvalBefore(e, m, i, Print(x, 4));
  }

  lemma EvalVar(e: Tree, m: Reader, i: nat)
    requires Genuine(m) && Fits(e, m.env) && e.Var? && Stands(m.t, i, [65 + e.c]) && After5(At(m.t, i + 1))
    ensures m.e4(i) == Res(Value(e, m.env), i + 1, false)
  {
    StandsByte(m.t, i, 65 + e.c);
    StepVar(m, i, e.c);
  }

  lemma {:induction false} EvalNeg(e: Tree, m: Reader, i: nat, p: seq<byte>)
    requires Genuine(m) && Fits(e, m.env) && e.Neg? && p == Print(e.e, 4)
    requires Stands(m.t, i, [45] + p) && After5(At(m.t, i + 1 + |p|))
    ensures m.e4(i) == Res(Value(e, m.env), i + 1 + |p|, false)
    decreases e, 0
  {
    StandsParts(m.t, i, [45], p);
    StandsByte(m.t, i, 45);
    Eval4(e.e, m, i + 1, p);
    StepNeg(m, i, Value(e.e, m.env), i + 1 + |p|);
  }

  lemma {:induction false} EvalBefore(e: Tree, m: Reader, i: nat, p: seq<byte>)
    requires Genuine(m) && Fits(e, m.env) && e.Before? && p == Print(e.e, 4)
    requires Stands(m.t, i, e.w + p) && After5(At(m.t, i + |e.w| + |p|))
    ensures m.e4(i) == Res(Value(e, m.env), i + |e.w| + |p|, false)
    decreases e, 0
  {
    StandsParts(m.t, i, e.w, p);
    Eval4(e.e, m, i + |e.w|, p);
    StepBlanks(m, i, e.w);
  }

  lemma {:induction false} EvalFunc(e: Tree, m: Reader, i: nat, k: nat, p: seq<byte>)
    requires Genuine(m) && Fits(e, m.env) && e.Fun? && p == Raw(e.e) && k == i + |FuncName(e.f)| + |e.w|
    requires Stands(m.t, i, FuncName(e.f) + e.w + ([40] + p + [41]))
    ensures m.e4(i) == Res(Value(e, m.env), k + 2 + |p|, false)
    decreases e, 1
  {
    CallParts(m.t, i, e.f, e.w, k, p);
    EvalCall(e, m, i, k, p);
  }

  lemma {:induction false} EvalCall(e: Tree, m: Reader, i: nat, k: nat, p: seq<byte>)
    requires Genuine(m) && Fits(e, m.env) && e.Fun? && p == Raw(e.e) && CallText(m.t, i, e.f, e.w, k, p)
    ensures m.e4(i) == Res(Value(e, m.env), k + 2 + |p|, false)
    decreases e, 0
  {
    EvalArgument(e.e, m, k + 1, p);
    CallAt(m, i, e.f, e.w, k, p, Value(e.e, m.env));
    FunValue(e, m.env);
  }

  lemma {:induction false} EvalArgument(e: Tree, m: Reader, i: nat, p: seq<byte>)
    requires Genuine(m) && Fits(e, m.env) && p == Raw(e) && Stands(m.t, i, p) && At(m.t, i + |p|) == 41
    ensures m.e0(i) == Res(Value(e, m.env), i + |p|, false)
    decreases e, 9
  {
    Eval0(e, m, i);
  }

  lemma FunValue(e: Tree, env: Env)
    requires e.Fun?
    ensures Value(e, env) == Applied(e.f, env, Value(e.e, env))
  {
  }

  lemma {:induction false} EvalRaw3(e: Tree, m: Reader, i: nat)
    requires Genuine(m) && Fits(e, m.env) && Level(e) >= 3 && Stands(m.t, i, Raw(e)) && After4(At(m.t, i + |Raw(e)|))
    ensures m.e3(i) == m.factors(Value(e, m.env), i + |Raw(e)|)
    decreases e, 4
  {
    if e.Prod? {
      EvalProduct(e, m, i, Left(e.a), Print(e.b, 4));
    } else if e.Behind? {
      EvalBehind(e, m, i, Print(e.e, 4));
    } else {
      EvalRaw4(e, m, i);
      StepFactor(m, i, Value(e, m.env), i + |Raw(e)|);
    }
  }

  lemma {:induction false} EvalBehind(e: Tree, m: Reader, i: nat, p: seq<byte>)
    requires Genuine(m) && Fits(e, m.env) && e.Behind? && p == Print(e.e, 4)
    requires Stands(m.t, i, p + e.w) && After4(At(m.t, i + |p| + |e.w|))
    ensures m.e3(i) == m.factors(Value(e, m.env), i + |p| + |e.w|)
    decreases e, 0
  {
    StandsParts(m.t, i, p, e.w);
    FirstStands(m.t, i + |p|, e.w);
    Eval4(e.e, m, i, p);
    StepTrail(m, i, Value(e.e, m.env), i + |p|, e.w);
  }

  lemma {:induction false} EvalProduct(e: Tree, m: Reader, i: nat, p: seq<byte>, q: seq<byte>)
    requires Genuine(m) && Fits(e, m.env) && e.Prod? && p == Left(e.a) && q == Print(e.b, 4)
    requires Stands(m.t, i, p + [if e.times then 42 else 47] + q) && After5(At(m.t, i + |p| + 1 + |q|))
    ensures m.e3(i) == m.factors(Value(e, m.env), i + |p| + 1 + |q|)
    decreases e, 3
  {
    JoinedByte(m.t, i, p, if e.times then 42 else 47, q);
    EvalSides(e, m, i, p, i + |p| + 1, q);
    ProductAt(m, i, e.times, p, q, Value(e.a, m.env), Value(e.b, m.env));
  }

  /** The operands of a product; the right one stands at `j`. */
  lemma {:induction false} EvalSides(e: Tree, m: Reader, i: nat, p: seq<byte>, j: nat, q: seq<byte>)
    requires Genuine(m) && Fits(e, m.env) && e.Prod? && p == Left(e.a) && q == Print(e.b, 4)
    requires Stands(m.t, i, p) && After4(At(m.t, i + |p|)) && Stands(m.t, j, q) && After5(At(m.t, j + |q|))
    ensures m.e3(i) == m.factors(Value(e.a, m.env), i + |p|)
    ensures m.e4(j) == Res(Value(e.b, m.env), j + |q|, false)
    decreases e, 0
  {
    EvalLeft(e.a, m, i, p);
    Eval4(e.b, m, j, q);
  }

  lemma {:induction false} EvalLeft(e: Tree, m: Reader, i: nat, p: seq<byte>)
    requires Genuine(m) && Fits(e, m.env) && p == Left(e) && Stands(m.t, i, p) && After4(At(m.t, i + |p|))
    ensures m.e3(i) == m.factors(Value(e, m.env), i + |p|)
    decreases e, 10
  {
    if Level(e) >= 3 && !Signed(e) {
      EvalRaw3(e, m, i);
    } else {
      EvalParen(e, m, i);
      StepFactor(m, i, Value(e, m.env), i + |p|);
    }
  }

  lemma {:induction false} Eval3(e: Tree, m: Reader, i: nat, p: seq<byte>)
    requires Genuine(m) && Fits(e, m.env) && p == Print(e, 3) && Stands(m.t, i, p) && After3(At(m.t, i + |p|))
    ensures m.e3(i) == Res(Value(e, m.env), i + |p|, false)
    decreases e, 10
  {
    if Level(e) >= 3 {
      EvalRaw3(e, m, i);
    } else {
      EvalParen(e, m, i);
      StepFactor(m, i, Value(e, m.env), i + |p|);
    }
    StopFactors(m, Value(e, m.env), i + |p|);
  }

  lemma {:induction false} EvalRaw2(e: Tree, m: Reader, i: nat)
    requires Genuine(m) && Fits(e, m.env) && Level(e) >= 2 && Stands(m.t, i, Raw(e)) && After3(At(m.t, i + |Raw(e)|))
    ensures m.e2(i) == m.terms(Value(e, m.env), i + |Raw(e)|)
    decreases e, 6
  {
    if e.Sum? {
      EvalSum(e, m, i, Print(e.a, 2), Print(e.b, 3));
    } else if e.Neg? {
      EvalNegated(e, m, i);
    } else if Signed(e) {
      EvalTrailed(e, m, i, e.e);
    } else {
      EvalTerm(e, m, i);
    }
  }

  lemma {:induction false} EvalTerm(e: Tree, m: Reader, i: nat)
    requires Genuine(m) && Fits(e, m.env) && Level(e) >= 3 && !Signed(e)
    requires Stands(m.t, i, Raw(e)) && After3(At(m.t, i + |Raw(e)|))
    ensures m.e2(i) == m.terms(Value(e, m.env), i + |Raw(e)|)
    decreases e, 5
  {
    FirstByte(e);
    FirstStands(m.t, i, Raw(e));
    EvalRaw3(e, m, i);
    StopFactors(m, Value(e, m.env), i + |Raw(e)|);
    StepTerm(m, i, Value(e, m.env), i + |Raw(e)|);
  }

  /** A leading minus sign, perhaps with blanks behind its operand. */
  lemma {:induction false} EvalMinus(e: Tree, m: Reader, i: nat, p: seq<byte>, w: seq<byte>)
    requires Genuine(m) && Fits(e, m.env) && e.Neg? && p == Print(e.e, 4) && Blanks(w)
    requires Stands(m.t, i, [45] + p + w) && After3(At(m.t, i + 1 + |p| + |w|))
    ensures m.e2(i) == m.terms(Value(e, m.env), i + 1 + |p| + |w|)
    decreases e, 0
  {
    var v, j := Value(e.e, m.env), i + 1 + |p|;
    StandsParts(m.t, i, [45] + p, w);
    StandsParts(m.t, i, [45], p);
    StandsByte(m.t, i, 45);
    if w != [] {
      FirstStands(m.t, j, w);
    }
    Eval4(e.e, m, i + 1, p);
    StepTrail(m, i + 1, v, j, w);
    StopFactors(m, v, j + |w|);
    StepMinus(m, i, v, j + |w|);
  }

  lemma {:induction false} EvalNegated(e: Tree, m: Reader, i: nat)
    requires Genuine(m) && Fits(e, m.env) && e.Neg? && Stands(m.t, i, Raw(e)) && After3(At(m.t, i + |Raw(e)|))
    ensures m.e2(i) == m.terms(Value(e, m.env), i + |Raw(e)|)
    decreases e, 1
  {
    assert Raw(e) == [45] + Print(e.e, 4) + [];
    EvalMinus(e, m, i, Print(e.e, 4), []);
  }

  lemma {:induction false} EvalTrailed(e: Tree, m: Reader, i: nat, x: Tree)
    requires Genuine(m) && Fits(e, m.env) && e.Behind? && x == e.e && x.Neg?
    requires Stands(m.t, i, Raw(e)) && After3(At(m.t, i + |Raw(e)|))
    ensures m.e2(i) == m.terms(Value(e, m.env), i + |Raw(e)|)
    decreases e, 0
  {
    assert Proper(x) && Raw(e) == Raw(x) + e.w && Raw(x) == [45] + Print(x.e, 4);
    EvalMinus(x, m, i, Print(x.e, 4), e.w);
  }

  lemma {:induction false} EvalSum(e: Tree, m: Reader, i: nat, p: seq<byte>, q: seq<byte>)
    requires Genuine(m) && Fits(e, m.env) && e.Sum? && p == Print(e.a, 2) && q == Print(e.b, 3)
    requires Stands(m.t, i, p + [if e.plus then 43 else 45] + q) && After3(At(m.t, i + |p| + 1 + |q|))
    ensures m.e2(i) == m.terms(Value(e, m.env), i + |p| + 1 + |q|)
    decreases e, 1
  {
    JoinedByte(m.t, i, p, if e.plus then 43 else 45, q);
    EvalTerms(e, m, i, p, i + |p| + 1, q);
    SumAt(m, i, e.plus, p, q, Value(e.a, m.env), Value(e.b, m.env));
  }

  /** The operands of a sum; the right one stands at `j`. */
  lemma {:induction false} EvalTerms(e: Tree, m: Reader, i: nat, p: seq<byte>, j: nat, q: seq<byte>)
    requires Genuine(m) && Fits(e, m.env) && e.Sum? && p == Print(e.a, 2) && q == Print(e.b, 3)
    requires Stands(m.t, i, p) && After3(At(m.t, i + |p|)) && Stands(m.t, j, q) && After3(At(m.t, j + |q|))
    ensures m.e2(i) == m.terms(Value(e.a, m.env), i + |p|)
    ensures m.e3(j) == Res(Value(e.b, m.env), j + |q|, false)
    decreases e, 0
  {
    Eval2(e.a, m, i, p);
    Eval3(e.b, m, j, q);
  }

  lemma {:induction false} Eval2(e: Tree, m: Reader, i: nat, p: seq<byte>)
    requires Genuine(m) && Fits(e, m.env) && p == Print(e, 2) && Stands(m.t, i, p)
    requires After3(At(m.t, i + |p|))
    ensures m.e2(i) == m.terms(Value(e, m.env), i + |p|)
    decreases e, 10
  {
    if Level(e) >= 2 {
      EvalRaw2(e, m, i);
    } else {
      var v, j := Value(e, m.env), i + |p|;
      FirstStands(m.t, i, p);
      EvalParen(e, m, i);
      StepFactor(m, i, v, j);
      StopFactors(m, v, j);
      StepTerm(m, i, v, j);
    }
  }

  lemma {:induction false} Eval0(e: Tree, m: Reader, i: nat)
    requires Genuine(m) && Fits(e, m.env) && Stands(m.t, i, Raw(e)) && Terminator(At(m.t, i + |Raw(e)|))
    ensures m.e0(i) == Res(Value(e, m.env), i + |Raw(e)|, false)
    decreases e, 8
  {
    if e.Rel? {
      var p := Print(e.a, 2);
      EvalCompare(e, m, i, p, i + |p| + |RelText(e.rel)| + |e.w|, Print(e.b, 2));
    } else {
      EvalAlone(e, m, i);
    }
  }

  lemma {:induction false} EvalAlone(e: Tree, m: Reader, i: nat)
    requires Genuine(m) && Fits(e, m.env) && !e.Rel? && Stands(m.t, i, Raw(e)) && Terminator(At(m.t, i + |Raw(e)|))
    ensures m.e0(i) == Res(Value(e, m.env), i + |Raw(e)|, false)
    decreases e, 7
  {
    var v, j := Value(e, m.env), i + |Raw(e)|;
    EvalRaw2(e, m, i);
    StopTerms(m, v, j);
    StepAlone(m, i, v, j);
  }

  lemma {:induction false} EvalCompare(e: Tree, m: Reader, i: nat, p: seq<byte>, k: nat, q: seq<byte>)
    requires Genuine(m) && Fits(e, m.env) && e.Rel? && p == Print(e.a, 2) && q == Print(e.b, 2)
    requires Stands(m.t, i, p + RelText(e.rel) + (e.w + q)) && k == i + |p| + |RelText(e.rel)| + |e.w|
    requires Terminator(At(m.t, k + |q|))
    ensures m.e0(i) == Res(Value(e, m.env), k + |q|, false)
    decreases e, 1
  {
    PrintFirst(e.b, 2);
    RelSplit(m.t, i, p, e.rel, e.w, k, q);
    EvalRelation(e, m, i, p, k, q);
  }

  lemma {:induction false} EvalRelation(e: Tree, m: Reader, i: nat, p: seq<byte>, k: nat, q: seq<byte>)
    requires Genuine(m) && Fits(e, m.env) && e.Rel? && p == Print(e.a, 2) && q == Print(e.b, 2)
    requires RelParts(m.t, i, p, e.rel, e.w, k, q) && Terminator(At(m.t, k + |q|))
    ensures m.e0(i) == Res(Value(e, m.env), k + |q|, false)
    decreases e, 0
  {
    EvalSide(e.a, m, i, p);
    EvalSide(e.b, m, k, q);
    CompareAt(m, i, e.rel, p, e.w, k, q, Value(e.a, m.env), Value(e.b, m.env));
  }

  lemma {:induction false} EvalSide(e: Tree, m: Reader, i: nat, p: seq<byte>)
    requires Genuine(m) && Fits(e, m.env) && p == Print(e, 2) && Stands(m.t, i, p) && After2(At(m.t, i + |p|))
    ensures m.e2(i) == Res(Value(e, m.env), i + |p|, false)
    decreases e, 11
  {
    Eval2(e, m, i, p);
    StopTerms(m, Value(e, m.env), i + |p|);
  }

  /** `expression` returns the value of the tree that is written at `i`, stops at the
      terminator after it and sets no error. */
  lemma Evaluates(e: Tree, t: seq<byte>, env: Env, i: nat)
    requires Proper(e) && Divides(e, env) && Stands(t, i, Raw(e)) && Terminator(At(t, i + |Raw(e)|))
    ensures Expression(t, env, i, false) == Res(Value(e, env), i + |Raw(e)|, false)
  {
    Eval0(e, ReaderOf(t, env), i);
  }

  /** Behind a product or a quotient a blank ends the expression, as the blanks behind further
      factors are not skipped. */
  lemma BlankEndsProduct(e: Tree, t: seq<byte>, env: Env, i: nat)
    requires Proper(e) && Divides(e, env) && e.Prod? && Stands(t, i, Raw(e))
    requires At(t, i + |Raw(e)|) == 32 || At(t, i + |Raw(e)|) == 9
    ensures Expression(t, env, i, false) == Res(Value(e, env), i + |Raw(e)|, false)
  {
    var m, v, j := ReaderOf(t, env), Value(e, env), i + |Raw(e)|;
    FirstByte(e);
    FirstStands(t, i, Raw(e));
    EvalProduct(e, m, i, Left(e.a), Print(e.b, 4));
    StopFactors(m, v, j);
    StepTerm(m, i, v, j);
    StopTerms(m, v, j);
    NotFound(t, j, RELOP_TAB);
  }
}
