/** A tree with a zero divisor: the evaluator sets the error. */
module BasicErrors {
  import opened Bytes
  import opened BasicExpr
  import opened BasicText
  import opened BasicTree

  /** Some divisor is zero. */
  ghost predicate Fails(e: Tree, env: Env) {
    Proper(e) && !Divides(e, env)
  }

  lemma {:induction false} FailParen(e: Tree, m: Reader, i: nat, p: seq<byte>)
    requires Genuine(m) && Fails(e, m.env) && p == Raw(e) && Stands(m.t, i, [40] + p + [41])
    ensures m.e4(i).err
    decreases e, 7
  {
    Bracketed(m.t, i, [40], p, 41);
    StandsByte(m.t, i, 40);
    Fail0(e, m, i + 1);
    ErrParen(m, i);
  }

  lemma {:induction false} Fail4(e: Tree, m: Reader, i: nat, p: seq<byte>)
    requires Genuine(m) && Fails(e, m.env) && p == Print(e, 4) && Stands(m.t, i, p) && After5(At(m.t, i + |p|))
    ensures m.e4(i).err
    decreases e, 8
  {
    if Level(e) >= 4 {
      FailRaw4(e, m, i);
    } else {
      FailParen(e, m, i, Raw(e));
    }
  }

  lemma {:induction false} FailRaw4(e: Tree, m: Reader, i: nat)
    requires Genuine(m) && Fails(e, m.env) && Level(e) == 4 && Stands(m.t, i, Raw(e)) && After5(At(m.t, i + |Raw(e)|))
    ensures m.e4(i).err
    decreases e, 2
  {
    if e.Neg? {
      FailNeg(e, m, i, Print(e.e, 4));
    } else if e.Before? {
      FailBefore(e, m, i, Print(e.e, 4));
    } else {
      FailFunc(e, m, i, i + |FuncName(e.f)| + |e.w|, Raw(e.e));
    }
  }

  lemma {:induction false} FailNeg(e: Tree, m: Reader, i: nat, p: seq<byte>)
    requires Genuine(m) && Fails(e, m.env) && e.Neg? && p == Print(e.e, 4)
    requires Stands(m.t, i, [45] + p) && After5(At(m.t, i + 1 + |p|))
    ensures m.e4(i).err
    decreases e, 0
  {
    StandsParts(m.t, i, [45], p);
    StandsByte(m.t, i, 45);
    Fail4(e.e, m, i + 1, p);
    ErrNeg(m, i);
  }

  lemma {:induction false} FailBefore(e: Tree, m: Reader, i: nat, p: seq<byte>)
    requires Genuine(m) && Fails(e, m.env) && e.Before? && p == Print(e.e, 4)
    requires Stands(m.t, i, e.w + p) && After5(At(m.t, i + |e.w| + |p|))
    ensures m.e4(i).err
    decreases e, 0
  {
    StandsParts(m.t, i, e.w, p);
    Fail4(e.e, m, i + |e.w|, p);
    StepBlanks(m, i, e.w);
  }

  lemma {:induction false} FailFunc(e: Tree, m: Reader, i: nat, k: nat, p: seq<byte>)
    requires Genuine(m) && Fails(e, m.env) && e.Fun? && p == Raw(e.e) && k == i + |FuncName(e.f)| + |e.w|
    requires Stands(m.t, i, FuncName(e.f) + e.w + ([40] + p + [41]))
    ensures m.e4(i).err
    decreases e, 1
  {
    CallParts(m.t, i, e.f, e.w, k, p);
    FailArgument(e, m, i, k, p);
  }

  lemma {:induction false} FailArgument(e: Tree, m: Reader, i: nat, k: nat, p: seq<byte>)
    requires Genuine(m) && Fails(e, m.env) && e.Fun? && p == Raw(e.e) && CallText(m.t, i, e.f, e.w, k, p)
    ensures m.e4(i).err
    decreases e, 0
  {
    Fail0(e.e, m, k + 1);
    ErrFunc(m, i, e.f, e.w, k);
  }

  lemma {:induction false} FailRaw3(e: Tree, m: Reader, i: nat)
    requires Genuine(m) && Fails(e, m.env) && Level(e) >= 3 && Stands(m.t, i, Raw(e)) && After4(At(m.t, i + |Raw(e)|))
    ensures m.e3(i).err
    decreases e, 3
  {
    if e.Prod? {
      FailProduct(e, m, i, Left(e.a), if e.times then 42 else 47, Print(e.b, 4));
    } else if e.Behind? {
      FailBehind(e, m, i, Print(e.e, 4));
    } else {
      FailRaw4(e, m, i);
      ErrFactor(m, i);
    }
  }

  lemma {:induction false} FailBehind(e: Tree, m: Reader, i: nat, p: seq<byte>)
    requires Genuine(m) && Fails(e, m.env) && e.Behind? && p == Print(e.e, 4) && Stands(m.t, i, p + e.w)
    ensures m.e3(i).err
    decreases e, 0
  {
    StandsParts(m.t, i, p, e.w);
    FirstStands(m.t, i + |p|, e.w);
    Fail4(e.e, m, i, p);
    ErrFactor(m, i);
  }

  lemma {:induction false} FailProduct(e: Tree, m: Reader, i: nat, p: seq<byte>, op: byte, q: seq<byte>)
    requires Genuine(m) && Fails(e, m.env) && e.Prod? && p == Left(e.a) && q == Print(e.b, 4)
    requires op == (if e.times then 42 else 47) && Stands(m.t, i, p + [op] + q) && After5(At(m.t, i + |p| + 1 + |q|))
    ensures m.e3(i).err
    decreases e, 2
  {
    JoinedByte(m.t, i, p, op, q);
    FailFactors(e, m, i, p, i + |p|, q);
  }

  /** The operator stands at `j`. */
  lemma {:induction false} FailFactors(e: Tree, m: Reader, i: nat, p: seq<byte>, j: nat, q: seq<byte>)
    requires Genuine(m) && Fails(e, m.env) && e.Prod? && p == Left(e.a) && q == Print(e.b, 4)
    requires Stands(m.t, i, p) && j == i + |p| < |m.t| && At(m.t, j) == (if e.times then 42 else 47)
    requires Stands(m.t, j + 1, q) && After5(At(m.t, j + 1 + |q|))
    ensures m.e3(i).err
    decreases e, 1
  {
    if !Divides(e.a, m.env) {
      FailLeft(e.a, m, i, p);
    } else {
      EvalLeft(e.a, m, i, p);
      FailDivisor(e, m, j, q);
    }
  }

  /** The operator at `i` and the right operand of a product whose left one is in order. */
  lemma {:induction false} FailDivisor(e: Tree, m: Reader, i: nat, q: seq<byte>)
    requires Genuine(m) && Fails(e, m.env) && e.Prod? && Divides(e.a, m.env) && q == Print(e.b, 4)
    requires i < |m.t| && At(m.t, i) == (if e.times then 42 else 47)
    requires Stands(m.t, i + 1, q) && After5(At(m.t, i + 1 + |q|))
    ensures m.factors(Value(e.a, m.env), i).err
    decreases e, 0
  {
    if !Divides(e.b, m.env) {
      Fail4(e.b, m, i + 1, q);
    } else {
      Eval4(e.b, m, i + 1, q);
    }
    ErrProduct(m, e.times, Value(e.a, m.env), i);
  }

  lemma {:induction false} FailLeft(e: Tree, m: Reader, i: nat, p: seq<byte>)
    requires Genuine(m) && Fails(e, m.env) && p == Left(e) && Stands(m.t, i, p) && After4(At(m.t, i + |p|))
    ensures m.e3(i).err
    decreases e, 8
  {
    if Level(e) >= 3 && !Signed(e) {
      FailRaw3(e, m, i);
    } else {
      FailParen(e, m, i, Raw(e));
      ErrFactor(m, i);
    }
  }

  lemma {:induction false} Fail3(e: Tree, m: Reader, i: nat, p: seq<byte>)
    requires Genuine(m) && Fails(e, m.env) && p == Print(e, 3) && Stands(m.t, i, p) && After4(At(m.t, i + |p|))
    ensures m.e3(i).err
    decreases e, 8
  {
    if Level(e) >= 3 {
      FailRaw3(e, m, i);
    } else {
      FailParen(e, m, i, Raw(e));
      ErrFactor(m, i);
    }
  }

  lemma {:induction false} FailRaw2(e: Tree, m: Reader, i: nat)
    requires Genuine(m) && Fails(e, m.env) && Level(e) >= 2 && Stands(m.t, i, Raw(e)) && After3(At(m.t, i + |Raw(e)|))
    ensures m.e2(i).err
    decreases e, 4
  {
    if e.Sum? {
      FailSum(e, m, i, Print(e.a, 2), if e.plus then 43 else 45, Print(e.b, 3));
    } else if e.Neg? {
      FailMinus(e, m, i, Print(e.e, 4));
    } else if Signed(e) {
      FailTrailed(e, m, i, e.e);
    } else {
      FirstByte(e);
      FirstStands(m.t, i, Raw(e));
      FailRaw3(e, m, i);
      ErrTerm(m, i);
    }
  }

  lemma {:induction false} FailMinus(e: Tree, m: Reader, i: nat, p: seq<byte>)
    requires Genuine(m) && Fails(e, m.env) && e.Neg? && p == Print(e.e, 4)
    requires Stands(m.t, i, [45] + p) && After5(At(m.t, i + 1 + |p|))
    ensures m.e2(i).err
    decreases e, 0
  {
    StandsParts(m.t, i, [45], p);
    StandsByte(m.t, i, 45);
    Fail4(e.e, m, i + 1, p);
    ErrFactor(m, i + 1);
    ErrMinus(m, i);
  }

  lemma {:induction false} FailTrailed(e: Tree, m: Reader, i: nat, x: Tree)
    requires Genuine(m) && Fails(e, m.env) && e.Behind? && x == e.e && x.Neg? && Stands(m.t, i, Raw(e))
    ensures m.e2(i).err
    decreases e, 0
  {
    assert Proper(x) && Raw(e) == Raw(x) + e.w && Raw(x) == [45] + Print(x.e, 4);
    StandsParts(m.t, i, Raw(x), e.w);
    FirstStands(m.t, i + |Raw(x)|, e.w);
    FailMinus(x, m, i, Print(x.e, 4));
  }

  lemma {:induction false} FailSum(e: Tree, m: Reader, i: nat, p: seq<byte>, op: byte, q: seq<byte>)
    requires Genuine(m) && Fails(e, m.env) && e.Sum? && p == Print(e.a, 2) && q == Print(e.b, 3)
    requires op == (if e.plus then 43 else 45) && Stands(m.t, i, p + [op] + q) && After3(At(m.t, i + |p| + 1 + |q|))
    ensures m.e2(i).err
    decreases e, 1
  {
    JoinedByte(m.t, i, p, op, q);
    if !Divides(e.a, m.env) {
      Fail2(e.a, m, i, p);
    } else {
      Eval2(e.a, m, i, p);
      FailTerm(e, m, i + |p|, q);
    }
  }

  /** The operator at `i` and the right operand of a sum whose left one is in order. */
  lemma {:induction false} FailTerm(e: Tree, m: Reader, i: nat, q: seq<byte>)
    requires Genuine(m) && Fails(e, m.env) && e.Sum? && Divides(e.a, m.env) && q == Print(e.b, 3)
    requires i < |m.t| && At(m.t, i) == (if e.plus then 43 else 45)
    requires Stands(m.t, i + 1, q) && After3(At(m.t, i + 1 + |q|))
    ensures m.terms(Value(e.a, m.env), i).err
    decreases e, 0
  {
    Fail3(e.b, m, i + 1, q);
    ErrSum(m, e.plus, Value(e.a, m.env), i);
  }

  lemma {:induction false} Fail2(e: Tree, m: Reader, i: nat, p: seq<byte>)
    requires Genuine(m) && Fails(e, m.env) && p == Print(e, 2) && Stands(m.t, i, p) && After3(At(m.t, i + |p|))
    ensures m.e2(i).err
    decreases e, 8
  {
    if Level(e) >= 2 {
      FailRaw2(e, m, i);
    } else {
      FirstStands(m.t, i, p);
      FailParen(e, m, i, Raw(e));
      ErrFactor(m, i);
      ErrTerm(m, i);
    }
  }

  lemma {:induction false} Fail0(e: Tree, m: Reader, i: nat)
    requires Genuine(m) && Fails(e, m.env) && Stands(m.t, i, Raw(e)) && Terminator(At(m.t, i + |Raw(e)|))
    ensures m.e0(i).err
    decreases e, 6
  {
    if e.Rel? {
      var p := Print(e.a, 2);
      FailCompare(e, m, i, p, i + |p| + |RelText(e.rel)| + |e.w|, Print(e.b, 2));
    } else {
      FailRaw2(e, m, i);
      ErrAlone(m, i);
    }
  }

  lemma {:induction false} FailCompare(e: Tree, m: Reader, i: nat, p: seq<byte>, k: nat, q: seq<byte>)
    requires Genuine(m) && Fails(e, m.env) && e.Rel? && p == Print(e.a, 2) && q == Print(e.b, 2)
    requires Stands(m.t, i, p + RelText(e.rel) + (e.w + q)) && k == i + |p| + |RelText(e.rel)| + |e.w|
    requires Terminator(At(m.t, k + |q|))
    ensures m.e0(i).err
    decreases e, 1
  {
    PrintFirst(e.b, 2);
    RelSplit(m.t, i, p, e.rel, e.w, k, q);
    if !Divides(e.a, m.env) {
      Fail2(e.a, m, i, p);
      ErrAlone(m, i);
    } else {
      EvalSide(e.a, m, i, p);
      FailSide(e, m, i, p, k, q);
    }
  }

  /** The right operand of a comparison whose left one is in order. */
  lemma {:induction false} FailSide(e: Tree, m: Reader, i: nat, p: seq<byte>, k: nat, q: seq<byte>)
    requires Genuine(m) && Fails(e, m.env) && e.Rel? && Divides(e.a, m.env) && q == Print(e.b, 2)
    requires RelParts(m.t, i, p, e.rel, e.w, k, q) && m.e2(i) == Res(Value(e.a, m.env), i + |p|, false)
    requires Terminator(At(m.t, k + |q|))
    ensures m.e0(i).err
    decreases e, 0
  {
    Fail2(e.b, m, k, q);
    RelationIs(e.rel, 0, 0);
    ErrCompare(m, i, Index(e.rel), e.w, Value(e.a, m.env), i + |p|);
  }

  /** `expression` sets the error exactly if some divisor of the tree is zero. */
  lemma ErrorIffZeroDivisor(e: Tree, t: seq<byte>, env: Env, i: nat)
    requires Proper(e) && Stands(t, i, Raw(e)) && Terminator(At(t, i + |Raw(e)|))
    ensures Expression(t, env, i, false).err <==> !Divides(e, env)
  {
    if Divides(e, env) {
      Evaluates(e, t, env, i);
    } else {
      Fail0(e, ReaderOf(t, env), i);
    }
  }
}
