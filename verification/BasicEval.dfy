/** The expression evaluator of basic.c as it works: a cursor that moves over the text. */
module BasicEval {
  import opened Bytes
  import opened BasicLines
  import opened BasicNumber
  import opened BasicExpr
  import opened BasicText

  lemma FactorStep(t: seq<byte>, env: Env, a: int, i: nat, err: bool)
    requires i <= |t| && (At(t, i) == 42 || At(t, i) == 47)
    ensures i < |t|
    ensures var b := Expr4(t, env, i + 1, err);
      Factors(t, env, a, i, err) ==
        (if At(t, i) == 42 then Factors(t, env, Wrap(a * b.v), b.pos, b.err)
         else if b.v != 0 then Factors(t, env, Wrap(Quot(a, b.v)), b.pos, b.err)
         else Factors(t, env, a, b.pos, true))
  {
  }

  lemma TermStep(t: seq<byte>, env: Env, a: int, i: nat, err: bool, b: Res)
    requires i < |t| && (At(t, i) == 43 || At(t, i) == 45) && b == Expr3(t, env, i + 1, err)
    ensures Terms(t, env, a, i, err) ==
      Terms(t, env, if At(t, i) == 45 then Wrap(a - b.v) else Wrap(a + b.v), b.pos, b.err)
  {
  }

  class Evaluator {
    const text: seq<byte>
    const env: Env
    var txtpos: nat
    var expressionError: bool
    var tableIndex: nat

    constructor (text: seq<byte>, env: Env, at: nat)
      requires at <= |text|
      ensures this.text == text && this.env == env && txtpos == at && !expressionError
    {
      this.text, this.env, txtpos, expressionError, tableIndex := text, env, at, false, 0;
    }

    function Cur(): byte
      reads this`txtpos
    {
      At(text, txtpos)
    }

    /** The evaluator is where `r` says, with the value `v`. */
    ghost predicate Is(r: Res, v: int)
      reads this`txtpos, this`expressionError
    {
      r == Res(v, txtpos, expressionError)
    }

    /** `str_chk`: whether the keyword does not stand at the cursor. */
    method StrChk(kw: seq<byte>) returns (differs: bool)
      requires NL !in kw && txtpos <= |text|
      ensures differs <==> !StartsAt(text, txtpos, kw)
    {
      var k := 0;
      while k < |kw|
        invariant k <= |kw| && txtpos + k <= |text| && text[txtpos..txtpos + k] == kw[..k]
      {
        if At(text, txtpos + k) != kw[k] {
          Differs(text, txtpos, kw, k);
          return true;
        }
        assert text[txtpos..txtpos + k + 1] == text[txtpos..txtpos + k] + [kw[k]] && kw[..k + 1] == kw[..k] + [kw[k]];
        k := k + 1;
      }
      assert kw[..|kw|] == kw;
      return false;
    }

    /** `scantable`. */
    method Scan(table: seq<seq<byte>>)
      requires txtpos <= |text| && forall k :: 0 <= k < |table| ==> NL !in table[k]
      modifies this`txtpos, this`tableIndex
      ensures (tableIndex, txtpos) == ScanTable(text, old(txtpos), table) && txtpos <= |text|
    {
      ghost var start := txtpos;
      tableIndex := 0;
      while tableIndex < |table|
        invariant tableIndex <= |table| && txtpos == start
        invariant var r := ScanTable(text, start, table[tableIndex..]);
          ScanTable(text, start, table) == (tableIndex + r.0, r.1)
      {
        var differs := StrChk(table[tableIndex]);
        if !differs {
          txtpos := txtpos + |table[tableIndex]|;
          txtpos := IgnoreBlanks(text, txtpos);
          return;
        }
        assert table[tableIndex..][1..] == table[tableIndex + 1..];
        tableIndex := tableIndex + 1;
      }
    }

    /** The digit loop of `expr4`. */
    method ReadNumber() returns (a: int)
      requires txtpos <= |text| && IsDigit(Cur())
      modifies this`txtpos
      ensures (a, txtpos) == Number(text, old(txtpos), 0) && txtpos <= |text|
    {
      a := 0;
      while true
        invariant txtpos <= |text| && IsDigit(Cur()) && Number(text, txtpos, a) == Number(text, old(txtpos), 0)
        decreases |text| - txtpos
      {
        a := Wrap(a * 10 + Cur() - 48);
        txtpos := txtpos + 1;
        if !IsDigit(Cur()) {
          break;
        }
      }
    }

    method Eval4() returns (v: int)
      requires txtpos <= |text|
      modifies this
      ensures Is(Expr4(text, env, old(txtpos), old(expressionError)), v) && txtpos <= |text|
      decreases |text| - txtpos, 2
    {
      txtpos := IgnoreBlanks(text, txtpos);
      if Cur() == 45 {
        txtpos := txtpos + 1;
        v := Eval4();
        return Wrap(-v);
      }
      if Cur() == 48 {
        txtpos := txtpos + 1;
        return 0;
      }
      if 49 <= Cur() <= 57 {
        v := ReadNumber();
        return;
      }
      if IsLetter(Cur()) {
        if !IsLetter(At(text, txtpos + 1)) {
          v := env.vars(Cur() - 65);
          txtpos := txtpos + 1;
          return;
        }
        v := EvalFunction();
        return;
      }
      v := EvalParen();
    }

    method EvalFunction() returns (v: int)
      requires txtpos < |text|
      modifies this
      ensures Is(Function(text, env, old(txtpos), old(expressionError)), v) && txtpos <= |text|
      decreases |text| - txtpos, 1
    {
      Scan(FUNC_TAB);
      if tableIndex == 7 || Cur() != 40 {
        expressionError := true;
        return 0;
      }
      v := EvalCall(tableIndex);
    }

    method EvalCall(f: nat) returns (v: int)
      requires txtpos < |text|
      modifies this
      ensures Is(Call(text, env, f, old(txtpos), old(expressionError)), v) && txtpos <= |text|
      decreases |text| - txtpos, 0
    {
      txtpos := txtpos + 1;
      v := Eval();
      if Cur() != 41 {
        expressionError := true;
        return 0;
      }
      txtpos := txtpos + 1;
      v := EvalApply(f, v);
    }

    method EvalApply(f: nat, a: int) returns (v: int)
      requires txtpos <= |text|
      modifies this
      ensures Is(Apply(text, env, f, a, old(txtpos), old(expressionError)), v) && txtpos <= |text|
      decreases |text| - txtpos, 1
    {
      if f == 1 {
        return if a < 0 then Wrap(-a) else a;
      } else if f == 4 {
        return 3;
      } else if f == 5 {
        return a;
      } else if f == 0 || f == 6 {
        return env.outside(f, a);
      }
      v := EvalParen();
    }

    method EvalParen() returns (v: int)
      requires txtpos <= |text|
      modifies this
      ensures Is(Paren(text, env, old(txtpos), old(expressionError)), v) && txtpos <= |text|
      decreases |text| - txtpos, 0
    {
      if Cur() == 40 {
        txtpos := txtpos + 1;
        v := Eval();
        if Cur() == 41 {
          txtpos := txtpos + 1;
          return;
        }
      }
      expressionError := true;
      return 0;
    }

    method Eval3() returns (a: int)
      requires txtpos <= |text|
      modifies this
      ensures Is(Expr3(text, env, old(txtpos), old(expressionError)), a) && txtpos <= |text|
      decreases |text| - txtpos, 4
    {
      ghost var start := txtpos;
      a := Eval4();
      txtpos := IgnoreBlanks(text, txtpos);
      ghost var all := Factors(text, env, a, txtpos, expressionError);
      while Cur() == 42 || Cur() == 47
        invariant start <= txtpos <= |text| && Factors(text, env, a, txtpos, expressionError) == all
        decreases |text| - txtpos
      {
        a := EvalFactor(a);
      }
    }

    /** One round of the loop of `expr3`. */
    method EvalFactor(acc: int) returns (a: int)
      requires txtpos < |text| && (Cur() == 42 || Cur() == 47)
      modifies this
      ensures old(txtpos) < txtpos <= |text|
      ensures Factors(text, env, a, txtpos, expressionError) ==
        Factors(text, env, acc, old(txtpos), old(expressionError))
      decreases |text| - txtpos, 3
    {
      FactorStep(text, env, acc, txtpos, expressionError);
      var times := Cur() == 42;
      txtpos := txtpos + 1;
      var b := Eval4();
      if times {
        return Wrap(acc * b);
      } else if b != 0 {
        return Wrap(Quot(acc, b));
      } else {
        expressionError := true;
        return acc;
      }
    }

    method Eval2() returns (a: int)
      requires txtpos <= |text|
      modifies this
      ensures Is(Expr2(text, env, old(txtpos), old(expressionError)), a) && txtpos <= |text|
      decreases |text| - txtpos, 6
    {
      ghost var start := txtpos;
      if Cur() == 45 || Cur() == 43 {
        a := 0;
      } else {
        a := Eval3();
      }
      ghost var all := Terms(text, env, a, txtpos, expressionError);
      while Cur() == 45 || Cur() == 43
        invariant start <= txtpos <= |text| && Terms(text, env, a, txtpos, expressionError) == all
        decreases |text| - txtpos
      {
        a := EvalTerm(a);
      }
    }

    /** One round of the loop of `expr2`. */
    method EvalTerm(acc: int) returns (a: int)
      requires txtpos < |text| && (Cur() == 45 || Cur() == 43)
      modifies this
      ensures old(txtpos) < txtpos <= |text|
      ensures Terms(text, env, a, txtpos, expressionError) == Terms(text, env, acc, old(txtpos), old(expressionError))
      decreases |text| - txtpos, 5
    {
      ghost var r := Expr3(text, env, txtpos + 1, expressionError);
      TermStep(text, env, acc, txtpos, expressionError, r);
      var minus := Cur() == 45;
      txtpos := txtpos + 1;
      var b := Eval3();
      assert r == Res(b, txtpos, expressionError);
      return if minus then Wrap(acc - b) else Wrap(acc + b);
    }

    /** `expression`. */
    method Eval() returns (a: int)
      requires txtpos <= |text|
      modifies this
      ensures Is(Expression(text, env, old(txtpos), old(expressionError)), a) && txtpos <= |text|
      decreases |text| - txtpos, 7
    {
      a := Eval2();
      if expressionError {
        return;
      }
      Scan(RELOP_TAB);
      if tableIndex == 7 {
        return;
      }
      var op := tableIndex;
      var b := Eval2();
      a := Compare(op, a, b);
    }
  }
}
