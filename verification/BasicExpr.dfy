/** The expression evaluator of basic.c as functions of the text and a position. */
module BasicExpr {
  import opened Bytes
  import opened BasicLines
  import opened BasicNumber

  /** A value, the position after it, and whether `expression_error` is set. */
  datatype Res = Res(v: int, pos: nat, err: bool)

  /** What an expression can refer to: the variables A to Z, and the functions PEEK and GETC
      that look outside the text. */
  datatype Env = Env(vars: int -> int, outside: (nat, int) -> int)

  /** The byte at a position; beyond the text there are only newlines. */
  function At(t: seq<byte>, i: nat): byte {
    if i < |t| then t[i] else NL
  }

  /** `ignore_blanks`. */
  method IgnoreBlanks(t: seq<byte>, i: nat) returns (k: nat)
    requires i <= |t|
    ensures k == SkipBlanks(t, i)
  {
    k := i;
    while At(t, k) == SPACE || At(t, k) == TAB
      invariant k <= |t| && SkipBlanks(t, k) == SkipBlanks(t, i)
      decreases |t| - k
    {
      k := k + 1;
    }
  }

  predicate IsLetter(c: int) {
    65 <= c <= 90
  }

  /** `str_chk`: the keyword stands at position `i`. */
  predicate StartsAt(t: seq<byte>, i: nat, kw: seq<byte>) {
    i + |kw| <= |t| && t[i..i + |kw|] == kw
  }

  /** `scantable`: the index of the first keyword of the table that stands at `i`, and the
      position after it and the blanks that follow; the length of the table if there is none. */
  function ScanTable(t: seq<byte>, i: nat, table: seq<seq<byte>>): (r: (nat, nat))
    requires i <= |t|
    ensures i <= r.1 <= |t| && r.0 <= |table| && (r.0 == |table| ==> r.1 == i)
  {
    if table == [] then (0, i)
    else if StartsAt(t, i, table[0]) then (0, SkipBlanks(t, i + |table[0]|))
    else var r := ScanTable(t, i, table[1..]); (r.0 + 1, r.1)
  }

  /** "PEEK", "ABS", "AREAD", "DREAD", "RND", "PUTC", "GETC" */
  const FUNC_TAB: seq<seq<byte>> := [
    [80, 69, 69, 75], [65, 66, 83], [65, 82, 69, 65, 68], [68, 82, 69, 65, 68],
    [82, 78, 68], [80, 85, 84, 67], [71, 69, 84, 67]
  ]

  /** ">=", "<>", ">", "=", "<=", "<", "!=" */
  const RELOP_TAB: seq<seq<byte>> := [[62, 61], [60, 62], [62], [61], [60, 61], [60], [33, 61]]

  /** The digits from `i` on, accumulated in 64 bits. */
  function Number(t: seq<byte>, i: nat, a: int): (r: (int, nat))
    requires i <= |t|
    ensures i <= r.1 <= |t|
    decreases |t| - i
  {
    if IsDigit(At(t, i)) then Number(t, i + 1, Wrap(a * 10 + At(t, i) - 48)) else (a, i)
  }

  function Compare(op: nat, a: int, b: int): int {
    if (op == 0 && a >= b) || ((op == 1 || op == 6) && a != b) || (op == 2 && a > b) ||
       (op == 3 && a == b) || (op == 4 && a <= b) || (op == 5 && a < b) then 1 else 0
  }

  function Expr4(t: seq<byte>, env: Env, i: nat, err: bool): (r: Res)
    requires i <= |t|
    ensures i <= r.pos <= |t| && (err ==> r.err)
    decreases |t| - i, 2
  {
    var i := SkipBlanks(t, i);
    var c := At(t, i);
    if c == 45 then
      var r := Expr4(t, env, i + 1, err);
      Res(Wrap(-r.v), r.pos, r.err)
    else if c == 48 then Res(0, i + 1, err)
    else if 49 <= c <= 57 then var n := Number(t, i, 0); Res(n.0, n.1, err)
    else if IsLetter(c) then
      if !IsLetter(At(t, i + 1)) then Res(env.vars(c - 65), i + 1, err)
      else Function(t, env, i, err)
    else Paren(t, env, i, err)
  }

  /** A function with a single parameter. */
  function Function(t: seq<byte>, env: Env, i: nat, err: bool): (r: Res)
    requires i < |t|
    ensures i <= r.pos <= |t| && (err ==> r.err)
    decreases |t| - i, 1
  {
    var (f, p) := ScanTable(t, i, FUNC_TAB);
    if f == 7 || At(t, p) != 40 then Res(0, p, true) else Call(t, env, f, p, err)
  }

  function Call(t: seq<byte>, env: Env, f: nat, i: nat, err: bool): (r: Res)
    requires i < |t|
    ensures i <= r.pos <= |t| && (err ==> r.err)
    decreases |t| - i, 0
  {
    var r := Expression(t, env, i + 1, err);
    if At(t, r.pos) != 41 then Res(0, r.pos, true) else Apply(t, env, f, r.v, r.pos + 1, r.err)
  }

  /** The function `f` of the value `a`.  AREAD and DREAD have no case of their own: the
      evaluator goes on to look for a parenthesis. */
  function Apply(t: seq<byte>, env: Env, f: nat, a: int, i: nat, err: bool): (r: Res)
    requires i <= |t|
    ensures i <= r.pos <= |t| && (err ==> r.err)
    decreases |t| - i, 1
  {
    if f == 1 then Res(if a < 0 then Wrap(-a) else a, i, err)
    else if f == 4 then Res(3, i, err)
    else if f == 5 then Res(a, i, err)
    else if f == 0 || f == 6 then Res(env.outside(f, a), i, err)
    else Paren(t, env, i, err)
  }

  function Paren(t: seq<byte>, env: Env, i: nat, err: bool): (r: Res)
    requires i <= |t|
    ensures i <= r.pos <= |t| && (err ==> r.err)
    decreases |t| - i, 0
  {
    if At(t, i) == 40 then
      var r := Expression(t, env, i + 1, err);
      if At(t, r.pos) != 41 then Res(0, r.pos, true) else Res(r.v, r.pos + 1, r.err)
    else Res(0, i, true)
  }

  function Expr3(t: seq<byte>, env: Env, i: nat, err: bool): (r: Res)
    requires i <= |t|
    ensures i <= r.pos <= |t| && (err ==> r.err)
    decreases |t| - i, 4
  {
    var r := Expr4(t, env, i, err);
    Factors(t, env, r.v, SkipBlanks(t, r.pos), r.err)
  }

  /** The loop of `expr3`.  A division by zero leaves the value and sets the error. */
  function Factors(t: seq<byte>, env: Env, a: int, i: nat, err: bool): (r: Res)
    requires i <= |t|
    ensures i <= r.pos <= |t| && (err ==> r.err)
    decreases |t| - i, 3
  {
    if At(t, i) == 42 then
      var b := Expr4(t, env, i + 1, err);
      Factors(t, env, Wrap(a * b.v), b.pos, b.err)
    else if At(t, i) == 47 then
      var b := Expr4(t, env, i + 1, err);
      if b.v != 0 then Factors(t, env, Wrap(Quot(a, b.v)), b.pos, b.err)
      else Factors(t, env, a, b.pos, true)
    else Res(a, i, err)
  }

  function Expr2(t: seq<byte>, env: Env, i: nat, err: bool): (r: Res)
    requires i <= |t|
    ensures i <= r.pos <= |t| && (err ==> r.err)
    decreases |t| - i, 6
  {
    if At(t, i) == 45 || At(t, i) == 43 then Terms(t, env, 0, i, err)
    else var r := Expr3(t, env, i, err); Terms(t, env, r.v, r.pos, r.err)
  }

  /** The loop of `expr2`. */
  function Terms(t: seq<byte>, env: Env, a: int, i: nat, err: bool): (r: Res)
    requires i <= |t|
    ensures i <= r.pos <= |t| && (err ==> r.err)
    decreases |t| - i, 5
  {
    if At(t, i) == 45 then
      var b := Expr3(t, env, i + 1, err);
      Terms(t, env, Wrap(a - b.v), b.pos, b.err)
    else if At(t, i) == 43 then
      var b := Expr3(t, env, i + 1, err);
      Terms(t, env, Wrap(a + b.v), b.pos, b.err)
    else Res(a, i, err)
  }

  function Expression(t: seq<byte>, env: Env, i: nat, err: bool): (r: Res)
    requires i <= |t|
    ensures i <= r.pos <= |t| && (err ==> r.err)
    decreases |t| - i, 7
  {
    var a := Expr2(t, env, i, err);
    if a.err then a
    else
      var (op, p) := ScanTable(t, a.pos, RELOP_TAB);
      if op == 7 then a
      else
        var b := Expr2(t, env, p, a.err);
        Res(Compare(op, a.v, b.v), b.pos, b.err)
  }
}
