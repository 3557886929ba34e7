/**
 The expression evaluator of guiapps/calc.c. The token list is a sequence and a
 pointer into it is the sequence of the tokens from there on, so NULL is []. The
 arithmetic is a parameter.
 */
module Calculator {
  datatype Token<N> = Num(value: N) | Add | Sub | Mult | Div | OpenBracket | CloseBracket

  datatype Arith<!N> = Arith(zero: N, add: (N, N) -> N, sub: (N, N) -> N, mult: (N, N) -> N, div: (N, N) -> N)

  type Tokens<N> = seq<Token<N>>

  // ---- The reference: expression trees, their value and their tokens ----

  datatype Op = Plus | Minus | Times | Over
  {
    predicate IsProduct() { this == Times || this == Over }
  }

  datatype Expr<N> =
    | Literal(n: N)
    | Bracketed(inner: Expr<N>)
    | Binary(op: Op, left: Expr<N>, right: Expr<N>)

  function Apply<N>(a: Arith<N>, op: Op, x: N, y: N): N {
    match op
    case Plus => a.add(x, y)
    case Minus => a.sub(x, y)
    case Times => a.mult(x, y)
    case Over => a.div(x, y)
  }

  function Value<N>(a: Arith<N>, e: Expr<N>): N {
    match e
    case Literal(n) => n
    case Bracketed(i) => Value(a, i)
    case Binary(op, l, r) => Apply(a, op, Value(a, l), Value(a, r))
  }

  function Sign<N>(op: Op): Token<N> {
    match op
    case Plus => Add
    case Minus => Sub
    case Times => Mult
    case Over => Div
  }

  /**
   The tokens of a tree, with brackets where precedence and association to the
   left ask for them, and wherever the tree has them besides.
   */
  function SumTokens<N>(e: Expr<N>): (s: Tokens<N>)
    ensures |s| > 0
    decreases e, 2
  {
    if e.Binary? && !e.op.IsProduct() then SumTokens(e.left) + [Sign(e.op)] + ProductTokens(e.right)
    else ProductTokens(e)
  }

  function ProductTokens<N>(e: Expr<N>): (s: Tokens<N>)
    ensures |s| > 0
    decreases e, 1
  {
    if e.Binary? && e.op.IsProduct() then ProductTokens(e.left) + [Sign(e.op)] + PrimaryTokens(e.right)
    else PrimaryTokens(e)
  }

  function PrimaryTokens<N>(e: Expr<N>): (s: Tokens<N>)
    ensures |s| > 0
    decreases e, 0
  {
    match e
    case Literal(n) => [Num(n)]
    case Bracketed(i) => [OpenBracket] + SumTokens(i) + [CloseBracket]
    case Binary(op, l, r) =>
      if op.IsProduct() then [OpenBracket] + (ProductTokens(l) + [Sign(op)] + PrimaryTokens(r)) + [CloseBracket]
      else [OpenBracket] + (SumTokens(l) + [Sign(op)] + ProductTokens(r)) + [CloseBracket]
  }

  // ---- What the evaluator computes: a value and where it stopped ----

  predicate StartsProduct<N>(t: Tokens<N>) { t != [] && (t[0].Mult? || t[0].Div?) }

  predicate StartsSum<N>(t: Tokens<N>) { t != [] && (t[0].Add? || t[0].Sub?) }

  function Primary<N>(a: Arith<N>, t: Tokens<N>): (r: (N, Tokens<N>))
    ensures |r.1| <= |t|
    decreases |t|, 0
  {
    if t == [] then (a.zero, t)
    else if t[0].Num? then (t[0].value, t[1..])
    else if t[0].OpenBracket? then
      var x := Sum(a, t[1..]);
      if |x.1| == |t[1..]| then (a.zero, t)
      else if x.1 == [] then (x.0, [])
      else if !x.1[0].CloseBracket? then (a.zero, t)
      else (x.0, x.1[1..])
    else (a.zero, t)
  }

  function Product<N>(a: Arith<N>, t: Tokens<N>): (r: (N, Tokens<N>))
    ensures |r.1| <= |t|
    decreases |t|, 2
  {
    var x := Primary(a, t);
    if t == [] || |x.1| == |t| then (a.zero, t) else Factors(a, x.0, x.1)
  }

  /** The loop of evalProduct. */
  function Factors<N>(a: Arith<N>, x: N, t: Tokens<N>): (r: (N, Tokens<N>))
    ensures |r.1| <= |t|
    decreases |t|, 1
  {
    if !StartsProduct(t) then (x, t)
    else
      var y := Primary(a, t[1..]);
      if |y.1| == |t[1..]| then (a.zero, [])
      else Factors(a, Apply(a, if t[0].Mult? then Times else Over, x, y.0), y.1)
  }

  function Sum<N>(a: Arith<N>, t: Tokens<N>): (r: (N, Tokens<N>))
    ensures |r.1| <= |t|
    decreases |t|, 4
  {
    var x := Product(a, t);
    if t == [] || |x.1| == |t| then (a.zero, t) else Terms(a, x.0, x.1)
  }

  /** The loop of evalSum. */
  function Terms<N>(a: Arith<N>, x: N, t: Tokens<N>): (r: (N, Tokens<N>))
    ensures |r.1| <= |t|
    decreases |t|, 3
  {
    if !StartsSum(t) then (x, t)
    else
      var y := Product(a, t[1..]);
      if |y.1| == |t[1..]| then (a.zero, [])
      else Terms(a, Apply(a, if t[0].Add? then Plus else Minus, x, y.0), y.1)
  }

  // ---- Every tree is evaluated to its value ----

  /** A tree in front of any tokens is read as a primary, and those tokens are left. */
  lemma {:induction false} PrimaryIsValue<N>(a: Arith<N>, e: Expr<N>, t: Tokens<N>)
    ensures Primary(a, PrimaryTokens(e) + t) == (Value(a, e), t)
    decreases e, 1
  {
    match e
    case Literal(n) =>
      assert ([Num(n)] + t)[1..] == t;
    case Bracketed(i) =>
      BracketsAreOpened(a, i, SumTokens(i), t);
    case Binary(op, l, r) =>
      if op.IsProduct() {
        InnerProduct(a, op, l, r, t);
      } else {
        InnerSum(a, op, l, r, t);
      }
  }

  lemma {:induction false} BracketsAreOpened<N>(a: Arith<N>, e: Expr<N>, s: Tokens<N>, t: Tokens<N>)
    requires s == SumTokens(e)
    ensures Primary(a, [OpenBracket] + s + [CloseBracket] + t) == (Value(a, e), t)
    decreases e, 6
  {
    SumIsValue(a, e, [CloseBracket] + t);
    Opened(a, s, t, Value(a, e));
  }

  lemma Opened<N>(a: Arith<N>, s: Tokens<N>, t: Tokens<N>, v: N)
    requires s != [] && Sum(a, s + ([CloseBracket] + t)) == Terms(a, v, [CloseBracket] + t)
    ensures Primary(a, [OpenBracket] + s + [CloseBracket] + t) == (v, t)
  {
    var all := [OpenBracket] + s + [CloseBracket] + t;
    assert all[1..] == s + ([CloseBracket] + t);
    assert ([CloseBracket] + t)[1..] == t;
  }

  lemma {:induction false} InnerProduct<N>(a: Arith<N>, op: Op, l: Expr<N>, r: Expr<N>, t: Tokens<N>)
    requires op.IsProduct()
    ensures var e := Binary(op, l, r); Primary(a, PrimaryTokens(e) + t) == (Value(a, e), t)
    decreases Binary(op, l, r), 0
  {
    var e := Binary(op, l, r);
    var s := ProductTokens(l) + [Sign(op)] + PrimaryTokens(r);
    var u := [CloseBracket] + t;
    ProductIsValue(a, l, [Sign(op)] + (PrimaryTokens(r) + u));
    PrimaryIsValue(a, r, u);
    OneFactor(a, op, Value(a, l), PrimaryTokens(r), u, Value(a, r));
    assert s + u == ProductTokens(l) + ([Sign(op)] + (PrimaryTokens(r) + u));
    ProductThenSum(a, s, u, Value(a, e));
    Opened(a, s, t, Value(a, e));
    assert PrimaryTokens(e) + t == [OpenBracket] + s + [CloseBracket] + t;
  }

  lemma {:induction false} InnerSum<N>(a: Arith<N>, op: Op, l: Expr<N>, r: Expr<N>, t: Tokens<N>)
    requires !op.IsProduct()
    ensures var e := Binary(op, l, r); Primary(a, PrimaryTokens(e) + t) == (Value(a, e), t)
    decreases Binary(op, l, r), 0
  {
    var e := Binary(op, l, r);
    var s := SumTokens(l) + [Sign(op)] + ProductTokens(r);
    var u := [CloseBracket] + t;
    SumIsValue(a, l, [Sign(op)] + (ProductTokens(r) + u));
    ProductIsValue(a, r, u);
    OneTerm(a, op, Value(a, l), ProductTokens(r), u, Value(a, r));
    assert s + u == SumTokens(l) + ([Sign(op)] + (ProductTokens(r) + u));
    Opened(a, s, t, Value(a, e));
    assert PrimaryTokens(e) + t == [OpenBracket] + s + [CloseBracket] + t;
  }

  /** A product in front of t is read, and the loop goes on at t with its value. */
  lemma {:induction false} ProductIsValue<N>(a: Arith<N>, e: Expr<N>, t: Tokens<N>)
    ensures Product(a, ProductTokens(e) + t) == Factors(a, Value(a, e), t)
    decreases e, 3
  {
    hide Primary, Product, Factors, Sum, Terms, Value;
    if e.Binary? && e.op.IsProduct() {
      ValueOf(a, e);
      var rest := [Sign(e.op)] + (PrimaryTokens(e.right) + t);
      ProductIsValue(a, e.left, rest);
      PrimaryIsValue(a, e.right, t);
      OneFactor(a, e.op, Value(a, e.left), PrimaryTokens(e.right), t, Value(a, e.right));
      assert ProductTokens(e) + t == ProductTokens(e.left) + rest;
    } else {
      PrimaryIsValue(a, e, t);
      PrimaryThenProduct(a, PrimaryTokens(e), t, Value(a, e));
    }
  }

  lemma ValueOf<N>(a: Arith<N>, e: Expr<N>)
    requires e.Binary?
    ensures Value(a, e) == Apply(a, e.op, Value(a, e.left), Value(a, e.right))
  {
  }

  lemma PrimaryThenProduct<N>(a: Arith<N>, s: Tokens<N>, t: Tokens<N>, v: N)
    requires s != [] && Primary(a, s + t) == (v, t)
    ensures Product(a, s + t) == Factors(a, v, t)
  {
  }

  /** A sum in front of t, where t does not go on a product. */
  lemma {:induction false} SumIsValue<N>(a: Arith<N>, e: Expr<N>, t: Tokens<N>)
    requires !StartsProduct(t)
    ensures Sum(a, SumTokens(e) + t) == Terms(a, Value(a, e), t)
    decreases e, 5
  {
    hide Primary, Product, Factors, Sum, Terms, Value;
    if e.Binary? && !e.op.IsProduct() {
      ValueOf(a, e);
      var rest := [Sign(e.op)] + (ProductTokens(e.right) + t);
      SumIsValue(a, e.left, rest);
      ProductIsValue(a, e.right, t);
      OneTerm(a, e.op, Value(a, e.left), ProductTokens(e.right), t, Value(a, e.right));
      assert SumTokens(e) + t == SumTokens(e.left) + rest;
    } else {
      ProductIsValue(a, e, t);
      ProductThenSum(a, SumTokens(e), t, Value(a, e));
    }
  }

  lemma OneFactor<N>(a: Arith<N>, op: Op, x: N, s: Tokens<N>, t: Tokens<N>, y: N)
    requires op.IsProduct() && s != [] && Primary(a, s + t) == (y, t)
    ensures Factors(a, x, [Sign(op)] + (s + t)) == Factors(a, Apply(a, op, x, y), t)
  {
    assert ([Sign(op)] + (s + t))[1..] == s + t;
  }

  lemma OneTerm<N>(a: Arith<N>, op: Op, x: N, s: Tokens<N>, t: Tokens<N>, y: N)
    requires !op.IsProduct() && s != [] && !StartsProduct(t) && Product(a, s + t) == Factors(a, y, t)
    ensures Terms(a, x, [Sign(op)] + (s + t)) == Terms(a, Apply(a, op, x, y), t)
  {
    assert ([Sign(op)] + (s + t))[1..] == s + t;
  }

  lemma ProductThenSum<N>(a: Arith<N>, s: Tokens<N>, t: Tokens<N>, v: N)
    requires s != [] && !StartsProduct(t) && Product(a, s + t) == Factors(a, v, t)
    ensures Sum(a, s + t) == Terms(a, v, t)
  {
  }

  /**
   The tokens of any expression are consumed to the last one and evaluate to its
   value: `*` and `/` bind before `+` and `-`, and equals associate to the left.
   */
  lemma EvaluatesToValue<N>(a: Arith<N>, e: Expr<N>)
    ensures Sum(a, SumTokens(e)) == (Value(a, e), [])
  {
    SumIsValue(a, e, []);
    assert SumTokens(e) + [] == SumTokens(e);
  }

  /** So no two readings of the same tokens differ in value. */
  lemma Unambiguous<N>(a: Arith<N>, e: Expr<N>, f: Expr<N>)
    requires SumTokens(e) == SumTokens(f)
    ensures Value(a, e) == Value(a, f)
  {
    EvaluatesToValue(a, e);
    EvaluatesToValue(a, f);
  }

  /** What the four signs mean, which of them bind first, and that equals are taken from the left. */
  lemma OperatorsMean<N>(a: Arith<N>, x: N, y: N, z: N)
    ensures Sum(a, [Num(x), Add, Num(y)]) == (a.add(x, y), [])
    ensures Sum(a, [Num(x), Sub, Num(y)]) == (a.sub(x, y), [])
    ensures Sum(a, [Num(x), Mult, Num(y)]) == (a.mult(x, y), [])
    ensures Sum(a, [Num(x), Div, Num(y)]) == (a.div(x, y), [])
    ensures Sum(a, [Num(x), Sub, Num(y), Div, Num(z)]) == (a.sub(x, a.div(y, z)), [])
    ensures Sum(a, [Num(x), Div, Num(y), Sub, Num(z)]) == (a.sub(a.div(x, y), z), [])
    ensures Sum(a, [Num(x), Sub, Num(y), Sub, Num(z)]) == (a.sub(a.sub(x, y), z), [])
    ensures Sum(a, [Num(x), Div, Num(y), Div, Num(z)]) == (a.div(a.div(x, y), z), [])
    ensures Sum(a, [OpenBracket, Num(x), Sub, Num(y), CloseBracket, Mult, Num(z)]) == (a.mult(a.sub(x, y), z), [])
  {
    TwoNumbers(a, x, y);
    ThreeNumbers(a, x, y, z);
    var p, q, r := Literal(x), Literal(y), Literal(z);
    TokensOf(Minus, p, q);
    TokensOf(Times, Bracketed(Binary(Minus, p, q)), r);
    EvaluatesToValue(a, Binary(Times, Bracketed(Binary(Minus, p, q)), r));
    ValueOf(a, Binary(Minus, p, q));
    ValueOf(a, Binary(Times, Bracketed(Binary(Minus, p, q)), r));
    assert Value(a, Bracketed(Binary(Minus, p, q))) == Value(a, Binary(Minus, p, q));
    hide SumTokens, ProductTokens, PrimaryTokens, Sum;
    assert SumTokens(Binary(Times, Bracketed(Binary(Minus, p, q)), r)) ==
      [OpenBracket, Num(x), Sub, Num(y), CloseBracket, Mult, Num(z)];
  }

  lemma TokensOf<N>(op: Op, l: Expr<N>, r: Expr<N>)
    ensures SumTokens(Binary(op, l, r)) ==
      if op.IsProduct() then ProductTokens(l) + [Sign(op)] + PrimaryTokens(r)
      else SumTokens(l) + [Sign(op)] + ProductTokens(r)
    ensures op.IsProduct() ==> ProductTokens(Binary(op, l, r)) == SumTokens(Binary(op, l, r))
    ensures SumTokens(r) == ProductTokens(r) || (r.Binary? && !r.op.IsProduct())
    ensures r.Literal? ==> SumTokens(r) == ProductTokens(r) == PrimaryTokens(r) == [Num(r.n)]
    ensures l.Literal? ==> SumTokens(l) == ProductTokens(l) == PrimaryTokens(l) == [Num(l.n)]
    ensures l.Bracketed? ==>
      SumTokens(l) == ProductTokens(l) == PrimaryTokens(l) == [OpenBracket] + SumTokens(l.inner) + [CloseBracket]
  {
  }

  lemma TwoNumbers<N>(a: Arith<N>, x: N, y: N)
    ensures Sum(a, [Num(x), Add, Num(y)]) == (a.add(x, y), [])
    ensures Sum(a, [Num(x), Sub, Num(y)]) == (a.sub(x, y), [])
    ensures Sum(a, [Num(x), Mult, Num(y)]) == (a.mult(x, y), [])
    ensures Sum(a, [Num(x), Div, Num(y)]) == (a.div(x, y), [])
  {
    hide SumTokens, ProductTokens, PrimaryTokens, Sum;
    var p, q := Literal(x), Literal(y);
    forall op: Op ensures Sum(a, [Num(x), Sign(op), Num(y)]) == (Apply(a, op, x, y), []) {
      TokensOf(op, p, q);
      EvaluatesToValue(a, Binary(op, p, q));
      assert SumTokens(Binary(op, p, q)) == [Num(x), Sign(op), Num(y)];
    }
    assert Sign<N>(Plus) == Add && Sign<N>(Minus) == Sub && Sign<N>(Times) == Mult && Sign<N>(Over) == Div;
  }

  /** An operator that binds no weaker takes the two numbers before it together. */
  lemma ThreeNumbers<N>(a: Arith<N>, x: N, y: N, z: N)
    ensures Sum(a, [Num(x), Sub, Num(y), Div, Num(z)]) == (a.sub(x, a.div(y, z)), [])
    ensures Sum(a, [Num(x), Div, Num(y), Sub, Num(z)]) == (a.sub(a.div(x, y), z), [])
    ensures Sum(a, [Num(x), Sub, Num(y), Sub, Num(z)]) == (a.sub(a.sub(x, y), z), [])
    ensures Sum(a, [Num(x), Div, Num(y), Div, Num(z)]) == (a.div(a.div(x, y), z), [])
  {
    hide SumTokens, ProductTokens, PrimaryTokens, Sum;
    var p, q, r := Literal(x), Literal(y), Literal(z);
    forall op: Op, o: Op | o.IsProduct() && !op.IsProduct()
      ensures Sum(a, [Num(x), Sign(op), Num(y), Sign(o), Num(z)]) == (Apply(a, op, x, Apply(a, o, y, z)), [])
    {
      TokensOf(o, q, r);
      TokensOf(op, p, Binary(o, q, r));
      EvaluatesToValue(a, Binary(op, p, Binary(o, q, r)));
      ValueOf(a, Binary(o, q, r));
      ValueOf(a, Binary(op, p, Binary(o, q, r)));
      assert SumTokens(Binary(op, p, Binary(o, q, r))) == [Num(x), Sign(op), Num(y), Sign(o), Num(z)];
    }
    forall op: Op, o: Op | o.IsProduct() ==> op.IsProduct()
      ensures Sum(a, [Num(x), Sign(op), Num(y), Sign(o), Num(z)]) == (Apply(a, o, Apply(a, op, x, y), z), [])
    {
      TokensOf(op, p, q);
      TokensOf(o, Binary(op, p, q), r);
      EvaluatesToValue(a, Binary(o, Binary(op, p, q), r));
      ValueOf(a, Binary(op, p, q));
      ValueOf(a, Binary(o, Binary(op, p, q), r));
      assert SumTokens(Binary(o, Binary(op, p, q), r)) == [Num(x), Sign(op), Num(y), Sign(o), Num(z)];
    }
    assert Sign<N>(Minus) == Sub && Sign<N>(Over) == Div;
  }

  // ---- Operators without an operand ----

  /** After a last operator a sum is lost, and of `*` and `/` only the last product. */
  function Dangling<N>(a: Arith<N>, e: Expr<N>, op: Op): N {
    if op.IsProduct() && e.Binary? && !e.op.IsProduct() then Apply(a, e.op, Value(a, e.left), a.zero) else a.zero
  }

  /** A last operator without a right operand is accepted. */
  lemma DanglingOperator<N>(a: Arith<N>, e: Expr<N>, op: Op)
    ensures Sum(a, SumTokens(e) + [Sign(op)]) == (Dangling(a, e, op), [])
  {
    var t := [Sign(op)];
    if !op.IsProduct() {
      SumIsValue(a, e, t);
    } else if e.Binary? && !e.op.IsProduct() {
      var rest := [Sign(e.op)] + (ProductTokens(e.right) + t);
      SumIsValue(a, e.left, rest);
      ProductIsValue(a, e.right, t);
      assert SumTokens(e) + t == SumTokens(e.left) + rest;
      LastProductLost(a, e.op, Value(a, e.left), ProductTokens(e.right) + t);
    } else {
      ProductIsValue(a, e, t);
    }
  }

  lemma LastProductLost<N>(a: Arith<N>, op: Op, x: N, t: Tokens<N>)
    requires !op.IsProduct() && t != [] && Product(a, t) == (a.zero, [])
    ensures Terms(a, x, [Sign(op)] + t) == (Apply(a, op, x, a.zero), [])
  {
    assert ([Sign(op)] + t)[1..] == t;
  }

  /** So an operator without operand is not always worth zero. */
  lemma DanglingIsNotZero<N>(a: Arith<N>, x: N, y: N)
    ensures Sum(a, [Num(x), Add, Num(y), Mult]) == (a.add(x, a.zero), [])
  {
    var e := Binary(Plus, Literal(x), Literal(y));
    assert PrimaryTokens(Literal(x)) == [Num(x)] && PrimaryTokens(Literal(y)) == [Num(y)];
    assert SumTokens(Literal(x)) == ProductTokens(Literal(x)) && ProductTokens(Literal(y)) == [Num(y)];
    DanglingOperator(a, e, Times);
    assert SumTokens(e) == [Num(x), Add, Num(y)];
    assert SumTokens(e) + [Sign(Times)] == [Num(x), Add, Num(y), Mult];
  }

  /** And whatever stands behind a bracket that starts no operand goes unread. */
  lemma RestIsSkipped<N>(a: Arith<N>, e: Expr<N>, junk: Tokens<N>)
    ensures Sum(a, SumTokens(e) + [Add, CloseBracket] + junk) == (a.zero, [])
  {
    var t := [Add, CloseBracket] + junk;
    SumIsValue(a, e, t);
    assert SumTokens(e) + [Add, CloseBracket] + junk == SumTokens(e) + t;
    var u := t[1..];
    assert u[0] == CloseBracket;
    assert Product(a, u) == (a.zero, u);
  }

  // ---- Which tokens are accepted: a scan that does no arithmetic ----

  /** Of an open bracket, or of the input: is there an operator in the sum, and in its last product? */
  datatype Level = Level(sums: bool, products: bool)
  {
    predicate Plain() { !sums && !products }
  }

  const Fresh: Level := Level(false, false)

  /**
   The input ends after an operand with so many levels open; or at the first of the
   levels a token that starts no operand makes the scan skip all the rest; or it is
   not consumed.
   */
  datatype Verdict = Clean(depth: nat) | Cut(levels: seq<Level>) | Refused

  /** Without an operand, the innermost level with an operator takes all that is left. */
  function Fail(levels: seq<Level>): Verdict {
    if levels == [] then Refused
    else if levels[0].Plain() then Fail(levels[1..])
    else Cut(levels)
  }

  /** The scan before an operand. The innermost level is levels[0]. */
  function Operand<N>(t: Tokens<N>, levels: seq<Level>): Verdict
    requires levels != []
    decreases |t|
  {
    if t == [] then Fail(levels)
    else if t[0].Num? then Operator(t[1..], levels)
    else if t[0].OpenBracket? then Operand(t[1..], [Fresh] + levels)
    else Fail(levels)
  }

  /** The scan behind an operand. */
  function Operator<N>(t: Tokens<N>, levels: seq<Level>): Verdict
    requires levels != []
    decreases |t|
  {
    if t == [] then Clean(|levels|)
    else if StartsSum(t) then Operand(t[1..], levels[0 := Level(true, false)])
    else if StartsProduct(t) then Operand(t[1..], levels[0 := levels[0].(products := true)])
    else if t[0].CloseBracket? && |levels| > 1 then Operator(t[1..], levels[1..])
    else if t[0].CloseBracket? then Refused
    else Fail(levels[1..])
  }

  function Scan<N>(t: Tokens<N>): Verdict { Operand(t, [Fresh]) }

  predicate LosesValue(levels: seq<Level>, n: nat)
    requires n <= |levels|
  {
    n > 0 && levels[0].sums != levels[0].products && (forall i :: 1 <= i < n ==> levels[i].Plain())
  }

  /** One operator only at the level that is cut, and none at the levels around it. */
  predicate CutToZero(v: Verdict) {
    v.Cut? && LosesValue(v.levels, |v.levels|)
  }

  /** No operation and no number of the input is zero. */
  ghost predicate NoZero<N(!new)>(a: Arith<N>, t: Tokens<N>) {
    && (forall op, x, y :: Apply(a, op, x, y) != a.zero)
    && (forall i :: 0 <= i < |t| ==> t[i].Num? ==> t[i].value != a.zero)
  }

  /** There is such an arithmetic: that of terms. */
  datatype Term = Zero | Leaf(n: int) | Node(op: Op, left: Term, right: Term)

  const TermArith: Arith<Term> :=
    Arith(
      Zero,
      (x, y) => Node(Plus, x, y),
      (x, y) => Node(Minus, x, y),
      (x, y) => Node(Times, x, y),
      (x, y) => Node(Over, x, y))

  lemma TermsAreNotZero(t: Tokens<Term>)
    requires forall i :: 0 <= i < |t| ==> t[i].Num? ==> !t[i].value.Zero?
    ensures NoZero(TermArith, t)
  {
  }

  /** Nothing is left of the input, by the scan's verdict, and the value x is lost as the cut says. */
  ghost predicate Ended<N(!new)>(a: Arith<N>, v: Verdict, outer: seq<Level>, depth: nat, x: N, strict: bool) {
    && !v.Refused?
    && (v.Clean? ==> v.depth >= depth && (strict ==> x != a.zero))
    && (v.Cut? ==>
      && |v.levels| > |outer| && v.levels[|v.levels| - |outer|..] == outer
      && (LosesValue(v.levels, |v.levels| - |outer|) ==> x == a.zero)
      && (strict && x == a.zero ==> LosesValue(v.levels, |v.levels| - |outer|)))
  }

  predicate ProductLosesValue(levels: seq<Level>, at: nat)
    requires at < |levels|
  {
    at == 0 || (LosesValue(levels, at) && !levels[at].products)
  }

  ghost predicate ProductEnded<N(!new)>(a: Arith<N>, v: Verdict, l: Level, outer: seq<Level>, x: N, strict: bool) {
    && !v.Refused?
    && (v.Clean? ==> v.depth > |outer| && (strict ==> x != a.zero))
    && (v.Cut? ==>
      && |v.levels| > |outer| && v.levels[|v.levels| - |outer|..] == outer
      && var at := |v.levels| - |outer| - 1;
      && v.levels[at].sums == l.sums && (at == 0 ==> v.levels[at].products)
      && (ProductLosesValue(v.levels, at) ==> x == a.zero)
      && (strict && x == a.zero ==> ProductLosesValue(v.levels, at)))
  }

  /** The scan goes on behind what was read, in the same levels; the flags of the innermost do not matter any more. */
  ghost predicate GoesOn<N(!new)>(a: Arith<N>, v: Verdict, r: (N, Tokens<N>), outer: seq<Level>, strict: bool) {
    && (forall l: Level :: v == Operator(r.1, [l] + outer))
    && (strict ==> r.0 != a.zero)
  }

  lemma FlagsAreReset<N>(t: Tokens<N>, k: Level, l: Level, outer: seq<Level>)
    requires t != [] && !StartsProduct(t)
    ensures Operator(t, [k] + outer) == Operator(t, [l] + outer)
  {
    assert ([k] + outer)[0 := Level(true, false)] == ([l] + outer)[0 := Level(true, false)];
    assert ([k] + outer)[1..] == ([l] + outer)[1..];
  }

  lemma TailHasNoZero<N(!new)>(a: Arith<N>, t: Tokens<N>, k: nat)
    requires k <= |t| && NoZero(a, t)
    ensures NoZero(a, t[k..])
  {
  }

  lemma {:induction false} PrimaryScanned<N(!new)>(a: Arith<N>, t: Tokens<N>, levels: seq<Level>, strict: bool)
    requires levels != [] && (strict ==> NoZero(a, t))
    ensures
      var r := Primary(a, t);
      && (strict ==> NoZero(a, r.1))
      && (|r.1| == |t| ==> Operand(t, levels) == Fail(levels))
      && (|r.1| < |t| && r.1 != [] ==> Operand(t, levels) == Operator(r.1, levels) && (strict ==> r.0 != a.zero))
      && (|r.1| < |t| && r.1 == [] ==> Ended(a, Operand(t, levels), levels, |levels|, r.0, strict))
    decreases |t|, 0
  {
    hide Sum, Operator, Fail;
    if t == [] || !(t[0].Num? || t[0].OpenBracket?) { return; }
    if strict { TailHasNoZero(a, t, 1); }
    if t[0].OpenBracket? {
      SumScanned(a, t[1..], levels, strict);
      var x := Sum(a, t[1..]);
      assert ([Fresh] + levels)[1..] == levels;
      if |x.1| < |t[1..]| && x.1 != [] {
        assert Operand(t, levels) == Operator(x.1, [Fresh] + levels);
        BracketScanned(x.1, levels);
        if strict { TailHasNoZero(a, x.1, 1); }
      }
    }
    OperatorEnds<N>(levels);
  }

  lemma BracketScanned<N>(t: Tokens<N>, levels: seq<Level>)
    requires levels != [] && t != [] && !StartsSum(t) && !StartsProduct(t)
    ensures Operator(t, [Fresh] + levels) == if t[0].CloseBracket? then Operator(t[1..], levels) else Fail(levels)
  {
    assert ([Fresh] + levels)[1..] == levels;
  }

  lemma OperatorEnds<N>(levels: seq<Level>)
    requires levels != []
    ensures Operator<N>([], levels) == Clean(|levels|)
  {
  }

  lemma {:induction false} ProductScanned<N(!new)>(a: Arith<N>, t: Tokens<N>, l: Level, outer: seq<Level>, strict: bool)
    requires !l.products && (strict ==> NoZero(a, t))
    ensures
      var r := Product(a, t);
      var v := Operand(t, [l] + outer);
      && (strict ==> NoZero(a, r.1))
      && (|r.1| == |t| ==> v == Fail([l] + outer))
      && (|r.1| < |t| && r.1 != [] ==> !StartsProduct(r.1) && GoesOn(a, v, r, outer, strict))
      && (|r.1| < |t| && r.1 == [] ==> ProductEnded(a, v, l, outer, r.0, strict))
    decreases |t|, 2
  {
    hide Primary, Factors, Operand;
    PrimaryScanned(a, t, [l] + outer, strict);
    var x := Primary(a, t);
    if t == [] || |x.1| == |t| { return; }
    if x.1 == [] {
      EndedInPrimary(a, Operand(t, [l] + outer), l, outer, x.0, strict);
      NoFactors(a, x.0);
    } else {
      FactorsScanned(a, x.0, x.1, l, outer, strict);
    }
  }

  lemma NoFactors<N>(a: Arith<N>, x: N)
    ensures Factors(a, x, []) == (x, [])
  {
  }

  lemma EndedInPrimary<N(!new)>(a: Arith<N>, v: Verdict, l: Level, outer: seq<Level>, x: N, strict: bool)
    requires !l.products && Ended(a, v, [l] + outer, |outer| + 1, x, strict)
    ensures ProductEnded(a, v, l, outer, x, strict)
  {
    if v.Cut? {
      var at := |v.levels| - |outer| - 1;
      assert v.levels[at..] == [l] + outer;
      assert v.levels[at + 1..] == v.levels[at..][1..];
      assert v.levels[at] == v.levels[at..][0];
    }
  }

  lemma {:induction false} FactorsScanned<N(!new)>(
    a: Arith<N>, x: N, t: Tokens<N>, l: Level, outer: seq<Level>, strict: bool
  )
    requires t != [] && (strict ==> x != a.zero && NoZero(a, t))
    ensures
      var r := Factors(a, x, t);
      var v := Operator(t, [l] + outer);
      && (strict ==> NoZero(a, r.1))
      && (r.1 != [] ==> !StartsProduct(r.1) && GoesOn(a, v, r, outer, strict))
      && (r.1 == [] ==> ProductEnded(a, v, l, outer, r.0, strict))
    decreases |t|, 1
  {
    hide Primary, Operand, ProductEnded, Ended, NoZero;
    if !StartsProduct(t) {
      forall k: Level ensures Operator(t, [l] + outer) == Operator(t, [k] + outer) {
        FlagsAreReset(t, l, k, outer);
      }
      return;
    }
    var k := l.(products := true);
    assert ([l] + outer)[0 := k] == [k] + outer;
    if strict { TailHasNoZero(a, t, 1); }
    PrimaryScanned(a, t[1..], [k] + outer, strict);
    var y := Primary(a, t[1..]);
    if |y.1| == |t[1..]| {
      FactorMissing(a, k, outer, strict);
      SameSums(a, Cut([k] + outer), k, l, outer, a.zero, strict);
      if strict { NoTokens(a, t); }
      return;
    }
    var z := Apply(a, if t[0].Mult? then Times else Over, x, y.0);
    if strict { ApplyHasNoZero(a, t, if t[0].Mult? then Times else Over, x, y.0); }
    if y.1 == [] {
      FactorEnds(a, Operand(t[1..], [k] + outer), k, outer, y.0, z, strict);
      SameSums(a, Operand(t[1..], [k] + outer), k, l, outer, z, strict);
    } else {
      FactorsScanned(a, z, y.1, k, outer, strict);
      if Factors(a, z, y.1).1 == [] {
        SameSums(a, Operator(y.1, [k] + outer), k, l, outer, Factors(a, z, y.1).0, strict);
      }
    }
  }

  lemma NoTokens<N(!new)>(a: Arith<N>, t: Tokens<N>)
    requires NoZero(a, t)
    ensures NoZero(a, [])
  {
  }

  lemma ApplyHasNoZero<N(!new)>(a: Arith<N>, t: Tokens<N>, op: Op, x: N, y: N)
    requires NoZero(a, t)
    ensures Apply(a, op, x, y) != a.zero
  {
  }

  lemma SameSums<N(!new)>(a: Arith<N>, v: Verdict, k: Level, l: Level, outer: seq<Level>, x: N, strict: bool)
    requires k.sums == l.sums && ProductEnded(a, v, k, outer, x, strict)
    ensures ProductEnded(a, v, l, outer, x, strict)
  {
  }

  lemma FactorMissing<N(!new)>(a: Arith<N>, k: Level, outer: seq<Level>, strict: bool)
    requires k.products
    ensures Fail([k] + outer) == Cut([k] + outer)
    ensures ProductEnded(a, Cut([k] + outer), k, outer, a.zero, strict)
  {
  }

  lemma FactorEnds<N(!new)>(a: Arith<N>, v: Verdict, k: Level, outer: seq<Level>, y: N, z: N, strict: bool)
    requires k.products && Ended(a, v, [k] + outer, |outer| + 1, y, strict) && (strict ==> z != a.zero)
    ensures ProductEnded(a, v, k, outer, z, strict)
  {
    if v.Cut? {
      var at := |v.levels| - |outer| - 1;
      assert v.levels[at..] == [k] + outer;
      assert v.levels[at + 1..] == v.levels[at..][1..];
      assert v.levels[at] == v.levels[at..][0];
    }
  }

  lemma {:induction false} SumScanned<N(!new)>(a: Arith<N>, t: Tokens<N>, outer: seq<Level>, strict: bool)
    requires strict ==> NoZero(a, t)
    ensures
      var r := Sum(a, t);
      var v := Operand(t, [Fresh] + outer);
      && (strict ==> NoZero(a, r.1))
      && (|r.1| == |t| ==> v == Fail(outer))
      && (|r.1| < |t| && r.1 != [] ==> !StartsProduct(r.1) && !StartsSum(r.1) && GoesOn(a, v, r, outer, strict))
      && (|r.1| < |t| && r.1 == [] ==> Ended(a, v, outer, |outer| + 1, r.0, strict))
    decreases |t|, 4
  {
    hide Product, Terms, Operand, NoZero;
    ProductScanned(a, t, Fresh, outer, strict);
    var x := Product(a, t);
    assert ([Fresh] + outer)[1..] == outer;
    if t == [] || |x.1| == |t| { return; }
    if x.1 == [] {
      OnlyProduct(a, Operand(t, [Fresh] + outer), outer, x.0, strict);
      NoTerms(a, x.0);
    } else {
      TermsScanned(a, x.0, x.1, Fresh, outer, strict);
    }
  }

  lemma NoTerms<N>(a: Arith<N>, x: N)
    ensures Terms(a, x, []) == (x, [])
  {
  }

  lemma OnlyProduct<N(!new)>(a: Arith<N>, v: Verdict, outer: seq<Level>, x: N, strict: bool)
    requires ProductEnded(a, v, Fresh, outer, x, strict)
    ensures Ended(a, v, outer, |outer| + 1, x, strict)
  {
    if v.Cut? {
      var at := |v.levels| - |outer| - 1;
      assert ProductLosesValue(v.levels, at) <==> LosesValue(v.levels, at + 1);
    }
  }

  lemma {:induction false} TermsScanned<N(!new)>(
    a: Arith<N>, x: N, t: Tokens<N>, l: Level, outer: seq<Level>, strict: bool
  )
    requires t != [] && !StartsProduct(t) && (strict ==> x != a.zero && NoZero(a, t))
    ensures
      var r := Terms(a, x, t);
      var v := Operator(t, [l] + outer);
      && (strict ==> NoZero(a, r.1))
      && (r.1 != [] ==> !StartsProduct(r.1) && !StartsSum(r.1) && GoesOn(a, v, r, outer, strict))
      && (r.1 == [] ==> Ended(a, v, outer, |outer| + 1, r.0, strict))
    decreases |t|, 3
  {
    hide Product, Operand, Ended, ProductEnded, NoZero;
    if !StartsSum(t) {
      forall k: Level ensures Operator(t, [l] + outer) == Operator(t, [k] + outer) {
        FlagsAreReset(t, l, k, outer);
      }
      return;
    }
    var k := Level(true, false);
    assert ([l] + outer)[0 := k] == [k] + outer;
    if strict { TailHasNoZero(a, t, 1); }
    ProductScanned(a, t[1..], k, outer, strict);
    var y := Product(a, t[1..]);
    if |y.1| == |t[1..]| {
      TermMissing(a, outer, strict);
      if strict { NoTokens(a, t); }
      return;
    }
    var z := Apply(a, if t[0].Add? then Plus else Minus, x, y.0);
    if strict { ApplyHasNoZero(a, t, if t[0].Add? then Plus else Minus, x, y.0); }
    if y.1 == [] {
      TermEnds(a, Operand(t[1..], [k] + outer), outer, y.0, z, strict);
    } else {
      TermsScanned(a, z, y.1, k, outer, strict);
    }
  }

  lemma TermMissing<N(!new)>(a: Arith<N>, outer: seq<Level>, strict: bool)
    ensures var k := Level(true, false); Fail([k] + outer) == Cut([k] + outer)
    ensures Ended(a, Cut([Level(true, false)] + outer), outer, |outer| + 1, a.zero, strict)
  {
  }

  lemma TermEnds<N(!new)>(a: Arith<N>, v: Verdict, outer: seq<Level>, y: N, z: N, strict: bool)
    requires ProductEnded(a, v, Level(true, false), outer, y, strict) && (strict ==> z != a.zero)
    ensures Ended(a, v, outer, |outer| + 1, z, strict)
  {
    if v.Cut? {
      var at := |v.levels| - |outer| - 1;
      assert !LosesValue(v.levels, at + 1);
    }
  }

  /** All tokens are consumed exactly if the scan does not refuse them. */
  lemma {:induction false} AcceptedIsScanned<N(!new)>(a: Arith<N>, t: Tokens<N>)
    ensures Sum(a, t).1 == [] <==> t == [] || !Scan(t).Refused?
  {
    hide Sum, Operand;
    SumScanned(a, t, [], false);
    assert [Fresh] + [] == [Fresh];
    RefusedAtOnce(Sum(a, t).1);
    if Sum(a, t).1 != [] && |Sum(a, t).1| < |t| {
      assert Scan(t) == Operator(Sum(a, t).1, [Fresh] + []);
    }
  }

  lemma RefusedAtOnce<N>(t: Tokens<N>)
    ensures t != [] && !StartsSum(t) && !StartsProduct(t) ==> Operator(t, [Fresh] + []).Refused?
  {
  }

  function Shown<N>(a: Arith<N>, t: Tokens<N>): N {
    if Sum(a, t).1 != [] then a.zero else Sum(a, t).0
  }

  predicate ShowsZero<N>(t: Tokens<N>) {
    t == [] || Scan(t).Refused? || CutToZero(Scan(t))
  }

  /** Zero is shown, whatever the arithmetic, for these tokens, and only for these if no operation gives zero. */
  lemma {:induction false} ZeroIsScanned<N(!new)>(a: Arith<N>, t: Tokens<N>)
    ensures ShowsZero(t) ==> Shown(a, t) == a.zero
    ensures NoZero(a, t) && Shown(a, t) == a.zero ==> ShowsZero(t)
  {
    hide Sum, Operand, NoZero;
    AcceptedIsScanned(a, t);
    SumScanned(a, t, [], NoZero(a, t));
    assert [Fresh] + [] == [Fresh];
    if t == [] { SumOfNothing(a); }
  }

  lemma SumOfNothing<N>(a: Arith<N>)
    ensures Sum(a, []) == (a.zero, [])
  {
  }

  // ---- A clean scan is an expression whose last brackets may be left open ----

  function Closing<N>(n: nat): Tokens<N> {
    if n == 0 then [] else Closing(n - 1) + [CloseBracket]
  }

  /** A tree with the value read, whose tokens s are those read of t, with the brackets still open closed. */
  ghost predicate Spells<N(!new)>(a: Arith<N>, e: Expr<N>, s: Tokens<N>, t: Tokens<N>, r: (N, Tokens<N>), open: int) {
    && Value(a, e) == r.0
    && (r.1 != [] ==> s + r.1 == t)
    && (r.1 == [] ==> open >= 0 && s == t + Closing(open))
  }

  function Open(v: Verdict, level: nat): int { if v.Clean? then v.depth - level else -1 }

  lemma {:induction false} PrimaryTree<N(!new)>(a: Arith<N>, t: Tokens<N>, levels: seq<Level>) returns (e: Expr<N>)
    requires levels != [] && |Primary(a, t).1| < |t|
    requires Primary(a, t).1 != [] || Operand(t, levels).Clean?
    ensures !e.Binary?
    ensures Spells(a, e, PrimaryTokens(e), t, Primary(a, t), Open(Operand(t, levels), |levels|))
    decreases |t|, 0
  {
    hide Sum, Operator;
    assert t == [t[0]] + t[1..];
    if t[0].Num? {
      e := Literal(t[0].value);
      OperatorEnds<N>(levels);
      assert t + Closing(0) == t;
      return;
    }
    SumScanned(a, t[1..], levels, false);
    var x := Sum(a, t[1..]);
    var d := SumTree(a, t[1..], levels);
    e := Bracketed(d);
    if x.1 == [] {
      var n := Operand(t, levels).depth - |levels|;
      assert SumTokens(d) == t[1..] + Closing(n - 1);
      assert PrimaryTokens(e) == [OpenBracket] + (t[1..] + Closing(n - 1)) + [CloseBracket] == t + Closing(n);
      assert Primary(a, t) == (Value(a, e), []);
    } else {
      assert x.1 == [CloseBracket] + x.1[1..];
      assert SumTokens(d) + x.1 == t[1..];
      assert PrimaryTokens(e) + x.1[1..] == [OpenBracket] + (SumTokens(d) + x.1) == t;
      assert Primary(a, t) == (Value(a, e), x.1[1..]);
      if x.1[1..] == [] {
        assert Operand(t, levels) == Operator(x.1, [Fresh] + levels);
        BracketScanned(x.1, levels);
        OperatorEnds<N>(levels);
        assert t + Closing(0) == t;
      }
    }
  }

  lemma {:induction false} ProductTree<N(!new)>(a: Arith<N>, t: Tokens<N>, l: Level, outer: seq<Level>)
    returns (e: Expr<N>)
    requires |Product(a, t).1| < |t|
    requires Product(a, t).1 != [] || Operand(t, [l] + outer).Clean?
    ensures !e.Binary? || e.op.IsProduct()
    ensures Spells(a, e, ProductTokens(e), t, Product(a, t), Open(Operand(t, [l] + outer), |outer| + 1))
    decreases |t|, 2
  {
    hide Primary, Operand, Operator, Closing;
    PrimaryScanned(a, t, [l] + outer, false);
    e := PrimaryTree(a, t, [l] + outer);
    var x := Primary(a, t);
    if x.1 != [] {
      e := FactorsTree(a, e, x.1, l, outer, t);
    }
  }

  lemma {:induction false} FactorsTree<N(!new)>(
    a: Arith<N>, left: Expr<N>, t: Tokens<N>, l: Level, outer: seq<Level>, all: Tokens<N>
  ) returns (e: Expr<N>)
    requires t != [] && ProductTokens(left) + t == all && (!left.Binary? || left.op.IsProduct())
    requires Factors(a, Value(a, left), t).1 != [] || Operator(t, [l] + outer).Clean?
    ensures !e.Binary? || e.op.IsProduct()
    ensures Spells(a, e, ProductTokens(e), all, Factors(a, Value(a, left), t),
              Open(Operator(t, [l] + outer), |outer| + 1))
    decreases |t|, 1
  {
    hide Primary, Operand, Closing, ProductTokens, PrimaryTokens, Value, Apply;
    if !StartsProduct(t) { return left; }
    var k := l.(products := true);
    assert ([l] + outer)[0 := k] == [k] + outer;
    PrimaryScanned(a, t[1..], [k] + outer, false);
    var y := Primary(a, t[1..]);
    if |y.1| == |t[1..]| {
      FactorMissing(a, k, outer, false);
      return left;
    }
    var d := PrimaryTree(a, t[1..], [k] + outer);
    e := Binary(if t[0].Mult? then Times else Over, left, d);
    FactorAdded(a, left, d, t, all, y, Open(Operand(t[1..], [k] + outer), |outer| + 1));
    if y.1 != [] {
      e := FactorsTree(a, e, y.1, k, outer, all);
    }
  }

  lemma {:induction false} FactorAdded<N(!new)>(
    a: Arith<N>, left: Expr<N>, d: Expr<N>, t: Tokens<N>, all: Tokens<N>, y: (N, Tokens<N>), open: int
  )
    requires StartsProduct(t) && ProductTokens(left) + t == all
    requires Spells(a, d, PrimaryTokens(d), t[1..], y, open)
    ensures
      var e := Binary(if t[0].Mult? then Times else Over, left, d);
      Spells(a, e, ProductTokens(e), all, (Apply(a, e.op, Value(a, left), y.0), y.1), open)
  {
    hide PrimaryTokens, Closing;
    var op := if t[0].Mult? then Times else Over;
    assert t == [Sign(op)] + t[1..];
    assert all == ProductTokens(left) + [Sign(op)] + t[1..];
  }

  lemma {:induction false} SumTree<N(!new)>(a: Arith<N>, t: Tokens<N>, outer: seq<Level>) returns (e: Expr<N>)
    requires |Sum(a, t).1| < |t|
    requires Sum(a, t).1 != [] || Operand(t, [Fresh] + outer).Clean?
    ensures Spells(a, e, SumTokens(e), t, Sum(a, t), Open(Operand(t, [Fresh] + outer), |outer| + 1))
    decreases |t|, 4
  {
    hide Product, Operand, Operator, Closing;
    ProductScanned(a, t, Fresh, outer, false);
    e := ProductTree(a, t, Fresh, outer);
    var x := Product(a, t);
    if x.1 != [] {
      e := TermsTree(a, e, x.1, Fresh, outer, t);
    }
  }

  lemma {:induction false} TermsTree<N(!new)>(
    a: Arith<N>, left: Expr<N>, t: Tokens<N>, l: Level, outer: seq<Level>, all: Tokens<N>
  ) returns (e: Expr<N>)
    requires t != [] && SumTokens(left) + t == all
    requires Terms(a, Value(a, left), t).1 != [] || Operator(t, [l] + outer).Clean?
    ensures Spells(a, e, SumTokens(e), all, Terms(a, Value(a, left), t), Open(Operator(t, [l] + outer), |outer| + 1))
    decreases |t|, 3
  {
    hide Product, Operand, Closing, SumTokens, ProductTokens, Value, Apply;
    if !StartsSum(t) { return left; }
    var k := Level(true, false);
    assert ([l] + outer)[0 := k] == [k] + outer;
    ProductScanned(a, t[1..], k, outer, false);
    var y := Product(a, t[1..]);
    if |y.1| == |t[1..]| {
      TermMissing(a, outer, false);
      return left;
    }
    var d := ProductTree(a, t[1..], k, outer);
    e := Binary(if t[0].Add? then Plus else Minus, left, d);
    TermAdded(a, left, d, t, all, y, Open(Operand(t[1..], [k] + outer), |outer| + 1));
    if y.1 != [] {
      e := TermsTree(a, e, y.1, k, outer, all);
    }
  }

  lemma {:induction false} TermAdded<N(!new)>(
    a: Arith<N>, left: Expr<N>, d: Expr<N>, t: Tokens<N>, all: Tokens<N>, y: (N, Tokens<N>), open: int
  )
    requires StartsSum(t) && SumTokens(left) + t == all
    requires Spells(a, d, ProductTokens(d), t[1..], y, open)
    ensures
      var e := Binary(if t[0].Add? then Plus else Minus, left, d);
      Spells(a, e, SumTokens(e), all, (Apply(a, e.op, Value(a, left), y.0), y.1), open)
  {
    hide ProductTokens, Closing;
    var op := if t[0].Add? then Plus else Minus;
    assert t == [Sign(op)] + t[1..];
    assert all == SumTokens(left) + [Sign(op)] + t[1..];
  }

  /** The scan of an expression ends clean, in the level it began in. */
  lemma {:induction false} PrimaryIsClean<N>(e: Expr<N>, t: Tokens<N>, levels: seq<Level>)
    requires levels != []
    ensures Operand(PrimaryTokens(e) + t, levels) == Operator(t, levels)
    decreases e, 2
  {
    hide Operator;
    if e.Literal? {
      assert ([Num(e.n)] + t)[1..] == t;
      return;
    }
    var u := [CloseBracket] + t;
    var l := InnerIsClean(e, u, levels);
    BracketIsClean(InnerTokens(e), t, l, levels);
    assert PrimaryTokens(e) + t == [OpenBracket] + (InnerTokens(e) + u);
  }

  lemma BracketIsClean<N>(s: Tokens<N>, t: Tokens<N>, l: Level, levels: seq<Level>)
    requires levels != []
    requires Operand(s + ([CloseBracket] + t), [Fresh] + levels) == Operator([CloseBracket] + t, [l] + levels)
    ensures Operand([OpenBracket] + (s + ([CloseBracket] + t)), levels) == Operator(t, levels)
  {
    assert ([CloseBracket] + t)[1..] == t && ([l] + levels)[1..] == levels;
    assert ([OpenBracket] + (s + ([CloseBracket] + t)))[1..] == s + ([CloseBracket] + t);
  }

  function InnerTokens<N>(e: Expr<N>): Tokens<N>
    requires !e.Literal?
  {
    if e.Bracketed? then SumTokens(e.inner)
    else if e.op.IsProduct() then ProductTokens(e.left) + [Sign(e.op)] + PrimaryTokens(e.right)
    else SumTokens(e.left) + [Sign(e.op)] + ProductTokens(e.right)
  }

  lemma {:induction false} InnerIsClean<N>(e: Expr<N>, u: Tokens<N>, outer: seq<Level>) returns (l: Level)
    requires !e.Literal?
    ensures Operand(InnerTokens(e) + u, [Fresh] + outer) == Operator(u, [l] + outer)
    decreases e, 1
  {
    hide Operand, Operator;
    if e.Bracketed? {
      l := SumIsClean(e.inner, u, Fresh, outer);
    } else if e.op.IsProduct() {
      l := BehindFactor(e, u, Fresh, outer);
    } else {
      l := BehindTerm(e, u, Fresh, outer);
    }
  }

  lemma {:induction false} BehindFactor<N>(e: Expr<N>, t: Tokens<N>, l: Level, outer: seq<Level>) returns (k: Level)
    requires e.Binary? && e.op.IsProduct()
    ensures Operand(InnerTokens(e) + t, [l] + outer) == Operator(t, [k] + outer)
    decreases e, 0
  {
    hide Operand, PrimaryTokens, ProductTokens;
    var rest := [Sign(e.op)] + (PrimaryTokens(e.right) + t);
    k := ProductIsClean(e.left, rest, l, outer);
    assert InnerTokens(e) + t == ProductTokens(e.left) + rest;
    assert rest[1..] == PrimaryTokens(e.right) + t;
    assert ([k] + outer)[0 := k.(products := true)] == [k.(products := true)] + outer;
    k := k.(products := true);
    PrimaryIsClean(e.right, t, [k] + outer);
  }

  lemma {:induction false} BehindTerm<N>(e: Expr<N>, t: Tokens<N>, l: Level, outer: seq<Level>) returns (k: Level)
    requires e.Binary? && !e.op.IsProduct()
    ensures Operand(InnerTokens(e) + t, [l] + outer) == Operator(t, [k] + outer)
    decreases e, 0
  {
    hide Operand, SumTokens, ProductTokens;
    var rest := [Sign(e.op)] + (ProductTokens(e.right) + t);
    k := SumIsClean(e.left, rest, l, outer);
    assert InnerTokens(e) + t == SumTokens(e.left) + rest;
    assert rest[1..] == ProductTokens(e.right) + t;
    assert ([k] + outer)[0 := Level(true, false)] == [Level(true, false)] + outer;
    k := ProductIsClean(e.right, t, Level(true, false), outer);
  }

  lemma {:induction false} ProductIsClean<N>(e: Expr<N>, t: Tokens<N>, l: Level, outer: seq<Level>) returns (k: Level)
    ensures Operand(ProductTokens(e) + t, [l] + outer) == Operator(t, [k] + outer)
    decreases e, 3
  {
    hide Operand, Operator;
    if e.Binary? && e.op.IsProduct() {
      k := BehindFactor(e, t, l, outer);
      assert InnerTokens(e) == ProductTokens(e);
    } else {
      k := l;
      PrimaryIsClean(e, t, [l] + outer);
    }
  }

  lemma {:induction false} SumIsClean<N>(e: Expr<N>, t: Tokens<N>, l: Level, outer: seq<Level>) returns (k: Level)
    ensures Operand(SumTokens(e) + t, [l] + outer) == Operator(t, [k] + outer)
    decreases e, 4
  {
    hide Operand, Operator;
    if e.Binary? && !e.op.IsProduct() {
      k := BehindTerm(e, t, l, outer);
      assert InnerTokens(e) == SumTokens(e);
    } else {
      k := ProductIsClean(e, t, l, outer);
    }
  }

  lemma {:induction false} OperandUnclosed<N>(t: Tokens<N>, levels: seq<Level>, n: nat)
    requires levels != []
    ensures Operand(t + [CloseBracket], levels) == Clean(n) <==> n > 0 && Operand(t, levels) == Clean(n + 1)
    decreases |t|
  {
    hide Operator, Fail;
    NoOperandIsUnclean(levels);
    if t == [] {
      assert t + [CloseBracket] == [CloseBracket];
      return;
    }
    assert (t + [CloseBracket])[1..] == t[1..] + [CloseBracket];
    if t[0].Num? {
      OperatorUnclosed(t[1..], levels, n);
    } else if t[0].OpenBracket? {
      OperandUnclosed(t[1..], [Fresh] + levels, n);
    }
  }

  lemma NoOperandIsUnclean(levels: seq<Level>)
    ensures !Fail(levels).Clean?
  {
  }

  lemma {:induction false} OperatorUnclosed<N>(t: Tokens<N>, levels: seq<Level>, n: nat)
    requires levels != []
    ensures Operator(t + [CloseBracket], levels) == Clean(n) <==> n > 0 && Operator(t, levels) == Clean(n + 1)
    decreases |t|
  {
    hide Operand, Fail;
    if t == [] {
      assert t + [CloseBracket] == [CloseBracket];
      return;
    }
    assert (t + [CloseBracket])[1..] == t[1..] + [CloseBracket];
    NoOperandIsUnclean(levels[1..]);
    if StartsSum(t) {
      OperandUnclosed(t[1..], levels[0 := Level(true, false)], n);
    } else if StartsProduct(t) {
      OperandUnclosed(t[1..], levels[0 := levels[0].(products := true)], n);
    } else if t[0].CloseBracket? && |levels| > 1 {
      OperatorUnclosed(t[1..], levels[1..], n);
    }
  }

  lemma {:induction false} ClosedIsClean<N>(t: Tokens<N>, n: nat)
    requires Scan(t + Closing(n)) == Clean(1)
    ensures Scan(t) == Clean(n + 1)
  {
    assert t + Closing(0) == t;
    var k := n;
    while k > 0
      invariant 0 <= k <= n
      invariant Scan(t + Closing(k)) == Clean(n - k + 1)
    {
      assert t + Closing(k) == t + Closing(k - 1) + [CloseBracket];
      OperandUnclosed(t + Closing(k - 1), [Fresh], n - k + 1);
      k := k - 1;
    }
  }

  ghost predicate IsExpression<N(!new)>(t: Tokens<N>) {
    exists e: Expr<N> :: SumTokens(e) == t
  }

  /** The scan ends clean exactly for the expressions, with any number of their last closing brackets left out. */
  lemma {:induction false} CleanIsExpression<N(!new)>(a: Arith<N>, t: Tokens<N>, n: nat)
    ensures Scan(t) == Clean(n + 1) <==> IsExpression(t + Closing(n))
  {
    if Scan(t) == Clean(n + 1) {
      var e := UnclosedIsValue(a, t, n);
    }
    if IsExpression(t + Closing(n)) {
      var e: Expr<N> :| SumTokens(e) == t + Closing(n);
      var l := SumIsClean(e, [], Fresh, []);
      assert SumTokens(e) + [] == SumTokens(e) && [Fresh] + [] == [Fresh];
      ClosedIsClean(t, n);
    }
  }

  /** And then they are consumed to the last, with the value of the expression. */
  lemma {:induction false} UnclosedIsValue<N(!new)>(a: Arith<N>, t: Tokens<N>, n: nat) returns (e: Expr<N>)
    requires Scan(t) == Clean(n + 1)
    ensures SumTokens(e) == t + Closing(n)
    ensures Sum(a, t) == (Value(a, e), [])
  {
    hide Sum, Closing;
    AcceptedIsScanned(a, t);
    NothingIsUnclean<N>();
    assert [Fresh] + [] == [Fresh];
    e := SumTree(a, t, []);
  }

  lemma NothingIsUnclean<N>()
    ensures !Scan<N>([]).Clean?
  {
    NoOperandIsUnclean([Fresh]);
  }

  /** The brackets still open where the input ends need not be closed. */
  lemma {:induction false} ClosingMayBeOmitted<N(!new)>(a: Arith<N>, e: Expr<N>, t: Tokens<N>, n: nat)
    requires SumTokens(e) == t + Closing(n)
    ensures Sum(a, t) == (Value(a, e), [])
  {
    CleanIsExpression(a, t, n);
    var f := UnclosedIsValue(a, t, n);
    Unambiguous(a, e, f);
  }

  /** What is no expression, even closed, is consumed all the same exactly if it is empty or cut. */
  lemma {:induction false} AcceptedThoughMalformed<N(!new)>(a: Arith<N>, t: Tokens<N>)
    ensures (Sum(a, t).1 == [] && forall n: nat :: !IsExpression(t + Closing(n))) <==> t == [] || Scan(t).Cut?
  {
    hide Sum, Scan;
    AcceptedIsScanned(a, t);
    NothingIsUnclean<N>();
    forall n: nat ensures IsExpression(t + Closing(n)) <==> Scan(t) == Clean(n + 1) {
      CleanIsExpression(a, t, n);
    }
    if Scan(t).Clean? {
      CleanIsPositive(a, t);
      assert IsExpression(t + Closing(Scan(t).depth - 1));
    }
  }

  lemma {:induction false} CleanIsPositive<N(!new)>(a: Arith<N>, t: Tokens<N>)
    requires Scan(t).Clean?
    ensures Scan(t).depth > 0
  {
    hide Sum, Operand;
    NothingIsUnclean<N>();
    AcceptedIsScanned(a, t);
    SumScanned(a, t, [], false);
    assert [Fresh] + [] == [Fresh];
  }

  // ---- The pointer that is handed out ----

  ghost predicate IsSuffix<N>(s: Tokens<N>, t: Tokens<N>) {
    |s| <= |t| && s == t[|t| - |s|..]
  }

  lemma SuffixOfTail<N>(s: Tokens<N>, t: Tokens<N>, k: nat)
    requires k <= |t| && IsSuffix(s, t[k..])
    ensures IsSuffix(s, t)
  {
    assert s == t[k..][|t| - k - |s|..];
  }

  lemma SuffixOfSuffix<N>(r: Tokens<N>, s: Tokens<N>, t: Tokens<N>)
    requires IsSuffix(r, s) && IsSuffix(s, t)
    ensures IsSuffix(r, t)
  {
    SuffixOfTail(r, t, |t| - |s|);
  }

  lemma EmptySuffix<N>(t: Tokens<N>)
    ensures IsSuffix([], t) && IsSuffix(t, t)
    ensures t != [] ==> IsSuffix(t[1..], t)
  {
  }

  // ---- The program ----

  /** evalPrimary. */
  method EvalPrimary<N>(a: Arith<N>, toklist: Tokens<N>) returns (value: N, endptr: Tokens<N>)
    ensures (value, endptr) == Primary(a, toklist) && IsSuffix(endptr, toklist)
    decreases |toklist|, 0
  {
    hide IsSuffix, Sum;
    EmptySuffix(toklist);
    if toklist == [] { return a.zero, toklist; }
    if toklist[0].Num? { return toklist[0].value, toklist[1..]; }
    if toklist[0].OpenBracket? {
      var x, temp := EvalExpr(a, toklist[1..]);
      if |temp| == |toklist[1..]| { return a.zero, toklist; }
      if temp == [] { return x, []; }
      if !temp[0].CloseBracket? { return a.zero, toklist; }
      EmptySuffix(temp);
      SuffixOfSuffix(temp[1..], temp, toklist[1..]);
      SuffixOfSuffix(temp[1..], toklist[1..], toklist);
      return x, temp[1..];
    }
    return a.zero, toklist;
  }

  /** evalProduct. */
  method EvalProduct<N>(a: Arith<N>, toklist0: Tokens<N>) returns (value: N, endptr: Tokens<N>)
    ensures (value, endptr) == Product(a, toklist0) && IsSuffix(endptr, toklist0)
    decreases |toklist0|, 2
  {
    hide IsSuffix, Primary;
    EmptySuffix(toklist0);
    if toklist0 == [] { return a.zero, toklist0; }
    var x, temp := EvalPrimary(a, toklist0);
    if |temp| == |toklist0| { return a.zero, toklist0; }
    var toklist := temp;
    while toklist != [] && (toklist[0].Mult? || toklist[0].Div?)
      invariant |toklist| < |toklist0| && IsSuffix(toklist, toklist0)
      invariant Product(a, toklist0) == Factors(a, x, toklist)
      decreases |toklist|
    {
      EmptySuffix(toklist);
      SuffixOfSuffix(toklist[1..], toklist, toklist0);
      var op := if toklist[0].Mult? then Times else Over;
      toklist := toklist[1..];
      var y, after := EvalPrimary(a, toklist);
      if |after| == |toklist| { return a.zero, []; }
      SuffixOfSuffix(after, toklist, toklist0);
      toklist := after;
      x := Apply(a, op, x, y);
    }
    return x, toklist;
  }

  /** evalSum. */
  method EvalSum<N>(a: Arith<N>, toklist0: Tokens<N>) returns (value: N, endptr: Tokens<N>)
    ensures (value, endptr) == Sum(a, toklist0) && IsSuffix(endptr, toklist0)
    decreases |toklist0|, 4
  {
    hide IsSuffix, Product;
    EmptySuffix(toklist0);
    if toklist0 == [] { return a.zero, toklist0; }
    var x, temp := EvalProduct(a, toklist0);
    if |temp| == |toklist0| { return a.zero, toklist0; }
    var toklist := temp;
    while toklist != [] && (toklist[0].Add? || toklist[0].Sub?)
      invariant |toklist| < |toklist0| && IsSuffix(toklist, toklist0)
      invariant Sum(a, toklist0) == Terms(a, x, toklist)
      decreases |toklist|
    {
      EmptySuffix(toklist);
      SuffixOfSuffix(toklist[1..], toklist, toklist0);
      var op := if toklist[0].Add? then Plus else Minus;
      toklist := toklist[1..];
      var y, after := EvalProduct(a, toklist);
      if |after| == |toklist| { return a.zero, []; }
      SuffixOfSuffix(after, toklist, toklist0);
      toklist := after;
      x := Apply(a, op, x, y);
    }
    return x, toklist;
  }

  /** evalExpr. */
  method EvalExpr<N>(a: Arith<N>, toklist: Tokens<N>) returns (value: N, endptr: Tokens<N>)
    ensures (value, endptr) == Sum(a, toklist) && IsSuffix(endptr, toklist)
    decreases |toklist|, 5
  {
    value, endptr := EvalSum(a, toklist);
  }

  /** The end of parseExpr: zero unless all tokens were consumed. */
  method Evaluate<N(!new)>(a: Arith<N>, toklist: Tokens<N>) returns (result: N)
    ensures forall e :: toklist == SumTokens(e) ==> result == Value(a, e)
    ensures result == Shown(a, toklist)
    ensures ShowsZero(toklist) ==> result == a.zero
    ensures NoZero(a, toklist) && result == a.zero ==> ShowsZero(toklist)
  {
    hide Sum, Scan, NoZero;
    var value, endptr := EvalExpr(a, toklist);
    ZeroIsScanned(a, toklist);
    forall e | toklist == SumTokens(e) ensures (value, endptr) == (Value(a, e), []) {
      EvaluatesToValue(a, e);
    }
    result := if endptr != [] then a.zero else value;
  }
}
