/** evalExpr: what it accepts, what it computes, and how both differ from the intended operators. */
module Expressions {
  import opened Bytes
  import opened Tables
  import opened Attributes
  import opened Comparisons
  import opened Options

  datatype Expr =
    | Const(value: Value)
    | Attr(n: nat)
    | Not(arg: Expr)
    | And(left: Expr, right: Expr)
    | Or(left: Expr, right: Expr)
    | Equal(left: Expr, right: Expr)
    | Smaller(left: Expr, right: Expr)

  /** CPVAL: a string constant is copied up to its NUL. */
  function Copy(v: Value): (c: Value)
    ensures c.Type() == v.Type()
  {
    if v.StringV? then StringV(CString(v.s)) else v
  }

  /** The schema after getAttr has looked at attribute `n`. */
  function Settle(l: Layout, n: nat): Layout {
    if n == 1 && 1 < |l.types| then l.(types := l.types[1 := DT_STRING]) else l
  }

  function Unary(v: Outcome<Value>): Outcome<Value> {
    if v.Failed? then v else BoolNot(v.value)
  }

  function Binary(e: Expr, l: Value, r: Value): Outcome<Value>
    requires e.And? || e.Or? || e.Equal? || e.Smaller?
  {
    match e
    case And(_, _) => BoolAnd(l, r)
    case Or(_, _) => BoolOr(l, r)
    case Equal(_, _) => ValueEquals(l, r)
    case Smaller(_, _) => ValueSmaller(l, r)
  }

  /** evalExpr with the schema as it leaves it: both operands are always evaluated, the left one first. */
  function Eval(e: Expr, data: seq<byte>, l: Layout): (Outcome<Value>, Layout) {
    match e
    case Const(v) => (Done(Copy(v)), l)
    case Attr(n) => if CanRead(data, l, n) then (Done(GetAttr(data, l, n)), Settle(l, n)) else (Failed(UNDEFINED), l)
    case Not(a) =>
      var (v, l1) := Eval(a, data, l);
      (Unary(v), l1)
    case _ =>
      var (v, l1) := Eval(e.left, data, l);
      if v.Failed? then (v, l1)
      else
        var (w, l2) := Eval(e.right, data, l1);
        if w.Failed? then (w, l2) else (Binary(e, v.value, w.value), l2)
  }

  /** getRecordSize over the first `n` attributes, before and after. */
  lemma {:induction false} TotalSettled(l: Layout, n: nat)
    requires l.Ok() && n <= |l.types| && 1 < |l.types|
    ensures Total(Settle(l, 1), HandlerSize, n) ==
      Total(l, HandlerSize, n) + if n > 1 then 4 - HandlerSize(l.types[1], l.lens[1]) else 0
  {
    if n > 0 {
      TotalSettled(l, n - 1);
    }
  }

  /** getAttr on attribute 1 leaves the record size alone exactly when that counts four bytes already. */
  lemma SettledSize(l: Layout)
    requires l.Ok()
    ensures RecordSize(Settle(l, 1)) == RecordSize(l) <==>
      || |l.types| <= 1
      || l.types[1] == DT_INT || l.types[1] == DT_STRING
      || (l.types[1] == DT_FLOAT && l.lens[1] == 4)
  {
    if 1 < |l.types| {
      TotalSettled(l, |l.types|);
    }
  }

  // ---------- Typing of the code as written ----------

  /** The record is long enough for every attribute, before and after attribute 1 became a string. */
  ghost predicate Roomy(data: seq<byte>, l: Layout) {
    l.Ok() && forall n :: 0 <= n < |l.types| ==> CanRead(data, l, n) && CanRead(data, Settle(l, 1), n)
  }

  /** The type of an expression: AND and OR yield an int, and bools have no order. */
  function TypeOf(e: Expr, l: Layout): Option<DataType> {
    match e
    case Const(v) => Some(v.Type())
    case Attr(n) => if n < |l.types| then Some(ReadType(l, n)) else None
    case Not(a) => if TypeOf(a, l) == Some(DT_BOOL) then Some(DT_BOOL) else None
    case And(a, b) => if TypeOf(a, l) == TypeOf(b, l) == Some(DT_BOOL) then Some(DT_INT) else None
    case Or(a, b) => if TypeOf(a, l) == TypeOf(b, l) == Some(DT_BOOL) then Some(DT_INT) else None
    case Equal(a, b) => if TypeOf(a, l) == TypeOf(b, l) != None then Some(DT_BOOL) else None
    case Smaller(a, b) =>
      if TypeOf(a, l) == TypeOf(b, l) != None && TypeOf(a, l) != Some(DT_BOOL) then Some(DT_BOOL) else None
  }

  lemma {:induction false} TypeSettled(e: Expr, l: Layout)
    ensures TypeOf(e, Settle(l, 1)) == TypeOf(e, l)
  {
    match e
    case Const(_) =>
    case Attr(_) =>
    case Not(a) => TypeSettled(a, l);
    case _ => TypeSettled(e.left, l); TypeSettled(e.right, l);
  }

  /** The schema that evalExpr leaves is the one it got or that one settled. */
  lemma {:induction false} EvalLayout(e: Expr, data: seq<byte>, l: Layout)
    requires Roomy(data, l)
    ensures var l' := Eval(e, data, l).1; (l' == l || l' == Settle(l, 1)) && Roomy(data, l')
  {
    match e
    case Const(_) =>
    case Attr(_) =>
      var settled := Settle(l, 1);
      assert Settle(settled, 1) == settled by {
        if 1 < |l.types| {
          assert settled.types[1 := DT_STRING] == settled.types;
        }
      }
    case Not(a) => EvalLayout(a, data, l);
    case _ =>
      EvalLayout(e.left, data, l);
      EvalLayout(e.right, data, Eval(e.left, data, l).1);
  }

  /** Evaluation succeeds exactly on well-typed expressions, for every record alike, with a value of the static type. */
  lemma {:induction false} EvalTyped(e: Expr, data: seq<byte>, l: Layout)
    requires Roomy(data, l)
    ensures var r := Eval(e, data, l).0;
      (r.Done? <==> TypeOf(e, l).Some?) && (r.Done? ==> r.value.Type() == TypeOf(e, l).value)
  {
    match e
    case Const(_) =>
    case Attr(_) =>
    case Not(a) => EvalTyped(a, data, l);
    case _ =>
      EvalTyped(e.left, data, l);
      EvalLayout(e.left, data, l);
      var l1 := Eval(e.left, data, l).1;
      EvalTyped(e.right, data, l1);
      TypeSettled(e.right, l);
  }

  // ---------- Against the intended operators ----------

  predicate Connective(e: Expr) {
    e.And? || e.Or?
  }

  /** The type intended: AND and OR yield bools, and bools are ordered. */
  function IntendedType(e: Expr, l: Layout): Option<DataType> {
    match e
    case Const(v) => Some(v.Type())
    case Attr(n) => if n < |l.types| then Some(ReadType(l, n)) else None
    case Not(a) => if IntendedType(a, l) == Some(DT_BOOL) then Some(DT_BOOL) else None
    case And(a, b) => if IntendedType(a, l) == IntendedType(b, l) == Some(DT_BOOL) then Some(DT_BOOL) else None
    case Or(a, b) => if IntendedType(a, l) == IntendedType(b, l) == Some(DT_BOOL) then Some(DT_BOOL) else None
    case Equal(a, b) => if IntendedType(a, l) == IntendedType(b, l) != None then Some(DT_BOOL) else None
    case Smaller(a, b) => if IntendedType(a, l) == IntendedType(b, l) != None then Some(DT_BOOL) else None
  }

  /** A truth value as C writes it. */
  function Truth(b: bool): Value {
    BoolV(if b then 1 else 0)
  }

  /** What the operators were meant to compute. */
  ghost function IntendedBinary(e: Expr, l: Value, r: Value): Outcome<Value>
    requires e.And? || e.Or? || e.Equal? || e.Smaller?
  {
    match e
    case And(_, _) =>
      if l.BoolV? && r.BoolV? then Done(Truth(l.b != 0 && r.b != 0)) else Failed(BOOLEAN_EXPR_ARG_IS_NOT_BOOLEAN)
    case Or(_, _) =>
      if l.BoolV? && r.BoolV? then Done(Truth(l.b != 0 || r.b != 0)) else Failed(BOOLEAN_EXPR_ARG_IS_NOT_BOOLEAN)
    case Equal(_, _) =>
      if l.Type() != r.Type() then Failed(COMPARE_VALUE_OF_DIFFERENT_DATATYPE) else Done(Truth(Equals(l, r)))
    case Smaller(_, _) =>
      if l.Type() != r.Type() then Failed(COMPARE_VALUE_OF_DIFFERENT_DATATYPE) else Done(Truth(Below(l, r)))
  }

  /** A constant as it was written down: a string ends at its NUL. */
  function Constant(v: Value): Value {
    match v
    case IntV(i) => IntV(i)
    case StringV(s) => StringV(CString(s))
    case FloatV(bits) => FloatV(bits)
    case BoolV(b) => BoolV(b)
  }

  /**
   * What an expression was meant to evaluate to, on a reading of the operators that
   * has nothing of the code's own: only attributes are read by getAttr.
   */
  ghost function IntendedEval(e: Expr, data: seq<byte>, l: Layout): (Outcome<Value>, Layout) {
    match e
    case Const(v) => (Done(Constant(v)), l)
    case Attr(n) => if CanRead(data, l, n) then (Done(GetAttr(data, l, n)), Settle(l, n)) else (Failed(UNDEFINED), l)
    case Not(a) =>
      var (v, l1) := IntendedEval(a, data, l);
      if v.Failed? then (v, l1)
      else if v.value.BoolV? then (Done(Truth(v.value.b == 0)), l1)
      else (Failed(BOOLEAN_EXPR_ARG_IS_NOT_BOOLEAN), l1)
    case _ =>
      var (v, l1) := IntendedEval(e.left, data, l);
      if v.Failed? then (v, l1)
      else
        var (w, l2) := IntendedEval(e.right, data, l1);
        if w.Failed? then (w, l2) else (IntendedBinary(e, v.value, w.value), l2)
  }

  /**
   * Where AND and OR may stand: at the root, or as both operands of one
   * comparison. Bools that are not both AND or OR must not be ordered.
   */
  predicate Supported(e: Expr, l: Layout) {
    match e
    case Const(_) => true
    case Attr(_) => true
    case Not(a) => Supported(a, l) && !Connective(a)
    case And(a, b) => Supported(a, l) && Supported(b, l) && !Connective(a) && !Connective(b)
    case Or(a, b) => Supported(a, l) && Supported(b, l) && !Connective(a) && !Connective(b)
    case Equal(a, b) => Supported(a, l) && Supported(b, l) && Connective(a) == Connective(b)
    case Smaller(a, b) =>
      && Supported(a, l) && Supported(b, l) && Connective(a) == Connective(b)
      && (IntendedType(a, l) == Some(DT_BOOL) ==> Connective(a))
  }

  /** On expressions typed as intended, the code's own typing accepts exactly the supported ones. */
  lemma {:induction false} TypedIffSupported(e: Expr, l: Layout)
    requires IntendedType(e, l).Some?
    ensures TypeOf(e, l).Some? <==> Supported(e, l)
    ensures Supported(e, l) ==> TypeOf(e, l) == if Connective(e) then Some(DT_INT) else IntendedType(e, l)
  {
    match e
    case Const(_) =>
    case Attr(_) =>
    case Not(a) => TypedIffSupported(a, l);
    case _ =>
      TypedIffSupported(e.left, l);
      TypedIffSupported(e.right, l);
      if Connective(e.left) {
        ConnectiveIsBool(e.left, l);
      } else if Connective(e.right) {
        ConnectiveIsBool(e.right, l);
      }
  }

  lemma ConnectiveIsBool(e: Expr, l: Layout)
    requires Connective(e) && IntendedType(e, l).Some?
    ensures IntendedType(e, l) == Some(DT_BOOL)
  {
  }

  /** How the code represents the intended value of `e`: a bool from AND or OR sits in an int. */
  function Represented(e: Expr, v: Value): Value {
    if Connective(e) && v.BoolV? then StoredInInt(v.b != 0) else v
  }

  /** A value that an AND or OR can have. */
  predicate Plain(e: Expr, v: Value) {
    Connective(e) ==> v == BoolV(0) || v == BoolV(1)
  }

  lemma BinaryMeaning(e: Expr, v: Value, w: Value)
    requires e.And? || e.Or? || e.Equal? || e.Smaller?
    requires Connective(e.left) == Connective(e.right) && (Connective(e) ==> !Connective(e.left))
    requires Plain(e.left, v) && Plain(e.right, w) && v.Type() == w.Type()
    requires Connective(e) ==> v.BoolV?
    requires e.Smaller? && v.BoolV? ==> Connective(e.left)
    ensures IntendedBinary(e, v, w).Done? && IntendedBinary(e, v, w).value.BoolV?
    ensures Plain(e, IntendedBinary(e, v, w).value)
    ensures var result := IntendedBinary(e, v, w).value;
      Binary(e, Represented(e.left, v), Represented(e.right, w)) == Done(Represented(e, result))
  {
    hide Same, Less, Equals, Below;
    var x, y := Represented(e.left, v), Represented(e.right, w);
    assert x.Type() == y.Type();
    OrderIs(x, y);
    RepresentedOrder(e, v, w);
  }

  /** Bools that sit in ints compare as they did. */
  lemma RepresentedOrder(e: Expr, v: Value, w: Value)
    requires e.And? || e.Or? || e.Equal? || e.Smaller?
    requires Connective(e.left) == Connective(e.right) && v.Type() == w.Type()
    requires Plain(e.left, v) && Plain(e.right, w)
    ensures var x, y := Represented(e.left, v), Represented(e.right, w);
      x.Type() == y.Type() && (Equals(x, y) <==> Equals(v, w)) && (Below(x, y) <==> Below(v, w))
  {
  }

  /** Which error an operator reports, and on which values. */
  lemma OperatorErrors(e: Expr, v: Value, w: Value)
    requires e.And? || e.Or? || e.Equal? || e.Smaller?
    ensures Binary(e, v, w).Failed? <==>
      if Connective(e) then !v.BoolV? || !w.BoolV? else v.Type() != w.Type() || (e.Smaller? && v.BoolV?)
    ensures Connective(e) && Binary(e, v, w).Failed? ==> Binary(e, v, w).error == BOOLEAN_EXPR_ARG_IS_NOT_BOOLEAN
    ensures !Connective(e) && v.Type() != w.Type() ==> Binary(e, v, w) == Failed(COMPARE_VALUE_OF_DIFFERENT_DATATYPE)
    ensures e.Smaller? && v.BoolV? && w.BoolV? ==> Binary(e, v, w) == Failed(UNDEFINED)
    ensures Unary(Done(v)).Failed? <==> !v.BoolV?
    ensures !v.BoolV? ==> Unary(Done(v)) == Failed(BOOLEAN_EXPR_ARG_IS_NOT_BOOLEAN)
  {
    hide Same, Less;
  }

  // ---------- Which error ----------

  /** The error of an operator on operands of these types. */
  function TypeError(e: Expr, a: DataType, b: DataType): Option<Error>
    requires e.And? || e.Or? || e.Equal? || e.Smaller?
  {
    match e
    case And(_, _) => if a == b == DT_BOOL then None else Some(BOOLEAN_EXPR_ARG_IS_NOT_BOOLEAN)
    case Or(_, _) => if a == b == DT_BOOL then None else Some(BOOLEAN_EXPR_ARG_IS_NOT_BOOLEAN)
    case Equal(_, _) => if a == b then None else Some(COMPARE_VALUE_OF_DIFFERENT_DATATYPE)
    case Smaller(_, _) =>
      if a != b then Some(COMPARE_VALUE_OF_DIFFERENT_DATATYPE) else if a == DT_BOOL then Some(UNDEFINED) else None
  }

  /** The error that a schema alone decides: that of the leftmost innermost operator whose operands are wrong. */
  function ErrorOf(e: Expr, l: Layout): Option<Error> {
    match e
    case Const(_) => None
    case Attr(n) => if n < |l.types| then None else Some(UNDEFINED)
    case Not(a) =>
      if ErrorOf(a, l).Some? then ErrorOf(a, l)
      else if TypeOf(a, l) == Some(DT_BOOL) then None
      else Some(BOOLEAN_EXPR_ARG_IS_NOT_BOOLEAN)
    case _ =>
      if ErrorOf(e.left, l).Some? then ErrorOf(e.left, l)
      else if ErrorOf(e.right, l).Some? then ErrorOf(e.right, l)
      else if TypeOf(e.left, l).None? || TypeOf(e.right, l).None? then None
      else TypeError(e, TypeOf(e.left, l).value, TypeOf(e.right, l).value)
  }

  lemma {:induction false} ErrorSettled(e: Expr, l: Layout)
    ensures ErrorOf(e, Settle(l, 1)) == ErrorOf(e, l)
  {
    match e
    case Const(_) =>
    case Attr(_) =>
    case Not(a) =>
      ErrorSettled(a, l);
      TypeSettled(a, l);
    case _ =>
      ErrorSettled(e.left, l);
      ErrorSettled(e.right, l);
      TypeSettled(e.left, l);
      TypeSettled(e.right, l);
  }

  /** A failed evaluation fails with that error, whatever the record holds. */
  lemma {:induction false} EvalErrors(e: Expr, data: seq<byte>, l: Layout)
    requires Roomy(data, l)
    ensures var r := Eval(e, data, l).0; if r.Failed? then ErrorOf(e, l) == Some(r.error) else ErrorOf(e, l) == None
  {
    hide Roomy, Position, ReadWidth, Decode, Same, Less, Copy;
    match e
    case Const(_) =>
    case Attr(n) => RoomyReads(data, l, n);
    case Not(a) =>
      EvalErrors(a, data, l);
      EvalTyped(a, data, l);
    case _ =>
      var l1 := Eval(e.left, data, l).1;
      EvalErrors(e.left, data, l);
      EvalTyped(e.left, data, l);
      EvalLayout(e.left, data, l);
      EvalErrors(e.right, data, l1);
      EvalTyped(e.right, data, l1);
      ErrorSettled(e.right, l);
      TypeSettled(e.right, l);
  }

  lemma RoomyReads(data: seq<byte>, l: Layout, n: nat)
    requires Roomy(data, l)
    ensures CanRead(data, l, n) <==> n < |l.types|
  {
  }

  /** A supported expression typed as intended evaluates to its intended value, in the code's representation. */
  lemma {:induction false} MeaningKept(e: Expr, data: seq<byte>, l: Layout)
    requires Roomy(data, l) && IntendedType(e, l).Some? && Supported(e, l)
    ensures var (v, l1) := IntendedEval(e, data, l);
      && v.Done? && v.value.Type() == IntendedType(e, l).value && Plain(e, v.value)
      && Eval(e, data, l) == (Done(Represented(e, v.value)), l1)
  {
    hide Binary, IntendedBinary, CanRead, Decode, ReadWidth, Position;
    match e
    case Const(_) =>
    case Attr(_) =>
    case Not(a) => MeaningKept(a, data, l);
    case _ =>
      MeaningKept(e.left, data, l);
      EvalLayout(e.left, data, l);
      var (v, l1) := IntendedEval(e.left, data, l);
      SettledMeaning(e.right, l);
      MeaningKept(e.right, data, l1);
      var (w, l2) := IntendedEval(e.right, data, l1);
      BinaryMeaning(e, v.value, w.value);
  }

  lemma {:induction false} SettledMeaning(e: Expr, l: Layout)
    ensures IntendedType(e, Settle(l, 1)) == IntendedType(e, l)
    ensures Supported(e, Settle(l, 1)) == Supported(e, l)
  {
    match e
    case Const(_) =>
    case Attr(_) =>
    case Not(a) => SettledMeaning(a, l);
    case _ => SettledMeaning(e.left, l); SettledMeaning(e.right, l);
  }

  /** Put together: an expression typed as intended is evaluated, and as intended, if and only if it is supported. */
  lemma EvalAsIntendedIff(e: Expr, data: seq<byte>, l: Layout)
    requires Roomy(data, l) && IntendedType(e, l).Some?
    ensures Eval(e, data, l).0.Done? <==> Supported(e, l)
    ensures Supported(e, l) ==> IntendedEval(e, data, l).0.Done?
    ensures Supported(e, l) ==> Eval(e, data, l).0 == Done(Represented(e, IntendedEval(e, data, l).0.value))
  {
    EvalTyped(e, data, l);
    TypedIffSupported(e, l);
    if Supported(e, l) {
      MeaningKept(e, data, l);
    }
  }

  /** An AND below a NOT is typed as intended and fails. */
  lemma NotAndFails(data: seq<byte>, l: Layout)
    ensures var e := Not(And(Const(BoolV(1)), Const(BoolV(0))));
      IntendedType(e, l) == Some(DT_BOOL) && Eval(e, data, l).0 == Failed(BOOLEAN_EXPR_ARG_IS_NOT_BOOLEAN)
  {
    var t, f := Const(BoolV(1)), Const(BoolV(0));
    assert IntendedType(And(t, f), l) == Some(DT_BOOL);
    assert Eval(t, data, l) == (Done(BoolV(1)), l) && Eval(f, data, l) == (Done(BoolV(0)), l);
    assert Eval(And(t, f), data, l) == (Done(StoredInInt(false)), l);
  }
}
