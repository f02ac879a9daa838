/**
 Replacing a call by the callee's return expression, on trees: every parameter is replaced by
 the parenthesised argument, with a cast where the types differ
 (clang_delta/ReplaceCallExpr.cpp:474-508), and what the resulting expression evaluates to.
 */
module CallInlining {

  // Integer types of C, a width in bits and a sign; and pointers, arrays and records, whose values are
  // addresses and codes.
  datatype Ty = Ty(signed: bool, bits: nat) | Other(name: string)

  const INT := Ty(true, 32)

  datatype Expr =
    | Constant(text: string, value: int, ty: Ty)
    | Variable(name: string, ty: Ty)
    | ParmRef(parm: nat, name: string)
    | Paren(sub: Expr)
    | ImplicitCast(sub: Expr)
    | Cast(tyName: string, sub: Expr)
    | Unary(op: string, sub: Expr)
    | Binary(lhs: Expr, op: string, rhs: Expr)
    | Conditional(cond: Expr, thn: Expr, els: Expr)
    | Subscript(base: Expr, idx: Expr)
    | Member(base: Expr, access: string)

  // A parameter with its type as it is written.
  datatype Parm = Parm(name: string, tyName: string)

  // The canonical type behind a written one; what operators compute from operands that have been converted
  // to the given types, the types of those with operands that are no integers, and what is read through
  // subscripts and members: all arbitrary.
  datatype Language = Language(canon: string -> Ty,
                               bin: (Ty, Ty, string, int, int) -> int, binTy: (string, Ty, Ty) -> Ty,
                               un: (Ty, string, int) -> int, unTy: (string, Ty) -> Ty,
                               elem: (Ty, Ty, int, int) -> int, elemTy: (Ty, Ty) -> Ty,
                               field: (Ty, string, int) -> int, fieldTy: (Ty, string) -> Ty)

  // ----- Types and values -----

  function Pow2(n: nat): (p: nat)
    ensures p >= 1 && (n > 0 ==> p % 2 == 0)
  {
    if n == 0 then 1 else 2 * Pow2(n - 1)
  }

  // Conversion of a value to an integer type: reduction modulo two to the width, into the range of the type.
  function Convert(t: Ty, v: int): int {
    if t.Other? then v else ConvertInt(t, v)
  }

  function ConvertInt(t: Ty, v: int): int
    requires t.Ty?
  {
    var m := Pow2(t.bits);
    var r := v % m;
    if t.signed && 2 * r >= m then r - m else r
  }

  lemma {:induction false} ConvertIdempotent(t: Ty, v: int)
    ensures Convert(t, Convert(t, v)) == Convert(t, v)
  {
    if t.Ty? {
      var m := Pow2(t.bits);
      var r := v % m;
      ModOfReduced(r, m);
    }
  }

  lemma {:induction false} ModOfReduced(r: int, m: int)
    requires 0 <= r < m
    ensures r % m == r && (r - m) % m == r
  {
    assert (r - m) == -1 * m + r;
  }

  // The usual arithmetic conversions.
  function Promote(t: Ty): Ty {
    if t.Ty? && t.bits < 32 then INT else t
  }

  function Common(a: Ty, b: Ty): Ty {
    var p, q := Promote(a), Promote(b);
    if p.Other? || (q.Ty? && p.bits > q.bits) then p
    else if q.Other? || q.bits > p.bits then q
    else Ty(p.signed && q.signed, p.bits)
  }

  predicate YieldsTruth(op: string) {
    op in ["<", ">", "<=", ">=", "==", "!=", "&&", "||"]
  }

  // Operators whose operand is not converted.
  predicate SeesOwnType(op: string) {
    op in ["sizeof", "&"]
  }

  // The type an operand is converted to.
  function OperandType(op: string, t: Ty): Ty {
    if SeesOwnType(op) then t else Promote(t)
  }

  function UnaryType(lang: Language, op: string, t: Ty): Ty {
    if op == "!" then INT
    else if t.Other? || SeesOwnType(op) then lang.unTy(op, t)
    else Promote(t)
  }

  // Operators whose operands are promoted, but not brought to a common type.
  predicate PromotesApart(op: string) {
    op in ["<<", ">>", "&&", "||"]
  }

  // The types the two operands are converted to.
  function OperandTypes(op: string, a: Ty, b: Ty): (Ty, Ty) {
    if a.Other? || b.Other? || PromotesApart(op) then (Promote(a), Promote(b)) else (Common(a, b), Common(a, b))
  }

  // A shift has the type of its promoted left operand.
  function BinaryType(lang: Language, op: string, a: Ty, b: Ty): Ty {
    if op == "," then b
    else if YieldsTruth(op) then INT
    else if a.Other? || b.Other? then lang.binTy(op, Promote(a), Promote(b))
    else OperandTypes(op, a, b).0
  }

  function TypeOf(lang: Language, ps: seq<Parm>, e: Expr): Ty {
    match e
    case Constant(_, _, ty) => ty
    case Variable(_, ty) => ty
    case ParmRef(i, _) => if i < |ps| then lang.canon(ps[i].tyName) else INT
    case Paren(sub) => TypeOf(lang, ps, sub)
    case ImplicitCast(sub) => TypeOf(lang, ps, sub)
    case Cast(tyName, _) => lang.canon(tyName)
    case Unary(op, sub) => UnaryType(lang, op, TypeOf(lang, ps, sub))
    case Binary(l, op, r) => BinaryType(lang, op, TypeOf(lang, ps, l), TypeOf(lang, ps, r))
    case Conditional(_, t, f) => Common(TypeOf(lang, ps, t), TypeOf(lang, ps, f))
    case Subscript(b, i) => SubscriptType(lang, TypeOf(lang, ps, b), TypeOf(lang, ps, i))
    case Member(b, access) => lang.fieldTy(TypeOf(lang, ps, b), access)
  }

  // The variables in scope, and the values of the parameters.
  type Scope = map<string, int>

  function Lookup(scope: Scope, name: string): int {
    if name in scope then scope[name] else 0
  }

  function UnaryValue(lang: Language, op: string, t: Ty, v: int): int {
    var to := OperandType(op, t);
    Convert(UnaryType(lang, op, t), lang.un(to, op, Convert(to, v)))
  }

  function BinaryValue(lang: Language, op: string, s: Ty, t: Ty, v: int, w: int): int {
    var (to, to') := OperandTypes(op, s, t);
    if op == "," then w else Convert(BinaryType(lang, op, s, t), lang.bin(to, to', op, Convert(to, v), Convert(to', w)))
  }

  function ConditionalValue(s: Ty, t: Ty, v: int): int {
    Convert(Common(s, t), v)
  }

  function SubscriptType(lang: Language, s: Ty, t: Ty): Ty {
    lang.elemTy(Promote(s), Promote(t))
  }

  function SubscriptValue(lang: Language, s: Ty, t: Ty, v: int, w: int): int {
    Convert(SubscriptType(lang, s, t), lang.elem(Promote(s), Promote(t), v, w))
  }

  function Eval(lang: Language, ps: seq<Parm>, e: Expr, scope: Scope, parms: seq<int>): int {
    match e
    case Constant(_, v, ty) => Convert(ty, v)
    case Variable(name, ty) => Convert(ty, Lookup(scope, name))
    case ParmRef(i, _) => Convert(TypeOf(lang, ps, e), if i < |parms| then parms[i] else 0)
    case Paren(sub) => Eval(lang, ps, sub, scope, parms)
    case ImplicitCast(sub) => Eval(lang, ps, sub, scope, parms)
    case Cast(_, sub) => Convert(TypeOf(lang, ps, e), Eval(lang, ps, sub, scope, parms))
    case Unary(op, sub) => UnaryValue(lang, op, TypeOf(lang, ps, sub), Eval(lang, ps, sub, scope, parms))
    case Binary(l, op, r) =>
      BinaryValue(lang, op, TypeOf(lang, ps, l), TypeOf(lang, ps, r),
                  Eval(lang, ps, l, scope, parms), Eval(lang, ps, r, scope, parms))
    case Conditional(c, t, f) =>
      ConditionalValue(TypeOf(lang, ps, t), TypeOf(lang, ps, f),
                       if Eval(lang, ps, c, scope, parms) != 0 then Eval(lang, ps, t, scope, parms)
                       else Eval(lang, ps, f, scope, parms))
    case Subscript(b, i) =>
      SubscriptValue(lang, TypeOf(lang, ps, b), TypeOf(lang, ps, i),
                     Eval(lang, ps, b, scope, parms), Eval(lang, ps, i, scope, parms))
    case Member(b, access) =>
      Convert(TypeOf(lang, ps, e), lang.field(TypeOf(lang, ps, b), access, Eval(lang, ps, b, scope, parms)))
  }

  lemma {:induction false} BinaryFits(lang: Language, op: string, s: Ty, t: Ty, v: int, w: int)
    requires Convert(t, w) == w
    ensures Convert(BinaryType(lang, op, s, t), BinaryValue(lang, op, s, t, v, w)) == BinaryValue(lang, op, s, t, v, w)
  {
    var (to, to') := OperandTypes(op, s, t);
    ConvertIdempotent(BinaryType(lang, op, s, t), lang.bin(to, to', op, Convert(to, v), Convert(to', w)));
  }

  // A value lies in the range of its expression's type.
  lemma {:induction false} ValueFitsType(lang: Language, ps: seq<Parm>, e: Expr, scope: Scope, parms: seq<int>)
    ensures Convert(TypeOf(lang, ps, e), Eval(lang, ps, e, scope, parms)) == Eval(lang, ps, e, scope, parms)
  {
    match e
    case Constant(_, v, ty) => ConvertIdempotent(ty, v);
    case Variable(name, ty) => ConvertIdempotent(ty, Lookup(scope, name));
    case ParmRef(i, _) => ConvertIdempotent(TypeOf(lang, ps, e), if i < |parms| then parms[i] else 0);
    case Paren(sub) => ValueFitsType(lang, ps, sub, scope, parms);
    case ImplicitCast(sub) => ValueFitsType(lang, ps, sub, scope, parms);
    case Cast(_, sub) => ConvertIdempotent(TypeOf(lang, ps, e), Eval(lang, ps, sub, scope, parms));
    case Unary(op, sub) =>
      var t := OperandType(op, TypeOf(lang, ps, sub));
      ConvertIdempotent(TypeOf(lang, ps, e), lang.un(t, op, Convert(t, Eval(lang, ps, sub, scope, parms))));
    case Binary(l, op, r) =>
      ValueFitsType(lang, ps, r, scope, parms);
      BinaryFits(lang, op, TypeOf(lang, ps, l), TypeOf(lang, ps, r), Eval(lang, ps, l, scope, parms), Eval(lang, ps, r, scope, parms));
    case Conditional(c, t, f) =>
      var v := if Eval(lang, ps, c, scope, parms) != 0 then Eval(lang, ps, t, scope, parms) else Eval(lang, ps, f, scope, parms);
      ConvertIdempotent(TypeOf(lang, ps, e), v);
    case Subscript(b, i) =>
      var s, t := Promote(TypeOf(lang, ps, b)), Promote(TypeOf(lang, ps, i));
      ConvertIdempotent(TypeOf(lang, ps, e), lang.elem(s, t, Eval(lang, ps, b, scope, parms), Eval(lang, ps, i, scope, parms)));
    case Member(b, access) =>
      ConvertIdempotent(TypeOf(lang, ps, e), lang.field(TypeOf(lang, ps, b), access, Eval(lang, ps, b, scope, parms)));
  }

  // ----- Substitution -----

  predicate IsComma(e: Expr) {
    e.Binary? && e.op == ","
  }

  // IgnoreParenImpCasts
  function Stripped(e: Expr): Expr {
    match e
    case Paren(sub) => Stripped(sub)
    case ImplicitCast(sub) => Stripped(sub)
    case _ => e
  }

  // getNewParmRefStr, as a tree. The argument's text is put in parentheses, once more when it
  // is a comma expression.
  function NewParmRef(lang: Language, p: Parm, arg: Expr): Expr {
    var a := Stripped(arg);
    var inner := Paren(if IsComma(a) then Paren(a) else a);
    if lang.canon(p.tyName) != TypeOf(lang, [], a) then Cast(p.tyName, inner) else inner
  }

  // What takes the place of each parameter.
  function NewParmRefs(lang: Language, ps: seq<Parm>, args: seq<Expr>): (news: seq<Expr>)
    ensures |news| == if |ps| <= |args| then |ps| else |args|
    ensures forall i :: 0 <= i < |news| ==> news[i] == NewParmRef(lang, ps[i], args[i])
  {
    seq(if |ps| <= |args| then |ps| else |args|, i requires 0 <= i < |ps| && i < |args| => NewParmRef(lang, ps[i], args[i]))
  }

  // Every parameter the expression uses has an argument (hasUnmatchedParmArg is false).
  predicate Matched(e: Expr, n: nat) {
    match e
    case Constant(_, _, _) => true
    case Variable(_, _) => true
    case ParmRef(i, _) => i < n
    case Paren(sub) => Matched(sub, n)
    case ImplicitCast(sub) => Matched(sub, n)
    case Cast(_, sub) => Matched(sub, n)
    case Unary(_, sub) => Matched(sub, n)
    case Binary(l, _, r) => Matched(l, n) && Matched(r, n)
    case Conditional(c, t, f) => Matched(c, n) && Matched(t, n) && Matched(f, n)
    case Subscript(b, i) => Matched(b, n) && Matched(i, n)
    case Member(b, _) => Matched(b, n)
  }

  function Subst(e: Expr, news: seq<Expr>): Expr {
    match e
    case Constant(_, _, _) => e
    case Variable(_, _) => e
    case ParmRef(i, _) => if i < |news| then news[i] else e
    case Paren(sub) => Paren(Subst(sub, news))
    case ImplicitCast(sub) => ImplicitCast(Subst(sub, news))
    case Cast(ty, sub) => Cast(ty, Subst(sub, news))
    case Unary(op, sub) => Unary(op, Subst(sub, news))
    case Binary(l, op, r) => Binary(Subst(l, news), op, Subst(r, news))
    case Conditional(c, t, f) => Conditional(Subst(c, news), Subst(t, news), Subst(f, news))
    case Subscript(b, i) => Subscript(Subst(b, news), Subst(i, news))
    case Member(b, access) => Member(Subst(b, news), access)
  }

  lemma {:induction false} StrippedSame(lang: Language, e: Expr, scope: Scope)
    ensures TypeOf(lang, [], Stripped(e)) == TypeOf(lang, [], e)
    ensures Eval(lang, [], Stripped(e), scope, []) == Eval(lang, [], e, scope, [])
  {
    match e
    case Paren(sub) => StrippedSame(lang, sub, scope);
    case ImplicitCast(sub) => StrippedSame(lang, sub, scope);
    case _ =>
  }

  // What is stripped are the parentheses and implicit casts on the outside, all of them, and nothing else.
  lemma {:induction false} StrippedIs(e: Expr)
    ensures !(Stripped(e).Paren? || Stripped(e).ImplicitCast?)
    ensures Stripped(Paren(e)) == Stripped(e) == Stripped(ImplicitCast(e))
    ensures !(e.Paren? || e.ImplicitCast?) ==> Stripped(e) == e
  {
    match e
    case Paren(sub) => StrippedIs(sub);
    case ImplicitCast(sub) => StrippedIs(sub);
    case _ =>
  }

  // There is a cast exactly when the canonical types differ, and it is one to the type as it is written; what
  // it is applied to are parentheses around the argument.
  lemma {:induction false} NewParmRefCastIff(lang: Language, p: Parm, arg: Expr)
    ensures NewParmRef(lang, p, arg).Cast? <==> lang.canon(p.tyName) != TypeOf(lang, [], arg)
    ensures NewParmRef(lang, p, arg).Cast? ==> NewParmRef(lang, p, arg).tyName == p.tyName && NewParmRef(lang, p, arg).sub.Paren?
    ensures !NewParmRef(lang, p, arg).Cast? ==> NewParmRef(lang, p, arg).Paren?
  {
    StrippedSame(lang, arg, map[]);
  }

  // What replaces a parameter has the parameter's type, and the value of the argument converted to it.
  lemma {:induction false} NewParmRefMeans(lang: Language, p: Parm, arg: Expr, scope: Scope)
    ensures TypeOf(lang, [], NewParmRef(lang, p, arg)) == lang.canon(p.tyName)
    ensures Eval(lang, [], NewParmRef(lang, p, arg), scope, []) ==
            Convert(lang.canon(p.tyName), Eval(lang, [], arg, scope, []))
  {
    StrippedSame(lang, arg, scope);
    ValueFitsType(lang, [], arg, scope, []);
    var a := Stripped(arg);
    var inner := Paren(if IsComma(a) then Paren(a) else a);
    ParenMeans(lang, a, scope);
    ParenMeans(lang, Paren(a), scope);
    assert TypeOf(lang, [], inner) == TypeOf(lang, [], a) && Eval(lang, [], inner, scope, []) == Eval(lang, [], a, scope, []);
    assert NewParmRef(lang, p, arg) == if lang.canon(p.tyName) != TypeOf(lang, [], a) then Cast(p.tyName, inner) else inner;
  }

  lemma {:induction false} ParenMeans(lang: Language, e: Expr, scope: Scope)
    ensures TypeOf(lang, [], Paren(e)) == TypeOf(lang, [], e) && Eval(lang, [], Paren(e), scope, []) == Eval(lang, [], e, scope, [])
  {
  }

  // The values the parameters get in a call.
  function Bound(lang: Language, ps: seq<Parm>, args: seq<Expr>, caller: Scope): (vs: seq<int>)
    ensures |vs| == if |ps| <= |args| then |ps| else |args|
    ensures forall i :: 0 <= i < |vs| ==> vs[i] == Convert(lang.canon(ps[i].tyName), Eval(lang, [], args[i], caller, []))
  {
    seq(if |ps| <= |args| then |ps| else |args|,
        i requires 0 <= i < |ps| && i < |args| => Convert(lang.canon(ps[i].tyName), Eval(lang, [], args[i], caller, [])))
  }

  // An inlined expression has the type of the expression and the value that it has around the call.
  ghost predicate MeansSame(lang: Language, ps: seq<Parm>, args: seq<Expr>, e: Expr, caller: Scope) {
    && TypeOf(lang, [], Subst(e, NewParmRefs(lang, ps, args))) == TypeOf(lang, ps, e)
    && Eval(lang, [], Subst(e, NewParmRefs(lang, ps, args)), caller, []) ==
       Eval(lang, ps, e, caller, Bound(lang, ps, args, caller))
  }

  lemma {:induction false} BinaryMeans(lang: Language, ps: seq<Parm>, args: seq<Expr>, l: Expr, op: string, r: Expr, caller: Scope)
    requires MeansSame(lang, ps, args, l, caller) && MeansSame(lang, ps, args, r, caller)
    ensures MeansSame(lang, ps, args, Binary(l, op, r), caller)
  {
    var news := NewParmRefs(lang, ps, args);
    assert Subst(Binary(l, op, r), news) == Binary(Subst(l, news), op, Subst(r, news));
  }

  lemma {:induction false} ConditionalMeans(lang: Language, ps: seq<Parm>, args: seq<Expr>, c: Expr, t: Expr, f: Expr, caller: Scope)
    requires MeansSame(lang, ps, args, c, caller)
    requires MeansSame(lang, ps, args, t, caller) && MeansSame(lang, ps, args, f, caller)
    ensures MeansSame(lang, ps, args, Conditional(c, t, f), caller)
  {
  }

  lemma {:induction false} SubscriptMeans(lang: Language, ps: seq<Parm>, args: seq<Expr>, b: Expr, i: Expr, caller: Scope)
    requires MeansSame(lang, ps, args, b, caller) && MeansSame(lang, ps, args, i, caller)
    ensures MeansSame(lang, ps, args, Subscript(b, i), caller)
  {
  }

  // The substitution lemma: the inlined expression has the type and the value that the return
  // expression has around the call, with each parameter bound to its converted argument.
  lemma {:induction false} InlinedMeans(lang: Language, ps: seq<Parm>, args: seq<Expr>, e: Expr, caller: Scope)
    requires Matched(e, if |ps| <= |args| then |ps| else |args|)
    ensures TypeOf(lang, [], Subst(e, NewParmRefs(lang, ps, args))) == TypeOf(lang, ps, e)
    ensures Eval(lang, [], Subst(e, NewParmRefs(lang, ps, args)), caller, []) ==
            Eval(lang, ps, e, caller, Bound(lang, ps, args, caller))
    decreases e
  {
    match e
    case Constant(_, _, _) =>
    case Variable(_, _) =>
    case ParmRef(i, _) =>
      NewParmRefMeans(lang, ps[i], args[i], caller);
      ConvertIdempotent(lang.canon(ps[i].tyName), Eval(lang, [], args[i], caller, []));
    case Paren(sub) => InlinedMeans(lang, ps, args, sub, caller);
    case ImplicitCast(sub) => InlinedMeans(lang, ps, args, sub, caller);
    case Cast(_, sub) => InlinedMeans(lang, ps, args, sub, caller);
    case Unary(_, sub) => InlinedMeans(lang, ps, args, sub, caller);
    case Binary(l, _, r) =>
      InlinedMeans(lang, ps, args, l, caller);
      InlinedMeans(lang, ps, args, r, caller);
      BinaryMeans(lang, ps, args, l, e.op, r, caller);
    case Conditional(c, t, f) =>
      InlinedMeans(lang, ps, args, c, caller);
      InlinedMeans(lang, ps, args, t, caller);
      InlinedMeans(lang, ps, args, f, caller);
      ConditionalMeans(lang, ps, args, c, t, f, caller);
    case Subscript(b, i) =>
      InlinedMeans(lang, ps, args, b, caller);
      InlinedMeans(lang, ps, args, i, caller);
      SubscriptMeans(lang, ps, args, b, i, caller);
    case Member(b, _) => InlinedMeans(lang, ps, args, b, caller);
  }

  // A call of a function that returns the value of e.
  function CallValue(lang: Language, ps: seq<Parm>, retTy: Ty, e: Expr, args: seq<Expr>, globals: Scope, caller: Scope): int {
    Convert(retTy, Eval(lang, ps, e, globals, Bound(lang, ps, args, caller)))
  }

  // ----- Names -----

  // The names of the variables an expression mentions.
  function Names(e: Expr): set<string> {
    match e
    case Constant(_, _, _) => {}
    case Variable(name, _) => {name}
    case ParmRef(_, _) => {}
    case Paren(sub) => Names(sub)
    case ImplicitCast(sub) => Names(sub)
    case Cast(_, sub) => Names(sub)
    case Unary(_, sub) => Names(sub)
    case Binary(l, _, r) => Names(l) + Names(r)
    case Conditional(c, t, f) => Names(c) + Names(t) + Names(f)
    case Subscript(b, i) => Names(b) + Names(i)
    case Member(b, _) => Names(b)
  }

  // The variable a name stands for where the given ones are declared locally.
  function Declared(name: string, locals: set<string>): string {
    if name in locals then "local " + name else "global " + name
  }

  // An expression with its names resolved.
  function Resolved(e: Expr, locals: set<string>): Expr {
    match e
    case Constant(_, _, _) => e
    case Variable(name, ty) => Variable(Declared(name, locals), ty)
    case ParmRef(_, _) => e
    case Paren(sub) => Paren(Resolved(sub, locals))
    case ImplicitCast(sub) => ImplicitCast(Resolved(sub, locals))
    case Cast(ty, sub) => Cast(ty, Resolved(sub, locals))
    case Unary(op, sub) => Unary(op, Resolved(sub, locals))
    case Binary(l, op, r) => Binary(Resolved(l, locals), op, Resolved(r, locals))
    case Conditional(c, t, f) => Conditional(Resolved(c, locals), Resolved(t, locals), Resolved(f, locals))
    case Subscript(b, i) => Subscript(Resolved(b, locals), Resolved(i, locals))
    case Member(b, access) => Member(Resolved(b, locals), access)
  }

  function ResolvedAll(es: seq<Expr>, locals: set<string>): (rs: seq<Expr>)
    ensures |rs| == |es| && forall i :: 0 <= i < |es| ==> rs[i] == Resolved(es[i], locals)
  {
    seq(|es|, i requires 0 <= i < |es| => Resolved(es[i], locals))
  }

  lemma {:induction false} ResolvedType(lang: Language, ps: seq<Parm>, e: Expr, locals: set<string>)
    ensures TypeOf(lang, ps, Resolved(e, locals)) == TypeOf(lang, ps, e)
  {
    match e
    case Constant(_, _, _) =>
    case Variable(_, _) =>
    case ParmRef(_, _) =>
    case Paren(sub) => ResolvedType(lang, ps, sub, locals);
    case ImplicitCast(sub) => ResolvedType(lang, ps, sub, locals);
    case Cast(_, _) =>
    case Unary(_, sub) => ResolvedType(lang, ps, sub, locals);
    case Binary(l, _, r) =>
      ResolvedType(lang, ps, l, locals);
      ResolvedType(lang, ps, r, locals);
    case Conditional(_, t, f) =>
      ResolvedType(lang, ps, t, locals);
      ResolvedType(lang, ps, f, locals);
    case Subscript(b, i) =>
      ResolvedType(lang, ps, b, locals);
      ResolvedType(lang, ps, i, locals);
    case Member(b, _) => ResolvedType(lang, ps, b, locals);
  }

  lemma {:induction false} StrippedResolved(e: Expr, locals: set<string>)
    ensures Stripped(Resolved(e, locals)) == Resolved(Stripped(e), locals)
  {
    match e
    case Paren(sub) => StrippedResolved(sub, locals);
    case ImplicitCast(sub) => StrippedResolved(sub, locals);
    case _ =>
  }

  // An argument keeps its names wherever the callee mentions the parameter.
  lemma {:induction false} ArgumentResolved(lang: Language, p: Parm, arg: Expr, locals: set<string>)
    ensures NewParmRef(lang, p, Resolved(arg, locals)) == Resolved(NewParmRef(lang, p, arg), locals)
  {
    var a := Stripped(arg);
    StrippedResolved(arg, locals);
    ResolvedType(lang, [], a, locals);
    assert IsComma(Resolved(a, locals)) == IsComma(a);
    assert Resolved(Paren(a), locals) == Paren(Resolved(a, locals));
    assert Resolved(Paren(Paren(a)), locals) == Paren(Resolved(Paren(a), locals));
  }

  lemma {:induction false} ArgumentsResolved(lang: Language, ps: seq<Parm>, args: seq<Expr>, locals: set<string>)
    ensures NewParmRefs(lang, ps, ResolvedAll(args, locals)) == ResolvedAll(NewParmRefs(lang, ps, args), locals)
  {
    var news := NewParmRefs(lang, ps, args);
    forall i | 0 <= i < |news|
      ensures NewParmRef(lang, ps[i], Resolved(args[i], locals)) == Resolved(news[i], locals)
    {
      ArgumentResolved(lang, ps[i], args[i], locals);
    }
  }

  // What every name of the inlined expression is to stand for: those of the return expression for
  // what they stand for in the callee, those of the arguments for what they stand for around the call.
  predicate KeepsNames(e: Expr, news: seq<Expr>, locals: set<string>) {
    Resolved(Subst(e, news), locals) == Subst(Resolved(e, {}), ResolvedAll(news, locals))
  }

  lemma {:induction false} KeepsNamesIff(e: Expr, news: seq<Expr>, locals: set<string>)
    ensures KeepsNames(e, news, locals) <==> Names(e) !! locals
  {
    match e
    case Constant(_, _, _) =>
    case Variable(name, _) =>
      assert ("local " + name)[0] != ("global " + name)[0];
      assert name in locals <==> !(Names(e) !! locals);
    case ParmRef(_, _) =>
    case Paren(sub) => KeepsNamesIff(sub, news, locals);
    case ImplicitCast(sub) => KeepsNamesIff(sub, news, locals);
    case Cast(_, sub) => KeepsNamesIff(sub, news, locals);
    case Unary(_, sub) => KeepsNamesIff(sub, news, locals);
    case Binary(l, _, r) =>
      KeepsNamesIff(l, news, locals);
      KeepsNamesIff(r, news, locals);
    case Conditional(c, t, f) =>
      KeepsNamesIff(c, news, locals);
      KeepsNamesIff(t, news, locals);
      KeepsNamesIff(f, news, locals);
    case Subscript(b, i) =>
      KeepsNamesIff(b, news, locals);
      KeepsNamesIff(i, news, locals);
    case Member(b, _) => KeepsNamesIff(b, news, locals);
  }

  // Inlining and resolution of names commute exactly when no name of the return expression
  // is declared locally around the call.
  lemma {:induction false} InlinedResolvesIff(lang: Language, ps: seq<Parm>, args: seq<Expr>, e: Expr, locals: set<string>)
    ensures Resolved(Subst(e, NewParmRefs(lang, ps, args)), locals) ==
            Subst(Resolved(e, {}), NewParmRefs(lang, ps, ResolvedAll(args, locals)))
            <==> Names(e) !! locals
  {
    ArgumentsResolved(lang, ps, args, locals);
    KeepsNamesIff(e, NewParmRefs(lang, ps, args), locals);
  }

  // The names of an expression have the same values in the callee and around the call.
  predicate NothingHidden(e: Expr, globals: Scope, caller: Scope) {
    forall x :: x in Names(e) ==> Lookup(globals, x) == Lookup(caller, x)
  }

  // So it is when the variables in scope around the call are the globals and locals with other names.
  lemma {:induction false} OtherNames(e: Expr, globals: Scope, locals: Scope)
    requires Names(e) !! locals.Keys
    ensures NothingHidden(e, globals, globals + locals)
  {
  }

  lemma {:induction false} HiddenSame(lang: Language, ps: seq<Parm>, e: Expr, globals: Scope, caller: Scope, parms: seq<int>)
    requires NothingHidden(e, globals, caller)
    ensures Eval(lang, ps, e, globals, parms) == Eval(lang, ps, e, caller, parms)
  {
    match e
    case Constant(_, _, _) =>
    case Variable(name, _) => assert name in Names(e);
    case ParmRef(_, _) =>
    case Paren(sub) => HiddenSame(lang, ps, sub, globals, caller, parms);
    case ImplicitCast(sub) => HiddenSame(lang, ps, sub, globals, caller, parms);
    case Cast(_, sub) => HiddenSame(lang, ps, sub, globals, caller, parms);
    case Unary(_, sub) => HiddenSame(lang, ps, sub, globals, caller, parms);
    case Binary(l, _, r) =>
      HiddenSame(lang, ps, l, globals, caller, parms);
      HiddenSame(lang, ps, r, globals, caller, parms);
    case Conditional(c, t, f) =>
      HiddenSame(lang, ps, c, globals, caller, parms);
      HiddenSame(lang, ps, t, globals, caller, parms);
      HiddenSame(lang, ps, f, globals, caller, parms);
    case Subscript(b, i) =>
      HiddenSame(lang, ps, b, globals, caller, parms);
      HiddenSame(lang, ps, i, globals, caller, parms);
    case Member(b, _) => HiddenSame(lang, ps, b, globals, caller, parms);
  }

  // ----- When the return type matters -----

  // The least value of a type, and the first one beyond its largest.
  function Low(t: Ty): int
    requires t.Ty? && t.bits >= 1
  {
    if t.signed then -(Pow2(t.bits - 1) as int) else 0
  }

  function High(t: Ty): int
    requires t.Ty? && t.bits >= 1
  {
    if t.signed then Pow2(t.bits - 1) else 2 * Pow2(t.bits - 1)
  }

  lemma {:induction false} ConvertInRange(t: Ty, v: int)
    requires t.Ty? && t.bits >= 1
    ensures Low(t) <= Convert(t, v) < High(t)
    ensures Convert(t, v) == v <==> Low(t) <= v < High(t)
  {
    var h := Pow2(t.bits - 1);
    var m := Pow2(t.bits);
    assert m == 2 * h;
    if 0 <= v < m {
      ModOfReduced(v, m);
    } else if -m <= v < 0 {
      ModOfReduced(v + m, m);
      assert v == (v + m) - m;
    }
  }

  // The return type holds every value of the other type.
  predicate Fits(ty: Ty, ret: Ty) {
    if ret.Other? then true
    else if ty.Other? then false
    else if ty.signed == ret.signed then ty.bits <= ret.bits else ret.signed && ty.bits < ret.bits
  }

  lemma {:induction false} Pow2Rises(a: nat, b: nat)
    requires a <= b
    ensures Pow2(a) <= Pow2(b) && (a < b ==> 2 * Pow2(a) <= Pow2(b))
    decreases b - a
  {
    if a < b {
      Pow2Rises(a + 1, b);
    }
  }

  lemma {:induction false} FitsIffRange(ty: Ty, ret: Ty)
    requires ty.Ty? && ret.Ty? && ty.bits >= 1 && ret.bits >= 1
    ensures Fits(ty, ret) <==> Low(ret) <= Low(ty) && High(ty) <= High(ret)
  {
    var a, b := ty.bits - 1, ret.bits - 1;
    if a <= b {
      Pow2Rises(a, b);
    } else {
      Pow2Rises(b, a);
    }
  }

  // Not a type of no bits.
  predicate IsProper(t: Ty) {
    t.Ty? ==> t.bits >= 1
  }

  // A value is one of the type's.
  predicate Holds(t: Ty, v: int)
    requires IsProper(t)
  {
    t.Other? || Low(t) <= v < High(t)
  }

  lemma {:induction false} HeldIffKept(t: Ty, v: int)
    requires IsProper(t)
    ensures Convert(t, v) == v <==> Holds(t, v)
    ensures Holds(t, Convert(t, v))
  {
    if t.Ty? {
      ConvertInRange(t, v);
    }
  }

  lemma {:induction false} FittingHeld(ty: Ty, ret: Ty, v: int)
    requires IsProper(ty) && IsProper(ret) && Fits(ty, ret) && Holds(ty, v)
    ensures Holds(ret, v)
  {
    if ret.Ty? {
      FitsIffRange(ty, ret);
    }
  }

  // The inlined expression has the value of the call exactly when the value is one of the return type,
  // in particular when that type holds every value of the expression's type; but for hidden names.
  lemma {:induction false} InlinedIsCallIff(lang: Language, ps: seq<Parm>, retTy: Ty, args: seq<Expr>, e: Expr, globals: Scope, caller: Scope)
    requires Matched(e, if |ps| <= |args| then |ps| else |args|)
    requires IsProper(retTy)
    ensures NothingHidden(e, globals, caller) ==>
      var inlined := Eval(lang, [], Subst(e, NewParmRefs(lang, ps, args)), caller, []);
      inlined == CallValue(lang, ps, retTy, e, args, globals, caller) <==> Holds(retTy, inlined)
    ensures NothingHidden(e, globals, caller) && IsProper(TypeOf(lang, ps, e)) && Fits(TypeOf(lang, ps, e), retTy) ==>
      Eval(lang, [], Subst(e, NewParmRefs(lang, ps, args)), caller, []) == CallValue(lang, ps, retTy, e, args, globals, caller)
  {
    if NothingHidden(e, globals, caller) {
      InlinedMeans(lang, ps, args, e, caller);
      var ty, vs := TypeOf(lang, ps, e), Bound(lang, ps, args, caller);
      HiddenSame(lang, ps, e, globals, caller, vs);
      var inlined := Eval(lang, ps, e, caller, vs);
      HeldIffKept(retTy, inlined);
      if IsProper(ty) && Fits(ty, retTy) {
        ValueFitsType(lang, ps, e, caller, vs);
        HeldIffKept(ty, inlined);
        FittingHeld(ty, retTy, inlined);
      }
    }
  }

  // Operators that bring their operands to a common type, which is that of the result.
  predicate IsPlain(op: string) {
    op != "," && !YieldsTruth(op) && !PromotesApart(op)
  }

  lemma {:induction false} PlainOps()
    ensures IsPlain("+") && IsPlain("*")
  {
    assert "+"[0] == '+' && "*"[0] == '*';
  }

  lemma {:induction false} ArithmeticValue(lang: Language, ps: seq<Parm>, x: Expr, op: string, y: Expr, scope: Scope, parms: seq<int>)
    requires IsPlain(op) && TypeOf(lang, ps, x) == TypeOf(lang, ps, y) && Promote(TypeOf(lang, ps, x)) == TypeOf(lang, ps, x)
    requires TypeOf(lang, ps, x).Ty?
    ensures
      var t := TypeOf(lang, ps, x);
      var v, w := Convert(t, Eval(lang, ps, x, scope, parms)), Convert(t, Eval(lang, ps, y, scope, parms));
      Eval(lang, ps, Binary(x, op, y), scope, parms) == Convert(t, lang.bin(t, t, op, v, w))
  {
    var t := TypeOf(lang, ps, x);
    assert Common(t, t) == t && OperandTypes(op, t, t) == (t, t) && BinaryType(lang, op, t, t) == t;
  }

  // int g = 1; int f(int x) { return x + g; } int h(void) { int g = 5; return f(1); }
  const GLOBAL_G := Variable("g", INT)
  const SUM := Binary(RETURN_X, "+", GLOBAL_G)
  const PARM_X := Parm("x", "int")
  const RETURN_X := ParmRef(0, "x")
  const ONE := Constant("1", 1, INT)

  lemma {:induction false} SumValue(lang: Language, scope: Scope, g: nat)
    requires lang.canon("int") == INT && scope == map["g" := g] && g < 8
    ensures Eval(lang, [PARM_X], SUM, scope, [1]) == Convert(INT, lang.bin(INT, INT, "+", 1, g))
  {
    SmallValue(1);
    SmallValue(g);
    PlainOps();
    assert TypeOf(lang, [PARM_X], RETURN_X) == INT && Eval(lang, [PARM_X], RETURN_X, scope, [1]) == 1;
    assert Eval(lang, [PARM_X], GLOBAL_G, scope, [1]) == g;
    ArithmeticValue(lang, [PARM_X], RETURN_X, "+", GLOBAL_G, scope, [1]);
  }

  lemma {:induction false} SmallValue(v: nat)
    requires v < 8
    ensures Convert(INT, v) == v
  {
    assert Pow2(3) == 2 * Pow2(2) == 8;
    InRange(INT, v, 3);
  }

  // The call yields 2, what takes its place 6.
  lemma {:induction false} LocalHidesGlobal(lang: Language)
    requires lang.canon("int") == INT && lang.bin(INT, INT, "+", 1, 1) == 2 && lang.bin(INT, INT, "+", 1, 5) == 6
    ensures Matched(SUM, 1) && Names(SUM) == {"g"}
    ensures CallValue(lang, [PARM_X], INT, SUM, [ONE], map["g" := 1], map["g" := 5]) == 2
    ensures Eval(lang, [], Subst(SUM, NewParmRefs(lang, [PARM_X], [ONE])), map["g" := 5], []) == 6
  {
    var globals: Scope, caller: Scope := map["g" := 1], map["g" := 5];
    SmallValue(1);
    SmallValue(2);
    SmallValue(6);
    assert Eval(lang, [], ONE, caller, []) == 1;
    assert Bound(lang, [PARM_X], [ONE], caller) == [1];
    SumValue(lang, globals, 1);
    SumValue(lang, caller, 5);
    assert Matched(RETURN_X, 1) && Matched(GLOBAL_G, 1);
    InlinedMeans(lang, [PARM_X], [ONE], SUM, caller);
  }

  // A value of the type that the smaller one does not hold.
  lemma {:induction false} NotHeld(ty: Ty, ret: Ty) returns (v: int)
    requires IsProper(ty) && IsProper(ret) && !Fits(ty, ret)
    ensures Convert(ty, v) == v && !Holds(ret, v)
  {
    if ty.Other? {
      v := High(ret);
    } else {
      FitsIffRange(ty, ret);
      v := if Low(ty) < Low(ret) then Low(ty) else High(ty) - 1;
      ConvertInRange(ty, Low(ty));
      ConvertInRange(ty, High(ty) - 1);
    }
  }

  // The same types, whatever is computed.
  ghost predicate SameTypes(a: Language, b: Language) {
    a.canon == b.canon && a.binTy == b.binTy && a.unTy == b.unTy && a.elemTy == b.elemTy && a.fieldTy == b.fieldTy
  }

  // Expressions whose value is what some operation computes, or a parameter.
  predicate IsComputed(e: Expr) {
    match e
    case Paren(sub) => IsComputed(sub)
    case ImplicitCast(sub) => IsComputed(sub)
    case Binary(_, op, r) => op != "," || IsComputed(r)
    case ParmRef(_, _) => true
    case Unary(_, _) => true
    case Subscript(_, _) => true
    case Member(_, _) => true
    case _ => false
  }

  // A call that passes types and values through.
  ghost predicate CallKept(lang: Language, ps: seq<Parm>, retTy: Ty, e: Expr, args: seq<Expr>, globals: Scope, caller: Scope) {
    |ps| <= |args| && NothingHidden(e, globals, caller) ==>
      Eval(lang, [], Subst(e, NewParmRefs(lang, ps, args)), caller, []) == CallValue(lang, ps, retTy, e, args, globals, caller)
  }

  // The language in which every operation yields v.
  ghost function Yielding(lang: Language, v: int): (r: Language)
    ensures SameTypes(lang, r)
  {
    lang.(bin := (s, t, op, x, y) => v, un := (t, op, x) => v, elem := (t, u, x, y) => v, field := (t, access, x) => v)
  }

  lemma {:induction false} SameTypeOf(a: Language, b: Language, ps: seq<Parm>, e: Expr)
    requires SameTypes(a, b)
    ensures TypeOf(a, ps, e) == TypeOf(b, ps, e)
  {
    match e
    case Constant(_, _, _) =>
    case Variable(_, _) =>
    case ParmRef(_, _) =>
    case Paren(sub) => SameTypeOf(a, b, ps, sub);
    case ImplicitCast(sub) => SameTypeOf(a, b, ps, sub);
    case Cast(_, _) =>
    case Unary(_, sub) => SameTypeOf(a, b, ps, sub);
    case Binary(l, _, r) =>
      SameTypeOf(a, b, ps, l);
      SameTypeOf(a, b, ps, r);
    case Conditional(_, t, f) =>
      SameTypeOf(a, b, ps, t);
      SameTypeOf(a, b, ps, f);
    case Subscript(base, i) =>
      SameTypeOf(a, b, ps, base);
      SameTypeOf(a, b, ps, i);
    case Member(base, _) => SameTypeOf(a, b, ps, base);
  }

  lemma {:induction false} YieldedValue(lang: Language, ps: seq<Parm>, e: Expr, v: int, parms: seq<int>)
    requires IsComputed(e) && Matched(e, |ps|)
    requires |parms| == |ps| && forall i :: 0 <= i < |ps| ==> parms[i] == Convert(lang.canon(ps[i].tyName), v)
    ensures Eval(Yielding(lang, v), ps, e, map[], parms) == Convert(TypeOf(Yielding(lang, v), ps, e), v)
  {
    match e
    case Paren(sub) => YieldedValue(lang, ps, sub, v, parms);
    case ImplicitCast(sub) => YieldedValue(lang, ps, sub, v, parms);
    case Binary(l, op, r) =>
      if op == "," {
        YieldedValue(lang, ps, r, v, parms);
      }
    case ParmRef(i, _) => ConvertIdempotent(lang.canon(ps[i].tyName), v);
    case _ =>
  }

  // Constants for the parameters of a call.
  function ConstantArgs(lang: Language, ps: seq<Parm>, v: int): (args: seq<Expr>)
    ensures |args| == |ps|
    ensures forall i :: 0 <= i < |ps| ==> args[i] == Constant("c", v, lang.canon(ps[i].tyName))
  {
    seq(|ps|, i requires 0 <= i < |ps| => Constant("c", v, lang.canon(ps[i].tyName)))
  }

  // A value that the return type does not hold comes out of some operation.
  lemma {:induction false} CallLost(lang: Language, ps: seq<Parm>, retTy: Ty, e: Expr) returns (v: int)
    requires IsProper(retTy) && IsProper(TypeOf(lang, ps, e)) && IsComputed(e) && Matched(e, |ps|)
    requires !Fits(TypeOf(lang, ps, e), retTy)
    ensures !CallKept(Yielding(lang, v), ps, retTy, e, ConstantArgs(lang, ps, v), map[], map[])
  {
    v := NotHeld(TypeOf(lang, ps, e), retTy);
    var l, args := Yielding(lang, v), ConstantArgs(lang, ps, v);
    SameTypeOf(lang, l, ps, e);
    var vs := Bound(l, ps, args, map[]);
    forall i | 0 <= i < |ps|
      ensures vs[i] == Convert(lang.canon(ps[i].tyName), v)
    {
      ConvertIdempotent(lang.canon(ps[i].tyName), v);
    }
    YieldedValue(lang, ps, e, v, vs);
    InlinedMeans(l, ps, args, e, map[]);
    HeldIffKept(retTy, v);
  }

  // The condition on the types is exact: whatever the operations compute, all calls keep their values
  // exactly when the return type holds every value of the expression's type. So for a parameter alone:
  // char f(int x) { return x; } called as f(300) yields 44, but the inlined (300) is 300.
  lemma {:induction false} ReturnTypeMattersIff(lang: Language, ps: seq<Parm>, retTy: Ty, e: Expr)
    requires IsProper(retTy) && IsProper(TypeOf(lang, ps, e)) && IsComputed(e) && Matched(e, |ps|)
    ensures (forall l: Language, args, globals, caller ::
               SameTypes(lang, l) ==> CallKept(l, ps, retTy, e, args, globals, caller))
            <==> Fits(TypeOf(lang, ps, e), retTy)
  {
    if Fits(TypeOf(lang, ps, e), retTy) {
      forall l: Language, args, globals, caller | SameTypes(lang, l)
        ensures CallKept(l, ps, retTy, e, args, globals, caller)
      {
        SameTypeOf(lang, l, ps, e);
        if |ps| <= |args| && NothingHidden(e, globals, caller) {
          InlinedIsCallIff(l, ps, retTy, args, e, globals, caller);
        }
      }
    } else {
      var v := CallLost(lang, ps, retTy, e);
      assert SameTypes(lang, Yielding(lang, v));
    }
  }

  // ----- What stands around the call -----

  // An expression around a call is one with the parameter 0 in the place of the call. Its type is
  // that of the call:
  predicate HasCallType(c: Expr) {
    match c
    case ParmRef(_, _) => true
    case Paren(sub) => HasCallType(sub)
    case ImplicitCast(sub) => HasCallType(sub)
    case Binary(_, op, r) => op == "," && HasCallType(r)
    case _ => false
  }

  // Arithmetic converts its operands; these look at the call's own type instead:
  predicate SeesCallType(c: Expr) {
    match c
    case Constant(_, _, _) => false
    case Variable(_, _) => false
    case ParmRef(_, _) => false
    case Paren(sub) => SeesCallType(sub)
    case ImplicitCast(sub) => SeesCallType(sub)
    case Cast(_, sub) => SeesCallType(sub)
    case Unary(op, sub) => (SeesOwnType(op) && HasCallType(sub)) || SeesCallType(sub)
    case Binary(l, _, r) => SeesCallType(l) || SeesCallType(r)
    case Conditional(b, t, f) => SeesCallType(b) || SeesCallType(t) || SeesCallType(f)
    case Subscript(b, i) => SeesCallType(b) || SeesCallType(i)
    case Member(b, _) => HasCallType(b) || SeesCallType(b)
  }

  predicate IsArithmetic(c: Expr) {
    !HasCallType(c) && !SeesCallType(c)
  }

  // The call as what stands around it sees it.
  function TheCall(retName: string): seq<Parm> {
    [Parm("call", retName)]
  }

  // An expression around a call keeps its value with a tree of a type and a value put for the call; and
  // its type when the types are equal or it converts the call.
  ghost predicate KeptWith(lang: Language, retName: string, c: Expr, put: Expr, scope: Scope, v: int) {
    var ty, ty' := TypeOf(lang, TheCall(retName), c), TypeOf(lang, [], Subst(c, [put]));
    && Eval(lang, [], Subst(c, [put]), scope, []) == Eval(lang, TheCall(retName), c, scope, [v])
    && Promote(ty') == Promote(ty)
    && (!HasCallType(c) || TypeOf(lang, [], put) == lang.canon(retName) ==> ty' == ty)
  }

  predicate MayStandAround(lang: Language, retName: string, c: Expr, put: Expr) {
    Matched(c, 1) && (SeesCallType(c) ==> TypeOf(lang, [], put) == lang.canon(retName))
  }

  lemma {:induction false} ContextKeeps(lang: Language, retName: string, c: Expr, put: Expr, scope: Scope, v: int)
    requires MayStandAround(lang, retName, c, put)
    requires Promote(TypeOf(lang, [], put)) == Promote(lang.canon(retName))
    requires Eval(lang, [], put, scope, []) == v == Convert(lang.canon(retName), v)
    ensures KeptWith(lang, retName, c, put, scope, v)
    decreases c
  {
    match c
    case Constant(_, _, _) =>
    case Variable(_, _) =>
    case ParmRef(_, _) => CallItselfKept(lang, retName, c, put, scope, v);
    case Paren(sub) =>
      ContextKeeps(lang, retName, sub, put, scope, v);
      WrappedKeeps(lang, retName, sub, put, scope, v);
    case ImplicitCast(sub) =>
      ContextKeeps(lang, retName, sub, put, scope, v);
      WrappedKeeps(lang, retName, sub, put, scope, v);
    case Cast(tyName, sub) =>
      ContextKeeps(lang, retName, sub, put, scope, v);
      assert Subst(c, [put]) == Cast(tyName, Subst(sub, [put]));
    case Unary(op, sub) =>
      ContextKeeps(lang, retName, sub, put, scope, v);
      UnaryKeeps(lang, retName, op, sub, put, scope, v);
    case Binary(l, op, r) =>
      ContextKeeps(lang, retName, l, put, scope, v);
      ContextKeeps(lang, retName, r, put, scope, v);
      BinaryKeeps(lang, retName, l, op, r, put, scope, v);
    case Conditional(b, t, f) =>
      ContextKeeps(lang, retName, b, put, scope, v);
      ContextKeeps(lang, retName, t, put, scope, v);
      ContextKeeps(lang, retName, f, put, scope, v);
      ConditionalKeeps(lang, retName, b, t, f, put, scope, v);
    case Subscript(b, i) =>
      ContextKeeps(lang, retName, b, put, scope, v);
      ContextKeeps(lang, retName, i, put, scope, v);
      SubscriptKeeps(lang, retName, b, i, put, scope, v);
    case Member(b, access) =>
      ContextKeeps(lang, retName, b, put, scope, v);
      MemberKeeps(lang, retName, b, access, put, scope, v);
  }

  lemma {:induction false} CallItselfKept(lang: Language, retName: string, c: Expr, put: Expr, scope: Scope, v: int)
    requires c.ParmRef? && Matched(c, 1)
    requires Promote(TypeOf(lang, [], put)) == Promote(lang.canon(retName))
    requires Eval(lang, [], put, scope, []) == v == Convert(lang.canon(retName), v)
    ensures KeptWith(lang, retName, c, put, scope, v)
  {
    assert Subst(c, [put]) == put;
    assert TypeOf(lang, TheCall(retName), c) == lang.canon(retName);
  }

  lemma {:induction false} WrappedKeeps(lang: Language, retName: string, sub: Expr, put: Expr, scope: Scope, v: int)
    requires KeptWith(lang, retName, sub, put, scope, v)
    ensures KeptWith(lang, retName, Paren(sub), put, scope, v) && KeptWith(lang, retName, ImplicitCast(sub), put, scope, v)
  {
    assert Subst(Paren(sub), [put]) == Paren(Subst(sub, [put]));
    assert Subst(ImplicitCast(sub), [put]) == ImplicitCast(Subst(sub, [put]));
  }

  lemma {:induction false} UnarySees(lang: Language, op: string, t: Ty, t': Ty, v: int)
    requires Promote(t) == Promote(t') && (SeesOwnType(op) ==> t == t')
    ensures UnaryType(lang, op, t) == UnaryType(lang, op, t') && UnaryValue(lang, op, t, v) == UnaryValue(lang, op, t', v)
  {
  }

  lemma {:induction false} UnaryKeeps(lang: Language, retName: string, op: string, sub: Expr, put: Expr, scope: Scope, v: int)
    requires KeptWith(lang, retName, sub, put, scope, v) && MayStandAround(lang, retName, Unary(op, sub), put)
    ensures KeptWith(lang, retName, Unary(op, sub), put, scope, v)
  {
    var sub' := Subst(sub, [put]);
    assert SeesOwnType(op) ==> TypeOf(lang, TheCall(retName), sub) == TypeOf(lang, [], sub');
    assert Subst(Unary(op, sub), [put]) == Unary(op, sub');
    UnarySees(lang, op, TypeOf(lang, TheCall(retName), sub), TypeOf(lang, [], sub'), Eval(lang, [], sub', scope, []));
  }

  lemma {:induction false} MemberKeeps(lang: Language, retName: string, b: Expr, access: string, put: Expr, scope: Scope, v: int)
    requires KeptWith(lang, retName, b, put, scope, v) && MayStandAround(lang, retName, Member(b, access), put)
    ensures KeptWith(lang, retName, Member(b, access), put, scope, v)
  {
    assert Subst(Member(b, access), [put]) == Member(Subst(b, [put]), access);
  }

  // What an operator computes depends on the promoted types of its operands only.
  lemma {:induction false} BinarySees(lang: Language, op: string, s: Ty, t: Ty, s': Ty, t': Ty, v: int, w: int)
    requires op != "," && Promote(s) == Promote(s') && Promote(t) == Promote(t')
    ensures BinaryType(lang, op, s, t) == BinaryType(lang, op, s', t')
    ensures BinaryValue(lang, op, s, t, v, w) == BinaryValue(lang, op, s', t', v, w)
  {
    assert s.Other? == s'.Other? && t.Other? == t'.Other?;
    assert OperandTypes(op, s, t) == OperandTypes(op, s', t');
  }

  lemma {:induction false} BinaryKeeps(lang: Language, retName: string, l: Expr, op: string, r: Expr, put: Expr, scope: Scope, v: int)
    requires KeptWith(lang, retName, l, put, scope, v) && KeptWith(lang, retName, r, put, scope, v)
    ensures KeptWith(lang, retName, Binary(l, op, r), put, scope, v)
  {
    var call := TheCall(retName);
    var l', r' := Subst(l, [put]), Subst(r, [put]);
    assert Subst(Binary(l, op, r), [put]) == Binary(l', op, r');
    if op != "," {
      BinarySees(lang, op, TypeOf(lang, call, l), TypeOf(lang, call, r), TypeOf(lang, [], l'), TypeOf(lang, [], r'),
                 Eval(lang, call, l, scope, [v]), Eval(lang, call, r, scope, [v]));
    }
    BinaryMeaning(lang, call, l, op, r, scope, [v]);
    BinaryMeaning(lang, [], l', op, r', scope, []);
  }

  lemma {:induction false} BinaryMeaning(lang: Language, ps: seq<Parm>, l: Expr, op: string, r: Expr, scope: Scope, parms: seq<int>)
    ensures TypeOf(lang, ps, Binary(l, op, r)) == BinaryType(lang, op, TypeOf(lang, ps, l), TypeOf(lang, ps, r))
    ensures Eval(lang, ps, Binary(l, op, r), scope, parms) ==
            BinaryValue(lang, op, TypeOf(lang, ps, l), TypeOf(lang, ps, r),
                        Eval(lang, ps, l, scope, parms), Eval(lang, ps, r, scope, parms))
  {
  }

  lemma {:induction false} CommonSees(s: Ty, t: Ty, s': Ty, t': Ty)
    requires Promote(s) == Promote(s') && Promote(t) == Promote(t')
    ensures Common(s, t) == Common(s', t') && forall v :: ConditionalValue(s, t, v) == ConditionalValue(s', t', v)
  {
  }

  lemma {:induction false} ConditionalKeeps(lang: Language, retName: string, b: Expr, t: Expr, f: Expr, put: Expr, scope: Scope, v: int)
    requires KeptWith(lang, retName, b, put, scope, v)
    requires KeptWith(lang, retName, t, put, scope, v) && KeptWith(lang, retName, f, put, scope, v)
    ensures KeptWith(lang, retName, Conditional(b, t, f), put, scope, v)
  {
    var call := TheCall(retName);
    var b', t', f' := Subst(b, [put]), Subst(t, [put]), Subst(f, [put]);
    assert Subst(Conditional(b, t, f), [put]) == Conditional(b', t', f');
    CommonSees(TypeOf(lang, call, t), TypeOf(lang, call, f), TypeOf(lang, [], t'), TypeOf(lang, [], f'));
    assert TypeOf(lang, call, Conditional(b, t, f)) == TypeOf(lang, [], Conditional(b', t', f'));
  }

  lemma {:induction false} SubscriptKeeps(lang: Language, retName: string, b: Expr, i: Expr, put: Expr, scope: Scope, v: int)
    requires KeptWith(lang, retName, b, put, scope, v) && KeptWith(lang, retName, i, put, scope, v)
    ensures KeptWith(lang, retName, Subscript(b, i), put, scope, v)
  {
  }

  // What stands around a call keeps its type and its value when the call is inlined.
  ghost predicate ContextKept(lang: Language, ps: seq<Parm>, retName: string, e: Expr, c: Expr,
                              args: seq<Expr>, globals: Scope, caller: Scope)
  {
    var put := Paren(Subst(e, NewParmRefs(lang, ps, args)));
    var v := CallValue(lang, ps, lang.canon(retName), e, args, globals, caller);
    |ps| <= |args| && NothingHidden(e, globals, caller) && Matched(c, 1) ==>
      && TypeOf(lang, [], Subst(c, [put])) == TypeOf(lang, TheCall(retName), c)
      && Eval(lang, [], Subst(c, [put]), caller, []) == Eval(lang, TheCall(retName), c, caller, [v])
  }

  lemma {:induction false} InlinedContextKept(lang: Language, ps: seq<Parm>, retName: string, e: Expr, c: Expr,
                           args: seq<Expr>, globals: Scope, caller: Scope)
    requires Matched(e, |ps|) && IsProper(lang.canon(retName)) && IsProper(TypeOf(lang, ps, e))
    requires Fits(TypeOf(lang, ps, e), lang.canon(retName))
    requires TypeOf(lang, ps, e) == lang.canon(retName) || (IsArithmetic(c) && Promote(TypeOf(lang, ps, e)) == Promote(lang.canon(retName)))
    ensures ContextKept(lang, ps, retName, e, c, args, globals, caller)
  {
    if |ps| <= |args| && NothingHidden(e, globals, caller) && Matched(c, 1) {
      var tree := Subst(e, NewParmRefs(lang, ps, args));
      InlinedMeans(lang, ps, args, e, caller);
      InlinedIsCallIff(lang, ps, lang.canon(retName), args, e, globals, caller);
      ConvertIdempotent(lang.canon(retName), Eval(lang, ps, e, globals, Bound(lang, ps, args, caller)));
      ContextKeeps(lang, retName, c, Paren(tree), caller, Eval(lang, [], tree, caller, []));
    }
  }

  // Whatever the operations compute, everything that may stand around a call keeps its type and its value.
  ghost predicate AllContextsKept(lang: Language, ps: seq<Parm>, retName: string, e: Expr) {
    forall l: Language, c, args, globals, caller :: SameTypes(lang, l) ==> ContextKept(l, ps, retName, e, c, args, globals, caller)
  }

  // That is so exactly when the expression has the return type itself.
  lemma {:induction false} AllContextsKeptIff(lang: Language, ps: seq<Parm>, retName: string, e: Expr)
    requires IsProper(lang.canon(retName)) && IsProper(TypeOf(lang, ps, e)) && Matched(e, |ps|)
    ensures AllContextsKept(lang, ps, retName, e) <==> TypeOf(lang, ps, e) == lang.canon(retName)
  {
    if TypeOf(lang, ps, e) == lang.canon(retName) {
      forall l: Language, c, args, globals, caller | SameTypes(lang, l)
        ensures ContextKept(l, ps, retName, e, c, args, globals, caller)
      {
        SameTypeOf(lang, l, ps, e);
        InlinedContextKept(l, ps, retName, e, c, args, globals, caller);
      }
    } else {
      PutForCall(lang, ps, e);
      var c, put := ParmRef(0, "call"), Paren(Subst(e, NewParmRefs(lang, ps, ConstantArgs(lang, ps, 0))));
      assert Subst(c, [put]) == put;
      ContextLost(lang, ps, retName, e, c);
      assert SameTypes(lang, lang);
    }
  }

  // What is put for a call with constants has the expression's type.
  lemma {:induction false} PutForCall(lang: Language, ps: seq<Parm>, e: Expr)
    requires Matched(e, |ps|)
    ensures TypeOf(lang, [], Paren(Subst(e, NewParmRefs(lang, ps, ConstantArgs(lang, ps, 0))))) == TypeOf(lang, ps, e)
  {
    InlinedMeans(lang, ps, ConstantArgs(lang, ps, 0), e, map[]);
  }

  // What gets another type is not kept.
  lemma {:induction false} ContextLost(lang: Language, ps: seq<Parm>, retName: string, e: Expr, c: Expr)
    requires Matched(c, 1)
    requires TypeOf(lang, [], Subst(c, [Paren(Subst(e, NewParmRefs(lang, ps, ConstantArgs(lang, ps, 0))))])) !=
             TypeOf(lang, TheCall(retName), c)
    ensures !ContextKept(lang, ps, retName, e, c, ConstantArgs(lang, ps, 0), map[], map[])
  {
  }

  // Whatever the operations compute, all calls keep their values ...
  ghost predicate AllCallsKept(lang: Language, ps: seq<Parm>, retTy: Ty, e: Expr) {
    forall l: Language, args, globals, caller :: SameTypes(lang, l) ==> CallKept(l, ps, retTy, e, args, globals, caller)
  }

  // ... and all arithmetic around them its types and values.
  ghost predicate AllArithmeticKept(lang: Language, ps: seq<Parm>, retName: string, e: Expr) {
    forall l: Language, c, args, globals, caller ::
      SameTypes(lang, l) && IsArithmetic(c) ==> ContextKept(l, ps, retName, e, c, args, globals, caller)
  }

  // Both hold exactly when the return type holds the values of the expression's type and the two
  // are promoted to the same type.
  lemma {:induction false} ArithmeticKeptIff(lang: Language, ps: seq<Parm>, retName: string, e: Expr)
    requires IsProper(lang.canon(retName)) && IsProper(TypeOf(lang, ps, e)) && IsComputed(e) && Matched(e, |ps|)
    ensures AllCallsKept(lang, ps, lang.canon(retName), e) && AllArithmeticKept(lang, ps, retName, e) <==>
            Fits(TypeOf(lang, ps, e), lang.canon(retName)) && Promote(TypeOf(lang, ps, e)) == Promote(lang.canon(retName))
  {
    var ty, ret := TypeOf(lang, ps, e), lang.canon(retName);
    ReturnTypeMattersIff(lang, ps, ret, e);
    if Fits(ty, ret) {
      if Promote(ty) == Promote(ret) {
        PromotedKept(lang, ps, retName, e);
      } else {
        ConditionalNotKept(lang, ps, retName, e);
      }
    }
  }

  lemma {:induction false} PromotedKept(lang: Language, ps: seq<Parm>, retName: string, e: Expr)
    requires IsProper(lang.canon(retName)) && IsProper(TypeOf(lang, ps, e)) && Matched(e, |ps|)
    requires Fits(TypeOf(lang, ps, e), lang.canon(retName)) && Promote(TypeOf(lang, ps, e)) == Promote(lang.canon(retName))
    ensures AllArithmeticKept(lang, ps, retName, e)
  {
    forall l: Language, c, args, globals, caller | SameTypes(lang, l) && IsArithmetic(c)
      ensures ContextKept(l, ps, retName, e, c, args, globals, caller)
    {
      SameTypeOf(lang, l, ps, e);
      InlinedContextKept(l, ps, retName, e, c, args, globals, caller);
    }
  }

  // 0 ? f() : 0 has the promoted type of the call.
  lemma {:induction false} ConditionalNotKept(lang: Language, ps: seq<Parm>, retName: string, e: Expr)
    requires Matched(e, |ps|) && Promote(TypeOf(lang, ps, e)) != Promote(lang.canon(retName))
    ensures !AllArithmeticKept(lang, ps, retName, e)
  {
    PutForCall(lang, ps, e);
    var put, zero := Paren(Subst(e, NewParmRefs(lang, ps, ConstantArgs(lang, ps, 0)))), Constant("0", 0, INT);
    var c := Conditional(zero, ParmRef(0, "call"), zero);
    PutInConditional(lang, retName, zero, put);
    ContextLost(lang, ps, retName, e, c);
    assert SameTypes(lang, lang);
  }

  lemma {:induction false} PutInConditional(lang: Language, retName: string, zero: Expr, put: Expr)
    requires zero == Constant("0", 0, INT)
    ensures
      var c := Conditional(zero, ParmRef(0, "call"), zero);
      && IsArithmetic(c) && Matched(c, 1)
      && TypeOf(lang, TheCall(retName), c) == Promote(lang.canon(retName))
      && TypeOf(lang, [], Subst(c, [put])) == Promote(TypeOf(lang, [], put))
  {
    CommonWithInt(lang.canon(retName));
    CommonWithInt(TypeOf(lang, [], put));
    assert Subst(Conditional(zero, ParmRef(0, "call"), zero), [put]) == Conditional(zero, put, zero);
  }

  lemma {:induction false} CommonWithInt(t: Ty)
    ensures Common(t, INT) == Promote(t)
  {
  }

  // long f(int x) { return x; } in f(a) * f(a), where a is 65536.
  const LONG := Ty(true, 64)
  const ARG_A := Variable("a", INT)
  const SCOPE_A: Scope := map["a" := 65536]
  const CALL_F := ParmRef(0, "f")
  const PRODUCT := Binary(CALL_F, "*", CALL_F)

  const PUT_FOR_F := Paren(Paren(ARG_A))

  // What is put for the call is 65536, as an int.
  lemma {:induction false} PutForF(lang: Language)
    requires lang.canon("int") == INT
    ensures Paren(Subst(RETURN_X, NewParmRefs(lang, [PARM_X], [ARG_A]))) == PUT_FOR_F
    ensures Eval(lang, [], ARG_A, SCOPE_A, []) == 65536 == Eval(lang, [], PUT_FOR_F, SCOPE_A, [])
    ensures TypeOf(lang, [], PUT_FOR_F) == INT
  {
    LargeValues();
    assert NewParmRef(lang, PARM_X, ARG_A) == Paren(ARG_A);
    assert Lookup(SCOPE_A, "a") == 65536;
  }

  // The call is 65536, as a long.
  lemma {:induction false} CallOfF(lang: Language)
    requires lang.canon("int") == INT && lang.canon("long") == LONG
    ensures Fits(TypeOf(lang, [PARM_X], RETURN_X), LONG)
    ensures CallValue(lang, [PARM_X], LONG, RETURN_X, [ARG_A], SCOPE_A, SCOPE_A) == 65536
  {
    LargeValues();
    PutForF(lang);
    var vs := Bound(lang, [PARM_X], [ARG_A], SCOPE_A);
    assert vs == [65536];
    ParmValue(lang, [PARM_X], RETURN_X, SCOPE_A, vs);
  }

  lemma {:induction false} ProductOfCalls(lang: Language)
    requires lang.canon("long") == LONG && lang.bin(LONG, LONG, "*", 65536, 65536) == 4294967296
    ensures Eval(lang, TheCall("long"), PRODUCT, SCOPE_A, [65536]) == 4294967296
  {
    LargeValues();
    PlainOps();
    ParmValue(lang, TheCall("long"), CALL_F, SCOPE_A, [65536]);
    ArithmeticValue(lang, TheCall("long"), CALL_F, "*", CALL_F, SCOPE_A, [65536]);
  }

  lemma {:induction false} PutInProduct(put: Expr)
    ensures Subst(PRODUCT, [put]) == Binary(put, "*", put)
  {
  }

  lemma {:induction false} ProductOfPut(lang: Language)
    requires lang.canon("int") == INT && lang.bin(INT, INT, "*", 65536, 65536) == 4294967296
    ensures Eval(lang, [], Subst(PRODUCT, [PUT_FOR_F]), SCOPE_A, []) == 0
  {
    LargeValues();
    PlainOps();
    PutForF(lang);
    PutInProduct(PUT_FOR_F);
    ArithmeticValue(lang, [], PUT_FOR_F, "*", PUT_FOR_F, SCOPE_A, []);
  }

  // The product of the calls is a long, that of the parameters put for them an int.
  lemma {:induction false} ProductNarrowed(lang: Language)
    requires lang.canon("int") == INT && lang.canon("long") == LONG
    requires lang.bin(INT, INT, "*", 65536, 65536) == lang.bin(LONG, LONG, "*", 65536, 65536) == 4294967296
    ensures Fits(TypeOf(lang, [PARM_X], RETURN_X), LONG) && IsArithmetic(PRODUCT)
    ensures CallValue(lang, [PARM_X], LONG, RETURN_X, [ARG_A], SCOPE_A, SCOPE_A) == 65536
    ensures Eval(lang, TheCall("long"), PRODUCT, SCOPE_A, [65536]) == 4294967296
    ensures Eval(lang, [], Subst(PRODUCT, [Paren(Subst(RETURN_X, NewParmRefs(lang, [PARM_X], [ARG_A])))]), SCOPE_A, []) == 0
  {
    CallOfF(lang);
    ProductOfCalls(lang);
    PutForF(lang);
    ProductOfPut(lang);
  }

  lemma {:induction false} ParmValue(lang: Language, ps: seq<Parm>, e: Expr, scope: Scope, vs: seq<int>)
    requires e.ParmRef? && e.parm < |ps| && e.parm < |vs|
    ensures TypeOf(lang, ps, e) == lang.canon(ps[e.parm].tyName)
    ensures Eval(lang, ps, e, scope, vs) == Convert(lang.canon(ps[e.parm].tyName), vs[e.parm])
  {
  }

  lemma {:induction false} LargeValues()
    ensures Convert(INT, 65536) == 65536 == Convert(LONG, 65536)
    ensures Convert(INT, 4294967296) == 0 && Convert(LONG, 4294967296) == 4294967296
  {
    Powers();
    InRange(INT, 65536, 17);
    InRange(LONG, 65536, 17);
    InRange(LONG, 4294967296, 33);
    assert 4294967296 % 4294967296 == 0;
  }

  lemma {:induction false} Powers()
    ensures Pow2(17) == 131072 && Pow2(32) == 4294967296 && Pow2(33) == 8589934592
  {
    assert Pow2(1) == 2 && Pow2(2) == 4;
    Pow2Sum(2, 2);
    Pow2Sum(4, 4);
    Pow2Sum(8, 8);
    Pow2Sum(16, 16);
  }

  lemma {:induction false} InRange(t: Ty, v: nat, k: nat)
    requires t.Ty? && k < t.bits && v < Pow2(k)
    ensures Convert(t, v) == v
  {
    Pow2Rises(k, t.bits - 1);
    ConvertInRange(t, v);
  }

  lemma {:induction false} Pow2Sum(a: nat, b: nat)
    ensures Pow2(a + b) == Pow2(a) * Pow2(b)
    decreases a
  {
    if a > 0 {
      var p, q := Pow2(a - 1), Pow2(b);
      Pow2Sum(a - 1, b);
      assert Pow2(a + b) == 2 * Pow2(a - 1 + b);
      Doubled(p, q);
    }
  }

  lemma {:induction false} Doubled(p: int, q: int)
    ensures 2 * (p * q) == (2 * p) * q
  {
  }
}
