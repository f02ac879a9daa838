/**
 Pure expressions and structured statements, with their meaning. Statements may loop for
 ever, so execution is given an amount of fuel that is spent on repeated loop iterations
 only; two programs that agree for every amount of fuel agree on divergence too.
 */
module StmtLanguage {
  import opened Wrappers

  datatype Expr =
    | Lit(n: int)
    | Var(x: string)
    | Paren(sub: Expr)
    | Cast(ty: string, sub: Expr)
    | Unary(uop: string, sub: Expr)
    | Bin(op: string, lhs: Expr, rhs: Expr)
    | Cond(cond: Expr, thn: Expr, els: Expr)

  datatype Stmt =
    | Assign(x: string, e: Expr)
    | Update(x: string, op: string, e: Expr)
    | Return(e: Expr)
    | Declare(x: string, e: Expr)
    | Block(body: seq<Stmt>)
    | If(e: Expr, thn: Stmt, els: Option<Stmt>)
    | While(e: Expr, loop: Stmt)
    | Do(loop: Stmt, e: Expr)

  // What the operators and casts compute. Nothing is assumed of it but that it is total.
  datatype Meaning = Meaning(bin: (string, int, int) -> int, un: (string, int) -> int)

  type Store = map<string, int>

  function Get(st: Store, x: string): int {
    if x in st then st[x] else 0
  }

  function Eval(m: Meaning, e: Expr, st: Store): int {
    match e
    case Lit(n) => n
    case Var(x) => Get(st, x)
    case Paren(sub) => Eval(m, sub, st)
    case Cast(ty, sub) => m.un(ty, Eval(m, sub, st))
    case Unary(op, sub) => m.un(op, Eval(m, sub, st))
    case Bin(op, l, r) => m.bin(op, Eval(m, l, st), Eval(m, r, st))
    case Cond(c, t, f) => if Eval(m, c, st) != 0 then Eval(m, t, st) else Eval(m, f, st)
  }

  // The store once the scope of a declared variable ends: the name has its value from before.
  function Back(inner: Store, outer: Store, x: string): Store {
    if x in outer then inner[x := outer[x]] else inner - {x}
  }

  lemma {:induction false} GetBack(inner: Store, outer: Store, x: string, y: string)
    ensures Get(Back(inner, outer, x), y) == if y == x then Get(outer, x) else Get(inner, y)
  {
  }

  // The value a declared variable starts with. The variable itself, in scope in its initialiser, is 0 there.
  function Initial(m: Meaning, x: string, e: Expr, st: Store): int {
    Eval(m, e, st[x := 0])
  }

  datatype Outcome = Normal(st: Store) | Returned(value: int, st: Store) | OutOfFuel

  function Exec(m: Meaning, s: Stmt, st: Store, fuel: nat): Outcome
    decreases fuel, s, 0
  {
    match s
    case Assign(x, e) => Normal(st[x := Eval(m, e, st)])
    case Update(x, op, e) => Normal(st[x := m.bin(op, Get(st, x), Eval(m, e, st))])
    case Return(e) => Returned(Eval(m, e, st), st)
    case Declare(_, _) => Normal(st)
    case Block(ss) => ExecSeq(m, ss, st, fuel)
    case If(c, t, f) =>
      if Eval(m, c, st) != 0 then Exec(m, t, st, fuel)
      else if f.Some? then Exec(m, f.value, st, fuel)
      else Normal(st)
    case While(c, b) =>
      if Eval(m, c, st) == 0 then Normal(st)
      else (match Exec(m, b, st, fuel)
        case Normal(st1) => if fuel == 0 then OutOfFuel else Exec(m, s, st1, fuel - 1)
        case other => other)
    case Do(b, c) =>
      match Exec(m, b, st, fuel)
      case Normal(st1) =>
        if Eval(m, c, st1) == 0 then Normal(st1)
        else if fuel == 0 then OutOfFuel
        else Exec(m, s, st1, fuel - 1)
      case other => other
  }

  // A declared variable lives to the end of its list.
  function ExecSeq(m: Meaning, ss: seq<Stmt>, st: Store, fuel: nat): Outcome
    decreases fuel, ss, |ss|
  {
    if ss == [] then Normal(st)
    else if ss[0].Declare? then
      var x := ss[0].x;
      Left(ExecSeq(m, ss[1..], st[x := Initial(m, x, ss[0].e, st)], fuel), st, x)
    else match Exec(m, ss[0], st, fuel)
      case Normal(st1) => ExecSeq(m, ss[1..], st1, fuel)
      case other => other
  }

  // The outcome once the scope of a variable has been left.
  function Left(r: Outcome, outer: Store, x: string): Outcome {
    match r
    case Normal(st) => Normal(Back(st, outer, x))
    case Returned(v, st) => Returned(v, Back(st, outer, x))
    case OutOfFuel => OutOfFuel
  }

  // ----- Variables -----

  function ExprVars(e: Expr): set<string> {
    match e
    case Lit(_) => {}
    case Var(x) => {x}
    case Paren(sub) => ExprVars(sub)
    case Cast(_, sub) => ExprVars(sub)
    case Unary(_, sub) => ExprVars(sub)
    case Bin(_, l, r) => ExprVars(l) + ExprVars(r)
    case Cond(c, t, f) => ExprVars(c) + ExprVars(t) + ExprVars(f)
  }

  function Vars(s: Stmt): set<string> {
    match s
    case Assign(x, e) => {x} + ExprVars(e)
    case Update(x, _, e) => {x} + ExprVars(e)
    case Return(e) => ExprVars(e)
    case Declare(x, e) => {x} + ExprVars(e)
    case Block(ss) => VarsOfAll(ss)
    case If(c, t, f) => ExprVars(c) + Vars(t) + if f.Some? then Vars(f.value) else {}
    case While(c, b) => ExprVars(c) + Vars(b)
    case Do(b, c) => Vars(b) + ExprVars(c)
  }

  function VarsOfAll(ss: seq<Stmt>): set<string> {
    if ss == [] then {} else Vars(ss[0]) + VarsOfAll(ss[1..])
  }

  // The variables a statement uses from around it.
  function FreeVars(s: Stmt): set<string> {
    match s
    case Assign(x, e) => {x} + ExprVars(e)
    case Update(x, _, e) => {x} + ExprVars(e)
    case Return(e) => ExprVars(e)
    case Declare(x, e) => ExprVars(e) - {x}
    case Block(ss) => FreeOfAll(ss)
    case If(c, t, f) => ExprVars(c) + FreeVars(t) + if f.Some? then FreeVars(f.value) else {}
    case While(c, b) => ExprVars(c) + FreeVars(b)
    case Do(b, c) => FreeVars(b) + ExprVars(c)
  }

  function FreeOfAll(ss: seq<Stmt>): set<string> {
    if ss == [] then {}
    else FreeVars(ss[0]) + (FreeOfAll(ss[1..]) - if ss[0].Declare? then {ss[0].x} else {})
  }

  lemma {:induction false} FreeAreVars(s: Stmt)
    ensures FreeVars(s) <= Vars(s)
    decreases s, 0
  {
    match s
    case Block(ss) => FreeOfAllAreVars(ss);
    case If(_, t, f) =>
      FreeAreVars(t);
      if f.Some? {
        FreeAreVars(f.value);
      }
    case While(_, b) => FreeAreVars(b);
    case Do(b, _) => FreeAreVars(b);
    case _ =>
  }

  lemma {:induction false} FreeOfAllAreVars(ss: seq<Stmt>)
    ensures FreeOfAll(ss) <= VarsOfAll(ss)
    decreases ss, |ss|
  {
    if ss != [] {
      FreeAreVars(ss[0]);
      FreeOfAllAreVars(ss[1..]);
    }
  }

  // The variables a statement may change.
  function Assigned(s: Stmt): set<string> {
    match s
    case Assign(x, _) => {x}
    case Update(x, _, _) => {x}
    case Return(_) => {}
    case Declare(_, _) => {}
    case Block(ss) => AssignedByAll(ss)
    case If(_, t, f) => Assigned(t) + if f.Some? then Assigned(f.value) else {}
    case While(_, b) => Assigned(b)
    case Do(b, _) => Assigned(b)
  }

  function AssignedByAll(ss: seq<Stmt>): set<string> {
    if ss == [] then {}
    else if ss[0].Declare? then AssignedByAll(ss[1..]) - {ss[0].x}
    else Assigned(ss[0]) + AssignedByAll(ss[1..])
  }

  lemma {:induction false} AssignedAreFree(s: Stmt)
    ensures Assigned(s) <= FreeVars(s)
    decreases s, 0
  {
    match s
    case Block(ss) => AssignedByAllAreFree(ss);
    case If(_, t, f) =>
      AssignedAreFree(t);
      if f.Some? {
        AssignedAreFree(f.value);
      }
    case While(_, b) => AssignedAreFree(b);
    case Do(b, _) => AssignedAreFree(b);
    case _ =>
  }

  lemma {:induction false} AssignedByAllAreFree(ss: seq<Stmt>)
    ensures AssignedByAll(ss) <= FreeOfAll(ss)
    decreases ss, |ss|
  {
    if ss != [] {
      AssignedAreFree(ss[0]);
      AssignedByAllAreFree(ss[1..]);
    }
  }

  // ----- Agreement but for some variables -----

  ghost predicate AgreeOff(ds: set<string>, a: Store, b: Store) {
    forall x :: x !in ds ==> Get(a, x) == Get(b, x)
  }

  ghost predicate SameOff(ds: set<string>, a: Outcome, b: Outcome) {
    match (a, b)
    case (Normal(s), Normal(t)) => AgreeOff(ds, s, t)
    case (Returned(v, s), Returned(w, t)) => v == w && AgreeOff(ds, s, t)
    case (OutOfFuel, OutOfFuel) => true
    case _ => false
  }

  // But for one.
  ghost predicate Agree(tmp: string, a: Store, b: Store) {
    AgreeOff({tmp}, a, b)
  }

  ghost predicate SameBut(tmp: string, a: Outcome, b: Outcome) {
    SameOff({tmp}, a, b)
  }

  lemma {:induction false} GetUpdated(st: Store, x: string, v: int, y: string)
    ensures Get(st[x := v], y) == if y == x then v else Get(st, y)
  {
  }

  // Once a variable has the same value in both it is no longer one in which they differ.
  lemma {:induction false} AgreeAfterAssign(ds: set<string>, a: Store, b: Store, x: string, v: int)
    requires AgreeOff(ds, a, b)
    ensures AgreeOff(ds - {x}, a[x := v], b[x := v]) && AgreeOff(ds, a[x := v], b[x := v])
  {
    var a', b' := a[x := v], b[x := v];
    forall y | y !in ds - {x}
      ensures Get(a', y) == Get(b', y)
    {
      GetUpdated(a, x, v, y);
      GetUpdated(b, x, v, y);
    }
  }

  // The end of a scope, in two runs that differed outside it in the given variables.
  lemma {:induction false} SameAfterLeft(ds: set<string>, r: Outcome, r': Outcome, a: Store, b: Store, x: string)
    requires SameOff(ds - {x}, r, r') && AgreeOff(ds, a, b)
    ensures SameOff(ds, Left(r, a, x), Left(r', b, x))
  {
    if !r.OutOfFuel? {
      forall y | y !in ds
        ensures Get(Back(r.st, a, x), y) == Get(Back(r'.st, b, x), y)
      {
        GetBack(r.st, a, x, y);
        GetBack(r'.st, b, x, y);
      }
    }
  }

  lemma {:induction false} EvalAgrees(m: Meaning, e: Expr, a: Store, b: Store)
    requires forall x :: x in ExprVars(e) ==> Get(a, x) == Get(b, x)
    ensures Eval(m, e, a) == Eval(m, e, b)
  {
    match e
    case Lit(_) =>
    case Var(_) =>
    case Paren(sub) => EvalAgrees(m, sub, a, b);
    case Cast(_, sub) => EvalAgrees(m, sub, a, b);
    case Unary(_, sub) => EvalAgrees(m, sub, a, b);
    case Bin(_, l, r) => EvalAgrees(m, l, a, b); EvalAgrees(m, r, a, b);
    case Cond(c, t, f) => EvalAgrees(m, c, a, b); EvalAgrees(m, t, a, b); EvalAgrees(m, f, a, b);
  }

  lemma {:induction false} EvalOff(m: Meaning, e: Expr, ds: set<string>, a: Store, b: Store)
    requires AgreeOff(ds, a, b) && ds !! ExprVars(e)
    ensures Eval(m, e, a) == Eval(m, e, b)
  {
    EvalAgrees(m, e, a, b);
  }

  lemma {:induction false} EvalBut(m: Meaning, e: Expr, tmp: string, a: Store, b: Store)
    requires Agree(tmp, a, b) && tmp !in ExprVars(e)
    ensures Eval(m, e, a) == Eval(m, e, b)
  {
    EvalOff(m, e, {tmp}, a, b);
  }

  lemma {:induction false} InitialAgrees(m: Meaning, x: string, e: Expr, ds: set<string>, a: Store, b: Store)
    requires AgreeOff(ds, a, b) && ds !! ExprVars(e) - {x}
    ensures Initial(m, x, e, a) == Initial(m, x, e, b)
  {
    AgreeAfterAssign(ds, a, b, x, 0);
    EvalOff(m, e, ds - {x}, a[x := 0], b[x := 0]);
  }

  // A statement that does not use some variables does not depend on them.
  lemma {:induction false} ExecAgreesOff(m: Meaning, s: Stmt, ds: set<string>, a: Store, b: Store, fuel: nat)
    requires AgreeOff(ds, a, b) && ds !! FreeVars(s)
    ensures SameOff(ds, Exec(m, s, a, fuel), Exec(m, s, b, fuel))
    decreases fuel, s, 0
  {
    match s
    case Assign(x, e) =>
      EvalOff(m, e, ds, a, b);
      AgreeAfterAssign(ds, a, b, x, Eval(m, e, a));
    case Update(x, op, e) =>
      assert x in FreeVars(s);
      EvalOff(m, e, ds, a, b);
      AgreeAfterAssign(ds, a, b, x, m.bin(op, Get(a, x), Eval(m, e, a)));
    case Return(e) => EvalOff(m, e, ds, a, b);
    case Declare(_, _) =>
    case Block(ss) => ExecSeqAgreesOff(m, ss, ds, a, b, fuel);
    case If(c, t, f) =>
      EvalOff(m, c, ds, a, b);
      ExecAgreesOff(m, t, ds, a, b, fuel);
      if f.Some? {
        ExecAgreesOff(m, f.value, ds, a, b, fuel);
      }
    case While(c, body) =>
      EvalOff(m, c, ds, a, b);
      ExecAgreesOff(m, body, ds, a, b, fuel);
      var ra, rb := Exec(m, body, a, fuel), Exec(m, body, b, fuel);
      if ra.Normal? && fuel > 0 {
        ExecAgreesOff(m, s, ds, ra.st, rb.st, fuel - 1);
      }
    case Do(body, c) =>
      ExecAgreesOff(m, body, ds, a, b, fuel);
      var ra, rb := Exec(m, body, a, fuel), Exec(m, body, b, fuel);
      if ra.Normal? {
        EvalOff(m, c, ds, ra.st, rb.st);
        if fuel > 0 {
          ExecAgreesOff(m, s, ds, ra.st, rb.st, fuel - 1);
        }
      }
  }

  lemma {:induction false} ExecSeqAgreesOff(m: Meaning, ss: seq<Stmt>, ds: set<string>, a: Store, b: Store, fuel: nat)
    requires AgreeOff(ds, a, b) && ds !! FreeOfAll(ss)
    ensures SameOff(ds, ExecSeq(m, ss, a, fuel), ExecSeq(m, ss, b, fuel))
    decreases fuel, ss, |ss|
  {
    if ss != [] {
      if ss[0].Declare? {
        var x, e := ss[0].x, ss[0].e;
        InitialAgrees(m, x, e, ds, a, b);
        var v := Initial(m, x, e, a);
        AgreeAfterAssign(ds, a, b, x, v);
        ExecSeqAgreesOff(m, ss[1..], ds - {x}, a[x := v], b[x := v], fuel);
        SameAfterLeft(ds, ExecSeq(m, ss[1..], a[x := v], fuel), ExecSeq(m, ss[1..], b[x := v], fuel), a, b, x);
      } else {
        ExecAgreesOff(m, ss[0], ds, a, b, fuel);
        var ra, rb := Exec(m, ss[0], a, fuel), Exec(m, ss[0], b, fuel);
        if ra.Normal? {
          ExecSeqAgreesOff(m, ss[1..], ds, ra.st, rb.st, fuel);
        }
      }
    }
  }

  // So with one variable that is not mentioned at all.
  lemma {:induction false} ExecAgrees(m: Meaning, s: Stmt, tmp: string, a: Store, b: Store, fuel: nat)
    requires Agree(tmp, a, b) && tmp !in Vars(s)
    ensures SameBut(tmp, Exec(m, s, a, fuel), Exec(m, s, b, fuel))
  {
    FreeAreVars(s);
    ExecAgreesOff(m, s, {tmp}, a, b, fuel);
  }

  lemma {:induction false} ExecSeqAgrees(m: Meaning, ss: seq<Stmt>, tmp: string, a: Store, b: Store, fuel: nat)
    requires Agree(tmp, a, b) && tmp !in VarsOfAll(ss)
    ensures SameBut(tmp, ExecSeq(m, ss, a, fuel), ExecSeq(m, ss, b, fuel))
  {
    FreeOfAllAreVars(ss);
    ExecSeqAgreesOff(m, ss, {tmp}, a, b, fuel);
  }

  // A statement leaves the variables it does not assign as they were.
  lemma {:induction false} ExecKeeps(m: Meaning, s: Stmt, x: string, st: Store, fuel: nat)
    requires x !in Assigned(s)
    ensures !Exec(m, s, st, fuel).OutOfFuel? ==> Get(Exec(m, s, st, fuel).st, x) == Get(st, x)
    decreases fuel, s, 0
  {
    match s
    case Assign(_, _) =>
    case Update(_, _, _) =>
    case Return(_) =>
    case Declare(_, _) =>
    case Block(ss) => ExecSeqKeeps(m, ss, x, st, fuel);
    case If(c, t, f) =>
      ExecKeeps(m, t, x, st, fuel);
      if f.Some? {
        ExecKeeps(m, f.value, x, st, fuel);
      }
    case While(c, body) =>
      ExecKeeps(m, body, x, st, fuel);
      var r := Exec(m, body, st, fuel);
      if r.Normal? && fuel > 0 {
        ExecKeeps(m, s, x, r.st, fuel - 1);
      }
    case Do(body, c) =>
      ExecKeeps(m, body, x, st, fuel);
      var r := Exec(m, body, st, fuel);
      if r.Normal? && fuel > 0 {
        ExecKeeps(m, s, x, r.st, fuel - 1);
      }
  }

  lemma {:induction false} ExecSeqKeeps(m: Meaning, ss: seq<Stmt>, x: string, st: Store, fuel: nat)
    requires x !in AssignedByAll(ss)
    ensures !ExecSeq(m, ss, st, fuel).OutOfFuel? ==> Get(ExecSeq(m, ss, st, fuel).st, x) == Get(st, x)
    decreases fuel, ss, |ss|
  {
    if ss != [] {
      if ss[0].Declare? {
        var y := ss[0].x;
        var v := Initial(m, y, ss[0].e, st);
        if x != y {
          ExecSeqKeeps(m, ss[1..], x, st[y := v], fuel);
        }
        var r := ExecSeq(m, ss[1..], st[y := v], fuel);
        if !r.OutOfFuel? {
          GetBack(r.st, st, y, x);
        }
      } else {
        ExecKeeps(m, ss[0], x, st, fuel);
        var r := Exec(m, ss[0], st, fuel);
        if r.Normal? {
          ExecSeqKeeps(m, ss[1..], x, r.st, fuel);
        }
      }
    }
  }

  // A tail of a list mentions no more than the list.
  lemma {:induction false} VarsOfMember(ss: seq<Stmt>, i: nat)
    requires i < |ss|
    ensures Vars(ss[i]) <= VarsOfAll(ss)
  {
    if i > 0 {
      VarsOfMember(ss[1..], i - 1);
    }
  }
}
