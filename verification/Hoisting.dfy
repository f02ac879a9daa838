/**
 Hoisting the operand of a binary operator into a temporary that is assigned just before
 the current statement (clang_delta/BinOpSimplification.cpp:77-115, 160-189 and the
 statement edits of clang_delta/RewriteUtils.cpp:826-869), and why it preserves meaning.
 */
module Hoisting {
  import opened Wrappers
  import opened StmtLanguage

  // Which child to take at each step: into an expression, or into a statement
  // (0 is the then-branch or the loop body, 1 the else-branch).
  type Path = seq<nat>

  function Child(e: Expr, i: nat): Option<Expr> {
    match e
    case Lit(_) => None
    case Var(_) => None
    case Paren(sub) => if i == 0 then Some(sub) else None
    case Cast(_, sub) => if i == 0 then Some(sub) else None
    case Unary(_, sub) => if i == 0 then Some(sub) else None
    case Bin(_, l, r) => if i == 0 then Some(l) else if i == 1 then Some(r) else None
    case Cond(c, t, f) => if i == 0 then Some(c) else if i == 1 then Some(t) else if i == 2 then Some(f) else None
  }

  function SubExpr(e: Expr, p: Path): Option<Expr>
    decreases |p|
  {
    if p == [] then Some(e)
    else match Child(e, p[0])
      case None => None
      case Some(c) => SubExpr(c, p[1..])
  }

  function WithChild(e: Expr, i: nat, c: Expr): Expr {
    match e
    case Lit(_) => e
    case Var(_) => e
    case Paren(_) => Paren(c)
    case Cast(ty, _) => Cast(ty, c)
    case Unary(op, _) => Unary(op, c)
    case Bin(op, l, r) => if i == 0 then Bin(op, c, r) else Bin(op, l, c)
    case Cond(b, t, f) => if i == 0 then Cond(c, t, f) else if i == 1 then Cond(b, c, f) else Cond(b, t, c)
  }

  // replaceExpr
  function ReplaceExpr(e: Expr, p: Path, put: Expr): Expr
    requires SubExpr(e, p).Some?
    decreases |p|
  {
    if p == [] then put else WithChild(e, p[0], ReplaceExpr(Child(e, p[0]).value, p[1..], put))
  }

  // The expression that belongs to a statement itself.
  function Head(s: Stmt): Option<Expr> {
    if s.Block? then None else Some(s.e)
  }

  function WithHead(s: Stmt, e: Expr): Stmt
    requires !s.Block?
  {
    s.(e := e)
  }

  predicate IsLoop(s: Stmt) {
    s.While? || s.Do?
  }

  function SubStmt(s: Stmt, p: Path): Option<Stmt>
    decreases |p|
  {
    if p == [] then Some(s)
    else match StmtChild(s, p[0])
      case None => None
      case Some(c) => SubStmt(c, p[1..])
  }

  function StmtChild(s: Stmt, i: nat): Option<Stmt> {
    match s
    case Block(ss) => if i < |ss| then Some(ss[i]) else None
    case If(_, t, f) => if i == 0 then Some(t) else if i == 1 then f else None
    case While(_, b) => if i == 0 then Some(b) else None
    case Do(b, _) => if i == 0 then Some(b) else None
    case _ => None
  }

  // Every part of a statement, and of an expression, has a number.
  lemma {:induction false} StmtParts(ss: seq<Stmt>, i: nat, e: Expr, t: Stmt, f: Stmt)
    ensures StmtChild(Block(ss), i) == if i < |ss| then Some(ss[i]) else None
    ensures StmtChild(If(e, t, Some(f)), 0) == Some(t) && StmtChild(If(e, t, Some(f)), 1) == Some(f)
    ensures StmtChild(If(e, t, None), 0) == Some(t) && StmtChild(If(e, t, None), 1) == None
    ensures StmtChild(While(e, t), 0) == Some(t) && StmtChild(Do(t, e), 0) == Some(t)
  {
  }

  lemma {:induction false} ExprParts(op: string, a: Expr, b: Expr, c: Expr)
    ensures Child(Bin(op, a, b), 0) == Some(a) && Child(Bin(op, a, b), 1) == Some(b)
    ensures Child(Cond(a, b, c), 0) == Some(a) && Child(Cond(a, b, c), 1) == Some(b) && Child(Cond(a, b, c), 2) == Some(c)
    ensures Child(Paren(a), 0) == Some(a) && Child(Cast(op, a), 0) == Some(a) && Child(Unary(op, a), 0) == Some(a)
  {
  }

  // Where an operand to hoist was found: the current statement, the operand inside the
  // expression of that statement, and whether braces are to be put around the result.
  datatype Site = Site(stmt: Path, expr: Path, needParen: bool)

  // The two statements that take the place of the current one.
  function Hoisted(s: Stmt, p: Path, tmp: string): seq<Stmt>
    requires Head(s).Some? && SubExpr(Head(s).value, p).Some?
  {
    [Assign(tmp, SubExpr(Head(s).value, p).value), WithHead(s, ReplaceExpr(Head(s).value, p, Var(tmp)))]
  }

  predicate ValidSite(s: Stmt, site: Site) {
    && SubStmt(s, site.stmt).Some?
    && Head(SubStmt(s, site.stmt).value).Some?
    && SubExpr(Head(SubStmt(s, site.stmt).value).value, site.expr).Some?
    && BracesWhereNeeded(s, site.stmt, site.needParen)
  }

  // Without braces two statements fit only where a list of statements is expected.
  predicate BracesWhereNeeded(s: Stmt, p: Path, needParen: bool)
    decreases |p|
  {
    if p == [] then needParen
    else if |p| == 1 && s.Block? then true
    else match StmtChild(s, p[0])
      case None => false
      case Some(c) => BracesWhereNeeded(c, p[1..], needParen)
  }

  function WithStmtChild(s: Stmt, i: nat, c: Stmt): Stmt
    requires StmtChild(s, i).Some?
  {
    match s
    case Block(ss) => Block(ss[i := c])
    case If(e, t, f) => if i == 0 then If(e, c, f) else If(e, t, Some(c))
    case While(e, _) => While(e, c)
    case Do(_, e) => Do(c, e)
  }

  // addNewAssignStmtBefore and replaceBinOp at a site.
  function Rewrite(s: Stmt, site: Site, tmp: string): Stmt
    requires ValidSite(s, site)
    decreases |site.stmt|
  {
    if site.stmt == [] then Block(Hoisted(s, site.expr, tmp))
    else
      var i := site.stmt[0];
      if |site.stmt| == 1 && s.Block? && !site.needParen then
        assert SubStmt(s, site.stmt) == SubStmt(s.body[i], []);
        Block(s.body[..i] + Hoisted(s.body[i], site.expr, tmp) + s.body[i + 1..])
      else
        WithStmtChild(s, i, Rewrite(StmtChild(s, i).value, Site(site.stmt[1..], site.expr, site.needParen), tmp))
  }

  // When the assignment may be moved in front of the current statement: a loop does not change what the
  // operand reads, and a declared variable is not read by an operand of its own initialiser.
  predicate Movable(s: Stmt, p: Path)
    requires Head(s).Some? && SubExpr(Head(s).value, p).Some?
  {
    match s
    case Declare(x, e) => x !in ExprVars(SubExpr(e, p).value)
    case While(e, b) => ExprVars(SubExpr(e, p).value) !! Assigned(b)
    case Do(b, e) => ExprVars(SubExpr(e, p).value) !! Assigned(b)
    case _ => true
  }

  // The braces do not end the scope of a variable that is used later in its block: they are not put
  // around its declaration alone.
  predicate ScopeKept(s: Stmt, p: Path, needParen: bool)
    decreases |p|
  {
    if p == [] then true
    else match StmtChild(s, p[0])
      case None => true
      case Some(c) =>
        if |p| == 1 && s.Block? && c.Declare? then needParen ==> c.x !in FreeOfAll(s.body[p[0] + 1..])
        else ScopeKept(c, p[1..], needParen)
  }

  // ----- Expressions -----

  lemma {:induction false} SubExprVars(e: Expr, p: Path)
    requires SubExpr(e, p).Some?
    ensures ExprVars(SubExpr(e, p).value) <= ExprVars(e)
    decreases |p|
  {
    if p != [] {
      SubExprVars(Child(e, p[0]).value, p[1..]);
    }
  }

  // With the temporary holding the operand's value, the shortened expression has the value of the whole.
  lemma {:induction false} ReplacedValue(m: Meaning, e: Expr, p: Path, tmp: string, a: Store, b: Store)
    requires SubExpr(e, p).Some? && tmp !in ExprVars(e) && Agree(tmp, a, b)
    requires Get(b, tmp) == Eval(m, SubExpr(e, p).value, a)
    ensures Eval(m, ReplaceExpr(e, p, Var(tmp)), b) == Eval(m, e, a)
    decreases |p|
  {
    if p != [] {
      var i := p[0];
      ReplacedValue(m, Child(e, i).value, p[1..], tmp, a, b);
      forall j | j != i && Child(e, j).Some?
        ensures Eval(m, Child(e, j).value, a) == Eval(m, Child(e, j).value, b)
      {
        SubExprVars(e, [j]);
        EvalBut(m, Child(e, j).value, tmp, a, b);
      }
      SameChildren(m, e, i, ReplaceExpr(Child(e, i).value, p[1..], Var(tmp)), a, b);
    }
  }

  lemma {:induction false} SameChildren(m: Meaning, e: Expr, i: nat, c: Expr, a: Store, b: Store)
    requires Child(e, i).Some? && Eval(m, c, b) == Eval(m, Child(e, i).value, a)
    requires forall j {:trigger Child(e, j)} :: j != i && Child(e, j).Some? ==>
      Eval(m, Child(e, j).value, a) == Eval(m, Child(e, j).value, b)
    ensures Eval(m, WithChild(e, i, c), b) == Eval(m, e, a)
  {
    match e
    case Bin(op, l, r) =>
      assert Child(e, 0) == Some(l) && Child(e, 1) == Some(r);
      assert WithChild(e, i, c) == if i == 0 then Bin(op, c, r) else Bin(op, l, c);
    case Cond(h, t, f) =>
      assert Child(e, 0) == Some(h) && Child(e, 1) == Some(t) && Child(e, 2) == Some(f);
      assert WithChild(e, i, c) == if i == 0 then Cond(c, t, f) else if i == 1 then Cond(h, c, f) else Cond(h, t, c);
    case Unary(op, sub) => assert WithChild(e, i, c) == Unary(op, c);
    case Cast(ty, sub) => assert WithChild(e, i, c) == Cast(ty, c);
    case Paren(sub) => assert WithChild(e, i, c) == Paren(c);
  }

  // ----- The current statement -----

  // The assignment followed by the shortened statement does what the statement did.
  lemma {:induction false} HoistedRuns(m: Meaning, s: Stmt, p: Path, tmp: string, a: Store, b: Store, fuel: nat)
    requires Head(s).Some? && SubExpr(Head(s).value, p).Some? && Movable(s, p)
    requires tmp !in Vars(s) && Agree(tmp, a, b)
    ensures SameBut(tmp, Exec(m, s, a, fuel), ExecSeq(m, Hoisted(s, p, tmp), b, fuel))
  {
    var e := Head(s).value;
    var operand := SubExpr(e, p).value;
    SubExprVars(e, p);
    EvalBut(m, operand, tmp, a, b);
    var b1 := b[tmp := Eval(m, operand, b)];
    var s' := WithHead(s, ReplaceExpr(e, p, Var(tmp)));
    assert Agree(tmp, a, b1);
    HeadReplacedRuns(m, s, p, tmp, a, b1, fuel);
    AssignThen(m, tmp, operand, s', b, fuel);
    assert Hoisted(s, p, tmp) == [Assign(tmp, operand), s'];
  }

  lemma {:induction false} AssignThen(m: Meaning, x: string, e: Expr, s: Stmt, st: Store, fuel: nat)
    ensures ExecSeq(m, [Assign(x, e), s], st, fuel) == Exec(m, s, st[x := Eval(m, e, st)], fuel)
  {
    assert [Assign(x, e), s][1..] == [s];
    OneRuns(m, s, st[x := Eval(m, e, st)], fuel);
  }

  lemma {:induction false} OneRuns(m: Meaning, s: Stmt, st: Store, fuel: nat)
    ensures ExecSeq(m, [s], st, fuel) == Exec(m, s, st, fuel)
  {
    assert [s][1..] == [];
    var r := Exec(m, s, st, fuel);
    if s.Declare? {
      var st1 := st[s.x := Initial(m, s.x, s.e, st)];
      assert ExecSeq(m, [], st1, fuel) == Normal(st1) && Back(st1, st, s.x) == st;
    } else if r.Normal? {
      assert ExecSeq(m, [], r.st, fuel) == r;
    }
  }

  lemma {:induction false} HeadReplacedRuns(m: Meaning, s: Stmt, p: Path, tmp: string, a: Store, b: Store, fuel: nat)
    requires Head(s).Some? && SubExpr(Head(s).value, p).Some? && Movable(s, p)
    requires tmp !in Vars(s) && Agree(tmp, a, b)
    requires Get(b, tmp) == Eval(m, SubExpr(Head(s).value, p).value, a)
    ensures SameBut(tmp, Exec(m, s, a, fuel), Exec(m, WithHead(s, ReplaceExpr(Head(s).value, p, Var(tmp))), b, fuel))
    decreases fuel
  {
    var e := Head(s).value;
    ReplacedValue(m, e, p, tmp, a, b);
    match s
    case Assign(x, _) =>
      AgreeAfterAssign({tmp}, a, b, x, Eval(m, e, a));
    case Update(x, op, _) =>
      assert x in Vars(s);
      AgreeAfterAssign({tmp}, a, b, x, m.bin(op, Get(a, x), Eval(m, e, a)));
    case Return(_) =>
    case Declare(_, _) =>
    case If(_, t, f) =>
      ExecAgrees(m, t, tmp, a, b, fuel);
      if f.Some? {
        ExecAgrees(m, f.value, tmp, a, b, fuel);
      }
    case While(_, body) =>
      ExecAgrees(m, body, tmp, a, b, fuel);
      var ra, rb := Exec(m, body, a, fuel), Exec(m, body, b, fuel);
      if ra.Normal? && fuel > 0 {
        OperandUnchanged(m, body, SubExpr(e, p).value, tmp, a, b, fuel);
        HeadReplacedRuns(m, s, p, tmp, ra.st, rb.st, fuel - 1);
      }
    case Do(body, _) =>
      ExecAgrees(m, body, tmp, a, b, fuel);
      var ra, rb := Exec(m, body, a, fuel), Exec(m, body, b, fuel);
      if ra.Normal? {
        OperandUnchanged(m, body, SubExpr(e, p).value, tmp, a, b, fuel);
        ReplacedValue(m, e, p, tmp, ra.st, rb.st);
        if fuel > 0 {
          HeadReplacedRuns(m, s, p, tmp, ra.st, rb.st, fuel - 1);
        }
      }
  }

  // A loop body that changes neither the operand's variables nor the temporary keeps the two equal.
  lemma {:induction false} OperandUnchanged(m: Meaning, body: Stmt, operand: Expr, tmp: string, a: Store, b: Store, fuel: nat)
    requires ExprVars(operand) !! Assigned(body) && tmp !in Vars(body) && Agree(tmp, a, b)
    requires Exec(m, body, a, fuel).Normal? && Exec(m, body, b, fuel).Normal?
    ensures Eval(m, operand, Exec(m, body, a, fuel).st) == Eval(m, operand, a)
    ensures Get(Exec(m, body, b, fuel).st, tmp) == Get(b, tmp)
  {
    forall x | x in ExprVars(operand)
      ensures Get(Exec(m, body, a, fuel).st, x) == Get(a, x)
    {
      ExecKeeps(m, body, x, a, fuel);
    }
    EvalAgrees(m, operand, Exec(m, body, a, fuel).st, a);
    AssignedAreVars(body);
    ExecKeeps(m, body, tmp, b, fuel);
  }

  lemma {:induction false} AssignedAreVars(s: Stmt)
    ensures Assigned(s) <= Vars(s)
  {
    AssignedAreFree(s);
    FreeAreVars(s);
  }

  // ----- Loop heads -----

  lemma {:induction false} ReplacedTwice(e: Expr, p: Path, x: Expr, y: Expr)
    requires SubExpr(e, p).Some?
    ensures SubExpr(ReplaceExpr(e, p, x), p) == Some(x)
    ensures ReplaceExpr(ReplaceExpr(e, p, x), p, y) == ReplaceExpr(e, p, y)
    ensures ExprVars(ReplaceExpr(e, p, x)) <= ExprVars(e) + ExprVars(x)
    decreases |p|
  {
    if p != [] {
      ReplacedTwice(Child(e, p[0]).value, p[1..], x, y);
    }
  }

  // The head with the value v for the operand.
  function Frozen(e: Expr, p: Path, v: int): Expr
    requires SubExpr(e, p).Some?
  {
    ReplaceExpr(e, p, Lit(v))
  }

  lemma {:induction false} FrozenValue(m: Meaning, e: Expr, p: Path, tmp: string, a: Store, b: Store)
    requires SubExpr(e, p).Some? && tmp !in ExprVars(e) && Agree(tmp, a, b)
    ensures Eval(m, ReplaceExpr(e, p, Var(tmp)), b) == Eval(m, Frozen(e, p, Get(b, tmp)), a)
  {
    ReplacedTwice(e, p, Lit(Get(b, tmp)), Var(tmp));
    ReplacedValue(m, Frozen(e, p, Get(b, tmp)), p, tmp, a, b);
  }

  predicate HeadAgrees(m: Meaning, e: Expr, p: Path, v: int, st: Store)
    requires SubExpr(e, p).Some?
  {
    (Eval(m, e, st) != 0) == (Eval(m, Frozen(e, p, v), st) != 0)
  }

  // In every round that the loop reaches, its head is true exactly when it is with v for the operand.
  predicate HeadsAgree(m: Meaning, s: Stmt, p: Path, v: int, st: Store, fuel: nat)
    requires IsLoop(s) && SubExpr(s.e, p).Some?
    decreases fuel
  {
    if s.While? then
      HeadAgrees(m, s.e, p, v, st) &&
      (Eval(m, s.e, st) != 0 ==>
         var r := Exec(m, s.loop, st, fuel);
         r.Normal? && fuel > 0 ==> HeadsAgree(m, s, p, v, r.st, fuel - 1))
    else
      var r := Exec(m, s.loop, st, fuel);
      r.Normal? ==>
        HeadAgrees(m, s.e, p, v, r.st) &&
        (Eval(m, s.e, r.st) != 0 && fuel > 0 ==> HeadsAgree(m, s, p, v, r.st, fuel - 1))
  }

  // A loop is left with a false head only.
  lemma {:induction false} LoopLeft(m: Meaning, s: Stmt, st: Store, fuel: nat)
    requires IsLoop(s) && Exec(m, s, st, fuel).Normal?
    ensures Eval(m, s.e, Exec(m, s, st, fuel).st) == 0
    decreases fuel
  {
    var r := Exec(m, s.loop, st, fuel);
    if r.Normal? && fuel > 0 {
      if s.While? && Eval(m, s.e, st) != 0 {
        LoopLeft(m, s, r.st, fuel - 1);
      } else if s.Do? && Eval(m, s.e, r.st) != 0 {
        LoopLeft(m, s, r.st, fuel - 1);
      }
    }
  }

  // The shortened loop, from a store in which the temporary has the value v.
  function FrozenLoop(s: Stmt, p: Path, tmp: string): Stmt
    requires IsLoop(s) && SubExpr(s.e, p).Some?
  {
    WithHead(s, ReplaceExpr(s.e, p, Var(tmp)))
  }

  // When the heads differ, one loop is left where the other one goes on, and does not come back.
  lemma {:induction false} HeadsPart(m: Meaning, s: Stmt, p: Path, tmp: string, a: Store, b: Store, x: Outcome, y: Outcome)
    requires IsLoop(s) && SubExpr(s.e, p).Some? && tmp !in ExprVars(s.e) && Agree(tmp, a, b)
    requires !HeadAgrees(m, s.e, p, Get(b, tmp), a)
    requires Eval(m, s.e, a) == 0 ==> x == Normal(a)
    requires Eval(m, ReplaceExpr(s.e, p, Var(tmp)), b) == 0 ==> y == Normal(b)
    requires x.Normal? ==> Eval(m, s.e, x.st) == 0
    requires y.Normal? ==> Get(y.st, tmp) == Get(b, tmp) && Eval(m, ReplaceExpr(s.e, p, Var(tmp)), y.st) == 0
    ensures !SameBut(tmp, x, y)
  {
    FrozenValue(m, s.e, p, tmp, a, b);
    if x.Normal? && y.Normal? && Agree(tmp, x.st, y.st) {
      FrozenValue(m, s.e, p, tmp, a, y.st);
      EvalBut(m, s.e, tmp, a, x.st);
    }
  }

  // The shortened loop does what the loop did, with the same fuel, exactly when the heads agree.
  lemma {:induction false} FrozenLoopIff(m: Meaning, s: Stmt, p: Path, tmp: string, a: Store, b: Store, fuel: nat)
    requires IsLoop(s) && SubExpr(s.e, p).Some? && tmp !in Vars(s) && Agree(tmp, a, b)
    ensures SameBut(tmp, Exec(m, s, a, fuel), Exec(m, FrozenLoop(s, p, tmp), b, fuel))
            <==> HeadsAgree(m, s, p, Get(b, tmp), a, fuel)
    decreases fuel
  {
    var s' := FrozenLoop(s, p, tmp);
    LeftFalse(m, s, p, tmp, a, b, fuel);
    ExecAgrees(m, s.loop, tmp, a, b, fuel);
    AssignedAreVars(s.loop);
    ExecKeeps(m, s.loop, tmp, b, fuel);
    var ra, rb := Exec(m, s.loop, a, fuel), Exec(m, s.loop, b, fuel);
    if s.While? {
      FrozenValue(m, s.e, p, tmp, a, b);
      if !HeadAgrees(m, s.e, p, Get(b, tmp), a) {
        HeadsPart(m, s, p, tmp, a, b, Exec(m, s, a, fuel), Exec(m, s', b, fuel));
      } else if Eval(m, s.e, a) != 0 && ra.Normal? && fuel > 0 {
        FrozenLoopIff(m, s, p, tmp, ra.st, rb.st, fuel - 1);
      }
    } else if ra.Normal? {
      FrozenValue(m, s.e, p, tmp, ra.st, rb.st);
      if !HeadAgrees(m, s.e, p, Get(b, tmp), ra.st) {
        HeadsPart(m, s, p, tmp, ra.st, rb.st, Exec(m, s, a, fuel), Exec(m, s', b, fuel));
      } else if Eval(m, s.e, ra.st) != 0 && fuel > 0 {
        FrozenLoopIff(m, s, p, tmp, ra.st, rb.st, fuel - 1);
      }
    }
  }

  lemma {:induction false} LeftFalse(m: Meaning, s: Stmt, p: Path, tmp: string, a: Store, b: Store, fuel: nat)
    requires IsLoop(s) && SubExpr(s.e, p).Some? && tmp !in Vars(s)
    ensures
      var x, y := Exec(m, s, a, fuel), Exec(m, FrozenLoop(s, p, tmp), b, fuel);
      && (x.Normal? ==> Eval(m, s.e, x.st) == 0)
      && (y.Normal? ==> Get(y.st, tmp) == Get(b, tmp) && Eval(m, ReplaceExpr(s.e, p, Var(tmp)), y.st) == 0)
  {
    var s' := FrozenLoop(s, p, tmp);
    AssignedAreVars(s.loop);
    ExecKeeps(m, s', tmp, b, fuel);
    if Exec(m, s, a, fuel).Normal? {
      LoopLeft(m, s, a, fuel);
    }
    if Exec(m, s', b, fuel).Normal? {
      LoopLeft(m, s', b, fuel);
    }
  }

  // The exact condition for an operand in the head of a loop, for every run: the hoisted loop ends as the loop
  // did, or goes on for ever as it did, exactly when in every round that the loop reaches its head is true
  // just when it is with the first value of the operand.
  lemma {:induction false} LoopHoistedIff(m: Meaning, s: Stmt, p: Path, tmp: string, a: Store, b: Store, fuel: nat)
    requires IsLoop(s) && SubExpr(s.e, p).Some? && tmp !in Vars(s) && Agree(tmp, a, b)
    ensures SameBut(tmp, Exec(m, s, a, fuel), ExecSeq(m, Hoisted(s, p, tmp), b, fuel))
            <==> HeadsAgree(m, s, p, Eval(m, SubExpr(s.e, p).value, a), a, fuel)
  {
    var operand := SubExpr(s.e, p).value;
    SubExprVars(s.e, p);
    EvalBut(m, operand, tmp, a, b);
    var b1 := b[tmp := Eval(m, operand, b)];
    assert Agree(tmp, a, b1) && Get(b1, tmp) == Eval(m, operand, a);
    FrozenLoopIff(m, s, p, tmp, a, b1, fuel);
    AssignThen(m, tmp, operand, FrozenLoop(s, p, tmp), b, fuel);
    assert Hoisted(s, p, tmp) == [Assign(tmp, operand), FrozenLoop(s, p, tmp)];
  }

  // ----- The whole body -----

  // Wherever the statement runs, the two statements of the hoist do what it did.
  ghost predicate HoistKeeps(m: Meaning, s: Stmt, p: Path, tmp: string)
    requires Head(s).Some? && SubExpr(Head(s).value, p).Some?
  {
    forall fuel: nat, x, y {:trigger Exec(m, s, x, fuel), ExecSeq(m, Hoisted(s, p, tmp), y, fuel)} ::
      Agree(tmp, x, y) ==> SameBut(tmp, Exec(m, s, x, fuel), ExecSeq(m, Hoisted(s, p, tmp), y, fuel))
  }

  // The same for a declaration, whose variable lives on after it.
  ghost predicate Carries(m: Meaning, s: Stmt, p: Path, tmp: string)
    requires Head(s).Some? && SubExpr(Head(s).value, p).Some?
  {
    if s.Declare? then Movable(s, p) else HoistKeeps(m, s, p, tmp)
  }

  lemma {:induction false} MovableCarries(m: Meaning, s: Stmt, p: Path, tmp: string)
    requires Head(s).Some? && SubExpr(Head(s).value, p).Some? && Movable(s, p) && tmp !in Vars(s)
    ensures Carries(m, s, p, tmp) && HoistKeeps(m, s, p, tmp)
  {
    forall fuel: nat, x, y | Agree(tmp, x, y)
      ensures SameBut(tmp, Exec(m, s, x, fuel), ExecSeq(m, Hoisted(s, p, tmp), y, fuel))
    {
      HoistedRuns(m, s, p, tmp, x, y, fuel);
    }
  }

  ghost predicate HeadsAgreeFrom(m: Meaning, s: Stmt, p: Path, st: Store, fuel: nat)
    requires IsLoop(s) && SubExpr(s.e, p).Some?
  {
    HeadsAgree(m, s, p, Eval(m, SubExpr(s.e, p).value, st), st, fuel)
  }

  // For a loop: exactly when its heads agree from every store.
  lemma {:induction false} LoopCarriesIff(m: Meaning, s: Stmt, p: Path, tmp: string)
    requires IsLoop(s) && SubExpr(s.e, p).Some? && tmp !in Vars(s)
    ensures Carries(m, s, p, tmp) <==> forall st, fuel :: HeadsAgreeFrom(m, s, p, st, fuel)
  {
    if HoistKeeps(m, s, p, tmp) {
      forall st, fuel
        ensures HeadsAgreeFrom(m, s, p, st, fuel)
      {
        LoopHoistedIff(m, s, p, tmp, st, st, fuel);
      }
    } else {
      var fuel: nat, x, y :| Agree(tmp, x, y) && !SameBut(tmp, Exec(m, s, x, fuel), ExecSeq(m, Hoisted(s, p, tmp), y, fuel));
      LoopHoistedIff(m, s, p, tmp, x, y, fuel);
      assert !HeadsAgreeFrom(m, s, p, x, fuel);
    }
  }

  // Hoisting preserves the outcome for every store, every meaning of the operators and every
  // amount of fuel, in any nesting of statements: the result, if any, the store but for the
  // temporary, and divergence. It does unless the current statement does not allow it, as LoopCarriesIff says
  // of loops, or the braces cut off a declared variable.
  lemma {:induction false} HoistingPreserves(m: Meaning, s: Stmt, site: Site, tmp: string, a: Store, b: Store, fuel: nat)
    requires ValidSite(s, site) && Carries(m, SubStmt(s, site.stmt).value, site.expr, tmp)
    requires ScopeKept(s, site.stmt, site.needParen)
    requires tmp !in Vars(s) && Agree(tmp, a, b)
    ensures SameBut(tmp, Exec(m, s, a, fuel), Exec(m, Rewrite(s, site, tmp), b, fuel))
    decreases fuel, |site.stmt|
  {
    if site.stmt == [] {
      HoistedHere(m, s, site.expr, tmp, a, b, fuel);
    } else if s.Block? && |site.stmt| == 1 && !site.needParen {
      SplicePreserves(m, s, site, tmp, a, b, fuel);
    } else if s.Block? && |site.stmt| == 1 && s.body[site.stmt[0]].Declare? {
      CutOffPreserves(m, s, site, tmp, a, b, fuel);
    } else {
      var i := site.stmt[0];
      var rest := Site(site.stmt[1..], site.expr, site.needParen);
      var c := StmtChild(s, i).value;
      SiteBelow(s, site, tmp);
      var put := Rewrite(c, rest, tmp);
      match s
      case Block(ss) =>
        forall x, y | Agree(tmp, x, y)
          ensures SameBut(tmp, Exec(m, c, x, fuel), Exec(m, put, y, fuel))
        {
          HoistingPreserves(m, c, rest, tmp, x, y, fuel);
        }
        RewrittenNoDeclaration(c, rest, tmp);
        ChildRuns(m, ss, i, put, tmp, a, b, fuel);
      case If(_, _, _) =>
        HoistingPreserves(m, c, rest, tmp, a, b, fuel);
        IfRuns(m, s, i, put, tmp, a, b, fuel);
      case While(_, _) =>
        HoistingPreserves(m, c, rest, tmp, a, b, fuel);
        var ra, rb := Exec(m, c, a, fuel), Exec(m, put, b, fuel);
        if ra.Normal? && fuel > 0 {
          HoistingPreserves(m, s, site, tmp, ra.st, rb.st, fuel - 1);
        }
        WhileRuns(m, s, put, tmp, a, b, fuel);
      case Do(_, _) =>
        HoistingPreserves(m, c, rest, tmp, a, b, fuel);
        var ra, rb := Exec(m, c, a, fuel), Exec(m, put, b, fuel);
        if ra.Normal? && fuel > 0 {
          HoistingPreserves(m, s, site, tmp, ra.st, rb.st, fuel - 1);
        }
        DoRuns(m, s, put, tmp, a, b, fuel);
    }
  }

  // The two statements by themselves.
  lemma {:induction false} HoistedHere(m: Meaning, s: Stmt, p: Path, tmp: string, a: Store, b: Store, fuel: nat)
    requires Head(s).Some? && SubExpr(Head(s).value, p).Some? && Carries(m, s, p, tmp)
    requires tmp !in Vars(s) && Agree(tmp, a, b)
    ensures SameBut(tmp, Exec(m, s, a, fuel), Exec(m, Block(Hoisted(s, p, tmp)), b, fuel))
  {
    if s.Declare? {
      HoistedDeclares(m, s, p, tmp, b, fuel);
    } else {
      assert Exec(m, Block(Hoisted(s, p, tmp)), b, fuel) == ExecSeq(m, Hoisted(s, p, tmp), b, fuel);
    }
  }

  // And with other statements behind them.
  lemma {:induction false} CarriedThen(m: Meaning, s: Stmt, p: Path, tmp: string, rest: seq<Stmt>, a: Store, b: Store, fuel: nat)
    requires Head(s).Some? && SubExpr(Head(s).value, p).Some? && Carries(m, s, p, tmp)
    requires tmp !in Vars(s) && tmp !in VarsOfAll(rest) && Agree(tmp, a, b)
    ensures SameBut(tmp, ExecSeq(m, [s] + rest, a, fuel), ExecSeq(m, Hoisted(s, p, tmp) + rest, b, fuel))
  {
    if s.Declare? {
      DeclaredAfter(m, s, p, tmp, rest, a, b, fuel);
    } else {
      HoistedThen(m, s, p, tmp, rest, a, b, fuel);
    }
  }

  lemma {:induction false} SubStmtVars(s: Stmt, p: Path)
    requires SubStmt(s, p).Some?
    ensures Vars(SubStmt(s, p).value) <= Vars(s)
    decreases |p|
  {
    if p != [] {
      if s.Block? {
        VarsOfMember(s.body, p[0]);
      }
      SubStmtVars(StmtChild(s, p[0]).value, p[1..]);
    }
  }

  lemma {:induction false} SplicePreserves(m: Meaning, s: Stmt, site: Site, tmp: string, a: Store, b: Store, fuel: nat)
    requires ValidSite(s, site) && Carries(m, SubStmt(s, site.stmt).value, site.expr, tmp)
    requires s.Block? && |site.stmt| == 1 && !site.needParen && tmp !in Vars(s) && Agree(tmp, a, b)
    ensures SameBut(tmp, Exec(m, s, a, fuel), Exec(m, Rewrite(s, site, tmp), b, fuel))
  {
    var i, ss := site.stmt[0], s.body;
    var c, rest := ss[i], ss[i + 1..];
    assert site.stmt[1..] == [] && SubStmt(s, site.stmt) == SubStmt(c, []);
    var two := Hoisted(c, site.expr, tmp);
    PartsVars(ss, i);
    forall x, y | Agree(tmp, x, y)
      ensures SameBut(tmp, ExecSeq(m, [c] + rest, x, fuel), ExecSeq(m, two + rest, y, fuel))
    {
      CarriedThen(m, c, site.expr, tmp, rest, x, y, fuel);
    }
    PartRuns(m, ss, i, two, tmp, a, b, fuel);
    assert ss[..i] + two + rest == ss[..i] + (two + rest);
  }

  lemma {:induction false} CutOffPreserves(m: Meaning, s: Stmt, site: Site, tmp: string, a: Store, b: Store, fuel: nat)
    requires ValidSite(s, site) && ScopeKept(s, site.stmt, site.needParen)
    requires s.Block? && |site.stmt| == 1 && site.needParen && s.body[site.stmt[0]].Declare?
    requires tmp !in Vars(s) && Agree(tmp, a, b)
    ensures SameBut(tmp, Exec(m, s, a, fuel), Exec(m, Rewrite(s, site, tmp), b, fuel))
  {
    var i, ss := site.stmt[0], s.body;
    var c, rest := ss[i], ss[i + 1..];
    SiteBelow(s, site, tmp);
    assert site.stmt[1..] == [] && SubStmt(s, site.stmt) == SubStmt(c, []);
    var put := Block(Hoisted(c, site.expr, tmp));
    assert StmtChild(s, i) == Some(c) && c.x !in FreeOfAll(rest);
    assert Rewrite(s, site, tmp) == Block(ss[i := put]);
    PartsVars(ss, i);
    forall x, y | Agree(tmp, x, y)
      ensures SameBut(tmp, ExecSeq(m, [c] + rest, x, fuel), ExecSeq(m, [put] + rest, y, fuel))
    {
      CutOff(m, c, site.expr, tmp, rest, x, y, fuel);
    }
    PartRuns(m, ss, i, [put], tmp, a, b, fuel);
    assert ss[i := put] == ss[..i] + ([put] + rest);
  }

  // A site below a child is a site of that child.
  lemma {:induction false} SiteBelow(s: Stmt, site: Site, tmp: string)
    requires ValidSite(s, site) && site.stmt != [] && !(s.Block? && |site.stmt| == 1 && !site.needParen)
    ensures StmtChild(s, site.stmt[0]).Some?
    ensures
      var c := StmtChild(s, site.stmt[0]).value;
      var rest := Site(site.stmt[1..], site.expr, site.needParen);
      && Vars(c) <= Vars(s) && ValidSite(c, rest) && SubStmt(c, rest.stmt) == SubStmt(s, site.stmt)
      && Rewrite(s, site, tmp) == WithStmtChild(s, site.stmt[0], Rewrite(c, rest, tmp))
  {
    if s.Block? {
      VarsOfMember(s.body, site.stmt[0]);
    }
    assert |site.stmt| == 1 ==> site.stmt[1..] == [];
  }

  lemma {:induction false} PartsVars(ss: seq<Stmt>, i: nat)
    requires i < |ss|
    ensures VarsOfAll(ss) == VarsOfAll(ss[..i]) + Vars(ss[i]) + VarsOfAll(ss[i + 1..])
  {
    if i > 0 {
      PartsVars(ss[1..], i - 1);
      assert ss[1..][..i - 1] == ss[..i][1..] && ss[1..][i..] == ss[i + 1..];
    }
  }

  // What stands at a site is no declaration any more, but for a site that is itself in front of one.
  lemma {:induction false} RewrittenNoDeclaration(s: Stmt, site: Site, tmp: string)
    requires ValidSite(s, site)
    ensures !Rewrite(s, site, tmp).Declare?
  {
  }

  lemma {:induction false} IfRuns(m: Meaning, s: Stmt, i: nat, put: Stmt, tmp: string, a: Store, b: Store, fuel: nat)
    requires s.If? && StmtChild(s, i).Some? && tmp !in Vars(s) && Agree(tmp, a, b)
    requires SameBut(tmp, Exec(m, StmtChild(s, i).value, a, fuel), Exec(m, put, b, fuel))
    ensures SameBut(tmp, Exec(m, s, a, fuel), Exec(m, WithStmtChild(s, i, put), b, fuel))
  {
    EvalBut(m, s.e, tmp, a, b);
    if i == 0 {
      if s.els.Some? {
        ExecAgrees(m, s.els.value, tmp, a, b, fuel);
      }
    } else {
      ExecAgrees(m, s.thn, tmp, a, b, fuel);
    }
  }

  lemma {:induction false} WhileRuns(m: Meaning, s: Stmt, put: Stmt, tmp: string, a: Store, b: Store, fuel: nat)
    requires s.While? && tmp !in Vars(s) && Agree(tmp, a, b)
    requires SameBut(tmp, Exec(m, s.loop, a, fuel), Exec(m, put, b, fuel))
    requires Exec(m, s.loop, a, fuel).Normal? && fuel > 0 ==>
               SameBut(tmp, Exec(m, s, Exec(m, s.loop, a, fuel).st, fuel - 1),
                       Exec(m, While(s.e, put), Exec(m, put, b, fuel).st, fuel - 1))
    ensures SameBut(tmp, Exec(m, s, a, fuel), Exec(m, While(s.e, put), b, fuel))
  {
    EvalBut(m, s.e, tmp, a, b);
  }

  lemma {:induction false} DoRuns(m: Meaning, s: Stmt, put: Stmt, tmp: string, a: Store, b: Store, fuel: nat)
    requires s.Do? && tmp !in Vars(s) && Agree(tmp, a, b)
    requires SameBut(tmp, Exec(m, s.loop, a, fuel), Exec(m, put, b, fuel))
    requires Exec(m, s.loop, a, fuel).Normal? && fuel > 0 ==>
               SameBut(tmp, Exec(m, s, Exec(m, s.loop, a, fuel).st, fuel - 1),
                       Exec(m, Do(put, s.e), Exec(m, put, b, fuel).st, fuel - 1))
    ensures SameBut(tmp, Exec(m, s, a, fuel), Exec(m, Do(put, s.e), b, fuel))
  {
    var ra, rb := Exec(m, s.loop, a, fuel), Exec(m, put, b, fuel);
    if ra.Normal? {
      EvalBut(m, s.e, tmp, ra.st, rb.st);
    }
  }

  // From agreeing stores the second statement does what the first does.
  ghost predicate Simulates(m: Meaning, s: Stmt, s': Stmt, tmp: string, fuel: nat) {
    forall x, y {:trigger Exec(m, s, x, fuel), Exec(m, s', y, fuel)} ::
      Agree(tmp, x, y) ==> SameBut(tmp, Exec(m, s, x, fuel), Exec(m, s', y, fuel))
  }

  // The same for lists.
  ghost predicate SimulatesAll(m: Meaning, ts: seq<Stmt>, ts': seq<Stmt>, tmp: string, fuel: nat) {
    forall x, y {:trigger ExecSeq(m, ts, x, fuel), ExecSeq(m, ts', y, fuel)} ::
      Agree(tmp, x, y) ==> SameBut(tmp, ExecSeq(m, ts, x, fuel), ExecSeq(m, ts', y, fuel))
  }

  // A list whose tail is replaced by one that does the same.
  lemma {:induction false} PrefixRuns(m: Meaning, pre: seq<Stmt>, ts: seq<Stmt>, ts': seq<Stmt>, tmp: string,
                                      a: Store, b: Store, fuel: nat)
    requires tmp !in VarsOfAll(pre) && Agree(tmp, a, b) && SimulatesAll(m, ts, ts', tmp, fuel)
    ensures SameBut(tmp, ExecSeq(m, pre + ts, a, fuel), ExecSeq(m, pre + ts', b, fuel))
    decreases |pre|
  {
    if pre == [] {
      assert pre + ts == ts && pre + ts' == ts';
    } else {
      assert (pre + ts)[0] == pre[0] == (pre + ts')[0];
      assert (pre + ts)[1..] == pre[1..] + ts && (pre + ts')[1..] == pre[1..] + ts';
      if pre[0].Declare? {
        var x, e := pre[0].x, pre[0].e;
        InitialAgrees(m, x, e, {tmp}, a, b);
        var v := Initial(m, x, e, a);
        AgreeAfterAssign({tmp}, a, b, x, v);
        PrefixRuns(m, pre[1..], ts, ts', tmp, a[x := v], b[x := v], fuel);
        assert {tmp} - {x} == {tmp};
        SameAfterLeft({tmp}, ExecSeq(m, pre[1..] + ts, a[x := v], fuel), ExecSeq(m, pre[1..] + ts', b[x := v], fuel), a, b, x);
      } else {
        ExecAgrees(m, pre[0], tmp, a, b, fuel);
        var ra, rb := Exec(m, pre[0], a, fuel), Exec(m, pre[0], b, fuel);
        if ra.Normal? {
          PrefixRuns(m, pre[1..], ts, ts', tmp, ra.st, rb.st, fuel);
        }
      }
    }
  }

  // One statement, and then the rest.
  lemma {:induction false} ThenRest(m: Meaning, s: Stmt, rest: seq<Stmt>, st: Store, fuel: nat)
    requires !s.Declare?
    ensures
      var r := Exec(m, s, st, fuel);
      ExecSeq(m, [s] + rest, st, fuel) == if r.Normal? then ExecSeq(m, rest, r.st, fuel) else r
  {
    assert ([s] + rest)[1..] == rest;
  }

  lemma {:induction false} DeclareThenRest(m: Meaning, s: Stmt, rest: seq<Stmt>, st: Store, fuel: nat)
    requires s.Declare?
    ensures ExecSeq(m, [s] + rest, st, fuel) ==
            Left(ExecSeq(m, rest, st[s.x := Initial(m, s.x, s.e, st)], fuel), st, s.x)
  {
    assert ([s] + rest)[1..] == rest;
  }

  // The two statements of the hoist, and then the rest.
  lemma {:induction false} TwoThenRest(m: Meaning, s: Stmt, p: Path, tmp: string, rest: seq<Stmt>, st: Store, fuel: nat)
    requires Head(s).Some? && SubExpr(Head(s).value, p).Some?
    ensures
      var two := Hoisted(s, p, tmp);
      var st1 := st[tmp := Eval(m, SubExpr(Head(s).value, p).value, st)];
      && ExecSeq(m, two + rest, st, fuel) == ExecSeq(m, [two[1]] + rest, st1, fuel)
      && ExecSeq(m, two, st, fuel) == Exec(m, two[1], st1, fuel)
  {
    var two := Hoisted(s, p, tmp);
    assert two + rest == [two[0]] + ([two[1]] + rest);
    ThenRest(m, two[0], [two[1]] + rest, st, fuel);
    AssignThen(m, tmp, SubExpr(Head(s).value, p).value, two[1], st, fuel);
    assert two == [two[0], two[1]];
  }

  // Statement i of a list does the same as another one.
  lemma {:induction false} ChildRuns(m: Meaning, ss: seq<Stmt>, i: nat, put: Stmt, tmp: string, a: Store, b: Store, fuel: nat)
    requires i < |ss| && tmp !in VarsOfAll(ss) && Agree(tmp, a, b)
    requires !ss[i].Declare? && !put.Declare? && Simulates(m, ss[i], put, tmp, fuel)
    ensures SameBut(tmp, ExecSeq(m, ss, a, fuel), ExecSeq(m, ss[i := put], b, fuel))
  {
    var c, rest := ss[i], ss[i + 1..];
    PartsVars(ss, i);
    forall x, y | Agree(tmp, x, y)
      ensures SameBut(tmp, ExecSeq(m, [c] + rest, x, fuel), ExecSeq(m, [put] + rest, y, fuel))
    {
      OneThenRest(m, c, put, rest, tmp, x, y, fuel);
    }
    PartRuns(m, ss, i, [put], tmp, a, b, fuel);
    assert ss[i := put] == ss[..i] + ([put] + rest);
  }

  lemma {:induction false} OneThenRest(m: Meaning, c: Stmt, put: Stmt, rest: seq<Stmt>, tmp: string, x: Store, y: Store, fuel: nat)
    requires !c.Declare? && !put.Declare? && Simulates(m, c, put, tmp, fuel) && tmp !in VarsOfAll(rest) && Agree(tmp, x, y)
    ensures SameBut(tmp, ExecSeq(m, [c] + rest, x, fuel), ExecSeq(m, [put] + rest, y, fuel))
  {
    ThenRest(m, c, rest, x, fuel);
    ThenRest(m, put, rest, y, fuel);
    var rx, ry := Exec(m, c, x, fuel), Exec(m, put, y, fuel);
    if rx.Normal? {
      ExecSeqAgrees(m, rest, tmp, rx.st, ry.st, fuel);
    }
  }

  // Other statements in the place of statement i.
  lemma {:induction false} PartRuns(m: Meaning, ss: seq<Stmt>, i: nat, news: seq<Stmt>, tmp: string, a: Store, b: Store, fuel: nat)
    requires i < |ss| && tmp !in VarsOfAll(ss) && Agree(tmp, a, b)
    requires SimulatesAll(m, [ss[i]] + ss[i + 1..], news + ss[i + 1..], tmp, fuel)
    ensures SameBut(tmp, ExecSeq(m, ss, a, fuel), ExecSeq(m, ss[..i] + (news + ss[i + 1..]), b, fuel))
  {
    var rest := ss[i + 1..];
    PartsVars(ss, i);
    PrefixRuns(m, ss[..i], [ss[i]] + rest, news + rest, tmp, a, b, fuel);
    assert ss == ss[..i] + ([ss[i]] + rest);
  }

  // A statement that is replaced by the two of the hoist, and the rest of its list.
  lemma {:induction false} HoistedThen(m: Meaning, s: Stmt, p: Path, tmp: string, rest: seq<Stmt>, a: Store, b: Store, fuel: nat)
    requires Head(s).Some? && SubExpr(Head(s).value, p).Some? && !s.Declare? && HoistKeeps(m, s, p, tmp)
    requires tmp !in VarsOfAll(rest) && Agree(tmp, a, b)
    ensures SameBut(tmp, ExecSeq(m, [s] + rest, a, fuel), ExecSeq(m, Hoisted(s, p, tmp) + rest, b, fuel))
  {
    var two := Hoisted(s, p, tmp);
    var b1 := b[tmp := Eval(m, SubExpr(Head(s).value, p).value, b)];
    TwoThenRest(m, s, p, tmp, rest, b, fuel);
    ThenRest(m, s, rest, a, fuel);
    ThenRest(m, two[1], rest, b1, fuel);
    var ra, rb := Exec(m, s, a, fuel), Exec(m, two[1], b1, fuel);
    assert SameBut(tmp, ra, ExecSeq(m, two, b, fuel));
    if ra.Normal? {
      ExecSeqAgrees(m, rest, tmp, ra.st, rb.st, fuel);
    }
  }

  // A declaration behind its assignment gives its variable the same value.
  lemma {:induction false} DeclaredAfter(m: Meaning, s: Stmt, p: Path, tmp: string, rest: seq<Stmt>, a: Store, b: Store, fuel: nat)
    requires s.Declare? && SubExpr(s.e, p).Some? && Movable(s, p)
    requires tmp !in Vars(s) && tmp !in VarsOfAll(rest) && Agree(tmp, a, b)
    ensures SameBut(tmp, ExecSeq(m, [s] + rest, a, fuel), ExecSeq(m, Hoisted(s, p, tmp) + rest, b, fuel))
  {
    var x, operand, two := s.x, SubExpr(s.e, p).value, Hoisted(s, p, tmp);
    SubExprVars(s.e, p);
    EvalBut(m, operand, tmp, a, b);
    EvalOff(m, operand, {x}, a[x := 0], a);
    var b1 := b[tmp := Eval(m, operand, b)];
    AgreeAfterAssign({tmp}, a, b1, x, 0);
    ReplacedValue(m, s.e, p, tmp, a[x := 0], b1[x := 0]);
    var v := Initial(m, x, s.e, a);
    assert Initial(m, x, two[1].e, b1) == v;
    AgreeAfterAssign({tmp}, a, b1, x, v);
    ExecSeqAgrees(m, rest, tmp, a[x := v], b1[x := v], fuel);
    assert {tmp} - {x} == {tmp};
    SameAfterLeft({tmp}, ExecSeq(m, rest, a[x := v], fuel), ExecSeq(m, rest, b1[x := v], fuel), a, b1, x);
    DeclareThenRest(m, s, rest, a, fuel);
    TwoThenRest(m, s, p, tmp, rest, b, fuel);
    DeclareThenRest(m, two[1], rest, b1, fuel);
  }

  // A declaration alone in braces leaves the temporary only.
  lemma {:induction false} HoistedDeclares(m: Meaning, s: Stmt, p: Path, tmp: string, b: Store, fuel: nat)
    requires s.Declare? && SubExpr(s.e, p).Some?
    ensures Exec(m, Block(Hoisted(s, p, tmp)), b, fuel) == Normal(b[tmp := Eval(m, SubExpr(s.e, p).value, b)])
  {
    TwoThenRest(m, s, p, tmp, [], b, fuel);
  }

  // A variable that the rest of the list does not use can be cut off from it.
  lemma {:induction false} CutOff(m: Meaning, s: Stmt, p: Path, tmp: string, rest: seq<Stmt>, a: Store, b: Store, fuel: nat)
    requires s.Declare? && SubExpr(s.e, p).Some? && s.x !in FreeOfAll(rest)
    requires tmp !in Vars(s) && tmp !in VarsOfAll(rest) && Agree(tmp, a, b)
    ensures SameBut(tmp, ExecSeq(m, [s] + rest, a, fuel), ExecSeq(m, [Block(Hoisted(s, p, tmp))] + rest, b, fuel))
  {
    var x, put := s.x, Block(Hoisted(s, p, tmp));
    var b1 := b[tmp := Eval(m, SubExpr(s.e, p).value, b)];
    HoistedDeclares(m, s, p, tmp, b, fuel);
    ThenRest(m, put, rest, b, fuel);
    DeclareThenRest(m, s, rest, a, fuel);
    var a1 := a[x := Initial(m, x, s.e, a)];
    FreeOfAllAreVars(rest);
    ExecSeqAgreesOff(m, rest, {tmp, x}, a1, b1, fuel);
    AssignedByAllAreFree(rest);
    ExecSeqKeeps(m, rest, x, b1, fuel);
    var ra, rb := ExecSeq(m, rest, a1, fuel), ExecSeq(m, rest, b1, fuel);
    if !ra.OutOfFuel? {
      forall y | y != tmp
        ensures Get(Back(ra.st, a, x), y) == Get(rb.st, y)
      {
        GetBack(ra.st, a, x, y);
      }
    }
  }
}
