/**
 What the traversal of clang_delta/CommonStatementVisitor.h finds in a function body for
 clang_delta/BinOpSimplification.cpp: the operands that can be hoisted, each with its current
 statement and the flag that asks for braces.
 */
module BinOpSites {
  import opened Collections
  import opened Wrappers
  import opened StmtLanguage
  import opened Hoisting

  // ----- What the traversal finds -----

  // Operands found in an expression that is traversed, in order. The traversal stops at the
  // first binary operator outside its own operands, since VisitBinaryOperator returns false.
  function Found(e: Expr, at: Path): seq<Path> {
    match e
    case Lit(_) => []
    case Var(_) => []
    case Paren(sub) => Found(sub, at + [0])
    case Cast(_, sub) => Found(sub, at + [0])
    case Unary(_, sub) => Found(sub, at + [0])
    case Bin(_, l, r) => FoundOperand(l, at + [0]) + FoundOperand(r, at + [1])
    case Cond(c, t, f) =>
      Found(c, at + [0])
      + (if HasBin(c) then [] else Found(t, at + [1]))
      + (if HasBin(c) || HasBin(t) then [] else Found(f, at + [2]))
  }

  // handleSubExpr: an operand counts when, under parentheses and casts, it is a binary operator.
  function FoundOperand(e: Expr, at: Path): seq<Path> {
    match e
    case Paren(sub) => FoundOperand(sub, at + [0])
    case Cast(_, sub) => FoundOperand(sub, at + [0])
    case Bin(_, l, r) => [at] + FoundOperand(l, at + [0]) + FoundOperand(r, at + [1])
    case _ => []
  }

  predicate HasBin(e: Expr) {
    match e
    case Lit(_) => false
    case Var(_) => false
    case Paren(sub) => HasBin(sub)
    case Cast(_, sub) => HasBin(sub)
    case Unary(_, sub) => HasBin(sub)
    case Bin(_, _, _) => true
    case Cond(c, t, f) => HasBin(c) || HasBin(t) || HasBin(f)
  }

  function At(stmt: Path, ps: seq<Path>, needParen: bool): seq<Site> {
    seq(|ps|, i requires 0 <= i < |ps| => Site(stmt, ps[i], needParen))
  }

  // The sites found in a statement that stands at a path, and the brace flag afterwards.
  function Sites(s: Stmt, at: Path, needParen: bool): (seq<Site>, bool)
    decreases s, 1
  {
    match s
    case Assign(_, e) => (At(at, Found(e, []), needParen), needParen)
    case Update(_, _, e) => (At(at, FoundOperand(e, []), needParen), needParen)
    case Return(e) => (At(at, Found(e, []), needParen), needParen)
    case Declare(_, e) => (At(at, Found(e, []), needParen), needParen)
    case Block(ss) => SitesOfAll(ss, 0, at, needParen)
    case If(c, t, f) =>
      var (inThen, np1) := SitesOfBranch(t, at + [0], needParen);
      var (inElse, np2) := if f.Some? then SitesOfBranch(f.value, at + [1], np1) else ([], np1);
      (At(at, Found(c, []), needParen) + inThen + inElse, np2)
    case While(c, b) =>
      var (inBody, np1) := SitesOfBranch(b, at + [0], needParen);
      (At(at, Found(c, []), needParen) + inBody, np1)
    case Do(b, c) =>
      var (inBody, np1) := SitesOfBranch(b, at + [0], needParen);
      (At(at, Found(c, []), needParen) + inBody, np1)
  }

  function SitesOfAll(ss: seq<Stmt>, i: nat, at: Path, needParen: bool): (seq<Site>, bool)
    requires i <= |ss|
    decreases ss, 1, |ss| - i
  {
    if i == |ss| then ([], needParen)
    else
      var (first, np1) := Sites(ss[i], at + [i], needParen);
      var (rest, np2) := SitesOfAll(ss, i + 1, at, np1);
      (first + rest, np2)
  }

  // visitNonCompoundStmt
  function SitesOfBranch(s: Stmt, at: Path, needParen: bool): (seq<Site>, bool)
    decreases s, 2
  {
    if s.Block? then Sites(s, at, needParen) else (Sites(s, at, true).0, false)
  }

  // ----- Every site found can be rewritten -----

  lemma {:induction false} SubExprStep(root: Expr, p: Path, i: nat)
    requires SubExpr(root, p).Some?
    ensures SubExpr(root, p + [i]) == Child(SubExpr(root, p).value, i)
    decreases |p|
  {
    if p == [] {
      assert [i][1..] == [];
    } else {
      assert (p + [i])[1..] == p[1..] + [i];
      SubExprStep(Child(root, p[0]).value, p[1..], i);
    }
  }

  lemma {:induction false} SubStmtStep(root: Stmt, p: Path, i: nat)
    requires SubStmt(root, p).Some?
    ensures SubStmt(root, p + [i]) == StmtChild(SubStmt(root, p).value, i)
    decreases |p|
  {
    if p == [] {
      assert [i][1..] == [];
    } else {
      assert (p + [i])[1..] == p[1..] + [i];
      SubStmtStep(StmtChild(root, p[0]).value, p[1..], i);
    }
  }

  ghost predicate AllBinOps(root: Expr, ps: seq<Path>) {
    forall p :: p in ps ==> SubExpr(root, p).Some? && SubExpr(root, p).value.Bin?
  }

  lemma {:induction false} FoundAreBinOps(root: Expr, e: Expr, at: Path)
    requires SubExpr(root, at) == Some(e)
    ensures AllBinOps(root, Found(e, at))
    decreases e
  {
    forall i
      ensures SubExpr(root, at + [i]) == Child(e, i)
    {
      SubExprStep(root, at, i);
    }
    match e
    case Lit(_) =>
    case Var(_) =>
    case Paren(sub) => FoundAreBinOps(root, sub, at + [0]);
    case Cast(_, sub) => FoundAreBinOps(root, sub, at + [0]);
    case Unary(_, sub) => FoundAreBinOps(root, sub, at + [0]);
    case Bin(_, l, r) => FoundOperandsAreBinOps(root, l, at + [0]); FoundOperandsAreBinOps(root, r, at + [1]);
    case Cond(c, t, f) =>
      FoundAreBinOps(root, c, at + [0]);
      FoundAreBinOps(root, t, at + [1]);
      FoundAreBinOps(root, f, at + [2]);
  }

  lemma {:induction false} FoundOperandsAreBinOps(root: Expr, e: Expr, at: Path)
    requires SubExpr(root, at) == Some(e)
    ensures AllBinOps(root, FoundOperand(e, at))
    decreases e
  {
    forall i
      ensures SubExpr(root, at + [i]) == Child(e, i)
    {
      SubExprStep(root, at, i);
    }
    match e
    case Paren(sub) => FoundOperandsAreBinOps(root, sub, at + [0]);
    case Cast(_, sub) => FoundOperandsAreBinOps(root, sub, at + [0]);
    case Bin(_, l, r) => FoundOperandsAreBinOps(root, l, at + [0]); FoundOperandsAreBinOps(root, r, at + [1]);
    case _ =>
  }

  // Inside a block any flag will do; elsewhere the flag must be set.
  lemma {:induction false} BracesInBlock(root: Stmt, p: Path, i: nat, needParen: bool)
    requires SubStmt(root, p).Some? && SubStmt(root, p).value.Block?
    requires StmtChild(SubStmt(root, p).value, i).Some?
    ensures BracesWhereNeeded(root, p + [i], needParen)
    decreases |p|
  {
    if p != [] {
      assert (p + [i])[1..] == p[1..] + [i];
      BracesInBlock(StmtChild(root, p[0]).value, p[1..], i, needParen);
    }
  }

  lemma {:induction false} BracesAlwaysFine(root: Stmt, p: Path)
    requires SubStmt(root, p).Some?
    ensures BracesWhereNeeded(root, p, true)
    decreases |p|
  {
    if p != [] {
      BracesAlwaysFine(StmtChild(root, p[0]).value, p[1..]);
    }
  }

  ghost predicate AllValid(root: Stmt, sites: seq<Site>) {
    forall site :: site in sites ==>
      && ValidSite(root, site)
      && SubExpr(Head(SubStmt(root, site.stmt).value).value, site.expr).value.Bin?
  }

  lemma HeadSitesValid(root: Stmt, at: Path, s: Stmt, ps: seq<Path>, needParen: bool)
    requires SubStmt(root, at) == Some(s) && Head(s).Some? && BracesWhereNeeded(root, at, needParen)
    requires AllBinOps(Head(s).value, ps)
    ensures AllValid(root, At(at, ps, needParen))
  {
    forall site | site in At(at, ps, needParen)
      ensures site.stmt == at && site.expr in ps && site.needParen == needParen
    {
    }
  }

  // The state of the visitor is right for every site: the current statement is the one that holds the
  // operand, and the flag asks for braces wherever they are needed.
  lemma {:induction false} SitesAreValid(root: Stmt, s: Stmt, at: Path, needParen: bool)
    requires SubStmt(root, at) == Some(s)
    requires s.Block? || BracesWhereNeeded(root, at, needParen)
    ensures AllValid(root, Sites(s, at, needParen).0)
    decreases s, 1
  {
    if !s.Block? {
      var e := s.e;
      assert SubExpr(e, []) == Some(e);
      FoundAreBinOps(e, e, []);
      FoundOperandsAreBinOps(e, e, []);
      HeadSitesValid(root, at, s, Found(e, []), needParen);
      HeadSitesValid(root, at, s, FoundOperand(e, []), needParen);
    }
    match s
    case Assign(_, _) =>
    case Update(_, _, _) =>
    case Return(_) =>
    case Declare(_, _) =>
    case Block(ss) => SitesOfAllAreValid(root, ss, 0, at, needParen);
    case If(_, t, f) =>
      BranchIsValid(root, at, 0, t, needParen);
      if f.Some? {
        BranchIsValid(root, at, 1, f.value, SitesOfBranch(t, at + [0], needParen).1);
      }
    case While(_, b) => BranchIsValid(root, at, 0, b, needParen);
    case Do(b, _) => BranchIsValid(root, at, 0, b, needParen);
  }

  lemma {:induction false} BranchIsValid(root: Stmt, at: Path, i: nat, b: Stmt, needParen: bool)
    requires SubStmt(root, at).Some? && StmtChild(SubStmt(root, at).value, i) == Some(b)
    ensures AllValid(root, SitesOfBranch(b, at + [i], needParen).0)
    decreases b, 2
  {
    SubStmtStep(root, at, i);
    BracesAlwaysFine(root, at + [i]);
    SitesAreValid(root, b, at + [i], if b.Block? then needParen else true);
  }

  lemma {:induction false} SitesOfAllAreValid(root: Stmt, ss: seq<Stmt>, i: nat, at: Path, needParen: bool)
    requires i <= |ss| && SubStmt(root, at) == Some(Block(ss))
    ensures AllValid(root, SitesOfAll(ss, i, at, needParen).0)
    decreases ss, 1, |ss| - i
  {
    if i < |ss| {
      SubStmtStep(root, at, i);
      BracesInBlock(root, at, i, needParen);
      SitesAreValid(root, ss[i], at + [i], needParen);
      SitesOfAllAreValid(root, ss, i + 1, at, Sites(ss[i], at + [i], needParen).1);
    }
  }

  // ----- No operand is found twice -----

  lemma DistinctConcat<T>(xs: seq<T>, ys: seq<T>)
    requires NoDuplicates(xs) && NoDuplicates(ys) && forall x :: x in xs ==> x !in ys
    ensures NoDuplicates(xs + ys)
  {
    forall i, j | 0 <= i < j < |xs + ys|
      ensures (xs + ys)[i] != (xs + ys)[j]
    {
      if i < |xs| <= j {
        assert xs[i] in xs && ys[j - |xs|] in ys;
      }
    }
  }

  // All paths go through at.
  predicate Through(at: Path, ps: seq<Path>) {
    forall p :: p in ps ==> at <= p
  }

  lemma ThroughDisjoint(at: Path, i: nat, j: nat, ps: seq<Path>, qs: seq<Path>)
    requires Through(at + [i], ps) && Through(at + [j], qs) && i != j
    ensures forall p :: p in ps ==> p !in qs
    ensures Through(at, ps) && Through(at, qs) && at !in ps && at !in qs
  {
    forall p | p in ps
      ensures p !in qs && at <= p && p != at
    {
      assert p[|at|] == i;
    }
    forall p | p in qs
      ensures at <= p && p != at
    {
      assert p[|at|] == j;
    }
  }

  lemma {:induction false} FoundDistinct(e: Expr, at: Path)
    ensures NoDuplicates(Found(e, at)) && Through(at, Found(e, at))
    decreases e
  {
    match e
    case Lit(_) =>
    case Var(_) =>
    case Paren(sub) => FoundDistinct(sub, at + [0]); ThroughDisjoint(at, 0, 1, Found(sub, at + [0]), []);
    case Cast(_, sub) => FoundDistinct(sub, at + [0]); ThroughDisjoint(at, 0, 1, Found(sub, at + [0]), []);
    case Unary(_, sub) => FoundDistinct(sub, at + [0]); ThroughDisjoint(at, 0, 1, Found(sub, at + [0]), []);
    case Bin(_, l, r) =>
      FoundOperandDistinct(l, at + [0]);
      FoundOperandDistinct(r, at + [1]);
      var xs, ys := FoundOperand(l, at + [0]), FoundOperand(r, at + [1]);
      ThroughDisjoint(at, 0, 1, xs, ys);
      DistinctConcat(xs, ys);
    case Cond(c, t, f) =>
      FoundDistinct(c, at + [0]);
      FoundDistinct(t, at + [1]);
      FoundDistinct(f, at + [2]);
      var xs := Found(c, at + [0]);
      var ys := if HasBin(c) then [] else Found(t, at + [1]);
      var zs := if HasBin(c) || HasBin(t) then [] else Found(f, at + [2]);
      ThroughDisjoint(at, 0, 1, xs, ys);
      ThroughDisjoint(at, 0, 2, xs, zs);
      ThroughDisjoint(at, 1, 2, ys, zs);
      DistinctConcat(xs, ys);
      DistinctConcat(xs + ys, zs);
  }

  lemma {:induction false} FoundOperandDistinct(e: Expr, at: Path)
    ensures NoDuplicates(FoundOperand(e, at)) && Through(at, FoundOperand(e, at))
    decreases e
  {
    match e
    case Paren(sub) => FoundOperandDistinct(sub, at + [0]); ThroughDisjoint(at, 0, 1, FoundOperand(sub, at + [0]), []);
    case Cast(_, sub) => FoundOperandDistinct(sub, at + [0]); ThroughDisjoint(at, 0, 1, FoundOperand(sub, at + [0]), []);
    case Bin(_, l, r) =>
      FoundOperandDistinct(l, at + [0]);
      FoundOperandDistinct(r, at + [1]);
      var xs, ys := FoundOperand(l, at + [0]), FoundOperand(r, at + [1]);
      ThroughDisjoint(at, 0, 1, xs, ys);
      DistinctConcat(xs, ys);
      DistinctConcat([at], xs + ys);
      assert [at] + xs + ys == [at] + (xs + ys);
    case _ =>
  }

  ghost predicate DistinctOperands(sites: seq<Site>) {
    forall i, j :: 0 <= i < j < |sites| ==> sites[i].stmt != sites[j].stmt || sites[i].expr != sites[j].expr
  }

  ghost predicate StmtsThrough(at: Path, sites: seq<Site>) {
    forall site :: site in sites ==> at <= site.stmt
  }

  lemma DistinctOperandsConcat(xs: seq<Site>, ys: seq<Site>)
    requires DistinctOperands(xs) && DistinctOperands(ys)
    requires forall x, y :: x in xs && y in ys ==> x.stmt != y.stmt
    ensures DistinctOperands(xs + ys)
  {
    forall i, j | 0 <= i < |xs| && 0 <= j < |ys|
      ensures xs[i].stmt != ys[j].stmt
    {
      assert xs[i] in xs && ys[j] in ys;
    }
  }

  lemma StmtsApart(at: Path, i: nat, xs: seq<Site>)
    requires StmtsThrough(at + [i], xs)
    ensures forall x :: x in xs ==> at <= x.stmt && |x.stmt| > |at| && x.stmt[|at|] == i
  {
    forall x | x in xs
      ensures at <= x.stmt && |x.stmt| > |at| && x.stmt[|at|] == i
    {
      assert x.stmt[|at|] == (at + [i])[|at|];
    }
  }

  // The assertion that an operand is not yet among the collected ones never fails within a body.
  lemma {:induction false} SitesDistinct(s: Stmt, at: Path, needParen: bool)
    ensures DistinctOperands(Sites(s, at, needParen).0) && StmtsThrough(at, Sites(s, at, needParen).0)
    decreases s, 1
  {
    if !s.Block? {
      FoundDistinct(s.e, []);
      FoundOperandDistinct(s.e, []);
    }
    match s
    case Assign(_, _) =>
    case Update(_, _, _) =>
    case Return(_) =>
    case Declare(_, _) =>
    case Block(ss) => SitesOfAllDistinct(ss, 0, at, needParen);
    case If(c, t, f) =>
      BranchDistinct(t, at, 0, needParen);
      HeadAndBranch(c, t, at, needParen);
      if f.Some? {
        var (inThen, np1) := SitesOfBranch(t, at + [0], needParen);
        BranchDistinct(f.value, at, 1, np1);
        DistinctOperandsConcat(At(at, Found(c, []), needParen) + inThen, SitesOfBranch(f.value, at + [1], np1).0);
      }
    case While(c, b) =>
      BranchDistinct(b, at, 0, needParen);
      HeadAndBranch(c, b, at, needParen);
    case Do(b, c) =>
      BranchDistinct(b, at, 0, needParen);
      HeadAndBranch(c, b, at, needParen);
  }

  // The operands of a condition and those of the first branch.
  lemma HeadAndBranch(c: Expr, b: Stmt, at: Path, needParen: bool)
    requires DistinctOperands(SitesOfBranch(b, at + [0], needParen).0)
    requires forall x :: x in SitesOfBranch(b, at + [0], needParen).0 ==> at <= x.stmt && |x.stmt| > |at| && x.stmt[|at|] == 0
    ensures
      var both := At(at, Found(c, []), needParen) + SitesOfBranch(b, at + [0], needParen).0;
      DistinctOperands(both) && StmtsThrough(at, both)
      && forall x :: x in both ==> x.stmt == at || (|x.stmt| > |at| && x.stmt[|at|] == 0)
  {
    FoundDistinct(c, []);
    DistinctOperandsConcat(At(at, Found(c, []), needParen), SitesOfBranch(b, at + [0], needParen).0);
  }

  lemma {:induction false} BranchDistinct(b: Stmt, at: Path, i: nat, needParen: bool)
    ensures DistinctOperands(SitesOfBranch(b, at + [i], needParen).0)
    ensures forall x :: x in SitesOfBranch(b, at + [i], needParen).0 ==> at <= x.stmt && |x.stmt| > |at| && x.stmt[|at|] == i
    decreases b, 2
  {
    SitesDistinct(b, at + [i], if b.Block? then needParen else true);
    StmtsApart(at, i, SitesOfBranch(b, at + [i], needParen).0);
  }

  lemma {:induction false} SitesOfAllDistinct(ss: seq<Stmt>, i: nat, at: Path, needParen: bool)
    requires i <= |ss|
    ensures DistinctOperands(SitesOfAll(ss, i, at, needParen).0)
    ensures forall x :: x in SitesOfAll(ss, i, at, needParen).0 ==> at <= x.stmt && |x.stmt| > |at| && x.stmt[|at|] >= i
    decreases ss, 1, |ss| - i
  {
    if i < |ss| {
      var (first, np1) := Sites(ss[i], at + [i], needParen);
      SitesDistinct(ss[i], at + [i], needParen);
      StmtsApart(at, i, first);
      SitesOfAllDistinct(ss, i + 1, at, np1);
      DistinctOperandsConcat(first, SitesOfAll(ss, i + 1, at, np1).0);
    }
  }

  // ----- Functions inside functions -----

  // A function and those defined inside its body, as the methods of local classes.
  datatype Function = Function(body: Stmt, nested: seq<Function>)

  // An operand in the function at a path.
  datatype Operand = Operand(fun: Path, stmt: Path, expr: Path)

  function Own(body: Stmt, at: Path): (ops: seq<Operand>)
    ensures |ops| == |Sites(body, [], false).0|
  {
    var sites := Sites(body, [], false).0;
    seq(|sites|, i requires 0 <= i < |sites| => Operand(at, sites[i].stmt, sites[i].expr))
  }

  // TraverseDecl of the statement visitor goes into the functions inside; where among the others their
  // operands come does not matter here.
  function Walk(f: Function, at: Path): seq<Operand>
    decreases f, 1
  {
    Own(f.body, at) + WalkAll(f.nested, 0, at)
  }

  function WalkAll(fs: seq<Function>, i: nat, at: Path): seq<Operand>
    requires i <= |fs|
    decreases fs, 0, |fs| - i
  {
    if i == |fs| then [] else Walk(fs[i], at + [i]) + WalkAll(fs, i + 1, at)
  }

  // The collecting visitor comes to every function, and starts that traversal at each.
  function Collected(f: Function, at: Path): seq<Operand>
    decreases f, 1
  {
    Walk(f, at) + CollectedFrom(f.nested, 0, at)
  }

  function CollectedFrom(fs: seq<Function>, i: nat, at: Path): seq<Operand>
    requires i <= |fs|
    decreases fs, 0, |fs| - i
  {
    if i == |fs| then [] else Collected(fs[i], at + [i]) + CollectedFrom(fs, i + 1, at)
  }

  // An operand in the function or in one inside it.
  predicate HasOperands(f: Function) {
    Sites(f.body, [], false).0 != [] || exists i :: 0 <= i < |f.nested| && HasOperands(f.nested[i])
  }

  lemma {:induction false} NothingToWalk(f: Function, at: Path)
    ensures !HasOperands(f) <==> Walk(f, at) == []
    ensures !HasOperands(f) ==> Collected(f, at) == []
    decreases f, 1
  {
    NothingToWalkIn(f.nested, 0, at);
  }

  lemma {:induction false} NothingToWalkIn(fs: seq<Function>, i: nat, at: Path)
    requires i <= |fs|
    ensures (forall k :: i <= k < |fs| ==> !HasOperands(fs[k])) <==> WalkAll(fs, i, at) == []
    ensures (forall k :: i <= k < |fs| ==> !HasOperands(fs[k])) ==> CollectedFrom(fs, i, at) == []
    decreases fs, 0, |fs| - i
  {
    if i < |fs| {
      NothingToWalk(fs[i], at + [i]);
      NothingToWalkIn(fs, i + 1, at);
    }
  }

  // What is in one of the functions is collected from it.
  lemma {:induction false} WalkedIsCollected(fs: seq<Function>, i: nat, k: nat, at: Path, x: Operand)
    requires i <= k < |fs| && x in Walk(fs[k], at + [k])
    ensures x in WalkAll(fs, i, at) && x in CollectedFrom(fs, i, at)
    decreases |fs| - i
  {
    if i < k {
      WalkedIsCollected(fs, i + 1, k, at, x);
    } else {
      assert x in Collected(fs[k], at + [k]);
    }
  }

  lemma OwnDistinct(body: Stmt, at: Path)
    ensures NoDuplicates(Own(body, at))
  {
    SitesDistinct(body, [], false);
  }

  // Functions inside have no operands.
  predicate InsideEmpty(f: Function) {
    forall i :: 0 <= i < |f.nested| ==> !HasOperands(f.nested[i])
  }

  lemma CollectedDistinctIff(f: Function, at: Path)
    ensures NoDuplicates(Collected(f, at)) <==> InsideEmpty(f)
    ensures InsideEmpty(f) ==> forall x :: x in Collected(f, at) ==> x.fun == at
  {
    NothingToWalkIn(f.nested, 0, at);
    if InsideEmpty(f) {
      assert Collected(f, at) == Own(f.body, at);
      OwnDistinct(f.body, at);
    } else {
      var k :| 0 <= k < |f.nested| && HasOperands(f.nested[k]);
      NothingToWalk(f.nested[k], at + [k]);
      var x := Walk(f.nested[k], at + [k])[0];
      WalkedIsCollected(f.nested, 0, k, at, x);
      NotDistinct(Walk(f, at), CollectedFrom(f.nested, 0, at), x);
    }
  }

  lemma NotDistinct<T>(xs: seq<T>, ys: seq<T>, x: T)
    requires x in xs && x in ys
    ensures !NoDuplicates(xs + ys)
  {
    var i :| 0 <= i < |xs| && xs[i] == x;
    var j :| 0 <= j < |ys| && ys[j] == x;
    assert (xs + ys)[i] == (xs + ys)[|xs| + j];
  }

  // The assertion that an operand is not yet among the collected ones holds throughout a run exactly when
  // no function that is defined inside another has an operand: it would be collected twice.
  lemma {:induction false} AssertionHoldsIff(fs: seq<Function>, i: nat)
    requires i <= |fs|
    ensures NoDuplicates(CollectedFrom(fs, i, [])) <==> forall k :: i <= k < |fs| ==> InsideEmpty(fs[k])
    ensures (forall k :: i <= k < |fs| ==> InsideEmpty(fs[k])) ==>
              forall x :: x in CollectedFrom(fs, i, []) ==> |x.fun| == 1 && x.fun[0] >= i
    decreases |fs| - i
  {
    if i < |fs| {
      var first, rest := Collected(fs[i], [] + [i]), CollectedFrom(fs, i + 1, []);
      CollectedDistinctIff(fs[i], [] + [i]);
      AssertionHoldsIff(fs, i + 1);
      if forall k :: i <= k < |fs| ==> InsideEmpty(fs[k]) {
        DistinctConcat(first, rest);
      } else if NoDuplicates(first + rest) {
        PartsDistinct(first, rest);
      }
    }
  }

  lemma PartsDistinct<T>(xs: seq<T>, ys: seq<T>)
    requires NoDuplicates(xs + ys)
    ensures NoDuplicates(xs) && NoDuplicates(ys)
  {
    assert forall i :: 0 <= i < |xs| ==> (xs + ys)[i] == xs[i];
    assert forall i :: 0 <= i < |ys| ==> (xs + ys)[|xs| + i] == ys[i];
  }
}
