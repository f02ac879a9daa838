/**
 The visitor of clang_delta/CommonStatementVisitor.h as clang_delta/BinOpSimplification.cpp
 uses it: it collects the operands that can be hoisted, keeping track of the current statement
 and of whether braces are needed, and remembers the one that was asked for.
 */
module BinOpSimplification {
  import opened Collections
  import opened Decimal
  import opened Wrappers
  import opened StmtLanguage
  import opened Hoisting
  import opened HoistingScopes
  import opened BinOpSites
  import opened SiteLaws

  // ----- The visitor -----

  lemma {:induction false} NoBinNothingFound(e: Expr, at: Path)
    requires !HasBin(e)
    ensures Found(e, at) == []
  {
    match e
    case Lit(_) =>
    case Var(_) =>
    case Paren(sub) => NoBinNothingFound(sub, at + [0]);
    case Cast(_, sub) => NoBinNothingFound(sub, at + [0]);
    case Unary(_, sub) => NoBinNothingFound(sub, at + [0]);
    case Cond(c, t, f) =>
      NoBinNothingFound(c, at + [0]);
      NoBinNothingFound(t, at + [1]);
      NoBinNothingFound(f, at + [2]);
  }

  lemma AtConcat(stmt: Path, ps: seq<Path>, qs: seq<Path>, needParen: bool)
    ensures At(stmt, ps + qs, needParen) == At(stmt, ps, needParen) + At(stmt, qs, needParen)
  {
  }

  lemma NothingAt(stmt: Path, e: Expr, at: Path, needParen: bool)
    requires !HasBin(e)
    ensures At(stmt, Found(e, at), needParen) == []
  {
    NoBinNothingFound(e, at);
  }

  // IgnoreParenCasts, with the place of the result.
  function IgnoreParenCasts(e: Expr, at: Path): (r: (Expr, Path))
    ensures r.0 == e || r.0 < e
    ensures FoundOperand(e, at) == if r.0.Bin? then [r.1] + Found(r.0, r.1) else []
  {
    match e
    case Paren(sub) => IgnoreParenCasts(sub, at + [0])
    case Cast(_, sub) => IgnoreParenCasts(sub, at + [0])
    case Bin(_, l, r) =>
      assert [at] + FoundOperand(l, at + [0]) + FoundOperand(r, at + [1]) ==
             [at] + (FoundOperand(l, at + [0]) + FoundOperand(r, at + [1]));
      (e, at)
    case _ => (e, at)
  }

  class Visitor {
    const transformationCounter: int
    var currentStmt: Path
    var needParen: bool
    var validBinOps: seq<Site>
    var validInstanceNum: nat
    // TheStmt, TheBinOp and NeedParen as recorded for the chosen instance.
    var theSite: Option<Site>

    ghost predicate Valid()
      reads this
    {
      && validInstanceNum == |validBinOps|
      && theSite == if 1 <= transformationCounter <= validInstanceNum
                    then Some(validBinOps[transformationCounter - 1]) else None
    }

    constructor (counter: int)
      ensures Valid() && transformationCounter == counter && validBinOps == [] && !needParen && currentStmt == []
    {
      transformationCounter := counter;
      currentStmt, needParen, validBinOps, validInstanceNum, theSite := [], false, [], 0, None;
    }

    // An expression under the current statement; the result says whether the traversal goes on.
    method TraverseExpr(e: Expr, at: Path) returns (go: bool)
      requires Valid()
      modifies this`validBinOps, this`validInstanceNum, this`theSite
      ensures Valid() && go == !HasBin(e)
      ensures validBinOps == old(validBinOps) + At(currentStmt, Found(e, at), needParen)
      decreases e, 1
    {
      match e
      case Lit(_) => go := true;
      case Var(_) => go := true;
      case Paren(sub) => go := TraverseExpr(sub, at + [0]);
      case Cast(_, sub) => go := TraverseExpr(sub, at + [0]);
      case Unary(_, sub) => go := TraverseExpr(sub, at + [0]);
      case Bin(_, _, _) => go := VisitBinaryOperator(e, at);
      case Cond(c, t, f) => go := TraverseConditional(c, t, f, at);
    }

    // VisitBinaryOperator, for an operator that does not assign
    method VisitBinaryOperator(e: Expr, at: Path) returns (go: bool)
      requires Valid() && e.Bin?
      modifies this`validBinOps, this`validInstanceNum, this`theSite
      ensures Valid() && !go
      ensures validBinOps == old(validBinOps) + At(currentStmt, Found(e, at), needParen)
      decreases e, 0
    {
      HandleSubExpr(e.lhs, at + [0]);
      HandleSubExpr(e.rhs, at + [1]);
      AtConcat(currentStmt, FoundOperand(e.lhs, at + [0]), FoundOperand(e.rhs, at + [1]), needParen);
      go := false;
    }

    method TraverseConditional(c: Expr, t: Expr, f: Expr, at: Path) returns (go: bool)
      requires Valid()
      modifies this`validBinOps, this`validInstanceNum, this`theSite
      ensures Valid() && go == !HasBin(Cond(c, t, f))
      ensures validBinOps == old(validBinOps) + At(currentStmt, Found(Cond(c, t, f), at), needParen)
      decreases Cond(c, t, f), 0
    {
      NoneFoundWhereGoingOn(c, t, f, at);
      go := TraverseExpr(c, at + [0]);
      if !go {
        return;
      }
      NothingAt(currentStmt, c, at + [0], needParen);
      assert validBinOps == old(validBinOps);
      go := TraverseExpr(t, at + [1]);
      if !go {
        return;
      }
      NothingAt(currentStmt, t, at + [1], needParen);
      assert validBinOps == old(validBinOps);
      go := TraverseExpr(f, at + [2]);
    }

    // handleSubExpr
    method HandleSubExpr(e: Expr, at: Path)
      requires Valid()
      modifies this`validBinOps, this`validInstanceNum, this`theSite
      ensures Valid()
      ensures validBinOps == old(validBinOps) + At(currentStmt, FoundOperand(e, at), needParen)
      decreases e, 2
    {
      var (binOp, place) := IgnoreParenCasts(e, at);
      if !binOp.Bin? {
        return;
      }
      validBinOps := validBinOps + [Site(currentStmt, place, needParen)];
      validInstanceNum := validInstanceNum + 1;
      if validInstanceNum == transformationCounter {
        theSite := Some(Site(currentStmt, place, needParen));
      }
      AtConcat(currentStmt, [place], Found(binOp, place), needParen);
      var _ := TraverseExpr(binOp, place);
    }

    lemma NoneFoundWhereGoingOn(c: Expr, t: Expr, f: Expr, at: Path)
      ensures Found(Cond(c, t, f), at) ==
              if HasBin(c) then Found(c, at + [0])
              else if HasBin(t) then Found(t, at + [1])
              else Found(f, at + [2])
    {
      var inC, inT, inF := Found(c, at + [0]), Found(t, at + [1]), Found(f, at + [2]);
      if HasBin(c) {
        assert inC + [] + [] == inC;
      } else {
        NoBinNothingFound(c, at + [0]);
        if HasBin(t) {
          assert inC + inT + [] == inT;
        } else {
          NoBinNothingFound(t, at + [1]);
          assert inC + inT + inF == inF;
        }
      }
    }

    // A statement that is, or is in, the current one.
    method TraverseStmt(s: Stmt, at: Path)
      requires Valid() && (s.Block? || currentStmt == at)
      modifies this`currentStmt, this`needParen, this`validBinOps, this`validInstanceNum, this`theSite
      ensures Valid()
      ensures validBinOps == old(validBinOps) + Sites(s, at, old(needParen)).0
      ensures needParen == Sites(s, at, old(needParen)).1
      decreases s, 1
    {
      match s
      case Assign(_, e) =>
        var go := TraverseExpr(e, []);
        if go {
          // VisitBinaryOperator returned true, so the right-hand side is traversed once more.
          NoBinNothingFound(e, []);
          go := TraverseExpr(e, []);
        }
      case Update(_, _, e) =>
        HandleSubExpr(e, []);
      case Return(e) =>
        var _ := TraverseExpr(e, []);
      case Declare(_, e) =>
        var _ := TraverseExpr(e, []);
      case Block(ss) =>
        VisitCompoundStmt(ss, at);
      case If(_, _, _) =>
        VisitIfStmt(s, at);
      case While(_, _) =>
        VisitLoopStmt(s, at);
      case Do(_, _) =>
        VisitLoopStmt(s, at);
    }

    method VisitIfStmt(s: Stmt, at: Path)
      requires Valid() && currentStmt == at && s.If?
      modifies this`currentStmt, this`needParen, this`validBinOps, this`validInstanceNum, this`theSite
      ensures Valid()
      ensures validBinOps == old(validBinOps) + Sites(s, at, old(needParen)).0
      ensures needParen == Sites(s, at, old(needParen)).1
      decreases s, 0
    {
      var _ := TraverseExpr(s.e, []);
      VisitNonCompoundStmt(s.thn, at + [0]);
      if s.els.Some? {
        VisitNonCompoundStmt(s.els.value, at + [1]);
      }
    }

    // VisitWhileStmt and VisitDoStmt
    method VisitLoopStmt(s: Stmt, at: Path)
      requires Valid() && currentStmt == at && IsLoop(s)
      modifies this`currentStmt, this`needParen, this`validBinOps, this`validInstanceNum, this`theSite
      ensures Valid()
      ensures validBinOps == old(validBinOps) + Sites(s, at, old(needParen)).0
      ensures needParen == Sites(s, at, old(needParen)).1
      decreases s, 0
    {
      var _ := TraverseExpr(s.e, []);
      VisitNonCompoundStmt(s.loop, at + [0]);
    }

    method VisitCompoundStmt(ss: seq<Stmt>, at: Path)
      requires Valid()
      modifies this`currentStmt, this`needParen, this`validBinOps, this`validInstanceNum, this`theSite
      ensures Valid()
      ensures validBinOps == old(validBinOps) + SitesOfAll(ss, 0, at, old(needParen)).0
      ensures needParen == SitesOfAll(ss, 0, at, old(needParen)).1
      decreases ss, 1
    {
      for i := 0 to |ss|
        invariant Valid()
        invariant validBinOps + SitesOfAll(ss, i, at, needParen).0 == old(validBinOps) + SitesOfAll(ss, 0, at, old(needParen)).0
        invariant SitesOfAll(ss, i, at, needParen).1 == SitesOfAll(ss, 0, at, old(needParen)).1
      {
        currentStmt := at + [i];
        ghost var so, np := validBinOps, needParen;
        TraverseStmt(ss[i], at + [i]);
        assert so + SitesOfAll(ss, i, at, np).0 == validBinOps + SitesOfAll(ss, i + 1, at, needParen).0;
      }
    }

    method VisitNonCompoundStmt(s: Stmt, at: Path)
      requires Valid()
      modifies this`currentStmt, this`needParen, this`validBinOps, this`validInstanceNum, this`theSite
      ensures Valid()
      ensures validBinOps == old(validBinOps) + SitesOfBranch(s, at, old(needParen)).0
      ensures needParen == SitesOfBranch(s, at, old(needParen)).1
      decreases s, 2
    {
      if s.Block? {
        VisitCompoundStmt(s.body, at);
        return;
      }
      currentStmt := at;
      needParen := true;
      TraverseStmt(s, at);
      needParen := false;
    }
  }

  // ----- The pass -----

  const TMP_PREFIX := "__trans_tmp_"

  // A name with the prefix.
  predicate IsTmpName(name: string) {
    TMP_PREFIX <= name
  }

  // TransNameQueryVisitor: the number after the prefix.
  function Postfix(name: string): Option<nat>
    requires IsTmpName(name)
  {
    ReadUnsigned(name[|TMP_PREFIX|..])
  }

  // A name with the prefix but without a number that fits makes an assertion fail.
  predicate AllNumbered(names: seq<string>) {
    forall x :: x in names && IsTmpName(x) ==> Postfix(x).Some?
  }

  // The largest number in use, or 0.
  function MaxPostfix(names: seq<string>): (r: nat)
    requires AllNumbered(names)
    ensures r < UNSIGNED_LIMIT
    ensures forall x :: x in names && IsTmpName(x) ==> Postfix(x).value <= r
  {
    if names == [] then 0
    else
      assert names[0] in names && forall x :: x in names[1..] ==> x in names;
      var r := MaxPostfix(names[1..]);
      if !IsTmpName(names[0]) then r
      else
        var k := Postfix(names[0]).value;
        if k > r then k else r
  }

  // addNewTmpVariable: the sum is an unsigned one. None when the assertion fails.
  function TmpName(names: seq<string>): Option<string> {
    if AllNumbered(names) then Some(TMP_PREFIX + Print((MaxPostfix(names) + 1) % UNSIGNED_LIMIT)) else None
  }

  // The temporary is a new name, unless the largest number was the largest there is,
  // when the sum wraps round to 0 and 0 is taken.
  lemma TmpNameFreshIff(names: seq<string>)
    ensures TmpName(names).Some? <==> AllNumbered(names)
    ensures AllNumbered(names) ==>
      (TmpName(names).value !in names <==> !(MaxPostfix(names) + 1 == UNSIGNED_LIMIT && TMP_PREFIX + "0" in names))
  {
    if AllNumbered(names) {
      var max := MaxPostfix(names);
      if max + 1 == UNSIGNED_LIMIT {
        assert (max + 1) % UNSIGNED_LIMIT == 0 && Print(0) == "0";
      } else {
        assert (max + 1) % UNSIGNED_LIMIT == max + 1;
        PostfixOfTmp(max + 1);
      }
    }
  }

  // A name of the form has the number n.
  predicate IsNumbered(name: string, n: nat) {
    "__trans_tmp_" <= name && ReadUnsigned(name[12..]) == Some(n)
  }

  // It is the largest number in use, or 0.
  ghost predicate IsLargestNumber(names: seq<string>, m: nat) {
    && (m == 0 || exists x :: x in names && IsNumbered(x, m))
    && forall x, n: nat :: x in names && IsNumbered(x, n) ==> n <= m
  }

  // The name is the prefix and the number after the largest one in use.
  lemma TmpNameIs(names: seq<string>)
    ensures TmpName(names).Some? <==> forall x :: x in names && "__trans_tmp_" <= x ==> exists n: nat :: IsNumbered(x, n)
    ensures AllNumbered(names) ==>
      IsLargestNumber(names, MaxPostfix(names)) &&
      TmpName(names) == Some("__trans_tmp_" + Print((MaxPostfix(names) + 1) % 0x1_0000_0000))
  {
    forall x | x in names && "__trans_tmp_" <= x
      ensures Postfix(x).Some? <==> exists n: nat :: IsNumbered(x, n)
    {
      if Postfix(x).Some? {
        assert IsNumbered(x, Postfix(x).value);
      }
    }
    if AllNumbered(names) {
      MaxIsUsed(names);
      assert forall x, n: nat :: x in names && IsNumbered(x, n) ==> Postfix(x) == Some(n);
    }
  }

  lemma {:induction false} MaxIsUsed(names: seq<string>)
    requires AllNumbered(names)
    ensures MaxPostfix(names) == 0 || exists x :: x in names && IsNumbered(x, MaxPostfix(names))
  {
    if names != [] {
      assert names[0] in names && forall x :: x in names[1..] ==> x in names;
      MaxIsUsed(names[1..]);
      if IsTmpName(names[0]) {
        assert IsNumbered(names[0], Postfix(names[0]).value);
      }
    }
  }

  lemma PostfixOfTmp(k: nat)
    requires k < UNSIGNED_LIMIT
    ensures IsTmpName(TMP_PREFIX + Print(k)) && Postfix(TMP_PREFIX + Print(k)) == Some(k)
  {
    assert (TMP_PREFIX + Print(k))[|TMP_PREFIX|..] == Print(k);
    ReadPrint(k);
  }

  datatype Outcome = MaxInstanceError | AssertionFails | Simplified(body: Stmt, tmp: string)

  // HandleTranslationUnit on one function body whose variables are among names.
  method Simplify(body: Stmt, counter: int, names: seq<string>) returns (r: Outcome)
    requires body.Block? && counter >= 1
    ensures r.MaxInstanceError? <==> counter > |Sites(body, [], false).0|
    ensures r.AssertionFails? <==> counter <= |Sites(body, [], false).0| && !AllNumbered(names)
    ensures r.Simplified? ==>
      var site := Sites(body, [], false).0[counter - 1];
      TmpName(names) == Some(r.tmp) && ValidSite(body, site) && r.body == Rewrite(body, site, r.tmp)
    // The counter picks from the operands that are to be collected, in the order of the text.
    ensures forall sites :: AreTheSites(body, sites) ==>
      (r.MaxInstanceError? <==> counter > |sites|) &&
      (r.Simplified? ==> ValidSite(body, sites[counter - 1]) && r.body == Rewrite(body, sites[counter - 1], r.tmp))
    // Unless the operand is in the head of a loop that changes what it reads, or in a declaration that the braces
    // cut off from later uses, the function does what it did ...
    ensures r.Simplified? && r.tmp !in Vars(body) && MovableSite(body, Sites(body, [], false).0[counter - 1]) ==>
      forall m, a, b, fuel {:trigger Exec(m, body, a, fuel), Exec(m, r.body, b, fuel)} :: Agree(r.tmp, a, b) ==>
        SameBut(r.tmp, Exec(m, body, a, fuel), Exec(m, r.body, b, fuel))
    // ... and every name stands for what it stood for exactly when none loses its declaration.
    ensures r.Simplified? && r.tmp !in Vars(body) ==>
      var site := Sites(body, [], false).0[counter - 1];
      ValidSite(body, site) && ValidSite(Resolve(body, map[], 0), site) &&
      (Resolve(r.body, map[], 0) == Rewrite(Resolve(body, map[], 0), site, Outer(r.tmp)) <==> KeepsNames(body, site))
  {
    r := RewriteChosen(body, counter, names);
    ghost var sites := Sites(body, [], false).0;
    CounterPicks(body, counter, r);
    if r.Simplified? && r.tmp !in Vars(body) {
      HoistingResolvesIff(body, sites[counter - 1], r.tmp);
      if MovableSite(body, sites[counter - 1]) {
        MovableRuns(body, sites[counter - 1], r.tmp);
      }
    }
  }

  // The traversal, and the rewriting of the chosen site.
  method RewriteChosen(body: Stmt, counter: int, names: seq<string>) returns (r: Outcome)
    requires body.Block? && counter >= 1
    ensures IsOutcome(body, counter, names, r)
  {
    var visitor := new Visitor(counter);
    visitor.TraverseStmt(body, []);
    SitesAreValid(body, body, [], false);
    if counter > visitor.validInstanceNum {
      return MaxInstanceError;
    }
    var site := visitor.theSite.value;
    assert site in Sites(body, [], false).0;
    if !AllNumbered(names) {
      return AssertionFails;
    }
    var tmp := TmpName(names).value;
    r := Simplified(Rewrite(body, site, tmp), tmp);
  }

  ghost predicate IsOutcome(body: Stmt, counter: int, names: seq<string>, r: Outcome)
    requires counter >= 1
  {
    var sites := Sites(body, [], false).0;
    match r
    case MaxInstanceError => counter > |sites|
    case AssertionFails => counter <= |sites| && !AllNumbered(names)
    case Simplified(body', tmp) =>
      && counter <= |sites| && AllNumbered(names) && TmpName(names) == Some(tmp)
      && ValidSite(body, sites[counter - 1]) && body' == Rewrite(body, sites[counter - 1], tmp)
  }

  lemma {:induction false} CounterPicks(body: Stmt, counter: int, r: Outcome)
    requires counter >= 1 && exists names :: IsOutcome(body, counter, names, r)
    ensures forall sites :: AreTheSites(body, sites) ==>
      (r.MaxInstanceError? <==> counter > |sites|) &&
      (r.Simplified? ==> ValidSite(body, sites[counter - 1]) && r.body == Rewrite(body, sites[counter - 1], r.tmp))
  {
    var names :| IsOutcome(body, counter, names, r);
    forall sites | AreTheSites(body, sites)
      ensures sites == Sites(body, [], false).0
    {
      SitesComplete(body, sites);
    }
  }

  lemma {:induction false} MovableRuns(body: Stmt, site: Site, tmp: string)
    requires MovableSite(body, site) && tmp !in Vars(body)
    ensures forall m, a, b, fuel {:trigger Exec(m, body, a, fuel), Exec(m, Rewrite(body, site, tmp), b, fuel)} :: Agree(tmp, a, b) ==>
        SameBut(tmp, Exec(m, body, a, fuel), Exec(m, Rewrite(body, site, tmp), b, fuel))
  {
    forall m, a, b, fuel: nat | Agree(tmp, a, b)
      ensures SameBut(tmp, Exec(m, body, a, fuel), Exec(m, Rewrite(body, site, tmp), b, fuel))
    {
      var c := SubStmt(body, site.stmt).value;
      SubStmtVars(body, site.stmt);
      MovableCarries(m, c, site.expr, tmp);
      HoistingPreserves(m, body, site, tmp, a, b, fuel);
    }
  }

  ghost predicate MovableSite(body: Stmt, site: Site) {
    && ValidSite(body, site) && Movable(SubStmt(body, site.stmt).value, site.expr)
    && ScopeKept(body, site.stmt, site.needParen)
  }

  // ----- Loop heads -----

  // { while (0 < (1 - y)) y = 1; }
  const LOOP_BODY := Assign("y", Lit(1))
  const LOOP_OPERAND := Bin("-", Lit(1), Var("y"))
  const LOOP_HEAD := Bin("<", Lit(0), Paren(LOOP_OPERAND))
  const LOOP := Block([While(LOOP_HEAD, LOOP_BODY)])
  const LOOP_SITE := Site([0], [1, 0], false)

  ghost predicate CStyle(m: Meaning) {
    && (forall a, b :: m.bin("<", a, b) == if a < b then 1 else 0)
    && (forall a, b :: m.bin("-", a, b) == a - b)
  }

  // Moving the operand out of the head of a loop that changes it turns a loop that ends
  // after one round into one that never ends.
  lemma LoopHeadsMayBreak(m: Meaning, tmp: string, fuel: nat)
    requires CStyle(m) && tmp != "y" && fuel >= 1
    ensures Sites(LOOP, [], false).0 == [LOOP_SITE] && ValidSite(LOOP, LOOP_SITE) && !MovableSite(LOOP, LOOP_SITE)
    ensures Exec(m, LOOP, map[], fuel) == Normal(map["y" := 1])
    ensures Exec(m, Rewrite(LOOP, LOOP_SITE, tmp), map[], fuel) == OutOfFuel
  {
    LoopIsASite();
    LoopEnds(m, fuel);
    LoopRewritten(tmp);
    var two := [Assign(tmp, LOOP_OPERAND), While(Bin("<", Lit(0), Paren(Var(tmp))), LOOP_BODY)];
    assert two[1..] == [While(Bin("<", Lit(0), Paren(Var(tmp))), LOOP_BODY)];
    assert m.bin("-", 1, 0) == 1 && Eval(m, LOOP_OPERAND, map[]) == 1;
    NeverEnds(m, tmp, map[tmp := 1], fuel);
    assert Exec(m, two[0], map[], fuel) == Normal(map[tmp := 1]);
    assert ExecSeq(m, two[1..], map[tmp := 1], fuel) == OutOfFuel;
    assert ExecSeq(m, two, map[], fuel) == OutOfFuel;
  }

  lemma LoopIsASite()
    ensures Sites(LOOP, [], false).0 == [LOOP_SITE] && ValidSite(LOOP, LOOP_SITE) && !MovableSite(LOOP, LOOP_SITE)
    ensures SubStmt(LOOP, [0]) == Some(LOOP.body[0]) && SubExpr(LOOP_HEAD, [1, 0]) == Some(LOOP_OPERAND)
  {
    var loop := While(LOOP_HEAD, LOOP_BODY);
    assert [] + [0] == [0] && [] + [1] == [1] && [1] + [0] == [1, 0];
    assert FoundOperand(LOOP_OPERAND, [1, 0]) == [[1, 0]] + [] + [];
    assert FoundOperand(Paren(LOOP_OPERAND), [1]) == [[1, 0]];
    assert Found(LOOP_HEAD, []) == [] + [[1, 0]];
    assert At([0], [[1, 0]], false) == [LOOP_SITE];
    assert Sites(loop, [0], false).0 == [LOOP_SITE];
    assert [loop][0] == loop;
    assert SitesOfAll([loop], 1, [], Sites(loop, [0], false).1).0 == [];
    assert SitesOfAll([loop], 0, [], false).0 == [LOOP_SITE] + [];
    assert SubStmt(loop, []) == Some(loop) && SubStmt(LOOP, [0]) == Some(loop);
    assert LOOP_SITE.expr[1..] == [0] && [0][1..] == [];
    assert SubExpr(LOOP_HEAD.rhs, [0]) == Some(LOOP_OPERAND);
    assert SubExpr(LOOP_HEAD, [1, 0]) == Some(LOOP_OPERAND);
    assert "y" in ExprVars(LOOP_OPERAND) && "y" in Assigned(LOOP_BODY);
  }

  lemma LoopEnds(m: Meaning, fuel: nat)
    requires CStyle(m) && fuel >= 1
    ensures Exec(m, LOOP, map[], fuel) == Normal(map["y" := 1])
  {
    var loop := While(LOOP_HEAD, LOOP_BODY);
    var after: Store := map["y" := 1];
    assert Get(after, "y") == 1 && m.bin("-", 1, 1) == 0 && m.bin("-", 1, 0) == 1;
    assert m.bin("<", 0, 0) == 0 && m.bin("<", 0, 1) == 1;
    assert Eval(m, LOOP_OPERAND, map[]) == 1 && Eval(m, LOOP_OPERAND, after) == 0;
    assert Eval(m, Paren(LOOP_OPERAND), map[]) == 1 && Eval(m, Paren(LOOP_OPERAND), after) == 0;
    assert Eval(m, LOOP_HEAD, map[]) == 1 && Eval(m, LOOP_HEAD, after) == 0;
    assert Exec(m, loop, after, fuel - 1) == Normal(after);
    assert Exec(m, loop, map[], fuel) == Normal(after);
    assert [loop][1..] == [] && ExecSeq(m, [], after, fuel) == Normal(after);
  }

  lemma LoopRewritten(tmp: string)
    requires ValidSite(LOOP, LOOP_SITE)
    ensures Rewrite(LOOP, LOOP_SITE, tmp) ==
            Block([Assign(tmp, LOOP_OPERAND), While(Bin("<", Lit(0), Paren(Var(tmp))), LOOP_BODY)])
  {
    LoopIsASite();
    var loop := While(LOOP_HEAD, LOOP_BODY);
    assert LOOP_SITE.expr[1..] == [0] && [0][1..] == [];
    assert ReplaceExpr(LOOP_HEAD.rhs, [0], Var(tmp)) == Paren(Var(tmp));
    assert ReplaceExpr(LOOP_HEAD, [1, 0], Var(tmp)) == Bin("<", Lit(0), Paren(Var(tmp)));
    var two := Hoisted(loop, [1, 0], tmp);
    assert Rewrite(LOOP, LOOP_SITE, tmp) == Block([] + two + []);
    assert [] + two + [] == two;
  }

  lemma {:induction false} NeverEnds(m: Meaning, tmp: string, st: Store, fuel: nat)
    requires CStyle(m) && tmp != "y" && Get(st, tmp) == 1
    ensures Exec(m, While(Bin("<", Lit(0), Paren(Var(tmp))), LOOP_BODY), st, fuel) == OutOfFuel
    decreases fuel
  {
    assert m.bin("<", 0, 1) == 1;
    assert Eval(m, Paren(Var(tmp)), st) == 1;
    assert Eval(m, Bin("<", Lit(0), Paren(Var(tmp))), st) == 1;
    GetUpdated(st, "y", 1, tmp);
    if fuel > 0 {
      NeverEnds(m, tmp, st["y" := 1], fuel - 1);
    }
  }

  // ----- Declarations in braces -----

  // { if (x) {} else if (y) { int z = a + (b + c); r = z; } }: the flag is still set inside the block of the second
  // branch, so the declaration gets braces of its own.
  const SUM_OPERAND := Bin("+", Var("b"), Var("c"))
  const SUM := Bin("+", Var("a"), Paren(SUM_OPERAND))
  const DECL_Z := Declare("z", SUM)
  const USE_Z := Assign("r", Var("z"))
  const ELSE_IF := If(Var("y"), Block([DECL_Z, USE_Z]), None)
  const NESTED_IF := If(Var("x"), Block([]), Some(ELSE_IF))
  const CUT := Block([NESTED_IF])
  const CUT_SITE := Site([0, 1, 0, 0], [1, 0], true)

  lemma {:induction false} SumIsFound()
    ensures Found(SUM, []) == [[1, 0]] && SubExpr(SUM, [1, 0]) == Some(SUM_OPERAND)
  {
    assert [] + [1] == [1] && [1] + [0] == [1, 0] && [1, 0][1..] == [0] && [0][1..] == [];
    assert FoundOperand(SUM_OPERAND, [1, 0]) == [[1, 0]] + [] + [];
    assert FoundOperand(Paren(SUM_OPERAND), [1]) == [[1, 0]];
    assert Found(SUM, []) == [] + [[1, 0]];
    assert SubExpr(SUM.rhs, [0]) == Some(SUM_OPERAND);
  }

  lemma {:induction false} CutIsASite()
    ensures Sites(CUT, [], false).0 == [CUT_SITE] && SubStmt(CUT, CUT_SITE.stmt) == Some(DECL_Z)
    ensures ValidSite(CUT, CUT_SITE) && !KeepsNames(CUT, CUT_SITE)
  {
    CutFound();
    PathToDecl();
    SumIsFound();
    ZIsUsed();
  }

  lemma {:induction false} CutFound()
    ensures Sites(CUT, [], false).0 == [CUT_SITE]
  {
    InnerFound();
    assert [0] + [1] == [0, 1] && [] + [0] == [0];
    assert SitesOfAll([], 0, [0, 0], false) == ([], false) && At([0], Found(Var("x"), []), false) == [];
    assert SitesOfBranch(ELSE_IF, [0] + [1], false).0 == [CUT_SITE];
    assert Sites(NESTED_IF, [0], false).0 == [] + [] + [CUT_SITE];
    assert SitesOfAll([NESTED_IF], 1, [], Sites(NESTED_IF, [0], false).1).0 == [];
    assert SitesOfAll([NESTED_IF], 0, [], false).0 == [CUT_SITE] + [];
  }

  lemma {:induction false} InnerFound()
    ensures Sites(ELSE_IF, [0, 1], true).0 == [CUT_SITE]
  {
    SumIsFound();
    var ss := [DECL_Z, USE_Z];
    assert [0, 1, 0] + [0] == [0, 1, 0, 0] && [0, 1] + [0] == [0, 1, 0];
    assert At([0, 1, 0, 0], [[1, 0]], true) == [CUT_SITE];
    assert SitesOfAll(ss, 2, [0, 1, 0], true).0 == [];
    assert SitesOfAll(ss, 1, [0, 1, 0], true).0 == [] + [];
    assert SitesOfAll(ss, 0, [0, 1, 0], true).0 == [CUT_SITE] + [];
    assert SitesOfBranch(Block(ss), [0, 1] + [0], true).0 == [CUT_SITE];
    assert At([0, 1], Found(Var("y"), []), true) == [];
    assert Sites(ELSE_IF, [0, 1], true).0 == [] + [CUT_SITE] + [];
  }

  lemma {:induction false} PathToDecl()
    ensures SubStmt(CUT, [0, 1, 0, 0]) == Some(DECL_Z) && BracesWhereNeeded(CUT, [0, 1, 0, 0], true)
  {
    assert [0, 1, 0, 0][1..] == [1, 0, 0] && [1, 0, 0][1..] == [0, 0] && [0, 0][1..] == [0] && [0][1..] == [];
    assert SubStmt(ELSE_IF.thn, [0]) == SubStmt(DECL_Z, []) == Some(DECL_Z);
    assert SubStmt(ELSE_IF, [0, 0]) == Some(DECL_Z);
    assert SubStmt(NESTED_IF, [1, 0, 0]) == Some(DECL_Z);
    BracesAlwaysFine(CUT, [0, 1, 0, 0]);
  }

  lemma {:induction false} ZIsUsed()
    ensures !ScopeKept(CUT, [0, 1, 0, 0], true)
  {
    assert [0, 1, 0, 0][1..] == [1, 0, 0] && [1, 0, 0][1..] == [0, 0] && [0, 0][1..] == [0];
    assert [DECL_Z, USE_Z][1..] == [USE_Z] && "z" in FreeVars(USE_Z) && "z" in FreeOfAll([USE_Z]);
    assert !ScopeKept(ELSE_IF.thn, [0], true);
    assert !ScopeKept(ELSE_IF, [0, 0], true);
    assert !ScopeKept(NESTED_IF, [1, 0, 0], true);
  }

  // The declaration alone in braces.
  function Braced(tmp: string): Stmt {
    Block([Assign(tmp, SUM_OPERAND), Declare("z", Bin("+", Var("a"), Paren(Var(tmp))))])
  }

  lemma {:induction false} CutRewritten(tmp: string)
    requires ValidSite(CUT, CUT_SITE)
    ensures Rewrite(CUT, CUT_SITE, tmp) ==
            Block([If(Var("x"), Block([]), Some(If(Var("y"), Block([Braced(tmp), USE_Z]), None)))])
  {
    CutIsASite();
    var site1, site2 := Site([1, 0, 0], [1, 0], true), Site([0, 0], [1, 0], true);
    SiteBelow(CUT, CUT_SITE, tmp);
    assert CUT_SITE.stmt[1..] == [1, 0, 0] && CUT.body[0] == NESTED_IF;
    SiteBelow(NESTED_IF, site1, tmp);
    assert site1.stmt[1..] == [0, 0];
    ElseRewritten(tmp);
    assert Rewrite(NESTED_IF, site1, tmp) == WithStmtChild(NESTED_IF, 1, Rewrite(ELSE_IF, site2, tmp));
    assert [NESTED_IF][0 := Rewrite(NESTED_IF, site1, tmp)] == [Rewrite(NESTED_IF, site1, tmp)];
  }

  lemma {:induction false} ElseRewritten(tmp: string)
    requires ValidSite(ELSE_IF, Site([0, 0], [1, 0], true))
    ensures Rewrite(ELSE_IF, Site([0, 0], [1, 0], true), tmp) == If(Var("y"), Block([Braced(tmp), USE_Z]), None)
  {
    SumIsFound();
    var site2, site3, site4 := Site([0, 0], [1, 0], true), Site([0], [1, 0], true), Site([], [1, 0], true);
    SiteBelow(ELSE_IF, site2, tmp);
    assert site2.stmt[1..] == [0];
    SiteBelow(ELSE_IF.thn, site3, tmp);
    assert site3.stmt[1..] == [] && ELSE_IF.thn.body[0] == DECL_Z;
    assert [1, 0][1..] == [0] && [0][1..] == [];
    assert ReplaceExpr(Paren(SUM_OPERAND), [0], Var(tmp)) == Paren(Var(tmp));
    assert ReplaceExpr(SUM, [1, 0], Var(tmp)) == Bin("+", Var("a"), Paren(Var(tmp)));
    assert Rewrite(DECL_Z, site4, tmp) == Braced(tmp);
    assert [DECL_Z, USE_Z][0 := Braced(tmp)] == [Braced(tmp), USE_Z];
  }

  // What the two branches do where x is 0 and y is not.
  lemma {:induction false} ElseIfRuns(m: Meaning, body: Stmt, st: Store, fuel: nat)
    requires Get(st, "x") == 0 && Get(st, "y") != 0
    ensures Exec(m, Block([If(Var("x"), Block([]), Some(If(Var("y"), body, None)))]), st, fuel) == Exec(m, body, st, fuel)
  {
    var inner := If(Var("y"), body, None);
    var outer := If(Var("x"), Block([]), Some(inner));
    OneRuns(m, outer, st, fuel);
    assert Exec(m, outer, st, fuel) == Exec(m, inner, st, fuel);
  }

  // With a, b, c = 1, 2, 3 the result is 6 before, and afterwards what an outer z holds, or nothing.
  lemma {:induction false} DeclarationCutOff(m: Meaning, tmp: string, z: int, fuel: nat)
    requires (forall a, b :: m.bin("+", a, b) == a + b) && tmp !in Vars(CUT)
    ensures Sites(CUT, [], false).0 == [CUT_SITE] && ValidSite(CUT, CUT_SITE) && !KeepsNames(CUT, CUT_SITE)
    ensures
      var st: Store := map["x" := 0, "y" := 1, "a" := 1, "b" := 2, "c" := 3, "z" := z];
      && Exec(m, CUT, st, fuel) == Normal(st["r" := 6])
      && Exec(m, Rewrite(CUT, CUT_SITE, tmp), st, fuel) == Normal(st[tmp := 5]["r" := z])
  {
    CutIsASite();
    CutRewritten(tmp);
    var st: Store := map["x" := 0, "y" := 1, "a" := 1, "b" := 2, "c" := 3, "z" := z];
    ElseIfRuns(m, Block([DECL_Z, USE_Z]), st, fuel);
    ElseIfRuns(m, Block([Braced(tmp), USE_Z]), st, fuel);
    DeclaredRuns(m, st, z, fuel);
    BracedRuns(m, tmp, st, z, fuel);
  }

  lemma {:induction false} DeclaredRuns(m: Meaning, st: Store, z: int, fuel: nat)
    requires forall a, b :: m.bin("+", a, b) == a + b
    requires st == map["x" := 0, "y" := 1, "a" := 1, "b" := 2, "c" := 3, "z" := z]
    ensures ExecSeq(m, [DECL_Z, USE_Z], st, fuel) == Normal(st["r" := 6])
  {
    assert m.bin("+", 2, 3) == 5 && m.bin("+", 1, 5) == 6;
    var in0 := st["z" := 0];
    assert Eval(m, SUM_OPERAND, in0) == 5 && Eval(m, Paren(SUM_OPERAND), in0) == 5;
    assert Eval(m, Var("a"), in0) == 1 && Eval(m, SUM, in0) == m.bin("+", 1, 5);
    assert Initial(m, "z", SUM, st) == 6;
    var st1 := st["z" := 6];
    DeclareThenRest(m, DECL_Z, [USE_Z], st, fuel);
    OneRuns(m, USE_Z, st1, fuel);
    assert [DECL_Z] + [USE_Z] == [DECL_Z, USE_Z];
    assert Back(st1["r" := 6], st, "z") == st["r" := 6];
  }

  lemma {:induction false} BracedRuns(m: Meaning, tmp: string, st: Store, z: int, fuel: nat)
    requires (forall a, b :: m.bin("+", a, b) == a + b) && tmp !in Vars(CUT)
    requires st == map["x" := 0, "y" := 1, "a" := 1, "b" := 2, "c" := 3, "z" := z]
    ensures ExecSeq(m, [Braced(tmp), USE_Z], st, fuel) == Normal(st[tmp := 5]["r" := z])
  {
    assert m.bin("+", 2, 3) == 5;
    var decl := Declare("z", Bin("+", Var("a"), Paren(Var(tmp))));
    var st1 := st[tmp := 5];
    AssignThen(m, tmp, SUM_OPERAND, decl, st, fuel);
    assert Eval(m, SUM_OPERAND, st) == 5;
    assert Exec(m, Braced(tmp), st, fuel) == Normal(st1);
    ThenRest(m, Braced(tmp), [USE_Z], st, fuel);
    assert [Braced(tmp)] + [USE_Z] == [Braced(tmp), USE_Z];
    OneRuns(m, USE_Z, st1, fuel);
    ZNotTmp(tmp);
    assert Get(st1, "z") == z;
  }

  lemma {:induction false} ZNotTmp(tmp: string)
    requires tmp !in Vars(CUT)
    ensures tmp != "z"
  {
    VarsOfMember([NESTED_IF], 0);
    VarsOfMember([DECL_Z, USE_Z], 0);
    assert "z" in Vars(DECL_Z) && "z" in Vars(Block([DECL_Z, USE_Z])) && "z" in Vars(ELSE_IF) && "z" in Vars(NESTED_IF);
  }

  // { return a + b * c; }: the product is the one operand.
  lemma {:induction false} ReturnIsSearched()
    ensures
      var body := Block([Return(Bin("+", Var("a"), Bin("*", Var("b"), Var("c"))))]);
      AreTheSites(body, [Site([0], [1], false)]) && Collects(body, [0], [1])
  {
    var product := Bin("*", Var("b"), Var("c"));
    var sum := Bin("+", Var("a"), product);
    var body := Block([Return(sum)]);
    assert [] + [1] == [1] && [] + [0] == [0];
    assert FoundOperand(product, [1]) == [[1]] + [] + [];
    assert Found(sum, []) == [] + [[1]];
    assert At([0], [[1]], false) == [Site([0], [1], false)];
    assert Sites(Return(sum), [0], false).0 == [Site([0], [1], false)];
    assert SitesOfAll([Return(sum)], 1, [], false).0 == [];
    assert SitesOfAll([Return(sum)], 0, [], false).0 == [Site([0], [1], false)] + [];
    SitesComplete(body, [Site([0], [1], false)]);
    assert Site([0], [1], false) in [Site([0], [1], false)];
  }
}
