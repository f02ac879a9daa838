/**
 Which operands the traversal finds, in which order and with which flag, in terms of paths through
 the function body (clang_delta/CommonStatementVisitor.h:60-163, clang_delta/BinOpSimplification.cpp:77-115).
 */
module SiteLaws {
  import opened Wrappers
  import opened StmtLanguage
  import opened Hoisting
  import opened BinOpSites

  // ----- Expressions -----

  predicate IsOperator(e: Expr, p: Path) {
    SubExpr(e, p).Some? && SubExpr(e, p).value.Bin?
  }

  // From step k on the path leads through parentheses, casts and operators only.
  predicate GoesDown(e: Expr, p: Path, k: nat) {
    forall j :: k <= j < |p| ==>
      SubExpr(e, p[..j]).Some? &&
      (SubExpr(e, p[..j]).value.Paren? || SubExpr(e, p[..j]).value.Cast? || SubExpr(e, p[..j]).value.Bin?)
  }

  // Of a side of an operator, or of the right-hand side of a compound assignment.
  predicate OperandAt(e: Expr, p: Path) {
    IsOperator(e, p) && GoesDown(e, p, 0)
  }

  // The other path leaves the first k steps of this one towards an earlier child.
  predicate TurnsOffBefore(q: Path, p: Path, k: nat) {
    exists j :: 0 <= j < k && j < |q| && j < |p| && q[..j] == p[..j] && q[j] < p[j]
  }

  // The first operator on the path, at step k, is met: no other one stops the traversal before.
  ghost predicate IsMet(e: Expr, p: Path, k: nat) {
    && k < |p| && IsOperator(e, p[..k])
    && (forall j :: 0 <= j < k ==> !IsOperator(e, p[..j]))
    && (forall q :: IsOperator(e, q) ==> !TurnsOffBefore(q, p, k))
  }

  // An operand is collected from a traversed expression when it is an operator beneath another one that is met.
  ghost predicate StandsIn(e: Expr, p: Path) {
    IsOperator(e, p) && exists k: nat :: IsMet(e, p, k) && GoesDown(e, p, k)
  }

  lemma {:induction false} SubExprBelow(e: Expr, i: nat, p: Path)
    ensures SubExpr(e, [i] + p) == if Child(e, i).Some? then SubExpr(Child(e, i).value, p) else None
  {
    assert ([i] + p)[1..] == p;
  }

  lemma {:induction false} PrefixBelow(e: Expr, i: nat, p: Path, j: nat)
    requires Child(e, i).Some? && 1 <= j <= |p| + 1
    ensures ([i] + p)[..j] == [i] + p[..j - 1]
    ensures SubExpr(e, ([i] + p)[..j]) == SubExpr(Child(e, i).value, p[..j - 1])
  {
    assert ([i] + p)[..j] == [i] + p[..j - 1];
    SubExprBelow(e, i, p[..j - 1]);
  }

  lemma {:induction false} GoesDownBelow(e: Expr, i: nat, p: Path, k: nat)
    requires Child(e, i).Some?
    ensures GoesDown(e, [i] + p, k + 1) <==> GoesDown(Child(e, i).value, p, k)
    ensures GoesDown(e, [i] + p, 0) <==> (e.Paren? || e.Cast? || e.Bin?) && GoesDown(Child(e, i).value, p, 0)
  {
    var q, c := [i] + p, Child(e, i).value;
    forall j | 1 <= j < |q|
      ensures SubExpr(e, q[..j]) == SubExpr(c, p[..j - 1])
    {
      PrefixBelow(e, i, p, j);
    }
    assert q[..0] == [] && SubExpr(e, []) == Some(e);
    if GoesDown(e, q, k + 1) {
      forall j | k <= j < |p|
        ensures SubExpr(c, p[..j]).Some? && (SubExpr(c, p[..j]).value.Paren? || SubExpr(c, p[..j]).value.Cast? || SubExpr(c, p[..j]).value.Bin?)
      {
        assert SubExpr(e, q[..j + 1]) == SubExpr(c, p[..j]);
      }
    }
    if GoesDown(e, q, 0) {
      forall j | 0 <= j < |p|
        ensures SubExpr(c, p[..j]).Some? && (SubExpr(c, p[..j]).value.Paren? || SubExpr(c, p[..j]).value.Cast? || SubExpr(c, p[..j]).value.Bin?)
      {
        assert SubExpr(e, q[..j + 1]) == SubExpr(c, p[..j]);
      }
      assert SubExpr(e, q[..0]) == Some(e);
    }
  }

  lemma {:induction false} OperandBelow(e: Expr, i: nat, p: Path)
    ensures OperandAt(e, [i] + p) <==>
            Child(e, i).Some? && (e.Paren? || e.Cast? || e.Bin?) && OperandAt(Child(e, i).value, p)
  {
    SubExprBelow(e, i, p);
    if Child(e, i).Some? {
      GoesDownBelow(e, i, p, 0);
    }
  }

  // Splitting a path.
  lemma {:induction false} SplitPath(p: Path)
    requires p != []
    ensures p == [p[0]] + p[1..]
  {
  }

  lemma {:induction false} JoinPath(at: Path, i: nat, p: Path)
    ensures at + ([i] + p) == (at + [i]) + p
  {
  }

  lemma {:induction false} NotThrough(at: Path, i: nat, ps: seq<Path>, p: Path)
    requires Through(at + [i], ps) && (p == [] || p[0] != i)
    ensures at + p !in ps
  {
    forall x | x in ps
      ensures x != at + p
    {
      assert x[|at|] == (at + [i])[|at|] == i;
      assert p != [] ==> (at + p)[|at|] == p[0];
    }
  }

  lemma {:induction false} FoundOperandIff(e: Expr, at: Path, p: Path)
    ensures at + p in FoundOperand(e, at) <==> OperandAt(e, p)
    decreases e, 0
  {
    if p == [] {
      assert at + p == at && GoesDown(e, p, 0);
    } else {
      SplitPath(p);
      OperandBelow(e, p[0], p[1..]);
      JoinPath(at, p[0], p[1..]);
    }
    match e
    case Paren(sub) => OneChild(sub, at, p);
    case Cast(_, sub) => OneChild(sub, at, p);
    case Bin(_, l, r) =>
      FoundOperandDistinct(l, at + [0]);
      FoundOperandDistinct(r, at + [1]);
      if p == [] || p[0] != 0 {
        NotThrough(at, 0, FoundOperand(l, at + [0]), p);
      } else {
        FoundOperandIff(l, at + [0], p[1..]);
      }
      if p == [] || p[0] != 1 {
        NotThrough(at, 1, FoundOperand(r, at + [1]), p);
      } else {
        FoundOperandIff(r, at + [1], p[1..]);
      }
    case _ =>
  }

  lemma {:induction false} OneChild(sub: Expr, at: Path, p: Path)
    ensures at + p in FoundOperand(sub, at + [0]) <==> p != [] && p[0] == 0 && OperandAt(sub, p[1..])
    decreases sub, 1
  {
    FoundOperandDistinct(sub, at + [0]);
    if p == [] || p[0] != 0 {
      NotThrough(at, 0, FoundOperand(sub, at + [0]), p);
    } else {
      SplitPath(p);
      JoinPath(at, 0, p[1..]);
      FoundOperandIff(sub, at + [0], p[1..]);
    }
  }

  lemma {:induction false} HasBinIff(e: Expr)
    ensures HasBin(e) <==> exists q :: IsOperator(e, q)
  {
    if e.Bin? {
      assert IsOperator(e, []);
    } else {
      forall i | Child(e, i).Some?
        ensures HasBin(Child(e, i).value) <==> exists q :: IsOperator(Child(e, i).value, q)
      {
        HasBinIff(Child(e, i).value);
      }
      ChildrenHaveBin(e);
    }
  }

  lemma {:induction false} ChildrenHaveBin(e: Expr)
    requires !e.Bin?
    requires forall i {:trigger Child(e, i)} :: Child(e, i).Some? ==>
      (HasBin(Child(e, i).value) <==> exists q :: IsOperator(Child(e, i).value, q))
    ensures HasBin(e) <==> exists q :: IsOperator(e, q)
  {
    if q :| IsOperator(e, q) {
      assert q != [];
      SplitPath(q);
      SubExprBelow(e, q[0], q[1..]);
      assert IsOperator(Child(e, q[0]).value, q[1..]);
      assert HasBin(Child(e, q[0]).value);
    }
    if HasBin(e) {
      var i := if e.Cond? then (if HasBin(e.cond) then 0 else if HasBin(e.thn) then 1 else 2) else 0;
      assert Child(e, i).Some? && HasBin(Child(e, i).value);
      var q :| IsOperator(Child(e, i).value, q);
      SubExprBelow(e, i, q);
      assert IsOperator(e, [i] + q);
    }
  }

  // In an operator the operands are what is collected.
  lemma {:induction false} StandsInBin(e: Expr, p: Path)
    requires e.Bin?
    ensures StandsIn(e, p) <==> p != [] && OperandAt(e, p)
  {
    assert p[..0] == [] && IsOperator(e, []);
    if StandsIn(e, p) {
      var k: nat :| IsMet(e, p, k) && GoesDown(e, p, k);
      assert k == 0;
    }
    if p != [] && OperandAt(e, p) {
      assert IsMet(e, p, 0) && GoesDown(e, p, 0);
    }
  }

  // Elsewhere a child is reached when none of those before it holds an operator.
  lemma {:induction false} StandsInBelow(e: Expr, i: nat, p: Path)
    requires !e.Bin? && Child(e, i).Some?
    ensures StandsIn(e, [i] + p) <==>
            StandsIn(Child(e, i).value, p) && forall h: nat :: h < i && Child(e, h).Some? ==> !HasBin(Child(e, h).value)
  {
    var c, q := Child(e, i).value, [i] + p;
    SubExprBelow(e, i, p);
    if StandsIn(e, q) {
      var k: nat :| IsMet(e, q, k) && GoesDown(e, q, k);
      assert q[..0] == [] && !IsOperator(e, []);
      MetBelow(e, i, p, k - 1);
      GoesDownBelow(e, i, p, k - 1);
    }
    if StandsIn(c, p) && forall h: nat :: h < i && Child(e, h).Some? ==> !HasBin(Child(e, h).value) {
      var k: nat :| IsMet(c, p, k) && GoesDown(c, p, k);
      MetBelow(e, i, p, k);
      GoesDownBelow(e, i, p, k);
    }
  }

  lemma {:induction false} MetBelow(e: Expr, i: nat, p: Path, k: nat)
    requires !e.Bin? && Child(e, i).Some?
    ensures IsMet(e, [i] + p, k + 1) <==>
            IsMet(Child(e, i).value, p, k) && forall h: nat :: h < i && Child(e, h).Some? ==> !HasBin(Child(e, h).value)
  {
    var c, q := Child(e, i).value, [i] + p;
    forall j | 1 <= j <= |q|
      ensures IsOperator(e, q[..j]) == IsOperator(c, p[..j - 1])
    {
      PrefixBelow(e, i, p, j);
    }
    assert q[..0] == [];
    if IsMet(e, q, k + 1) {
      NothingEarlier(e, i, p, k);
      forall j | 0 <= j < k
        ensures !IsOperator(c, p[..j])
      {
        assert !IsOperator(e, q[..j + 1]);
      }
    }
    if IsMet(c, p, k) && forall h: nat :: h < i && Child(e, h).Some? ==> !HasBin(Child(e, h).value) {
      NothingTurnsOff(e, i, p, k);
    }
  }

  lemma {:induction false} NothingEarlier(e: Expr, i: nat, p: Path, k: nat)
    requires Child(e, i).Some? && (forall q :: IsOperator(e, q) ==> !TurnsOffBefore(q, [i] + p, k + 1))
    ensures forall h: nat :: h < i && Child(e, h).Some? ==> !HasBin(Child(e, h).value)
    ensures forall q :: IsOperator(Child(e, i).value, q) ==> !TurnsOffBefore(q, p, k)
  {
    forall h: nat | h < i && Child(e, h).Some?
      ensures !HasBin(Child(e, h).value)
    {
      HasBinIff(Child(e, h).value);
      forall q
        ensures !IsOperator(Child(e, h).value, q)
      {
        SubExprBelow(e, h, q);
        var x := [h] + q;
        assert IsOperator(e, x) == IsOperator(Child(e, h).value, q);
        assert x[..0] == ([i] + p)[..0] && x[0] < ([i] + p)[0];
        assert TurnsOffBefore(x, [i] + p, k + 1);
      }
    }
    forall q | IsOperator(Child(e, i).value, q)
      ensures !TurnsOffBefore(q, p, k)
    {
      SubExprBelow(e, i, q);
      assert IsOperator(e, [i] + q);
      TurnsOffBelow(i, q, p, k);
    }
  }

  lemma {:induction false} TurnsOffBelow(i: nat, q: Path, p: Path, k: nat)
    ensures TurnsOffBefore([i] + q, [i] + p, k + 1) <==> TurnsOffBefore(q, p, k)
  {
    var x, y := [i] + q, [i] + p;
    if j :| 0 <= j < k + 1 && j < |x| && j < |y| && x[..j] == y[..j] && x[j] < y[j] {
      assert j > 0 && x[..j] == [i] + q[..j - 1] && y[..j] == [i] + p[..j - 1];
      assert q[..j - 1] == x[..j][1..] && p[..j - 1] == y[..j][1..];
      assert q[j - 1] < p[j - 1];
    }
    if j :| 0 <= j < k && j < |q| && j < |p| && q[..j] == p[..j] && q[j] < p[j] {
      assert x[..j + 1] == [i] + q[..j] && y[..j + 1] == [i] + p[..j];
      assert x[j + 1] < y[j + 1];
    }
  }

  lemma {:induction false} NothingTurnsOff(e: Expr, i: nat, p: Path, k: nat)
    requires !e.Bin? && Child(e, i).Some?
    requires forall h: nat :: h < i && Child(e, h).Some? ==> !HasBin(Child(e, h).value)
    requires forall q :: IsOperator(Child(e, i).value, q) ==> !TurnsOffBefore(q, p, k)
    ensures forall q :: IsOperator(e, q) ==> !TurnsOffBefore(q, [i] + p, k + 1)
  {
    forall q | IsOperator(e, q)
      ensures !TurnsOffBefore(q, [i] + p, k + 1)
    {
      assert q != [];
      SplitPath(q);
      SubExprBelow(e, q[0], q[1..]);
      var c := Child(e, q[0]).value;
      assert IsOperator(c, q[1..]);
      HasBinIff(c);
      if q[0] == i {
        TurnsOffBelow(i, q[1..], p, k);
      } else if q[0] > i {
        LaterChild(q, [i] + p, k + 1);
      } else {
        assert false;
      }
    }
  }

  lemma {:induction false} LaterChild(q: Path, p: Path, k: nat)
    requires q != [] && p != [] && q[0] > p[0]
    ensures !TurnsOffBefore(q, p, k)
  {
    forall j | 0 < j < |q| && j < |p|
      ensures q[..j] != p[..j]
    {
      assert q[..j][0] == q[0] && p[..j][0] == p[0];
    }
  }

  // What is collected from a traversed expression.
  lemma {:induction false} FoundIff(e: Expr, at: Path, p: Path)
    ensures at + p in Found(e, at) <==> StandsIn(e, p)
    decreases e, 0
  {
    if p != [] {
      SplitPath(p);
      JoinPath(at, p[0], p[1..]);
      SubExprBelow(e, p[0], p[1..]);
      if !e.Bin? && Child(e, p[0]).Some? {
        StandsInBelow(e, p[0], p[1..]);
      }
    }
    match e
    case Lit(_) =>
    case Var(_) =>
    case Paren(sub) => FoundInChild(sub, at, 0, p);
    case Cast(_, sub) => FoundInChild(sub, at, 0, p);
    case Unary(_, sub) => FoundInChild(sub, at, 0, p);
    case Bin(_, l, r) =>
      StandsInBin(e, p);
      FoundOperandIff(e, at, p);
      FoundOperandDistinct(l, at + [0]);
      FoundOperandDistinct(r, at + [1]);
      assert FoundOperand(e, at) == [at] + FoundOperand(l, at + [0]) + FoundOperand(r, at + [1]);
      if p == [] {
        NotThrough(at, 0, FoundOperand(l, at + [0]), p);
        NotThrough(at, 1, FoundOperand(r, at + [1]), p);
      } else {
        assert at + p != at;
      }
    case Cond(c, t, f) =>
      FoundInChild(c, at, 0, p);
      FoundInChild(t, at, 1, p);
      FoundInChild(f, at, 2, p);
      assert Child(e, 0) == Some(c) && Child(e, 1) == Some(t) && Child(e, 2) == Some(f);
  }

  lemma {:induction false} FoundInChild(c: Expr, at: Path, i: nat, p: Path)
    ensures at + p in Found(c, at + [i]) <==> p != [] && p[0] == i && StandsIn(c, p[1..])
    decreases c, 1
  {
    FoundDistinct(c, at + [i]);
    if p == [] || p[0] != i {
      NotThrough(at, i, Found(c, at + [i]), p);
    } else {
      SplitPath(p);
      JoinPath(at, i, p[1..]);
      FoundIff(c, at + [i], p[1..]);
    }
  }

  // ----- Order -----

  // In the order of the text, what surrounds something before it.
  predicate Before(p: Path, q: Path) {
    q != [] && (p == [] || p[0] < q[0] || (p[0] == q[0] && Before(p[1..], q[1..])))
  }

  ghost predicate PathsAscend(ps: seq<Path>) {
    forall i, j :: 0 <= i < j < |ps| ==> Before(ps[i], ps[j])
  }

  lemma {:induction false} BeforeUnder(at: Path, p: Path, q: Path)
    ensures Before(at + p, at + q) <==> Before(p, q)
    decreases |at|
  {
    if at == [] {
      assert at + p == p && at + q == q;
    } else {
      assert (at + p)[1..] == at[1..] + p && (at + q)[1..] == at[1..] + q;
      BeforeUnder(at[1..], p, q);
    }
  }

  lemma {:induction false} BeforeStep(i: nat, p: Path, j: nat, q: Path)
    ensures Before([i] + p, [j] + q) <==> i < j || (i == j && Before(p, q))
  {
    assert ([i] + p)[1..] == p && ([j] + q)[1..] == q;
  }

  // What goes through an earlier child, and what goes through a later one.
  lemma {:induction false} BeforeApart(at: Path, i: nat, p: Path, j: nat, q: Path)
    requires at + [i] <= p && at + [j] <= q && i < j
    ensures Before(p, q) && Before(at, p)
  {
    var x, y := p[|at| + 1..], q[|at| + 1..];
    assert p == at + ([i] + x) && q == at + ([j] + y) && at == at + [];
    BeforeUnder(at, [i] + x, [j] + y);
    BeforeUnder(at, [], [i] + x);
  }

  lemma {:induction false} AscendConcat(at: Path, i: nat, ps: seq<Path>, j: nat, qs: seq<Path>)
    requires PathsAscend(ps) && PathsAscend(qs) && Through(at + [i], ps) && Through(at + [j], qs) && i < j
    ensures PathsAscend(ps + qs)
  {
    forall a, b | 0 <= a < |ps| && 0 <= b < |qs|
      ensures Before(ps[a], qs[b])
    {
      assert ps[a] in ps && qs[b] in qs;
      BeforeApart(at, i, ps[a], j, qs[b]);
    }
  }

  lemma {:induction false} AscendThree(ps: seq<Path>, qs: seq<Path>, rs: seq<Path>)
    requires PathsAscend(ps + qs) && PathsAscend(ps + rs) && PathsAscend(qs + rs)
    ensures PathsAscend(ps + qs + rs)
  {
    var all, n := ps + qs + rs, |ps + qs|;
    forall i, j | 0 <= i < j < |all|
      ensures Before(all[i], all[j])
    {
      if j < n {
        assert all[i] == (ps + qs)[i] && all[j] == (ps + qs)[j];
      } else if i < |ps| {
        assert all[i] == (ps + rs)[i] && all[j] == (ps + rs)[j - |qs|];
      } else {
        assert all[i] == (qs + rs)[i - |ps|] && all[j] == (qs + rs)[j - |ps|];
      }
    }
  }

  lemma {:induction false} FoundOperandAscends(e: Expr, at: Path)
    ensures PathsAscend(FoundOperand(e, at))
    decreases e
  {
    match e
    case Paren(sub) => FoundOperandAscends(sub, at + [0]);
    case Cast(_, sub) => FoundOperandAscends(sub, at + [0]);
    case Bin(_, l, r) =>
      FoundOperandAscends(l, at + [0]);
      FoundOperandAscends(r, at + [1]);
      OperandsAscend(l, r, at);
      var ps := FoundOperand(l, at + [0]) + FoundOperand(r, at + [1]);
      forall k | 0 <= k < |ps|
        ensures Before(at, ps[k])
      {
        FoundOperandDistinct(l, at + [0]);
        FoundOperandDistinct(r, at + [1]);
        var i := if k < |FoundOperand(l, at + [0])| then 0 else 1;
        assert ps[k] in FoundOperand(l, at + [0]) || ps[k] in FoundOperand(r, at + [1]);
        assert ps[k] in FoundOperand(if i == 0 then l else r, at + [i]);
        BeforeApart(at, i, ps[k], i + 1, at + [i + 1]);
      }
      assert FoundOperand(e, at) == [at] + ps;
    case _ =>
  }

  lemma {:induction false} OperandsAscend(l: Expr, r: Expr, at: Path)
    requires PathsAscend(FoundOperand(l, at + [0])) && PathsAscend(FoundOperand(r, at + [1]))
    ensures PathsAscend(FoundOperand(l, at + [0]) + FoundOperand(r, at + [1]))
  {
    FoundOperandDistinct(l, at + [0]);
    FoundOperandDistinct(r, at + [1]);
    AscendConcat(at, 0, FoundOperand(l, at + [0]), 1, FoundOperand(r, at + [1]));
  }

  lemma {:induction false} FoundAscends(e: Expr, at: Path)
    ensures PathsAscend(Found(e, at))
    decreases e
  {
    match e
    case Lit(_) =>
    case Var(_) =>
    case Paren(sub) => FoundAscends(sub, at + [0]);
    case Cast(_, sub) => FoundAscends(sub, at + [0]);
    case Unary(_, sub) => FoundAscends(sub, at + [0]);
    case Bin(_, l, r) =>
      FoundOperandAscends(l, at + [0]);
      FoundOperandAscends(r, at + [1]);
      OperandsAscend(l, r, at);
    case Cond(c, t, f) =>
      FoundAscends(c, at + [0]);
      FoundAscends(t, at + [1]);
      FoundAscends(f, at + [2]);
      FoundDistinct(c, at + [0]);
      FoundDistinct(t, at + [1]);
      FoundDistinct(f, at + [2]);
      var inT := if HasBin(c) then [] else Found(t, at + [1]);
      var inF := if HasBin(c) || HasBin(t) then [] else Found(f, at + [2]);
      AscendConcat(at, 0, Found(c, at + [0]), 1, inT);
      AscendConcat(at, 0, Found(c, at + [0]), 2, inF);
      AscendConcat(at, 1, inT, 2, inF);
      AscendThree(Found(c, at + [0]), inT, inF);
  }

  predicate SiteBefore(a: Site, b: Site) {
    Before(a.stmt, b.stmt) || (a.stmt == b.stmt && Before(a.expr, b.expr))
  }

  ghost predicate SitesAscend(sites: seq<Site>) {
    forall i, j :: 0 <= i < j < |sites| ==> SiteBefore(sites[i], sites[j])
  }

  lemma {:induction false} AtAscends(at: Path, ps: seq<Path>, needParen: bool)
    requires PathsAscend(ps)
    ensures SitesAscend(At(at, ps, needParen))
  {
  }

  // Sites of a statement itself or of its children up to number i, and those of a later child.
  ghost predicate UpTo(at: Path, i: nat, xs: seq<Site>) {
    forall k :: 0 <= k < |xs| ==> xs[k].stmt == at || exists h: nat :: h < i && at + [h] <= xs[k].stmt
  }

  lemma {:induction false} SitesConcat(at: Path, i: nat, xs: seq<Site>, ys: seq<Site>)
    requires SitesAscend(xs) && SitesAscend(ys) && UpTo(at, i, xs) && StmtsThrough(at + [i], ys)
    ensures SitesAscend(xs + ys) && UpTo(at, i + 1, xs + ys)
  {
    forall a, b | 0 <= a < |xs| && 0 <= b < |ys|
      ensures SiteBefore(xs[a], ys[b])
    {
      assert ys[b] in ys;
      if xs[a].stmt == at {
        BeforeApart(at, i, ys[b].stmt, i + 1, at + [i + 1]);
      } else {
        var h: nat :| h < i && at + [h] <= xs[a].stmt;
        BeforeApart(at, h, xs[a].stmt, i, ys[b].stmt);
      }
    }
    forall k | 0 <= k < |xs + ys|
      ensures (xs + ys)[k].stmt == at || exists h: nat :: h < i + 1 && at + [h] <= (xs + ys)[k].stmt
    {
      if k < |xs| {
        if h: nat :| h < i && at + [h] <= xs[k].stmt {
          assert h < i + 1 && at + [h] <= (xs + ys)[k].stmt;
        }
      } else {
        assert ys[k - |xs|] in ys && at + [i] <= (xs + ys)[k].stmt;
      }
    }
  }

  // The operands are collected in the order of the text, the condition of a loop before its body.
  lemma {:induction false} SitesInOrder(s: Stmt, at: Path, needParen: bool)
    ensures SitesAscend(Sites(s, at, needParen).0)
    decreases s, 1
  {
    if !s.Block? {
      FoundAscends(s.e, []);
      FoundOperandAscends(s.e, []);
      AtAscends(at, Found(s.e, []), needParen);
      AtAscends(at, FoundOperand(s.e, []), needParen);
    }
    match s
    case Block(ss) => SitesOfAllInOrder(ss, 0, at, needParen);
    case If(c, t, f) =>
      var head := At(at, Found(c, []), needParen);
      var (inThen, np1) := SitesOfBranch(t, at + [0], needParen);
      BranchInOrder(t, at, 0, needParen);
      SitesConcat(at, 0, head, inThen);
      if f.Some? {
        BranchInOrder(f.value, at, 1, np1);
        SitesConcat(at, 1, head + inThen, SitesOfBranch(f.value, at + [1], np1).0);
      }
    case While(c, b) =>
      BranchInOrder(b, at, 0, needParen);
      SitesConcat(at, 0, At(at, Found(c, []), needParen), SitesOfBranch(b, at + [0], needParen).0);
    case Do(b, c) =>
      BranchInOrder(b, at, 0, needParen);
      SitesConcat(at, 0, At(at, Found(c, []), needParen), SitesOfBranch(b, at + [0], needParen).0);
    case _ =>
  }

  lemma {:induction false} BranchInOrder(b: Stmt, at: Path, i: nat, needParen: bool)
    ensures SitesAscend(SitesOfBranch(b, at + [i], needParen).0) && StmtsThrough(at + [i], SitesOfBranch(b, at + [i], needParen).0)
    decreases b, 2
  {
    SitesInOrder(b, at + [i], if b.Block? then needParen else true);
    SitesDistinct(b, at + [i], if b.Block? then needParen else true);
  }

  lemma {:induction false} SitesOfAllInOrder(ss: seq<Stmt>, i: nat, at: Path, needParen: bool)
    requires i <= |ss|
    ensures SitesAscend(SitesOfAll(ss, i, at, needParen).0)
    decreases ss, 1, |ss| - i
  {
    if i < |ss| {
      var (first, np1) := Sites(ss[i], at + [i], needParen);
      var rest := SitesOfAll(ss, i + 1, at, np1).0;
      SitesInOrder(ss[i], at + [i], needParen);
      SitesDistinct(ss[i], at + [i], needParen);
      SitesOfAllInOrder(ss, i + 1, at, np1);
      SitesOfAllDistinct(ss, i + 1, at, np1);
      forall a, b | 0 <= a < |first| && 0 <= b < |rest|
        ensures SiteBefore(first[a], rest[b])
      {
        assert first[a] in first && rest[b] in rest;
        var y := rest[b].stmt;
        assert at + [y[|at|]] <= y;
        BeforeApart(at, i, first[a].stmt, y[|at|], y);
      }
    }
  }

  // ----- Statements and braces -----

  // An operand at a path in the expression of the statement at another path is to be collected.
  ghost predicate Collects(s: Stmt, p: Path, x: Path) {
    && SubStmt(s, p).Some? && !SubStmt(s, p).value.Block?
    && (if SubStmt(s, p).value.Update? then OperandAt(SubStmt(s, p).value.e, x) else StandsIn(SubStmt(s, p).value.e, x))
  }

  // A branch or a loop body without braces.
  predicate IsBranch(s: Stmt, q: Path) {
    && q != [] && SubStmt(s, q).Some? && !SubStmt(s, q).value.Block?
    && SubStmt(s, q[..|q| - 1]).Some? && !SubStmt(s, q[..|q| - 1]).value.Block?
  }

  // Among such bodies around the statement, one after whose start no other one in it has ended.
  ghost predicate LastSet(s: Stmt, p: Path, q: Path) {
    q <= p && IsBranch(s, q) && forall r :: IsBranch(s, r) && q <= r && Before(r, p) ==> r <= p
  }

  ghost predicate NoneEnded(s: Stmt, p: Path) {
    forall r :: IsBranch(s, r) && Before(r, p) ==> r <= p
  }

  // The flag at a statement, given what it was at the start.
  ghost predicate Braced(s: Stmt, p: Path, needParen: bool) {
    (exists q :: LastSet(s, p, q)) || (needParen && NoneEnded(s, p))
  }

  ghost predicate NoBranch(s: Stmt) {
    forall q :: !IsBranch(s, q)
  }

  ghost predicate NoneEarlier(s: Stmt, i: nat) {
    forall h: nat, q: Path :: h < i ==> !IsBranch(s, [h] + q)
  }

  lemma {:induction false} SubStmtBelow(s: Stmt, i: nat, p: Path)
    ensures SubStmt(s, [i] + p) == if StmtChild(s, i).Some? then SubStmt(StmtChild(s, i).value, p) else None
  {
    assert ([i] + p)[1..] == p;
  }

  lemma {:induction false} CollectsBelow(s: Stmt, i: nat, p: Path, x: Path)
    ensures Collects(s, [i] + p, x) <==> StmtChild(s, i).Some? && Collects(StmtChild(s, i).value, p, x)
  {
    SubStmtBelow(s, i, p);
  }

  lemma {:induction false} BranchBelow(s: Stmt, i: nat, q: Path)
    ensures IsBranch(s, [i] + q) <==>
            StmtChild(s, i).Some? &&
            if q == [] then !StmtChild(s, i).value.Block? && !s.Block? else IsBranch(StmtChild(s, i).value, q)
  {
    var r := [i] + q;
    SubStmtBelow(s, i, q);
    if q == [] {
      assert r[..0] == [];
    } else {
      assert r[..|r| - 1] == [i] + q[..|q| - 1];
      SubStmtBelow(s, i, q[..|q| - 1]);
    }
  }

  lemma {:induction false} PrefixStep(i: nat, q: Path, j: nat, p: Path)
    ensures [i] + q <= [j] + p <==> i == j && q <= p
  {
    if [i] + q <= [j] + p {
      assert ([i] + q)[0] == ([j] + p)[0];
      assert forall k :: 0 <= k < |q| ==> q[k] == ([i] + q)[k + 1] == ([j] + p)[k + 1] == p[k];
    }
    if i == j && q <= p {
      assert [j] + p == ([i] + q) + p[|q|..];
    }
  }

  // The flag in a child.
  function ChildFlag(s: Stmt, i: nat, needParen: bool): bool
    requires StmtChild(s, i).Some?
  {
    (!StmtChild(s, i).value.Block? && !s.Block?) || needParen
  }

  lemma {:induction false} BracedInside(s: Stmt, i: nat, p: Path, needParen: bool)
    requires StmtChild(s, i).Some? && Braced(s, [i] + p, needParen)
    ensures Braced(StmtChild(s, i).value, p, ChildFlag(s, i, needParen && NoneEarlier(s, i)))
  {
    var c := StmtChild(s, i).value;
    BranchBelow(s, i, []);
    if q :| LastSet(s, [i] + p, q) {
      SplitPath(q);
      assert q[0] == ([i] + p)[0];
      PrefixStep(i, q[1..], i, p);
      forall r | IsBranch(c, r) && Before(r, p) && q[1..] <= r
        ensures r <= p
      {
        BranchBelow(s, i, r);
        BeforeStep(i, r, i, p);
        PrefixStep(i, q[1..], i, r);
        PrefixStep(i, r, i, p);
      }
      if q[1..] == [] {
        assert NoneEnded(c, p) && [i] + [] == q;
      } else {
        BranchBelow(s, i, q[1..]);
        assert LastSet(c, p, q[1..]);
      }
    } else {
      assert NoneEnded(s, [i] + p);
      NoneEndedInside(s, i, p);
    }
  }

  lemma {:induction false} NoneEndedInside(s: Stmt, i: nat, p: Path)
    requires StmtChild(s, i).Some? && NoneEnded(s, [i] + p)
    ensures NoneEnded(StmtChild(s, i).value, p) && NoneEarlier(s, i)
  {
    var c := StmtChild(s, i).value;
    forall r | IsBranch(c, r) && Before(r, p)
      ensures r <= p
    {
      BranchBelow(s, i, r);
      BeforeStep(i, r, i, p);
      PrefixStep(i, r, i, p);
    }
    forall h: nat, q: Path | h < i
      ensures !IsBranch(s, [h] + q)
    {
      BeforeStep(h, q, i, p);
      PrefixStep(h, q, i, p);
    }
  }

  lemma {:induction false} BracedOutside(s: Stmt, i: nat, p: Path, needParen: bool)
    requires StmtChild(s, i).Some? && Braced(StmtChild(s, i).value, p, ChildFlag(s, i, needParen && NoneEarlier(s, i)))
    ensures Braced(s, [i] + p, needParen)
  {
    var c := StmtChild(s, i).value;
    if q :| LastSet(c, p, q) {
      BranchBelow(s, i, q);
      PrefixStep(i, q, i, p);
      forall r | IsBranch(s, r) && [i] + q <= r && Before(r, [i] + p)
        ensures r <= [i] + p
      {
        EndedBelow(s, i, q, r, p);
      }
      assert LastSet(s, [i] + p, [i] + q);
    } else {
      assert NoneEnded(c, p);
      BranchBelow(s, i, []);
      if !c.Block? && !s.Block? {
        PrefixStep(i, [], i, p);
        assert [i] + [] == [i];
        forall r | IsBranch(s, r) && [i] <= r && Before(r, [i] + p)
          ensures r <= [i] + p
        {
          EndedBelow(s, i, [], r, p);
        }
        assert LastSet(s, [i] + p, [i]);
      } else {
        forall r | IsBranch(s, r) && Before(r, [i] + p)
          ensures r <= [i] + p
        {
          SplitPath(r);
          BeforeStep(r[0], r[1..], i, p);
          BranchBelow(s, r[0], r[1..]);
          PrefixStep(r[0], r[1..], i, p);
        }
      }
    }
  }

  lemma {:induction false} EndedBelow(s: Stmt, i: nat, q: Path, r: Path, p: Path)
    requires StmtChild(s, i).Some? && IsBranch(s, r) && [i] + q <= r && Before(r, [i] + p)
    requires forall x :: IsBranch(StmtChild(s, i).value, x) && q <= x && Before(x, p) ==> x <= p
    ensures r <= [i] + p
  {
    SplitPath(r);
    PrefixStep(i, q, r[0], r[1..]);
    BeforeStep(r[0], r[1..], i, p);
    BranchBelow(s, r[0], r[1..]);
    PrefixStep(r[0], r[1..], i, p);
  }

  lemma {:induction false} BracedBelow(s: Stmt, i: nat, p: Path, needParen: bool)
    requires StmtChild(s, i).Some?
    ensures Braced(s, [i] + p, needParen) <==>
            Braced(StmtChild(s, i).value, p, ChildFlag(s, i, needParen && NoneEarlier(s, i)))
  {
    if Braced(s, [i] + p, needParen) {
      BracedInside(s, i, p, needParen);
    }
    if Braced(StmtChild(s, i).value, p, ChildFlag(s, i, needParen && NoneEarlier(s, i))) {
      BracedOutside(s, i, p, needParen);
    }
  }

  lemma {:induction false} BracedHere(s: Stmt, needParen: bool)
    ensures Braced(s, [], needParen) <==> needParen
  {
  }

  // Branches up to child number i.
  lemma {:induction false} NoneEarlierNext(s: Stmt, i: nat)
    requires StmtChild(s, i).Some?
    ensures NoneEarlier(s, i + 1) <==>
            NoneEarlier(s, i) && (StmtChild(s, i).value.Block? || s.Block?) && NoBranch(StmtChild(s, i).value)
  {
    var c := StmtChild(s, i).value;
    BranchBelow(s, i, []);
    if NoneEarlier(s, i + 1) {
      forall q
        ensures !IsBranch(c, q)
      {
        BranchBelow(s, i, q);
      }
      assert !IsBranch(s, [i] + []);
    }
    if NoneEarlier(s, i) && (c.Block? || s.Block?) && NoBranch(c) {
      forall h: nat, q: Path | h < i + 1
        ensures !IsBranch(s, [h] + q)
      {
        BranchBelow(s, i, q);
      }
    }
  }

  lemma {:induction false} NoBranchIff(s: Stmt, n: nat)
    requires forall i: nat :: StmtChild(s, i).Some? ==> i < n
    ensures NoBranch(s) <==> NoneEarlier(s, n)
  {
    if NoneEarlier(s, n) {
      forall q
        ensures !IsBranch(s, q)
      {
        if q != [] {
          SplitPath(q);
          BranchBelow(s, q[0], q[1..]);
        }
      }
    }
  }

  // ----- What the traversal yields -----

  // A site is among those of the statement exactly when it is to be collected and the flag is right.
  ghost predicate SitesAre(s: Stmt, at: Path, needParen: bool, p: Path, x: Path, f: bool) {
    Site(at + p, x, f) in Sites(s, at, needParen).0 <==> Collects(s, p, x) && f == Braced(s, p, needParen)
  }

  lemma {:induction false} SitesIff(s: Stmt, at: Path, needParen: bool, p: Path, x: Path, f: bool)
    ensures SitesAre(s, at, needParen, p, x, f)
    ensures Sites(s, at, needParen).1 == (needParen && NoBranch(s))
    decreases s, 1
  {
    if p == [] {
      BracedHere(s, needParen);
    } else {
      SplitPath(p);
      CollectsBelow(s, p[0], p[1..], x);
      if StmtChild(s, p[0]).Some? {
        BracedBelow(s, p[0], p[1..], needParen);
      }
    }
    if !s.Block? {
      HeadIff(s, at, needParen, p, x, f);
    }
    match s
    case Block(ss) =>
      SitesOfAllIff(s, 0, at, needParen, p, x, f);
    case If(_, _, _) => IfIff(s, at, needParen, p, x, f);
    case While(_, b) =>
      BranchIff(s, 0, at, needParen, p, x, f);
      NoneEarlierNext(s, 0);
      NoBranchIff(s, 1);
    case Do(b, _) =>
      BranchIff(s, 0, at, needParen, p, x, f);
      NoneEarlierNext(s, 0);
      NoBranchIff(s, 1);
    case _ => NoBranchIff(s, 0);
  }

  // The operands of the statement's own expression.
  lemma {:induction false} HeadIff(s: Stmt, at: Path, needParen: bool, p: Path, x: Path, f: bool)
    requires !s.Block?
    ensures
      var ps := if s.Update? then FoundOperand(s.e, []) else Found(s.e, []);
      Site(at + p, x, f) in At(at, ps, needParen) <==> p == [] && Collects(s, [], x) && f == needParen
  {
    var ps := if s.Update? then FoundOperand(s.e, []) else Found(s.e, []);
    FoundIff(s.e, [], x);
    FoundOperandIff(s.e, [], x);
    assert [] + x == x;
    if p == [] {
      assert at + p == at;
      if x in ps && f == needParen {
        var i :| 0 <= i < |ps| && ps[i] == x;
        assert At(at, ps, needParen)[i] == Site(at, x, f);
      }
    } else {
      assert at + p != at;
    }
  }

  // Those of child number i, when it is a branch or a body of a statement.
  lemma {:induction false} BranchIff(s: Stmt, i: nat, at: Path, needParen: bool, p: Path, x: Path, f: bool)
    requires !s.Block? && StmtChild(s, i).Some?
    ensures
      var c := StmtChild(s, i).value;
      && (Site(at + p, x, f) in SitesOfBranch(c, at + [i], needParen).0 <==>
          p != [] && p[0] == i && Collects(c, p[1..], x) && f == Braced(c, p[1..], ChildFlag(s, i, needParen)))
      && SitesOfBranch(c, at + [i], needParen).1 == (needParen && c.Block? && NoBranch(c))
    decreases s, 0, 0
  {
    var c := StmtChild(s, i).value;
    var sites := SitesOfBranch(c, at + [i], needParen).0;
    BranchDistinct(c, at, i, needParen);
    if p == [] || p[0] != i {
      forall y | y in sites
        ensures y.stmt != at + p
      {
        assert y.stmt[|at|] == i && (p != [] ==> (at + p)[|at|] == p[0]);
      }
      if p != [] {
        SitesIff(c, at + [i], ChildFlag(s, i, needParen), [], x, f);
      } else {
        SitesIff(c, at + [i], ChildFlag(s, i, needParen), [], x, f);
      }
    } else {
      SplitPath(p);
      JoinPath(at, i, p[1..]);
      SitesIff(c, at + [i], ChildFlag(s, i, needParen), p[1..], x, f);
    }
  }

  lemma {:induction false} IfIff(s: Stmt, at: Path, needParen: bool, p: Path, x: Path, f: bool)
    requires s.If?
    ensures SitesAre(s, at, needParen, p, x, f)
    ensures Sites(s, at, needParen).1 == (needParen && NoBranch(s))
    decreases s, 0, 1
  {
    if p == [] {
      BracedHere(s, needParen);
    } else {
      SplitPath(p);
      CollectsBelow(s, p[0], p[1..], x);
      if StmtChild(s, p[0]).Some? {
        BracedBelow(s, p[0], p[1..], needParen);
      }
    }
    HeadIff(s, at, needParen, p, x, f);
    BranchIff(s, 0, at, needParen, p, x, f);
    NoneEarlierNext(s, 0);
    var np1 := SitesOfBranch(s.thn, at + [0], needParen).1;
    assert np1 == (needParen && NoneEarlier(s, 1));
    if s.els.Some? {
      BranchIff(s, 1, at, np1, p, x, f);
      NoneEarlierNext(s, 1);
      NoBranchIff(s, 2);
    } else {
      NoBranchIff(s, 1);
    }
  }

  lemma {:induction false} SitesOfAllIff(s: Stmt, i: nat, at: Path, needParen: bool, p: Path, x: Path, f: bool)
    requires s.Block? && i <= |s.body|
    ensures
      var flag := needParen && NoneEarlier(s, i);
      && (Site(at + p, x, f) in SitesOfAll(s.body, i, at, flag).0 <==>
          p != [] && i <= p[0] < |s.body| && Collects(s.body[p[0]], p[1..], x) &&
          f == Braced(s.body[p[0]], p[1..], needParen && NoneEarlier(s, p[0])))
      && SitesOfAll(s.body, i, at, flag).1 == (needParen && NoBranch(s))
    decreases s, 0, |s.body| - i
  {
    var flag := needParen && NoneEarlier(s, i);
    if i == |s.body| {
      NoBranchIff(s, i);
    } else {
      var c := s.body[i];
      NoneEarlierNext(s, i);
      MemberIff(s, i, at, flag, p, x, f);
      SitesOfAllIff(s, i + 1, at, needParen, p, x, f);
    }
  }

  lemma {:induction false} MemberIff(s: Stmt, i: nat, at: Path, flag: bool, p: Path, x: Path, f: bool)
    requires s.Block? && i < |s.body|
    ensures
      var c := s.body[i];
      && (Site(at + p, x, f) in Sites(c, at + [i], flag).0 <==>
          p != [] && p[0] == i && Collects(c, p[1..], x) && f == Braced(c, p[1..], flag))
      && Sites(c, at + [i], flag).1 == (flag && NoBranch(c))
    decreases s, 0, 0
  {
    var c := s.body[i];
    SitesDistinct(c, at + [i], flag);
    if p == [] || p[0] != i {
      forall y | y in Sites(c, at + [i], flag).0
        ensures y.stmt != at + p
      {
        assert at + [i] <= y.stmt;
        assert y.stmt[|at|] == (at + [i])[|at|] == i && (p != [] ==> (at + p)[|at|] == p[0]);
      }
      SitesIff(c, at + [i], flag, [], x, f);
    } else {
      SplitPath(p);
      JoinPath(at, i, p[1..]);
      SitesIff(c, at + [i], flag, p[1..], x, f);
    }
  }

  // ----- The sites of a body -----

  // All operands to be collected, each with its flag, in the order of the text.
  ghost predicate AreTheSites(body: Stmt, sites: seq<Site>) {
    && (forall p, x, f :: Site(p, x, f) in sites <==> Collects(body, p, x) && f == Braced(body, p, false))
    && SitesAscend(sites)
  }

  // The traversal yields them, and there is but one such list.
  lemma {:induction false} SitesComplete(body: Stmt, sites: seq<Site>)
    ensures AreTheSites(body, sites) <==> sites == Sites(body, [], false).0
  {
    var found := Sites(body, [], false).0;
    forall p, x, f
      ensures Site(p, x, f) in found <==> Collects(body, p, x) && f == Braced(body, p, false)
    {
      SitesIff(body, [], false, p, x, f);
      assert [] + p == p;
    }
    SitesInOrder(body, [], false);
    if AreTheSites(body, sites) {
      forall y
        ensures y in sites <==> y in found
      {
        assert y == Site(y.stmt, y.expr, y.needParen);
      }
      OneOrder(sites, found);
    }
  }

  lemma {:induction false} BeforeIsStrict(p: Path)
    ensures !Before(p, p)
  {
    if p != [] {
      BeforeIsStrict(p[1..]);
    }
  }

  lemma {:induction false} BeforeOneWay(p: Path, q: Path)
    requires Before(p, q)
    ensures !Before(q, p)
  {
    if p != [] && p[0] == q[0] {
      BeforeOneWay(p[1..], q[1..]);
    }
  }

  lemma {:induction false} SiteBeforeOneWay(a: Site, b: Site)
    ensures SiteBefore(a, b) ==> !SiteBefore(b, a) && a != b
  {
    BeforeIsStrict(a.stmt);
    BeforeIsStrict(a.expr);
    if Before(a.stmt, b.stmt) {
      BeforeOneWay(a.stmt, b.stmt);
    } else if a.stmt == b.stmt && Before(a.expr, b.expr) {
      BeforeOneWay(a.expr, b.expr);
    }
  }

  lemma {:induction false} TailAscends(xs: seq<Site>)
    requires xs != [] && SitesAscend(xs)
    ensures SitesAscend(xs[1..])
  {
    var tail := xs[1..];
    forall i, j | 0 <= i < j < |tail|
      ensures SiteBefore(tail[i], tail[j])
    {
      assert tail[i] == xs[i + 1] && tail[j] == xs[j + 1];
    }
  }

  // Ascending lists with the same members are equal.
  lemma {:induction false} OneOrder(xs: seq<Site>, ys: seq<Site>)
    requires SitesAscend(xs) && SitesAscend(ys) && forall y :: y in xs <==> y in ys
    ensures xs == ys
    decreases |xs|
  {
    if xs != [] {
      assert xs[0] in ys;
    }
    if ys != [] {
      assert ys[0] in xs;
    }
    if xs != [] {
      FirstSame(xs, ys);
      forall y
        ensures y in xs[1..] <==> y in ys[1..]
      {
        TailMembers(xs, y);
        TailMembers(ys, y);
      }
      TailAscends(xs);
      TailAscends(ys);
      OneOrder(xs[1..], ys[1..]);
      assert xs == [xs[0]] + xs[1..] && ys == [ys[0]] + ys[1..];
    }
  }

  lemma {:induction false} FirstSame(xs: seq<Site>, ys: seq<Site>)
    requires xs != [] && ys != [] && SitesAscend(xs) && SitesAscend(ys) && forall y :: y in xs <==> y in ys
    ensures xs[0] == ys[0]
  {
    assert xs[0] in ys && ys[0] in xs;
    var i :| 0 <= i < |ys| && ys[i] == xs[0];
    var j :| 0 <= j < |xs| && xs[j] == ys[0];
    if i > 0 && j > 0 {
      SiteBeforeOneWay(ys[0], xs[0]);
    }
  }

  lemma {:induction false} TailMembers(xs: seq<Site>, y: Site)
    requires xs != [] && SitesAscend(xs)
    ensures y in xs[1..] <==> y in xs && y != xs[0]
  {
    if y in xs[1..] {
      var i :| 0 <= i < |xs[1..]| && xs[1..][i] == y;
      SiteBeforeOneWay(xs[0], xs[i + 1]);
    }
    if y in xs && y != xs[0] {
      var i :| 0 <= i < |xs| && xs[i] == y;
      assert xs[1..][i - 1] == y;
    }
  }

  // ----- What the edits leave -----

  lemma {:induction false} ReplacedBySame(e: Expr, p: Path)
    requires SubExpr(e, p).Some?
    ensures ReplaceExpr(e, p, SubExpr(e, p).value) == e
    decreases |p|
  {
    if p != [] {
      ReplacedBySame(Child(e, p[0]).value, p[1..]);
    }
  }

  // The operand is assigned to the temporary, which takes its place in the statement; nothing else changes.
  lemma {:induction false} HoistedIs(s: Stmt, p: Path, tmp: string)
    requires Head(s).Some? && SubExpr(Head(s).value, p).Some?
    ensures
      var two := Hoisted(s, p, tmp);
      && |two| == 2 && two[0] == Assign(tmp, SubExpr(s.e, p).value)
      && Head(two[1]).Some? && SubExpr(two[1].e, p) == Some(Var(tmp))
      && ReplaceExpr(two[1].e, p, SubExpr(s.e, p).value) == s.e && two[1].(e := s.e) == s
  {
    ReplacedTwice(s.e, p, Var(tmp), SubExpr(s.e, p).value);
    ReplacedBySame(s.e, p);
  }

  // Two statements are the same but for their children.
  predicate SameShell(a: Option<Stmt>, b: Option<Stmt>) {
    && a.Some? && b.Some? && Head(a.value) == Head(b.value)
    && a.value.Block? == b.value.Block? && a.value.If? == b.value.If? && a.value.While? == b.value.While?
    && a.value.Do? == b.value.Do? && (a.value.Block? ==> |a.value.body| == |b.value.body|)
  }

  // All is the same but for what is at a path and beneath it.
  ghost predicate SameOutside(s: Stmt, r: Stmt, top: Path) {
    forall q :: !(top <= q) ==> if q <= top then SameShell(SubStmt(s, q), SubStmt(r, q)) else SubStmt(r, q) == SubStmt(s, q)
  }

  lemma {:induction false} SameInChild(s: Stmt, i: nat, put: Stmt, top: Path)
    requires StmtChild(s, i).Some? && SameOutside(StmtChild(s, i).value, put, top)
    ensures SameOutside(s, WithStmtChild(s, i, put), [i] + top)
    ensures SubStmt(WithStmtChild(s, i, put), [i] + top) == SubStmt(put, top)
  {
    var r := WithStmtChild(s, i, put);
    ChildrenOf(s, i, put);
    SubStmtBelow(r, i, top);
    forall q | !([i] + top <= q)
      ensures if q <= [i] + top then SameShell(SubStmt(s, q), SubStmt(r, q)) else SubStmt(r, q) == SubStmt(s, q)
    {
      if q == [] {
        assert SubStmt(s, q) == Some(s) && SubStmt(r, q) == Some(r);
      } else {
        SplitPath(q);
        SubStmtBelow(s, q[0], q[1..]);
        SubStmtBelow(r, q[0], q[1..]);
        PrefixStep(i, top, q[0], q[1..]);
        PrefixStep(q[0], q[1..], i, top);
      }
    }
  }

  lemma {:induction false} ChildrenOf(s: Stmt, i: nat, put: Stmt)
    requires StmtChild(s, i).Some?
    ensures StmtChild(WithStmtChild(s, i, put), i) == Some(put)
    ensures forall j: nat :: j != i ==> StmtChild(WithStmtChild(s, i, put), j) == StmtChild(s, j)
    ensures SameShell(Some(s), Some(WithStmtChild(s, i, put)))
  {
  }

  lemma {:induction false} SameAtTop(s: Stmt, r: Stmt)
    ensures SameOutside(s, r, [])
  {
  }

  // The block that gets the two statements without braces.
  predicate InList(s: Stmt, site: Site) {
    site.stmt != [] && !site.needParen
    && SubStmt(s, site.stmt[..|site.stmt| - 1]).Some? && SubStmt(s, site.stmt[..|site.stmt| - 1]).value.Block?
  }

  // In braces the two statements take the place of the current one; otherwise they stand in its list. Nothing else changes.
  lemma {:induction false} RewriteIs(s: Stmt, site: Site, tmp: string)
    requires ValidSite(s, site)
    ensures !InList(s, site) ==>
      && SubStmt(Rewrite(s, site, tmp), site.stmt) == Some(Block(Hoisted(SubStmt(s, site.stmt).value, site.expr, tmp)))
      && SameOutside(s, Rewrite(s, site, tmp), site.stmt)
    ensures InList(s, site) ==>
      var up, i := site.stmt[..|site.stmt| - 1], site.stmt[|site.stmt| - 1];
      var ss := SubStmt(s, up).value.body;
      && i < |ss| && SubStmt(s, site.stmt) == Some(ss[i])
      && SubStmt(Rewrite(s, site, tmp), up) == Some(Block(ss[..i] + Hoisted(ss[i], site.expr, tmp) + ss[i + 1..]))
      && SameOutside(s, Rewrite(s, site, tmp), up)
    decreases |site.stmt|
  {
    var p := site.stmt;
    var r := Rewrite(s, site, tmp);
    if p == [] {
      SameAtTop(s, r);
    } else if |p| == 1 && s.Block? && !site.needParen {
      SpliceIs(s, site, tmp);
    } else {
      var i, rest := p[0], Site(p[1..], site.expr, site.needParen);
      SiteBelow(s, site, tmp);
      RewriteIs(StmtChild(s, i).value, rest, tmp);
      SplitPath(p);
      var put := Rewrite(StmtChild(s, i).value, rest, tmp);
      if |p| == 1 {
        assert p[..0] == [] && !InList(s, site) && p[1..] == [];
      } else {
        assert p[..|p| - 1] == [i] + p[1..][..|p| - 2];
        SubStmtBelow(s, i, p[1..][..|p| - 2]);
        assert InList(s, site) == InList(StmtChild(s, i).value, rest);
      }
      if InList(s, site) {
        SameInChild(s, i, put, p[1..][..|p| - 2]);
      } else {
        SameInChild(s, i, put, p[1..]);
      }
    }
  }

  lemma {:induction false} SpliceIs(s: Stmt, site: Site, tmp: string)
    requires ValidSite(s, site) && |site.stmt| == 1 && s.Block? && !site.needParen
    ensures
      var i, ss := site.stmt[0], s.body;
      && InList(s, site) && site.stmt[..0] == [] && i < |ss| && SubStmt(s, site.stmt) == Some(ss[i])
      && Head(ss[i]).Some? && SubExpr(ss[i].e, site.expr).Some?
      && Rewrite(s, site, tmp) == Block(ss[..i] + Hoisted(ss[i], site.expr, tmp) + ss[i + 1..])
      && SameOutside(s, Rewrite(s, site, tmp), [])
  {
    var i := site.stmt[0];
    assert site.stmt[1..] == [] && SubStmt(s, site.stmt) == SubStmt(s.body[i], []) == Some(s.body[i]);
    assert site.stmt[..0] == [];
    SameAtTop(s, Rewrite(s, site, tmp));
  }
}
