/**
 Which declaration every name of a function body stands for, before and after an operand is hoisted.
 Braces around a declaration (clang_delta/RewriteUtils.cpp:826-869) end the scope of its variable early.
 */
module HoistingScopes {
  import opened Decimal
  import opened Wrappers
  import opened StmtLanguage
  import opened Hoisting

  // ----- Names resolved -----

  // The declarations in scope, numbered in the order of the text.
  type Scope = map<string, nat>

  function LocalName(n: nat): string {
    "local " + Print(n)
  }

  function Named(sc: Scope, x: string): string {
    if x in sc then LocalName(sc[x]) else "outer " + x
  }

  function ResolveExpr(e: Expr, sc: Scope): Expr {
    match e
    case Lit(_) => e
    case Var(x) => Var(Named(sc, x))
    case Paren(sub) => Paren(ResolveExpr(sub, sc))
    case Cast(ty, sub) => Cast(ty, ResolveExpr(sub, sc))
    case Unary(op, sub) => Unary(op, ResolveExpr(sub, sc))
    case Bin(op, l, r) => Bin(op, ResolveExpr(l, sc), ResolveExpr(r, sc))
    case Cond(c, t, f) => Cond(ResolveExpr(c, sc), ResolveExpr(t, sc), ResolveExpr(f, sc))
  }

  // The number of declarations in a statement.
  function Decls(s: Stmt): nat {
    match s
    case Declare(_, _) => 1
    case Block(ss) => DeclsOfAll(ss)
    case If(_, t, f) => Decls(t) + if f.Some? then Decls(f.value) else 0
    case While(_, b) => Decls(b)
    case Do(b, _) => Decls(b)
    case _ => 0
  }

  function DeclsOfAll(ss: seq<Stmt>): nat {
    if ss == [] then 0 else Decls(ss[0]) + DeclsOfAll(ss[1..])
  }

  // The scope behind a statement that n declarations precede.
  function Beyond(s: Stmt, sc: Scope, n: nat): Scope {
    if s.Declare? then sc[s.x := n] else sc
  }

  // Every name is replaced by one that tells its declaration. A declared variable is in scope in its own initialiser.
  function Resolve(s: Stmt, sc: Scope, n: nat): Stmt
    decreases s, 0
  {
    match s
    case Assign(x, e) => Assign(Named(sc, x), ResolveExpr(e, sc))
    case Update(x, op, e) => Update(Named(sc, x), op, ResolveExpr(e, sc))
    case Return(e) => Return(ResolveExpr(e, sc))
    case Declare(x, e) => Declare(LocalName(n), ResolveExpr(e, sc[x := n]))
    case Block(ss) => Block(ResolveAll(ss, sc, n))
    case If(c, t, f) =>
      If(ResolveExpr(c, sc), Resolve(t, sc, n), ResolveElse(f, sc, n + Decls(t)))
    case While(c, b) => While(ResolveExpr(c, sc), Resolve(b, sc, n))
    case Do(b, c) => Do(Resolve(b, sc, n), ResolveExpr(c, sc))
  }

  function ResolveElse(f: Option<Stmt>, sc: Scope, n: nat): Option<Stmt>
    decreases f, 0
  {
    if f.Some? then Some(Resolve(f.value, sc, n)) else None
  }

  function ResolveAll(ss: seq<Stmt>, sc: Scope, n: nat): (rs: seq<Stmt>)
    ensures |rs| == |ss|
    decreases ss, |ss|
  {
    if ss == [] then []
    else [Resolve(ss[0], sc, n)] + ResolveAll(ss[1..], Beyond(ss[0], sc, n), n + Decls(ss[0]))
  }

  // The scope behind a list.
  function BeyondAll(ss: seq<Stmt>, sc: Scope, n: nat): Scope {
    if ss == [] then sc else BeyondAll(ss[1..], Beyond(ss[0], sc, n), n + Decls(ss[0]))
  }

  lemma {:induction false} ResolveConcat(pre: seq<Stmt>, ts: seq<Stmt>, sc: Scope, n: nat)
    ensures ResolveAll(pre + ts, sc, n) ==
            ResolveAll(pre, sc, n) + ResolveAll(ts, BeyondAll(pre, sc, n), n + DeclsOfAll(pre))
    ensures DeclsOfAll(pre + ts) == DeclsOfAll(pre) + DeclsOfAll(ts)
    decreases |pre|
  {
    if pre == [] {
      assert pre + ts == ts;
    } else {
      assert (pre + ts)[0] == pre[0] && (pre + ts)[1..] == pre[1..] + ts;
      var sc', n' := Beyond(pre[0], sc, n), n + Decls(pre[0]);
      ResolveConcat(pre[1..], ts, sc', n');
      assert ResolveAll(pre + ts, sc, n) == [Resolve(pre[0], sc, n)] + ResolveAll(pre[1..] + ts, sc', n');
      assert ResolveAll(pre, sc, n) == [Resolve(pre[0], sc, n)] + ResolveAll(pre[1..], sc', n');
    }
  }

  // The declarations in scope are earlier ones.
  predicate Earlier(sc: Scope, n: nat) {
    forall x :: x in sc ==> sc[x] < n
  }

  lemma {:induction false} BeyondEarlier(ss: seq<Stmt>, sc: Scope, n: nat, tmp: string)
    requires Earlier(sc, n) && tmp !in sc && tmp !in VarsOfAll(ss)
    ensures Earlier(BeyondAll(ss, sc, n), n + DeclsOfAll(ss)) && tmp !in BeyondAll(ss, sc, n)
  {
    if ss != [] {
      BeyondEarlier(ss[1..], Beyond(ss[0], sc, n), n + Decls(ss[0]), tmp);
    }
  }

  // The scope and the number for statement i of a list.
  function ScopeAt(ss: seq<Stmt>, i: nat, sc: Scope, n: nat): Scope
    requires i <= |ss|
  {
    BeyondAll(ss[..i], sc, n)
  }

  function NumberAt(ss: seq<Stmt>, i: nat, n: nat): nat
    requires i <= |ss|
  {
    n + DeclsOfAll(ss[..i])
  }

  // The statement, with what is before and behind it.
  lemma {:induction false} ResolvedParts(ss: seq<Stmt>, i: nat, sc: Scope, n: nat)
    requires i < |ss|
    ensures ResolveAll(ss, sc, n)[..i] == ResolveAll(ss[..i], sc, n)
    ensures ResolveAll(ss, sc, n)[i] == Resolve(ss[i], ScopeAt(ss, i, sc, n), NumberAt(ss, i, n))
    ensures ResolveAll(ss, sc, n)[i + 1..] ==
            ResolveAll(ss[i + 1..], Beyond(ss[i], ScopeAt(ss, i, sc, n), NumberAt(ss, i, n)), NumberAt(ss, i, n) + Decls(ss[i]))
    ensures DeclsOfAll(ss) == DeclsOfAll(ss[..i]) + Decls(ss[i]) + DeclsOfAll(ss[i + 1..])
  {
    var pre, c, rest := ss[..i], ss[i], ss[i + 1..];
    assert ss == pre + ([c] + rest) && ([c] + rest)[1..] == rest;
    ResolveConcat(pre, [c] + rest, sc, n);
  }

  // ----- What resolution depends on -----

  ghost predicate SameOn(xs: set<string>, sc: Scope, sc': Scope) {
    forall x :: x in xs ==> Named(sc, x) == Named(sc', x)
  }

  lemma {:induction false} SameOnBoth(xs: set<string>, ys: set<string>, sc: Scope, sc': Scope)
    ensures SameOn(xs + ys, sc, sc') <==> SameOn(xs, sc, sc') && SameOn(ys, sc, sc')
  {
  }

  lemma {:induction false} ResolveExprIff(e: Expr, sc: Scope, sc': Scope)
    ensures ResolveExpr(e, sc) == ResolveExpr(e, sc') <==> SameOn(ExprVars(e), sc, sc')
  {
    match e
    case Lit(_) =>
    case Var(_) =>
    case Paren(sub) => ResolveExprIff(sub, sc, sc');
    case Cast(_, sub) => ResolveExprIff(sub, sc, sc');
    case Unary(_, sub) => ResolveExprIff(sub, sc, sc');
    case Bin(_, l, r) =>
      ResolveExprIff(l, sc, sc');
      ResolveExprIff(r, sc, sc');
      SameOnBoth(ExprVars(l), ExprVars(r), sc, sc');
    case Cond(c, t, f) =>
      ResolveExprIff(c, sc, sc');
      ResolveExprIff(t, sc, sc');
      ResolveExprIff(f, sc, sc');
      SameOnBoth(ExprVars(c), ExprVars(t), sc, sc');
      SameOnBoth(ExprVars(c) + ExprVars(t), ExprVars(f), sc, sc');
  }

  lemma {:induction false} SameInside(xs: set<string>, sc: Scope, sc': Scope, x: string, n: nat)
    ensures SameOn(xs, sc[x := n], sc'[x := n]) <==> SameOn(xs - {x}, sc, sc')
  {
    if SameOn(xs - {x}, sc, sc') {
      forall y | y in xs
        ensures Named(sc[x := n], y) == Named(sc'[x := n], y)
      {
        assert y != x ==> y in xs - {x};
      }
    }
    if SameOn(xs, sc[x := n], sc'[x := n]) {
      forall y | y in xs - {x}
        ensures Named(sc, y) == Named(sc', y)
      {
        assert Named(sc[x := n], y) == Named(sc, y) && Named(sc'[x := n], y) == Named(sc', y);
      }
    }
  }

  // Two scopes make no difference to a statement exactly when the variables it uses from around it stand for the same.
  lemma {:induction false} ResolveIff(s: Stmt, sc: Scope, sc': Scope, n: nat)
    ensures Resolve(s, sc, n) == Resolve(s, sc', n) <==> SameOn(FreeVars(s), sc, sc')
    decreases s, 0
  {
    match s
    case Assign(x, e) => TargetIff(x, e, sc, sc');
    case Update(x, _, e) => TargetIff(x, e, sc, sc');
    case Return(e) => ResolveExprIff(e, sc, sc');
    case Declare(x, e) =>
      ResolveExprIff(e, sc[x := n], sc'[x := n]);
      SameInside(ExprVars(e), sc, sc', x, n);
    case Block(ss) => ResolveAllIff(ss, sc, sc', n);
    case If(c, t, f) =>
      ResolveIff(t, sc, sc', n);
      if f.Some? {
        ResolveIff(f.value, sc, sc', n + Decls(t));
      }
      BranchesIff(c, t, f, sc, sc', n);
    case While(c, b) =>
      ResolveIff(b, sc, sc', n);
      LoopIff(c, b, sc, sc', n);
    case Do(b, c) =>
      ResolveIff(b, sc, sc', n);
      LoopIff(c, b, sc, sc', n);
  }

  lemma {:induction false} TargetIff(x: string, e: Expr, sc: Scope, sc': Scope)
    ensures Named(sc, x) == Named(sc', x) && ResolveExpr(e, sc) == ResolveExpr(e, sc') <==> SameOn({x} + ExprVars(e), sc, sc')
  {
    ResolveExprIff(e, sc, sc');
    SameOnBoth({x}, ExprVars(e), sc, sc');
  }

  lemma {:induction false} LoopIff(c: Expr, b: Stmt, sc: Scope, sc': Scope, n: nat)
    requires Resolve(b, sc, n) == Resolve(b, sc', n) <==> SameOn(FreeVars(b), sc, sc')
    ensures ResolveExpr(c, sc) == ResolveExpr(c, sc') && Resolve(b, sc, n) == Resolve(b, sc', n) <==>
            SameOn(ExprVars(c) + FreeVars(b), sc, sc')
    ensures FreeVars(b) + ExprVars(c) == ExprVars(c) + FreeVars(b)
  {
    ResolveExprIff(c, sc, sc');
    SameOnBoth(ExprVars(c), FreeVars(b), sc, sc');
  }

  function FreeOfElse(f: Option<Stmt>): set<string> {
    if f.Some? then FreeVars(f.value) else {}
  }

  lemma {:induction false} BranchesIff(c: Expr, t: Stmt, f: Option<Stmt>, sc: Scope, sc': Scope, n: nat)
    requires Resolve(t, sc, n) == Resolve(t, sc', n) <==> SameOn(FreeVars(t), sc, sc')
    requires ResolveElse(f, sc, n + Decls(t)) == ResolveElse(f, sc', n + Decls(t)) <==> SameOn(FreeOfElse(f), sc, sc')
    ensures Resolve(If(c, t, f), sc, n) == Resolve(If(c, t, f), sc', n) <==> SameOn(FreeVars(If(c, t, f)), sc, sc')
  {
    LoopIff(c, t, sc, sc', n);
    var first := ExprVars(c) + FreeVars(t);
    assert FreeVars(If(c, t, f)) == first + FreeOfElse(f);
    SameOnBoth(first, FreeOfElse(f), sc, sc');
    IfResolved(c, t, f, sc, n);
    IfResolved(c, t, f, sc', n);
  }

  lemma {:induction false} IfResolved(c: Expr, t: Stmt, f: Option<Stmt>, sc: Scope, n: nat)
    ensures Resolve(If(c, t, f), sc, n) == If(ResolveExpr(c, sc), Resolve(t, sc, n), ResolveElse(f, sc, n + Decls(t)))
  {
  }

  lemma {:induction false} ResolveAllIff(ss: seq<Stmt>, sc: Scope, sc': Scope, n: nat)
    ensures ResolveAll(ss, sc, n) == ResolveAll(ss, sc', n) <==> SameOn(FreeOfAll(ss), sc, sc')
    decreases ss, |ss|
  {
    if ss != [] {
      var rest, k := ss[1..], n + Decls(ss[0]);
      ResolveIff(ss[0], sc, sc', n);
      ResolveAllIff(rest, Beyond(ss[0], sc, n), Beyond(ss[0], sc', n), k);
      if ss[0].Declare? {
        SameInside(FreeOfAll(rest), sc, sc', ss[0].x, n);
        SameOnBoth(FreeVars(ss[0]), FreeOfAll(rest) - {ss[0].x}, sc, sc');
      } else {
        SameOnBoth(FreeVars(ss[0]), FreeOfAll(rest), sc, sc');
      }
      ConsIff(Resolve(ss[0], sc, n), Resolve(ss[0], sc', n),
              ResolveAll(rest, Beyond(ss[0], sc, n), k), ResolveAll(rest, Beyond(ss[0], sc', n), k));
    }
  }

  lemma {:induction false} ConsIff(s: Stmt, s': Stmt, ss: seq<Stmt>, ss': seq<Stmt>)
    ensures [s] + ss == [s'] + ss' <==> s == s' && ss == ss'
  {
    assert ([s] + ss)[0] == s && ([s'] + ss')[0] == s' && ([s] + ss)[1..] == ss && ([s'] + ss')[1..] == ss';
  }

  // A new variable makes a difference to whoever uses its name.
  lemma {:induction false} NewVariable(xs: set<string>, sc: Scope, x: string, n: nat)
    requires Earlier(sc, n)
    ensures SameOn(xs, sc, sc[x := n]) <==> x !in xs
  {
    if x in sc {
      assert LocalName(sc[x])[6..] == Print(sc[x]) && LocalName(n)[6..] == Print(n);
      if Print(sc[x]) == Print(n) {
        PrintInjective(sc[x], n);
      }
    } else {
      assert Named(sc, x)[0] == 'o' && LocalName(n)[0] == 'l';
    }
    forall y | y != x
      ensures Named(sc, y) == Named(sc[x := n], y)
    {
    }
  }

  // ----- Sites of the resolved body -----

  lemma {:induction false} ResolvedSubExpr(e: Expr, p: Path, sc: Scope)
    ensures SubExpr(ResolveExpr(e, sc), p) ==
            if SubExpr(e, p).Some? then Some(ResolveExpr(SubExpr(e, p).value, sc)) else None
    decreases |p|
  {
    if p != [] && Child(e, p[0]).Some? {
      ResolvedSubExpr(Child(e, p[0]).value, p[1..], sc);
    }
  }

  lemma {:induction false} ResolvedReplaced(e: Expr, p: Path, put: Expr, sc: Scope)
    requires SubExpr(e, p).Some? && SubExpr(ResolveExpr(e, sc), p).Some?
    ensures ReplaceExpr(ResolveExpr(e, sc), p, ResolveExpr(put, sc)) == ResolveExpr(ReplaceExpr(e, p, put), sc)
    decreases |p|
  {
    if p != [] {
      ResolvedSubExpr(Child(e, p[0]).value, p[1..], sc);
      ResolvedReplaced(Child(e, p[0]).value, p[1..], put, sc);
    }
  }

  lemma {:induction false} ResolvedHead(s: Stmt, sc: Scope, n: nat)
    ensures Head(Resolve(s, sc, n)) ==
            if Head(s).Some? then Some(ResolveExpr(Head(s).value, Beyond(s, sc, n))) else None
    ensures Resolve(s, sc, n).Block? == s.Block? && Resolve(s, sc, n).Declare? == s.Declare?
  {
  }

  // Where a child is resolved.
  function ChildScope(s: Stmt, i: nat, sc: Scope, n: nat): Scope {
    if s.Block? && i < |s.body| then ScopeAt(s.body, i, sc, n) else sc
  }

  function ChildNumber(s: Stmt, i: nat, n: nat): nat {
    if s.Block? && i < |s.body| then NumberAt(s.body, i, n)
    else if s.If? && i == 1 then n + Decls(s.thn)
    else n
  }

  lemma {:induction false} ChildResolved(s: Stmt, i: nat, sc: Scope, n: nat)
    requires StmtChild(s, i).Some?
    ensures StmtChild(Resolve(s, sc, n), i) ==
            Some(Resolve(StmtChild(s, i).value, ChildScope(s, i, sc, n), ChildNumber(s, i, n)))
    ensures Resolve(s, sc, n).Block? == s.Block?
  {
    if s.Block? {
      ResolvedParts(s.body, i, sc, n);
    }
  }

  lemma {:induction false} LastStep(s: Stmt, p: Path)
    requires |p| == 1
    ensures p[1..] == [] && SubStmt(s, p) == StmtChild(s, p[0])
  {
    if StmtChild(s, p[0]).Some? {
      assert SubStmt(StmtChild(s, p[0]).value, []) == StmtChild(s, p[0]);
    }
  }

  // A site is one of the resolved body.
  lemma {:induction false} ResolvedSite(s: Stmt, site: Site, sc: Scope, n: nat)
    requires ValidSite(s, site)
    ensures ValidSite(Resolve(s, sc, n), site)
    decreases |site.stmt|
  {
    var p := site.stmt;
    if p == [] {
      ResolvedHead(s, sc, n);
      ResolvedSubExpr(s.e, site.expr, Beyond(s, sc, n));
    } else {
      var c, sc', n' := StmtChild(s, p[0]).value, ChildScope(s, p[0], sc, n), ChildNumber(s, p[0], n);
      ChildResolved(s, p[0], sc, n);
      if |p| == 1 && s.Block? {
        LastStep(s, p);
        LastStep(Resolve(s, sc, n), p);
        ResolvedHead(c, sc', n');
        ResolvedSubExpr(c.e, site.expr, Beyond(c, sc', n'));
      } else {
        ResolvedSite(c, Site(p[1..], site.expr, site.needParen), sc', n');
      }
    }
  }

  // ----- Hoisting and resolution -----

  // The temporary is declared at the start of the function.
  function Outer(tmp: string): string {
    "outer " + tmp
  }

  // No name loses its declaration: the operand does not read the variable of the declaration it is taken from,
  // and no declared variable is cut off from later uses.
  predicate KeepsNames(s: Stmt, site: Site)
    requires ValidSite(s, site)
  {
    var c := SubStmt(s, site.stmt).value;
    (c.Declare? ==> Movable(c, site.expr)) && ScopeKept(s, site.stmt, site.needParen)
  }

  // The two statements of the hoist at one place.
  lemma {:induction false} HoistedResolves(c: Stmt, p: Path, tmp: string, sc: Scope, n: nat)
    requires Head(c).Some? && SubExpr(Head(c).value, p).Some?
    requires tmp !in Vars(c) && tmp !in sc && Earlier(sc, n)
    ensures
      var rc, two := Resolve(c, sc, n), Hoisted(c, p, tmp);
      && Head(rc).Some? && SubExpr(Head(rc).value, p).Some?
      && (Resolve(two[0], sc, n) == Hoisted(rc, p, Outer(tmp))[0] <==> (c.Declare? ==> Movable(c, p)))
      && Resolve(two[1], sc, n) == Hoisted(rc, p, Outer(tmp))[1]
      && Beyond(two[1], sc, n) == Beyond(c, sc, n) && Decls(two[1]) == Decls(c) && Decls(two[0]) == 0
  {
    var e, sc' := Head(c).value, Beyond(c, sc, n);
    var operand := SubExpr(e, p).value;
    ResolvedSubExpr(e, p, sc');
    ResolvedReplaced(e, p, Var(tmp), sc');
    assert ResolveExpr(Var(tmp), sc') == Var(Outer(tmp));
    ResolveExprIff(operand, sc, sc');
    if c.Declare? {
      NewVariable(ExprVars(operand), sc, c.x, n);
    }
  }

  // The two of them in a list.
  lemma {:induction false} TwoResolved(two: seq<Stmt>, rest: seq<Stmt>, sc: Scope, n: nat)
    requires |two| == 2 && two[0].Assign?
    ensures ResolveAll(two + rest, sc, n) ==
            [Resolve(two[0], sc, n), Resolve(two[1], sc, n)] + ResolveAll(rest, Beyond(two[1], sc, n), n + Decls(two[1]))
    ensures DeclsOfAll(two + rest) == Decls(two[1]) + DeclsOfAll(rest)
  {
    assert (two + rest)[1..] == [two[1]] + rest && ([two[1]] + rest)[1..] == rest;
  }

  lemma {:induction false} HoistedAlone(c: Stmt, p: Path, tmp: string, sc: Scope, n: nat)
    requires Head(c).Some? && SubExpr(Head(c).value, p).Some?
    requires tmp !in Vars(c) && tmp !in sc && Earlier(sc, n)
    ensures Head(Resolve(c, sc, n)).Some? && SubExpr(Head(Resolve(c, sc, n)).value, p).Some?
    ensures Resolve(Block(Hoisted(c, p, tmp)), sc, n) == Block(Hoisted(Resolve(c, sc, n), p, Outer(tmp)))
            <==> (c.Declare? ==> Movable(c, p))
    ensures Decls(Block(Hoisted(c, p, tmp))) == Decls(c)
  {
    var two := Hoisted(c, p, tmp);
    HoistedResolves(c, p, tmp, sc, n);
    TwoResolved(two, [], sc, n);
    assert two + [] == two;
  }

  // In a list, without braces.
  lemma {:induction false} SpliceResolves(ss: seq<Stmt>, i: nat, p: Path, tmp: string, sc: Scope, n: nat)
    requires i < |ss| && Head(ss[i]).Some? && SubExpr(Head(ss[i]).value, p).Some?
    requires tmp !in VarsOfAll(ss) && tmp !in sc && Earlier(sc, n)
    ensures
      var rs, two := ResolveAll(ss, sc, n), Hoisted(ss[i], p, tmp);
      && Head(rs[i]).Some? && SubExpr(Head(rs[i]).value, p).Some?
      && (ResolveAll(ss[..i] + two + ss[i + 1..], sc, n) == rs[..i] + Hoisted(rs[i], p, Outer(tmp)) + rs[i + 1..]
          <==> (ss[i].Declare? ==> Movable(ss[i], p)))
      && DeclsOfAll(ss[..i] + two + ss[i + 1..]) == DeclsOfAll(ss)
  {
    var rs, two := ResolveAll(ss, sc, n), Hoisted(ss[i], p, tmp);
    var sc', n' := ScopeAt(ss, i, sc, n), NumberAt(ss, i, n);
    SplicedParts(ss, i, p, tmp, sc, n);
    var ts := ResolveAll(ss[..i] + two + ss[i + 1..], sc, n);
    TwoBetween(ts, rs, i, Resolve(two[0], sc', n'), Hoisted(rs[i], p, Outer(tmp)));
  }

  lemma {:induction false} SplicedParts(ss: seq<Stmt>, i: nat, p: Path, tmp: string, sc: Scope, n: nat)
    requires i < |ss| && Head(ss[i]).Some? && SubExpr(Head(ss[i]).value, p).Some?
    requires tmp !in VarsOfAll(ss) && tmp !in sc && Earlier(sc, n)
    ensures
      var rs, two := ResolveAll(ss, sc, n), Hoisted(ss[i], p, tmp);
      var sc', n' := ScopeAt(ss, i, sc, n), NumberAt(ss, i, n);
      && Head(rs[i]).Some? && SubExpr(Head(rs[i]).value, p).Some?
      && ResolveAll(ss[..i] + two + ss[i + 1..], sc, n) ==
         rs[..i] + ([Resolve(two[0], sc', n'), Hoisted(rs[i], p, Outer(tmp))[1]] + rs[i + 1..])
      && (Resolve(two[0], sc', n') == Hoisted(rs[i], p, Outer(tmp))[0] <==> (ss[i].Declare? ==> Movable(ss[i], p)))
      && DeclsOfAll(ss[..i] + two + ss[i + 1..]) == DeclsOfAll(ss)
  {
    PartResolves(ss, i, p, tmp, sc, n);
    ResolvedParts(ss, i, sc, n);
    SplicedResolved(ss[..i], Hoisted(ss[i], p, tmp), ss[i + 1..], sc, n);
  }

  // The two statements in the scope of the one.
  lemma {:induction false} PartResolves(ss: seq<Stmt>, i: nat, p: Path, tmp: string, sc: Scope, n: nat)
    requires i < |ss| && Head(ss[i]).Some? && SubExpr(Head(ss[i]).value, p).Some?
    requires tmp !in VarsOfAll(ss) && tmp !in sc && Earlier(sc, n)
    ensures
      var sc', n' := ScopeAt(ss, i, sc, n), NumberAt(ss, i, n);
      var rc, two := Resolve(ss[i], sc', n'), Hoisted(ss[i], p, tmp);
      && Head(rc).Some? && SubExpr(Head(rc).value, p).Some?
      && (Resolve(two[0], sc', n') == Hoisted(rc, p, Outer(tmp))[0] <==> (ss[i].Declare? ==> Movable(ss[i], p)))
      && Resolve(two[1], sc', n') == Hoisted(rc, p, Outer(tmp))[1]
      && Beyond(two[1], sc', n') == Beyond(ss[i], sc', n') && Decls(two[1]) == Decls(ss[i])
  {
    PartsVars(ss, i);
    BeyondEarlier(ss[..i], sc, n, tmp);
    HoistedResolves(ss[i], p, tmp, ScopeAt(ss, i, sc, n), NumberAt(ss, i, n));
  }

  lemma {:induction false} SplicedResolved(pre: seq<Stmt>, two: seq<Stmt>, rest: seq<Stmt>, sc: Scope, n: nat)
    requires |two| == 2 && two[0].Assign?
    ensures
      var sc', n' := BeyondAll(pre, sc, n), n + DeclsOfAll(pre);
      ResolveAll(pre + two + rest, sc, n) ==
      ResolveAll(pre, sc, n) +
      ([Resolve(two[0], sc', n'), Resolve(two[1], sc', n')] + ResolveAll(rest, Beyond(two[1], sc', n'), n' + Decls(two[1])))
    ensures DeclsOfAll(pre + two + rest) == DeclsOfAll(pre) + Decls(two[1]) + DeclsOfAll(rest)
  {
    ResolveConcat(pre, two + rest, sc, n);
    TwoResolved(two, rest, BeyondAll(pre, sc, n), n + DeclsOfAll(pre));
    Associate(pre, two, rest);
  }

  lemma {:induction false} Associate(a: seq<Stmt>, b: seq<Stmt>, c: seq<Stmt>)
    ensures a + b + c == a + (b + c)
  {
  }

  lemma {:induction false} TwoBetween(ts: seq<Stmt>, rs: seq<Stmt>, i: nat, x: Stmt, two: seq<Stmt>)
    requires i < |rs| && |two| == 2 && ts == rs[..i] + ([x, two[1]] + rs[i + 1..])
    ensures ts == rs[..i] + two + rs[i + 1..] <==> x == two[0]
  {
    assert ts[i] == x && (rs[..i] + two + rs[i + 1..])[i] == two[0];
  }

  // A rest whose first variable is missing.
  lemma {:induction false} RestIff(c: Stmt, rest: seq<Stmt>, sc: Scope, n: nat, k: nat)
    requires Earlier(sc, n)
    ensures ResolveAll(rest, sc, k) == ResolveAll(rest, Beyond(c, sc, n), k) <==> (c.Declare? ==> c.x !in FreeOfAll(rest))
  {
    if c.Declare? {
      ResolveAllIff(rest, sc, Beyond(c, sc, n), k);
      NewVariable(FreeOfAll(rest), sc, c.x, n);
    }
  }

  lemma {:induction false} PartsOfPut(ss: seq<Stmt>, i: nat, put: Stmt, sc: Scope, n: nat)
    requires i < |ss| && !put.Declare?
    ensures ResolveAll(ss[i := put], sc, n)[..i] == ResolveAll(ss[..i], sc, n)
    ensures ResolveAll(ss[i := put], sc, n)[i] == Resolve(put, ScopeAt(ss, i, sc, n), NumberAt(ss, i, n))
    ensures ResolveAll(ss[i := put], sc, n)[i + 1..] ==
            ResolveAll(ss[i + 1..], ScopeAt(ss, i, sc, n), NumberAt(ss, i, n) + Decls(put))
    ensures DeclsOfAll(ss[i := put]) == DeclsOfAll(ss[..i]) + Decls(put) + DeclsOfAll(ss[i + 1..])
  {
    var ss' := ss[i := put];
    assert ss'[..i] == ss[..i] && ss'[i + 1..] == ss[i + 1..];
    ResolvedParts(ss', i, sc, n);
  }

  // A statement of a list that is replaced by another one.
  lemma {:induction false} PutResolves(ss: seq<Stmt>, i: nat, put: Stmt, put': Stmt, sc: Scope, n: nat)
    requires i < |ss| && !put.Declare? && Decls(put) == Decls(ss[i])
    requires Earlier(ScopeAt(ss, i, sc, n), NumberAt(ss, i, n))
    ensures ResolveAll(ss[i := put], sc, n) == ResolveAll(ss, sc, n)[i := put'] <==>
            Resolve(put, ScopeAt(ss, i, sc, n), NumberAt(ss, i, n)) == put' &&
            (ss[i].Declare? ==> ss[i].x !in FreeOfAll(ss[i + 1..]))
    ensures DeclsOfAll(ss[i := put]) == DeclsOfAll(ss)
  {
    var rs, ts := ResolveAll(ss[i := put], sc, n), ResolveAll(ss, sc, n);
    BehindPut(ss, i, put, sc, n);
    OneBetween(rs, ts, i, put');
  }

  lemma {:induction false} BehindPut(ss: seq<Stmt>, i: nat, put: Stmt, sc: Scope, n: nat)
    requires i < |ss| && !put.Declare? && Decls(put) == Decls(ss[i])
    requires Earlier(ScopeAt(ss, i, sc, n), NumberAt(ss, i, n))
    ensures ResolveAll(ss[i := put], sc, n)[..i] == ResolveAll(ss, sc, n)[..i]
    ensures ResolveAll(ss[i := put], sc, n)[i] == Resolve(put, ScopeAt(ss, i, sc, n), NumberAt(ss, i, n))
    ensures ResolveAll(ss[i := put], sc, n)[i + 1..] == ResolveAll(ss, sc, n)[i + 1..] <==>
            (ss[i].Declare? ==> ss[i].x !in FreeOfAll(ss[i + 1..]))
    ensures DeclsOfAll(ss[i := put]) == DeclsOfAll(ss)
  {
    ResolvedParts(ss, i, sc, n);
    PartsOfPut(ss, i, put, sc, n);
    RestIff(ss[i], ss[i + 1..], ScopeAt(ss, i, sc, n), NumberAt(ss, i, n), NumberAt(ss, i, n) + Decls(put));
  }

  lemma {:induction false} OneBetween(rs: seq<Stmt>, ts: seq<Stmt>, i: nat, put: Stmt)
    requires i < |rs| == |ts| && rs[..i] == ts[..i]
    ensures rs == ts[i := put] <==> rs[i] == put && rs[i + 1..] == ts[i + 1..]
  {
    assert ts[i := put][..i] == ts[..i] && ts[i := put][i + 1..] == ts[i + 1..];
    if rs[i] == put && rs[i + 1..] == ts[i + 1..] {
      assert rs == rs[..i] + [rs[i]] + rs[i + 1..];
      assert ts[i := put] == ts[..i] + [put] + ts[i + 1..];
    }
  }

  // The same for any child.
  lemma {:induction false} PutInResolves(s: Stmt, i: nat, put: Stmt, put': Stmt, sc: Scope, n: nat)
    requires StmtChild(s, i).Some? && StmtChild(Resolve(s, sc, n), i).Some?
    requires !put.Declare? && Decls(put) == Decls(StmtChild(s, i).value)
    requires Earlier(ChildScope(s, i, sc, n), ChildNumber(s, i, n))
    ensures
      Resolve(WithStmtChild(s, i, put), sc, n) == WithStmtChild(Resolve(s, sc, n), i, put') <==>
      Resolve(put, ChildScope(s, i, sc, n), ChildNumber(s, i, n)) == put' && ChildKept(s, i)
    ensures Decls(WithStmtChild(s, i, put)) == Decls(s)
  {
    match s
    case Block(ss) => PutResolves(ss, i, put, put', sc, n);
    case If(e, t, f) =>
      if i == 0 {
        PutInThen(e, t, f, put, put', sc, n);
      } else {
        PutInElse(e, t, put, put', sc, n);
        assert Resolve(s, sc, n).e == ResolveExpr(e, sc) && Resolve(s, sc, n).thn == Resolve(t, sc, n);
      }
    case While(_, _) =>
    case Do(_, _) =>
  }

  lemma {:induction false} PutInThen(e: Expr, t: Stmt, f: Option<Stmt>, put: Stmt, put': Stmt, sc: Scope, n: nat)
    requires Decls(put) == Decls(t)
    ensures Resolve(If(e, put, f), sc, n) == If(ResolveExpr(e, sc), put', ResolveElse(f, sc, n + Decls(t))) <==>
            Resolve(put, sc, n) == put'
    ensures Decls(If(e, put, f)) == Decls(If(e, t, f))
  {
  }

  lemma {:induction false} PutInElse(e: Expr, t: Stmt, put: Stmt, put': Stmt, sc: Scope, n: nat)
    ensures Resolve(If(e, t, Some(put)), sc, n) == If(ResolveExpr(e, sc), Resolve(t, sc, n), Some(put')) <==>
            Resolve(put, sc, n + Decls(t)) == put'
  {
    assert ResolveElse(Some(put), sc, n + Decls(t)) == Some(Resolve(put, sc, n + Decls(t)));
  }

  // A declared variable is used no more behind the declaration.
  predicate ChildKept(s: Stmt, i: nat)
    requires StmtChild(s, i).Some?
  {
    s.Block? && s.body[i].Declare? ==> s.body[i].x !in FreeOfAll(s.body[i + 1..])
  }

  // A site below a child, unless it is one without braces in a list.
  lemma {:induction false} KeptBelow(s: Stmt, site: Site, tmp: string)
    requires ValidSite(s, site) && site.stmt != [] && !(s.Block? && |site.stmt| == 1 && !site.needParen)
    ensures
      var c, rest := StmtChild(s, site.stmt[0]).value, Site(site.stmt[1..], site.expr, site.needParen);
      ValidSite(c, rest) && (KeepsNames(s, site) <==> KeepsNames(c, rest) && ChildKept(s, site.stmt[0]))
  {
    SiteBelow(s, site, tmp);
  }

  // One without braces in a list.
  lemma {:induction false} KeptInList(s: Stmt, site: Site)
    requires ValidSite(s, site) && s.Block? && |site.stmt| == 1 && !site.needParen
    ensures
      var c := s.body[site.stmt[0]];
      && Head(c).Some? && SubExpr(Head(c).value, site.expr).Some?
      && (KeepsNames(s, site) <==> (c.Declare? ==> Movable(c, site.expr)))
  {
    LastStep(s, site.stmt);
    assert StmtChild(s, site.stmt[0]) == Some(s.body[site.stmt[0]]) && ScopeKept(s.body[site.stmt[0]], [], false);
  }

  lemma {:induction false} ChildEarlier(s: Stmt, i: nat, tmp: string, sc: Scope, n: nat)
    requires StmtChild(s, i).Some? && Earlier(sc, n) && tmp !in sc && tmp !in Vars(s)
    ensures Earlier(ChildScope(s, i, sc, n), ChildNumber(s, i, n)) && tmp !in ChildScope(s, i, sc, n)
  {
    if s.Block? {
      PartsVars(s.body, i);
      BeyondEarlier(s.body[..i], sc, n, tmp);
    }
  }

  // Hoisting and resolution of names commute exactly when no name loses its declaration.
  lemma {:induction false} HoistingResolvesIn(s: Stmt, site: Site, tmp: string, sc: Scope, n: nat)
    requires ValidSite(s, site) && tmp !in Vars(s) && tmp !in sc && Earlier(sc, n)
    ensures ValidSite(Resolve(s, sc, n), site) && Decls(Rewrite(s, site, tmp)) == Decls(s)
    ensures Resolve(Rewrite(s, site, tmp), sc, n) == Rewrite(Resolve(s, sc, n), site, Outer(tmp))
            <==> KeepsNames(s, site)
    decreases |site.stmt|
  {
    var p, rs := site.stmt, Resolve(s, sc, n);
    ResolvedSite(s, site, sc, n);
    if p == [] {
      HoistedAlone(s, site.expr, tmp, sc, n);
    } else if s.Block? && |p| == 1 && !site.needParen {
      KeptInList(s, site);
      LastStep(rs, p);
      SpliceResolves(s.body, p[0], site.expr, tmp, sc, n);
    } else {
      var i, rest := p[0], Site(p[1..], site.expr, site.needParen);
      var c, sc', n' := StmtChild(s, i).value, ChildScope(s, i, sc, n), ChildNumber(s, i, n);
      SiteBelow(s, site, tmp);
      ChildResolved(s, i, sc, n);
      SiteBelow(rs, site, Outer(tmp));
      KeptBelow(s, site, tmp);
      RewrittenNoDeclaration(c, rest, tmp);
      ChildEarlier(s, i, tmp, sc, n);
      HoistingResolvesIn(c, rest, tmp, sc', n');
      PutInResolves(s, i, Rewrite(c, rest, tmp), Rewrite(Resolve(c, sc', n'), rest, Outer(tmp)), sc, n);
    }
  }

  // For a function body, whatever its parameters and the variables around it.
  lemma {:induction false} HoistingResolvesIff(body: Stmt, site: Site, tmp: string)
    requires ValidSite(body, site) && tmp !in Vars(body)
    ensures ValidSite(Resolve(body, map[], 0), site)
    ensures Resolve(Rewrite(body, site, tmp), map[], 0) == Rewrite(Resolve(body, map[], 0), site, Outer(tmp))
            <==> KeepsNames(body, site)
  {
    HoistingResolvesIn(body, site, tmp, map[], 0);
  }
}
