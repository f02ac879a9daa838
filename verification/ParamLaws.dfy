/**
 What clang_delta/RenameParam.cpp records and writes, in terms of names and uses: which numbers are
 taken, which parameters need a name, what every parameter and every use is called afterwards.
 */
module ParamLaws {
  import opened Decimal
  import opened RenameParam
  import opened Wrappers

  // ----- Numbers -----

  // A name has a number when it is p and digits, with a value that fits, and whatever follows them. The number of
  // an empty name is what the variable for it happens to hold.
  lemma {:induction false} PostfixIff(name: string, uninitialised: nat, n: nat)
    ensures GetPostfixValue(name, uninitialised) == Some(n) <==>
            (name == "" && n == uninitialised) ||
            (n < 0x1_0000_0000 && exists s :: name == "p" + s && StartsWith(s, n))
  {
    if |name| >= 1 && name[..1] == "p" {
      assert name == "p" + name[1..];
      ReadUnsignedIff(name[1..], n);
    }
    if s :| name == "p" + s && StartsWith(s, n) {
      assert name[..1] == "p" && name[1..] == s && s != "";
    }
  }

  // The number of parameter i is the least one after that of parameter i - 1 that is not taken; an unnamed
  // parameter takes the next number as it is, and gets no name.
  lemma {:induction false} NamedInTurn(taken: set<nat>, ps: seq<string>, i: nat)
    requires i < |ps|
    ensures
      var nums := Numbers(taken, ps, 0);
      var prev := if i == 0 then 0 else nums[i - 1];
      && NewNames(taken, ps)[i] == (if ps[i] == "" then "" else "p" + Print(nums[i]))
      && (ps[i] == "" ==> nums[i] == prev + 1)
      && (ps[i] != "" ==> prev < nums[i] && nums[i] !in taken && forall n :: prev < n < nums[i] ==> n in taken)
  {
    NumbersAt(taken, ps, 0, i);
  }

  // A global variable, or a local one of a definition of the function.
  predicate IsVariable(p: Program, fn: FunctionId, x: string) {
    exists k :: 0 <= k < |p| &&
      match p[k]
      case Global(name) => name == x
      case Declaration(_, f, _, body) => f == fn && body.Some? && x in Locals(body.value)
  }

  lemma {:induction false} NumbersInIff(t: Term, uninitialised: nat, n: nat)
    ensures n in NumbersIn(t, uninitialised) <==> exists x :: x in Locals(t) && GetPostfixValue(x, uninitialised) == Some(n)
  {
    match t
    case Number(_) =>
    case Use(_) =>
    case Op(l, _, r) =>
      NumbersInIff(l, uninitialised, n);
      NumbersInIff(r, uninitialised, n);
    case Let(x, init, rest) =>
      NumbersInIff(init, uninitialised, n);
      NumbersInIff(rest, uninitialised, n);
      if n in Recorded(x, uninitialised) {
        assert x in Locals(t) && GetPostfixValue(x, uninitialised) == Some(n);
      }
    case Prototype(_, _, _, next) => NumbersInIff(next, uninitialised, n);
  }

  // The numbers to avoid are those of the variables that the function may use.
  lemma {:induction false} TakenIff(p: Program, fn: FunctionId, uninitialised: nat, n: nat)
    ensures n in TakenBy(p, uninitialised)(fn) <==>
            exists x :: IsVariable(p, fn, x) && GetPostfixValue(x, uninitialised) == Some(n)
  {
    TakenFrom(p, fn, uninitialised, n);
  }

  lemma {:induction false} TakenFrom(p: Program, fn: FunctionId, uninitialised: nat, n: nat)
    ensures n in GlobalNumbers(p, uninitialised) + NumbersOf(p, fn, uninitialised) <==>
            exists x :: IsVariable(p, fn, x) && GetPostfixValue(x, uninitialised) == Some(n)
  {
    if p != [] {
      var q, item := p[..|p| - 1], p[|p| - 1];
      TakenFrom(q, fn, uninitialised, n);
      forall x
        ensures IsVariable(p, fn, x) <==>
                IsVariable(q, fn, x) || (item.Global? && item.name == x) ||
                (item.Declaration? && item.fn == fn && item.body.Some? && x in Locals(item.body.value))
      {
        VariableNext(q, item, fn, x);
        assert p == q + [item];
      }
      if item.Declaration? && item.body.Some? {
        NumbersInIff(item.body.value, uninitialised, n);
      }
    }
  }

  lemma {:induction false} VariableNext(q: Program, item: Item, fn: FunctionId, x: string)
    ensures IsVariable(q + [item], fn, x) <==>
            IsVariable(q, fn, x) || (item.Global? && item.name == x) ||
            (item.Declaration? && item.fn == fn && item.body.Some? && x in Locals(item.body.value))
  {
    var p := q + [item];
    assert p[|q|] == item && forall k :: 0 <= k < |q| ==> p[k] == q[k];
  }

  // ----- Uses -----

  // The names used in a body, in order, each with what it stands for.
  function Uses(t: Term, scope: Scope): seq<(string, Decl)> {
    match t
    case Number(_) => []
    case Use(x) => [(x, Lookup(scope, x))]
    case Op(l, _, r) => Uses(l, scope) + Uses(r, scope)
    case Let(x, init, rest) => Uses(init, Declare(scope, x)) + Uses(rest, Declare(scope, x))
    case Prototype(_, _, _, next) => Uses(next, scope)
  }

  lemma {:induction false} ReferencedIff(t: Term, scope: Scope, parm: ParmDecl)
    ensures IsReferenced(t, scope, parm) <==> exists u :: u in Uses(t, scope) && u.1 == Parm(parm)
  {
    match t
    case Number(_) =>
    case Use(x) =>
      if IsReferenced(t, scope, parm) {
        assert (x, Parm(parm)) in Uses(t, scope);
      }
    case Op(l, _, r) =>
      ReferencedIff(l, scope, parm);
      ReferencedIff(r, scope, parm);
    case Let(x, init, rest) =>
      ReferencedIff(init, Declare(scope, x), parm);
      ReferencedIff(rest, Declare(scope, x), parm);
    case Prototype(_, _, _, next) => ReferencedIff(next, scope, parm);
  }

  // A name that is not "p" with a number below 2^32 behind it.
  ghost predicate IsOtherName(x: string) {
    x != "" && forall n: nat, s :: n < 0x1_0000_0000 && x == "p" + s ==> !StartsWith(s, n)
  }

  // The definition at k has a parameter i with such a name that its body uses.
  ghost predicate MustBeRenamed(p: Program, k: nat, i: nat) {
    && k < |p| && p[k].Declaration? && p[k].body.Some? && i < |p[k].ps|
    && IsUsed(p[k], i) && IsOtherName(p[k].ps[i])
  }

  // There is something to do exactly when there is such a parameter.
  lemma {:induction false} NeedsRenamingIff(p: Program, uninitialised: nat)
    ensures NeedsRenaming(p, uninitialised) <==> exists k, i :: MustBeRenamed(p, k, i)
  {
    forall k: nat, i: nat | k < |p| && p[k].Declaration? && p[k].body.Some? && i < |p[k].ps|
      ensures IsWorkAt(p[k], i, uninitialised) <==> MustBeRenamed(p, k, i)
    {
      WorkIff(p[k], i, uninitialised);
    }
    if NeedsRenaming(p, uninitialised) {
      var k :| 0 <= k < |p| && HasWork(p[k], uninitialised);
      var i :| 0 <= i < |p[k].ps| && IsWorkAt(p[k], i, uninitialised);
      assert MustBeRenamed(p, k, i);
    }
    if k: nat, i: nat :| MustBeRenamed(p, k, i) {
      assert IsWorkAt(p[k], i, uninitialised) && HasWork(p[k], uninitialised);
    }
  }

  // A use of the body stands for parameter i.
  predicate IsUsed(item: Item, i: nat)
    requires item.Declaration? && item.body.Some?
  {
    exists u :: u in Uses(item.body.value, ParmScope(item.d, item.ps)) && u.1 == Parm((item.d, i))
  }

  lemma {:induction false} WorkIff(item: Item, i: nat, uninitialised: nat)
    requires item.Declaration? && item.body.Some? && i < |item.ps|
    ensures IsWorkAt(item, i, uninitialised) <==>
            IsUsed(item, i) && IsOtherName(item.ps[i])
  {
    ReferencedIff(item.body.value, ParmScope(item.d, item.ps), (item.d, i));
    var x := item.ps[i];
    if GetPostfixValue(x, uninitialised) == None {
      forall n: nat, s | n < 0x1_0000_0000 && x == "p" + s
        ensures !StartsWith(s, n)
      {
        PostfixIff(x, uninitialised, n);
      }
    } else {
      PostfixIff(x, uninitialised, GetPostfixValue(x, uninitialised).value);
    }
  }

  // What the uses are called afterwards.
  function NamesUsed(t: Term): seq<string> {
    match t
    case Number(_) => []
    case Use(x) => [x]
    case Op(l, _, r) => NamesUsed(l) + NamesUsed(r)
    case Let(_, init, rest) => NamesUsed(init) + NamesUsed(rest)
    case Prototype(_, _, _, next) => NamesUsed(next)
  }

  function NewUses(us: seq<(string, Decl)>, m: NameMap): (xs: seq<string>)
    ensures |xs| == |us|
    ensures forall i :: 0 <= i < |us| ==>
      xs[i] == if us[i].1.Parm? && us[i].1.parm in m then m[us[i].1.parm] else us[i].0
  {
    seq(|us|, i requires 0 <= i < |us| => if us[i].1.Parm? && us[i].1.parm in m then m[us[i].1.parm] else us[i].0)
  }

  lemma {:induction false} NewUsesConcat(us: seq<(string, Decl)>, vs: seq<(string, Decl)>, m: NameMap)
    ensures NewUses(us + vs, m) == NewUses(us, m) + NewUses(vs, m)
  {
  }

  // Without prototypes inside, exactly the uses of parameters in the map are renamed, each to the parameter's new name.
  lemma {:induction false} UsesRenamed(taken: TakenNumbers, t: Term, scope: Scope, m: NameMap)
    requires !Prototypes(t)
    ensures NamesUsed(Renamed(taken, t, scope, m)) == NewUses(Uses(t, scope), m) && After(taken, t, m) == m
  {
    match t
    case Number(_) =>
    case Use(_) =>
    case Op(l, _, r) =>
      UsesRenamed(taken, l, scope, m);
      UsesRenamed(taken, r, scope, m);
      NewUsesConcat(Uses(l, scope), Uses(r, scope), m);
    case Let(x, init, rest) =>
      UsesRenamed(taken, init, Declare(scope, x), m);
      UsesRenamed(taken, rest, Declare(scope, x), m);
      NewUsesConcat(Uses(init, Declare(scope, x)), Uses(rest, Declare(scope, x)), m);
    case Prototype(_, _, _, next) => UsesRenamed(taken, next, scope, m);
  }

  // A term without the names of its uses and of the parameters of its prototypes.
  function Shape(t: Term): Term {
    match t
    case Number(_) => t
    case Use(_) => Use("")
    case Op(l, op, r) => Op(Shape(l), op, Shape(r))
    case Let(x, init, rest) => Let(x, Shape(init), Shape(rest))
    case Prototype(d, fn, ps, next) => Prototype(d, fn, [], Shape(next))
  }

  lemma {:induction false} ShapeKept(taken: TakenNumbers, t: Term, scope: Scope, m: NameMap)
    ensures Shape(Renamed(taken, t, scope, m)) == Shape(t)
    decreases t
  {
    match t
    case Number(_) =>
    case Use(_) =>
    case Op(l, _, r) =>
      ShapeKept(taken, l, scope, m);
      ShapeKept(taken, r, scope, After(taken, l, m));
    case Let(x, init, rest) =>
      ShapeKept(taken, init, Declare(scope, x), m);
      ShapeKept(taken, rest, Declare(scope, x), After(taken, init, m));
    case Prototype(d, fn, ps, next) => ShapeKept(taken, next, scope, Visited(taken, d, fn, ps, m));
  }

  // A whole program: globals stay, every declaration gets the new names, and nothing of a body changes but uses; those of
  // a definition without prototypes inside get the new names of their parameters.
  lemma {:induction false} ProgramRenamed(taken: TakenNumbers, p: Program, k: nat)
    requires k < |p|
    ensures
      var item, item' := p[k], RenamedProgram(taken, p)[k];
      match item
      case Global(_) => item' == item
      case Declaration(d, fn, ps, body) =>
        && item'.Declaration? && item'.d == d && item'.fn == fn && item'.ps == NewNames(taken(fn), ps)
        && item'.body.Some? == body.Some?
        && (body.Some? ==> Shape(item'.body.value) == Shape(body.value))
        && (body.Some? && ps != [] && !Prototypes(body.value) ==>
              NamesUsed(item'.body.value) == NewUses(Uses(body.value, ParmScope(d, ps)), NameMapOf(d, ps, item'.ps)))
  {
    RenamedAt(taken, p, k);
    var m := AfterItems(taken, p[..k]);
    match p[k]
    case Global(_) =>
    case Declaration(d, fn, ps, body) =>
      if body.Some? {
        ShapeKept(taken, body.value, ParmScope(d, ps), Visited(taken, d, fn, ps, m));
        if !Prototypes(body.value) {
          UsesRenamed(taken, body.value, ParmScope(d, ps), Visited(taken, d, fn, ps, m));
        }
      }
  }
}
