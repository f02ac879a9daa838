/**
 clang_delta/RenameParam.cpp: parameters become p1, p2, ..., passing over the numbers that
 collected variables already use. Whether the renamed body still means the same is decided by
 resolving its names again.
 */
module RenameParam {
  import opened Collections
  import opened Decimal
  import opened Wrappers

  // ----- Names and numbers -----

  function ParamName(n: nat): string {
    "p" + Print(n)
  }

  // getPostfixValue: an empty name succeeds without setting the value, which is then whatever it was.
  function GetPostfixValue(name: string, uninitialised: nat): Option<nat> {
    if |name| == 0 then Some(uninitialised)
    else if |name| == 1 then None
    else if name[..1] != "p" then None
    else ReadUnsigned(name[1..])
  }

  lemma ParamNameRead(n: nat, uninitialised: nat)
    ensures GetPostfixValue(ParamName(n), uninitialised) == if n < UNSIGNED_LIMIT then Some(n) else None
  {
    assert ParamName(n)[..1] == "p" && ParamName(n)[1..] == Print(n);
    ReadPrint(n);
  }

  lemma ParamNameInjective(m: nat, n: nat)
    requires ParamName(m) == ParamName(n)
    ensures m == n
  {
    assert ParamName(m)[1..] == Print(m) && ParamName(n)[1..] == Print(n);
    PrintInjective(m, n);
  }

  // The numbers recorded for a variable.
  function Recorded(name: string, uninitialised: nat): set<nat> {
    match GetPostfixValue(name, uninitialised)
    case Some(n) => {n}
    case None => {}
  }

  // No new name can be `name` when the numbers in `taken` are passed over.
  ghost predicate Covers(taken: set<nat>, name: string) {
    forall n: nat :: n < UNSIGNED_LIMIT && n !in taken ==> ParamName(n) != name
  }

  lemma RecordedCovers(taken: set<nat>, name: string, uninitialised: nat)
    requires Recorded(name, uninitialised) <= taken
    ensures Covers(taken, name)
  {
    forall n: nat | n < UNSIGNED_LIMIT && n !in taken
      ensures ParamName(n) != name
    {
      ParamNameRead(n, uninitialised);
    }
  }

  // The least number from n on that is not taken.
  function LeastFree(taken: set<nat>, n: nat): (r: nat)
    ensures n <= r && r !in taken && (forall k :: n <= k < r ==> k in taken)
    decreases |taken|
  {
    if n in taken then
      var r := LeastFree(taken - {n}, n + 1);
      assert forall k :: n < k < r ==> k in taken by {
        assert forall k :: k in taken - {n} ==> k in taken;
      }
      r
    else n
  }

  function Above(taken: set<nat>, c: nat): set<nat> {
    set t | t in taken && t > c
  }

  lemma {:induction false} LeastFreeBound(taken: set<nat>, n: nat)
    ensures LeastFree(taken, n + 1) + |Above(taken, LeastFree(taken, n + 1))| <= n + 1 + |Above(taken, n)|
    decreases |taken|
  {
    var r := LeastFree(taken, n + 1);
    assert Above(taken, r) <= Above(taken, n);
    Interval(n + 1, r, Above(taken, n) - Above(taken, r));
  }

  // Pigeonhole: a set that holds a whole interval is at least as large.
  lemma {:induction false} Interval(lo: nat, hi: nat, s: set<nat>)
    requires lo <= hi && forall k :: lo <= k < hi ==> k in s
    ensures hi - lo <= |s|
    decreases hi - lo
  {
    if lo < hi {
      Interval(lo, hi - 1, s - {hi - 1});
    }
  }

  // The value of CurrPostfix after a parameter; unnamed ones only advance it.
  function Advance(taken: set<nat>, curr: nat, name: string): nat {
    if name == "" then curr + 1 else LeastFree(taken, curr + 1)
  }

  function Numbers(taken: set<nat>, ps: seq<string>, curr: nat): (nums: seq<nat>)
    ensures |nums| == |ps|
  {
    if ps == [] then []
    else
      var n := Advance(taken, curr, ps[0]);
      [n] + Numbers(taken, ps[1..], n)
  }

  lemma {:induction false} NumbersAt(taken: set<nat>, ps: seq<string>, curr: nat, i: nat)
    requires i < |ps|
    ensures
      var nums := Numbers(taken, ps, curr);
      nums[i] == Advance(taken, if i == 0 then curr else nums[i - 1], ps[i])
  {
    if i > 0 {
      NumbersAt(taken, ps[1..], Numbers(taken, ps, curr)[0], i - 1);
    }
  }

  function NewNames(taken: set<nat>, ps: seq<string>): (ns: seq<string>)
    ensures |ns| == |ps|
  {
    var nums := Numbers(taken, ps, 0);
    seq(|ps|, i requires 0 <= i < |ps| => if ps[i] == "" then "" else ParamName(nums[i]))
  }

  // The numbers strictly rise, are free, and stay below the number of parameters and taken numbers.
  lemma {:induction false} NumbersRise(taken: set<nat>, ps: seq<string>, curr: nat)
    ensures
      var nums := Numbers(taken, ps, curr);
      && (forall i :: 0 <= i < |ps| ==> curr < nums[i] <= curr + |ps| + |Above(taken, curr)|)
      && (forall i :: 0 <= i < |ps| && ps[i] != "" ==> nums[i] !in taken)
      && Rising(nums)
  {
    if ps != [] {
      var nums := Numbers(taken, ps, curr);
      var rest := Numbers(taken, ps[1..], nums[0]);
      NumbersRise(taken, ps[1..], nums[0]);
      LeastFreeBound(taken, curr);
      AboveShrinks(taken, curr, curr + 1);
      assert forall i :: 0 < i < |ps| ==> nums[i] == rest[i - 1] && ps[i] == ps[1..][i - 1];
      assert forall i :: 0 <= i < |rest| ==> nums[0] < rest[i];
      RisingCons(nums[0], rest);
      assert nums == [nums[0]] + rest;
    }
  }

  predicate Rising(nums: seq<nat>) {
    forall i, j :: 0 <= i < j < |nums| ==> nums[i] < nums[j]
  }

  lemma RisingCons(n: nat, nums: seq<nat>)
    requires Rising(nums) && forall i :: 0 <= i < |nums| ==> n < nums[i]
    ensures Rising([n] + nums)
  {
    assert forall i :: 0 < i < |[n] + nums| ==> ([n] + nums)[i] == nums[i - 1];
  }

  lemma AboveShrinks(taken: set<nat>, c: nat, d: nat)
    requires c <= d
    ensures |Above(taken, d)| <= |Above(taken, c)| <= |taken|
  {
    SubsetSize(Above(taken, d), Above(taken, c));
    SubsetSize(Above(taken, c), taken);
  }

  predicate Fits(taken: set<nat>, ps: seq<string>) {
    |ps| + |taken| < UNSIGNED_LIMIT
  }

  lemma NextNumber(taken: set<nat>, ps: seq<string>, i: nat)
    requires Fits(taken, ps) && i < |ps|
    ensures
      var nums := Numbers(taken, ps, 0);
      nums[i] == Advance(taken, if i == 0 then 0 else nums[i - 1], ps[i]) < UNSIGNED_LIMIT
  {
    NumbersAt(taken, ps, 0, i);
    NumbersRise(taken, ps, 0);
    AboveShrinks(taken, 0, 0);
  }

  // New names are pairwise different, and none is the name of a variable whose number was recorded.
  lemma NewNamesFresh(taken: set<nat>, ps: seq<string>)
    requires Fits(taken, ps)
    ensures
      var ns := NewNames(taken, ps);
      && (forall i :: 0 <= i < |ps| ==> (ns[i] == "" <==> ps[i] == ""))
      && (forall i, j :: 0 <= i < j < |ps| && ns[i] != "" ==> ns[i] != ns[j])
      && (forall x :: x != "" && Covers(taken, x) ==> x !in ns)
  {
    var ns, nums := NewNames(taken, ps), Numbers(taken, ps, 0);
    NumbersRise(taken, ps, 0);
    AboveShrinks(taken, 0, 0);
    forall i, j | 0 <= i < j < |ps| && ns[i] != ""
      ensures ns[i] != ns[j]
    {
      if ns[i] == ns[j] {
        ParamNameInjective(nums[i], nums[j]);
      }
    }
    forall x | x != "" && Covers(taken, x)
      ensures x !in ns
    {
      forall i | 0 <= i < |ns|
        ensures ns[i] != x
      {
        if ps[i] != "" {
          assert nums[i] < UNSIGNED_LIMIT && nums[i] !in taken;
        }
      }
    }
  }

  // A second run changes nothing and finds nothing to do.
  lemma SecondRun(taken: set<nat>, ps: seq<string>, uninitialised: nat)
    requires Fits(taken, ps)
    ensures NewNames(taken, NewNames(taken, ps)) == NewNames(taken, ps)
    ensures forall x :: x in NewNames(taken, ps) ==> GetPostfixValue(x, uninitialised).Some?
  {
    var ns := NewNames(taken, ps);
    NewNamesFresh(taken, ps);
    NumbersDepend(taken, ps, ns, 0);
    assert NewNames(taken, ns) == ns;
    NumbersRise(taken, ps, 0);
    AboveShrinks(taken, 0, 0);
    forall x | x in ns
      ensures GetPostfixValue(x, uninitialised).Some?
    {
      var i :| 0 <= i < |ns| && ns[i] == x;
      ParamNameRead(Numbers(taken, ps, 0)[i], uninitialised);
    }
  }

  lemma {:induction false} NumbersDepend(taken: set<nat>, ps: seq<string>, qs: seq<string>, curr: nat)
    requires |ps| == |qs| && forall i :: 0 <= i < |ps| ==> (ps[i] == "" <==> qs[i] == "")
    ensures Numbers(taken, ps, curr) == Numbers(taken, qs, curr)
  {
    if ps != [] {
      NumbersDepend(taken, ps[1..], qs[1..], Numbers(taken, ps, curr)[0]);
    }
  }

  // ----- Bodies and their names -----

  type FunctionId = nat

  // A parameter of one declaration: the number of the declaration and the position.
  type ParmDecl = (nat, nat)

  // The text of a body. Let declares a local variable, in scope from its own initialiser on;
  // Prototype declares a function in the block, with parameters of its own.
  datatype Term =
    | Number(n: int)
    | Use(name: string)
    | Op(lhs: Term, op: string, rhs: Term)
    | Let(name: string, init: Term, rest: Term)
    | Prototype(decl: nat, fn: FunctionId, parms: seq<string>, next: Term)

  // What a name stands for: a parameter, a local by the depth of its declaration, or something
  // from outside the function.
  datatype Decl = Parm(parm: ParmDecl) | Local(depth: nat) | Outer(name: string)

  type Scope = seq<(string, Decl)>

  // The innermost declaration of a name.
  function Lookup(scope: Scope, x: string): Decl {
    if scope == [] then Outer(x)
    else if scope[|scope| - 1].0 == x then scope[|scope| - 1].1
    else Lookup(scope[..|scope| - 1], x)
  }

  function ParmScope(d: nat, ps: seq<string>): (scope: Scope)
    ensures |scope| == |ps| && forall i :: 0 <= i < |ps| ==> scope[i] == (ps[i], Parm((d, i)))
  {
    seq(|ps|, i requires 0 <= i < |ps| => (ps[i], Parm((d, i))))
  }

  function Declare(scope: Scope, x: string): Scope {
    scope + [(x, Local(|scope|))]
  }

  // The body with every name resolved: what the text means.
  datatype Resolved =
    | RNumber(n: int)
    | RUse(decl: Decl)
    | ROp(lhs: Resolved, op: string, rhs: Resolved)
    | RLet(depth: nat, init: Resolved, rest: Resolved)

  function Resolve(t: Term, scope: Scope): Resolved {
    match t
    case Number(n) => RNumber(n)
    case Use(x) => RUse(Lookup(scope, x))
    case Op(l, op, r) => ROp(Resolve(l, scope), op, Resolve(r, scope))
    case Let(x, init, rest) => RLet(|scope|, Resolve(init, Declare(scope, x)), Resolve(rest, Declare(scope, x)))
    case Prototype(_, _, _, next) => Resolve(next, scope)
  }

  // The value of a resolved body; an uninitialised local counts as 0.
  function Eval(ops: (string, int, int) -> int, r: Resolved, env: map<Decl, int>): int {
    match r
    case RNumber(n) => n
    case RUse(d) => if d in env then env[d] else 0
    case ROp(l, op, r) => ops(op, Eval(ops, l, env), Eval(ops, r, env))
    case RLet(d, init, rest) => Eval(ops, rest, env[Local(d) := Eval(ops, init, env[Local(d) := 0])])
  }

  // Every name in the text is an identifier, and no prototype is the declaration d itself.
  predicate WellFormed(t: Term, d: nat) {
    match t
    case Number(_) => true
    case Use(x) => x != ""
    case Op(l, _, r) => WellFormed(l, d) && WellFormed(r, d)
    case Let(x, init, rest) => x != "" && WellFormed(init, d) && WellFormed(rest, d)
    case Prototype(d', _, _, next) => d' != d && WellFormed(next, d)
  }

  // The local variables of a body, as the collecting visitor meets them.
  function Locals(t: Term): set<string> {
    match t
    case Number(_) => {}
    case Use(_) => {}
    case Op(l, _, r) => Locals(l) + Locals(r)
    case Let(x, init, rest) => {x} + Locals(init) + Locals(rest)
    case Prototype(_, _, _, next) => Locals(next)
  }

  // ----- The renamed body -----

  // ParamNameMap: the new names of the parameters of the declaration visited last.
  type NameMap = map<ParmDecl, string>

  function NameMapOf(d: nat, ps: seq<string>, ns: seq<string>): NameMap
    requires |ps| == |ns|
  {
    map i: nat | i < |ps| && ps[i] != "" :: (d, i) := ns[i]
  }

  lemma NameMapGrows(d: nat, ps: seq<string>, ns: seq<string>, i: nat, name: string)
    requires i < |ps| && |ns| == i
    ensures
      var m := NameMapOf(d, ps[..i], ns);
      NameMapOf(d, ps[..i + 1], ns + [name]) == if ps[i] == "" then m else m[(d, i) := name]
  {
  }

  lemma PrefixDiffers(a: seq<string>, b: seq<string>, i: nat)
    requires i < |a| == |b|
    ensures a[..i + 1] == a[..i] + [a[i]]
    ensures a[..i + 1] == b[..i + 1] <==> a[..i] == b[..i] && a[i] == b[i]
  {
    assert b[..i + 1] == b[..i] + [b[i]] && a[..i + 1][i] == a[i] && b[..i + 1][i] == b[i];
    assert a[..i + 1][..i] == a[..i] && b[..i + 1][..i] == b[..i];
  }

  // The numbers recorded for each function.
  type TakenNumbers = FunctionId -> set<nat>

  // The map after a declaration: one with parameters puts its own in the place of all others.
  function Visited(taken: TakenNumbers, d: nat, fn: FunctionId, ps: seq<string>, m: NameMap): NameMap {
    if ps == [] then m else NameMapOf(d, ps, NewNames(taken(fn), ps))
  }

  function After(taken: TakenNumbers, t: Term, m: NameMap): NameMap {
    match t
    case Number(_) => m
    case Use(_) => m
    case Op(l, _, r) => After(taken, r, After(taken, l, m))
    case Let(_, init, rest) => After(taken, rest, After(taken, init, m))
    case Prototype(d, fn, ps, next) => After(taken, next, Visited(taken, d, fn, ps, m))
  }

  // The text after the traversal.
  function Renamed(taken: TakenNumbers, t: Term, scope: Scope, m: NameMap): Term {
    match t
    case Number(_) => t
    case Use(x) =>
      var d := Lookup(scope, x);
      if d.Parm? && d.parm in m then Use(m[d.parm]) else t
    case Op(l, op, r) => Op(Renamed(taken, l, scope, m), op, Renamed(taken, r, scope, After(taken, l, m)))
    case Let(x, init, rest) =>
      var inner := Declare(scope, x);
      Let(x, Renamed(taken, init, inner, m), Renamed(taken, rest, inner, After(taken, init, m)))
    case Prototype(d, fn, ps, next) =>
      Prototype(d, fn, NewNames(taken(fn), ps), Renamed(taken, next, scope, Visited(taken, d, fn, ps, m)))
  }

  // The declarations in a body that clear the map.
  predicate Prototypes(t: Term) {
    match t
    case Number(_) => false
    case Use(_) => false
    case Op(l, _, r) => Prototypes(l) || Prototypes(r)
    case Let(_, init, rest) => Prototypes(init) || Prototypes(rest)
    case Prototype(_, _, ps, next) => ps != [] || Prototypes(next)
  }

  // No name from outside is one of the new names, and no parameter that gets another name is
  // used after (`late`) a prototype with parameters.
  predicate Safe(t: Term, scope: Scope, late: bool, ns: seq<string>) {
    match t
    case Number(_) => true
    case Use(x) =>
      (match Lookup(scope, x)
       case Parm((_, i)) => !late || (i < |ns| && ns[i] == x)
       case Local(_) => true
       case Outer(_) => x !in ns)
    case Op(l, _, r) => Safe(l, scope, late, ns) && Safe(r, scope, late || Prototypes(l), ns)
    case Let(x, init, rest) =>
      Safe(init, Declare(scope, x), late, ns) && Safe(rest, Declare(scope, x), late || Prototypes(init), ns)
    case Prototype(_, _, ps, next) => Safe(next, scope, late || ps != [], ns)
  }

  // Old and new parameter names of one declaration, as the pass makes them.
  ghost predicate Alpha(ps: seq<string>, ns: seq<string>) {
    && |ps| == |ns|
    && (forall i :: 0 <= i < |ps| ==> (ns[i] == "" <==> ps[i] == ""))
    && (forall i, j :: 0 <= i < j < |ns| && ns[i] != "" ==> ns[i] != ns[j])
  }

  // The map holds the parameters of declaration d, or, late in the body, none of them.
  ghost predicate Holds(m: NameMap, d: nat, ps: seq<string>, ns: seq<string>, late: bool) {
    && |ps| == |ns|
    && (forall i: nat :: (d, i) in m <==> !late && i < |ps| && ps[i] != "")
    && (forall i: nat :: (d, i) in m ==> m[(d, i)] == ns[i])
  }

  lemma {:induction false} HoldsAfter(taken: TakenNumbers, t: Term, m: NameMap, d: nat, ps: seq<string>, ns: seq<string>,
                                      late: bool)
    requires Holds(m, d, ps, ns, late) && WellFormed(t, d)
    ensures Holds(After(taken, t, m), d, ps, ns, late || Prototypes(t))
    decreases t
  {
    match t
    case Number(_) =>
    case Use(_) =>
    case Op(l, _, r) =>
      HoldsAfter(taken, l, m, d, ps, ns, late);
      HoldsAfter(taken, r, After(taken, l, m), d, ps, ns, late || Prototypes(l));
    case Let(_, init, rest) =>
      HoldsAfter(taken, init, m, d, ps, ns, late);
      HoldsAfter(taken, rest, After(taken, init, m), d, ps, ns, late || Prototypes(init));
    case Prototype(d', fn, qs, next) =>
      HoldsAfter(taken, next, Visited(taken, d', fn, qs, m), d, ps, ns, late || qs != []);
  }

  ghost predicate AreLocals(ls: Scope, base: nat, ns: seq<string>) {
    forall k :: 0 <= k < |ls| ==> ls[k].1 == Local(base + k) && ls[k].0 !in ns
  }

  lemma {:induction false} LookupParm(d: nat, ps: seq<string>, x: string)
    requires x != ""
    ensures match Lookup(ParmScope(d, ps), x)
            case Parm(p) => p.0 == d && p.1 < |ps| && ps[p.1] == x
            case Local(_) => false
            case Outer(y) => y == x && x !in ps
  {
    if ps != [] {
      var k := |ps| - 1;
      assert ParmScope(d, ps)[..k] == ParmScope(d, ps[..k]);
      assert ps == ps[..k] + [ps[k]];
      if ps[k] != x {
        LookupParm(d, ps[..k], x);
      }
    }
  }

  lemma LookupNewName(d: nat, ns: seq<string>, i: nat)
    requires i < |ns| && ns[i] != "" && forall i, j :: 0 <= i < j < |ns| && ns[i] != "" ==> ns[i] != ns[j]
    ensures Lookup(ParmScope(d, ns), ns[i]) == Parm((d, i))
  {
    LookupParm(d, ns, ns[i]);
  }

  lemma {:induction false} LookupLocals(scope: Scope, ls: Scope, base: nat, ns: seq<string>, x: string)
    requires AreLocals(ls, base, ns)
    ensures match Lookup(ls, x)
            case Local(_) => Lookup(scope + ls, x) == Lookup(ls, x)
            case Parm(_) => false
            case Outer(y) => y == x && Lookup(scope + ls, x) == Lookup(scope, x)
    ensures x in ns ==> Lookup(ls, x) == Outer(x)
  {
    if ls == [] {
      assert scope + ls == scope;
    } else {
      var k := |ls| - 1;
      assert (scope + ls)[..|scope + ls| - 1] == scope + ls[..k];
      if ls[k].0 != x {
        LookupLocals(scope, ls[..k], base, ns, x);
      }
    }
  }

  lemma UseResolved(taken: TakenNumbers, d: nat, ps: seq<string>, ns: seq<string>, ls: Scope, m: NameMap, late: bool, x: string)
    requires Alpha(ps, ns) && AreLocals(ls, |ps|, ns) && x != "" && Holds(m, d, ps, ns, late)
    ensures
      var scope, scope' := ParmScope(d, ps) + ls, ParmScope(d, ns) + ls;
      Resolve(Renamed(taken, Use(x), scope, m), scope') == Resolve(Use(x), scope) <==> Safe(Use(x), scope, late, ns)
  {
    LookupLocals(ParmScope(d, ps), ls, |ps|, ns, x);
    LookupLocals(ParmScope(d, ns), ls, |ps|, ns, x);
    if Lookup(ls, x).Outer? {
      LookupParm(d, ps, x);
      LookupParm(d, ns, x);
      var decl := Lookup(ParmScope(d, ps), x);
      if decl.Parm? {
        var newName := ns[decl.parm.1];
        LookupNewName(d, ns, decl.parm.1);
        LookupLocals(ParmScope(d, ns), ls, |ps|, ns, newName);
      }
    }
  }

  // Resolving the renamed body gives the old meaning exactly when the body is safe.
  lemma {:induction false} RenamedResolvesIff(taken: TakenNumbers, d: nat, ps: seq<string>, ns: seq<string>, ls: Scope,
                                              m: NameMap, late: bool, t: Term)
    requires Alpha(ps, ns) && AreLocals(ls, |ps|, ns) && Holds(m, d, ps, ns, late)
    requires WellFormed(t, d) && forall x :: x in Locals(t) ==> x !in ns
    ensures
      var scope, scope' := ParmScope(d, ps) + ls, ParmScope(d, ns) + ls;
      Resolve(Renamed(taken, t, scope, m), scope') == Resolve(t, scope) <==> Safe(t, scope, late, ns)
    decreases t
  {
    var scope, scope' := ParmScope(d, ps) + ls, ParmScope(d, ns) + ls;
    match t
    case Number(_) =>
    case Use(x) => UseResolved(taken, d, ps, ns, ls, m, late, x);
    case Op(l, _, r) =>
      RenamedResolvesIff(taken, d, ps, ns, ls, m, late, l);
      HoldsAfter(taken, l, m, d, ps, ns, late);
      RenamedResolvesIff(taken, d, ps, ns, ls, After(taken, l, m), late || Prototypes(l), r);
    case Let(x, init, rest) =>
      var ls' := ls + [(x, Local(|scope|))];
      assert Declare(scope, x) == ParmScope(d, ps) + ls' && Declare(scope', x) == ParmScope(d, ns) + ls';
      RenamedResolvesIff(taken, d, ps, ns, ls', m, late, init);
      HoldsAfter(taken, init, m, d, ps, ns, late);
      RenamedResolvesIff(taken, d, ps, ns, ls', After(taken, init, m), late || Prototypes(init), rest);
    case Prototype(d', fn, qs, next) =>
      HoldsAfter(taken, Prototype(d', fn, qs, Number(0)), m, d, ps, ns, late);
      RenamedResolvesIff(taken, d, ps, ns, ls, Visited(taken, d', fn, qs, m), late || qs != [], next);
  }

  // The numbers of the prototypes' parameters fit as well.
  predicate PrototypesFit(taken: TakenNumbers, t: Term) {
    match t
    case Number(_) => true
    case Use(_) => true
    case Op(l, _, r) => PrototypesFit(taken, l) && PrototypesFit(taken, r)
    case Let(_, init, rest) => PrototypesFit(taken, init) && PrototypesFit(taken, rest)
    case Prototype(_, fn, ps, next) => Fits(taken(fn), ps) && PrototypesFit(taken, next)
  }

  lemma {:induction false} LocalsNamed(t: Term, d: nat)
    requires WellFormed(t, d)
    ensures "" !in Locals(t)
  {
    match t
    case Number(_) =>
    case Use(_) =>
    case Op(l, _, r) => LocalsNamed(l, d); LocalsNamed(r, d);
    case Let(_, init, rest) => LocalsNamed(init, d); LocalsNamed(rest, d);
    case Prototype(_, _, _, next) => LocalsNamed(next, d);
  }

  // One declaration of a function, and what the pass makes of it.
  function RenamedBody(taken: TakenNumbers, d: nat, fn: FunctionId, ps: seq<string>, body: Term): Term {
    Renamed(taken, body, ParmScope(d, ps), Visited(taken, d, fn, ps, map[]))
  }

  // When the numbers of every local have been recorded, the renamed function means the same
  // exactly when its body is safe.
  lemma FunctionPreservedIff(taken: TakenNumbers, d: nat, fn: FunctionId, ps: seq<string>, body: Term)
    requires Fits(taken(fn), ps) && WellFormed(body, d) && forall x :: x in Locals(body) ==> Covers(taken(fn), x)
    ensures
      var ns := NewNames(taken(fn), ps);
      Resolve(RenamedBody(taken, d, fn, ps, body), ParmScope(d, ns)) == Resolve(body, ParmScope(d, ps))
      <==> Safe(body, ParmScope(d, ps), false, ns)
  {
    DeclarationPreservedIff(taken, d, fn, ps, body, map[]);
  }

  // The same when the map still holds the parameters of other declarations.
  lemma DeclarationPreservedIff(taken: TakenNumbers, d: nat, fn: FunctionId, ps: seq<string>, body: Term, m: NameMap)
    requires Fits(taken(fn), ps) && WellFormed(body, d) && forall x :: x in Locals(body) ==> Covers(taken(fn), x)
    requires forall i: nat :: (d, i) !in m
    ensures
      var ns := NewNames(taken(fn), ps);
      Resolve(Renamed(taken, body, ParmScope(d, ps), Visited(taken, d, fn, ps, m)), ParmScope(d, ns)) ==
      Resolve(body, ParmScope(d, ps))
      <==> Safe(body, ParmScope(d, ps), false, ns)
  {
    var ns := NewNames(taken(fn), ps);
    LocalsNamed(body, d);
    NewNamesFresh(taken(fn), ps);
    RenamedResolvesIff(taken, d, ps, ns, [], Visited(taken, d, fn, ps, m), false, body);
    assert ParmScope(d, ps) + [] == ParmScope(d, ps) && ParmScope(d, ns) + [] == ParmScope(d, ns);
  }

  // The names a body takes from outside the function.
  function Outers(t: Term, scope: Scope): set<string> {
    match t
    case Number(_) => {}
    case Use(x) => if Lookup(scope, x).Outer? then {x} else {}
    case Op(l, _, r) => Outers(l, scope) + Outers(r, scope)
    case Let(x, init, rest) => Outers(init, Declare(scope, x)) + Outers(rest, Declare(scope, x))
    case Prototype(_, _, _, next) => Outers(next, scope)
  }

  lemma {:induction false} SafeWhen(t: Term, scope: Scope, ns: seq<string>)
    requires !Prototypes(t) && forall x :: x in Outers(t, scope) ==> x !in ns
    ensures Safe(t, scope, false, ns)
  {
    match t
    case Number(_) =>
    case Use(_) =>
    case Op(l, _, r) => SafeWhen(l, scope, ns); SafeWhen(r, scope, ns);
    case Let(x, init, rest) =>
      SafeWhen(init, Declare(scope, x), ns);
      SafeWhen(rest, Declare(scope, x), ns);
    case Prototype(_, _, _, next) => SafeWhen(next, scope, ns);
  }

  // Capture-free: a body that uses recorded variables only, and declares no function with
  // parameters, computes what it did, for every meaning of the operators and every state.
  lemma RecordedProgramsEvaluateTheSame(taken: TakenNumbers, d: nat, fn: FunctionId, ps: seq<string>, body: Term,
                                        ops: (string, int, int) -> int, env: map<Decl, int>)
    requires Fits(taken(fn), ps) && WellFormed(body, d) && !Prototypes(body)
    requires forall x :: x in Locals(body) ==> Covers(taken(fn), x)
    requires forall x :: x in Outers(body, ParmScope(d, ps)) ==> x != "" && Covers(taken(fn), x)
    ensures
      Eval(ops, Resolve(RenamedBody(taken, d, fn, ps, body), ParmScope(d, NewNames(taken(fn), ps))), env)
      == Eval(ops, Resolve(body, ParmScope(d, ps)), env)
  {
    NewNamesFresh(taken(fn), ps);
    SafeWhen(body, ParmScope(d, ps), NewNames(taken(fn), ps));
    FunctionPreservedIff(taken, d, fn, ps, body);
  }

  lemma FirstName(p: string)
    requires p != ""
    ensures NewNames({}, [p]) == ["p1"]
  {
    assert Numbers({}, [p], 0) == [1] + Numbers({}, [], 1);
    assert NewNames({}, [p])[0] == ParamName(1) == "p1";
  }

  // A function p1 is not recorded: int f(int a) { return a + p1; } becomes int f(int p1) { return p1 + p1; }.
  lemma FunctionNameCaptured()
    ensures
      var body := Op(Use("a"), "+", Use("p1"));
      var after := RenamedBody(_ => {}, 0, 0, ["a"], body);
      && NewNames({}, ["a"]) == ["p1"]
      && after == Op(Use("p1"), "+", Use("p1"))
      && Resolve(body, ParmScope(0, ["a"])) == ROp(RUse(Parm((0, 0))), "+", RUse(Outer("p1")))
      && Resolve(after, ParmScope(0, ["p1"])) == ROp(RUse(Parm((0, 0))), "+", RUse(Parm((0, 0))))
  {
    FirstName("a");
    LookupParm(0, ["a"], "p1");
    LookupParm(0, ["a"], "a");
    LookupParm(0, ["p1"], "p1");
  }

  // A prototype in the body clears the map: in int f(int a) { int g(int b); return a; } the use of
  // `a` keeps the old name, which the renamed parameter no longer has.
  lemma PrototypeClearsMap()
    ensures
      var body := Prototype(1, 1, ["b"], Use("a"));
      var after := RenamedBody(_ => {}, 0, 0, ["a"], body);
      && NewNames({}, ["a"]) == ["p1"]
      && after == Prototype(1, 1, ["p1"], Use("a"))
      && Resolve(body, ParmScope(0, ["a"])) == RUse(Parm((0, 0)))
      && Resolve(after, ParmScope(0, ["p1"])) == RUse(Outer("a"))
  {
    FirstName("a");
    FirstName("b");
    LookupParm(0, ["a"], "a");
    LookupParm(0, ["p1"], "a");
  }

  // ----- Programs -----

  // A variable outside functions, or one declaration of a function.
  datatype Item = Global(name: string) | Declaration(d: nat, fn: FunctionId, ps: seq<string>, body: Option<Term>)

  type Program = seq<Item>

  function GlobalNumbers(p: Program, uninitialised: nat): set<nat> {
    if p == [] then {}
    else
      GlobalNumbers(p[..|p| - 1], uninitialised)
      + if p[|p| - 1].Global? then Recorded(p[|p| - 1].name, uninitialised) else {}
  }

  function NumbersIn(t: Term, uninitialised: nat): set<nat> {
    match t
    case Number(_) => {}
    case Use(_) => {}
    case Op(l, _, r) => NumbersIn(l, uninitialised) + NumbersIn(r, uninitialised)
    case Let(x, init, rest) => Recorded(x, uninitialised) + NumbersIn(init, uninitialised) + NumbersIn(rest, uninitialised)
    case Prototype(_, _, _, next) => NumbersIn(next, uninitialised)
  }

  function NumbersOfItem(item: Item, fn: FunctionId, uninitialised: nat): set<nat> {
    if item.Declaration? && item.fn == fn && item.body.Some? then NumbersIn(item.body.value, uninitialised) else {}
  }

  function NumbersOf(p: Program, fn: FunctionId, uninitialised: nat): set<nat> {
    if p == [] then {}
    else NumbersOf(p[..|p| - 1], fn, uninitialised) + NumbersOfItem(p[|p| - 1], fn, uninitialised)
  }

  // The numbers that a function's parameters pass over.
  function TakenBy(p: Program, uninitialised: nat): TakenNumbers {
    fn => GlobalNumbers(p, uninitialised) + NumbersOf(p, fn, uninitialised)
  }

  // The parameter is used in the body.
  predicate IsReferenced(t: Term, scope: Scope, parm: ParmDecl) {
    match t
    case Number(_) => false
    case Use(x) => Lookup(scope, x) == Parm(parm)
    case Op(l, _, r) => IsReferenced(l, scope, parm) || IsReferenced(r, scope, parm)
    case Let(x, init, rest) => IsReferenced(init, Declare(scope, x), parm) || IsReferenced(rest, Declare(scope, x), parm)
    case Prototype(_, _, _, next) => IsReferenced(next, scope, parm)
  }

  predicate ParmReferenced(item: Item, i: nat)
    requires item.Declaration?
  {
    item.body.Some? && IsReferenced(item.body.value, ParmScope(item.d, item.ps), (item.d, i))
  }

  // A parameter that is used and has a name of another form.
  predicate IsWorkAt(item: Item, i: nat, uninitialised: nat)
    requires item.Declaration? && i < |item.ps|
  {
    ParmReferenced(item, i) && GetPostfixValue(item.ps[i], uninitialised) == None
  }

  predicate HasWork(item: Item, uninitialised: nat) {
    item.Declaration? && exists i :: 0 <= i < |item.ps| && IsWorkAt(item, i, uninitialised)
  }

  // HasValidParams after the collection.
  predicate NeedsRenaming(p: Program, uninitialised: nat) {
    exists k :: 0 <= k < |p| && HasWork(p[k], uninitialised)
  }

  function RenamedItem(taken: TakenNumbers, item: Item, m: NameMap): Item {
    match item
    case Global(_) => item
    case Declaration(d, fn, ps, body) =>
      var body' := if body.None? then None
                   else Some(Renamed(taken, body.value, ParmScope(d, ps), Visited(taken, d, fn, ps, m)));
      Declaration(d, fn, NewNames(taken(fn), ps), body')
  }

  function AfterItem(taken: TakenNumbers, item: Item, m: NameMap): NameMap {
    match item
    case Global(_) => m
    case Declaration(d, fn, ps, body) =>
      var m' := Visited(taken, d, fn, ps, m);
      if body.None? then m' else After(taken, body.value, m')
  }

  function AfterItems(taken: TakenNumbers, p: Program): NameMap {
    if p == [] then map[] else AfterItem(taken, p[|p| - 1], AfterItems(taken, p[..|p| - 1]))
  }

  // The program after a run.
  function RenamedProgram(taken: TakenNumbers, p: Program): (q: Program)
    ensures |q| == |p|
  {
    if p == [] then []
    else RenamedProgram(taken, p[..|p| - 1]) + [RenamedItem(taken, p[|p| - 1], AfterItems(taken, p[..|p| - 1]))]
  }

  lemma {:induction false} RenamedAt(taken: TakenNumbers, p: Program, k: nat)
    requires k < |p|
    ensures RenamedProgram(taken, p)[k] == RenamedItem(taken, p[k], AfterItems(taken, p[..k]))
  {
    var last := |p| - 1;
    if k < last {
      RenamedAt(taken, p[..last], k);
      assert p[..last][..k] == p[..k];
    }
  }

  // ----- A second run -----

  lemma {:induction false} NumbersKept(taken: TakenNumbers, t: Term, scope: Scope, m: NameMap, uninitialised: nat)
    ensures NumbersIn(Renamed(taken, t, scope, m), uninitialised) == NumbersIn(t, uninitialised)
    decreases t
  {
    match t
    case Number(_) =>
    case Use(_) =>
    case Op(l, _, r) =>
      NumbersKept(taken, l, scope, m, uninitialised);
      NumbersKept(taken, r, scope, After(taken, l, m), uninitialised);
    case Let(x, init, rest) =>
      NumbersKept(taken, init, Declare(scope, x), m, uninitialised);
      NumbersKept(taken, rest, Declare(scope, x), After(taken, init, m), uninitialised);
    case Prototype(d, fn, ps, next) =>
      NumbersKept(taken, next, scope, Visited(taken, d, fn, ps, m), uninitialised);
  }

  // Renaming leaves the recorded numbers as they are.
  lemma {:induction false} TakenKept(taken: TakenNumbers, p: Program, fn: FunctionId, uninitialised: nat)
    ensures TakenBy(RenamedProgram(taken, p), uninitialised)(fn) == TakenBy(p, uninitialised)(fn)
    ensures GlobalNumbers(RenamedProgram(taken, p), uninitialised) == GlobalNumbers(p, uninitialised)
    ensures NumbersOf(RenamedProgram(taken, p), fn, uninitialised) == NumbersOf(p, fn, uninitialised)
  {
    if p != [] {
      var before, item, m := p[..|p| - 1], p[|p| - 1], AfterItems(taken, p[..|p| - 1]);
      var q := RenamedProgram(taken, p);
      TakenKept(taken, before, fn, uninitialised);
      assert q[..|q| - 1] == RenamedProgram(taken, before) && q[|q| - 1] == RenamedItem(taken, item, m);
      if item.Declaration? && item.body.Some? {
        NumbersKept(taken, item.body.value, ParmScope(item.d, item.ps), Visited(taken, item.d, item.fn, item.ps, m), uninitialised);
      }
    }
  }

  // The numbers of all declarations fit into an `unsigned int`.
  predicate ItemFits(taken: TakenNumbers, item: Item) {
    item.Declaration? ==>
      Fits(taken(item.fn), item.ps) && (item.body.Some? ==> PrototypesFit(taken, item.body.value))
  }

  predicate ProgramFits(taken: TakenNumbers, p: Program) {
    forall k :: 0 <= k < |p| ==> ItemFits(taken, p[k])
  }

  // After a run the numbers passed over are the same, all parameters already have the names they would get,
  // and there is nothing left to rename.
  lemma SecondRunIdle(p: Program, uninitialised: nat)
    requires ProgramFits(TakenBy(p, uninitialised), p)
    ensures
      var taken := TakenBy(p, uninitialised);
      var q := RenamedProgram(taken, p);
      && (forall fn :: TakenBy(q, uninitialised)(fn) == taken(fn))
      && (forall k :: 0 <= k < |q| && q[k].Declaration? ==> NewNames(taken(q[k].fn), q[k].ps) == q[k].ps)
      && !NeedsRenaming(q, uninitialised)
  {
    var taken := TakenBy(p, uninitialised);
    var q := RenamedProgram(taken, p);
    forall fn
      ensures TakenBy(q, uninitialised)(fn) == taken(fn)
    {
      TakenKept(taken, p, fn, uninitialised);
    }
    forall k | 0 <= k < |q|
      ensures q[k].Declaration? ==> NewNames(taken(q[k].fn), q[k].ps) == q[k].ps
      ensures !HasWork(q[k], uninitialised)
    {
      assert ItemFits(taken, p[k]);
      RenamedAt(taken, p, k);
      if p[k].Declaration? {
        SecondRun(taken(p[k].fn), p[k].ps, uninitialised);
      }
    }
  }

  // ----- What the whole program means -----

  // The declarations in a body.
  function DeclsIn(t: Term): set<nat> {
    match t
    case Number(_) => {}
    case Use(_) => {}
    case Op(l, _, r) => DeclsIn(l) + DeclsIn(r)
    case Let(_, init, rest) => DeclsIn(init) + DeclsIn(rest)
    case Prototype(d, _, _, next) => {d} + DeclsIn(next)
  }

  function DeclsOf(p: Program): set<nat> {
    if p == [] then {}
    else
      var item := p[|p| - 1];
      DeclsOf(p[..|p| - 1])
      + (if item.Declaration? then {item.d} + (if item.body.Some? then DeclsIn(item.body.value) else {}) else {})
  }

  // Every declaration has a number of its own.
  predicate Numbered(p: Program) {
    p == [] ||
    (var before, item := p[..|p| - 1], p[|p| - 1];
     Numbered(before) &&
     (item.Declaration? ==> item.d !in DeclsOf(before) && (item.body.Some? ==> WellFormed(item.body.value, item.d))))
  }

  ghost predicate MapWithin(m: NameMap, ds: set<nat>) {
    forall parm :: parm in m ==> parm.0 in ds
  }

  lemma {:induction false} AfterWithin(taken: TakenNumbers, t: Term, m: NameMap, ds: set<nat>)
    requires MapWithin(m, ds)
    ensures MapWithin(After(taken, t, m), ds + DeclsIn(t))
    decreases t
  {
    match t
    case Number(_) =>
    case Use(_) =>
    case Op(l, _, r) =>
      AfterWithin(taken, l, m, ds);
      AfterWithin(taken, r, After(taken, l, m), ds + DeclsIn(l));
    case Let(_, init, rest) =>
      AfterWithin(taken, init, m, ds);
      AfterWithin(taken, rest, After(taken, init, m), ds + DeclsIn(init));
    case Prototype(d, fn, ps, next) =>
      AfterWithin(taken, next, Visited(taken, d, fn, ps, m), ds + {d});
  }

  lemma {:induction false} AfterItemsWithin(taken: TakenNumbers, p: Program)
    ensures MapWithin(AfterItems(taken, p), DeclsOf(p))
  {
    if p != [] {
      var before, item := p[..|p| - 1], p[|p| - 1];
      AfterItemsWithin(taken, before);
      if item.Declaration? && item.body.Some? {
        var m := Visited(taken, item.d, item.fn, item.ps, AfterItems(taken, before));
        AfterWithin(taken, item.body.value, m, DeclsOf(before) + {item.d});
      }
    }
  }

  lemma {:induction false} LocalsCovered(t: Term, uninitialised: nat, taken: set<nat>)
    requires NumbersIn(t, uninitialised) <= taken
    ensures forall x :: x in Locals(t) ==> Covers(taken, x)
  {
    match t
    case Number(_) =>
    case Use(_) =>
    case Op(l, _, r) => LocalsCovered(l, uninitialised, taken); LocalsCovered(r, uninitialised, taken);
    case Let(x, init, rest) =>
      RecordedCovers(taken, x, uninitialised);
      LocalsCovered(init, uninitialised, taken);
      LocalsCovered(rest, uninitialised, taken);
    case Prototype(_, _, _, next) => LocalsCovered(next, uninitialised, taken);
  }

  lemma {:induction false} NumbersOfContains(p: Program, k: nat, fn: FunctionId, uninitialised: nat)
    requires k < |p|
    ensures NumbersOfItem(p[k], fn, uninitialised) <= NumbersOf(p, fn, uninitialised)
  {
    if k < |p| - 1 {
      NumbersOfContains(p[..|p| - 1], k, fn, uninitialised);
    }
  }

  lemma {:induction false} NumberedAt(p: Program, k: nat)
    requires Numbered(p) && k < |p|
    ensures p[k].Declaration? ==>
      p[k].d !in DeclsOf(p[..k]) && (p[k].body.Some? ==> WellFormed(p[k].body.value, p[k].d))
  {
    if k < |p| - 1 {
      NumberedAt(p[..|p| - 1], k);
      assert p[..|p| - 1][..k] == p[..k];
    }
  }

  // What a definition meant, and what it means as another item.
  predicate DefinitionKept(item: Item, item': Item) {
    item.Declaration? && item.body.Some? ==>
      item'.Declaration? && item'.body.Some? &&
      Resolve(item'.body.value, ParmScope(item'.d, item'.ps)) == Resolve(item.body.value, ParmScope(item.d, item.ps))
  }

  predicate DefinitionSafe(taken: TakenNumbers, item: Item) {
    item.Declaration? && item.body.Some? ==>
      Safe(item.body.value, ParmScope(item.d, item.ps), false, NewNames(taken(item.fn), item.ps))
  }

  // All names of local variables are avoided.
  ghost predicate LocalsAvoided(taken: TakenNumbers, item: Item) {
    item.Declaration? && item.body.Some? ==> forall x :: x in Locals(item.body.value) ==> Covers(taken(item.fn), x)
  }

  lemma TakenAvoids(p: Program, k: nat, uninitialised: nat)
    requires k < |p|
    ensures LocalsAvoided(TakenBy(p, uninitialised), p[k])
  {
    var item := p[k];
    if item.Declaration? && item.body.Some? {
      NumbersOfContains(p, k, item.fn, uninitialised);
      LocalsCovered(item.body.value, uninitialised, TakenBy(p, uninitialised)(item.fn));
    }
  }

  // The map does not hold the declaration yet.
  ghost predicate IsReady(item: Item, m: NameMap) {
    item.Declaration? ==>
      (forall i: nat :: (item.d, i) !in m) && (item.body.Some? ==> WellFormed(item.body.value, item.d))
  }

  lemma ReadyAt(taken: TakenNumbers, p: Program, k: nat)
    requires Numbered(p) && k < |p|
    ensures IsReady(p[k], AfterItems(taken, p[..k]))
  {
    NumberedAt(p, k);
    AfterItemsWithin(taken, p[..k]);
  }

  lemma ItemKeptIff(taken: TakenNumbers, item: Item, m: NameMap)
    requires ItemFits(taken, item) && LocalsAvoided(taken, item) && IsReady(item, m)
    ensures DefinitionKept(item, RenamedItem(taken, item, m)) <==> DefinitionSafe(taken, item)
  {
    if item.Declaration? && item.body.Some? {
      DeclarationPreservedIff(taken, item.d, item.fn, item.ps, item.body.value, m);
    }
  }

  lemma DefinitionKeptIff(taken: TakenNumbers, p: Program, k: nat)
    requires Numbered(p) && k < |p| && ItemFits(taken, p[k]) && LocalsAvoided(taken, p[k])
    ensures DefinitionKept(p[k], RenamedProgram(taken, p)[k]) <==> DefinitionSafe(taken, p[k])
  {
    RenamedAt(taken, p, k);
    ReadyAt(taken, p, k);
    ItemKeptIff(taken, p[k], AfterItems(taken, p[..k]));
  }

  // The whole program: with the numbers of all variables collected, every function means the same after
  // the run exactly when every body is safe.
  lemma ProgramPreservedIff(p: Program, uninitialised: nat)
    requires Numbered(p) && ProgramFits(TakenBy(p, uninitialised), p)
    ensures
      var taken := TakenBy(p, uninitialised);
      var q := RenamedProgram(taken, p);
      (forall k :: 0 <= k < |p| ==> DefinitionKept(p[k], q[k])) <==> forall k :: 0 <= k < |p| ==> DefinitionSafe(taken, p[k])
  {
    var taken := TakenBy(p, uninitialised);
    forall k | 0 <= k < |p|
      ensures DefinitionKept(p[k], RenamedProgram(taken, p)[k]) <==> DefinitionSafe(taken, p[k])
    {
      assert ItemFits(taken, p[k]);
      TakenAvoids(p, k, uninitialised);
      DefinitionKeptIff(taken, p, k);
    }
  }

  // ----- The pass -----

  predicate NamesChanged(item: Item, item': Item) {
    item.Declaration? && item'.Declaration? && item'.ps != item.ps
  }

  predicate AnyChanged(p: Program, q: Program)
    requires |p| == |q|
  {
    exists k :: 0 <= k < |p| && NamesChanged(p[k], q[k])
  }

  lemma AnyChangedNext(p: Program, k: nat, q: Program, item': Item)
    requires k < |p| && |q| == k
    ensures AnyChanged(p[..k + 1], q + [item']) <==> AnyChanged(p[..k], q) || NamesChanged(p[k], item')
  {
    if NamesChanged(p[k], item') {
      assert NamesChanged(p[..k + 1][k], (q + [item'])[k]);
    }
    if AnyChanged(p[..k], q) {
      var i :| 0 <= i < k && NamesChanged(p[..k][i], q[i]);
      assert NamesChanged(p[..k + 1][i], (q + [item'])[i]);
    }
    if AnyChanged(p[..k + 1], q + [item']) {
      var i :| 0 <= i < k + 1 && NamesChanged(p[..k + 1][i], (q + [item'])[i]);
      assert i < k ==> NamesChanged(p[..k][i], q[i]);
    }
  }

  lemma RenamedNext(taken: TakenNumbers, p: Program, k: nat)
    requires k < |p|
    ensures RenamedProgram(taken, p[..k + 1]) ==
            RenamedProgram(taken, p[..k]) + [RenamedItem(taken, p[k], AfterItems(taken, p[..k]))]
    ensures AfterItems(taken, p[..k + 1]) == AfterItem(taken, p[k], AfterItems(taken, p[..k]))
  {
    assert p[..k + 1][..k] == p[..k] && p[..k + 1][k] == p[k];
  }

  datatype Outcome = NoValidParams | MaxInstanceError | NoTextModification | AllRenamed(program: Program)

  class RenameParam {
    var existingGlobalVars: set<nat>
    var funExistingVarsMap: map<FunctionId, set<nat>>
    var hasValidParams: bool
    // of the renaming visitor
    var paramNameMap: NameMap
    var rewritten: bool

    constructor ()
      ensures existingGlobalVars == {} && funExistingVarsMap == map[] && !hasValidParams
      ensures paramNameMap == map[] && !rewritten
    {
      existingGlobalVars, funExistingVarsMap, hasValidParams := {}, map[], false;
      paramNameMap, rewritten := map[], false;
    }

    function LocalNumbers(fn: FunctionId): set<nat>
      reads this`funExistingVarsMap
    {
      if fn in funExistingVarsMap then funExistingVarsMap[fn] else {}
    }

    function Taken(fn: FunctionId): set<nat>
      reads this`funExistingVarsMap, this`existingGlobalVars
    {
      existingGlobalVars + LocalNumbers(fn)
    }

    method ValidateParam(name: string, isReferenced: bool, uninitialised: nat)
      modifies this`hasValidParams
      ensures hasValidParams == (old(hasValidParams) || (isReferenced && GetPostfixValue(name, uninitialised) == None))
    {
      if isReferenced && GetPostfixValue(name, uninitialised) == None {
        hasValidParams := true;
      }
    }

    method AddGlobalVar(name: string, uninitialised: nat)
      modifies this`existingGlobalVars
      ensures existingGlobalVars == old(existingGlobalVars) + Recorded(name, uninitialised)
      ensures forall fn :: Covers(Taken(fn), name)
    {
      var postValue := GetPostfixValue(name, uninitialised);
      if postValue.Some? {
        existingGlobalVars := existingGlobalVars + {postValue.value};
      }
      forall fn: FunctionId
        ensures Covers(Taken(fn), name)
      {
        RecordedCovers(Taken(fn), name, uninitialised);
      }
    }

    method AddLocalVar(fn: FunctionId, name: string, uninitialised: nat)
      modifies this`funExistingVarsMap
      ensures LocalNumbers(fn) == old(LocalNumbers(fn)) + Recorded(name, uninitialised)
      ensures forall f :: f != fn ==> LocalNumbers(f) == old(LocalNumbers(f))
      ensures Covers(LocalNumbers(fn), name)
    {
      RecordedCovers(LocalNumbers(fn) + Recorded(name, uninitialised), name, uninitialised);
      var postValue := GetPostfixValue(name, uninitialised);
      if postValue.None? {
        return;
      }
      var currSet := if fn !in funExistingVarsMap then {} else funExistingVarsMap[fn];
      funExistingVarsMap := funExistingVarsMap[fn := currSet + {postValue.value}];
    }

    // The collecting visitor on a body: every local variable is recorded for its function.
    method CollectLocals(fn: FunctionId, t: Term, uninitialised: nat)
      modifies this`funExistingVarsMap
      ensures LocalNumbers(fn) == old(LocalNumbers(fn)) + NumbersIn(t, uninitialised)
      ensures forall f :: f != fn ==> LocalNumbers(f) == old(LocalNumbers(f))
      ensures forall x :: x in Locals(t) ==> Covers(LocalNumbers(fn), x)
      decreases t
    {
      LocalsCovered(t, uninitialised, LocalNumbers(fn) + NumbersIn(t, uninitialised));
      match t
      case Number(_) =>
      case Use(_) =>
      case Op(l, _, r) =>
        CollectLocals(fn, l, uninitialised);
        CollectLocals(fn, r, uninitialised);
      case Let(x, init, rest) =>
        AddLocalVar(fn, x, uninitialised);
        CollectLocals(fn, init, uninitialised);
        CollectLocals(fn, rest, uninitialised);
      case Prototype(_, _, _, next) =>
        CollectLocals(fn, next, uninitialised);
    }

    method ValidateParams(item: Item, uninitialised: nat)
      requires item.Declaration?
      modifies this`hasValidParams
      ensures hasValidParams == (old(hasValidParams) || HasWork(item, uninitialised))
    {
      for i := 0 to |item.ps|
        invariant hasValidParams == (old(hasValidParams) || exists k :: 0 <= k < i && IsWorkAt(item, k, uninitialised))
      {
        assert IsWorkAt(item, i, uninitialised) == (ParmReferenced(item, i) && GetPostfixValue(item.ps[i], uninitialised) == None);
        ValidateParam(item.ps[i], ParmReferenced(item, i), uninitialised);
      }
    }

    // The collecting visitor on a declaration: its parameters are looked at, and the locals of its body.
    // The parameters of prototypes inside are not referenced.
    method CollectItem(item: Item, uninitialised: nat)
      modifies this`existingGlobalVars, this`funExistingVarsMap, this`hasValidParams
      ensures existingGlobalVars == old(existingGlobalVars) + if item.Global? then Recorded(item.name, uninitialised) else {}
      ensures forall f :: LocalNumbers(f) == old(LocalNumbers(f)) + NumbersOfItem(item, f, uninitialised)
      ensures hasValidParams == (old(hasValidParams) || HasWork(item, uninitialised))
    {
      match item
      case Global(name) =>
        AddGlobalVar(name, uninitialised);
      case Declaration(_, fn, ps, body) =>
        ValidateParams(item, uninitialised);
        if body.Some? {
          CollectLocals(fn, body.value, uninitialised);
        }
    }

    method Collect(p: Program, uninitialised: nat)
      requires existingGlobalVars == {} && funExistingVarsMap == map[] && !hasValidParams
      modifies this`existingGlobalVars, this`funExistingVarsMap, this`hasValidParams
      ensures forall fn :: Taken(fn) == TakenBy(p, uninitialised)(fn)
      ensures hasValidParams == NeedsRenaming(p, uninitialised)
    {
      for k := 0 to |p|
        invariant existingGlobalVars == GlobalNumbers(p[..k], uninitialised)
        invariant forall fn :: LocalNumbers(fn) == NumbersOf(p[..k], fn, uninitialised)
        invariant hasValidParams == exists i :: 0 <= i < k && HasWork(p[i], uninitialised)
      {
        assert p[..k + 1][..k] == p[..k] && p[..k + 1][k] == p[k];
        CollectItem(p[k], uninitialised);
      }
      assert p[..|p|] == p;
    }

    predicate IsValidPostfix(localSet: Option<set<nat>>, postfix: nat)
      reads this`existingGlobalVars
    {
      if postfix in existingGlobalVars then false
      else if localSet.None? then true
      else postfix !in localSet.value
    }

    // The loop ends at the least free number, before the iteration counter runs out.
    method ValidatePostfix(fn: FunctionId, start: nat) returns (currPostfix: nat)
      requires LeastFree(Taken(fn), start) < UNSIGNED_LIMIT
      ensures currPostfix == LeastFree(Taken(fn), start)
    {
      currPostfix := start;
      var maxIteration := 0;
      var localNumberSet := None;
      if fn in funExistingVarsMap {
        localNumberSet := Some(funExistingVarsMap[fn]);
        maxIteration := maxIteration + |funExistingVarsMap[fn]|;
      }
      maxIteration := maxIteration + |existingGlobalVars|;
      ghost var bound := maxIteration;
      while !IsValidPostfix(localNumberSet, currPostfix)
        invariant start <= currPostfix <= LeastFree(Taken(fn), start)
        invariant maxIteration == bound - (currPostfix - start)
        decreases LeastFree(Taken(fn), start) - currPostfix
      {
        assert currPostfix < LeastFree(Taken(fn), start);
        currPostfix := (currPostfix + 1) % UNSIGNED_LIMIT;
        maxIteration := maxIteration - 1;
        Interval(start, currPostfix, Taken(fn));
        Union(existingGlobalVars, LocalNumbers(fn));
        assert maxIteration >= 0;
      }
      assert currPostfix !in Taken(fn);
    }

    // One round of the loop below.
    method NameOneParam(fn: FunctionId, parm: ParmDecl, oldName: string, prev: nat) returns (currPostfix: nat, name: string)
      requires Advance(Taken(fn), prev, oldName) < UNSIGNED_LIMIT
      modifies this`paramNameMap, this`rewritten
      ensures currPostfix == Advance(Taken(fn), prev, oldName)
      ensures name == if oldName == "" then "" else ParamName(currPostfix)
      ensures paramNameMap == if oldName == "" then old(paramNameMap) else old(paramNameMap)[parm := name]
      ensures rewritten == (old(rewritten) || name != oldName)
    {
      currPostfix := (prev + 1) % UNSIGNED_LIMIT;
      name := "";
      if oldName != "" {
        currPostfix := ValidatePostfix(fn, currPostfix);
        name := ParamName(currPostfix);
        if oldName != name {
          rewritten := true;
        }
        paramNameMap := paramNameMap[parm := name];
      }
    }

    // VisitFunctionDecl: the parameters of one declaration, and the map for the uses in its body.
    method VisitFunctionDecl(d: nat, fn: FunctionId, ps: seq<string>) returns (ns: seq<string>)
      requires Fits(Taken(fn), ps)
      modifies this`paramNameMap, this`rewritten
      ensures ns == NewNames(Taken(fn), ps)
      ensures paramNameMap == if ps == [] then old(paramNameMap) else NameMapOf(d, ps, ns)
      ensures rewritten == (old(rewritten) || ns != ps)
    {
      ns := [];
      if ps == [] {
        return;
      }
      var currPostfix := 0;
      paramNameMap := map[];
      ghost var taken, nums, target := Taken(fn), Numbers(Taken(fn), ps, 0), NewNames(Taken(fn), ps);
      for i := 0 to |ps|
        invariant |ns| == i && currPostfix == if i == 0 then 0 else nums[i - 1]
        invariant ns == target[..i]
        invariant paramNameMap == NameMapOf(d, ps[..i], target[..i])
        invariant rewritten == (old(rewritten) || target[..i] != ps[..i])
      {
        NextNumber(taken, ps, i);
        NameMapGrows(d, ps, ns, i, target[i]);
        PrefixDiffers(target, ps, i);
        var name;
        currPostfix, name := NameOneParam(fn, (d, i), ps[i], currPostfix);
        ns := ns + [name];
        assert currPostfix == nums[i];
      }
      assert ps[..|ps|] == ps && target[..|ps|] == target;
    }

    // VisitDeclRefExpr: a use of a parameter in the map gets its new name.
    method VisitDeclRefExpr(x: string, decl: Decl) returns (name: string)
      ensures name == if decl.Parm? && decl.parm in paramNameMap then paramNameMap[decl.parm] else x
    {
      if !decl.Parm? || decl.parm !in paramNameMap {
        return x;
      }
      return paramNameMap[decl.parm];
    }

    // The renaming visitor on a body.
    method TraverseBody(t: Term, scope: Scope, ghost taken: TakenNumbers) returns (t': Term)
      requires forall fn :: taken(fn) == Taken(fn)
      requires PrototypesFit(taken, t)
      modifies this`paramNameMap, this`rewritten
      ensures t' == Renamed(taken, t, scope, old(paramNameMap))
      ensures paramNameMap == After(taken, t, old(paramNameMap)) && (old(rewritten) ==> rewritten)
      decreases t
    {
      match t
      case Number(_) =>
        t' := t;
      case Use(x) =>
        var name := VisitDeclRefExpr(x, Lookup(scope, x));
        t' := Use(name);
      case Op(l, op, r) =>
        var l' := TraverseBody(l, scope, taken);
        var r' := TraverseBody(r, scope, taken);
        t' := Op(l', op, r');
      case Let(x, init, rest) =>
        var init' := TraverseBody(init, Declare(scope, x), taken);
        var rest' := TraverseBody(rest, Declare(scope, x), taken);
        t' := Let(x, init', rest');
      case Prototype(d, fn, ps, next) =>
        var ns := VisitFunctionDecl(d, fn, ps);
        var next' := TraverseBody(next, scope, taken);
        t' := Prototype(d, fn, ns, next');
    }

    // One declaration; a definition means the same afterwards exactly when its body is safe.
    method TraverseFunctionDecl(item: Item, ghost taken: TakenNumbers) returns (item': Item)
      requires item.Declaration? && forall f :: taken(f) == Taken(f)
      requires ItemFits(taken, item) && LocalsAvoided(taken, item) && IsReady(item, paramNameMap)
      modifies this`paramNameMap, this`rewritten
      ensures item' == RenamedItem(taken, item, old(paramNameMap)) && paramNameMap == AfterItem(taken, item, old(paramNameMap))
      ensures old(rewritten) || item'.ps != item.ps ==> rewritten
      ensures DefinitionKept(item, item') <==> DefinitionSafe(taken, item)
    {
      ItemKeptIff(taken, item, paramNameMap);
      var ns := VisitFunctionDecl(item.d, item.fn, item.ps);
      var body' := None;
      if item.body.Some? {
        var body := TraverseBody(item.body.value, ParmScope(item.d, item.ps), taken);
        body' := Some(body);
      }
      item' := Declaration(item.d, item.fn, ns, body');
    }

    method RenameItem(item: Item, ghost taken: TakenNumbers) returns (item': Item)
      requires forall f :: taken(f) == Taken(f)
      requires ItemFits(taken, item) && LocalsAvoided(taken, item) && IsReady(item, paramNameMap)
      modifies this`paramNameMap, this`rewritten
      ensures item' == RenamedItem(taken, item, old(paramNameMap)) && paramNameMap == AfterItem(taken, item, old(paramNameMap))
      ensures old(rewritten) || NamesChanged(item, item') ==> rewritten
    {
      item' := item;
      if item.Declaration? {
        item' := TraverseFunctionDecl(item, taken);
      }
    }

    // The renaming visitor.
    method Rename(p: Program, ghost taken: TakenNumbers) returns (q: Program)
      requires forall f :: taken(f) == Taken(f)
      requires Numbered(p) && ProgramFits(taken, p) && paramNameMap == map[] && !rewritten
      requires forall k :: 0 <= k < |p| ==> LocalsAvoided(taken, p[k])
      modifies this`paramNameMap, this`rewritten
      ensures q == RenamedProgram(taken, p) && (AnyChanged(p, q) ==> rewritten)
    {
      q := [];
      for k := 0 to |p|
        invariant q == RenamedProgram(taken, p[..k]) && paramNameMap == AfterItems(taken, p[..k])
        invariant AnyChanged(p[..k], q) ==> rewritten
      {
        RenamedNext(taken, p, k);
        ReadyAt(taken, p, k);
        assert ItemFits(taken, p[k]);
        AnyChangedNext(p, k, q, RenamedItem(taken, p[k], paramNameMap));
        var item := RenameItem(p[k], taken);
        q := q + [item];
      }
      assert p[..|p|] == p;
    }

    // A whole run.
    method HandleTranslationUnit(p: Program, counter: int, uninitialised: nat) returns (r: Outcome)
      requires existingGlobalVars == {} && funExistingVarsMap == map[] && !hasValidParams
      requires paramNameMap == map[] && !rewritten && counter >= 1
      requires Numbered(p) && ProgramFits(TakenBy(p, uninitialised), p)
      modifies this
      ensures r.NoValidParams? <==> !NeedsRenaming(p, uninitialised)
      ensures r.MaxInstanceError? <==> NeedsRenaming(p, uninitialised) && counter > 1
      // A parameter that needs a name gets another one, so there is always something to write.
      ensures !r.NoTextModification?
      ensures r.AllRenamed? ==> r.program == RenamedProgram(TakenBy(p, uninitialised), p)
    {
      Collect(p, uninitialised);
      if !hasValidParams {
        return NoValidParams;
      } else if counter > 1 {
        return MaxInstanceError;
      }
      ghost var taken := TakenBy(p, uninitialised);
      forall k | 0 <= k < |p|
        ensures LocalsAvoided(taken, p[k])
      {
        TakenAvoids(p, k, uninitialised);
      }
      var q := Rename(p, taken);
      WorkIsDone(p, uninitialised);
      if !rewritten {
        return NoTextModification;
      }
      return AllRenamed(q);
    }
  }

  // A parameter with a name of another form gets a different name.
  lemma WorkChangesNames(taken: TakenNumbers, item: Item, m: NameMap, uninitialised: nat)
    requires HasWork(item, uninitialised) && ItemFits(taken, item)
    ensures NamesChanged(item, RenamedItem(taken, item, m))
  {
    var ns := NewNames(taken(item.fn), item.ps);
    SecondRun(taken(item.fn), item.ps, uninitialised);
    var i :| 0 <= i < |item.ps| && IsWorkAt(item, i, uninitialised);
    assert ns[i] in ns;
  }

  lemma WorkIsDone(p: Program, uninitialised: nat)
    requires NeedsRenaming(p, uninitialised) && ProgramFits(TakenBy(p, uninitialised), p)
    ensures AnyChanged(p, RenamedProgram(TakenBy(p, uninitialised), p))
  {
    var taken := TakenBy(p, uninitialised);
    var k :| 0 <= k < |p| && HasWork(p[k], uninitialised);
    assert ItemFits(taken, p[k]);
    RenamedAt(taken, p, k);
    WorkChangesNames(taken, p[k], AfterItems(taken, p[..k]), uninitialised);
  }

  lemma Union(a: set<nat>, b: set<nat>)
    ensures |a + b| <= |a| + |b|
  {
    assert a + b == a + (b - a);
    SubsetSize(b - a, b);
  }
}
