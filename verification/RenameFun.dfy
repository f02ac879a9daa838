/**
 clang_delta/RenameFun.cpp: functions become fn1, fn2, ..., and a run is reported as useless when
 all names have that form already and the numbers are consecutive.
 */
module RenameFun {
  import opened Collections
  import opened Decimal
  import opened Wrappers

  type FunId = nat

  // A visit of a function: the canonical declaration, its name, and whether it is a device kernel.
  datatype Fun = Fun(id: FunId, name: string, kernel: bool)

  // The visits of the collecting visitor, in order.
  type Program = seq<Fun>

  // The declarations of one function agree.
  predicate WellFormed(p: Program) {
    forall f, g :: f in p && g in p && f.id == g.id ==> f == g
  }

  lemma WellFormedPrefix(p: Program, i: nat)
    requires WellFormed(p) && i <= |p|
    ensures WellFormed(p[..i])
  {
    assert forall f :: f in p[..i] ==> f in p;
  }

  predicate IsSpecialFun(name: string) {
    name == "main" || name == "printf"
  }

  // Special functions and kernels keep their names.
  predicate IsKept(f: Fun) {
    IsSpecialFun(f.name) || f.kernel
  }

  function FunName(n: nat): string {
    "fn" + Print(n)
  }

  // The number in a name of the right form.
  function Postfix(name: string): Option<nat> {
    if |name| <= 2 then None
    else if name[..2] != "fn" then None
    else ReadUnsigned(name[2..])
  }

  predicate HasValidPostfix(name: string) {
    IsSpecialFun(name) || Postfix(name).Some?
  }

  // A name has a number when it is fn and digits, with a value that fits, and whatever follows them.
  lemma PostfixIff(name: string, n: nat)
    ensures Postfix(name) == Some(n) <==> n < 0x1_0000_0000 && exists s :: name == "fn" + s && StartsWith(s, n)
  {
    if |name| >= 2 && name[..2] == "fn" {
      assert name == "fn" + name[2..];
      ReadUnsignedIff(name[2..], n);
    }
    if s :| name == "fn" + s && StartsWith(s, n) {
      assert name[..2] == "fn" && name[2..] == s && s != "";
    }
  }

  lemma FunNamePostfix(n: nat)
    ensures Postfix(FunName(n)) == if n < UNSIGNED_LIMIT then Some(n) else None
    ensures !IsSpecialFun(FunName(n))
  {
    assert FunName(n)[..2] == "fn" && FunName(n)[2..] == Print(n);
    assert FunName(n)[0] == 'f';
    ReadPrint(n);
  }

  lemma FunNameInjective(m: nat, n: nat)
    requires FunName(m) == FunName(n)
    ensures m == n
  {
    assert FunName(m)[2..] == Print(m) && FunName(n)[2..] == Print(n);
    PrintInjective(m, n);
  }

  // ----- The test for consecutive numbers -----

  ghost predicate IsLargest(s: set<nat>, n: nat) {
    n in s && forall x :: x in s ==> x <= n
  }

  // What the test computes.
  ghost predicate Passes(s: set<nat>) {
    s == {} || (1 in s && IsLargest(s, |s|))
  }

  function UpTo(k: nat): (s: set<nat>)
    ensures |s| == k && forall i :: i in s <==> 1 <= i <= k
  {
    if k == 0 then {} else UpTo(k - 1) + {k}
  }

  // The numbers are 1, 2, ..., n.
  ghost predicate IsInitial(s: set<nat>, n: nat) {
    forall i :: i in s <==> 1 <= i <= n
  }

  // The numbers are 0, 1, ..., n without the gap.
  ghost predicate HasGap(s: set<nat>, n: nat, gap: nat) {
    forall i: nat :: i in s <==> i <= n && i != gap
  }

  // The test is right for numbers from one on. With zero it passes exactly for the sets that have
  // one gap instead, such as {0, 1, 3}.
  lemma PassesIff(s: set<nat>)
    ensures Passes(s) <==>
            (exists n: nat :: IsInitial(s, n)) || (exists n: nat, gap: nat :: 2 <= gap < n && HasGap(s, n, gap))
  {
    if Passes(s) {
      if s == {} {
        assert IsInitial(s, 0);
      } else if 0 in s {
        var gap := PassesWithZero(s, |s|);
        assert HasGap(s, |s|, gap);
      } else {
        PassesWithoutZero(s, |s|);
      }
    }
    if n: nat :| IsInitial(s, n) {
      assert s == UpTo(n);
    }
    if n: nat, gap: nat :| 2 <= gap < n && HasGap(s, n, gap) {
      GapPasses(s, n, gap);
    }
  }

  lemma GapPasses(s: set<nat>, n: nat, gap: nat)
    requires 2 <= gap < n && HasGap(s, n, gap)
    ensures Passes(s)
  {
    assert s == (UpTo(n) - {gap}) + {0};
    assert |UpTo(n) - {gap}| == n - 1;
    assert |s| == n;
  }

  lemma PassesWithoutZero(s: set<nat>, n: nat)
    requires 0 !in s && |s| == n && IsLargest(s, n)
    ensures IsInitial(s, n)
  {
    assert s <= UpTo(n);
    SubsetSize(s, UpTo(n));
  }

  lemma PassesWithZero(s: set<nat>, n: nat) returns (gap: nat)
    requires 0 in s && 1 in s && |s| == n && IsLargest(s, n)
    ensures 2 <= gap < n && HasGap(s, n, gap)
  {
    gap := OnlyElement(s, UpTo(n), n);
    assert gap in UpTo(n) - s;
    forall i: nat
      ensures i in s <==> i <= n && i != gap
    {
      assert i in UpTo(n) - s <==> i == gap;
    }
  }

  lemma OnlyElement(s: set<nat>, u: set<nat>, n: nat) returns (gap: nat)
    requires 0 in s && |s| == n && |u| == n && 0 !in u && s - {0} <= u
    ensures u - s == {gap}
  {
    var positive, missing := s - {0}, u - s;
    assert u == positive + missing && positive * missing == {};
    assert |positive| == n - 1;
    assert |missing| == 1;
    gap :| gap in missing;
    assert |missing - {gap}| == 0;
    assert missing == {gap};
  }

  lemma ZeroMisleads()
    ensures Passes({0, 1, 3}) && forall n: nat :: !IsInitial({0, 1, 3}, n)
  {
    var s: set<nat> := {0, 1, 3};
    assert |s| == 3;
    assert 0 in s;
  }

  // ----- Numbering -----

  // The functions to rename, in the order of their first visits.
  function Ids(p: Program): (ids: seq<FunId>)
    ensures |ids| <= |p|
  {
    if p == [] then []
    else
      var before, f := Ids(p[..|p| - 1]), p[|p| - 1];
      if IsKept(f) || f.id in before then before else before + [f.id]
  }

  lemma {:induction false} IdsAre(p: Program)
    ensures NoDuplicates(Ids(p))
    ensures forall id :: id in Ids(p) <==> exists i :: 0 <= i < |p| && p[i].id == id && !IsKept(p[i])
  {
    if p != [] {
      var q := p[..|p| - 1];
      IdsAre(q);
      assert p == q + [p[|p| - 1]];
      forall id
        ensures id in Ids(p) <==> exists i :: 0 <= i < |p| && p[i].id == id && !IsKept(p[i])
      {
        if id in Ids(q) {
          var i :| 0 <= i < |q| && q[i].id == id && !IsKept(q[i]);
          assert p[i] == q[i];
        }
        if i :| 0 <= i < |p| && p[i].id == id && !IsKept(p[i]) {
          assert i < |q| ==> q[i] == p[i];
        }
      }
    }
  }

  // The place of an element, or the length.
  function IndexOf(ids: seq<FunId>, id: FunId): (k: nat)
    ensures k <= |ids| && (k < |ids| ==> ids[k] == id) && (k == |ids| ==> id !in ids)
  {
    if ids == [] then 0 else if ids[0] == id then 0 else 1 + IndexOf(ids[1..], id)
  }

  function NewName(p: Program, f: Fun): string {
    if IsKept(f) then f.name else FunName(IndexOf(Ids(p), f.id) + 1)
  }

  function Renamed(p: Program): (q: Program)
    ensures |q| == |p| && forall i :: 0 <= i < |p| ==> q[i] == p[i].(name := NewName(p, p[i]))
  {
    seq(|p|, i requires 0 <= i < |p| => p[i].(name := NewName(p, p[i])))
  }

  // main, printf and kernels keep their names.
  lemma NamesKept(p: Program, i: nat)
    requires i < |p| && (p[i].name == "main" || p[i].name == "printf" || p[i].kernel)
    ensures Renamed(p)[i] == p[i]
  {
  }

  // The functions with other names that are visited before visit j.
  function VisitedBefore(p: Program, j: nat): set<FunId>
    requires j <= |p|
  {
    set k | 0 <= k < j && p[k].name != "main" && p[k].name != "printf" && !p[k].kernel :: p[k].id
  }

  // All others are called fn and the number of the first visit, visits of functions that were met before not counted.
  lemma NamesNumberedInTurn(p: Program, j: nat, i: nat)
    requires WellFormed(p) && j <= i < |p| && p[j].id == p[i].id && (forall k :: 0 <= k < j ==> p[k].id != p[i].id)
    requires p[i].name != "main" && p[i].name != "printf" && !p[i].kernel
    ensures Renamed(p)[i] == p[i].(name := "fn" + Print(|VisitedBefore(p, j)| + 1))
  {
    var id := p[i].id;
    assert p[i] in p && p[j] in p;
    assert p[..j + 1][..j] == p[..j] && p[..j + 1][j] == p[j];
    IdsAre(p[..j]);
    IdsSize(p, j);
    assert Ids(p[..j + 1]) == Ids(p[..j]) + [id];
    IdsPrefix(p, j + 1);
    var ids := Ids(p);
    assert ids[|Ids(p[..j])|] == id;
    IdsAre(p);
    UniqueIndex(ids, |Ids(p[..j])|);
  }

  lemma {:induction false} FirstVisit(p: Program, i: nat, id: FunId) returns (j: nat)
    requires i < |p| && p[i].id == id
    ensures j <= i && p[j].id == id && forall k :: 0 <= k < j ==> p[k].id != id
  {
    j := i;
    if k :| 0 <= k < i && p[k].id == id {
      j := FirstVisit(p, k, id);
    }
  }

  // What becomes of visit i.
  ghost predicate IsNewFun(p: Program, i: nat, f: Fun)
    requires i < |p|
  {
    if p[i].name == "main" || p[i].name == "printf" || p[i].kernel then f == p[i]
    else exists j :: IsFirstVisit(p, j, i) && f == p[i].(name := "fn" + Print(|VisitedBefore(p, j)| + 1))
  }

  predicate IsFirstVisit(p: Program, j: nat, i: nat)
    requires i < |p|
  {
    j <= i && p[j].id == p[i].id && forall k :: 0 <= k < j ==> p[k].id != p[i].id
  }

  lemma AllNamed(p: Program)
    requires WellFormed(p)
    ensures forall i :: 0 <= i < |p| ==> IsNewFun(p, i, Renamed(p)[i])
  {
    forall i | 0 <= i < |p|
      ensures IsNewFun(p, i, Renamed(p)[i])
    {
      if p[i].name == "main" || p[i].name == "printf" || p[i].kernel {
        NamesKept(p, i);
      } else {
        var j := FirstVisit(p, i, p[i].id);
        NamesNumberedInTurn(p, j, i);
        assert IsFirstVisit(p, j, i);
      }
    }
  }

  lemma {:induction false} IdsPrefix(p: Program, i: nat)
    requires i <= |p|
    ensures Ids(p[..i]) <= Ids(p)
    decreases |p|
  {
    if i == |p| {
      assert p[..i] == p;
    } else {
      IdsPrefix(p[..|p| - 1], i);
      assert p[..|p| - 1][..i] == p[..i];
    }
  }

  lemma IdsSize(p: Program, j: nat)
    requires j <= |p|
    ensures |Ids(p[..j])| == |VisitedBefore(p, j)|
  {
    var ids := Ids(p[..j]);
    IdsAre(p[..j]);
    DistinctSize(ids);
    forall id
      ensures id in Elements(ids) <==> id in VisitedBefore(p, j)
    {
      if id in VisitedBefore(p, j) {
        var k :| 0 <= k < j && p[k].name != "main" && p[k].name != "printf" && !p[k].kernel && p[k].id == id;
        assert p[..j][k] == p[k] && !IsKept(p[k]);
      }
      if id in ids {
        var k :| 0 <= k < |p[..j]| && p[..j][k].id == id && !IsKept(p[..j][k]);
        assert p[..j][k] == p[k];
      }
    }
    assert Elements(ids) == VisitedBefore(p, j);
  }

  // A kept function stands in the way of a new name.
  ghost predicate Clashes(p: Program) {
    exists f, n: nat :: f in p && IsKept(f) && 1 <= n <= |Ids(p)| && f.name == FunName(n)
  }

  // Different functions get the same name only if both are kept and had the same name before:
  // exactly when no kernel is called like one of the new names.
  lemma NamesDistinctIff(p: Program)
    requires WellFormed(p)
    ensures
      (forall f, g :: f in p && g in p && f.id != g.id && NewName(p, f) == NewName(p, g) ==> IsKept(f) && IsKept(g) && f.name == g.name)
      <==> !Clashes(p)
  {
    IdsAre(p);
    if Clashes(p) {
      var f, n: nat :| f in p && IsKept(f) && 1 <= n <= |Ids(p)| && f.name == FunName(n);
      var id := Ids(p)[n - 1];
      assert id in Ids(p);
      var i :| 0 <= i < |p| && p[i].id == id && !IsKept(p[i]);
      assert p[i] in p && p[i] != f && p[i].id != f.id;
      UniqueIndex(Ids(p), n - 1);
      assert NewName(p, p[i]) == NewName(p, f);
    } else {
      forall f, g | f in p && g in p && f.id != g.id && NewName(p, f) == NewName(p, g)
        ensures IsKept(f) && IsKept(g) && f.name == g.name
      {
        if !IsKept(f) {
          RenamedInIds(p, f);
        }
        if !IsKept(g) {
          RenamedInIds(p, g);
        }
        if !IsKept(f) && !IsKept(g) {
          FunNameInjective(IndexOf(Ids(p), f.id) + 1, IndexOf(Ids(p), g.id) + 1);
          assert false;
        }
      }
    }
  }

  lemma RenamedInIds(p: Program, f: Fun)
    requires f in p && !IsKept(f)
    ensures IndexOf(Ids(p), f.id) < |Ids(p)|
  {
    IdsAre(p);
    var i :| 0 <= i < |p| && p[i] == f;
  }

  lemma {:induction false} UniqueIndex(ids: seq<FunId>, k: nat)
    requires NoDuplicates(ids) && k < |ids|
    ensures IndexOf(ids, ids[k]) == k
  {
    var i := IndexOf(ids, ids[k]);
    assert ids[k] in ids;
    assert i < |ids| && ids[i] == ids[k];
  }

  // ----- The second run -----

  // The number that a visit records.
  function Recorded(f: Fun): set<nat> {
    if !IsSpecialFun(f.name) && Postfix(f.name).Some? then {Postfix(f.name).value} else {}
  }

  // AllValidNumbers after the visits.
  function Numbers(p: Program): set<nat> {
    if p == [] then {} else Numbers(p[..|p| - 1]) + Recorded(p[|p| - 1])
  }

  lemma {:induction false} NumbersAre(p: Program)
    ensures forall n :: n in Numbers(p) <==> exists f :: f in p && n in Recorded(f)
  {
    if p != [] {
      NumbersAre(p[..|p| - 1]);
      assert p == p[..|p| - 1] + [p[|p| - 1]];
    }
  }

  ghost predicate AllValid(p: Program) {
    forall f :: f in p ==> HasValidPostfix(f.name)
  }

  // hasValidFuns
  ghost predicate HasWork(p: Program) {
    !AllValid(p) || !Passes(Numbers(p))
  }

  lemma NumberIff(p: Program, n: nat)
    ensures n in Numbers(p) <==> exists f :: f in p && Postfix(f.name) == Some(n)
  {
    NumbersAre(p);
    if f :| f in p && Postfix(f.name) == Some(n) {
      assert f.name[0] == 'f';
      assert n in Recorded(f);
    }
  }

  // There is nothing to do exactly when every name is main, printf or has a number, and the numbers pass the test.
  lemma NothingToDoIff(p: Program, numbers: set<nat>)
    requires forall n: nat :: n in numbers <==> exists f :: f in p && Postfix(f.name) == Some(n)
    ensures !HasWork(p) <==>
            (forall f :: f in p ==> f.name == "main" || f.name == "printf" || exists n :: Postfix(f.name) == Some(n))
            && Passes(numbers)
  {
    forall n: nat
      ensures n in Numbers(p) <==> n in numbers
    {
      NumberIff(p, n);
    }
    assert Numbers(p) == numbers;
    forall f | f in p
      ensures HasValidPostfix(f.name) <==> f.name == "main" || f.name == "printf" || exists n :: Postfix(f.name) == Some(n)
    {
      if Postfix(f.name).Some? {
        assert Postfix(f.name) == Some(Postfix(f.name).value);
      }
    }
  }

  // The kernels that are not special.
  ghost predicate IsKernel(p: Program, f: Fun) {
    f in p && f.kernel && !IsSpecialFun(f.name)
  }

  // The numbers in the names of the kernels.
  function KernelNumbers(p: Program): set<nat> {
    set f | f in p && f.kernel && !IsSpecialFun(f.name) && Postfix(f.name).Some? :: Postfix(f.name).value
  }

  lemma RenamedMembers(p: Program, g: Fun)
    ensures g in Renamed(p) <==> exists f :: f in p && g == f.(name := NewName(p, f))
  {
    if g in Renamed(p) {
      var i :| 0 <= i < |p| && Renamed(p)[i] == g;
      assert p[i] in p;
    }
    if f :| f in p && g == f.(name := NewName(p, f)) {
      var i :| 0 <= i < |p| && p[i] == f;
      assert Renamed(p)[i] == g;
    }
  }

  // After a run, the numbers in the names are 1 to the number of renamed functions, and those of the kernels.
  lemma RenamedNumbers(p: Program)
    requires |p| < UNSIGNED_LIMIT && WellFormed(p)
    ensures Numbers(Renamed(p)) == UpTo(|Ids(p)|) + KernelNumbers(p)
  {
    var q, k := Renamed(p), |Ids(p)|;
    NumbersAre(q);
    forall n: nat
      ensures n in Numbers(q) <==> n in UpTo(k) || n in KernelNumbers(p)
    {
      if n in Numbers(q) {
        var g :| g in q && n in Recorded(g);
        RenamedMembers(p, g);
        var f :| f in p && g == f.(name := NewName(p, f));
        RecordedAfter(p, f);
      }
      if n in UpTo(k) {
        NumberUsed(p, n);
      }
      if n in KernelNumbers(p) {
        var f :| f in p && f.kernel && !IsSpecialFun(f.name) && Postfix(f.name) == Some(n);
        RenamedMembers(p, f);
        assert f == f.(name := NewName(p, f)) && n in Recorded(f);
      }
    }
  }

  lemma RecordedAfter(p: Program, f: Fun)
    requires |p| < UNSIGNED_LIMIT && f in p
    ensures Recorded(f.(name := NewName(p, f))) <= UpTo(|Ids(p)|) + KernelNumbers(p)
  {
    if !IsKept(f) {
      RenamedInIds(p, f);
      FunNamePostfix(IndexOf(Ids(p), f.id) + 1);
    }
  }

  lemma NumberUsed(p: Program, n: nat)
    requires |p| < UNSIGNED_LIMIT && 1 <= n <= |Ids(p)|
    ensures exists g :: g in Renamed(p) && n in Recorded(g)
  {
    IdsAre(p);
    var id := Ids(p)[n - 1];
    assert id in Ids(p);
    var i :| 0 <= i < |p| && p[i].id == id && !IsKept(p[i]);
    UniqueIndex(Ids(p), n - 1);
    FunNamePostfix(n);
    var g := Renamed(p)[i];
    assert g in Renamed(p) && g.name == FunName(n);
  }

  // A second run finds nothing to do exactly when every kernel has a name of the form fnN and these
  // numbers together with those of the renamed functions pass the test.
  lemma SecondRunIff(p: Program)
    requires |p| < UNSIGNED_LIMIT && WellFormed(p)
    ensures !HasWork(Renamed(p)) <==>
            (forall f :: IsKernel(p, f) ==> Postfix(f.name).Some?) && Passes(UpTo(|Ids(p)|) + KernelNumbers(p))
  {
    RenamedNumbers(p);
    assert AllValid(Renamed(p)) <==> (forall f :: IsKernel(p, f) ==> Postfix(f.name).Some?) by {
      if AllValid(Renamed(p)) {
        forall f | IsKernel(p, f)
          ensures Postfix(f.name).Some?
        {
          RenamedMembers(p, f);
          assert f == f.(name := NewName(p, f));
        }
      }
      if forall f :: IsKernel(p, f) ==> Postfix(f.name).Some? {
        forall g | g in Renamed(p)
          ensures HasValidPostfix(g.name)
        {
          RenamedMembers(p, g);
          var f :| f in p && g == f.(name := NewName(p, f));
          if IsKept(f) {
            assert IsSpecialFun(f.name) || IsKernel(p, f);
          } else {
            RenamedInIds(p, f);
            FunNamePostfix(IndexOf(Ids(p), f.id) + 1);
          }
        }
      }
    }
  }

  // Without kernels the first run is the last.
  lemma FixpointWithoutKernels(p: Program)
    requires |p| < UNSIGNED_LIMIT && WellFormed(p) && forall f :: f in p ==> !f.kernel
    ensures !HasWork(Renamed(p))
  {
    var k := |Ids(p)|;
    SecondRunIff(p);
    assert KernelNumbers(p) == {} && UpTo(k) + {} == UpTo(k);
    assert IsInitial(UpTo(k), k);
    PassesIff(UpTo(k));
  }

  // Renaming twice is renaming once.
  lemma RenamedTwice(p: Program)
    ensures Renamed(Renamed(p)) == Renamed(p)
  {
    RenamedIds(p);
    forall i | 0 <= i < |p|
      ensures Renamed(Renamed(p))[i] == Renamed(p)[i]
    {
      assert p[i] in p;
      RenamedKept(p, p[i]);
    }
  }

  lemma RenamedKept(p: Program, f: Fun)
    requires f in p
    ensures IsKept(f.(name := NewName(p, f))) <==> IsKept(f)
  {
    if !IsKept(f) {
      FunNamePostfix(IndexOf(Ids(p), f.id) + 1);
    }
  }

  // Renaming changes neither which functions are renamed nor their order.
  lemma RenamedIds(p: Program)
    ensures Ids(Renamed(p)) == Ids(p)
  {
    IdsOfRenamed(p, |p|);
    assert p[..|p|] == p && Renamed(p)[..|p|] == Renamed(p);
  }

  lemma {:induction false} IdsOfRenamed(p: Program, i: nat)
    requires i <= |p|
    ensures Ids(Renamed(p)[..i]) == Ids(p[..i])
  {
    if i > 0 {
      IdsOfRenamed(p, i - 1);
      assert Renamed(p)[..i][..i - 1] == Renamed(p)[..i - 1] && p[..i][..i - 1] == p[..i - 1];
      assert p[i - 1] in p;
      RenamedKept(p, p[i - 1]);
    }
  }

  // ----- The pass -----

  class RenameFun {
    var funToNameMap: map<FunId, string>
    var allValidNumbers: set<nat>
    var funNamePostfix: nat
    var hasValidFuns: bool

    // The state after the visits p.
    ghost predicate Collected(p: Program)
      reads this
    {
      && funToNameMap == Names(p) && funNamePostfix == |Ids(p)|
      && allValidNumbers == Numbers(p) && hasValidFuns == !AllValid(p)
    }

    constructor ()
      ensures Collected([])
    {
      funToNameMap, allValidNumbers, funNamePostfix, hasValidFuns := map[], {}, 0, false;
    }

    method HasValidPostfixOf(name: string) returns (valid: bool)
      modifies this`allValidNumbers
      ensures valid == HasValidPostfix(name)
      ensures allValidNumbers == old(allValidNumbers) + Recorded(Fun(0, name, false))
    {
      if IsSpecialFun(name) {
        return true;
      }
      var postfix := Postfix(name);
      if postfix.None? {
        return false;
      }
      allValidNumbers := allValidNumbers + {postfix.value};
      return true;
    }

    method AddFun(f: Fun)
      requires funNamePostfix + 1 < UNSIGNED_LIMIT
      modifies this`funToNameMap, this`funNamePostfix
      ensures funToNameMap == if IsKept(f) then old(funToNameMap)[f.id := f.name]
                              else if f.id in old(funToNameMap) then old(funToNameMap)
                              else old(funToNameMap)[f.id := FunName(funNamePostfix)]
      ensures funNamePostfix == old(funNamePostfix) + if IsKept(f) || f.id in old(funToNameMap) then 0 else 1
    {
      if IsSpecialFun(f.name) || f.kernel {
        funToNameMap := funToNameMap[f.id := f.name];
      }
      if f.id in funToNameMap {
        return;
      }
      funNamePostfix := (funNamePostfix + 1) % UNSIGNED_LIMIT;
      funToNameMap := funToNameMap[f.id := FunName(funNamePostfix)];
    }

    // One visit of the collecting visitor.
    method VisitFunctionDecl(f: Fun, ghost p: Program)
      requires Collected(p) && WellFormed(p + [f]) && |p| + 1 < UNSIGNED_LIMIT
      modifies this
      ensures Collected(p + [f])
    {
      ghost var q := p + [f];
      assert q[..|p|] == p && q[|p|] == f;
      NamesNumbered(p, f);
      AddFun(f);
      var valid := HasValidPostfixOf(f.name);
      if !valid {
        hasValidFuns := true;
      }
      assert f in q && forall g :: g in q <==> g in p || g == f;
    }

    // isConsecutiveNumbersFromOne; std::max_element is the loop.
    method IsConsecutiveNumbersFromOne() returns (consecutive: bool)
      ensures consecutive == Passes(allValidNumbers)
    {
      var sz := |allValidNumbers|;
      if sz == 0 {
        return true;
      }
      var hasOne := 1 in allValidNumbers;
      if !hasOne {
        return false;
      }
      if sz == 1 {
        assert |allValidNumbers - {1}| == 0;
        return hasOne;
      }
      var largest, rest := 1, allValidNumbers;
      while rest != {}
        invariant rest <= allValidNumbers && largest in allValidNumbers
        invariant forall x :: x in allValidNumbers - rest ==> x <= largest
        decreases |rest|
      {
        var x :| x in rest;
        if largest < x {
          largest := x;
        }
        assert forall y :: y in allValidNumbers - (rest - {x}) ==> y == x || y in allValidNumbers - rest;
        rest := rest - {x};
      }
      assert allValidNumbers - {} == allValidNumbers;
      assert IsLargest(allValidNumbers, largest);
      return largest == sz;
    }

    // A whole run: None when nothing is to be done.
    method HandleTranslationUnit(p: Program) returns (r: Option<Program>)
      requires Collected([]) && WellFormed(p) && |p| < UNSIGNED_LIMIT
      modifies this
      ensures r.Some? <==> HasWork(p)
      ensures r.Some? ==> r.value == Renamed(p)
      // main, printf and kernels keep their names; the others are numbered by their first visits.
      ensures r.Some? ==> |r.value| == |p| && forall i :: 0 <= i < |p| ==> IsNewFun(p, i, r.value[i])
    {
      Collect(p);
      var consecutive := IsConsecutiveNumbersFromOne();
      if !(hasValidFuns || !consecutive) {
        return None;
      }
      var q := RenameAll(p);
      AllNamed(p);
      return Some(q);
    }

    method Collect(p: Program)
      requires Collected([]) && WellFormed(p) && |p| < UNSIGNED_LIMIT
      modifies this
      ensures Collected(p)
    {
      ghost var done := [];
      for i := 0 to |p|
        invariant done == p[..i] && Collected(done)
      {
        assert p[..i + 1] == done + [p[i]];
        WellFormedPrefix(p, i + 1);
        VisitFunctionDecl(p[i], done);
        done := done + [p[i]];
      }
      assert done == p;
    }

    // The renaming visitor looks every function up in the map.
    method RenameAll(p: Program) returns (q: Program)
      requires WellFormed(p) && funToNameMap == Names(p)
      ensures q == Renamed(p)
    {
      q := [];
      NamesAre(p);
      for i := 0 to |p|
        invariant |q| == i && q == Renamed(p)[..i]
      {
        assert p[i].id in Names(p) && Names(p)[p[i].id] == NewName(p, p[i]);
        q := q + [p[i].(name := funToNameMap[p[i].id])];
        assert q[i] == Renamed(p)[i];
      }
    }
  }

  // FunToNameMap after the visits.
  function Names(p: Program): map<FunId, string> {
    if p == [] then map[]
    else
      var before, f := Names(p[..|p| - 1]), p[|p| - 1];
      if IsKept(f) then before[f.id := f.name]
      else if f.id in before then before
      else before[f.id := FunName(|Ids(p[..|p| - 1])| + 1)]
  }

  lemma {:induction false} NamesDomain(p: Program)
    ensures forall id :: id in Names(p) <==> exists i :: 0 <= i < |p| && p[i].id == id
  {
    if p != [] {
      var q := p[..|p| - 1];
      NamesDomain(q);
      assert p == q + [p[|p| - 1]];
      forall id
        ensures id in Names(p) <==> exists i :: 0 <= i < |p| && p[i].id == id
      {
        if id in Names(q) {
          var i :| 0 <= i < |q| && q[i].id == id;
          assert p[i].id == id;
        }
        if i :| 0 <= i < |p| && p[i].id == id {
          assert i < |q| ==> q[i].id == id;
        }
      }
    }
  }

  // A function to rename is in the map exactly when it has a number.
  lemma NamesNumbered(p: Program, f: Fun)
    requires WellFormed(p + [f])
    ensures !IsKept(f) ==> (f.id in Names(p) <==> f.id in Ids(p))
  {
    NamesDomain(p);
    IdsAre(p);
    var q := p + [f];
    assert forall g :: g in p ==> g in q;
    assert f in q;
    forall i | 0 <= i < |p| && p[i].id == f.id
      ensures p[i] == f
    {
      assert p[i] in p;
    }
  }

  lemma {:induction false} NamesAre(p: Program)
    requires WellFormed(p)
    ensures forall i :: 0 <= i < |p| ==> p[i].id in Names(p) && Names(p)[p[i].id] == NewName(p, p[i])
  {
    if p != [] {
      var q, f := p[..|p| - 1], p[|p| - 1];
      assert p == q + [f];
      WellFormedPrefix(p, |q|);
      NamesAre(q);
      NamesNumbered(q, f);
      forall i | 0 <= i < |p|
        ensures p[i].id in Names(p) && Names(p)[p[i].id] == NewName(p, p[i])
      {
        NameAt(q, f, i);
      }
    }
  }

  lemma NameAt(q: Program, f: Fun, i: nat)
    requires WellFormed(q + [f]) && i <= |q|
    requires forall k :: 0 <= k < |q| ==> q[k].id in Names(q) && Names(q)[q[k].id] == NewName(q, q[k])
    requires !IsKept(f) ==> (f.id in Names(q) <==> f.id in Ids(q))
    ensures
      var p := q + [f];
      p[i].id in Names(p) && Names(p)[p[i].id] == NewName(p, p[i])
  {
    var p := q + [f];
    assert p[..|q|] == q && p[|q|] == f && (i < |q| ==> p[i] == q[i]);
    if p[i].id != f.id {
      OtherName(q, f, q[i]);
    } else {
      assert p[i] == f;
      if !IsKept(f) && f.id in Names(q) {
        NamesDomain(q);
        var k :| 0 <= k < |q| && q[k].id == f.id;
        assert p[k] == q[k] && p[k] in p && f in p;
      }
      OwnName(q, f);
    }
  }

  lemma OtherName(q: Program, f: Fun, g: Fun)
    requires g in q && g.id != f.id && g.id in Names(q) && Names(q)[g.id] == NewName(q, g)
    ensures
      var p := q + [f];
      g.id in Names(p) && Names(p)[g.id] == NewName(p, g)
  {
    var p := q + [f];
    assert p[..|q|] == q && p[|q|] == f;
    if !IsKept(g) {
      RenamedInIds(q, g);
      IndexOfAppend(Ids(q), f.id, g.id);
    }
  }

  lemma OwnName(q: Program, f: Fun)
    requires !IsKept(f) ==> (f.id in Names(q) <==> f.id in Ids(q))
    requires !IsKept(f) && f.id in Names(q) ==> Names(q)[f.id] == NewName(q, f)
    ensures
      var p := q + [f];
      f.id in Names(p) && Names(p)[f.id] == NewName(p, f)
  {
    var p := q + [f];
    assert p[..|q|] == q && p[|q|] == f;
    IndexOfAppend(Ids(q), f.id, f.id);
    assert Ids(p) == if IsKept(f) || f.id in Ids(q) then Ids(q) else Ids(q) + [f.id];
  }

  lemma {:induction false} IndexOfAppend(ids: seq<FunId>, x: FunId, id: FunId)
    ensures id in ids ==> IndexOf(ids + [x], id) == IndexOf(ids, id)
    ensures id == x && id !in ids ==> IndexOf(ids + [x], id) == |ids|
  {
    if ids != [] {
      assert (ids + [x])[1..] == ids[1..] + [x];
      IndexOfAppend(ids[1..], x, id);
    }
  }
}
