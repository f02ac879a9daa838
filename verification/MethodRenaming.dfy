/**
 What renaming the methods of a class table preserves, for any assignment of names in
 which an overriding method takes the name of the first method it overrides and
 methods that override nothing have names of their own
 (clang_delta/RenameCXXMethod.cpp:435-528).
 */
module MethodRenaming {
  import opened Collections
  import opened Wrappers
  import opened ClassTable

  type Names = map<MethodId, string>

  ghost predicate GoodNaming(t: Table, names: Names) {
    && (forall m :: m in names <==> IsMethod(t, m) && SigOf(t, m).Ordinary?)
    && InheritsNames(t, names)
    && RootsDistinct(t, names)
  }

  ghost predicate InheritsNames(t: Table, names: Names)
    requires forall m :: m in names ==> IsMethod(t, m)
  {
    forall m, o {:trigger OverridesFirst(t, m, o)} :: m in names && OverridesFirst(t, m, o) ==>
      o in names && names[m] == names[o]
  }

  // The method whose name m takes.
  predicate OverridesFirst(t: Table, m: MethodId, o: MethodId)
    requires IsMethod(t, m)
  {
    Overridden(t, m) != [] && Overridden(t, m)[0] == o
  }

  ghost predicate RootsDistinct(t: Table, names: Names)
    requires forall m :: m in names ==> IsMethod(t, m)
  {
    forall a, b {:trigger IsRoot(t, a), IsRoot(t, b)} ::
      a in names && b in names && IsRoot(t, a) && IsRoot(t, b) && names[a] == names[b] ==> a == b
  }

  predicate IsRoot(t: Table, m: MethodId)
    requires IsMethod(t, m)
  {
    Overridden(t, m) == []
  }

  function NewSig(t: Table, names: Names, m: MethodId): Sig
    requires IsMethod(t, m)
    requires SigOf(t, m).Ordinary? ==> m in names
  {
    match SigOf(t, m)
    case Ordinary(_, params) => Ordinary(names[m], params)
    case Special(_) => SigOf(t, m)
  }

  // The table after every declaration has been rewritten.
  function RenamedClasses(t: Table, names: Names): (r: seq<Class>)
    requires forall m :: IsMethod(t, m) && SigOf(t, m).Ordinary? ==> m in names
    ensures |r| == |t|
    ensures forall c :: 0 <= c < |t| ==> r[c].bases == t[c].bases && |r[c].methods| == |t[c].methods|
    ensures forall c, i :: 0 <= c < |t| && 0 <= i < |t[c].methods| ==>
      r[c].methods[i] == Method(NewSig(t, names, MethodId(c, i)), t[c].methods[i].declaredVirtual)
  {
    seq(|t|, c requires 0 <= c < |t| =>
      Class(t[c].bases, seq(|t[c].methods|, i requires 0 <= i < |t[c].methods| =>
        Method(NewSig(t, names, MethodId(c, i)), t[c].methods[i].declaredVirtual))))
  }

  // ----- Equal names are equal override roots -----

  lemma {:induction false} NameOfRoot(t: Table, names: Names, m: MethodId)
    requires GoodNaming(t, names) && m in names
    ensures Root(t, m) in names && names[m] == names[Root(t, m)]
    decreases m.cls
  {
    var os := Overridden(t, m);
    if os != [] {
      assert os[0] in os && OverridesFirst(t, m, os[0]);
      NameOfRoot(t, names, os[0]);
    }
  }

  lemma SameNameIffSameRoot(t: Table, names: Names, a: MethodId, b: MethodId)
    requires GoodNaming(t, names) && a in names && b in names
    ensures names[a] == names[b] <==> Root(t, a) == Root(t, b)
  {
    NameOfRoot(t, names, a);
    NameOfRoot(t, names, b);
    assert IsRoot(t, Root(t, a)) && IsRoot(t, Root(t, b));
  }

  lemma NewSigEqual(t: Table, names: Names, a: MethodId, b: MethodId)
    requires GoodNaming(t, names) && IsMethod(t, a) && IsMethod(t, b)
    requires NewSig(t, names, a) == NewSig(t, names, b)
    ensures SigOf(t, a) == SigOf(t, b)
    ensures SigOf(t, a).Ordinary? ==> Root(t, a) == Root(t, b)
  {
    if SigOf(t, a).Ordinary? {
      SameNameIffSameRoot(t, names, a, b);
    }
  }

  // The renamed table is well formed: no class declares a signature twice.
  lemma RenamedWellFormed(t: Table, names: Names)
    requires GoodNaming(t, names)
    ensures WellFormed(RenamedClasses(t, names))
  {
    var r := RenamedClasses(t, names);
    forall c | 0 <= c < |r|
      ensures DistinctSigs(r[c].methods)
    {
      assert DistinctSigs(t[c].methods);
      forall i, j | 0 <= i < j < |r[c].methods|
        ensures r[c].methods[i].sig != r[c].methods[j].sig
      {
        if NewSig(t, names, MethodId(c, i)) == NewSig(t, names, MethodId(c, j)) {
          NewSigEqual(t, names, MethodId(c, i), MethodId(c, j));
          assert false;
        }
      }
    }
  }

  ghost function Renamed(t: Table, names: Names): (r: Table)
    requires GoodNaming(t, names)
  {
    RenamedWellFormed(t, names);
    RenamedClasses(t, names)
  }

  // ----- Overriding -----

  // No method overrides methods that stem from two different roots. This is the situation
  // the source says it does not handle (clang_delta/RenameCXXMethod.cpp:351-364).
  ghost predicate OneRootEach(t: Table) {
    forall m, o :: IsMethod(t, m) && SigOf(t, m).Ordinary? && o in Overridden(t, m) ==> Root(t, o) == Root(t, m)
  }

  predicate StemsFrom(t: Table, o: MethodId, r: MethodId) {
    IsMethod(t, o) && Root(t, o) == r
  }

  // The methods among ms that stem from root r.
  function WithRoot(t: Table, ms: seq<MethodId>, r: MethodId): seq<MethodId> {
    if ms == [] then [] else OnlyIf(StemsFrom(t, ms[0], r), ms[0]) + WithRoot(t, ms[1..], r)
  }

  function OnlyIf(b: bool, m: MethodId): seq<MethodId> {
    if b then [m] else []
  }

  lemma {:induction false} WithRootConcat(t: Table, a: seq<MethodId>, b: seq<MethodId>, r: MethodId)
    ensures WithRoot(t, a + b, r) == WithRoot(t, a, r) + WithRoot(t, b, r)
  {
    if a == [] {
      assert a + b == b;
    } else {
      assert (a + b)[0] == a[0] && (a + b)[1..] == a[1..] + b;
      WithRootConcat(t, a[1..], b, r);
      Associate(OnlyIf(StemsFrom(t, a[0], r), a[0]), WithRoot(t, a[1..], r), WithRoot(t, b, r));
    }
  }

  lemma {:induction false} WithSameRoot(t: Table, ms: seq<MethodId>, own: MethodId, r: MethodId)
    requires forall o :: o in ms ==> StemsFrom(t, o, own)
    ensures WithRoot(t, ms, r) == if own == r then ms else []
  {
    if ms != [] {
      assert StemsFrom(t, ms[0], own) && forall o :: o in ms[1..] ==> o in ms;
      WithSameRoot(t, ms[1..], own, r);
      assert ms == [ms[0]] + ms[1..];
    }
  }

  // The index of m's new signature in class c of the renamed table.
  lemma NewIndex(t: Table, names: Names, c: nat, m: MethodId)
    requires GoodNaming(t, names) && c < |t| && IsMethod(t, m) && SigOf(t, m).Ordinary?
    ensures IndexOf(Renamed(t, names)[c].methods, NewSig(t, names, m)) ==
            match IndexOf(t[c].methods, SigOf(t, m))
            case Some(k) => if Root(t, MethodId(c, k)) == Root(t, m) then Some(k) else None
            case None => None
  {
    var t' := Renamed(t, names);
    var s' := NewSig(t, names, m);
    match IndexOf(t'[c].methods, s') {
      case Some(k') =>
        var x := MethodId(c, k');
        assert NewSig(t, names, x) == s';
        NewSigEqual(t, names, x, m);
        IndexOfMethod(t, x);
      case None =>
        match IndexOf(t[c].methods, SigOf(t, m)) {
          case Some(k) =>
            var x := MethodId(c, k);
            assert t'[c].methods[k].sig == NewSig(t, names, x);
            SameNameIffSameRoot(t, names, x, m);
          case None =>
        }
    }
  }

  // Searching the renamed table for m's new signature finds what searching the old table
  // for the old signature found, less the methods of other roots.
  lemma {:induction false} FindRenamed(t: Table, names: Names, c: nat, m: MethodId)
    requires GoodNaming(t, names) && OneRootEach(t)
    requires c < |t| && IsMethod(t, m) && SigOf(t, m).Ordinary?
    ensures FindVirtual(Renamed(t, names), c, NewSig(t, names, m)) ==
            WithRoot(t, FindVirtual(t, c, SigOf(t, m)), Root(t, m))
    decreases c, |t[c].bases| + 1
  {
    OverriddenRenamed(t, names, c, 0, m);
    NewIndex(t, names, c, m);
    var above := OverriddenFrom(t, c, 0, SigOf(t, m));
    match IndexOf(t[c].methods, SigOf(t, m)) {
      case Some(k) =>
        FindRenamedAt(t, names, c, k, m, above);
      case None =>
    }
  }

  lemma FindRenamedAt(t: Table, names: Names, c: nat, k: nat, m: MethodId, above: seq<MethodId>)
    requires GoodNaming(t, names) && OneRootEach(t)
    requires c < |t| && IsMethod(t, m) && SigOf(t, m).Ordinary?
    requires IndexOf(t[c].methods, SigOf(t, m)) == Some(k)
    requires IndexOf(Renamed(t, names)[c].methods, NewSig(t, names, m)) ==
             if Root(t, MethodId(c, k)) == Root(t, m) then Some(k) else None
    requires above == OverriddenFrom(t, c, 0, SigOf(t, m))
    requires OverriddenFrom(Renamed(t, names), c, 0, NewSig(t, names, m)) == WithRoot(t, above, Root(t, m))
    ensures FindVirtual(Renamed(t, names), c, NewSig(t, names, m)) ==
            WithRoot(t, FindVirtual(t, c, SigOf(t, m)), Root(t, m))
  {
    var x := MethodId(c, k);
    assert Overridden(t, x) == above;
    WithSameRoot(t, above, Root(t, x), Root(t, m));
    if IsVirtual(t, x) {
      assert FindVirtual(t, c, SigOf(t, m)) == [x];
      WithSameRoot(t, [x], Root(t, x), Root(t, m));
    }
  }

  lemma {:induction false} OverriddenRenamed(t: Table, names: Names, c: nat, j: nat, m: MethodId)
    requires GoodNaming(t, names) && OneRootEach(t)
    requires c < |t| && j <= |t[c].bases| && IsMethod(t, m) && SigOf(t, m).Ordinary?
    ensures OverriddenFrom(Renamed(t, names), c, j, NewSig(t, names, m)) ==
            WithRoot(t, OverriddenFrom(t, c, j, SigOf(t, m)), Root(t, m))
    decreases c, |t[c].bases| - j
  {
    if j < |t[c].bases| {
      var b := t[c].bases[j];
      assert b in t[c].bases;
      FindRenamed(t, names, b, m);
      OverriddenRenamed(t, names, c, j + 1, m);
      WithRootConcat(t, FindVirtual(t, b, SigOf(t, m)), OverriddenFrom(t, c, j + 1, SigOf(t, m)), Root(t, m));
    }
  }

  // Special methods keep their signatures, so what they override is untouched.
  lemma {:induction false} FindSpecial(t: Table, names: Names, c: nat, s: Sig)
    requires GoodNaming(t, names) && c < |t| && s.Special?
    ensures FindVirtual(Renamed(t, names), c, s) == FindVirtual(t, c, s)
    decreases c, |t[c].bases| + 1
  {
    OverriddenSpecial(t, names, c, 0, s);
    SpecialIndex(t, names, c, s);
  }

  lemma SpecialIndex(t: Table, names: Names, c: nat, s: Sig)
    requires GoodNaming(t, names) && c < |t| && s.Special?
    ensures IndexOf(Renamed(t, names)[c].methods, s) == IndexOf(t[c].methods, s)
  {
    var t' := Renamed(t, names);
    assert forall i :: 0 <= i < |t[c].methods| ==> t'[c].methods[i].sig == NewSig(t, names, MethodId(c, i));
    match IndexOf(t[c].methods, s) {
      case Some(k) => IndexOfMethod(t', MethodId(c, k));
      case None =>
    }
  }

  lemma {:induction false} OverriddenSpecial(t: Table, names: Names, c: nat, j: nat, s: Sig)
    requires GoodNaming(t, names) && c < |t| && j <= |t[c].bases| && s.Special?
    ensures OverriddenFrom(Renamed(t, names), c, j, s) == OverriddenFrom(t, c, j, s)
    decreases c, |t[c].bases| - j
  {
    if j < |t[c].bases| {
      assert t[c].bases[j] in t[c].bases;
      FindSpecial(t, names, t[c].bases[j], s);
      OverriddenSpecial(t, names, c, j + 1, s);
    }
  }

  lemma OverriddenKept(t: Table, names: Names, m: MethodId)
    requires GoodNaming(t, names) && OneRootEach(t) && IsMethod(t, m)
    ensures Overridden(Renamed(t, names), m) == Overridden(t, m)
    ensures IsVirtual(Renamed(t, names), m) == IsVirtual(t, m)
  {
    if SigOf(t, m).Ordinary? {
      OverriddenRenamed(t, names, m.cls, 0, m);
      WithSameRoot(t, Overridden(t, m), Root(t, m), Root(t, m));
    } else {
      OverriddenSpecial(t, names, m.cls, 0, SigOf(t, m));
    }
  }

  // Every method overrides after the renaming exactly what it overrode before
  // if and only if no method overrides methods of two roots.
  lemma OverridesPreservedIff(t: Table, names: Names)
    requires GoodNaming(t, names)
    ensures (forall m :: IsMethod(t, m) ==> Overridden(Renamed(t, names), m) == Overridden(t, m))
        <==> OneRootEach(t)
  {
    var t' := Renamed(t, names);
    if OneRootEach(t) {
      forall m | IsMethod(t, m)
        ensures Overridden(t', m) == Overridden(t, m)
      {
        OverriddenKept(t, names, m);
      }
    }
    if forall m :: IsMethod(t, m) ==> Overridden(t', m) == Overridden(t, m) {
      forall m, o | IsMethod(t, m) && SigOf(t, m).Ordinary? && o in Overridden(t, m)
        ensures Root(t, o) == Root(t, m)
      {
        KeptHasRoot(t, names, m, o);
      }
    }
  }

  lemma KeptHasRoot(t: Table, names: Names, m: MethodId, o: MethodId)
    requires GoodNaming(t, names) && IsMethod(t, m) && SigOf(t, m).Ordinary?
    requires Overridden(Renamed(t, names), m) == Overridden(t, m) && o in Overridden(t, m)
    ensures Root(t, o) == Root(t, m)
  {
    var t' := Renamed(t, names);
    assert o in Overridden(t', m);
    assert NewSig(t, names, o) == SigOf(t', o) == SigOf(t', m) == NewSig(t, names, m);
    NewSigEqual(t, names, o, m);
  }

  // ----- Dispatch -----

  // Virtual dispatch picks the same body, for every method m and every path that leads
  // from a dynamic class to the class declaring m.
  ghost predicate DispatchPreserved(t: Table, names: Names)
    requires GoodNaming(t, names)
  {
    forall m, p :: IsMethod(t, m) && SigOf(t, m).Ordinary? && IsVirtual(t, m) && IsPath(t, p) && p[|p| - 1] == m.cls ==>
      Dispatch(Renamed(t, names), p, NewSig(t, names, m)) == Dispatch(t, p, SigOf(t, m))
  }

  // From every class on a path to m, the search for m's signature meets m's root.
  lemma {:induction false} PathMeetsRoot(t: Table, p: seq<nat>, m: MethodId) returns (o: MethodId)
    requires OneRootEach(t) && IsMethod(t, m) && SigOf(t, m).Ordinary? && IsVirtual(t, m)
    requires IsPath(t, p) && p[|p| - 1] == m.cls
    ensures o in FindVirtual(t, p[0], SigOf(t, m)) && Root(t, o) == Root(t, m)
    decreases |p|
  {
    if |p| == 1 {
      IndexOfMethod(t, m);
      o := m;
    } else {
      var q := p[1..];
      o := PathMeetsRoot(t, q, m);
      var j :| 0 <= j < |t[p[0]].bases| && t[p[0]].bases[j] == p[1];
      BaseIsSearched(t, p[0], 0, j, SigOf(t, m), o);
      match IndexOf(t[p[0]].methods, SigOf(t, m)) {
        case Some(k) =>
          assert o in Overridden(t, MethodId(p[0], k));
          o := MethodId(p[0], k);
        case None =>
      }
    }
  }

  lemma {:induction false} BaseIsSearched(t: Table, c: nat, from: nat, j: nat, s: Sig, o: MethodId)
    requires c < |t| && from <= j < |t[c].bases|
    requires t[c].bases[j] in t[c].bases && o in FindVirtual(t, t[c].bases[j], s)
    ensures o in OverriddenFrom(t, c, from, s)
    decreases j - from
  {
    assert t[c].bases[from] in t[c].bases;
    if from < j {
      BaseIsSearched(t, c, from + 1, j, s, o);
    }
  }

  lemma FoundHere(t: Table, c: nat, k: nat, o: MethodId)
    requires IsMethod(t, MethodId(c, k)) && o in FindVirtual(t, c, SigOf(t, MethodId(c, k)))
    ensures IsVirtual(t, MethodId(c, k))
  {
    IndexOfMethod(t, MethodId(c, k));
  }

  lemma {:induction false} DispatchKept(t: Table, names: Names, p: seq<nat>, m: MethodId)
    requires GoodNaming(t, names) && OneRootEach(t)
    requires IsMethod(t, m) && SigOf(t, m).Ordinary? && IsVirtual(t, m)
    requires IsPath(t, p) && p[|p| - 1] == m.cls
    ensures Dispatch(Renamed(t, names), p, NewSig(t, names, m)) == Dispatch(t, p, SigOf(t, m))
    decreases |p|
  {
    NewIndex(t, names, p[0], m);
    match IndexOf(t[p[0]].methods, SigOf(t, m)) {
      case Some(k) =>
        HereIsVirtual(t, p, m, k);
        OverriddenKept(t, names, MethodId(p[0], k));
      case None =>
        if |p| == 1 {
          IndexOfMethod(t, m);
          assert false;
        }
        DispatchKept(t, names, p[1..], m);
    }
  }

  // A class on a path to m that declares m's signature declares it virtual, with m's root.
  lemma HereIsVirtual(t: Table, p: seq<nat>, m: MethodId, k: nat)
    requires OneRootEach(t) && IsMethod(t, m) && SigOf(t, m).Ordinary? && IsVirtual(t, m)
    requires IsPath(t, p) && p[|p| - 1] == m.cls && IndexOf(t[p[0]].methods, SigOf(t, m)) == Some(k)
    ensures IsVirtual(t, MethodId(p[0], k)) && Root(t, MethodId(p[0], k)) == Root(t, m)
  {
    var o := PathMeetsRoot(t, p, m);
    FoundHere(t, p[0], k, o);
    assert o == MethodId(p[0], k);
  }

  // A method found from class c lies on a path from c that has no other virtual method of its signature.
  lemma {:induction false} PathTo(t: Table, c: nat, s: Sig, o: MethodId) returns (p: seq<nat>)
    requires c < |t| && o in FindVirtual(t, c, s)
    ensures IsPath(t, p) && p[0] == c && p[|p| - 1] == o.cls
    decreases c, |t[c].bases| + 1
  {
    if o.cls == c {
      p := [c];
    } else {
      assert o in OverriddenFrom(t, c, 0, s);
      p := PathAbove(t, c, 0, s, o);
    }
  }

  lemma {:induction false} PathAbove(t: Table, c: nat, j: nat, s: Sig, o: MethodId) returns (p: seq<nat>)
    requires c < |t| && j <= |t[c].bases| && o in OverriddenFrom(t, c, j, s)
    ensures IsPath(t, p) && |p| > 1 && p[0] == c && p[|p| - 1] == o.cls
    decreases c, |t[c].bases| - j
  {
    var b := t[c].bases[j];
    assert b in t[c].bases;
    if o in FindVirtual(t, b, s) {
      var q := PathTo(t, b, s, o);
      p := [c] + q;
    } else {
      p := PathAbove(t, c, j + 1, s, o);
    }
  }

  // Renaming preserves dynamic dispatch if and only if no method overrides methods of two roots.
  lemma DispatchPreservedIff(t: Table, names: Names)
    requires GoodNaming(t, names)
    ensures DispatchPreserved(t, names) <==> OneRootEach(t)
  {
    if OneRootEach(t) {
      forall m, p | IsMethod(t, m) && SigOf(t, m).Ordinary? && IsVirtual(t, m) && IsPath(t, p) && p[|p| - 1] == m.cls
        ensures Dispatch(Renamed(t, names), p, NewSig(t, names, m)) == Dispatch(t, p, SigOf(t, m))
      {
        DispatchKept(t, names, p, m);
      }
    }
    if DispatchPreserved(t, names) {
      forall m, o | IsMethod(t, m) && SigOf(t, m).Ordinary? && o in Overridden(t, m)
        ensures Root(t, o) == Root(t, m)
      {
        OverriderHasRoot(t, names, m, o);
      }
    }
  }

  // A call through the class of an overridden method reaches the overriding one, so they share their name.
  lemma OverriderHasRoot(t: Table, names: Names, m: MethodId, o: MethodId)
    requires GoodNaming(t, names) && DispatchPreserved(t, names)
    requires IsMethod(t, m) && SigOf(t, m).Ordinary? && o in Overridden(t, m)
    ensures Root(t, o) == Root(t, m)
  {
    OverriddenIsVirtual(t, m.cls, 0, SigOf(t, m));
    var p := PathAbove(t, m.cls, 0, SigOf(t, m), o);
    IndexOfMethod(t, m);
    assert Dispatch(t, p, SigOf(t, o)) == Some(m);
    assert Dispatch(Renamed(t, names), p, NewSig(t, names, o)) == Some(m);
    DispatchFinds(Renamed(t, names), p, NewSig(t, names, o));
    NewSigEqual(t, names, o, m);
  }

  // class A { virtual void foo(); }; class B { virtual void foo(); };
  // class C : public A, public B { virtual void foo(); };
  const TWO_ROOTS: Table := [
    Class([], [Method(Ordinary("foo", ""), true)]),
    Class([], [Method(Ordinary("foo", ""), true)]),
    Class([0, 1], [Method(Ordinary("foo", ""), true)])
  ]

  // The case the source leaves unhandled is real: a call through B on a C no longer reaches C's method.
  lemma TwoRootsBreakDispatch(names: Names)
    requires GoodNaming(TWO_ROOTS, names)
    ensures !DispatchPreserved(TWO_ROOTS, names)
  {
    var t := TWO_ROOTS;
    var a, b, c := MethodId(0, 0), MethodId(1, 0), MethodId(2, 0);
    IndexOfMethod(t, a);
    IndexOfMethod(t, b);
    IndexOfMethod(t, c);
    assert FindVirtual(t, 0, SigOf(t, c)) == [a];
    assert FindVirtual(t, 1, SigOf(t, c)) == [b];
    assert OverriddenFrom(t, 2, 2, SigOf(t, c)) == [];
    assert OverriddenFrom(t, 2, 1, SigOf(t, c)) == [b];
    assert Overridden(t, c) == [a, b];
    assert Root(t, b) == b && Root(t, c) == a;
    DispatchPreservedIff(t, names);
  }

  lemma {:induction false} DispatchFinds(t: Table, p: seq<nat>, s: Sig)
    requires forall i :: 0 <= i < |p| ==> p[i] < |t|
    ensures Dispatch(t, p, s).Some? ==> IsMethod(t, Dispatch(t, p, s).value) && SigOf(t, Dispatch(t, p, s).value) == s
  {
    if p != [] {
      DispatchFinds(t, p[1..], s);
    }
  }

  // ----- Hiding -----

  // A method that hides another after the renaming already hid it before: they had the same name and parameters.
  lemma NoNewHiding(t: Table, names: Names, x: MethodId, y: MethodId)
    requires GoodNaming(t, names) && x in names && y in names
    requires names[x] == names[y]
    ensures SigOf(t, x) == SigOf(t, y)
    ensures x.cls == y.cls ==> x == y
  {
    SameNameIffSameRoot(t, names, x, y);
    if x.cls == y.cls {
      IndexOfMethod(t, x);
      IndexOfMethod(t, y);
    }
  }

  lemma NewNameWasDeclared(t: Table, names: Names, c: nat, m: MethodId)
    requires GoodNaming(t, names) && c < |t| && IsMethod(t, m) && SigOf(t, m).Ordinary?
    requires DeclaresName(Renamed(t, names), c, names[m])
    ensures DeclaresName(t, c, SigOf(t, m).name)
  {
    var t' := Renamed(t, names);
    var k :| 0 <= k < |t'[c].methods| && t'[c].methods[k].sig.Ordinary? && t'[c].methods[k].sig.name == names[m];
    var x := MethodId(c, k);
    assert t'[c].methods[k].sig == NewSig(t, names, x);
    NoNewHiding(t, names, x, m);
  }

  // A call that resolved to m still resolves to m under its new name; this needs no condition on overriding.
  lemma ResolutionPreserved(t: Table, names: Names, p: seq<nat>, m: MethodId)
    requires GoodNaming(t, names) && IsPath(t, p) && IsMethod(t, m) && ResolvesTo(t, p, m)
    ensures ResolvesTo(Renamed(t, names), p, m)
  {
    forall i | 0 <= i < |p| - 1
      ensures !DeclaresName(Renamed(t, names), p[i], names[m])
    {
      if DeclaresName(Renamed(t, names), p[i], names[m]) {
        NewNameWasDeclared(t, names, p[i], m);
      }
    }
  }
}
