/**
 The numbering of clang_delta/RenameCXXMethod.cpp: classes may be visited in any order,
 the bases of a class are numbered before the class, and each method that overrides
 nothing receives the next free name m_fn1, m_fn2, ...
 */
module RenameCXXMethod {
  import opened Decimal
  import opened ClassTable
  import opened MethodRenaming

  const PREFIX := "m_fn"

  function NameOf(k: nat): string {
    PREFIX + Print(k)
  }

  lemma NameInjective(a: nat, b: nat)
    requires NameOf(a) == NameOf(b)
    ensures a == b
  {
    assert NameOf(a)[|PREFIX|..] == Print(a) && NameOf(b)[|PREFIX|..] == Print(b);
    PrintInjective(a, b);
  }

  // isValidName: the prefix and digits.
  predicate IsValidName(name: string) {
    PREFIX <= name && |name| > |PREFIX| && AllDigits(name[|PREFIX|..])
  }

  // A name passes exactly when it is m_fn and at least one digit after it, and nothing else.
  lemma ValidNameIff(name: string)
    ensures IsValidName(name) <==>
            exists digits: string :: name == "m_fn" + digits && |digits| > 0 && forall c :: c in digits ==> '0' <= c <= '9'
  {
    if IsValidName(name) {
      var digits := name[4..];
      assert name == "m_fn" + digits && forall c :: c in digits ==> '0' <= c <= '9';
    }
    if digits: string :| name == "m_fn" + digits && |digits| > 0 && forall c :: c in digits ==> '0' <= c <= '9' {
      assert name[..4] == PREFIX && name[4..] == digits;
      assert forall i :: 0 <= i < |digits| ==> digits[i] in digits;
    }
  }

  predicate NameIsValid(t: Table, m: MethodId)
    requires IsMethod(t, m)
  {
    SigOf(t, m).Ordinary? ==> IsValidName(SigOf(t, m).name)
  }

  // DoRenaming: some method that was given a name of its own had a name of another form.
  ghost predicate NeedsRenaming(t: Table, roots: seq<MethodId>)
    requires forall k :: 0 <= k < |roots| ==> IsMethod(t, roots[k])
  {
    exists k :: 0 <= k < |roots| && !NameIsValid(t, roots[k])
  }

  lemma NeedsRenamingMore(t: Table, roots: seq<MethodId>, m: MethodId)
    requires IsMethod(t, m) && forall k :: 0 <= k < |roots| ==> IsMethod(t, roots[k])
    ensures NeedsRenaming(t, roots + [m]) <==> NeedsRenaming(t, roots) || !NameIsValid(t, m)
  {
    assert (roots + [m])[|roots|] == m;
    assert forall k :: 0 <= k < |roots| ==> (roots + [m])[k] == roots[k];
  }

  // After a run all names have the right form, so that another run has nothing to do.
  lemma RenamedNamesValid(t: Table, names: Names, roots: seq<MethodId>, m: MethodId)
    requires Numbering(t, names, roots) && GoodNaming(t, names) && m in names
    ensures IsValidName(names[m])
  {
    NameOfRoot(t, names, m);
    var root := Root(t, m);
    assert IsRoot(t, root);
    var k :| 0 <= k < |roots| && roots[k] == root;
    assert NameOf(k + 1)[|PREFIX|..] == Print(k + 1);
  }

  // The methods the pass renames in some classes.
  ghost function MethodsOf(t: Table, classes: set<nat>): (r: set<MethodId>)
    ensures forall m :: m in r <==> m.cls in classes && IsMethod(t, m) && SigOf(t, m).Ordinary?
  {
    set c, i | c in classes && 0 <= c < |t| && 0 <= i < |t[c].methods| && t[c].methods[i].sig.Ordinary? :: MethodId(c, i)
  }

  // Distinct roots, in the order they were numbered, and what each method is called.
  ghost predicate Numbering(t: Table, names: Names, roots: seq<MethodId>) {
    && (forall m :: m in names ==> IsMethod(t, m))
    && InheritsNames(t, names)
    && (forall k :: 0 <= k < |roots| ==> roots[k] in names && IsRoot(t, roots[k]) && names[roots[k]] == NameOf(k + 1))
    && (forall m {:trigger IsRoot(t, m)} :: m in names && IsRoot(t, m) ==> m in roots)
  }

  lemma NumberingIsGood(t: Table, names: Names, roots: seq<MethodId>)
    requires Numbering(t, names, roots)
    ensures RootsDistinct(t, names)
    ensures (forall m :: m in names <==> IsMethod(t, m) && SigOf(t, m).Ordinary?) ==> GoodNaming(t, names)
  {
    forall a, b | a in names && b in names && IsRoot(t, a) && IsRoot(t, b) && names[a] == names[b]
      ensures a == b
    {
      var i :| 0 <= i < |roots| && roots[i] == a;
      var j :| 0 <= j < |roots| && roots[j] == b;
      NameInjective(i + 1, j + 1);
    }
  }

  lemma NumberingAddsRoot(t: Table, names: Names, roots: seq<MethodId>, m: MethodId)
    requires Numbering(t, names, roots)
    requires IsMethod(t, m) && m !in names && IsRoot(t, m)
    ensures Numbering(t, names[m := NameOf(|roots| + 1)], roots + [m])
  {
    var names' := names[m := NameOf(|roots| + 1)];
    forall x | x in names' && IsRoot(t, x)
      ensures x in roots + [m]
    {
      if x != m {
        assert x in names;
      }
    }
  }

  lemma NumberingInherits(t: Table, names: Names, roots: seq<MethodId>, m: MethodId, base: MethodId)
    requires Numbering(t, names, roots)
    requires IsMethod(t, m) && m !in names && OverridesFirst(t, m, base) && base in names
    ensures Numbering(t, names[m := names[base]], roots)
  {
    assert forall x, o {:trigger OverridesFirst(t, x, o)} :: x in names && OverridesFirst(t, x, o) ==> o in names;
  }

  lemma RootsNeedRenaming(t: Table, names: Names, roots: seq<MethodId>)
    requires Numbering(t, names, roots)
    ensures NeedsRenaming(t, roots) <==> exists m :: m in names && IsRoot(t, m) && !NameIsValid(t, m)
  {
    if m :| m in names && IsRoot(t, m) && !NameIsValid(t, m) {
      var k :| 0 <= k < |roots| && roots[k] == m;
      assert !NameIsValid(t, roots[k]);
    }
  }

  // The old names in terms of their text.
  ghost predicate RootsWellNamed(t: Table, names: Names)
    requires forall m :: m in names ==> IsMethod(t, m)
  {
    forall m, name, params :: m in names && Overridden(t, m) == [] && SigOf(t, m) == Ordinary(name, params) ==>
      exists digits: string :: name == "m_fn" + digits && |digits| > 0 && forall c :: c in digits ==> '0' <= c <= '9'
  }

  lemma WellNamedIff(t: Table, names: Names)
    requires forall m :: m in names ==> IsMethod(t, m)
    ensures RootsWellNamed(t, names) <==> forall m :: m in names && IsRoot(t, m) ==> NameIsValid(t, m)
  {
    if RootsWellNamed(t, names) {
      forall m | m in names && IsRoot(t, m)
        ensures NameIsValid(t, m)
      {
        if SigOf(t, m).Ordinary? {
          ValidNameIff(SigOf(t, m).name);
        }
      }
    }
    if forall m :: m in names && IsRoot(t, m) ==> NameIsValid(t, m) {
      forall m, name, params | m in names && Overridden(t, m) == [] && SigOf(t, m) == Ordinary(name, params)
        ensures exists digits: string ::
                  name == "m_fn" + digits && |digits| > 0 && forall c :: c in digits ==> '0' <= c <= '9'
      {
        assert IsRoot(t, m);
        ValidNameIff(name);
      }
    }
  }

  // class A { void foo(); }; needs renaming.
  lemma FooNeedsRenaming(t: Table, names: Names)
    requires t == [Class([], [Method(Ordinary("foo", ""), false)])] && names.Keys == {MethodId(0, 0)}
    ensures IsMethod(t, MethodId(0, 0)) && IsRoot(t, MethodId(0, 0)) && !RootsWellNamed(t, names)
  {
    var m := MethodId(0, 0);
    assert m in names && SigOf(t, m) == Ordinary("foo", "");
    forall digits: string
      ensures "foo" != "m_fn" + digits
    {
      assert "foo"[0] != 'm' && ("m_fn" + digits)[0] == 'm';
    }
  }

  ghost predicate ClosedUnderBases(t: Table, classes: set<nat>) {
    forall c, b :: c in classes && c < |t| && b in t[c].bases ==> b in classes
  }

  // The new names are m_fn1, m_fn2 up to a number; each is that of a method that overrides nothing.
  ghost predicate NamedInTurn(t: Table, names: Names, n: nat)
    requires forall m :: m in names ==> IsMethod(t, m)
  {
    && (forall m :: m in names ==> exists k :: 1 <= k <= n && IsCalled(names, m, k))
    && (forall k: nat :: 1 <= k <= n ==> IsRootName(t, names, k))
  }

  ghost predicate IsRootName(t: Table, names: Names, k: nat)
    requires forall m :: m in names ==> IsMethod(t, m)
  {
    exists m :: IsCalled(names, m, k) && Overridden(t, m) == []
  }

  predicate IsCalled(names: Names, m: MethodId, k: nat) {
    m in names && names[m] == "m_fn" + Print(k)
  }

  lemma NamesInTurn(t: Table, names: Names, roots: seq<MethodId>)
    requires Numbering(t, names, roots)
    ensures NamedInTurn(t, names, |roots|)
  {
    forall m | m in names
      ensures exists k :: 1 <= k <= |roots| && IsCalled(names, m, k)
    {
      NameFromRoots(t, names, roots, m);
    }
    forall k: nat | 1 <= k <= |roots|
      ensures IsRootName(t, names, k)
    {
      var m := roots[k - 1];
      assert m in names && IsRoot(t, m) && names[m] == NameOf(k);
      assert IsCalled(names, m, k);
    }
  }

  lemma {:induction false} NameFromRoots(t: Table, names: Names, roots: seq<MethodId>, m: MethodId)
    requires Numbering(t, names, roots) && m in names
    ensures exists k :: 1 <= k <= |roots| && IsCalled(names, m, k)
    decreases m.cls
  {
    if IsRoot(t, m) {
      var i :| 0 <= i < |roots| && roots[i] == m;
      assert IsCalled(names, m, i + 1);
    } else {
      var o := Overridden(t, m)[0];
      assert OverridesFirst(t, m, o) && o in Overridden(t, m);
      NameFromRoots(t, names, roots, o);
      var k :| 1 <= k <= |roots| && IsCalled(names, o, k);
      assert IsCalled(names, m, k);
    }
  }

  lemma FlagAndNames(t: Table, names: Names, roots: seq<MethodId>)
    requires Numbering(t, names, roots)
    ensures NeedsRenaming(t, roots) <==> exists m :: m in names && IsRoot(t, m) && !NameIsValid(t, m)
    ensures NeedsRenaming(t, roots) <==> !RootsWellNamed(t, names)
    ensures NamedInTurn(t, names, |roots|)
  {
    RootsNeedRenaming(t, names, roots);
    WellNamedIff(t, names);
    NamesInTurn(t, names, roots);
  }

  // What a class overrides is declared in the classes above it.
  lemma {:induction false} FoundAbove(t: Table, classes: set<nat>, c: nat, s: Sig)
    requires ClosedUnderBases(t, classes) && c in classes && c < |t|
    ensures forall o :: o in FindVirtual(t, c, s) ==> o.cls in classes
    decreases c, |t[c].bases| + 1
  {
    OverriddenAbove(t, classes, c, 0, s);
  }

  lemma {:induction false} OverriddenAbove(t: Table, classes: set<nat>, c: nat, j: nat, s: Sig)
    requires ClosedUnderBases(t, classes) && c < |t| && j <= |t[c].bases|
    requires forall b :: b in t[c].bases ==> b in classes
    ensures forall o :: o in OverriddenFrom(t, c, j, s) ==> o.cls in classes
    decreases c, |t[c].bases| - j
  {
    if j < |t[c].bases| {
      assert t[c].bases[j] in t[c].bases;
      FoundAbove(t, classes, t[c].bases[j], s);
      OverriddenAbove(t, classes, c, j + 1, s);
    }
  }

  lemma OverriddenNamed(t: Table, classes: set<nat>, m: MethodId)
    requires ClosedUnderBases(t, classes) && IsMethod(t, m) && SigOf(t, m).Ordinary?
    requires forall b :: b in t[m.cls].bases ==> b in classes
    ensures forall o :: o in Overridden(t, m) ==> o in MethodsOf(t, classes)
  {
    OverriddenAbove(t, classes, m.cls, 0, SigOf(t, m));
  }

  // The virtual (or the other) renamed methods among the first i of class c.
  ghost function Split(t: Table, c: nat, i: nat, virtual: bool): set<MethodId>
    requires c < |t| && i <= |t[c].methods|
  {
    if i == 0 then {} else Split(t, c, i - 1, virtual) + SplitOne(t, MethodId(c, i - 1), virtual)
  }

  ghost function SplitOne(t: Table, m: MethodId, virtual: bool): set<MethodId>
    requires IsMethod(t, m)
  {
    if SigOf(t, m).Ordinary? && IsVirtual(t, m) == virtual then {m} else {}
  }

  lemma {:induction false} InSplit(t: Table, c: nat, i: nat, virtual: bool, m: MethodId)
    requires c < |t| && i <= |t[c].methods|
    ensures m in Split(t, c, i, virtual) <==>
            m.cls == c && m.idx < i && SigOf(t, m).Ordinary? && IsVirtual(t, m) == virtual
  {
    if i > 0 {
      InSplit(t, c, i - 1, virtual, m);
    }
  }

  lemma SplitNext(t: Table, c: nat, i: nat, virtual: bool, before: set<MethodId>)
    requires c < |t| && i < |t[c].methods|
    ensures before + Split(t, c, i + 1, virtual) == before + Split(t, c, i, virtual) + SplitOne(t, MethodId(c, i), virtual)
  {
  }

  // The bases of a class are numbered, and the class is not.
  ghost predicate IsNext(t: Table, classes: set<nat>, c: nat) {
    c < |t| && c !in classes && ClosedUnderBases(t, classes) && forall b :: b in t[c].bases ==> b in classes
  }

  // Before method i of class c is handled it has no name, and what it overrides has one.
  lemma ReadyToName(t: Table, classes: set<nat>, c: nat, i: nat)
    requires ClosedUnderBases(t, classes) && c < |t| && i < |t[c].methods| && c !in classes
    requires forall b :: b in t[c].bases ==> b in classes
    ensures
      var m := MethodId(c, i);
      && m !in MethodsOf(t, classes) + Split(t, c, i, true)
      && (SigOf(t, m).Ordinary? ==> forall o :: o in Overridden(t, m) ==> o in MethodsOf(t, classes))
  {
    var m := MethodId(c, i);
    InSplit(t, c, i, true, m);
    if SigOf(t, m).Ordinary? {
      OverriddenNamed(t, classes, m);
    }
  }

  lemma SplitCovers(t: Table, c: nat, classes: set<nat>)
    requires c < |t| && c !in classes
    ensures MethodsOf(t, classes + {c}) ==
            MethodsOf(t, classes) + Split(t, c, |t[c].methods|, true) + Split(t, c, |t[c].methods|, false)
    ensures (MethodsOf(t, classes) + Split(t, c, |t[c].methods|, true)) !! Split(t, c, |t[c].methods|, false)
  {
    var early, late := Split(t, c, |t[c].methods|, true), Split(t, c, |t[c].methods|, false);
    forall m
      ensures m in MethodsOf(t, classes + {c}) <==> m in MethodsOf(t, classes) + early + late
      ensures !(m in MethodsOf(t, classes) + early && m in late)
    {
      InSplit(t, c, |t[c].methods|, true, m);
      InSplit(t, c, |t[c].methods|, false, m);
    }
  }

  class Renamer {
    const table: Table
    var newMethodNames: Names
    // The classes with an entry in NumMemberFunctions: those handled completely.
    var numbered: set<nat>
    // Those whose handling has at least begun.
    var visited: set<nat>
    var numRenamed: nat
    var doRenaming: bool
    ghost var roots: seq<MethodId>

    ghost predicate NamesRight()
      reads this`newMethodNames, this`numRenamed, this`doRenaming, this`roots
    {
      && numRenamed == |roots| && Numbering(table, newMethodNames, roots)
      && doRenaming == NeedsRenaming(table, roots)
    }

    ghost predicate Valid()
      reads this
    {
      && NamesRight()
      && newMethodNames.Keys == MethodsOf(table, numbered)
      && numbered <= visited && ClosedUnderBases(table, numbered)
    }

    // More classes are numbered, and those under way are still under way.
    twostate predicate Progress()
      reads this
    {
      old(numbered) <= numbered && visited - numbered == old(visited - numbered)
    }

    constructor (t: Table)
      ensures table == t && Valid() && visited == {}
    {
      table := t;
      newMethodNames, numbered, visited, numRenamed, doRenaming, roots := map[], {}, {}, 0, false, [];
    }

    // addOneMethodName: a name of its own.
    method AddOneMethodName(m: MethodId)
      requires NamesRight() && IsMethod(table, m) && IsRoot(table, m)
      requires m !in newMethodNames
      modifies this`newMethodNames, this`numRenamed, this`doRenaming, this`roots
      ensures NamesRight() && roots == old(roots) + [m]
      ensures newMethodNames == old(newMethodNames)[m := NameOf(old(numRenamed) + 1)]
      ensures doRenaming == (old(doRenaming) || !NameIsValid(table, m))
    {
      NumberingAddsRoot(table, newMethodNames, roots, m);
      NeedsRenamingMore(table, roots, m);
      numRenamed := numRenamed + 1;
      newMethodNames, roots := newMethodNames[m := NameOf(numRenamed)], roots + [m];
      if !NameIsValid(table, m) {
        doRenaming := true;
      }
    }

    // addOneInheritedName: the name of the overridden method.
    method AddOneInheritedName(m: MethodId, base: MethodId)
      requires NamesRight() && IsMethod(table, m) && OverridesFirst(table, m, base)
      requires m !in newMethodNames && base in newMethodNames
      modifies this`newMethodNames
      ensures NamesRight()
      ensures newMethodNames == old(newMethodNames)[m := old(newMethodNames)[base]]
    {
      NumberingInherits(table, newMethodNames, roots, m, base);
      newMethodNames := newMethodNames[m := newMethodNames[base]];
    }

    // getNumInheritedFunctions: numbers the bases that are still unnumbered.
    method NumberBases(c: nat)
      requires Valid() && c < |table| && c in visited - numbered
      requires forall x :: x in visited - numbered ==> x >= c
      modifies this
      ensures Valid() && Progress()
      ensures forall b :: b in table[c].bases ==> b in numbered
      decreases c, 0
    {
      for j := 0 to |table[c].bases|
        invariant Valid() && Progress()
        invariant forall i :: 0 <= i < j ==> table[c].bases[i] in numbered
      {
        var b := table[c].bases[j];
        assert b in table[c].bases;
        if b !in numbered {
          HandleOneCXXRecordDecl(b);
        }
      }
    }

    // handleOneCXXRecordDecl: bases first, then the virtual methods in order, then the others in any order.
    // That each name is given once and that an overridden method already has its name
    // are the preconditions of the two methods that give names.
    method HandleOneCXXRecordDecl(c: nat)
      requires Valid() && c < |table|
      requires forall x :: x in visited - numbered ==> x > c
      modifies this
      ensures Valid() && Progress() && c in numbered
      decreases c, 1
    {
      if c in visited {
        assert c !in visited - numbered;
        return;
      }
      ghost var underWay := visited - numbered;
      visited := visited + {c};
      assert visited - numbered == underWay + {c};
      NumberBases(c);
      NameMethodsOf(c);
      numbered := numbered + {c};
      assert visited - numbered == (underWay + {c}) - {c};
    }

    method NameMethodsOf(c: nat)
      requires Valid() && c < |table| && c !in numbered && forall b :: b in table[c].bases ==> b in numbered
      modifies this`newMethodNames, this`numRenamed, this`doRenaming, this`roots
      ensures NamesRight()
      ensures newMethodNames.Keys == MethodsOf(table, numbered + {c})
    {
      SplitCovers(table, c, numbered);
      var nonVirtualFuns := NameVirtuals(c);
      NameNonVirtuals(c, nonVirtualFuns);
    }

    // The methods of a class in order; the non-virtual ones are put aside.
    method NameVirtuals(c: nat) returns (nonVirtualFuns: set<MethodId>)
      requires NamesRight() && newMethodNames.Keys == MethodsOf(table, numbered) && IsNext(table, numbered, c)
      modifies this`newMethodNames, this`numRenamed, this`doRenaming, this`roots
      ensures NamesRight()
      ensures newMethodNames.Keys == old(newMethodNames.Keys) + Split(table, c, |table[c].methods|, true)
      ensures nonVirtualFuns == Split(table, c, |table[c].methods|, false)
    {
      ghost var classes := numbered;
      nonVirtualFuns := {};
      for i := 0 to |table[c].methods|
        invariant NamesRight() && Separated(c, i, classes, nonVirtualFuns)
      {
        nonVirtualFuns := SeparateOne(c, i, nonVirtualFuns, classes);
      }
    }

    // Besides the methods of the classes, the first i of class c are named or put aside.
    ghost predicate Separated(c: nat, i: nat, classes: set<nat>, nonVirtualFuns: set<MethodId>)
      requires c < |table| && i <= |table[c].methods|
      reads this`newMethodNames
    {
      && newMethodNames.Keys == MethodsOf(table, classes) + Split(table, c, i, true)
      && nonVirtualFuns == Split(table, c, i, false)
    }

    method SeparateOne(c: nat, i: nat, funs: set<MethodId>, ghost classes: set<nat>)
      returns (nonVirtualFuns: set<MethodId>)
      requires IsNext(table, classes, c) && i < |table[c].methods|
      requires NamesRight() && Separated(c, i, classes, funs)
      modifies this`newMethodNames, this`numRenamed, this`doRenaming, this`roots
      ensures NamesRight() && Separated(c, i + 1, classes, nonVirtualFuns)
    {
      ReadyToName(table, classes, c, i);
      SplitNext(table, c, i, true, MethodsOf(table, classes));
      nonVirtualFuns := HandleOneMethod(MethodId(c, i), funs);
    }

    method HandleOneMethod(m: MethodId, funs: set<MethodId>) returns (nonVirtualFuns: set<MethodId>)
      requires NamesRight() && IsMethod(table, m) && m !in newMethodNames
      requires SigOf(table, m).Ordinary? ==> forall o :: o in Overridden(table, m) ==> o in newMethodNames
      modifies this`newMethodNames, this`numRenamed, this`doRenaming, this`roots
      ensures NamesRight()
      ensures newMethodNames.Keys == old(newMethodNames.Keys) + SplitOne(table, m, true)
      ensures nonVirtualFuns == funs + SplitOne(table, m, false)
    {
      nonVirtualFuns := funs;
      if SigOf(table, m).Special? {
        return;
      }
      if !IsVirtual(table, m) {
        nonVirtualFuns := nonVirtualFuns + {m};
      } else {
        NameVirtual(m);
      }
    }

    method NameVirtual(m: MethodId)
      requires NamesRight() && IsMethod(table, m) && m !in newMethodNames
      requires forall o :: o in Overridden(table, m) ==> o in newMethodNames
      modifies this`newMethodNames, this`numRenamed, this`doRenaming, this`roots
      ensures NamesRight()
      ensures newMethodNames.Keys == old(newMethodNames.Keys) + {m}
    {
      var overridden := Overridden(table, m);
      if overridden == [] {
        AddOneMethodName(m);
      } else {
        assert overridden[0] in overridden;
        AddOneInheritedName(m, overridden[0]);
      }
    }

    // The set of non-virtual methods is walked in an order of its own.
    method NameNonVirtuals(c: nat, funs: set<MethodId>)
      requires NamesRight() && c < |table|
      requires funs <= Split(table, c, |table[c].methods|, false) && funs !! newMethodNames.Keys
      modifies this`newMethodNames, this`numRenamed, this`doRenaming, this`roots
      ensures NamesRight()
      ensures newMethodNames.Keys == old(newMethodNames.Keys) + funs
    {
      var todo := funs;
      while todo != {}
        invariant todo <= funs && todo !! newMethodNames.Keys
        invariant NamesRight()
        invariant newMethodNames.Keys + todo == old(newMethodNames.Keys) + funs
      {
        var m :| m in todo;
        InSplit(table, c, |table[c].methods|, false, m);
        todo := todo - {m};
        AddOneMethodName(m);
      }
    }

    // The whole collection: classes in any order, any number of times.
    method HandleAll(order: seq<nat>)
      requires Valid() && visited == numbered
      requires forall c :: c in order ==> c < |table|
      modifies this
      ensures Valid()
      ensures (forall c :: 0 <= c < |table| ==> c in order) ==> GoodNaming(table, newMethodNames)
      // hasValidMethods, which decides whether anything is rewritten
      ensures doRenaming <==> exists m :: m in newMethodNames && IsRoot(table, m) && !NameIsValid(table, m)
      // It stays off exactly when every method that overrides nothing is called m_fn and digits.
      ensures !doRenaming <==> RootsWellNamed(table, newMethodNames)
      ensures NamedInTurn(table, newMethodNames, numRenamed)
    {
      for k := 0 to |order|
        invariant Valid() && visited - numbered == {}
        invariant forall i :: 0 <= i < k ==> order[i] in numbered
      {
        assert order[k] in order;
        HandleOneCXXRecordDecl(order[k]);
      }
      NumberingIsGood(table, newMethodNames, roots);
      FlagAndNames(table, newMethodNames, roots);
      if forall c :: 0 <= c < |table| ==> c in order {
        forall c | 0 <= c < |table|
          ensures c in numbered
        {
          assert c in order;
        }
        assert forall m :: m in newMethodNames <==> m in MethodsOf(table, numbered);
      }
    }
  }
}
