/**
 Classes, their bases and their methods, with the lookups C++ performs on them:
 overriding, virtual dispatch and member-name lookup. The renaming of
 clang_delta/RenameCXXMethod.cpp is judged by these lookups, before and after.
 */
module ClassTable {
  import opened Wrappers

  // A special signature (constructor, destructor, conversion or operator) is never renamed.
  datatype Sig = Ordinary(name: string, params: string) | Special(text: string)

  datatype Method = Method(sig: Sig, declaredVirtual: bool)

  datatype Class = Class(bases: seq<nat>, methods: seq<Method>)

  datatype MethodId = MethodId(cls: nat, idx: nat)

  // A base is complete where a class is defined, so it stands earlier in the table;
  // a class declares a signature once.
  predicate WellFormed(t: seq<Class>) {
    forall c :: 0 <= c < |t| ==>
      && (forall b :: b in t[c].bases ==> b < c)
      && DistinctSigs(t[c].methods)
  }

  predicate DistinctSigs(ms: seq<Method>) {
    forall i, j :: 0 <= i < j < |ms| ==> ms[i].sig != ms[j].sig
  }

  type Table = t: seq<Class> | WellFormed(t)

  predicate IsMethod(t: Table, m: MethodId) {
    m.cls < |t| && m.idx < |t[m.cls].methods|
  }

  function SigOf(t: Table, m: MethodId): Sig
    requires IsMethod(t, m)
  {
    t[m.cls].methods[m.idx].sig
  }

  // The position of a signature among some methods.
  function IndexOf(ms: seq<Method>, s: Sig): (r: Option<nat>)
    ensures r.Some? ==> r.value < |ms| && ms[r.value].sig == s
    ensures r.None? ==> forall i :: 0 <= i < |ms| ==> ms[i].sig != s
  {
    if ms == [] then None
    else if ms[|ms| - 1].sig == s then Some(|ms| - 1)
    else IndexOf(ms[..|ms| - 1], s)
  }

  // What a method of signature s overrides when searched for from class c upwards:
  // on each inheritance path the nearest virtual method with that signature.
  function FindVirtual(t: Table, c: nat, s: Sig): (r: seq<MethodId>)
    requires c < |t|
    ensures forall o :: o in r ==> IsMethod(t, o) && o.cls <= c && SigOf(t, o) == s
    decreases c, |t[c].bases| + 1
  {
    var above := OverriddenFrom(t, c, 0, s);
    match IndexOf(t[c].methods, s)
    case Some(k) => if t[c].methods[k].declaredVirtual || above != [] then [MethodId(c, k)] else above
    case None => above
  }

  function OverriddenFrom(t: Table, c: nat, j: nat, s: Sig): (r: seq<MethodId>)
    requires c < |t| && j <= |t[c].bases|
    ensures forall o :: o in r ==> IsMethod(t, o) && o.cls < c && SigOf(t, o) == s
    decreases c, |t[c].bases| - j
  {
    if j == |t[c].bases| then []
    else
      assert t[c].bases[j] in t[c].bases;
      FindVirtual(t, t[c].bases[j], s) + OverriddenFrom(t, c, j + 1, s)
  }

  // The methods that m overrides.
  function Overridden(t: Table, m: MethodId): (r: seq<MethodId>)
    requires IsMethod(t, m)
    ensures forall o :: o in r ==> IsMethod(t, o) && o.cls < m.cls && SigOf(t, o) == SigOf(t, m)
  {
    OverriddenFrom(t, m.cls, 0, SigOf(t, m))
  }

  // A method is virtual when declared so or when it overrides a virtual one.
  predicate IsVirtual(t: Table, m: MethodId)
    requires IsMethod(t, m)
  {
    t[m.cls].methods[m.idx].declaredVirtual || Overridden(t, m) != []
  }

  // The method at the top of the chain that follows the first overridden method.
  function Root(t: Table, m: MethodId): (r: MethodId)
    requires IsMethod(t, m)
    ensures IsMethod(t, r) && SigOf(t, r) == SigOf(t, m) && Overridden(t, r) == []
    ensures IsVirtual(t, m) ==> IsVirtual(t, r)
    decreases m.cls
  {
    var os := Overridden(t, m);
    if os == [] then m
    else
      assert os[0] in os;
      OverriddenIsVirtual(t, m.cls, 0, SigOf(t, m));
      Root(t, os[0])
  }

  lemma IndexOfMethod(t: Table, m: MethodId)
    requires IsMethod(t, m)
    ensures IndexOf(t[m.cls].methods, SigOf(t, m)) == Some(m.idx)
  {
    var k := IndexOf(t[m.cls].methods, SigOf(t, m)).value;
    assert DistinctSigs(t[m.cls].methods);
  }

  lemma FoundIsVirtual(t: Table, c: nat, s: Sig)
    requires c < |t|
    ensures forall o :: o in FindVirtual(t, c, s) ==> IsVirtual(t, o)
    decreases c, |t[c].bases| + 1
  {
    OverriddenIsVirtual(t, c, 0, s);
  }

  lemma OverriddenIsVirtual(t: Table, c: nat, j: nat, s: Sig)
    requires c < |t| && j <= |t[c].bases|
    ensures forall o :: o in OverriddenFrom(t, c, j, s) ==> IsVirtual(t, o)
    decreases c, |t[c].bases| - j
  {
    if j < |t[c].bases| {
      assert t[c].bases[j] in t[c].bases;
      FoundIsVirtual(t, t[c].bases[j], s);
      OverriddenIsVirtual(t, c, j + 1, s);
    }
  }

  // An inheritance path from a dynamic class up to a static one.
  predicate IsPath(t: Table, p: seq<nat>) {
    && p != []
    && (forall i :: 0 <= i < |p| ==> p[i] < |t|)
    && (forall i :: 0 <= i < |p| - 1 ==> p[i + 1] in t[p[i]].bases)
  }

  // Virtual dispatch on the subobject that a path denotes: the method of the most
  // derived class on the path that has a virtual method with the signature.
  function Dispatch(t: Table, p: seq<nat>, s: Sig): (r: Option<MethodId>)
    requires forall i :: 0 <= i < |p| ==> p[i] < |t|
  {
    if p == [] then None
    else match IndexOf(t[p[0]].methods, s)
      case Some(k) => if IsVirtual(t, MethodId(p[0], k)) then Some(MethodId(p[0], k)) else Dispatch(t, p[1..], s)
      case None => Dispatch(t, p[1..], s)
  }

  // Member-name lookup: a class that declares the name hides it in all its bases.
  predicate DeclaresName(t: Table, c: nat, name: string)
    requires c < |t|
  {
    exists i :: 0 <= i < |t[c].methods| && t[c].methods[i].sig.Ordinary? && t[c].methods[i].sig.name == name
  }

  // A call with a static class p[0] resolves to method m when m's class is the first
  // on the path that declares m's name.
  predicate ResolvesTo(t: Table, p: seq<nat>, m: MethodId)
    requires IsPath(t, p) && IsMethod(t, m)
  {
    && p[|p| - 1] == m.cls
    && SigOf(t, m).Ordinary?
    && forall i :: 0 <= i < |p| - 1 ==> !DeclaresName(t, p[i], SigOf(t, m).name)
  }
}
