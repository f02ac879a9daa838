/**
 Virtual methods and overriding in terms of paths through the class table, as section 10.3 of ISO/IEC 14882
 describes them: what clang_delta/RenameCXXMethod.cpp:351-383 is told about overridden methods.
 */
module OverridePaths {
  import opened ClassTable
  import opened MethodRenaming
  import opened Wrappers

  predicate DeclaresVirtual(t: Table, c: nat, s: Sig) {
    c < |t| && exists k :: 0 <= k < |t[c].methods| && t[c].methods[k].sig == s && t[c].methods[k].declaredVirtual
  }

  // A path from a class up to one that declares the signature as virtual.
  predicate LeadsToVirtual(t: Table, p: seq<nat>, c: nat, s: Sig) {
    IsPath(t, p) && p[0] == c && DeclaresVirtual(t, p[|p| - 1], s)
  }

  lemma {:induction false} PathUp(t: Table, c: nat, p: seq<nat>)
    requires c < |t| && IsPath(t, p) && p[0] in t[c].bases
    ensures IsPath(t, [c] + p) && ([c] + p)[0] == c && ([c] + p)[|p|] == p[|p| - 1]
  {
    var q := [c] + p;
    forall i | 0 <= i < |q| - 1
      ensures q[i + 1] in t[q[i]].bases
    {
      assert i > 0 ==> q[i] == p[i - 1] && q[i + 1] == p[i];
    }
  }

  lemma {:induction false} PathDown(t: Table, p: seq<nat>)
    requires IsPath(t, p) && |p| > 1
    ensures IsPath(t, p[1..]) && p[1..][0] in t[p[0]].bases && p[1..][|p| - 2] == p[|p| - 1]
  {
    var q := p[1..];
    forall i | 0 <= i < |q| - 1
      ensures q[i + 1] in t[q[i]].bases
    {
      assert q[i] == p[i + 1] && q[i + 1] == p[i + 2];
    }
  }

  ghost predicate HasVirtual(t: Table, c: nat, s: Sig) {
    exists p :: LeadsToVirtual(t, p, c, s)
  }

  ghost predicate HasVirtualAbove(t: Table, c: nat, j: nat, s: Sig)
    requires c < |t|
  {
    exists i :: j <= i < |t[c].bases| && HasVirtual(t, t[c].bases[i], s)
  }

  lemma {:induction false} FoundSomethingIff(t: Table, c: nat, s: Sig)
    requires c < |t|
    ensures FindVirtual(t, c, s) != [] <==> HasVirtual(t, c, s)
    decreases c, |t[c].bases| + 1
  {
    AboveSomethingIff(t, c, 0, s);
    HasVirtualIff(t, c, s);
    if DeclaresVirtual(t, c, s) {
      var i :| 0 <= i < |t[c].methods| && t[c].methods[i].sig == s && t[c].methods[i].declaredVirtual;
      assert IndexOf(t[c].methods, s) == Some(i);
    }
  }

  lemma {:induction false} HasVirtualIff(t: Table, c: nat, s: Sig)
    requires c < |t|
    ensures HasVirtual(t, c, s) <==> DeclaresVirtual(t, c, s) || HasVirtualAbove(t, c, 0, s)
  {
    if DeclaresVirtual(t, c, s) {
      assert LeadsToVirtual(t, [c], c, s);
    }
    if i :| 0 <= i < |t[c].bases| && HasVirtual(t, t[c].bases[i], s) {
      var p :| LeadsToVirtual(t, p, t[c].bases[i], s);
      PathUp(t, c, p);
      assert LeadsToVirtual(t, [c] + p, c, s);
    }
    if p :| LeadsToVirtual(t, p, c, s) && |p| > 1 {
      PathDown(t, p);
      var i :| 0 <= i < |t[c].bases| && t[c].bases[i] == p[1];
      assert LeadsToVirtual(t, p[1..], t[c].bases[i], s);
    }
  }

  lemma {:induction false} AboveSomethingIff(t: Table, c: nat, j: nat, s: Sig)
    requires c < |t| && j <= |t[c].bases|
    ensures OverriddenFrom(t, c, j, s) != [] <==> HasVirtualAbove(t, c, j, s)
    decreases c, |t[c].bases| - j
  {
    if j < |t[c].bases| {
      assert t[c].bases[j] in t[c].bases;
      FoundSomethingIff(t, t[c].bases[j], s);
      AboveSomethingIff(t, c, j + 1, s);
    }
  }

  // A method is virtual exactly when its class, or one that a path of bases leads to, declares its signature as virtual.
  lemma {:induction false} VirtualIff(t: Table, m: MethodId)
    requires IsMethod(t, m)
    ensures IsVirtual(t, m) <==> exists p :: LeadsToVirtual(t, p, m.cls, SigOf(t, m))
  {
    FoundSomethingIff(t, m.cls, SigOf(t, m));
    assert IndexOf(t[m.cls].methods, SigOf(t, m)) == Some(m.idx);
  }

  // The class has no virtual method of the signature.
  predicate PassesBy(t: Table, c: nat, s: Sig)
    requires c < |t|
  {
    forall k :: 0 <= k < |t[c].methods| && t[c].methods[k].sig == s ==> !IsVirtual(t, MethodId(c, k))
  }

  // A path up to a virtual method of the signature, from number `from` on past classes without one.
  predicate FirstMet(t: Table, p: seq<nat>, from: nat, s: Sig, o: MethodId) {
    && IsPath(t, p) && IsMethod(t, o) && SigOf(t, o) == s && IsVirtual(t, o) && p[|p| - 1] == o.cls
    && forall i :: from <= i < |p| - 1 ==> PassesBy(t, p[i], s)
  }

  ghost predicate MetFrom(t: Table, c: nat, s: Sig, o: MethodId) {
    exists p :: FirstMet(t, p, 0, s, o) && p[0] == c
  }

  ghost predicate MetAbove(t: Table, c: nat, j: nat, s: Sig, o: MethodId)
    requires c < |t|
  {
    exists i :: j <= i < |t[c].bases| && MetFrom(t, t[c].bases[i], s, o)
  }

  lemma {:induction false} FoundIff(t: Table, c: nat, s: Sig, o: MethodId)
    requires c < |t|
    ensures o in FindVirtual(t, c, s) <==> MetFrom(t, c, s, o)
    decreases c, |t[c].bases| + 1
  {
    AboveIff(t, c, 0, s, o);
    var index := IndexOf(t[c].methods, s);
    if index.Some? && IsVirtual(t, MethodId(c, index.value)) {
      MetHere(t, c, index.value, o);
    } else {
      MetHigherIff(t, c, s, o);
    }
  }

  lemma {:induction false} MetHere(t: Table, c: nat, k: nat, o: MethodId)
    requires IsMethod(t, MethodId(c, k)) && IsVirtual(t, MethodId(c, k))
    ensures MetFrom(t, c, SigOf(t, MethodId(c, k)), o) <==> o == MethodId(c, k)
  {
    var here := MethodId(c, k);
    var s := SigOf(t, here);
    assert FirstMet(t, [c], 0, s, here) && !PassesBy(t, c, s);
    if p :| FirstMet(t, p, 0, s, o) && p[0] == c {
      assert |p| == 1;
    }
  }

  lemma {:induction false} MetHigherIff(t: Table, c: nat, s: Sig, o: MethodId)
    requires c < |t| && PassesBy(t, c, s)
    ensures MetFrom(t, c, s, o) <==> MetAbove(t, c, 0, s, o)
  {
    if i :| 0 <= i < |t[c].bases| && MetFrom(t, t[c].bases[i], s, o) {
      var p :| FirstMet(t, p, 0, s, o) && p[0] == t[c].bases[i];
      StepDown(t, c, p, 0, s, o);
    }
    if p :| FirstMet(t, p, 0, s, o) && p[0] == c {
      StepUp(t, p, s, o);
    }
  }

  lemma {:induction false} StepDown(t: Table, c: nat, p: seq<nat>, from: nat, s: Sig, o: MethodId)
    requires c < |t| && FirstMet(t, p, 0, s, o) && p[0] in t[c].bases && (from >= 1 || PassesBy(t, c, s))
    ensures FirstMet(t, [c] + p, from, s, o) && ([c] + p)[0] == c
  {
    PathUp(t, c, p);
    var q := [c] + p;
    forall k | from <= k < |q| - 1
      ensures PassesBy(t, q[k], s)
    {
      assert k > 0 ==> q[k] == p[k - 1];
    }
  }

  lemma {:induction false} StepUp(t: Table, p: seq<nat>, s: Sig, o: MethodId)
    requires FirstMet(t, p, 1, s, o) && (|p| > 1 || PassesBy(t, p[0], s))
    ensures MetAbove(t, p[0], 0, s, o)
  {
    assert |p| > 1;
    PathDown(t, p);
    var q := p[1..];
    assert forall k :: 0 <= k < |q| - 1 ==> q[k] == p[k + 1];
    assert FirstMet(t, q, 0, s, o);
    var i :| 0 <= i < |t[p[0]].bases| && t[p[0]].bases[i] == q[0];
    assert MetFrom(t, t[p[0]].bases[i], s, o);
  }

  lemma {:induction false} AboveIff(t: Table, c: nat, j: nat, s: Sig, o: MethodId)
    requires c < |t| && j <= |t[c].bases|
    ensures o in OverriddenFrom(t, c, j, s) <==> MetAbove(t, c, j, s, o)
    decreases c, |t[c].bases| - j
  {
    if j < |t[c].bases| {
      assert t[c].bases[j] in t[c].bases;
      FoundIff(t, t[c].bases[j], s, o);
      AboveIff(t, c, j + 1, s, o);
    }
  }

  // What a method overrides are the virtual methods of its signature that a path of bases meets first.
  lemma {:induction false} OverriddenIff(t: Table, m: MethodId, o: MethodId)
    requires IsMethod(t, m)
    ensures o in Overridden(t, m) <==> exists p :: |p| > 1 && p[0] == m.cls && FirstMet(t, p, 1, SigOf(t, m), o)
  {
    var s := SigOf(t, m);
    AboveIff(t, m.cls, 0, s, o);
    if i :| 0 <= i < |t[m.cls].bases| && MetFrom(t, t[m.cls].bases[i], s, o) {
      var p :| FirstMet(t, p, 0, s, o) && p[0] == t[m.cls].bases[i];
      StepDown(t, m.cls, p, 1, s, o);
      assert |[m.cls] + p| > 1;
    }
    if p :| |p| > 1 && p[0] == m.cls && FirstMet(t, p, 1, s, o) {
      StepUp(t, p, s, o);
    }
  }
}
