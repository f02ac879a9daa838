/**
 The pass of clang_delta/RemoveUnusedStructField.cpp: index vectors lead from every record
 that holds the chosen field down to it, and drive a walk over nested initialiser lists
 that collects the field's initialisers.
 */
module RemoveUnusedStructField {
  import opened Collections
  import opened Wrappers
  import opened StructInit

  datatype FieldId = FieldId(rec: nat, idx: nat)

  // ----- What is to be collected -----

  // The positions of the field's initialisers inside init, by walking all of init.
  function Collect(rs: Records, r: nat, f: nat, ty: Type, init: Init): seq<Position>
    decreases init, 0
  {
    match init
    case Expr(_) => []
    case List(es) =>
      if ty == Record(r) then (if f < |es| then [[f]] else [])
      else CollectTo(rs, r, f, ty, es, |es|)
  }

  // The same for the first i children of a list.
  function CollectTo(rs: Records, r: nat, f: nat, ty: Type, es: seq<Init>, i: nat): seq<Position>
    requires i <= |es|
    decreases es, i
  {
    if i == 0 then []
    else CollectTo(rs, r, f, ty, es, i - 1) + CollectChild(rs, r, f, ty, es, i - 1)
  }

  function CollectChild(rs: Records, r: nat, f: nat, ty: Type, es: seq<Init>, i: nat): seq<Position>
    requires i < |es|
    decreases es, i, 0
  {
    match ChildType(rs, ty, i)
    case None => []
    case Some(child) => Under([i], Collect(rs, r, f, child, es[i]))
  }

  function Under(at: Position, ps: seq<Position>): seq<Position> {
    seq(|ps|, j requires 0 <= j < |ps| => at + ps[j])
  }

  lemma UnderConcat(at: Position, a: seq<Position>, b: seq<Position>)
    ensures Under(at, a + b) == Under(at, a) + Under(at, b)
  {
  }

  lemma UnderNothing(a: seq<Position>)
    ensures Under([], a) == a
  {
    forall j | 0 <= j < |a|
      ensures Under([], a)[j] == a[j]
    {
      assert [] + a[j] == a[j];
    }
  }

  lemma UnderUnder(at: Position, i: nat, a: seq<Position>)
    ensures Under(at, Under([i], a)) == Under(at + [i], a)
  {
    forall j | 0 <= j < |a|
      ensures at + ([i] + a[j]) == at + [i] + a[j]
    {
    }
  }

  // Exactly the initialisers of the field are collected.
  lemma {:induction false} CollectsTargets(rs: Records, r: nat, f: nat, ty: Type, init: Init, pos: Position)
    ensures pos in Collect(rs, r, f, ty, init) <==> IsTarget(rs, r, f, ty, init, pos)
    decreases init, 0
  {
    if init.List? && ty != Record(r) {
      CollectsTargetsTo(rs, r, f, ty, init.inits, |init.inits|, pos);
    }
  }

  lemma {:induction false} CollectsTargetsTo(rs: Records, r: nat, f: nat, ty: Type, es: seq<Init>, i: nat, pos: Position)
    requires i <= |es| && ty != Record(r)
    ensures pos in CollectTo(rs, r, f, ty, es, i) <==> IsTarget(rs, r, f, ty, List(es), pos) && pos[0] < i
    decreases es, i
  {
    if i > 0 {
      CollectsTargetsTo(rs, r, f, ty, es, i - 1, pos);
      match ChildType(rs, ty, i - 1) {
        case None =>
        case Some(child) =>
          var inner := Collect(rs, r, f, child, es[i - 1]);
          if pos != [] {
            CollectsTargets(rs, r, f, child, es[i - 1], pos[1..]);
            InUnder(i - 1, inner, pos);
          }
      }
    }
  }

  lemma InUnder(i: nat, ps: seq<Position>, pos: Position)
    requires pos != []
    ensures pos in Under([i], ps) <==> pos[0] == i && pos[1..] in ps
  {
    if pos[0] == i && pos[1..] in ps {
      var j :| 0 <= j < |ps| && ps[j] == pos[1..];
      assert Under([i], ps)[j] == [i] + pos[1..] == pos;
    }
    if pos in Under([i], ps) {
      var j :| 0 <= j < |ps| && Under([i], ps)[j] == pos;
      assert pos[1..] == ps[j];
    }
  }

  // p stands before q in the source text.
  predicate Before(p: Position, q: Position) {
    p != [] && q != [] && (p[0] < q[0] || (p[0] == q[0] && Before(p[1..], q[1..])))
  }

  predicate Ascending(ps: seq<Position>) {
    forall i, j :: 0 <= i < j < |ps| ==> Before(ps[i], ps[j])
  }

  // Each is collected once, in source order.
  lemma {:induction false} CollectAscending(rs: Records, r: nat, f: nat, ty: Type, init: Init)
    ensures Ascending(Collect(rs, r, f, ty, init))
    decreases init, 0
  {
    if init.List? && ty != Record(r) {
      CollectAscendingTo(rs, r, f, ty, init.inits, |init.inits|);
    }
  }

  lemma {:induction false} CollectAscendingTo(rs: Records, r: nat, f: nat, ty: Type, es: seq<Init>, i: nat)
    requires i <= |es|
    ensures Ascending(CollectTo(rs, r, f, ty, es, i))
    ensures forall p :: p in CollectTo(rs, r, f, ty, es, i) ==> p != [] && p[0] < i
    decreases es, i
  {
    if i > 0 {
      CollectAscendingTo(rs, r, f, ty, es, i - 1);
      if ChildType(rs, ty, i - 1).Some? {
        var child := ChildType(rs, ty, i - 1).value;
        CollectAscending(rs, r, f, child, es[i - 1]);
        AscendingMore(CollectTo(rs, r, f, ty, es, i - 1), i - 1, Collect(rs, r, f, child, es[i - 1]));
      }
    }
  }

  lemma AscendingMore(ps: seq<Position>, i: nat, inner: seq<Position>)
    requires Ascending(ps) && (forall p :: p in ps ==> p != [] && p[0] < i) && Ascending(inner)
    ensures Ascending(ps + Under([i], inner))
    ensures forall p :: p in ps + Under([i], inner) ==> p != [] && p[0] < i + 1
  {
    var all, under := ps + Under([i], inner), Under([i], inner);
    forall j | 0 <= j < |inner|
      ensures under[j] != [] && under[j][0] == i && under[j][1..] == inner[j]
    {
    }
    forall j, k | 0 <= j < k < |all|
      ensures Before(all[j], all[k])
    {
      if k < |ps| {
        assert all[j] == ps[j] && all[k] == ps[k];
      } else if j < |ps| {
        assert all[j] == ps[j] && ps[j] in ps && all[k] == under[k - |ps|];
      } else {
        assert all[j] == under[j - |ps|] && all[k] == under[k - |ps|];
      }
    }
  }

  // Removing what is collected keeps the value at every other path of a declared variable.
  lemma FieldRemovalKeepsValues(rs: Records, r: nat, f: nat, ty: Type, init: Init, ps: set<Position>, path: seq<Step>)
    requires r < |rs| && f < |rs[r]|
    requires forall p :: p in ps <==> p in Collect(rs, r, f, ty, init)
    requires PathBeside(rs, ty, path, r, f)
    ensures WellFormed(WithoutField(rs, r, f))
    ensures Read(WithoutField(rs, r, f), ty, Some(Remove(init, ps, [])), path) == Read(rs, ty, Some(init), path)
  {
    forall pos: Position
      ensures [] + pos in ps <==> IsTarget(rs, r, f, ty, init, pos)
    {
      assert [] + pos == pos;
      CollectsTargets(rs, r, f, ty, init, pos);
    }
    ReadPreserved(rs, r, f, ty, init, ps, [], path);
  }

  // ----- Index vectors -----

  // The fields of record q on the way to field f of record r.
  function Vec(rs: Records, r: nat, f: nat, q: nat): seq<nat>
    requires q < |rs|
    decreases q + 1, 0
  {
    if q == r then [f] else VecTo(rs, r, f, q, |rs[q]|)
  }

  function VecTo(rs: Records, r: nat, f: nat, q: nat, k: nat): seq<nat>
    requires q < |rs| && k <= |rs[q]|
    decreases q, k + 1
  {
    if k == 0 then [] else if Leads(rs, r, f, q, k - 1) then VecTo(rs, r, f, q, k - 1) + [k - 1] else VecTo(rs, r, f, q, k - 1)
  }

  predicate Leads(rs: Records, r: nat, f: nat, q: nat, k: nat)
    requires q < |rs| && k < |rs[q]|
    decreases q, k + 1, 0
  {
    BaseRecord(rs[q][k].ty).Some? && Vec(rs, r, f, BaseRecord(rs[q][k].ty).value) != []
  }

  predicate Increasing(vec: seq<nat>) {
    forall i, j :: 0 <= i < j < |vec| ==> vec[i] < vec[j]
  }

  // An index vector is strictly increasing and holds just the leading fields.
  lemma {:induction false} VecAscends(rs: Records, r: nat, f: nat, q: nat, k: nat)
    requires q < |rs| && k <= |rs[q]|
    ensures Increasing(VecTo(rs, r, f, q, k))
    ensures forall x: nat :: x in VecTo(rs, r, f, q, k) <==> x < k && Leads(rs, r, f, q, x)
  {
    if k > 0 {
      VecAscends(rs, r, f, q, k - 1);
      var v := VecTo(rs, r, f, q, k - 1);
      assert forall i :: 0 <= i < |v| ==> v[i] in v;
    }
  }

  // Nothing is collected below a type without an index vector.
  lemma {:induction false} NoVecCollectsNothing(rs: Records, r: nat, f: nat, ty: Type, init: Init)
    requires r < |rs|
    requires BaseRecord(ty).Some? && BaseRecord(ty).value < |rs| ==> Vec(rs, r, f, BaseRecord(ty).value) == []
    ensures Collect(rs, r, f, ty, init) == []
    decreases init, 0
  {
    if init.List? {
      NoVecCollectsNothingTo(rs, r, f, ty, init.inits, |init.inits|);
    }
  }

  lemma {:induction false} NoVecCollectsNothingTo(rs: Records, r: nat, f: nat, ty: Type, es: seq<Init>, i: nat)
    requires i <= |es| && r < |rs|
    requires BaseRecord(ty).Some? && BaseRecord(ty).value < |rs| ==> Vec(rs, r, f, BaseRecord(ty).value) == []
    ensures CollectTo(rs, r, f, ty, es, i) == []
    decreases es, i
  {
    if i > 0 {
      NoVecCollectsNothingTo(rs, r, f, ty, es, i - 1);
      if ChildType(rs, ty, i - 1).Some? {
        if ty.Record? {
          VecAscends(rs, r, f, ty.id, |rs[ty.id]|);
          assert !Leads(rs, r, f, ty.id, i - 1);
        }
        NoVecCollectsNothing(rs, r, f, ChildType(rs, ty, i - 1).value, es[i - 1]);
      }
    }
  }

  // Fields that are not in the index vector contribute nothing.
  lemma {:induction false} SkipTo(rs: Records, r: nat, f: nat, q: nat, es: seq<Init>, i: nat, k: nat)
    requires q < |rs| && q != r && r < |rs| && i <= k <= |es|
    requires forall x: nat :: i <= x < k ==> x !in Vec(rs, r, f, q)
    ensures CollectTo(rs, r, f, Record(q), es, k) == CollectTo(rs, r, f, Record(q), es, i)
    decreases k
  {
    if i < k {
      SkipTo(rs, r, f, q, es, i, k - 1);
      if k - 1 < |rs[q]| {
        VecAscends(rs, r, f, q, |rs[q]|);
        assert k - 1 !in Vec(rs, r, f, q);
        NoVecCollectsNothing(rs, r, f, rs[q][k - 1].ty, es[k - 1]);
      }
    }
  }

  // What lies between two neighbours of an increasing vector, before its first entry or after its last.
  lemma Between(vec: seq<nat>, n: nat)
    requires n <= |vec| && Increasing(vec)
    ensures forall x: nat :: (n == 0 || vec[n - 1] < x) && (n == |vec| || x < vec[n]) ==> x !in vec
  {
    forall x: nat | (n == 0 || vec[n - 1] < x) && (n == |vec| || x < vec[n])
      ensures x !in vec
    {
      forall i | 0 <= i < |vec|
        ensures vec[i] != x
      {
        assert i < n ==> vec[i] <= vec[n - 1];
        assert i >= n ==> vec[n] <= vec[i];
      }
    }
  }

  // The first child after the fields before entry n.
  function After(vec: seq<nat>, n: nat): nat
    requires n <= |vec|
  {
    if n == 0 then 0 else vec[n - 1] + 1
  }

  // Nothing is collected between the fields before entry n of the index vector and child k,
  // when k is not beyond that entry.
  lemma SkipToEntry(rs: Records, r: nat, f: nat, q: nat, es: seq<Init>, n: nat, k: nat)
    requires q < |rs| && r < |rs| && q != r
    requires
      var vec := Vec(rs, r, f, q);
      n <= |vec| && (n == 0 || vec[n - 1] < k) && k <= |es| && (n == |vec| || k <= vec[n])
    ensures CollectTo(rs, r, f, Record(q), es, k) == CollectTo(rs, r, f, Record(q), es, After(Vec(rs, r, f, q), n))
  {
    var vec := Vec(rs, r, f, q);
    VecAscends(rs, r, f, q, |rs[q]|);
    assert vec == VecTo(rs, r, f, q, |rs[q]|);
    Between(vec, n);
    SkipTo(rs, r, f, q, es, After(vec, n), k);
  }

  // ----- The order of the visits -----

  function VecOf(m: map<nat, seq<nat>>, q: nat): seq<nat> {
    if q in m then m[q] else []
  }

  function Extended(m: map<nat, seq<nat>>, q: nat, vec: seq<nat>): map<nat, seq<nat>> {
    if vec == [] then m else m[q := vec]
  }

  // Among the first k fields of record q, those whose records have a vector already.
  function OnTheWay(rs: Records, m: map<nat, seq<nat>>, q: nat, k: nat): seq<nat>
    requires q < |rs| && k <= |rs[q]|
  {
    if k == 0 then []
    else
      var base := BaseRecord(rs[q][k - 1].ty);
      OnTheWay(rs, m, q, k - 1) + if base.Some? && base.value in m then [k - 1] else []
  }

  predicate AllKnown(rs: Records, order: seq<nat>) {
    forall i :: 0 <= i < |order| ==> order[i] < |rs|
  }

  // RecordDeclToField after visits of the records in some order.
  function Found(rs: Records, r: nat, f: nat, order: seq<nat>): map<nat, seq<nat>>
    requires AllKnown(rs, order)
  {
    if order == [] then map[r := [f]]
    else
      var q := order[|order| - 1];
      var m := Found(rs, r, f, order[..|order| - 1]);
      if q in m then m else Extended(m, q, OnTheWay(rs, m, q, |rs[q]|))
  }

  lemma {:induction false} FoundKeys(rs: Records, r: nat, f: nat, order: seq<nat>)
    requires AllKnown(rs, order)
    ensures r in Found(rs, r, f, order) && Found(rs, r, f, order)[r] == [f]
    ensures forall q :: q in Found(rs, r, f, order) ==> (q == r || q in order) && Found(rs, r, f, order)[q] != []
  {
    if order != [] {
      var before := order[..|order| - 1];
      assert order == before + [order[|order| - 1]];
      FoundKeys(rs, r, f, before);
    }
  }

  lemma FoundNext(rs: Records, r: nat, f: nat, order: seq<nat>, q: nat)
    requires AllKnown(rs, order) && q < |rs|
    ensures AllKnown(rs, order + [q]) && r in Found(rs, r, f, order)
    ensures
      var m := Found(rs, r, f, order);
      Found(rs, r, f, order + [q]) == if q in m then m else Extended(m, q, OnTheWay(rs, m, q, |rs[q]|))
  {
    assert (order + [q])[..|order|] == order;
    FoundKeys(rs, r, f, order);
  }

  lemma {:induction false} InOnTheWay(rs: Records, m: map<nat, seq<nat>>, q: nat, k: nat, idx: nat)
    requires q < |rs| && k <= |rs[q]|
    ensures idx in OnTheWay(rs, m, q, k) <==>
            idx < k && BaseRecord(rs[q][idx].ty).Some? && BaseRecord(rs[q][idx].ty).value in m
  {
    if k > 0 {
      InOnTheWay(rs, m, q, k - 1, idx);
    }
  }

  // Fields that lead on have records that have been visited before.
  ghost predicate LedFrom(rs: Records, r: nat, f: nat, q: nat, before: seq<nat>)
    requires q < |rs|
  {
    forall idx :: 0 <= idx < |rs[q]| && Leads(rs, r, f, q, idx) ==>
      var base := BaseRecord(rs[q][idx].ty).value;
      base == r || base in before
  }

  // Every record comes after those in it that lead on.
  ghost predicate InsideFirst(rs: Records, r: nat, f: nat, order: seq<nat>)
    requires AllKnown(rs, order)
  {
    forall i :: 0 <= i < |order| && order[i] != r ==> LedFrom(rs, r, f, order[i], order[..i])
  }

  // The vectors of the visited records are complete.
  ghost predicate Right(rs: Records, r: nat, f: nat, m: map<nat, seq<nat>>, order: seq<nat>)
    requires AllKnown(rs, order)
  {
    forall i :: 0 <= i < |order| ==> VecOf(m, order[i]) == Vec(rs, r, f, order[i])
  }

  lemma {:induction false} WayIsVec(rs: Records, r: nat, f: nat, m: map<nat, seq<nat>>, q: nat, k: nat, before: seq<nat>)
    requires q < |rs| && k <= |rs[q]| && AllKnown(rs, before)
    requires LedFrom(rs, r, f, q, before) && Right(rs, r, f, m, before)
    requires r in m && m[r] == [f] && forall x :: x in m ==> (x == r || x in before) && m[x] != []
    ensures OnTheWay(rs, m, q, k) == VecTo(rs, r, f, q, k)
  {
    if k > 0 {
      WayIsVec(rs, r, f, m, q, k - 1, before);
      var base := BaseRecord(rs[q][k - 1].ty);
      if base.Some? && base.value != r && base.value in before {
        var i :| 0 <= i < |before| && before[i] == base.value;
        assert VecOf(m, before[i]) == Vec(rs, r, f, before[i]);
      }
      assert Leads(rs, r, f, q, k - 1) <==> base.Some? && base.value in m;
      assert OnTheWay(rs, m, q, k - 1) + [] == OnTheWay(rs, m, q, k - 1);
    }
  }

  lemma InsideFirstPrefix(rs: Records, r: nat, f: nat, order: seq<nat>)
    requires AllKnown(rs, order) && order != [] && InsideFirst(rs, r, f, order)
    ensures InsideFirst(rs, r, f, order[..|order| - 1])
  {
    var before := order[..|order| - 1];
    forall i | 0 <= i < |before| && before[i] != r
      ensures LedFrom(rs, r, f, before[i], before[..i])
    {
      assert order[i] == before[i] && order[..i] == before[..i];
    }
  }

  lemma {:induction false} FoundRight(rs: Records, r: nat, f: nat, order: seq<nat>)
    requires AllKnown(rs, order) && InsideFirst(rs, r, f, order)
    ensures Right(rs, r, f, Found(rs, r, f, order), order)
  {
    if order != [] {
      var last := |order| - 1;
      var before, q := order[..last], order[last];
      assert order == before + [q];
      InsideFirstPrefix(rs, r, f, order);
      FoundRight(rs, r, f, before);
      FoundKeys(rs, r, f, before);
      if q != r {
        WayIsVec(rs, r, f, Found(rs, r, f, before), q, |rs[q]|, before);
      }
    }
  }

  // A visited record has the vector it got at its visit.
  lemma {:induction false} FoundAt(rs: Records, r: nat, f: nat, order: seq<nat>, i: nat)
    requires AllKnown(rs, order) && NoDuplicates(order) && i < |order| && order[i] != r
    ensures AllKnown(rs, order[..i])
    ensures VecOf(Found(rs, r, f, order), order[i]) == OnTheWay(rs, Found(rs, r, f, order[..i]), order[i], |rs[order[i]]|)
  {
    var last := |order| - 1;
    var before := order[..last];
    if i == last {
      FoundKeys(rs, r, f, before);
      assert order[last] !in before;
    } else {
      assert before[..i] == order[..i] && before[i] == order[i] && order[i] != order[last];
      FoundAt(rs, r, f, before, i);
      FoundElsewhere(rs, r, f, order, order[i]);
    }
  }

  lemma FoundElsewhere(rs: Records, r: nat, f: nat, order: seq<nat>, x: nat)
    requires AllKnown(rs, order) && order != [] && x != order[|order| - 1]
    ensures VecOf(Found(rs, r, f, order), x) == VecOf(Found(rs, r, f, order[..|order| - 1]), x)
  {
  }

  // With each record visited once, the vectors are complete exactly when every record is visited after those
  // in it that lead to the field.
  lemma FoundRightIff(rs: Records, r: nat, f: nat, order: seq<nat>)
    requires AllKnown(rs, order) && NoDuplicates(order)
    ensures Right(rs, r, f, Found(rs, r, f, order), order) <==> InsideFirst(rs, r, f, order)
  {
    if InsideFirst(rs, r, f, order) {
      FoundRight(rs, r, f, order);
    } else {
      var i :| 0 <= i < |order| && order[i] != r && !LedFrom(rs, r, f, order[i], order[..i]);
      var q := order[i];
      var idx :| 0 <= idx < |rs[q]| && Leads(rs, r, f, q, idx)
                 && BaseRecord(rs[q][idx].ty).value != r && BaseRecord(rs[q][idx].ty).value !in order[..i];
      FoundAt(rs, r, f, order, i);
      FoundKeys(rs, r, f, order[..i]);
      InOnTheWay(rs, Found(rs, r, f, order[..i]), q, |rs[q]|, idx);
      VecAscends(rs, r, f, q, |rs[q]|);
      assert idx !in VecOf(Found(rs, r, f, order), q);
    }
  }

  // ----- What incomplete vectors lead to -----

  // The records as the vectors show them: a field that is in no vector counts as a scalar.
  function Shown(rs: Records, r: nat, m: map<nat, seq<nat>>): (shown: Records)
    ensures |shown| == |rs|
    ensures forall q :: 0 <= q < |rs| ==> shown[q] == ShownRecord(rs, r, m, q)
  {
    seq(|rs|, q requires 0 <= q < |rs| => ShownRecord(rs, r, m, q))
  }

  function ShownRecord(rs: Records, r: nat, m: map<nat, seq<nat>>, q: nat): (fs: seq<Field>)
    requires q < |rs|
    ensures |fs| == |rs[q]|
    ensures forall k: nat :: k < |fs| ==> fs[k] == if q == r || k in VecOf(m, q) then rs[q][k] else Field(rs[q][k].name, Scalar(""))
  {
    seq(|rs[q]|, k requires 0 <= k < |rs[q]| =>
      if q == r || k in VecOf(m, q) then rs[q][k] else Field(rs[q][k].name, Scalar("")))
  }

  // The vector of a record comes from the map at its visit.
  lemma {:induction false} MapAtVisit(rs: Records, r: nat, f: nat, order: seq<nat>, q: nat) returns (m: map<nat, seq<nat>>)
    requires AllKnown(rs, order) && q in Found(rs, r, f, order) && q != r
    ensures q < |rs| && m.Keys <= Found(rs, r, f, order).Keys
    ensures Found(rs, r, f, order)[q] == OnTheWay(rs, m, q, |rs[q]|)
  {
    var before := order[..|order| - 1];
    m := Found(rs, r, f, before);
    if q in m {
      m := MapAtVisit(rs, r, f, before, q);
    }
  }

  // The vectors found, in any order of the visits, are those of the records they show.
  lemma {:induction false} ShownVec(rs: Records, r: nat, f: nat, order: seq<nat>, q: nat)
    requires AllKnown(rs, order) && r < |rs| && q < |rs|
    ensures
      var m := Found(rs, r, f, order);
      VecOf(m, q) == Vec(Shown(rs, r, m), r, f, q)
    decreases q
  {
    var m := Found(rs, r, f, order);
    var shown := Shown(rs, r, m);
    FoundKeys(rs, r, f, order);
    if q != r {
      VecAscends(shown, r, f, q, |rs[q]|);
      if q in m {
        var m0 := MapAtVisit(rs, r, f, order, q);
        forall x: nat | x < |rs[q]|
          ensures Leads(shown, r, f, q, x) <==> BaseRecord(rs[q][x].ty).Some? && BaseRecord(rs[q][x].ty).value in m0
        {
          InOnTheWay(rs, m0, q, |rs[q]|, x);
          if BaseRecord(rs[q][x].ty).Some? {
            ShownVec(rs, r, f, order, BaseRecord(rs[q][x].ty).value);
          }
        }
        WayShown(rs, shown, r, f, m0, q, |rs[q]|);
      } else {
        NoneLeads(shown, r, f, q, |rs[q]|);
      }
    }
  }

  lemma {:induction false} NoneLeads(rs: Records, r: nat, f: nat, q: nat, k: nat)
    requires q < |rs| && k <= |rs[q]| && forall x: nat :: x < |rs[q]| ==> !Leads(rs, r, f, q, x)
    ensures VecTo(rs, r, f, q, k) == []
  {
    if k > 0 {
      NoneLeads(rs, r, f, q, k - 1);
    }
  }

  lemma {:induction false} WayShown(rs: Records, shown: Records, r: nat, f: nat, m: map<nat, seq<nat>>, q: nat, k: nat)
    requires q < |rs| == |shown| && k <= |rs[q]| == |shown[q]|
    requires forall x: nat :: x < |rs[q]| ==>
      (Leads(shown, r, f, q, x) <==> BaseRecord(rs[q][x].ty).Some? && BaseRecord(rs[q][x].ty).value in m)
    ensures OnTheWay(rs, m, q, k) == VecTo(shown, r, f, q, k)
  {
    if k > 0 {
      WayShown(rs, shown, r, f, m, q, k - 1);
      assert OnTheWay(rs, m, q, k - 1) + [] == OnTheWay(rs, m, q, k - 1);
    }
  }

  // Wherever the position enters a field of a record other than r, the vector of the record has that field.
  predicate Followed(rs: Records, r: nat, m: map<nat, seq<nat>>, ty: Type, pos: Position)
    decreases |pos|
  {
    || pos == [] || ty == Record(r)
    || (match ChildType(rs, ty, pos[0])
        case None => false
        case Some(child) => (ty.Record? ==> pos[0] in VecOf(m, ty.id)) && Followed(rs, r, m, child, pos[1..]))
  }

  // The vectors show those initialisers of the field that they lead to.
  lemma {:induction false} TargetsShown(rs: Records, r: nat, f: nat, m: map<nat, seq<nat>>, ty: Type, init: Init, pos: Position)
    ensures IsTarget(Shown(rs, r, m), r, f, ty, init, pos) <==>
            IsTarget(rs, r, f, ty, init, pos) && Followed(rs, r, m, ty, pos)
    decreases |pos|
  {
    if pos != [] && init.List? && pos[0] < |init.inits| && ty != Record(r) && ChildType(rs, ty, pos[0]).Some? {
      TargetsShown(rs, r, f, m, ChildType(rs, ty, pos[0]).value, init.inits[pos[0]], pos[1..]);
    }
  }

  // What is left of an initialiser when those initialisers of the field are removed that the vectors lead to.
  ghost predicate RemovedAlong(rs: Records, r: nat, f: nat, m: map<nat, seq<nat>>, ty: Type, init: Init, removed: Init) {
    exists ps: set<Position> :: removed == Remove(init, ps, []) && TargetsAlong(rs, r, f, m, ty, init, ps)
  }

  ghost predicate TargetsAlong(rs: Records, r: nat, f: nat, m: map<nat, seq<nat>>, ty: Type, init: Init, ps: set<Position>) {
    forall pos :: pos in ps <==> IsTarget(rs, r, f, ty, init, pos) && Followed(rs, r, m, ty, pos)
  }

  lemma CollectedAlong(rs: Records, r: nat, f: nat, m: map<nat, seq<nat>>, ty: Type, init: Init)
    ensures RemovedAlong(rs, r, f, m, ty, init, Remove(init, Elements(Collect(Shown(rs, r, m), r, f, ty, init)), []))
  {
    var ps := Elements(Collect(Shown(rs, r, m), r, f, ty, init));
    forall pos
      ensures pos in ps <==> IsTarget(rs, r, f, ty, init, pos) && Followed(rs, r, m, ty, pos)
    {
      CollectsTargets(Shown(rs, r, m), r, f, ty, init, pos);
      TargetsShown(rs, r, f, m, ty, init, pos);
    }
    assert TargetsAlong(rs, r, f, m, ty, init, ps);
  }

  // No vector of the record: nothing is removed.
  lemma NothingRemoved(rs: Records, r: nat, f: nat, m: map<nat, seq<nat>>, q: nat, init: Init, removed: Init)
    requires q != r && q !in m && RemovedAlong(rs, r, f, m, Record(q), init, removed)
    ensures removed == init
  {
    var ps :| removed == Remove(init, ps, []) && TargetsAlong(rs, r, f, m, Record(q), init, ps);
    forall pos
      ensures pos !in ps
    {
    }
    RemoveNone(init, ps, []);
  }

  lemma {:induction false} RemoveNone(init: Init, ps: set<Position>, at: Position)
    requires forall pos :: pos !in ps
    ensures Remove(init, ps, at) == init
    decreases init
  {
    if init.List? {
      RemoveFromShape(init.inits, 0, ps, at);
      forall k | 0 <= k < |init.inits|
        ensures RemoveFrom(init.inits, 0, ps, at)[k] == init.inits[k]
      {
        RemoveNone(init.inits[k], ps, at + [k]);
      }
    }
  }

  // Records defined inside others are met after them: in struct A { struct B { struct C { int x; int y; } c; } b; }
  // with x removed, A gets no vector, and the initialisers of its variables keep the value for x.
  lemma OuterMetFirst(rs: Records)
    requires |rs| == 3 && |rs[0]| == 2 && |rs[1]| == 1 && |rs[2]| == 1
    requires rs[1][0].ty == Record(0) && rs[2][0].ty == Record(1)
    ensures Vec(rs, 0, 0, 2) == [0] && 2 !in Found(rs, 0, 0, [2, 1, 0])
  {
    var order: seq<nat> := [2, 1, 0];
    assert order[..2] == [2, 1] && [2, 1][..1] == [2 as nat] && [2 as nat][..0] == [];
    assert Vec(rs, 0, 0, 1) == [0];
    var base: map<nat, seq<nat>> := map[0 := [0]];
    assert Found(rs, 0, 0, []) == base && OnTheWay(rs, base, 2, 0) == [];
    assert OnTheWay(rs, base, 2, 1) == [];
    assert Found(rs, 0, 0, [2]) == base;
  }

  // So a variable of A is left as it is.
  lemma OuterKeepsAll(rs: Records, init: Init, removed: Init)
    requires |rs| == 3 && |rs[0]| == 2 && |rs[1]| == 1 && |rs[2]| == 1
    requires rs[1][0].ty == Record(0) && rs[2][0].ty == Record(1)
    requires RemovedAlong(rs, 0, 0, Found(rs, 0, 0, [2, 1, 0]), Record(2), init, removed)
    ensures removed == init
  {
    OuterMetFirst(rs);
    NothingRemoved(rs, 0, 0, Found(rs, 0, 0, [2, 1, 0]), 2, init, removed);
  }

  // The second map follows the first one.
  ghost predicate Linked(rs: Records, r: nat, f: nat, rtf: map<nat, seq<nat>>, ftv: map<FieldId, seq<nat>>) {
    && (forall d {:trigger d in ftv} :: d in ftv <==> d.rec in rtf && d.idx in rtf[d.rec])
    && (forall d {:trigger ftv[d]} :: d in ftv ==> LinkedAt(rs, r, f, rtf, d, ftv[d]))
  }

  ghost predicate LinkedAt(rs: Records, r: nat, f: nat, rtf: map<nat, seq<nat>>, d: FieldId, vec: seq<nat>) {
    if d.rec == r then vec == [f]
    else
      && d.rec < |rs| && d.idx < |rs[d.rec]| && BaseRecord(rs[d.rec][d.idx].ty).Some?
      && BaseRecord(rs[d.rec][d.idx].ty).value in rtf && vec == rtf[BaseRecord(rs[d.rec][d.idx].ty).value]
  }

  // The records in record q that lead to the field have been visited, each after those inside it that do.
  ghost predicate Led(rs: Records, r: nat, f: nat, q: nat, order: seq<nat>)
    requires q < |rs|
    decreases q, |order|
  {
    || q == r || Vec(rs, r, f, q) == []
    || (order != [] &&
        var before := order[..|order| - 1];
        if q in before then Led(rs, r, f, q, before) else order[|order| - 1] == q && LedInside(rs, r, f, q, before))
  }

  ghost predicate LedInside(rs: Records, r: nat, f: nat, q: nat, order: seq<nat>)
    requires q < |rs|
    decreases q, |order|
  {
    forall idx: nat :: idx < |rs[q]| && Leads(rs, r, f, q, idx) ==> Led(rs, r, f, BaseRecord(rs[q][idx].ty).value, order)
  }

  lemma LedMore(rs: Records, r: nat, f: nat, q: nat, order: seq<nat>, x: nat)
    requires q < |rs| && Led(rs, r, f, q, order)
    ensures Led(rs, r, f, q, order + [x])
  {
    assert (order + [x])[..|order|] == order;
    if q != r && Vec(rs, r, f, q) != [] {
      assert order == order[..|order| - 1] + [order[|order| - 1]];
    }
  }

  lemma {:induction false} LedBelow(rs: Records, r: nat, f: nat, q: nat, idx: nat, order: seq<nat>)
    requires q < |rs| && q != r && Led(rs, r, f, q, order) && idx < |rs[q]| && Leads(rs, r, f, q, idx)
    ensures Led(rs, r, f, BaseRecord(rs[q][idx].ty).value, order)
    decreases |order|
  {
    VecAscends(rs, r, f, q, |rs[q]|);
    assert idx in Vec(rs, r, f, q);
    var before := order[..|order| - 1];
    assert order == before + [order[|order| - 1]];
    if q in before {
      LedBelow(rs, r, f, q, idx, before);
    }
    LedMore(rs, r, f, BaseRecord(rs[q][idx].ty).value, before, order[|order| - 1]);
  }

  // Only records that lead to the field get a vector, whatever the order.
  lemma {:induction false} FoundLead(rs: Records, r: nat, f: nat, order: seq<nat>)
    requires AllKnown(rs, order) && r < |rs|
    ensures forall x :: x in Found(rs, r, f, order) ==> x < |rs| && Vec(rs, r, f, x) != []
  {
    if order != [] {
      var before, q := order[..|order| - 1], order[|order| - 1];
      var m := Found(rs, r, f, before);
      FoundLead(rs, r, f, before);
      var way := OnTheWay(rs, m, q, |rs[q]|);
      if q !in m && way != [] {
        InOnTheWay(rs, m, q, |rs[q]|, way[0]);
        assert way[0] in way && Leads(rs, r, f, q, way[0]);
        VecAscends(rs, r, f, q, |rs[q]|);
      }
    }
  }

  // The vectors of such records are complete.
  lemma {:induction false} LedFound(rs: Records, r: nat, f: nat, q: nat, order: seq<nat>)
    requires AllKnown(rs, order) && r < |rs| && q < |rs| && Led(rs, r, f, q, order)
    ensures VecOf(Found(rs, r, f, order), q) == Vec(rs, r, f, q)
    decreases q, |order|
  {
    FoundKeys(rs, r, f, order);
    FoundLead(rs, r, f, order);
    if q != r && Vec(rs, r, f, q) != [] {
      var before := order[..|order| - 1];
      FoundKeys(rs, r, f, before);
      if q in before {
        LedFound(rs, r, f, q, before);
      } else {
        LedWay(rs, r, f, q, |rs[q]|, before);
      }
    }
  }

  lemma {:induction false} LedWay(rs: Records, r: nat, f: nat, q: nat, k: nat, before: seq<nat>)
    requires AllKnown(rs, before) && r < |rs| && q < |rs| && k <= |rs[q]| && LedInside(rs, r, f, q, before)
    ensures OnTheWay(rs, Found(rs, r, f, before), q, k) == VecTo(rs, r, f, q, k)
    decreases q, |before|, k
  {
    if k > 0 {
      var m, base := Found(rs, r, f, before), BaseRecord(rs[q][k - 1].ty);
      LedWay(rs, r, f, q, k - 1, before);
      FoundLead(rs, r, f, before);
      if Leads(rs, r, f, q, k - 1) {
        LedFound(rs, r, f, base.value, before);
      }
      assert Leads(rs, r, f, q, k - 1) <==> base.Some? && base.value in m;
      assert OnTheWay(rs, m, q, k - 1) + [] == OnTheWay(rs, m, q, k - 1);
    }
  }

  // So it is for every record visited, when each comes after those inside it that lead on.
  lemma {:induction false} InsideFirstLed(rs: Records, r: nat, f: nat, order: seq<nat>, q: nat)
    requires AllKnown(rs, order) && q in order && InsideFirst(rs, r, f, order)
    ensures Led(rs, r, f, q, order)
    decreases |order|
  {
    var last := |order| - 1;
    var before := order[..last];
    assert order == before + [order[last]];
    InsideFirstPrefix(rs, r, f, order);
    if q in before {
      InsideFirstLed(rs, r, f, before, q);
    } else if q != r {
      assert order[last] == q && order[..last] == before;
      assert LedFrom(rs, r, f, q, before);
      forall idx: nat | idx < |rs[q]| && Leads(rs, r, f, q, idx)
        ensures Led(rs, r, f, BaseRecord(rs[q][idx].ty).value, before)
      {
        if BaseRecord(rs[q][idx].ty).value != r {
          InsideFirstLed(rs, r, f, before, BaseRecord(rs[q][idx].ty).value);
        }
      }
    }
  }

  // All initialisers of the field are reached when the records have been visited in a right order.
  lemma {:induction false} LedFollowed(rs: Records, r: nat, f: nat, ty: Type, init: Init, order: seq<nat>, pos: Position)
    requires AllKnown(rs, order) && r < |rs| && LedType(rs, r, f, ty, order)
    requires IsTarget(rs, r, f, ty, init, pos)
    ensures Followed(rs, r, Found(rs, r, f, order), ty, pos)
    decreases |pos|
  {
    if ty != Record(r) {
      var child, rest := ChildType(rs, ty, pos[0]).value, init.inits[pos[0]];
      CollectsTargets(rs, r, f, child, rest, pos[1..]);
      if ty.Record? {
        if !Leads(rs, r, f, ty.id, pos[0]) {
          NoVecCollectsNothing(rs, r, f, child, rest);
        }
        LedFound(rs, r, f, ty.id, order);
        VecAscends(rs, r, f, ty.id, |rs[ty.id]|);
        LedBelow(rs, r, f, ty.id, pos[0], order);
      }
      LedFollowed(rs, r, f, child, rest, order, pos[1..]);
    }
  }

  ghost predicate LedType(rs: Records, r: nat, f: nat, ty: Type, order: seq<nat>) {
    BaseRecord(ty).Some? ==> BaseRecord(ty).value < |rs| && Led(rs, r, f, BaseRecord(ty).value, order)
  }

  // Entry n of an index vector is a field that leads on, and the entries increase.
  lemma VecEntry(rs: Records, r: nat, f: nat, q: nat, n: nat)
    requires q < |rs| && q != r && n < |Vec(rs, r, f, q)|
    ensures
      var vec := Vec(rs, r, f, q);
      vec[n] < |rs[q]| && Leads(rs, r, f, q, vec[n]) && (n > 0 ==> vec[n - 1] < vec[n])
  {
    VecAscends(rs, r, f, q, |rs[q]|);
    assert VecTo(rs, r, f, q, |rs[q]|)[n] in VecTo(rs, r, f, q, |rs[q]|);
  }

  // The entries of the first k fields of record q are there besides the old ones.
  ghost predicate FieldsLinked(rs: Records, q: nat, k: nat, rtf: map<nat, seq<nat>>, ftv: map<FieldId, seq<nat>>,
                               ftv': map<FieldId, seq<nat>>)
    requires q < |rs| && k <= |rs[q]|
  {
    && (forall d {:trigger d in ftv'} :: d in ftv' <==> d in ftv || (d.rec == q && d.idx in OnTheWay(rs, rtf, q, k)))
    && (forall d {:trigger ftv'[d]} :: d in ftv' ==>
          if d.rec == q && d.idx in OnTheWay(rs, rtf, q, k) then EntryIs(rs, q, d.idx, rtf, ftv'[d])
          else d in ftv && ftv'[d] == ftv[d])
  }

  ghost predicate EntryIs(rs: Records, q: nat, idx: nat, rtf: map<nat, seq<nat>>, vec: seq<nat>)
    requires q < |rs|
  {
    && idx < |rs[q]| && BaseRecord(rs[q][idx].ty).Some? && BaseRecord(rs[q][idx].ty).value in rtf
    && vec == rtf[BaseRecord(rs[q][idx].ty).value]
  }

  predicate EntryIsThere(rs: Records, q: nat, idx: nat, rtf: map<nat, seq<nat>>)
    requires q < |rs| && idx < |rs[q]|
  {
    BaseRecord(rs[q][idx].ty).Some? && BaseRecord(rs[q][idx].ty).value in rtf
  }

  lemma FieldLinked(rs: Records, q: nat, idx: nat, rtf: map<nat, seq<nat>>, ftv: map<FieldId, seq<nat>>,
                    mid: map<FieldId, seq<nat>>, ftv': map<FieldId, seq<nat>>)
    requires q < |rs| && idx < |rs[q]| && FieldsLinked(rs, q, idx, rtf, ftv, mid)
    requires
      var base := BaseRecord(rs[q][idx].ty);
      ftv' == if base.Some? && base.value in rtf then mid[FieldId(q, idx) := rtf[base.value]] else mid
    ensures FieldsLinked(rs, q, idx + 1, rtf, ftv, ftv')
  {
    var vec, vec' := OnTheWay(rs, rtf, q, idx), OnTheWay(rs, rtf, q, idx + 1);
    InOnTheWay(rs, rtf, q, idx, idx);
    forall x: nat
      ensures x in vec' <==> x in vec || (x == idx && EntryIsThere(rs, q, idx, rtf))
    {
    }
    forall d: FieldId
      ensures d in ftv' <==> d in ftv || (d.rec == q && d.idx in vec')
    {
    }
    forall d: FieldId | d in ftv'
      ensures if d.rec == q && d.idx in vec' then EntryIs(rs, q, d.idx, rtf, ftv'[d]) else d in ftv && ftv'[d] == ftv[d]
    {
      if d != FieldId(q, idx) {
        assert d in mid && ftv'[d] == mid[d];
      }
    }
  }

  lemma LinkedMore(rs: Records, r: nat, f: nat, q: nat, rtf: map<nat, seq<nat>>, ftv: map<FieldId, seq<nat>>,
                   ftv': map<FieldId, seq<nat>>)
    requires q < |rs| && q !in rtf && q != r && Linked(rs, r, f, rtf, ftv)
    requires FieldsLinked(rs, q, |rs[q]|, rtf, ftv, ftv')
    ensures Linked(rs, r, f, Extended(rtf, q, OnTheWay(rs, rtf, q, |rs[q]|)), ftv')
  {
    var vec := OnTheWay(rs, rtf, q, |rs[q]|);
    var rtf' := Extended(rtf, q, vec);
    forall d: FieldId
      ensures d in ftv' <==> d.rec in rtf' && d.idx in rtf'[d.rec]
      ensures d in ftv' ==> LinkedAt(rs, r, f, rtf', d, ftv'[d])
    {
      assert d in ftv <==> d.rec in rtf && d.idx in rtf[d.rec];
      assert d in ftv' <==> d in ftv || (d.rec == q && d.idx in vec);
      if d in ftv' && !(d.rec == q && d.idx in vec) {
        assert LinkedAt(rs, r, f, rtf, d, ftv[d]);
      }
    }
  }

  // ----- Collecting with the vector of one record -----

  // What has been collected from a record after n entries of its index vector.
  ghost function SoFar(rs: Records, r: nat, f: nat, q: nat, es: seq<Init>, at: Position, acc: seq<Position>, n: nat): seq<Position>
    requires q < |rs| && r < |rs| && n <= |Vec(rs, r, f, q)| && After(Vec(rs, r, f, q), n) <= |es|
  {
    if q == r then acc + if n == 0 then [] else [at + [f]]
    else acc + Under(at, CollectTo(rs, r, f, Record(q), es, After(Vec(rs, r, f, q), n)))
  }

  // Nothing is left when the vector ends, or the list ends before the next entry.
  lemma ShortListDone(rs: Records, r: nat, f: nat, q: nat, es: seq<Init>, at: Position, acc: seq<Position>, n: nat)
    requires q < |rs| && r < |rs| && f < |rs[r]|
    requires
      var vec := Vec(rs, r, f, q);
      n <= |vec| && After(vec, n) <= |es| && (n == |vec| || vec[n] >= |es|)
    ensures SoFar(rs, r, f, q, es, at, acc, n) == acc + Under(at, Collect(rs, r, f, Record(q), List(es)))
  {
    if q != r {
      if n < |Vec(rs, r, f, q)| {
        VecEntry(rs, r, f, q, n);
      }
      SkipToEntry(rs, r, f, q, es, n, |es|);
    }
  }

  // One entry collects the field itself, or what is inside the child.
  lemma OneMoreEntry(rs: Records, r: nat, f: nat, q: nat, es: seq<Init>, at: Position, acc: seq<Position>, n: nat)
    requires q < |rs| && r < |rs|
    requires
      var vec := Vec(rs, r, f, q);
      n < |vec| && After(vec, n) <= |es| && vec[n] < |es|
    ensures
      var idx := Vec(rs, r, f, q)[n];
      && (q != r ==> idx < |rs[q]|)
      && SoFar(rs, r, f, q, es, at, acc, n + 1) ==
         SoFar(rs, r, f, q, es, at, acc, n) +
         if q == r then [at + [idx]] else Under(at + [idx], Collect(rs, r, f, rs[q][idx].ty, es[idx]))
  {
    if q != r {
      VecEntry(rs, r, f, q, n);
      var idx := Vec(rs, r, f, q)[n];
      SkipToEntry(rs, r, f, q, es, n, idx);
      Collected(rs, r, f, at, idx, acc, Record(q), rs[q][idx].ty, es);
    }
  }

  lemma Collected(rs: Records, r: nat, f: nat, at: Position, i: nat, acc: seq<Position>, ty: Type, child: Type, es: seq<Init>)
    requires i < |es| && ChildType(rs, ty, i) == Some(child)
    ensures acc + Under(at, CollectTo(rs, r, f, ty, es, i + 1)) ==
            (acc + Under(at, CollectTo(rs, r, f, ty, es, i))) + Under(at + [i], Collect(rs, r, f, child, es[i]))
  {
    var inner := Collect(rs, r, f, child, es[i]);
    UnderConcat(at, CollectTo(rs, r, f, ty, es, i), Under([i], inner));
    UnderUnder(at, i, inner);
  }

  // ----- Runs -----

  // What the traversal meets, in the order of the text.
  datatype Decl = RecordDecl(q: nat) | VarDecl(ty: Type, init: Init)

  predicate AllDeclsKnown(rs: Records, decls: seq<Decl>) {
    forall i :: 0 <= i < |decls| ==>
      match decls[i]
      case RecordDecl(q) => q < |rs|
      case VarDecl(ty, _) => Known(rs, ty)
  }

  function RecordsIn(decls: seq<Decl>): seq<nat> {
    if decls == [] then []
    else
      var last := |decls| - 1;
      RecordsIn(decls[..last]) + if decls[last].RecordDecl? then [decls[last].q] else []
  }

  // A variable between records: in struct S { int x; int y; }; struct S v = { 1, 2 }; struct T { struct S s; };
  // with x removed, the record T has no vector yet when v is met, and v keeps its y.
  lemma MetBetween(rs: Records, init: Init)
    requires |rs| == 2 && |rs[0]| == 2 && |rs[1]| == 1 && rs[1][0].ty == Record(0)
    ensures
      var decls := [RecordDecl(0), VarDecl(Record(0), init), RecordDecl(1)];
      && RecordsIn(decls[..1]) == [0] && LedType(rs, 0, 0, Record(0), [0])
      && 1 !in Found(rs, 0, 0, [0]) && Vec(rs, 0, 0, 1) == [0]
  {
    var decls := [RecordDecl(0), VarDecl(Record(0), init), RecordDecl(1)];
    assert decls[..1] == [RecordDecl(0)] && decls[..1][..0] == [];
    assert [0 as nat][..0] == [];
    assert Found(rs, 0, 0, []) == map[0 := [0]];
    assert VecTo(rs, 0, 0, 1, 0) == [] && Leads(rs, 0, 0, 1, 0);
  }

  class RemoveUnusedStructField {
    const records: Records
    var recordToField: map<nat, seq<nat>>
    var fieldToIdxVector: map<FieldId, seq<nat>>
    var theRecord: nat
    var theField: nat
    // The records visited so far, in that order.
    ghost var visits: seq<nat>

    ghost predicate Valid()
      reads this
    {
      && theRecord < |records| && theField < |records[theRecord]| && AllKnown(records, visits)
      && recordToField == Found(records, theRecord, theField, visits)
      && Linked(records, theRecord, theField, recordToField, fieldToIdxVector)
    }

    // The records as the vectors found so far show them.
    ghost function View(): (shown: Records)
      requires theRecord < |records|
      reads this
      ensures |shown| == |records|
    {
      Shown(records, theRecord, recordToField)
    }

    // setBaseLine
    constructor (rs: Records, r: nat, f: nat)
      requires r < |rs| && f < |rs[r]|
      ensures Valid() && visits == [] && records == rs && theRecord == r && theField == f
    {
      records := rs;
      theRecord, theField, visits := r, f, [];
      recordToField := map[r := [f]];
      fieldToIdxVector := map[FieldId(r, f) := [f]];
    }

    // VisitRecordDecl, in any order of the records.
    method VisitRecordDecl(q: nat)
      requires Valid() && q < |records|
      modifies this`recordToField, this`fieldToIdxVector, this`visits
      ensures Valid() && visits == old(visits) + [q]
    {
      FoundNext(records, theRecord, theField, visits, q);
      if q !in recordToField {
        VisitFields(q);
        LinkedMore(records, theRecord, theField, q, old(recordToField), old(fieldToIdxVector), fieldToIdxVector);
      }
      visits := visits + [q];
    }

    method VisitFields(q: nat)
      requires q < |records| && q !in recordToField
      modifies this`recordToField, this`fieldToIdxVector
      ensures recordToField == Extended(old(recordToField), q, OnTheWay(records, old(recordToField), q, |records[q]|))
      ensures FieldsLinked(records, q, |records[q]|, old(recordToField), old(fieldToIdxVector), fieldToIdxVector)
    {
      ghost var rtf, ftv := recordToField, fieldToIdxVector;
      for idx := 0 to |records[q]|
        invariant recordToField == Extended(rtf, q, OnTheWay(records, rtf, q, idx))
        invariant FieldsLinked(records, q, idx, rtf, ftv, fieldToIdxVector)
      {
        var base := BaseRecord(records[q][idx].ty);
        ghost var vec := OnTheWay(records, rtf, q, idx);
        assert vec + [] == vec;
        if base.Some? {
          ghost var before := fieldToIdxVector;
          assert base.value in recordToField <==> base.value in rtf;
          assert VecOf(recordToField, q) == vec;
          assert recordToField[q := vec + [idx]] == Extended(rtf, q, vec + [idx]);
          HandleOneRecordDecl(q, base.value, idx);
          FieldLinked(records, q, idx, rtf, ftv, before, fieldToIdxVector);
        } else {
          FieldLinked(records, q, idx, rtf, ftv, fieldToIdxVector, fieldToIdxVector);
        }
      }
    }

    // handleOneRecordDecl: a field whose record leads to the chosen field leads there too.
    method HandleOneRecordDecl(q: nat, base: nat, idx: nat)
      modifies this`recordToField, this`fieldToIdxVector
      ensures base !in old(recordToField) ==>
        recordToField == old(recordToField) && fieldToIdxVector == old(fieldToIdxVector)
      ensures base in old(recordToField) ==>
        && recordToField == old(recordToField)[q := VecOf(old(recordToField), q) + [idx]]
        && fieldToIdxVector == old(fieldToIdxVector)[FieldId(q, idx) := old(recordToField)[base]]
    {
      if base !in recordToField {
        return;
      }
      var baseIdxVec := recordToField[base];
      if q !in recordToField {
        recordToField := recordToField[q := []];
      }
      recordToField := recordToField[q := recordToField[q] + [idx]];
      fieldToIdxVector := fieldToIdxVector[FieldId(q, idx) := baseIdxVec];
    }

    // getInitExprs: the initialisers to remove, after those in acc, following index vectors.
    method GetInitExprs(ty: Type, init: Init, idxVec: seq<nat>, at: Position, acc: seq<Position>) returns (initExprs: seq<Position>)
      requires Valid()
      requires BaseRecord(ty).Some? && BaseRecord(ty).value in recordToField && idxVec == recordToField[BaseRecord(ty).value]
      ensures initExprs == acc + Under(at, Collect(View(), theRecord, theField, ty, init))
      decreases init
    {
      initExprs := acc;
      if init.Expr? {
        return;
      }
      var es := init.inits;
      if ty.Array? {
        for i := 0 to |es|
          invariant initExprs == acc + Under(at, CollectTo(View(), theRecord, theField, ty, es, i))
        {
          initExprs := GetInitExprs(ty.elem, es[i], idxVec, at + [i], initExprs);
          Collected(View(), theRecord, theField, at, i, acc, ty, ty.elem, es);
        }
        return;
      }
      initExprs := GetFieldInitExprs(ty.id, es, idxVec, at, acc);
    }

    // The part of getInitExprs for a list that initialises a record. Its early return on a short
    // list misses nothing, since the indices still to come are larger.
    method GetFieldInitExprs(q: nat, es: seq<Init>, idxVec: seq<nat>, at: Position, acc: seq<Position>) returns (initExprs: seq<Position>)
      requires Valid() && q in recordToField && idxVec == recordToField[q]
      ensures initExprs == acc + Under(at, Collect(View(), theRecord, theField, Record(q), List(es)))
      decreases es, 1
    {
      initExprs := acc;
      VectorsShown(q);
      assert acc + [] == acc;
      for n := 0 to |idxVec|
        invariant After(idxVec, n) <= |es| && initExprs == SoFar(View(), theRecord, theField, q, es, at, acc, n)
      {
        var idx := idxVec[n];
        if idx >= |es| {
          ShortListDone(View(), theRecord, theField, q, es, at, acc, n);
          return;
        }
        initExprs := GetEntryInitExprs(q, es, n, at, initExprs, acc);
      }
      ShortListDone(View(), theRecord, theField, q, es, at, acc, |idxVec|);
    }

    lemma VectorsShown(q: nat)
      requires Valid() && q in recordToField
      ensures q < |records| && theRecord in recordToField && recordToField[theRecord] == [theField]
      ensures recordToField[q] == Vec(View(), theRecord, theField, q)
    {
      FoundKeys(records, theRecord, theField, visits);
      FoundLead(records, theRecord, theField, visits);
      ShownVec(records, theRecord, theField, visits, q);
    }

    // In any order of the visits an entry has its vector, that of the record it leads to.
    lemma EntryLinked(q: nat, n: nat)
      requires Valid() && q in recordToField && n < |recordToField[q]|
      ensures FieldId(q, recordToField[q][n]) in fieldToIdxVector
      ensures q != theRecord ==>
        LinkedAt(records, theRecord, theField, recordToField, FieldId(q, recordToField[q][n]),
                 fieldToIdxVector[FieldId(q, recordToField[q][n])])
    {
      assert recordToField[q][n] in recordToField[q];
    }

    // The part for one entry: the field itself, or the recursive call for a field on the way.
    method GetEntryInitExprs(q: nat, es: seq<Init>, n: nat, at: Position, before: seq<Position>, ghost acc: seq<Position>)
      returns (initExprs: seq<Position>)
      requires Valid() && q in recordToField && q < |records| && recordToField[q] == Vec(View(), theRecord, theField, q)
      requires n < |recordToField[q]| && recordToField[q][n] < |es| && After(recordToField[q], n) <= |es|
      requires before == SoFar(View(), theRecord, theField, q, es, at, acc, n)
      ensures initExprs == SoFar(View(), theRecord, theField, q, es, at, acc, n + 1)
      decreases es, 0
    {
      EntryLinked(q, n);
      OneMoreEntry(View(), theRecord, theField, q, es, at, acc, n);
      var idx := recordToField[q][n];
      var fieldIdxVec := fieldToIdxVector[FieldId(q, idx)];
      if q == theRecord && idx == theField {
        return before + [at + [idx]];
      }
      EntryShown(q, n);
      initExprs := GetInitExprs(records[q][idx].ty, es[idx], fieldIdxVec, at + [idx], before);
    }

    lemma EntryShown(q: nat, n: nat)
      requires Valid() && q in recordToField && q < |records| && n < |recordToField[q]| && (q == theRecord ==> recordToField[q][n] != theField)
      ensures q != theRecord && recordToField[q][n] < |View()[q]| && View()[q][recordToField[q][n]] == records[q][recordToField[q][n]]
    {
      VectorsShown(q);
      EntryLinked(q, n);
      var idx := recordToField[q][n];
      assert View()[q] == ShownRecord(records, theRecord, recordToField, q) && idx in recordToField[q];
    }

    // What a variable of the type holds has been visited from the inside to the outside.
    ghost predicate IsLedType(ty: Type)
      reads this
    {
      LedType(records, theRecord, theField, ty, visits)
    }

    // handleOneVarDecl: in any state those initialisers of the field are removed that the vectors lead to;
    // they are all of them when the records have been visited in a right order.
    method HandleOneVarDecl(ty: Type, init: Init) returns (removed: Init)
      requires Valid() && Known(records, ty)
      ensures RemovedAlong(records, theRecord, theField, recordToField, ty, init, removed)
      ensures IsLedType(ty) ==> ValuesKept(ty, init, removed)
    {
      var base := BaseRecord(ty);
      var initExprs := [];
      if base.Some? && base.value in recordToField {
        initExprs := GetInitExprs(ty, init, recordToField[base.value], [], []);
        UnderNothing(Collect(View(), theRecord, theField, ty, init));
      } else {
        if base.Some? {
          ShownVec(records, theRecord, theField, visits, base.value);
        }
        NoVecCollectsNothing(View(), theRecord, theField, ty, init);
      }
      assert initExprs == Collect(View(), theRecord, theField, ty, init);
      removed := Remove(init, Elements(initExprs), []);
      CollectedAlong(records, theRecord, theField, recordToField, ty, init);
      if IsLedType(ty) {
        LedKept(ty, init, removed);
      }
    }

    // Every value but those of the field is read as before.
    ghost predicate ValuesKept(ty: Type, init: Init, removed: Init)
      requires theRecord < |records| && theField < |records[theRecord]|
      reads this`theRecord, this`theField
    {
      forall path :: PathBeside(records, ty, path, theRecord, theField) ==>
        Read(FieldRemoved(), ty, Some(removed), path) == Read(records, ty, Some(init), path)
    }

    lemma LedKept(ty: Type, init: Init, removed: Init)
      requires Valid() && IsLedType(ty) && RemovedAlong(records, theRecord, theField, recordToField, ty, init, removed)
      ensures ValuesKept(ty, init, removed)
    {
      var ps :| removed == Remove(init, ps, []) && TargetsAlong(records, theRecord, theField, recordToField, ty, init, ps);
      forall pos
        ensures pos in ps <==> pos in Collect(records, theRecord, theField, ty, init)
      {
        CollectsTargets(records, theRecord, theField, ty, init, pos);
        if IsTarget(records, theRecord, theField, ty, init, pos) {
          LedFollowed(records, theRecord, theField, ty, init, visits, pos);
        }
      }
      forall path | PathBeside(records, ty, path, theRecord, theField)
        ensures Read(FieldRemoved(), ty, Some(removed), path) == Read(records, ty, Some(init), path)
      {
        FieldRemovalKeepsValues(records, theRecord, theField, ty, init, ps, path);
      }
    }

    // The traversal of all declarations: a variable loses the initialisers that the records before it lead to.
    // If these have been visited in a right order, it keeps its values, whatever comes after it.
    method TraverseDecls(decls: seq<Decl>) returns (rewritten: seq<Decl>)
      requires Valid() && visits == [] && AllDeclsKnown(records, decls)
      modifies this`recordToField, this`fieldToIdxVector, this`visits
      ensures Valid() && visits == RecordsIn(decls)
      ensures |rewritten| == |decls|
      ensures forall i :: 0 <= i < |decls| ==> DeclKept(decls, i, rewritten[i])
    {
      rewritten := [];
      for i := 0 to |decls|
        invariant Valid() && visits == RecordsIn(decls[..i]) && |rewritten| == i
        invariant forall j :: 0 <= j < i ==> DeclKept(decls, j, rewritten[j])
      {
        assert decls[..i + 1][..i] == decls[..i];
        match decls[i]
        case RecordDecl(q) =>
          VisitRecordDecl(q);
          rewritten := rewritten + [decls[i]];
        case VarDecl(ty, init) =>
          var removed := HandleOneVarDecl(ty, init);
          rewritten := rewritten + [VarDecl(ty, removed)];
      }
      assert decls[..|decls|] == decls;
    }

    ghost predicate DeclKept(decls: seq<Decl>, i: nat, rewritten: Decl)
      requires i < |decls| && theRecord < |records| && theField < |records[theRecord]|
      reads this`theRecord, this`theField
    {
      match decls[i]
      case RecordDecl(_) => rewritten == decls[i]
      case VarDecl(ty, init) =>
        && rewritten.VarDecl? && rewritten.ty == ty && AllKnown(records, RecordsIn(decls[..i]))
        && RemovedAlong(records, theRecord, theField, Found(records, theRecord, theField, RecordsIn(decls[..i])), ty, init,
                        rewritten.init)
        && (LedType(records, theRecord, theField, ty, RecordsIn(decls[..i])) ==> ValuesKept(ty, init, rewritten.init))
    }

    // The declarations once the field is gone (removeFieldDecl).
    ghost function FieldRemoved(): Records
      requires theRecord < |records| && theField < |records[theRecord]|
      reads this`theRecord, this`theField
    {
      WithoutFieldWellFormed(records, theRecord, theField);
      WithoutField(records, theRecord, theField)
    }
  }
}
