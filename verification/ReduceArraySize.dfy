/**
 clang_delta/ReduceArraySize.cpp: the largest constant index of every dimension of every array,
 and one declaration rewritten to the least size that covers it.
 */
module ReduceArraySize {
  import opened Collections
  import opened Decimal
  import opened Wrappers
  import opened ReduceArrayDim

  type VarId = nat

  // What a subscript yields.
  datatype Kind = Scalar | StructOrUnion | Row | ClassObject

  // What the collecting visitor meets: declarations with their sizes (None unless constant), and
  // subscripts with the index expressions, outermost dimension first.
  datatype Event =
    | Declare(v: VarId, sizes: seq<Option<nat>>)
    | Access(v: VarId, idxs: seq<IndexExpr>, kind: Kind)

  type Program = seq<Event>

  // ----- The analysis as a function of the program -----

  // The sizes of the first declaration that is met.
  function FirstSizes(p: Program, v: VarId): Option<seq<Option<nat>>> {
    if p == [] then None
    else
      var before := FirstSizes(p[..|p| - 1], v);
      var e := p[|p| - 1];
      if before.Some? then before
      else if e.Declare? && e.v == v then Some(e.sizes)
      else None
  }

  // A constant index, converted to `int`.
  function Constant(e: IndexExpr): Option<int> {
    if IsIntegerExpr(e) then Some(GetIndexAsInteger(e)) else None
  }

  // A subscript that yields a row, or an object of a class, is passed over.
  predicate IsCounted(e: Event) {
    e.Access? && (e.kind.Scalar? || e.kind.StructOrUnion?)
  }

  lemma CountedKinds(v: VarId, sizes: seq<Option<nat>>, idxs: seq<IndexExpr>)
    ensures IsCounted(Access(v, idxs, Scalar)) && IsCounted(Access(v, idxs, StructOrUnion))
    ensures !IsCounted(Access(v, idxs, Row)) && !IsCounted(Access(v, idxs, ClassObject)) && !IsCounted(Declare(v, sizes))
  {
  }

  // The indices recorded in dimension d: those of the subscripts counted after the first declaration.
  function Indices(p: Program, v: VarId, d: nat): seq<Option<int>> {
    if p == [] then []
    else
      var before := Indices(p[..|p| - 1], v, d);
      var e := p[|p| - 1];
      if IsCounted(e) && e.v == v && d < |e.idxs| && FirstSizes(p[..|p| - 1], v).Some? then before + [Constant(e.idxs[d])]
      else before
  }

  // One step of the loop in handleOneASE.
  function Step(entry: int, idx: Option<int>): int {
    if entry == -1 then -1
    else match idx
      case None => -1
      case Some(c) => if c > entry then c else entry
  }

  function InitDims(sizes: seq<Option<nat>>): (ds: seq<int>)
    ensures |ds| == |sizes| && forall d :: 0 <= d < |ds| ==> ds[d] == if sizes[d].Some? then 0 else -1
  {
    seq(|sizes|, d requires 0 <= d < |sizes| => if sizes[d].Some? then 0 else -1)
  }

  function OrigDims(sizes: seq<Option<nat>>): (ds: seq<int>)
    ensures |ds| == |sizes| && forall d :: 0 <= d < |ds| ==> ds[d] == if sizes[d].Some? then ToInt(ArraySize(sizes[d].value)) else -1
  {
    seq(|sizes|, d requires 0 <= d < |sizes| => if sizes[d].Some? then ToInt(ArraySize(sizes[d].value)) else -1)
  }

  function StepAll(ds: seq<int>, idxs: seq<IndexExpr>): (r: seq<int>)
    ensures |r| == |ds|
    ensures forall d :: 0 <= d < |ds| ==> r[d] == if d < |idxs| then Step(ds[d], Constant(idxs[d])) else ds[d]
  {
    seq(|ds|, d requires 0 <= d < |ds| => if d < |idxs| then Step(ds[d], Constant(idxs[d])) else ds[d])
  }

  // The entries of VarDeclToDim.
  function Dims(p: Program, v: VarId): (ds: Option<seq<int>>)
    ensures ds.Some? <==> FirstSizes(p, v).Some?
    ensures ds.Some? ==> |ds.value| == |FirstSizes(p, v).value|
  {
    if p == [] then None
    else
      var before := Dims(p[..|p| - 1], v);
      match p[|p| - 1]
      case Declare(w, sizes) => if w == v && before.None? then Some(InitDims(sizes)) else before
      case Access(w, idxs, _) =>
        if IsCounted(p[|p| - 1]) && w == v && before.Some? then Some(StepAll(before.value, idxs)) else before
  }

  // An entry is -1 exactly when the dimension has no constant size or some recorded index is not constant;
  // otherwise it is the largest recorded index, and at least 0.
  lemma {:induction false} EntryIsLargest(p: Program, v: VarId, d: nat)
    requires Dims(p, v).Some? && d < |Dims(p, v).value|
    ensures
      var entry, idxs := Dims(p, v).value[d], Indices(p, v, d);
      && (entry == -1 <==> FirstSizes(p, v).value[d].None? || None in idxs)
      && (entry != -1 ==> entry >= 0 && (entry == 0 || Some(entry) in idxs))
      && (entry != -1 ==> forall c :: Some(c) in idxs ==> c <= entry)
  {
    var q, e := p[..|p| - 1], p[|p| - 1];
    if Dims(q, v).Some? {
      EntryIsLargest(q, v, d);
      if IsCounted(e) && e.v == v && d < |e.idxs| {
        assert Indices(p, v, d) == Indices(q, v, d) + [Constant(e.idxs[d])];
      }
    } else {
      NoIndicesBefore(q, v, d);
    }
  }

  lemma {:induction false} NoIndicesBefore(p: Program, v: VarId, d: nat)
    requires FirstSizes(p, v).None?
    ensures Indices(p, v, d) == []
  {
    if p != [] {
      NoIndicesBefore(p[..|p| - 1], v, d);
    }
  }

  // ----- In terms of what is met -----

  lemma ConstantIs(c: int, e: IndexExpr)
    ensures 0 <= c < 0x8000_0000 ==> Constant(Literal(c)) == Some(c)
    ensures Constant(ParenOrCast(e)) == Constant(e)
    ensures e.Variable? || e.Add? || e.Mul? ==> Constant(e) == None
  {
    if FitsInt(c) {
      ToIntFits(c);
    }
  }

  // The sizes are those of the first declaration.
  lemma {:induction false} FirstSizesAre(p: Program, v: VarId, sizes: seq<Option<nat>>)
    ensures FirstSizes(p, v) == Some(sizes) <==>
            exists j :: 0 <= j < |p| && p[j] == Declare(v, sizes) && forall k :: 0 <= k < j ==> !(p[k].Declare? && p[k].v == v)
    ensures FirstSizes(p, v) == None <==> forall k :: 0 <= k < |p| ==> !(p[k].Declare? && p[k].v == v)
  {
    if p != [] {
      var q, e := p[..|p| - 1], p[|p| - 1];
      FirstSizesAre(q, v, sizes);
      assert forall k :: 0 <= k < |q| ==> q[k] == p[k];
      if j :| 0 <= j < |q| && q[j] == Declare(v, sizes) && forall k :: 0 <= k < j ==> !(q[k].Declare? && q[k].v == v) {
        assert p[j] == Declare(v, sizes) && forall k :: 0 <= k < j ==> !(p[k].Declare? && p[k].v == v);
      }
      if j :| 0 <= j < |p| && p[j] == Declare(v, sizes) && forall k :: 0 <= k < j ==> !(p[k].Declare? && p[k].v == v) {
        if j < |q| {
          assert q[j] == Declare(v, sizes) && forall k :: 0 <= k < j ==> !(q[k].Declare? && q[k].v == v);
        } else {
          assert forall k :: 0 <= k < |q| ==> !(q[k].Declare? && q[k].v == v);
        }
      }
      if FirstSizes(q, v) == None && e == Declare(v, sizes) {
        assert p[|q|] == Declare(v, sizes);
      }
    }
  }

  // Subscript i uses index number d of the variable behind declaration j, and yields a scalar, a struct or a union.
  predicate UsesBehind(p: Program, v: VarId, d: nat, j: nat, i: nat) {
    && j < i < |p| && p[j].Declare? && p[j].v == v && p[i].Access? && p[i].v == v && d < |p[i].idxs|
    && (p[i].kind == Scalar || p[i].kind == StructOrUnion)
  }

  // The recorded indices are those of the subscripts behind a declaration that yield a scalar, a struct or a union.
  lemma {:induction false} IndicesAre(p: Program, v: VarId, d: nat, x: Option<int>)
    ensures x in Indices(p, v, d) <==> exists j: nat, i: nat :: UsesBehind(p, v, d, j, i) && Constant(p[i].idxs[d]) == x
  {
    if p != [] {
      var q, e := p[..|p| - 1], p[|p| - 1];
      IndicesAre(q, v, d, x);
      assert forall k :: 0 <= k < |q| ==> q[k] == p[k];
      FirstSizesAre(q, v, []);
      if j: nat, i: nat :| UsesBehind(q, v, d, j, i) && Constant(q[i].idxs[d]) == x {
        assert UsesBehind(p, v, d, j, i);
      }
      if IsCounted(e) && e.v == v && d < |e.idxs| && FirstSizes(q, v).Some? {
        var j :| 0 <= j < |q| && q[j].Declare? && q[j].v == v;
        assert UsesBehind(p, v, d, j, |q|);
      }
      if j: nat, i: nat :| UsesBehind(p, v, d, j, i) && Constant(p[i].idxs[d]) == x {
        if i < |q| {
          assert UsesBehind(q, v, d, j, i);
        } else {
          assert q[j].Declare? && q[j].v == v;
        }
      }
    }
  }

  // What a subscript does to its entry: one with an index that is not constant makes it -1; otherwise it is
  // -1, or no less than the index.
  lemma UseIsRecorded(p: Program, v: VarId, d: nat, j: nat, i: nat)
    requires UsesBehind(p, v, d, j, i)
    ensures Dims(p, v).Some?
    ensures d < |Dims(p, v).value| ==>
      match Constant(p[i].idxs[d])
      case None => Dims(p, v).value[d] == -1
      case Some(c) => Dims(p, v).value[d] == -1 || c <= Dims(p, v).value[d]
  {
    FirstSizesAre(p, v, []);
    assert p[j].Declare? && p[j].v == v;
    if d < |Dims(p, v).value| {
      IndicesAre(p, v, d, Constant(p[i].idxs[d]));
      EntryIsLargest(p, v, d);
    }
  }

  // And an entry is -1, or 0, or a larger index, for such a reason only.
  lemma EntryHasReason(p: Program, v: VarId, d: nat)
    requires Dims(p, v).Some? && d < |Dims(p, v).value|
    ensures
      var entry := Dims(p, v).value[d];
      && (entry == -1 ==> FirstSizes(p, v).value[d].None? ||
                          exists j: nat, i: nat :: UsesBehind(p, v, d, j, i) && Constant(p[i].idxs[d]) == None)
      && (entry != -1 ==> entry == 0 || exists j: nat, i: nat :: UsesBehind(p, v, d, j, i) && Constant(p[i].idxs[d]) == Some(entry))
  {
    EntryIsLargest(p, v, d);
    IndicesAre(p, v, d, None);
    IndicesAre(p, v, d, Some(Dims(p, v).value[d]));
  }

  // struct S a[10]; ... a[7].x ... needs eight elements.
  lemma StructUseCounts()
    ensures
      var p := [Declare(0, [Some(10)]), Access(0, [Literal(7)], StructOrUnion)];
      Dims(p, 0) == Some([7]) && FirstSizes(RunOn(p, 0, 0), 0) == Some([Some(8)])
  {
    var p := [Declare(0, [Some(10)]), Access(0, [Literal(7)], StructOrUnion)];
    assert p[..1] == [p[0]] && [p[0]][..0] == [];
    assert InitDims([Some(10)]) == [0];
    ConstantIs(7, Literal(7));
    assert StepAll([0], [Literal(7)]) == [7];
    RewrittenSizes(p, 0, 0, 8, 0);
    assert [Some(10)][0 := Some(8)] == [Some(8 as nat)];
  }

  // The order of the uses does not matter.
  lemma OrderIndependent(p: Program, q: Program, v: VarId)
    requires FirstSizes(p, v) == FirstSizes(q, v)
    requires forall d: nat, i :: i in Indices(p, v, d) <==> i in Indices(q, v, d)
    ensures Dims(p, v) == Dims(q, v)
  {
    if Dims(p, v).Some? {
      var a, b := Dims(p, v).value, Dims(q, v).value;
      forall d | 0 <= d < |a|
        ensures a[d] == b[d]
      {
        EntryIsLargest(p, v, d);
        EntryIsLargest(q, v, d);
      }
      assert a == b;
    }
  }

  ghost predicate Covers(size: int, idxs: seq<Option<int>>) {
    size >= 1 && forall c :: Some(c) in idxs ==> c < size
  }

  // The entry plus one is the least positive size that covers all recorded uses.
  lemma LeastCoveringSize(p: Program, v: VarId, d: nat, size: nat)
    requires Dims(p, v).Some? && d < |Dims(p, v).value| && Dims(p, v).value[d] != -1
    ensures Covers(size, Indices(p, v, d)) <==> size >= Dims(p, v).value[d] + 1
  {
    EntryIsLargest(p, v, d);
  }

  // The indices used in dimension d before the first declaration, as of a static member further down
  // in a class; they are not recorded.
  function EarlyIndices(p: Program, v: VarId, d: nat): seq<Option<int>> {
    if p == [] then []
    else
      var before := EarlyIndices(p[..|p| - 1], v, d);
      var e := p[|p| - 1];
      if e.Access? && e.v == v && d < |e.idxs| && FirstSizes(p[..|p| - 1], v).None? then before + [Constant(e.idxs[d])]
      else before
  }

  // The indices used in dimension d after the declaration by subscripts that are passed over.
  function PassedIndices(p: Program, v: VarId, d: nat): seq<Option<int>> {
    if p == [] then []
    else
      var before := PassedIndices(p[..|p| - 1], v, d);
      var e := p[|p| - 1];
      if e.Access? && !IsCounted(e) && e.v == v && d < |e.idxs| && FirstSizes(p[..|p| - 1], v).Some?
      then before + [Constant(e.idxs[d])]
      else before
  }

  // The indices of all uses, wherever they are.
  function AllIndices(p: Program, v: VarId, d: nat): seq<Option<int>> {
    if p == [] then []
    else
      var before := AllIndices(p[..|p| - 1], v, d);
      var e := p[|p| - 1];
      if e.Access? && e.v == v && d < |e.idxs| then before + [Constant(e.idxs[d])] else before
  }

  lemma {:induction false} RecordedOrLost(p: Program, v: VarId, d: nat)
    ensures forall i :: i in AllIndices(p, v, d) <==>
              i in Indices(p, v, d) || i in EarlyIndices(p, v, d) + PassedIndices(p, v, d)
  {
    if p != [] {
      RecordedOrLost(p[..|p| - 1], v, d);
    }
  }

  // The new size is right for the whole program exactly when neither an early use nor one that is passed
  // over has an index that is not constant or exceeds the largest recorded one.
  lemma NewSizeCoversIff(p: Program, v: VarId, d: nat)
    requires Dims(p, v).Some? && d < |Dims(p, v).value| && Dims(p, v).value[d] != -1
    ensures
      var size, all, lost := Dims(p, v).value[d] + 1, AllIndices(p, v, d), EarlyIndices(p, v, d) + PassedIndices(p, v, d);
      None !in all && Covers(size, all) <==> None !in lost && forall c :: Some(c) in lost ==> c < size
  {
    EntryIsLargest(p, v, d);
    RecordedOrLost(p, v, d);
    CoversParts(Dims(p, v).value[d] + 1, AllIndices(p, v, d), EarlyIndices(p, v, d) + PassedIndices(p, v, d), Indices(p, v, d));
  }

  lemma CoversParts(size: int, all: seq<Option<int>>, lost: seq<Option<int>>, recorded: seq<Option<int>>)
    requires forall i :: i in all <==> i in recorded || i in lost
    requires size >= 1 && None !in recorded && forall c :: Some(c) in recorded ==> c < size
    ensures None !in all && Covers(size, all) <==> None !in lost && forall c :: Some(c) in lost ==> c < size
  {
  }

  // A subscript that is passed over leaves the analysis as it was, and counts among all uses.
  lemma PassedOver(p: Program, v: VarId, idxs: seq<IndexExpr>, kind: Kind, d: nat)
    requires (kind.Row? || kind.ClassObject?) && d < |idxs|
    ensures
      var q := p + [Access(v, idxs, kind)];
      && Dims(q, v) == Dims(p, v) && FirstSizes(q, v) == FirstSizes(p, v) && Keys(q) == Keys(p)
      && AllIndices(q, v, d) == AllIndices(p, v, d) + [Constant(idxs[d])]
  {
    assert (p + [Access(v, idxs, kind)])[..|p|] == p;
  }

  lemma OneDeclaration(v: VarId, sizes: seq<Option<nat>>)
    ensures
      var p := [Declare(v, sizes)];
      && Dims(p, v) == Some(InitDims(sizes)) && FirstSizes(p, v) == Some(sizes) && Keys(p) == [v]
      && forall d: nat :: AllIndices(p, v, d) == []
  {
    assert [Declare(v, sizes)][..0] == [];
  }

  // int a[3][4], whose row a[2] is passed on, becomes a[1][4], and the row is lost.
  lemma RowUseIsLost()
    ensures
      var p := [Declare(0, [Some(3), Some(4)])] + [Access(0, [Literal(2)], Row)];
      && Dims(p, 0) == Some([0, 0]) && Instances(p) != [] && Instances(p)[0] == (0, 0)
      && FirstSizes(RunOn(p, 0, 0), 0) == Some([Some(1), Some(4)])
      && AllIndices(p, 0, 0) == [Some(2)] && !Covers(1, AllIndices(p, 0, 0))
  {
    var sizes: seq<Option<nat>> := [Some(3), Some(4)];
    var p := [Declare(0, sizes)] + [Access(0, [Literal(2)], Row)];
    OneDeclaration(0, sizes);
    PassedOver([Declare(0, sizes)], 0, [Literal(2)], Row, 0);
    assert InitDims(sizes) == [0, 0] && OrigDims(sizes) == [3, 4];
    FirstInstance(p);
    RewrittenSizes(p, 0, 0, 1, 0);
    assert sizes[0 := Some(1)] == [Some(1 as nat), Some(4)];
    assert Constant(Literal(2)) == Some(2) && Some(2) in AllIndices(p, 0, 0);
  }

  lemma FirstInstance(p: Program)
    requires Keys(p) == [0] && IsInstance(p, 0, 0) && DimCount(p, 0) == 2
    ensures Instances(p) != [] && Instances(p)[0] == (0, 0)
  {
    assert [0 as nat][..0] == [];
    assert InstancesOf(p, []) == [];
    assert DimInstances(p, 0, 1) == [(0, 0)];
    assert Instances(p) == DimInstances(p, 0, 2);
  }

  // An array of nine elements shrinks to one, and its element 7 is lost.
  lemma EarlyUseIsLost()
    ensures
      var p := [Access(0, [Literal(7)], Scalar), Declare(0, [Some(9)])];
      && IsInstance(p, 0, 0) && FirstSizes(RunOn(p, 0, 0), 0) == Some([Some(1)])
      && AllIndices(p, 0, 0) == [Some(7)] && !Covers(1, AllIndices(p, 0, 0))
  {
    var p := [Access(0, [Literal(7)], Scalar), Declare(0, [Some(9)])];
    assert p[..1] == [p[0]] && [p[0]][..0] == [];
    assert InitDims([Some(9)]) == [0];
    RewrittenSizes(p, 0, 0, 1, 0);
    assert [Some(9)][0 := Some(1)] == [Some(1 as nat)];
    assert Constant(Literal(7)) == Some(7);
    assert Some(7) in AllIndices(p, 0, 0);
  }

  function EntryAt(p: Program, v: VarId, d: nat): int {
    var ds := Dims(p, v);
    if ds.Some? && d < |ds.value| then ds.value[d] else -1
  }

  // ----- Instances -----

  predicate IsInstance(p: Program, v: VarId, d: nat) {
    var ds, sizes := Dims(p, v), FirstSizes(p, v);
    && ds.Some? && d < |ds.value|
    && !(ds.value[d] == -1 || OrigDims(sizes.value)[d] == 0 || ds.value[d] + 1 == OrigDims(sizes.value)[d])
  }

  // For a size that an `int` holds.
  lemma InstanceIff(p: Program, v: VarId, d: nat, sizes: seq<Option<nat>>, n: nat)
    requires FirstSizes(p, v) == Some(sizes) && d < |sizes| && sizes[d] == Some(n) && n < 0x8000_0000
    ensures IsInstance(p, v, d) <==> n != 0 && EntryAt(p, v, d) != -1 && EntryAt(p, v, d) + 1 != n
  {
    ToIntFits(n);
  }

  lemma NoSizeNoInstance(p: Program, v: VarId, d: nat, sizes: seq<Option<nat>>)
    requires FirstSizes(p, v) == Some(sizes) && d < |sizes| && sizes[d] == None
    ensures !IsInstance(p, v, d)
  {
    EntryIsLargest(p, v, d);
  }

  // The variables in the order in which the map gets them, each once; a counted use enters its variable as well.
  function Keys(p: Program): (ks: seq<VarId>)
    ensures NoDuplicates(ks)
    ensures forall v :: Dims(p, v).Some? ==> v in ks
  {
    if p == [] then []
    else
      var ks := Keys(p[..|p| - 1]);
      var e := p[|p| - 1];
      if e.v in ks || (e.Access? && !IsCounted(e)) then ks else ks + [e.v]
  }

  function DimInstances(p: Program, v: VarId, n: nat): seq<(VarId, nat)> {
    if n == 0 then []
    else DimInstances(p, v, n - 1) + if IsInstance(p, v, n - 1) then [(v, n - 1)] else []
  }

  function DimCount(p: Program, v: VarId): nat {
    if Dims(p, v).Some? then |Dims(p, v).value| else 0
  }

  function InstancesOf(p: Program, ks: seq<VarId>): seq<(VarId, nat)> {
    if ks == [] then []
    else InstancesOf(p, ks[..|ks| - 1]) + DimInstances(p, ks[|ks| - 1], DimCount(p, ks[|ks| - 1]))
  }

  function Instances(p: Program): seq<(VarId, nat)> {
    InstancesOf(p, Keys(p))
  }

  lemma {:induction false} DimInstancesAre(p: Program, v: VarId, n: nat)
    ensures forall x :: x in DimInstances(p, v, n) <==> x.0 == v && x.1 < n && IsInstance(p, v, x.1)
  {
    if n > 0 {
      DimInstancesAre(p, v, n - 1);
    }
  }

  lemma {:induction false} InstancesAre(p: Program, ks: seq<VarId>)
    ensures forall x :: x in InstancesOf(p, ks) <==> x.0 in ks && IsInstance(p, x.0, x.1)
  {
    if ks != [] {
      var k := |ks| - 1;
      InstancesAre(p, ks[..k]);
      DimInstancesAre(p, ks[k], DimCount(p, ks[k]));
      assert ks == ks[..k] + [ks[k]];
    }
  }

  // ----- Rewriting -----

  // Every declaration of the variable gets the new size.
  function Resized(e: Event, v: VarId, d: nat, size: nat): Event {
    if e.Declare? && e.v == v && d < |e.sizes| then Declare(v, e.sizes[d := Some(size)]) else e
  }

  function Rewritten(p: Program, v: VarId, d: nat, size: nat): (r: Program)
    ensures |r| == |p| && forall i :: 0 <= i < |p| ==> r[i] == Resized(p[i], v, d, size)
  {
    seq(|p|, i requires 0 <= i < |p| => Resized(p[i], v, d, size))
  }

  lemma {:induction false} RewrittenSizes(p: Program, v: VarId, d: nat, size: nat, w: VarId)
    ensures
      var before, after := FirstSizes(p, w), FirstSizes(Rewritten(p, v, d, size), w);
      after == if before.Some? && w == v && d < |before.value| then Some(before.value[d := Some(size)]) else before
  {
    if p != [] {
      RewrittenSizes(p[..|p| - 1], v, d, size, w);
      assert Rewritten(p, v, d, size)[..|p| - 1] == Rewritten(p[..|p| - 1], v, d, size);
    }
  }

  // The entries stay: the uses are the same, and a constant size stays constant.
  lemma {:induction false} RewrittenDims(p: Program, v: VarId, d: nat, size: nat, w: VarId)
    requires FirstSizes(p, v).Some? && d < |FirstSizes(p, v).value| && FirstSizes(p, v).value[d].Some?
    ensures Dims(Rewritten(p, v, d, size), w) == Dims(p, w) && Keys(Rewritten(p, v, d, size)) == Keys(p)
  {
    if p != [] {
      var q, e := p[..|p| - 1], p[|p| - 1];
      assert Rewritten(p, v, d, size)[..|p| - 1] == Rewritten(q, v, d, size);
      if FirstSizes(q, v).Some? {
        RewrittenDims(q, v, d, size, w);
      } else {
        NotYetDeclared(q, v, d, size);
        if e.Declare? && e.v == v {
          assert InitDims(e.sizes[d := Some(size)]) == InitDims(e.sizes);
        }
      }
    }
  }

  lemma {:induction false} NotYetDeclared(p: Program, v: VarId, d: nat, size: nat)
    requires FirstSizes(p, v).None?
    ensures Rewritten(p, v, d, size) == p
  {
    if p != [] {
      NotYetDeclared(p[..|p| - 1], v, d, size);
      var q := Rewritten(p, v, d, size);
      assert q[..|p| - 1] == Rewritten(p[..|p| - 1], v, d, size);
      assert q == q[..|p| - 1] + [q[|p| - 1]] && p == p[..|p| - 1] + [p[|p| - 1]];
    }
  }

  // One run on an instance.
  predicate IsShrunk(p: Program, q: Program, v: VarId, d: nat, size: nat) {
    |q| == |p| && forall k :: 0 <= k < |p| ==>
      q[k] == if p[k].Declare? && p[k].v == v && d < |p[k].sizes| then Declare(v, p[k].sizes[d := Some(size)]) else p[k]
  }

  ghost predicate CoversUses(p: Program, v: VarId, d: nat, size: nat) {
    forall j: nat, i: nat :: UsesBehind(p, v, d, j, i) ==>
      Constant(p[i].idxs[d]).Some? && Constant(p[i].idxs[d]).value < size
  }

  lemma RunShrinks(p: Program, q: Program)
    requires IsRun(p, q)
    ensures exists v: VarId, d: nat, size: nat :: IsShrunk(p, q, v, d, size) && CoversUses(p, v, d, size)
  {
    var v: VarId, d: nat :| IsInstance(p, v, d) && EntryAt(p, v, d) >= 0 && q == RunOn(p, v, d);
    var size := EntryAt(p, v, d) + 1;
    assert IsShrunk(p, q, v, d, size);
    forall j: nat, i: nat | UsesBehind(p, v, d, j, i)
      ensures Constant(p[i].idxs[d]).Some? && Constant(p[i].idxs[d]).value < size
    {
      UseIsRecorded(p, v, d, j, i);
    }
  }

  function RunOn(p: Program, v: VarId, d: nat): Program
    requires EntryAt(p, v, d) >= 0
  {
    Rewritten(p, v, d, EntryAt(p, v, d) + 1)
  }

  // No entry is the largest `int`, so that adding one stays in range.
  ghost predicate InRange(p: Program) {
    forall v: VarId, d: nat :: IsInstance(p, v, d) ==> 0 <= EntryAt(p, v, d) < 0x7fff_ffff
  }

  // The new size is not an instance any more, and other sizes are what they were.
  lemma InstanceAfter(p: Program, q: Program, v: VarId, d: nat, w: VarId, k: nat, size: nat)
    requires Dims(q, w) == Dims(p, w) && EntryAt(p, v, d) + 1 == size && ToInt(ArraySize(size)) == size
    requires
      var before := FirstSizes(p, w);
      FirstSizes(q, w) == if before.Some? && w == v && d < |before.value| then Some(before.value[d := Some(size)]) else before
    ensures IsInstance(q, w, k) <==> IsInstance(p, w, k) && (w, k) != (v, d)
  {
    if w == v && k == d && Dims(q, w).Some? && k < |Dims(q, w).value| {
      assert OrigDims(FirstSizes(q, w).value)[k] == size;
    }
  }

  lemma RunKeepsDims(p: Program, v: VarId, d: nat, w: VarId)
    requires InRange(p) && IsInstance(p, v, d)
    ensures
      var q := RunOn(p, v, d);
      && Keys(q) == Keys(p) && Dims(q, w) == Dims(p, w)
      && forall k: nat :: IsInstance(q, w, k) <==> IsInstance(p, w, k) && (w, k) != (v, d)
  {
    EntryIsLargest(p, v, d);
    var size := EntryAt(p, v, d) + 1;
    assert ToInt(ArraySize(size)) == size;
    RewrittenDims(p, v, d, size, w);
    RewrittenSizes(p, v, d, size, w);
    forall k: nat
      ensures IsInstance(RunOn(p, v, d), w, k) <==> IsInstance(p, w, k) && (w, k) != (v, d)
    {
      InstanceAfter(p, RunOn(p, v, d), v, d, w, k, size);
    }
  }

  // Rewriting removes its own instance and no other, and adds none.
  lemma RunRemovesOne(p: Program, v: VarId, d: nat)
    requires InRange(p) && IsInstance(p, v, d)
    ensures
      var q := RunOn(p, v, d);
      && Keys(q) == Keys(p) && InRange(q)
      && (forall w: VarId :: Dims(q, w) == Dims(p, w))
      && (forall w: VarId, k: nat :: IsInstance(q, w, k) <==> IsInstance(p, w, k) && (w, k) != (v, d))
  {
    forall w: VarId
      ensures Dims(RunOn(p, v, d), w) == Dims(p, w) && Keys(RunOn(p, v, d)) == Keys(p)
      ensures forall k: nat :: IsInstance(RunOn(p, v, d), w, k) <==> IsInstance(p, w, k) && (w, k) != (v, d)
    {
      RunKeepsDims(p, v, d, w);
    }
  }

  lemma {:induction false} DimInstancesDrop(p: Program, q: Program, v: VarId, d: nat, w: VarId, n: nat)
    requires forall k: nat :: IsInstance(q, w, k) <==> IsInstance(p, w, k) && (w, k) != (v, d)
    requires IsInstance(p, v, d)
    ensures |DimInstances(q, w, n)| == |DimInstances(p, w, n)| - if w == v && d < n then 1 else 0
  {
    if n > 0 {
      DimInstancesDrop(p, q, v, d, w, n - 1);
    }
  }

  lemma {:induction false} InstancesDrop(p: Program, q: Program, v: VarId, d: nat, ks: seq<VarId>)
    requires forall w: VarId, k: nat :: IsInstance(q, w, k) <==> IsInstance(p, w, k) && (w, k) != (v, d)
    requires IsInstance(p, v, d) && NoDuplicates(ks) && forall w: VarId :: Dims(q, w) == Dims(p, w)
    ensures |InstancesOf(q, ks)| == |InstancesOf(p, ks)| - if v in ks then 1 else 0
  {
    if ks != [] {
      var k := |ks| - 1;
      InstancesDrop(p, q, v, d, ks[..k]);
      DimInstancesDrop(p, q, v, d, ks[k], DimCount(p, ks[k]));
      assert ks == ks[..k] + [ks[k]];
    }
  }

  // Each rewrite lowers the number of instances by exactly one.
  lemma RunLowersCount(p: Program, v: VarId, d: nat)
    requires InRange(p) && IsInstance(p, v, d)
    ensures |Instances(RunOn(p, v, d))| == |Instances(p)| - 1 && InRange(RunOn(p, v, d))
  {
    var q := RunOn(p, v, d);
    RunRemovesOne(p, v, d);
    InstancesDrop(p, q, v, d, Keys(p));
  }

  // One run turns p into q.
  ghost predicate IsRun(p: Program, q: Program) {
    exists v: VarId, d: nat :: IsInstance(p, v, d) && EntryAt(p, v, d) >= 0 && q == RunOn(p, v, d)
  }

  // Runs with counters chosen in any way, as long as there are instances.
  ghost predicate AreRuns(ps: seq<Program>) {
    ps != [] && (|ps| > 1 ==> AreRuns(ps[1..]) && IsRun(ps[0], ps[1]))
  }

  // Every series of runs ends after the initial number of instances, and then nothing is left to reduce.
  lemma {:induction false} RunsEnd(ps: seq<Program>)
    requires AreRuns(ps) && InRange(ps[0])
    ensures |Instances(ps[|ps| - 1])| == |Instances(ps[0])| - (|ps| - 1)
    ensures |ps| - 1 <= |Instances(ps[0])|
  {
    if |ps| > 1 {
      var v: VarId, d: nat :| IsInstance(ps[0], v, d) && EntryAt(ps[0], v, d) >= 0 && ps[1] == RunOn(ps[0], v, d);
      RunLowersCount(ps[0], v, d);
      assert ps[1..][0] == ps[1] && ps[1..][|ps[1..]| - 1] == ps[|ps| - 1];
      RunsEnd(ps[1..]);
    }
  }

  // The dimension gets the least size for its recorded indices.
  ghost predicate IsRunOf(p: Program, x: (VarId, nat), q: Program) {
    EntryAt(p, x.0, x.1) >= 0 && q == Rewritten(p, x.0, x.1, EntryAt(p, x.0, x.1) + 1)
  }

  // The run that the counter i + 1 asks for.
  function RunAt(p: Program, i: nat): (q: Program)
    requires InRange(p) && i < |Instances(p)|
    ensures IsRun(p, q) && |Instances(q)| == |Instances(p)| - 1
    ensures IsRunOf(p, Instances(p)[i], q)
  {
    RunOfInstance(p, i);
    RunOn(p, Instances(p)[i].0, Instances(p)[i].1)
  }

  lemma RunOfInstance(p: Program, i: nat)
    requires InRange(p) && i < |Instances(p)|
    ensures
      var x := Instances(p)[i];
      && IsInstance(p, x.0, x.1) && EntryAt(p, x.0, x.1) >= 0
      && IsRun(p, RunOn(p, x.0, x.1)) && |Instances(RunOn(p, x.0, x.1))| == |Instances(p)| - 1
  {
    InstancesAre(p, Keys(p));
    var x := Instances(p)[i];
    assert x in Instances(p);
    RunLowersCount(p, x.0, x.1);
  }

  // No counted use has more indices than its variable has dimensions.
  predicate UsesFit(p: Program) {
    p == [] ||
    (var q, e := p[..|p| - 1], p[|p| - 1];
     UsesFit(q) && (IsCounted(e) && Dims(q, e.v).Some? ==> |e.idxs| <= |Dims(q, e.v).value|))
  }

  lemma {:induction false} UsesFitPrefix(p: Program, i: nat)
    requires i <= |p|
    ensures UsesFit(p) ==> UsesFit(p[..i])
  {
    if i == |p| {
      assert p[..i] == p;
    } else if UsesFit(p) {
      UsesFitPrefix(p[..|p| - 1], i);
      assert p[..|p| - 1][..i] == p[..i];
    }
  }

  // Written out: at every use met after a declaration of its variable, no more indices than dimensions.
  lemma {:induction false} UsesFitIff(p: Program)
    ensures UsesFit(p) <==> forall i: nat :: i < |p| ==> UseFitsAt(p, i)
  {
    if p != [] {
      var q, last := p[..|p| - 1], |p| - 1;
      UsesFitIff(q);
      forall i: nat | i < last
        ensures UseFitsAt(q, i) == UseFitsAt(p, i)
      {
        assert q[..i] == p[..i];
      }
      assert UsesFit(p) <==> UsesFit(q) && UseFitsAt(p, last);
    }
  }

  predicate UseFitsAt(p: Program, i: nat)
    requires i < |p|
  {
    var sizes := FirstSizes(p[..i], p[i].v);
    IsCounted(p[i]) && sizes.Some? ==> |p[i].idxs| <= |sizes.value|
  }

  // An array of pointers subscripted once more than it has dimensions, as int *a[3] in a[1][2], is no misuse.
  lemma PointerArraysDoNotFit(idxs: seq<IndexExpr>)
    requires |idxs| > 1
    ensures !UsesFit([Declare(0, [Some(3)]), Access(0, idxs, Scalar)])
  {
    var p := [Declare(0, [Some(3)]), Access(0, idxs, Scalar)];
    assert p[..1] == [p[0]] && [p[0]][..0] == [];
  }

  // The size may also grow: an index beyond the end counts like any other.
  lemma SizeMayGrow()
    ensures
      var p := [Declare(0, [Some(2)]), Access(0, [Literal(5)], Scalar)];
      IsInstance(p, 0, 0) && Dims(p, 0) == Some([5]) && FirstSizes(RunOn(p, 0, 0), 0) == Some([Some(6)])
  {
    var p := [Declare(0, [Some(2)]), Access(0, [Literal(5)], Scalar)];
    assert p[..1] == [p[0]] && [p[0]][..0] == [];
    assert InitDims([Some(2)]) == [0] && StepAll([0], [Literal(5)]) == [5];
    RewrittenSizes(p, 0, 0, 6, 0);
    assert [Some(2)][0 := Some(6)] == [Some(6 as nat)];
  }

  // ----- The pass -----

  // The two maps hold what the program determines.
  ghost predicate MapsRight(p: Program, dims: map<VarId, Option<seq<int>>>, origDims: map<VarId, seq<int>>) {
    && (forall v :: v in dims <==> v in Keys(p))
    && (forall v :: v in dims ==> dims[v] == Dims(p, v))
    && (forall v :: Dims(p, v).Some? ==> v in origDims && origDims[v] == OrigDims(FirstSizes(p, v).value))
  }

  datatype Outcome = Reduced(program: Program) | MaxInstanceError | AssertionFails

  class ReduceArraySize {
    // The keys of VarDeclToDim in the order of insertion.
    var keys: seq<VarId>
    var varDeclToDim: map<VarId, Option<seq<int>>>
    var origVarDeclToDim: map<VarId, seq<int>>
    var validInstanceNum: nat
    var theVarDecl: Option<VarId>
    var theDimValue: int
    var theDimIdx: nat

    ghost predicate Analysed(p: Program)
      reads this
    {
      keys == Keys(p) && MapsRight(p, varDeclToDim, origVarDeclToDim)
    }

    constructor ()
      ensures Analysed([]) && validInstanceNum == 0 && theVarDecl == None
    {
      keys, varDeclToDim, origVarDeclToDim := [], map[], map[];
      validInstanceNum, theVarDecl, theDimValue, theDimIdx := 0, None, -1, 0;
    }

    // The subscript of the map, which enters a missing key.
    method Lookup(v: VarId) returns (dimVec: Option<seq<int>>)
      modifies this`keys, this`varDeclToDim
      ensures v in varDeclToDim && dimVec == varDeclToDim[v]
      ensures if v in old(varDeclToDim) then keys == old(keys) && varDeclToDim == old(varDeclToDim)
              else keys == old(keys) + [v] && varDeclToDim == old(varDeclToDim)[v := None]
    {
      if v !in varDeclToDim {
        keys := keys + [v];
        varDeclToDim := varDeclToDim[v := None];
      }
      dimVec := varDeclToDim[v];
    }

    method HandleOneVar(v: VarId, sizes: seq<Option<nat>>, ghost p: Program)
      requires Analysed(p)
      modifies this`keys, this`varDeclToDim, this`origVarDeclToDim
      ensures Analysed(p + [Declare(v, sizes)])
    {
      ghost var q := p + [Declare(v, sizes)];
      assert q[..|p|] == p;
      var dimVec := Lookup(v);
      if dimVec.Some? {
        return;
      }
      var newVec, origVec := seq(|sizes|, _ => -1), seq(|sizes|, _ => -1);
      for i := 0 to |sizes|
        invariant |newVec| == |origVec| == |sizes|
        invariant forall d :: 0 <= d < |sizes| ==> newVec[d] == if d < i then InitDims(sizes)[d] else -1
        invariant forall d :: 0 <= d < |sizes| ==> origVec[d] == if d < i then OrigDims(sizes)[d] else -1
      {
        if sizes[i].Some? {
          newVec := newVec[i := 0];
          origVec := origVec[i := ToInt(ArraySize(sizes[i].value))];
        }
      }
      assert newVec == InitDims(sizes) && origVec == OrigDims(sizes);
      varDeclToDim := varDeclToDim[v := Some(newVec)];
      origVarDeclToDim := origVarDeclToDim[v := origVec];
    }

    // idxExprs has the last index first. The result is false when the assertion fails that there are
    // no more of them than dimensions.
    method HandleOneASE(v: VarId, idxExprs: seq<IndexExpr>, kind: Kind, ghost p: Program) returns (ok: bool)
      requires Analysed(p)
      modifies this`keys, this`varDeclToDim
      ensures
        var e := Access(v, Reversed(idxExprs), kind);
        && (ok <==> (IsCounted(e) && Dims(p, v).Some? ==> |idxExprs| <= |Dims(p, v).value|))
        && (ok ==> Analysed(p + [e]))
    {
      ghost var q := p + [Access(v, Reversed(idxExprs), kind)];
      assert q[..|p|] == p;
      if !kind.Scalar? && !kind.StructOrUnion? {
        return true;
      }
      var found := Lookup(v);
      if found.None? {
        return true;
      }
      if |found.value| < |idxExprs| {
        return false;
      }
      ok := true;
      var dimVec := UpdateEntries(found.value, idxExprs);
      varDeclToDim := varDeclToDim[v := Some(dimVec)];
    }

    // The loop of handleOneASE, from the last index expression to the first.
    method UpdateEntries(entries: seq<int>, idxExprs: seq<IndexExpr>) returns (dimVec: seq<int>)
      requires |idxExprs| <= |entries|
      ensures dimVec == StepAll(entries, Reversed(idxExprs))
    {
      dimVec := entries;
      var n, dimIdx := |idxExprs|, 0;
      ghost var target := StepAll(entries, Reversed(idxExprs));
      while dimIdx < n
        invariant dimIdx <= n && |dimVec| == |entries|
        invariant forall d :: 0 <= d < |dimVec| ==> dimVec[d] == if d < dimIdx then target[d] else entries[d]
      {
        var oldIdx := dimVec[dimIdx];
        if oldIdx != -1 {
          var idxE := idxExprs[n - 1 - dimIdx];
          if IsIntegerExpr(idxE) {
            var idx := GetIndexAsInteger(idxE);
            if idx > oldIdx {
              dimVec := dimVec[dimIdx := idx];
            }
          } else {
            dimVec := dimVec[dimIdx := -1];
          }
        }
        dimIdx := dimIdx + 1;
      }
    }

    // The inner loop of doAnalysis, on the dimensions of one variable.
    method AnalyseDims(v: VarId, dimVec: seq<int>, origDimVec: seq<int>, transformationCounter: int,
                       ghost p: Program, ghost before: seq<(VarId, nat)>)
      requires Dims(p, v) == Some(dimVec) && origDimVec == OrigDims(FirstSizes(p, v).value)
      requires validInstanceNum == |before| && Picked(transformationCounter, before, p)
      modifies this`validInstanceNum, this`theVarDecl, this`theDimValue, this`theDimIdx
      ensures validInstanceNum == |before + DimInstances(p, v, |dimVec|)|
      ensures Picked(transformationCounter, before + DimInstances(p, v, |dimVec|), p)
    {
      ghost var found := before;
      assert before + [] == before;
      for d := 0 to |dimVec|
        invariant found == before + DimInstances(p, v, d)
        invariant validInstanceNum == |found| && Picked(transformationCounter, found, p)
      {
        var dimV, origDimV := dimVec[d], origDimVec[d];
        assert IsInstance(p, v, d) <==> !(dimV == -1 || origDimV == 0 || dimV + 1 == origDimV);
        if dimV == -1 || origDimV == 0 || dimV + 1 == origDimV {
          continue;
        }
        assert before + (DimInstances(p, v, d) + [(v, d)]) == found + [(v, d)];
        found := found + [(v, d)];
        validInstanceNum := validInstanceNum + 1;
        if transformationCounter == validInstanceNum {
          theVarDecl, theDimValue, theDimIdx := Some(v), dimV, d;
        }
      }
    }

    // doAnalysis: the instances are counted, and the one with the number of the counter is kept.
    method DoAnalysis(transformationCounter: int, ghost p: Program)
      requires Analysed(p) && validInstanceNum == 0 && theVarDecl == None
      modifies this`validInstanceNum, this`theVarDecl, this`theDimValue, this`theDimIdx
      ensures validInstanceNum == |Instances(p)| && Picked(transformationCounter, Instances(p), p)
    {
      ghost var found := [];
      for i := 0 to |keys|
        invariant found == InstancesOf(p, keys[..i])
        invariant validInstanceNum == |found| && Picked(transformationCounter, found, p)
      {
        var v := keys[i];
        InstancesGrow(p, keys, i);
        AnalyseVar(v, transformationCounter, p, found);
        found := found + DimInstances(p, v, DimCount(p, v));
      }
      assert keys[..|keys|] == keys;
    }

    // One variable of the map, which may have no entries.
    method AnalyseVar(v: VarId, transformationCounter: int, ghost p: Program, ghost found: seq<(VarId, nat)>)
      requires v in varDeclToDim && varDeclToDim[v] == Dims(p, v)
      requires Dims(p, v).Some? ==> v in origVarDeclToDim && origVarDeclToDim[v] == OrigDims(FirstSizes(p, v).value)
      requires validInstanceNum == |found| && Picked(transformationCounter, found, p)
      modifies this`validInstanceNum, this`theVarDecl, this`theDimValue, this`theDimIdx
      ensures validInstanceNum == |found + DimInstances(p, v, DimCount(p, v))|
      ensures Picked(transformationCounter, found + DimInstances(p, v, DimCount(p, v)), p)
    {
      var dimVec := varDeclToDim[v];
      if dimVec.None? {
        assert found + [] == found;
        return;
      }
      AnalyseDims(v, dimVec.value, origVarDeclToDim[v], transformationCounter, p, found);
    }

    ghost predicate Picked(counter: int, found: seq<(VarId, nat)>, p: Program)
      reads this`theVarDecl, this`theDimValue, this`theDimIdx
    {
      if 1 <= counter <= |found| then
        var (v, d) := found[counter - 1];
        theVarDecl == Some(v) && theDimIdx == d && theDimValue == EntryAt(p, v, d)
      else theVarDecl == None
    }

    // The collecting visitor, which the assertion of handleOneASE may stop.
    method Traverse(p: Program) returns (ok: bool)
      requires Analysed([])
      modifies this`keys, this`varDeclToDim, this`origVarDeclToDim
      ensures ok <==> UsesFit(p)
      ensures ok ==> Analysed(p)
    {
      for i := 0 to |p|
        invariant Analysed(p[..i]) && UsesFit(p[..i])
      {
        assert p[..i + 1] == p[..i] + [p[i]] && p[..i + 1][..i] == p[..i];
        match p[i] {
          case Declare(v, sizes) => HandleOneVar(v, sizes, p[..i]);
          case Access(v, idxs, kind) =>
            ReversedTwice(idxs);
            ok := HandleOneASE(v, Reversed(idxs), kind, p[..i]);
            if !ok {
              UsesFitPrefix(p, i + 1);
              return;
            }
        }
      }
      assert p[..|p|] == p;
      ok := true;
    }

    // A whole run.
    method HandleTranslationUnit(p: Program, transformationCounter: int) returns (r: Outcome)
      requires Analysed([]) && validInstanceNum == 0 && theVarDecl == None && transformationCounter >= 1
      requires InRange(p)
      modifies this
      ensures r.AssertionFails? <==> !UsesFit(p)
      ensures UsesFit(p) ==> validInstanceNum == |Instances(p)|
      ensures UsesFit(p) ==> (r.MaxInstanceError? <==> transformationCounter > |Instances(p)|)
      ensures r.Reduced? ==> transformationCounter <= |Instances(p)| && r.program == RunAt(p, transformationCounter - 1)
      // The declarations of one variable get a new size in one dimension, which covers all recorded indices, which are all constant.
      ensures r.Reduced? ==> exists v: VarId, d: nat, size: nat :: IsShrunk(p, r.program, v, d, size) && CoversUses(p, v, d, size)
      ensures r.Reduced? ==> IsRun(p, r.program) && |Instances(r.program)| == |Instances(p)| - 1
    {
      var ok := Traverse(p);
      if !ok {
        return AssertionFails;
      }
      Analyse(p, transformationCounter);
      if transformationCounter > validInstanceNum {
        return MaxInstanceError;
      }
      var q := RewriteArrayVarDecl(p, transformationCounter);
      RunShrinks(p, q);
      r := Reduced(q);
    }

    method RewriteArrayVarDecl(p: Program, ghost counter: int) returns (q: Program)
      requires InRange(p) && 1 <= counter <= |Instances(p)| && theVarDecl.Some?
      requires Instances(p)[counter - 1] == (theVarDecl.value, theDimIdx)
      requires theDimValue == EntryAt(p, theVarDecl.value, theDimIdx)
      ensures q == RunAt(p, counter - 1)
    {
      RunPicked(p, counter, theVarDecl.value, theDimIdx, theDimValue);
      q := Rewritten(p, theVarDecl.value, theDimIdx, theDimValue + 1);
    }

    method Analyse(p: Program, transformationCounter: int)
      requires Analysed(p) && validInstanceNum == 0 && theVarDecl == None
      modifies this`validInstanceNum, this`theVarDecl, this`theDimValue, this`theDimIdx
      ensures validInstanceNum == |Instances(p)|
      ensures 1 <= transformationCounter <= |Instances(p)| ==>
        && theVarDecl.Some? && Instances(p)[transformationCounter - 1] == (theVarDecl.value, theDimIdx)
        && theDimValue == EntryAt(p, theVarDecl.value, theDimIdx)
    {
      DoAnalysis(transformationCounter, p);
    }
  }

  lemma InstancesGrow(p: Program, ks: seq<VarId>, i: nat)
    requires i < |ks|
    ensures InstancesOf(p, ks[..i + 1]) == InstancesOf(p, ks[..i]) + DimInstances(p, ks[i], DimCount(p, ks[i]))
  {
    assert ks[..i + 1][..i] == ks[..i] && ks[..i + 1][i] == ks[i];
  }

  lemma RunPicked(p: Program, counter: int, v: VarId, d: nat, entry: int)
    requires InRange(p) && 1 <= counter <= |Instances(p)|
    requires Instances(p)[counter - 1] == (v, d) && entry == EntryAt(p, v, d)
    ensures entry >= 0 && Rewritten(p, v, d, entry + 1) == RunAt(p, counter - 1)
  {
    assert IsRunOf(p, (v, d), RunAt(p, counter - 1));
  }
}
