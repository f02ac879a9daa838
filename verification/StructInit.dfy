/**
 Records, brace-enclosed initialisers and the values they give to fields, with the
 effect of clang_delta/RemoveUnusedStructField.cpp on both: one field disappears from
 its record and some initialisers disappear from the lists.
 */
module StructInit {
  import opened Wrappers

  datatype Type = Scalar(name: string) | Record(id: nat) | Array(elem: Type)

  datatype Field = Field(name: string, ty: Type)

  // An initialiser: an expression of the object's type, or a list in braces.
  datatype Init = Expr(text: string) | List(inits: seq<Init>)

  datatype Step = Member(name: string) | Elem(index: nat)

  // Where an initialiser stands: the index to take at each nesting of lists.
  type Position = seq<nat>

  // The record a type is built from, through any number of array dimensions (getBaseRecordDef).
  function BaseRecord(ty: Type): Option<nat> {
    match ty
    case Scalar(_) => None
    case Record(r) => Some(r)
    case Array(elem) => BaseRecord(elem)
  }

  // Records are numbered in the order of their declarations, so a record holds only earlier
  // ones, and the fields of a record have different names.
  predicate WellFormed(rs: seq<seq<Field>>) {
    forall r :: 0 <= r < |rs| ==>
      && (forall k :: 0 <= k < |rs[r]| && BaseRecord(rs[r][k].ty).Some? ==> BaseRecord(rs[r][k].ty).value < r)
      && (forall j, k :: 0 <= j < k < |rs[r]| ==> rs[r][j].name != rs[r][k].name)
  }

  type Records = rs: seq<seq<Field>> | WellFormed(rs)

  function Rank(ty: Type): nat {
    if BaseRecord(ty).Some? then BaseRecord(ty).value + 1 else 0
  }

  predicate Known(rs: Records, ty: Type) {
    BaseRecord(ty).Some? ==> BaseRecord(ty).value < |rs|
  }

  function FieldIndex(fs: seq<Field>, name: string): (r: Option<nat>)
    ensures r.Some? ==> r.value < |fs| && fs[r.value].name == name
    ensures r.None? ==> forall k :: 0 <= k < |fs| ==> fs[k].name != name
  {
    if fs == [] then None
    else if fs[|fs| - 1].name == name then Some(|fs| - 1)
    else FieldIndex(fs[..|fs| - 1], name)
  }

  // The type of the i-th child of a list that initialises a ty.
  function ChildType(rs: Records, ty: Type, i: nat): Option<Type> {
    match ty
    case Scalar(_) => None
    case Array(elem) => Some(elem)
    case Record(r) => if r < |rs| && i < |rs[r]| then Some(rs[r][i].ty) else None
  }

  // ----- Values -----

  // The initial value at the end of a path: what an initialiser says, a part of the value of
  // an expression, or zero where a list is too short.
  datatype Value = Zero | Given(init: Init) | PartOf(text: string, path: seq<Step>)

  // The child a step leads to.
  function ChildIndex(rs: Records, ty: Type, step: Step): Option<nat> {
    match (ty, step)
    case (Array(_), Elem(i)) => Some(i)
    case (Record(r), Member(name)) => if r < |rs| then FieldIndex(rs[r], name) else None
    case _ => None
  }

  function Read(rs: Records, ty: Type, init: Option<Init>, path: seq<Step>): Value
    decreases |path|
  {
    match init
    case None => Zero
    case Some(Expr(text)) => if path == [] then Given(Expr(text)) else PartOf(text, path)
    case Some(List(es)) =>
      if path == [] then Given(List(es))
      else
        var k := ChildIndex(rs, ty, path[0]);
        if k.None? || ChildType(rs, ty, k.value).None? then Zero
        else Read(rs, ChildType(rs, ty, k.value).value, if k.value < |es| then Some(es[k.value]) else None, path[1..])
  }

  // A path into an object of type ty that does not go through field f of record r, and
  // does not end at an object that holds such a record.
  ghost predicate PathBeside(rs: Records, ty: Type, path: seq<Step>, r: nat, f: nat)
    decreases |path|
  {
    if path == [] then !Holds(rs, ty, r)
    else
      var k := ChildIndex(rs, ty, path[0]);
      && k.Some? && ChildType(rs, ty, k.value).Some?
      && !(ty == Record(r) && k.value == f)
      && PathBeside(rs, ChildType(rs, ty, k.value).value, path[1..], r, f)
  }

  // Whether an object of type ty has record r inside it.
  predicate Holds(rs: Records, ty: Type, r: nat)
    decreases Rank(ty), 1, ty
  {
    match ty
    case Scalar(_) => false
    case Array(elem) => Holds(rs, elem, r)
    case Record(q) => q == r || (q < |rs| && HoldsFrom(rs, q, 0, r))
  }

  predicate HoldsFrom(rs: Records, q: nat, k: nat, r: nat)
    requires q < |rs| && k <= |rs[q]|
    decreases q + 1, 0, |rs[q]| - k
  {
    k < |rs[q]| && (Holds(rs, rs[q][k].ty, r) || HoldsFrom(rs, q, k + 1, r))
  }

  lemma {:induction false} HoldsSome(rs: Records, q: nat, from: nat, r: nat)
    requires q < |rs| && from <= |rs[q]|
    ensures HoldsFrom(rs, q, from, r) <==> exists k :: from <= k < |rs[q]| && Holds(rs, rs[q][k].ty, r)
    decreases |rs[q]| - from
  {
    if from < |rs[q]| {
      HoldsSome(rs, q, from + 1, r);
    }
  }

  // A record does not hold itself in one of its fields, nor a later record.
  lemma {:induction false} HoldsEarlier(rs: Records, ty: Type, r: nat)
    requires BaseRecord(ty).None? || BaseRecord(ty).value < r
    ensures !Holds(rs, ty, r)
    decreases Rank(ty), ty
  {
    match ty
    case Scalar(_) =>
    case Array(elem) => HoldsEarlier(rs, elem, r);
    case Record(q) =>
      if q < |rs| {
        forall k | 0 <= k < |rs[q]|
          ensures !Holds(rs, rs[q][k].ty, r)
        {
          HoldsEarlier(rs, rs[q][k].ty, r);
        }
        HoldsSome(rs, q, 0, r);
      }
  }

  // ----- Removing the field and the collected initialisers -----

  function WithoutField(rs: seq<seq<Field>>, r: nat, f: nat): seq<seq<Field>>
    requires r < |rs| && f < |rs[r]|
  {
    rs[r := rs[r][..f] + rs[r][f + 1..]]
  }

  lemma WithoutFieldWellFormed(rs: Records, r: nat, f: nat)
    requires r < |rs| && f < |rs[r]|
    ensures WellFormed(WithoutField(rs, r, f))
  {
  }

  // Drops the initialisers at the given positions, all at once; `at` is where init itself stands.
  function Remove(init: Init, ps: set<Position>, at: Position): Init
    decreases init, 0
  {
    match init
    case Expr(_) => init
    case List(es) => List(RemoveFrom(es, 0, ps, at))
  }

  function RemoveFrom(es: seq<Init>, i: nat, ps: set<Position>, at: Position): seq<Init>
    requires i <= |es|
    decreases es, |es| - i
  {
    if i == |es| then []
    else (if at + [i] in ps then [] else [Remove(es[i], ps, at + [i])]) + RemoveFrom(es, i + 1, ps, at)
  }

  // The initialisers of field f of record r, said directly: the lists met on the way
  // initialise objects, and the last one initialises the record.
  predicate IsTarget(rs: Records, r: nat, f: nat, ty: Type, init: Init, pos: Position)
    decreases |pos|
  {
    if pos == [] || init.Expr? || pos[0] >= |init.inits| then false
    else if ty == Record(r) then pos == [f]
    else match ChildType(rs, ty, pos[0])
      case None => false
      case Some(child) => IsTarget(rs, r, f, child, init.inits[pos[0]], pos[1..])
  }

  // What stands at a position, and the type of the object that it initialises.
  function InitAt(init: Init, pos: Position): Option<Init>
    decreases |pos|
  {
    if pos == [] then Some(init)
    else if init.List? && pos[0] < |init.inits| then InitAt(init.inits[pos[0]], pos[1..])
    else None
  }

  function TypeAt(rs: Records, ty: Type, pos: Position): Option<Type>
    decreases |pos|
  {
    if pos == [] then Some(ty)
    else match ChildType(rs, ty, pos[0])
      case None => None
      case Some(child) => TypeAt(rs, child, pos[1..])
  }

  lemma {:induction false} TypeStaysEarlier(rs: Records, ty: Type, pos: Position, r: nat)
    requires BaseRecord(ty).None? || BaseRecord(ty).value < r
    ensures TypeAt(rs, ty, pos) != Some(Record(r))
    decreases |pos|
  {
    if pos != [] && ChildType(rs, ty, pos[0]).Some? {
      TypeStaysEarlier(rs, ChildType(rs, ty, pos[0]).value, pos[1..], r);
    }
  }

  // The field's initialisers are the children with its number of the lists that stand where a record r is
  // initialised, wherever that is.
  lemma {:induction false} TargetIff(rs: Records, r: nat, f: nat, ty: Type, init: Init, pos: Position)
    requires pos != []
    ensures IsTarget(rs, r, f, ty, init, pos) <==>
            InitAt(init, pos).Some? && pos[|pos| - 1] == f && TypeAt(rs, ty, pos[..|pos| - 1]) == Some(Record(r))
    decreases |pos|
  {
    var above := pos[..|pos| - 1];
    if |pos| > 1 && init.List? && pos[0] < |init.inits| && ChildType(rs, ty, pos[0]).Some? {
      var child := ChildType(rs, ty, pos[0]).value;
      assert above[0] == pos[0] && above[1..] == pos[1..][..|pos| - 2];
      if ty == Record(r) {
        TypeStaysEarlier(rs, child, above[1..], r);
      } else {
        TargetIff(rs, r, f, child, init.inits[pos[0]], pos[1..]);
      }
    }
  }

  // ps holds exactly the initialisers of the field that stand inside init.
  ghost predicate Selects(rs: Records, r: nat, f: nat, ty: Type, init: Init, ps: set<Position>, at: Position) {
    forall pos: Position {:trigger at + pos} :: at + pos in ps <==> IsTarget(rs, r, f, ty, init, pos)
  }

  lemma SelectsChild(rs: Records, r: nat, f: nat, ty: Type, es: seq<Init>, ps: set<Position>, at: Position, i: nat)
    requires Selects(rs, r, f, ty, List(es), ps, at)
    requires i < |es| && ty != Record(r) && ChildType(rs, ty, i).Some?
    ensures at + [i] !in ps
    ensures Selects(rs, r, f, ChildType(rs, ty, i).value, es[i], ps, at + [i])
  {
    forall pos: Position
      ensures at + [i] + pos in ps <==> IsTarget(rs, r, f, ChildType(rs, ty, i).value, es[i], pos)
    {
      assert at + [i] + pos == at + ([i] + pos);
      assert ([i] + pos)[1..] == pos;
    }
    assert !IsTarget(rs, r, f, ty, List(es), [i]);
  }

  lemma {:induction false} RemoveFromShape(es: seq<Init>, i: nat, ps: set<Position>, at: Position)
    requires i <= |es|
    requires forall k :: i <= k < |es| ==> at + [k] !in ps
    ensures |RemoveFrom(es, i, ps, at)| == |es| - i
    ensures forall k :: i <= k < |es| ==> RemoveFrom(es, i, ps, at)[k - i] == Remove(es[k], ps, at + [k])
    decreases |es| - i
  {
    if i < |es| {
      RemoveFromShape(es, i + 1, ps, at);
      var rest := RemoveFrom(es, i + 1, ps, at);
      assert RemoveFrom(es, i, ps, at) == [Remove(es[i], ps, at + [i])] + rest;
      forall k | i <= k < |es|
        ensures RemoveFrom(es, i, ps, at)[k - i] == Remove(es[k], ps, at + [k])
      {
        if k > i {
          assert RemoveFrom(es, i, ps, at)[k - i] == rest[k - (i + 1)];
        }
      }
    }
  }

  // How many of the initialisers from i up to k stay.
  function Place(ps: set<Position>, at: Position, i: nat, k: nat): nat
    requires i <= k
    decreases k - i
  {
    if i == k then 0 else (if at + [i] in ps then 0 else 1) + Place(ps, at, i + 1, k)
  }

  lemma {:induction false} RemovedLength(es: seq<Init>, i: nat, ps: set<Position>, at: Position)
    requires i <= |es|
    ensures |RemoveFrom(es, i, ps, at)| == Place(ps, at, i, |es|)
    decreases |es| - i
  {
    if i < |es| {
      RemovedLength(es, i + 1, ps, at);
    }
  }

  lemma {:induction false} RemovedPlace(es: seq<Init>, i: nat, ps: set<Position>, at: Position, k: nat)
    requires i <= k < |es| && at + [k] !in ps
    ensures
      var s, place := RemoveFrom(es, i, ps, at), Place(ps, at, i, k);
      place < |s| && s[place] == Remove(es[k], ps, at + [k])
    decreases k - i
  {
    if i < k {
      RemovedPlace(es, i + 1, ps, at, k);
    }
  }

  // When initialiser f alone is removed, those behind it move up by one.
  lemma {:induction false} PlaceWithoutOne(ps: set<Position>, at: Position, f: nat, i: nat, k: nat)
    requires i <= k && at + [f] in ps && forall j :: i <= j < k && j != f ==> at + [j] !in ps
    ensures Place(ps, at, i, k) == k - i - if i <= f < k then 1 else 0
    decreases k - i
  {
    if i < k {
      PlaceWithoutOne(ps, at, f, i + 1, k);
    }
  }

  // Where nothing is selected, nothing changes.
  lemma {:induction false} RemoveNothing(init: Init, ps: set<Position>, at: Position)
    requires forall pos: Position {:trigger at + pos} :: pos != [] ==> at + pos !in ps
    ensures Remove(init, ps, at) == init
    decreases init
  {
    match init
    case Expr(_) =>
    case List(es) =>
      forall k | 0 <= k < |es|
        ensures at + [k] !in ps && Remove(es[k], ps, at + [k]) == es[k]
      {
        forall pos: Position | pos != []
          ensures at + [k] + pos !in ps
        {
          var q: Position := [k] + pos;
          assert q != [] && at + q !in ps;
          assert at + [k] + pos == at + q;
        }
        var single: Position := [k];
        assert single != [] && at + single !in ps;
        RemoveNothing(es[k], ps, at + [k]);
      }
      RemoveFromShape(es, 0, ps, at);
      assert RemoveFrom(es, 0, ps, at) == es;
  }

  // Reading an object without the record it holds: the initialiser of such an object is left alone.
  lemma {:induction false} NoTargetInside(rs: Records, r: nat, f: nat, ty: Type, init: Init, pos: Position)
    requires !Holds(rs, ty, r)
    ensures !IsTarget(rs, r, f, ty, init, pos)
    decreases |pos|
  {
    if pos != [] && init.List? && pos[0] < |init.inits| && ChildType(rs, ty, pos[0]).Some? {
      if ty.Record? {
        HoldsSome(rs, ty.id, 0, r);
      }
      NoTargetInside(rs, r, f, ChildType(rs, ty, pos[0]).value, init.inits[pos[0]], pos[1..]);
    }
  }

  // The initialisers beside the removed one, in a list for the record itself.
  lemma SiblingUntouched(rs: Records, r: nat, f: nat, es: seq<Init>, ps: set<Position>, at: Position, k: nat)
    requires Selects(rs, r, f, Record(r), List(es), ps, at)
    requires k < |es| && k != f
    ensures at + [k] !in ps && Remove(es[k], ps, at + [k]) == es[k]
  {
    assert !IsTarget(rs, r, f, Record(r), List(es), [k]);
    forall pos: Position | pos != []
      ensures at + [k] + pos !in ps
    {
      assert at + [k] + pos == at + ([k] + pos);
      assert !IsTarget(rs, r, f, Record(r), List(es), [k] + pos);
    }
    RemoveNothing(es[k], ps, at + [k]);
  }

  lemma FieldIndexUnique(fs: seq<Field>, name: string, k: nat)
    requires k < |fs| && fs[k].name == name
    requires forall i, j :: 0 <= i < j < |fs| ==> fs[i].name != fs[j].name
    ensures FieldIndex(fs, name) == Some(k)
  {
    var i := FieldIndex(fs, name).value;
    assert !(i < k) && !(k < i);
  }

  lemma IndexWithoutField(rs: Records, r: nat, f: nat, k: nat)
    requires r < |rs| && f < |rs[r]| && k < |rs[r]| && k != f
    ensures FieldIndex(WithoutField(rs, r, f)[r], rs[r][k].name) == Some(if k < f then k else k - 1)
    ensures WithoutField(rs, r, f)[r][if k < f then k else k - 1] == rs[r][k]
  {
    var fs := WithoutField(rs, r, f)[r];
    assert forall i :: 0 <= i < |fs| ==> fs[i] == rs[r][if i < f then i else i + 1];
    FieldIndexUnique(fs, rs[r][k].name, if k < f then k else k - 1);
  }

  // Removing the field and the selected initialisers leaves the initial value at every
  // other path as it was: for every type, every initialiser with lists as long or as short
  // as they may be, and every path beside the field.
  lemma {:induction false} ReadPreserved(rs: Records, r: nat, f: nat, ty: Type, init: Init,
                                         ps: set<Position>, at: Position, path: seq<Step>)
    requires r < |rs| && f < |rs[r]|
    requires Selects(rs, r, f, ty, init, ps, at)
    requires PathBeside(rs, ty, path, r, f)
    ensures Read(WithoutField(rs, r, f), ty, Some(Remove(init, ps, at)), path) == Read(rs, ty, Some(init), path)
    decreases |path|
  {
    match init
    case Expr(_) =>
    case List(es) =>
      if path == [] {
        forall pos: Position
          ensures at + pos !in ps
        {
          NoTargetInside(rs, r, f, ty, init, pos);
        }
        RemoveNothing(init, ps, at);
      } else if ty == Record(r) {
        ReadSibling(rs, r, f, es, ps, at, path);
      } else {
        ReadChild(rs, r, f, ty, es, ps, at, path);
      }
  }

  // A path that starts beside the record's removed field.
  lemma {:induction false} ReadSibling(rs: Records, r: nat, f: nat, es: seq<Init>, ps: set<Position>, at: Position, path: seq<Step>)
    requires r < |rs| && f < |rs[r]| && path != []
    requires Selects(rs, r, f, Record(r), List(es), ps, at)
    requires PathBeside(rs, Record(r), path, r, f)
    ensures Read(WithoutField(rs, r, f), Record(r), Some(Remove(List(es), ps, at)), path) == Read(rs, Record(r), Some(List(es)), path)
    decreases |path|, 0
  {
    var k := ChildIndex(rs, Record(r), path[0]).value;
    var k' := if k < f then k else k - 1;
    IndexWithoutField(rs, r, f, k);
    RemoveAtRecord(rs, r, f, es, ps, at, k);
    HoldsEarlier(rs, rs[r][k].ty, r);
    ReadWithoutRecord(rs, r, f, rs[r][k].ty, if k < |es| then Some(es[k]) else None, path[1..]);
  }

  // A list for the record loses its f-th initialiser, if it has one, and nothing else.
  lemma RemoveAtRecord(rs: Records, r: nat, f: nat, es: seq<Init>, ps: set<Position>, at: Position, k: nat)
    requires Selects(rs, r, f, Record(r), List(es), ps, at) && k != f
    ensures
      var es', k' := RemoveFrom(es, 0, ps, at), if k < f then k else k - 1;
      (k' < |es'| <==> k < |es|) && (k < |es| ==> es'[k'] == es[k])
  {
    forall i | 0 <= i < |es| && i != f
      ensures at + [i] !in ps && Remove(es[i], ps, at + [i]) == es[i]
    {
      SiblingUntouched(rs, r, f, es, ps, at, i);
    }
    if f < |es| {
      assert IsTarget(rs, r, f, Record(r), List(es), [f]);
      RemovedLength(es, 0, ps, at);
      PlaceWithoutOne(ps, at, f, 0, |es|);
      if k < |es| {
        RemovedPlace(es, 0, ps, at, k);
        PlaceWithoutOne(ps, at, f, 0, k);
      }
    } else {
      RemoveFromShape(es, 0, ps, at);
      assert k < |es| ==> RemoveFrom(es, 0, ps, at)[k - 0] == es[k];
    }
  }

  // Objects that do not hold the record read the same with or without its field.
  lemma {:induction false} ReadWithoutRecord(rs: Records, r: nat, f: nat, ty: Type, init: Option<Init>, path: seq<Step>)
    requires r < |rs| && f < |rs[r]| && !Holds(rs, ty, r)
    ensures Read(WithoutField(rs, r, f), ty, init, path) == Read(rs, ty, init, path)
    decreases |path|
  {
    if path != [] && init.Some? && init.value.List? {
      var k := ChildIndex(rs, ty, path[0]);
      if k.Some? && ChildType(rs, ty, k.value).Some? {
        if ty.Record? {
          HoldsSome(rs, ty.id, 0, r);
        }
        var es := init.value.inits;
        ReadWithoutRecord(rs, r, f, ChildType(rs, ty, k.value).value,
                          if k.value < |es| then Some(es[k.value]) else None, path[1..]);
      }
    }
  }

  // A path that starts in an array, or in another record.
  lemma {:induction false} ReadChild(rs: Records, r: nat, f: nat, ty: Type, es: seq<Init>, ps: set<Position>, at: Position, path: seq<Step>)
    requires r < |rs| && f < |rs[r]| && path != [] && ty != Record(r)
    requires Selects(rs, r, f, ty, List(es), ps, at)
    requires PathBeside(rs, ty, path, r, f)
    ensures Read(WithoutField(rs, r, f), ty, Some(Remove(List(es), ps, at)), path) == Read(rs, ty, Some(List(es)), path)
    decreases |path|, 0
  {
    var k := ChildIndex(rs, ty, path[0]).value;
    var child := ChildType(rs, ty, k).value;
    forall i | 0 <= i < |es|
      ensures at + [i] !in ps
    {
      assert !IsTarget(rs, r, f, ty, List(es), [i]);
    }
    RemoveFromShape(es, 0, ps, at);
    if k < |es| {
      SelectsChild(rs, r, f, ty, es, ps, at, k);
      ReadPreserved(rs, r, f, child, es[k], ps, at + [k], path[1..]);
    }
  }
}
