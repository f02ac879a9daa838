/**
 clang_delta/RenameClass.cpp: one class at a time gets a free capital letter, classes of a lower
 inheritance level first. The letters E, T and U are reserved (the description of the pass says
 E, T and Z).
 */
module RenameClass {
  import opened Collections
  import opened Wrappers

  type ClassId = nat

  // A visit of a class. A base is None when its declaration is not known; `special` stands for special
  // records and template specialisations.
  datatype Class = Class(id: ClassId, name: string, special: bool, defined: bool, bases: seq<Option<ClassId>>)

  // The visits of the collecting visitor, in order.
  type Program = seq<Class>

  // The declarations of one class have one name.
  predicate WellFormed(p: Program) {
    forall c, d :: c in p && d in p && c.id == d.id ==> c.name == d.name
  }

  // ----- Letters -----

  predicate IsReserved(c: char) {
    c == 'E' || c == 'T' || c == 'U'
  }

  predicate IsLetter(c: char) {
    'A' <= c <= 'Z' && !IsReserved(c)
  }

  predicate IsValidName(name: string) {
    |name| == 1 && IsLetter(name[0])
  }

  // The 23 letters that are free to use, in order.
  lemma LetterAt(k: nat)
    requires k < 23
    ensures "ABCDFGHIJKLMNOPQRSVWXYZ"[k] as int == 65 + k + (if k >= 4 then 1 else 0) + if k >= 18 then 2 else 0
  {
  }

  // A free name is one of them.
  lemma LettersAre(c: char)
    ensures IsLetter(c) <==> c in "ABCDFGHIJKLMNOPQRSVWXYZ"
  {
    var s := "ABCDFGHIJKLMNOPQRSVWXYZ";
    forall k | 0 <= k < 23
      ensures IsLetter(s[k])
    {
    }
    if IsLetter(c) {
      var n := c as int;
      var k := n - 65 - (if n > 69 then 1 else 0) - if n > 84 then 2 else 0;
      LetterAt(k);
    }
  }

  // All of them.
  lemma LetterSet()
    ensures |Elements("ABCDFGHIJKLMNOPQRSVWXYZ")| == 23
    ensures forall c :: c in Elements("ABCDFGHIJKLMNOPQRSVWXYZ") <==> IsLetter(c)
  {
    var s := "ABCDFGHIJKLMNOPQRSVWXYZ";
    forall i, j | 0 <= i < j < |s|
      ensures s[i] != s[j]
    {
      LetterAt(i);
      LetterAt(j);
    }
    DistinctSize(s);
    forall c
      ensures c in s <==> IsLetter(c)
    {
      LettersAre(c);
    }
  }

  ghost predicate IsLeastFree(used: set<char>, c: char) {
    IsLetter(c) && c !in used && forall d :: IsLetter(d) && d < c ==> d in used
  }

  ghost predicate HasFree(used: set<char>) {
    exists c :: IsLetter(c) && c !in used
  }

  // There is a free letter exactly when fewer than 23 are in use.
  lemma FreeLetterIff(used: set<char>)
    requires forall c :: c in used ==> IsLetter(c)
    ensures HasFree(used) <==> |used| < 23
  {
    var all := Elements("ABCDFGHIJKLMNOPQRSVWXYZ");
    LetterSet();
    assert used <= all;
    assert all == used + (all - used);
    if |used| < 23 {
      assert |all - used| > 0;
      var c :| c in all - used;
      assert IsLetter(c) && c !in used;
    } else {
      assert |all - used| == 0;
      assert all - used == {};
    }
  }

  lemma {:induction false} LeastOfLetters(used: set<char>, c: char)
    requires IsLetter(c) && c !in used
    ensures exists letter :: IsLeastFree(used, letter)
    decreases c as int
  {
    if d :| IsLetter(d) && d < c && d !in used {
      LeastOfLetters(used, d);
    } else {
      assert IsLeastFree(used, c);
    }
  }

  // ----- The analysis as a function of the program -----

  datatype Record = Record(c: Class, level: nat)

  // RecordToLevel
  function Levels(rs: seq<Record>): map<ClassId, nat> {
    if rs == [] then map[] else Levels(rs[..|rs| - 1])[rs[|rs| - 1].c.id := rs[|rs| - 1].level]
  }

  function AtLevel(m: map<nat, set<ClassId>>, level: nat): set<ClassId> {
    if level in m then m[level] else {}
  }

  // LevelToRecords
  function ByLevel(rs: seq<Record>): map<nat, set<ClassId>> {
    if rs == [] then map[]
    else
      var before, r := ByLevel(rs[..|rs| - 1]), rs[|rs| - 1];
      before[r.level := AtLevel(before, r.level) + {r.c.id}]
  }

  function MaxLevel(rs: seq<Record>): nat {
    if rs == [] then 0
    else
      var before, level := MaxLevel(rs[..|rs| - 1]), rs[|rs| - 1].level;
      if level > before then level else before
  }

  function UsedNames(rs: seq<Record>): set<char> {
    if rs == [] then {}
    else
      var name := rs[|rs| - 1].c.name;
      UsedNames(rs[..|rs| - 1]) + if IsValidName(name) then {name[0]} else {}
  }

  function UsedNameDecls(rs: seq<Record>): set<ClassId> {
    if rs == [] then {}
    else
      var c := rs[|rs| - 1].c;
      UsedNameDecls(rs[..|rs| - 1]) + if IsValidName(c.name) then {c.id} else {}
  }

  // The largest level of the bases that have been recorded.
  function BaseLevel(levels: map<ClassId, nat>, id: ClassId, bases: seq<Option<ClassId>>): nat {
    if bases == [] then 0
    else
      var level, base := BaseLevel(levels, id, bases[..|bases| - 1]), bases[|bases| - 1];
      if base.None? || base.value == id || base.value !in levels then level
      else if levels[base.value] > level then levels[base.value]
      else level
  }

  function LevelOf(levels: map<ClassId, nat>, c: Class): nat {
    if !c.defined || c.bases == [] then 0 else BaseLevel(levels, c.id, c.bases) + 1
  }

  predicate IsSkipped(levels: map<ClassId, nat>, c: Class) {
    c.special || c.name == "" || c.id in levels
  }

  // One visit.
  function Visit(rs: seq<Record>, c: Class): seq<Record> {
    var levels := Levels(rs);
    if IsSkipped(levels, c) then rs else rs + [Record(c, LevelOf(levels, c))]
  }

  // The recorded classes, in the order of their first visits.
  function Records(p: Program): seq<Record> {
    if p == [] then [] else Visit(Records(p[..|p| - 1]), p[|p| - 1])
  }

  predicate Distinct(rs: seq<Record>) {
    rs == [] || (Distinct(rs[..|rs| - 1]) && rs[|rs| - 1].c.id !in Levels(rs[..|rs| - 1]) && rs[|rs| - 1].c.name != "")
  }

  lemma {:induction false} RecordsDistinct(p: Program)
    ensures Distinct(Records(p))
    ensures forall id :: id in Levels(Records(p)) ==> exists c :: c in p && c.id == id && c.name != ""
  {
    if p != [] {
      var q, c := p[..|p| - 1], p[|p| - 1];
      RecordsDistinct(q);
      assert c in p && forall d :: d in q ==> d in p;
      var rs := Records(q);
      assert (rs + [Record(c, LevelOf(Levels(rs), c))])[..|rs|] == rs;
    }
  }

  lemma {:induction false} ByLevelAre(rs: seq<Record>, level: nat)
    requires Distinct(rs)
    ensures forall id: ClassId :: id in AtLevel(ByLevel(rs), level) <==> id in Levels(rs) && Levels(rs)[id] == level
  {
    if rs != [] {
      ByLevelAre(rs[..|rs| - 1], level);
    }
  }

  lemma {:induction false} LevelsBounded(rs: seq<Record>)
    ensures forall id :: id in Levels(rs) ==> Levels(rs)[id] <= MaxLevel(rs)
  {
    if rs != [] {
      LevelsBounded(rs[..|rs| - 1]);
    }
  }

  lemma {:induction false} NamesAreLetters(rs: seq<Record>)
    ensures forall c :: c in UsedNames(rs) ==> IsLetter(c)
  {
    if rs != [] {
      NamesAreLetters(rs[..|rs| - 1]);
    }
  }

  // ----- Levels of bases -----

  lemma {:induction false} BaseLevelCovers(levels: map<ClassId, nat>, id: ClassId, bases: seq<Option<ClassId>>, base: ClassId)
    requires Some(base) in bases && base != id && base in levels
    ensures levels[base] <= BaseLevel(levels, id, bases)
  {
    var k := |bases| - 1;
    assert bases == bases[..k] + [bases[k]];
    if bases[k] != Some(base) {
      BaseLevelCovers(levels, id, bases[..k], base);
    }
  }

  // Levels that were given stay.
  lemma {:induction false} LevelsStay(p: Program, i: nat, id: ClassId)
    requires i <= |p| && id in Levels(Records(p[..i]))
    ensures id in Levels(Records(p)) && Levels(Records(p))[id] == Levels(Records(p[..i]))[id]
  {
    if i == |p| {
      assert p[..i] == p;
    } else {
      var q, c := p[..|p| - 1], p[|p| - 1];
      assert q[..i] == p[..i];
      LevelsStay(q, i, id);
      var rs := Records(q);
      assert (rs + [Record(c, LevelOf(Levels(rs), c))])[..|rs|] == rs;
    }
  }

  // A class that is recorded after one of its bases is on a higher level.
  lemma DerivedAbove(p: Program, i: nat, base: ClassId)
    requires i < |p| && !IsSkipped(Levels(Records(p[..i])), p[i]) && p[i].defined
    requires Some(base) in p[i].bases && base != p[i].id && base in Levels(Records(p[..i]))
    ensures p[i].id in Levels(Records(p)) && base in Levels(Records(p))
    ensures Levels(Records(p))[base] < Levels(Records(p))[p[i].id]
  {
    var rs, c := Records(p[..i]), p[i];
    BaseLevelCovers(Levels(rs), c.id, c.bases, base);
    assert p[..i + 1][..i] == p[..i] && p[..i + 1][i] == c;
    assert (rs + [Record(c, LevelOf(Levels(rs), c))])[..|rs|] == rs;
    LevelsStay(p, i + 1, c.id);
    LevelsStay(p, i, base);
  }

  // ----- Levels as heights of chains -----

  predicate HasBases(c: Class) {
    c.defined && c.bases != []
  }

  predicate DerivesFrom(c: Class, base: ClassId) {
    c.defined && Some(base) in c.bases && base != c.id
  }

  // Numbers of recorded classes, each derived from the one before and recorded after it.
  predicate IsChain(rs: seq<Record>, ks: seq<nat>) {
    var last := |ks| - 1;
    last >= 0 && ks[last] < |rs| &&
    (last > 0 ==>
       ks[last - 1] < ks[last] && DerivesFrom(rs[ks[last]].c, rs[ks[last - 1]].c.id) && IsChain(rs, ks[..last]))
  }

  // The steps of a chain, and one more when its first class has bases itself.
  function Height(rs: seq<Record>, ks: seq<nat>): nat
    requires IsChain(rs, ks)
  {
    if |ks| > 1 then Height(rs, ks[..|ks| - 1]) + 1
    else if HasBases(rs[ks[0]].c) then 1
    else 0
  }

  // A chain of height n leads to the class.
  ghost predicate Reaches(rs: seq<Record>, id: ClassId, n: nat) {
    exists ks :: IsChain(rs, ks) && rs[ks[|ks| - 1]].c.id == id && Height(rs, ks) == n
  }

  // Every class is recorded once, with the level that the records before it determine.
  predicate Consistent(rs: seq<Record>) {
    rs == [] ||
    (var before, r := rs[..|rs| - 1], rs[|rs| - 1];
     Consistent(before) && r.c.id !in Levels(before) && r.level == LevelOf(Levels(before), r.c))
  }

  lemma {:induction false} RecordsConsistent(p: Program)
    ensures Consistent(Records(p))
  {
    if p != [] {
      var rs, c := Records(p[..|p| - 1]), p[|p| - 1];
      RecordsConsistent(p[..|p| - 1]);
      assert (rs + [Record(c, LevelOf(Levels(rs), c))])[..|rs|] == rs;
    }
  }

  lemma {:induction false} LevelAt(rs: seq<Record>, k: nat)
    requires Consistent(rs) && k < |rs|
    ensures Consistent(rs[..k]) && rs[k].level == LevelOf(Levels(rs[..k]), rs[k].c)
    ensures rs[k].c.id in Levels(rs) && Levels(rs)[rs[k].c.id] == rs[k].level
  {
    var last := |rs| - 1;
    if k < last {
      assert rs[..last][..k] == rs[..k] && rs[..last][k] == rs[k];
      LevelAt(rs[..last], k);
    }
  }

  lemma {:induction false} RecordOf(rs: seq<Record>, id: ClassId) returns (k: nat)
    requires id in Levels(rs)
    ensures k < |rs| && rs[k].c.id == id
  {
    k := |rs| - 1;
    if rs[k].c.id != id {
      k := RecordOf(rs[..k], id);
    }
  }

  // The largest level is that of a base, unless it is 0.
  lemma {:induction false} BaseLevelReached(levels: map<ClassId, nat>, id: ClassId, bases: seq<Option<ClassId>>)
    returns (base: ClassId)
    requires BaseLevel(levels, id, bases) > 0
    ensures Some(base) in bases && base != id && base in levels && levels[base] == BaseLevel(levels, id, bases)
  {
    var k := |bases| - 1;
    assert bases == bases[..k] + [bases[k]];
    if BaseLevel(levels, id, bases) == BaseLevel(levels, id, bases[..k]) {
      base := BaseLevelReached(levels, id, bases[..k]);
    } else {
      base := bases[k].value;
    }
  }

  lemma {:induction false} ChainBelow(rs: seq<Record>, ks: seq<nat>)
    requires Consistent(rs) && IsChain(rs, ks)
    ensures Height(rs, ks) <= rs[ks[|ks| - 1]].level
  {
    var last := |ks| - 1;
    var k := ks[last];
    LevelAt(rs, k);
    if last > 0 {
      var levels, prev := Levels(rs[..k]), ks[last - 1];
      ChainBelow(rs, ks[..last]);
      LevelAt(rs[..k], prev);
      BaseLevelCovers(levels, rs[k].c.id, rs[k].c.bases, rs[prev].c.id);
    }
  }

  lemma {:induction false} ChainReaches(rs: seq<Record>, k: nat) returns (ks: seq<nat>)
    requires Consistent(rs) && k < |rs|
    ensures IsChain(rs, ks) && ks[|ks| - 1] == k && Height(rs, ks) == rs[k].level
    decreases k
  {
    LevelAt(rs, k);
    var levels, c := Levels(rs[..k]), rs[k].c;
    ks := [k];
    if HasBases(c) && BaseLevel(levels, c.id, c.bases) > 0 {
      var base := BaseLevelReached(levels, c.id, c.bases);
      var prev := RecordOf(rs[..k], base);
      LevelAt(rs[..k], prev);
      var before := ChainReaches(rs, prev);
      ks := before + [k];
      assert ks[..|ks| - 1] == before;
    }
  }

  // The level of a class is the height of the highest chain that leads to it.
  lemma LevelIsHeight(p: Program, id: ClassId)
    requires id in Levels(Records(p))
    ensures Reaches(Records(p), id, Levels(Records(p))[id])
    ensures forall n: nat :: Reaches(Records(p), id, n) ==> n <= Levels(Records(p))[id]
  {
    var rs := Records(p);
    RecordsConsistent(p);
    var k := RecordOf(rs, id);
    LevelAt(rs, k);
    var ks := ChainReaches(rs, k);
    forall n: nat | Reaches(rs, id, n)
      ensures n <= Levels(rs)[id]
    {
      var js :| IsChain(rs, js) && rs[js[|js| - 1]].c.id == id && Height(rs, js) == n;
      ChainBelow(rs, js);
      LevelAt(rs, js[|js| - 1]);
    }
  }

  // A chain to d is higher than all chains to b.
  ghost predicate ReachesHigher(rs: seq<Record>, d: ClassId, b: ClassId) {
    exists n: nat :: Reaches(rs, d, n) && forall m: nat :: Reaches(rs, b, m) ==> m < n
  }

  lemma LowerIff(p: Program, b: ClassId, d: ClassId)
    requires b in Levels(Records(p)) && d in Levels(Records(p))
    ensures Levels(Records(p))[b] < Levels(Records(p))[d] <==> ReachesHigher(Records(p), d, b)
  {
    LevelIsHeight(p, b);
    LevelIsHeight(p, d);
  }

  // ----- Instances -----

  // What the analysis knows, and which classes are declared in included files.
  datatype State = State(levels: map<ClassId, nat>, decls: set<ClassId>, names: set<char>, included: set<ClassId>)

  function StateOf(rs: seq<Record>, included: set<ClassId>): State {
    State(Levels(rs), UsedNameDecls(rs), UsedNames(rs), included)
  }

  // The state after the analysis of a program.
  function Analysed(p: Program, included: set<ClassId>): State {
    StateOf(Records(p), included)
  }

  predicate IsInstance(s: State, id: ClassId) {
    id in s.levels && id !in s.decls && id !in s.included
  }

  function Instances(s: State): set<ClassId> {
    set id | id in s.levels && IsInstance(s, id)
  }

  // An order in which the instances can be counted: each once, by rising levels. Within a level the
  // order is that of a set of pointers.
  ghost predicate Enumerates(s: State, order: seq<ClassId>) {
    && (forall id :: id in order <==> IsInstance(s, id))
    && NoDuplicates(order) && ByRisingLevel(s.levels, order)
  }

  predicate ByRisingLevel(levels: map<ClassId, nat>, order: seq<ClassId>) {
    && (forall id :: id in order ==> id in levels)
    && (forall i, j :: 0 <= i < j < |order| ==> levels[order[i]] <= levels[order[j]])
  }

  // The class that the counter picks.
  ghost predicate InOrder(s: State, id: ClassId, counter: int) {
    exists order :: Enumerates(s, order) && 1 <= counter <= |order| && order[counter - 1] == id
  }

  // With counter 1, it is an instance, and none of a lower level is left.
  lemma FirstIsLowest(s: State, id: ClassId, other: ClassId)
    requires InOrder(s, id, 1) && IsInstance(s, other)
    ensures IsInstance(s, id) && s.levels[id] <= s.levels[other]
  {
    var order :| Enumerates(s, order) && 1 <= |order| && order[0] == id;
    var j :| 0 <= j < |order| && order[j] == other;
    assert id in order;
  }

  lemma {:induction false} SizeOfOrder(order: seq<ClassId>, all: set<ClassId>)
    requires NoDuplicates(order) && forall id :: id in order <==> id in all
    ensures |order| == |all|
  {
    if order == [] {
      assert all == {};
    } else {
      var k := |order| - 1;
      assert order == order[..k] + [order[k]];
      assert order[k] in all;
      SizeOfOrder(order[..k], all - {order[k]});
    }
  }

  // ----- Renaming -----

  function RenamedClass(c: Class, id: ClassId, letter: char): Class {
    if c.id == id then c.(name := [letter]) else c
  }

  function Renamed(p: Program, id: ClassId, letter: char): (q: Program)
    ensures |q| == |p| && forall i :: 0 <= i < |p| ==> q[i] == RenamedClass(p[i], id, letter)
  {
    seq(|p|, i requires 0 <= i < |p| => RenamedClass(p[i], id, letter))
  }

  function RenamedRecords(rs: seq<Record>, id: ClassId, letter: char): (q: seq<Record>)
    ensures |q| == |rs| && forall i :: 0 <= i < |rs| ==> q[i] == Record(RenamedClass(rs[i].c, id, letter), rs[i].level)
  {
    seq(|rs|, i requires 0 <= i < |rs| => Record(RenamedClass(rs[i].c, id, letter), rs[i].level))
  }

  lemma RenamedPrefix(rs: seq<Record>, id: ClassId, letter: char)
    requires rs != []
    ensures RenamedRecords(rs, id, letter)[..|rs| - 1] == RenamedRecords(rs[..|rs| - 1], id, letter)
  {
  }

  lemma {:induction false} LevelsRenamed(rs: seq<Record>, id: ClassId, letter: char)
    ensures Levels(RenamedRecords(rs, id, letter)) == Levels(rs)
  {
    if rs != [] {
      RenamedPrefix(rs, id, letter);
      LevelsRenamed(rs[..|rs| - 1], id, letter);
    }
  }

  lemma {:induction false} DeclsRenamed(rs: seq<Record>, id: ClassId, letter: char)
    requires IsLetter(letter)
    ensures UsedNameDecls(RenamedRecords(rs, id, letter)) == UsedNameDecls(rs) + if id in Levels(rs) then {id} else {}
  {
    if rs != [] {
      RenamedPrefix(rs, id, letter);
      DeclsRenamed(rs[..|rs| - 1], id, letter);
    }
  }

  lemma {:induction false} NamesRenamed(rs: seq<Record>, id: ClassId, letter: char)
    requires IsLetter(letter) && id !in UsedNameDecls(rs)
    ensures UsedNames(RenamedRecords(rs, id, letter)) == UsedNames(rs) + if id in Levels(rs) then {letter} else {}
  {
    if rs != [] {
      RenamedPrefix(rs, id, letter);
      NamesRenamed(rs[..|rs| - 1], id, letter);
    }
  }

  // A renamed program is recorded as before, with the new name.
  lemma {:induction false} RecordsRenamed(p: Program, id: ClassId, letter: char)
    requires forall c :: c in p && c.id == id ==> c.name != ""
    ensures Records(Renamed(p, id, letter)) == RenamedRecords(Records(p), id, letter)
  {
    if p != [] {
      var q, c := p[..|p| - 1], p[|p| - 1];
      assert c in p && forall d :: d in q ==> d in p;
      RecordsRenamed(q, id, letter);
      assert Renamed(p, id, letter)[..|p| - 1] == Renamed(q, id, letter);
      VisitRenamed(Records(q), c, id, letter);
    }
  }

  lemma VisitRenamed(rs: seq<Record>, c: Class, id: ClassId, letter: char)
    requires c.id == id ==> c.name != ""
    ensures Visit(RenamedRecords(rs, id, letter), RenamedClass(c, id, letter)) == RenamedRecords(Visit(rs, c), id, letter)
  {
    LevelsRenamed(rs, id, letter);
  }

  // ----- Repeated runs -----

  // The state after a class has got a letter.
  function Next(s: State, id: ClassId, letter: char): State {
    s.(decls := s.decls + {id}, names := s.names + {letter})
  }

  // Renaming a class of a program does just that to the state, and leaves the levels.
  lemma RenamedState(p: Program, included: set<ClassId>, id: ClassId, letter: char)
    requires WellFormed(p) && IsInstance(Analysed(p, included), id) && IsLetter(letter)
    ensures Analysed(Renamed(p, id, letter), included) == Next(Analysed(p, included), id, letter)
    ensures WellFormed(Renamed(p, id, letter))
  {
    RecordsDistinct(p);
    RecordsRenamed(p, id, letter);
    LevelsRenamed(Records(p), id, letter);
    DeclsRenamed(Records(p), id, letter);
    NamesRenamed(Records(p), id, letter);
    RenamedWellFormed(p, id, letter);
  }

  lemma RenamedWellFormed(p: Program, id: ClassId, letter: char)
    requires WellFormed(p)
    ensures WellFormed(Renamed(p, id, letter))
  {
    var q := Renamed(p, id, letter);
    forall c, d | c in q && d in q && c.id == d.id
      ensures c.name == d.name
    {
      var i :| 0 <= i < |q| && q[i] == c;
      var j :| 0 <= j < |q| && q[j] == d;
      assert p[i] in p && p[j] in p;
    }
  }

  // The number that the bound of 23 limits.
  function Total(s: State): nat {
    |Instances(s)| + |s.names|
  }

  // A run with counter 1: under the bound, a class of the lowest level gets the least free letter.
  ghost predicate Picks(s: State, id: ClassId, letter: char) {
    Total(s) <= 23 && InOrder(s, id, 1) && IsLeastFree(s.names, letter)
  }

  // One class less to rename, one letter more in use.
  lemma RunStep(s: State, id: ClassId, letter: char)
    requires InOrder(s, id, 1) && letter !in s.names
    ensures IsInstance(s, id) && Instances(Next(s, id, letter)) == Instances(s) - {id}
    ensures |Instances(Next(s, id, letter))| == |Instances(s)| - 1
    ensures Total(Next(s, id, letter)) == Total(s)
  {
    InOrderIsInstance(s, id, 1);
    assert id in Instances(s);
    assert Instances(Next(s, id, letter)) == Instances(s) - {id};
    assert |s.names + {letter}| == |s.names| + 1;
  }

  lemma InOrderIsInstance(s: State, id: ClassId, counter: int)
    requires InOrder(s, id, counter)
    ensures IsInstance(s, id)
  {
    var order :| Enumerates(s, order) && 1 <= counter <= |order| && order[counter - 1] == id;
    assert id in order;
  }

  type Trace = seq<(ClassId, char)>

  // The classes and letters of consecutive runs.
  ghost predicate IsTrace(s: State, xs: Trace)
    decreases |xs|
  {
    xs == [] || (Picks(s, xs[0].0, xs[0].1) && IsTrace(Next(s, xs[0].0, xs[0].1), xs[1..]))
  }

  function AfterTrace(s: State, xs: Trace): State
    decreases |xs|
  {
    if xs == [] then s else AfterTrace(Next(s, xs[0].0, xs[0].1), xs[1..])
  }

  // As long as there are classes to rename, under the bound, there is an unused letter.
  lemma RunPossible(s: State)
    requires (forall c :: c in s.names ==> IsLetter(c)) && |Instances(s)| >= 1 && Total(s) <= 23
    ensures HasFree(s.names) && exists letter :: IsLeastFree(s.names, letter)
  {
    FreeLetterIff(s.names);
    var c :| IsLetter(c) && c !in s.names;
    LeastOfLetters(s.names, c);
  }

  // Over the runs, classes to rename and names in use keep their sum; there are never more runs than
  // classes to rename at the start, and after as many runs nothing is left.
  lemma {:induction false} TraceCounts(s: State, xs: Trace)
    requires IsTrace(s, xs)
    ensures |Instances(AfterTrace(s, xs))| == |Instances(s)| - |xs|
    ensures Total(AfterTrace(s, xs)) == Total(s)
    decreases |xs|
  {
    if xs != [] {
      RunStep(s, xs[0].0, xs[0].1);
      TraceCounts(Next(s, xs[0].0, xs[0].1), xs[1..]);
    }
  }

  // Later runs find other classes, and letters that are not in use now.
  lemma {:induction false} LaterPicks(s: State, xs: Trace, j: nat)
    requires IsTrace(s, xs) && j < |xs|
    ensures IsInstance(s, xs[j].0) && IsLetter(xs[j].1) && xs[j].1 !in s.names
    decreases |xs|
  {
    InOrderIsInstance(s, xs[0].0, 1);
    if j > 0 {
      LaterPicks(Next(s, xs[0].0, xs[0].1), xs[1..], j - 1);
    }
  }

  // The letters strictly rise from run to run, no class is renamed twice, and the levels do not fall.
  lemma {:induction false} TraceRises(s: State, xs: Trace, i: nat, j: nat)
    requires IsTrace(s, xs) && i < j < |xs|
    ensures xs[i].0 in s.levels && xs[j].0 in s.levels
    ensures xs[i].1 < xs[j].1 && xs[i].0 != xs[j].0 && s.levels[xs[i].0] <= s.levels[xs[j].0]
    decreases |xs|
  {
    if i == 0 {
      LaterPicks(Next(s, xs[0].0, xs[0].1), xs[1..], j - 1);
      FirstIsLowest(s, xs[0].0, xs[j].0);
      assert xs[j].1 !in s.names && xs[j].1 != xs[0].1;
    } else {
      TraceRises(Next(s, xs[0].0, xs[0].1), xs[1..], i - 1, j - 1);
    }
  }

  // A renamed base has an earlier letter than a renamed class that derives from it and was visited after it.
  lemma BaseBeforeDerived(p: Program, included: set<ClassId>, xs: Trace, i: nat, j: nat, k: nat)
    requires IsTrace(Analysed(p, included), xs) && i < |xs| && j < |xs| && k < |p|
    requires p[k].id == xs[j].0 && !IsSkipped(Levels(Records(p[..k])), p[k]) && p[k].defined
    requires Some(xs[i].0) in p[k].bases && xs[i].0 != xs[j].0 && xs[i].0 in Levels(Records(p[..k]))
    ensures xs[i].1 < xs[j].1
  {
    DerivedAbove(p, k, xs[i].0);
    LowerIsEarlier(Analysed(p, included), xs, i, j);
  }

  lemma LowerIsEarlier(s: State, xs: Trace, i: nat, j: nat)
    requires IsTrace(s, xs) && i < |xs| && j < |xs| && xs[i].0 in s.levels && xs[j].0 in s.levels
    requires s.levels[xs[i].0] < s.levels[xs[j].0]
    ensures xs[i].1 < xs[j].1
  {
    if j < i {
      TraceRises(s, xs, j, i);
    } else {
      TraceRises(s, xs, i, j);
    }
  }

  // ----- Which class comes first -----

  lemma {:induction false} LowestOf(levels: map<ClassId, nat>, all: set<ClassId>) returns (id: ClassId)
    requires all != {} && forall x :: x in all ==> x in levels
    ensures id in all && forall x :: x in all ==> levels[id] <= levels[x]
    decreases |all|
  {
    id :| id in all;
    if all != {id} {
      var other := LowestOf(levels, all - {id});
      id := if levels[other] < levels[id] then other else id;
    }
  }

  // An order of the classes by rising levels, with any lowest one in front.
  lemma {:induction false} OrderFrom(levels: map<ClassId, nat>, all: set<ClassId>, first: ClassId)
    returns (order: seq<ClassId>)
    requires first in all && (forall x :: x in all ==> x in levels) && forall x :: x in all ==> levels[first] <= levels[x]
    ensures order != [] && order[0] == first && (forall x :: x in order <==> x in all)
    ensures NoDuplicates(order) && ByRisingLevel(levels, order)
    decreases |all|
  {
    var others := all - {first};
    if others == {} {
      order := [first];
    } else {
      var second := LowestOf(levels, others);
      var rest := OrderFrom(levels, others, second);
      order := [first] + rest;
      forall i, j | 0 <= i < j < |order|
        ensures order[i] != order[j] && levels[order[i]] <= levels[order[j]]
      {
        assert order[j] == rest[j - 1] && order[j] in rest;
        assert i > 0 ==> order[i] == rest[i - 1];
      }
    }
  }

  // With counter 1, any instance of the lowest level can be picked.
  lemma LowestIsFirst(s: State, id: ClassId)
    requires IsInstance(s, id) && forall x :: IsInstance(s, x) ==> s.levels[id] <= s.levels[x]
    ensures InOrder(s, id, 1)
  {
    var order := OrderFrom(s.levels, Instances(s), id);
    assert Enumerates(s, order);
  }

  predicate OnlyLetters(names: set<char>) {
    forall c :: c in names ==> IsLetter(c)
  }

  // One run on an instance of the lowest level.
  lemma PickLowest(s: State, id: ClassId) returns (letter: char)
    requires OnlyLetters(s.names) && Total(s) <= 23
    requires IsInstance(s, id) && forall x :: IsInstance(s, x) ==> s.levels[id] <= s.levels[x]
    ensures Picks(s, id, letter) && OnlyLetters(Next(s, id, letter).names)
    ensures Total(Next(s, id, letter)) == Total(s)
    ensures |Instances(Next(s, id, letter))| < |Instances(s)|
    ensures forall x :: IsInstance(Next(s, id, letter), x) <==> IsInstance(s, x) && x != id
  {
    LowestIsFirst(s, id);
    assert id in Instances(s);
    RunPossible(s);
    letter :| IsLeastFree(s.names, letter);
    RunStep(s, id, letter);
  }

  // Runs that rename a class in the end.
  lemma {:induction false} TraceTo(s: State, id: ClassId) returns (xs: Trace)
    requires OnlyLetters(s.names) && Total(s) <= 23 && IsInstance(s, id)
    ensures IsTrace(s, xs) && xs != [] && xs[|xs| - 1].0 == id
    decreases |Instances(s)|
  {
    assert id in Instances(s);
    var first := LowestOf(s.levels, Instances(s));
    var letter := PickLowest(s, first);
    var rest := [];
    if first != id {
      rest := TraceTo(Next(s, first, letter), id);
    }
    xs := [(first, letter)] + rest;
    TraceCons(s, first, letter, rest);
  }

  lemma TraceCons(s: State, id: ClassId, letter: char, rest: Trace)
    requires Picks(s, id, letter) && IsTrace(Next(s, id, letter), rest)
    ensures IsTrace(s, [(id, letter)] + rest)
  {
    assert ([(id, letter)] + rest)[1..] == rest;
  }

  lemma TraceThroughNow(s: State, d: ClassId, b: ClassId) returns (xs: Trace)
    requires OnlyLetters(s.names) && Total(s) <= 23 && IsInstance(s, d) && IsInstance(s, b) && d != b
    requires forall x :: IsInstance(s, x) ==> s.levels[d] <= s.levels[x]
    ensures IsTrace(s, xs) && |xs| > 1 && xs[0].0 == d && xs[|xs| - 1].0 == b
  {
    var letter := PickLowest(s, d);
    var rest := TraceTo(Next(s, d, letter), b);
    xs := [(d, letter)] + rest;
    TraceCons(s, d, letter, rest);
  }

  // Runs that rename d, and then b, when b is not on a lower level.
  lemma {:induction false} TraceThrough(s: State, d: ClassId, b: ClassId) returns (xs: Trace, i: nat)
    requires OnlyLetters(s.names) && Total(s) <= 23
    requires IsInstance(s, d) && IsInstance(s, b) && d != b && s.levels[d] <= s.levels[b]
    ensures IsTrace(s, xs) && i < |xs| - 1 && xs[i].0 == d && xs[|xs| - 1].0 == b
    decreases |Instances(s)|
  {
    assert d in Instances(s);
    var first := LowestOf(s.levels, Instances(s));
    if s.levels[first] == s.levels[d] {
      xs := TraceThroughNow(s, d, b);
      i := 0;
    } else {
      var letter := PickLowest(s, first);
      var rest, k := TraceThrough(Next(s, first, letter), d, b);
      xs, i := [(first, letter)] + rest, k + 1;
      TraceCons(s, first, letter, rest);
      assert xs[k + 1] == rest[k] && xs[|xs| - 1] == rest[|rest| - 1];
    }
  }

  // Whenever both classes are renamed, b gets the earlier letter.
  ghost predicate AlwaysBefore(s: State, b: ClassId, d: ClassId) {
    forall xs: Trace, i: nat, j: nat ::
      IsTrace(s, xs) && i < |xs| && j < |xs| && xs[i].0 == b && xs[j].0 == d ==> xs[i].1 < xs[j].1
  }

  lemma AlwaysBeforeIff(s: State, b: ClassId, d: ClassId)
    requires OnlyLetters(s.names) && Total(s) <= 23 && IsInstance(s, b) && IsInstance(s, d) && b != d
    ensures AlwaysBefore(s, b, d) <==> s.levels[b] < s.levels[d]
  {
    if s.levels[b] < s.levels[d] {
      forall xs: Trace, i: nat, j: nat | IsTrace(s, xs) && i < |xs| && j < |xs| && xs[i].0 == b && xs[j].0 == d
        ensures xs[i].1 < xs[j].1
      {
        LowerIsEarlier(s, xs, i, j);
      }
    } else {
      var xs, i := TraceThrough(s, d, b);
      TraceRises(s, xs, i, |xs| - 1);
      assert xs[|xs| - 1].0 == b && xs[i].0 == d && !(xs[|xs| - 1].1 < xs[i].1);
    }
  }

  // A base gets the earlier letter in all series of runs exactly when some chain to the derived class,
  // made of bases that were visited in time, is higher than all chains to the base.
  lemma BaseFirstIff(p: Program, included: set<ClassId>, b: ClassId, d: ClassId)
    requires b != d && IsInstance(Analysed(p, included), b) && IsInstance(Analysed(p, included), d)
    requires Total(Analysed(p, included)) <= 23
    ensures AlwaysBefore(Analysed(p, included), b, d) <==> ReachesHigher(Records(p), d, b)
  {
    NamesAreLetters(Records(p));
    AlwaysBeforeIff(Analysed(p, included), b, d);
    LowerIff(p, b, d);
  }

  // A base without bases comes before every class that has some, whichever was visited first.
  lemma RootBeforeOthers(p: Program, included: set<ClassId>, i: nat, j: nat)
    requires i < |Records(p)| && j < |Records(p)|
    requires !HasBases(Records(p)[i].c) && HasBases(Records(p)[j].c)
    ensures AlwaysBefore(Analysed(p, included), Records(p)[i].c.id, Records(p)[j].c.id)
  {
    var s, rs := Analysed(p, included), Records(p);
    RecordsConsistent(p);
    LevelAt(rs, i);
    LevelAt(rs, j);
    forall xs: Trace, k: nat, l: nat |
      IsTrace(s, xs) && k < |xs| && l < |xs| && xs[k].0 == rs[i].c.id && xs[l].0 == rs[j].c.id
      ensures xs[k].1 < xs[l].1
    {
      LowerIsEarlier(s, xs, k, l);
    }
  }

  predicate Plain(c: Class) {
    !c.special && c.name != "" && c.defined
  }

  // A derived class that is visited before its base can come first in all series of runs: D derives
  // from B, B from M, M from A, and the visits are D, A, M, B.
  lemma DerivedVisitedFirst(d: Class, a: Class, m: Class, b: Class, included: set<ClassId>)
    requires Plain(d) && Plain(a) && Plain(m) && Plain(b) && |{d.id, a.id, m.id, b.id}| == 4
    requires d.bases == [Some(b.id)] && b.bases == [Some(m.id)] && m.bases == [Some(a.id)] && a.bases == []
    ensures AlwaysBefore(Analysed([] + [d] + [a] + [m] + [b], included), d.id, b.id)
  {
    var p := [] + [d] + [a] + [m] + [b];
    var s := Analysed(p, included);
    FourLevels(d, a, m, b);
    forall xs: Trace, i: nat, j: nat | IsTrace(s, xs) && i < |xs| && j < |xs| && xs[i].0 == d.id && xs[j].0 == b.id
      ensures xs[i].1 < xs[j].1
    {
      LowerIsEarlier(s, xs, i, j);
    }
  }

  lemma FourApart(x: ClassId, y: ClassId, z: ClassId, w: ClassId)
    requires |{x, y, z, w}| == 4
    ensures x != y && x != z && x != w && y != z && y != w && z != w
  {
  }

  lemma FourLevels(d: Class, a: Class, m: Class, b: Class)
    requires Plain(d) && Plain(a) && Plain(m) && Plain(b) && |{d.id, a.id, m.id, b.id}| == 4
    requires d.bases == [Some(b.id)] && b.bases == [Some(m.id)] && m.bases == [Some(a.id)] && a.bases == []
    ensures
      var levels := Levels(Records([] + [d] + [a] + [m] + [b]));
      d.id in levels && b.id in levels && levels[d.id] == 1 && levels[b.id] == 2
  {
    FourApart(d.id, a.id, m.id, b.id);
    var l2 := map[d.id := 1][a.id := 0];
    var l3 := l2[m.id := 1];
    TwoLevels(d, a, b.id);
    OneBase(l2, m, a.id);
    OneMore([] + [d] + [a], m, l2, 1);
    OneBase(l3, b, m.id);
    OneMore([] + [d] + [a] + [m], b, l3, 2);
  }

  lemma TwoLevels(d: Class, a: Class, base: ClassId)
    requires Plain(d) && Plain(a) && d.id != a.id && d.id != base && d.bases == [Some(base)] && a.bases == []
    ensures Levels(Records([] + [d] + [a])) == map[d.id := 1][a.id := 0]
  {
    OneBase(map[], d, base);
    OneMore([], d, map[], 1);
    OneMore([] + [d], a, map[d.id := 1], 0);
  }

  lemma OneMore(p: Program, c: Class, levels: map<ClassId, nat>, level: nat)
    requires Levels(Records(p)) == levels && !IsSkipped(levels, c) && level == LevelOf(levels, c)
    ensures Levels(Records(p + [c])) == levels[c.id := level]
  {
    assert (p + [c])[..|p|] == p;
    RecordAdded(Records(p), Record(c, level));
  }

  lemma OneBase(levels: map<ClassId, nat>, c: Class, base: ClassId)
    requires c.defined && c.bases == [Some(base)] && base != c.id
    ensures LevelOf(levels, c) == if base in levels then levels[base] + 1 else 1
  {
    assert BaseLevel(levels, c.id, c.bases[..0]) == 0;
  }

  lemma RecordAdded(rs: seq<Record>, r: Record)
    ensures Levels(rs + [r]) == Levels(rs)[r.c.id := r.level]
  {
    assert (rs + [r])[..|rs|] == rs;
  }

  // ----- Which classes are renamed, and to what -----

  // Some class of this name is recorded.
  predicate IsTaken(p: Program, name: string) {
    exists c :: c in p && !c.special && c.name == name
  }

  // A name of one of the 23 letters.
  predicate IsCapital(name: string) {
    exists letter :: letter in "ABCDFGHIJKLMNOPQRSVWXYZ" && name == [letter]
  }

  lemma CapitalIff(name: string)
    ensures IsValidName(name) <==> IsCapital(name)
  {
    if |name| == 1 {
      LettersAre(name[0]);
      assert name == [name[0]];
    }
  }

  // A class is recorded exactly when some visit shows it with a name and as no special record. No visit
  // has to show its definition.
  lemma {:induction false} RecordedIff(p: Program, id: ClassId)
    ensures id in Levels(Records(p)) <==> exists c :: c in p && c.id == id && !c.special && c.name != ""
  {
    if p != [] {
      var q, c := p[..|p| - 1], p[|p| - 1];
      assert forall d :: d in p <==> d in q || d == c;
      RecordedIff(q, id);
      RecordAdded(Records(q), Record(c, LevelOf(Levels(Records(q)), c)));
    }
  }

  // The letters in use are those that are names.
  lemma {:induction false} NamesIff(p: Program, letter: char)
    requires WellFormed(p)
    ensures letter in UsedNames(Records(p)) <==> letter in "ABCDFGHIJKLMNOPQRSVWXYZ" && IsTaken(p, [letter])
  {
    LettersAre(letter);
    if p != [] {
      var q, c := p[..|p| - 1], p[|p| - 1];
      assert forall d :: d in p <==> d in q || d == c;
      NamesIff(q, letter);
      RecordedIff(q, c.id);
      NameAdded(Records(q), Record(c, LevelOf(Levels(Records(q)), c)));
    }
  }

  lemma NameAdded(rs: seq<Record>, r: Record)
    ensures UsedNames(rs + [r]) == UsedNames(rs) + if IsValidName(r.c.name) then {r.c.name[0]} else {}
    ensures UsedNameDecls(rs + [r]) == UsedNameDecls(rs) + if IsValidName(r.c.name) then {r.c.id} else {}
  {
    assert (rs + [r])[..|rs|] == rs;
  }

  lemma {:induction false} DeclsIff(p: Program, id: ClassId)
    requires WellFormed(p)
    ensures id in UsedNameDecls(Records(p)) <==> exists c :: c in p && c.id == id && !c.special && IsCapital(c.name)
  {
    if p != [] {
      var q, c := p[..|p| - 1], p[|p| - 1];
      assert forall d :: d in p <==> d in q || d == c;
      DeclsIff(q, id);
      RecordedIff(q, c.id);
      CapitalIff(c.name);
      NameAdded(Records(q), Record(c, LevelOf(Levels(Records(q)), c)));
    }
  }

  // A visit that shows a class to be renamed.
  predicate IsCandidate(c: Class, included: set<ClassId>) {
    !c.special && c.name != "" && !IsCapital(c.name) && c.id !in included
  }

  // The classes to be renamed.
  lemma InstanceIff(p: Program, included: set<ClassId>, id: ClassId)
    requires WellFormed(p)
    ensures IsInstance(Analysed(p, included), id) <==> exists c :: c in p && c.id == id && IsCandidate(c, included)
  {
    RecordedIff(p, id);
    DeclsIff(p, id);
    if c :| c in p && c.id == id && !c.special && c.name != "" {
      assert forall d :: d in p && d.id == id ==> d.name == c.name;
    }
  }

  // All declarations of one class to be renamed, and nothing else, get the first letter that is no
  // name yet.
  ghost predicate OneIsRenamed(p: Program, included: set<ClassId>, q: Program) {
    exists id, letter :: IsRenamedTo(p, included, id, letter, q)
  }

  ghost predicate IsRenamedTo(p: Program, included: set<ClassId>, id: ClassId, letter: char, q: Program) {
    && (exists c :: c in p && c.id == id && IsCandidate(c, included))
    && letter in "ABCDFGHIJKLMNOPQRSVWXYZ" && !IsTaken(p, [letter])
    && (forall d :: d in "ABCDFGHIJKLMNOPQRSVWXYZ" && d < letter ==> IsTaken(p, [d]))
    && |q| == |p| && forall i :: 0 <= i < |p| ==> q[i] == if p[i].id == id then p[i].(name := [letter]) else p[i]
  }

  lemma RunRenamesOne(p: Program, included: set<ClassId>, counter: int, q: Program)
    requires WellFormed(p) && IsRun(p, included, counter, q)
    ensures OneIsRenamed(p, included, q)
  {
    var id, letter :| IsRunOf(p, included, counter, id, letter, q);
    InOrderIsInstance(Analysed(p, included), id, counter);
    InstanceIff(p, included, id);
    NamesIff(p, letter);
    LettersAre(letter);
    forall d | d in "ABCDFGHIJKLMNOPQRSVWXYZ" && d < letter
      ensures IsTaken(p, [d])
    {
      LettersAre(d);
      NamesIff(p, d);
    }
    assert IsRenamedTo(p, included, id, letter, q);
  }

  // ----- The pass -----

  datatype Outcome = MaxClassesError | MaxInstanceError | Rewritten(program: Program)

  class RenameClass {
    const included: set<ClassId>
    var recordToLevel: map<ClassId, nat>
    var levelToRecords: map<nat, set<ClassId>>
    var usedNameDecls: set<ClassId>
    var usedNames: set<char>
    var maxInheritanceLevel: nat
    var theCXXRecordDecl: Option<ClassId>
    var newNameStr: string
    var currentName: char
    var validInstanceNum: nat

    constructor (inIncludedFiles: set<ClassId>)
      ensures included == inIncludedFiles && Collected([])
      ensures theCXXRecordDecl == None && currentName == 'A' && validInstanceNum == 0
    {
      included := inIncludedFiles;
      recordToLevel, levelToRecords, usedNameDecls, usedNames, maxInheritanceLevel := map[], map[], {}, {}, 0;
      theCXXRecordDecl, newNameStr, currentName, validInstanceNum := None, "", 'A', 0;
    }

    ghost predicate Collected(rs: seq<Record>)
      reads this`recordToLevel, this`levelToRecords, this`usedNameDecls, this`usedNames, this`maxInheritanceLevel
    {
      && recordToLevel == Levels(rs) && levelToRecords == ByLevel(rs) && maxInheritanceLevel == MaxLevel(rs)
      && usedNameDecls == UsedNameDecls(rs) && usedNames == UsedNames(rs)
    }

    method AddOneRecordDecl(c: Class, level: nat, ghost rs: seq<Record>)
      requires Collected(rs)
      modifies this`recordToLevel, this`levelToRecords, this`usedNameDecls, this`usedNames, this`maxInheritanceLevel
      ensures Collected(rs + [Record(c, level)])
    {
      assert (rs + [Record(c, level)])[..|rs|] == rs;
      recordToLevel := recordToLevel[c.id := level];
      if level > maxInheritanceLevel {
        maxInheritanceLevel := level;
      }
      levelToRecords := levelToRecords[level := AtLevel(levelToRecords, level) + {c.id}];
      if IsValidName(c.name) {
        usedNames := usedNames + {c.name[0]};
        usedNameDecls := usedNameDecls + {c.id};
      }
    }

    method AnalyzeOneRecordDecl(c: Class, ghost rs: seq<Record>)
      requires Collected(rs)
      modifies this`recordToLevel, this`levelToRecords, this`usedNameDecls, this`usedNames, this`maxInheritanceLevel
      ensures Collected(Visit(rs, c))
    {
      if c.special || c.name == "" || c.id in recordToLevel {
        return;
      }
      if !c.defined || |c.bases| == 0 {
        AddOneRecordDecl(c, 0, rs);
        return;
      }
      var level := LargestLevel(c);
      AddOneRecordDecl(c, level + 1, rs);
    }

    // The loop over the bases.
    method LargestLevel(c: Class) returns (level: nat)
      ensures level == BaseLevel(recordToLevel, c.id, c.bases)
    {
      level := 0;
      for i := 0 to |c.bases|
        invariant level == BaseLevel(recordToLevel, c.id, c.bases[..i])
      {
        assert c.bases[..i + 1][..i] == c.bases[..i] && c.bases[..i + 1][i] == c.bases[i];
        var base := c.bases[i];
        if base.None? || base.value == c.id || base.value !in recordToLevel {
          continue;
        }
        var baseLevel := recordToLevel[base.value];
        if baseLevel > level {
          level := baseLevel;
        }
      }
      assert c.bases[..|c.bases|] == c.bases;
    }

    // The collecting visitor.
    method Traverse(p: Program)
      requires Collected([])
      modifies this`recordToLevel, this`levelToRecords, this`usedNameDecls, this`usedNames, this`maxInheritanceLevel
      ensures Collected(Records(p))
    {
      for i := 0 to |p|
        invariant Collected(Records(p[..i]))
      {
        assert p[..i + 1][..i] == p[..i] && p[..i + 1][i] == p[i];
        AnalyzeOneRecordDecl(p[i], Records(p[..i]));
      }
      assert p[..|p|] == p;
    }

    // What has been picked after the instances in `order`.
    ghost predicate Picked(names: set<char>, counter: int, order: seq<ClassId>)
      reads this`validInstanceNum, this`theCXXRecordDecl, this`newNameStr, this`currentName
    {
      && validInstanceNum == |order|
      && (|order| < counter ==> currentName == 'A' && theCXXRecordDecl == None)
      && (1 <= counter <= |order| && HasFree(names) ==>
          theCXXRecordDecl == Some(order[counter - 1]) && |newNameStr| == 1 && IsLeastFree(names, newNameStr[0]))
    }

    // incValidInstance. The letter is the least free one; if there were none it would become '['.
    method IncValidInstance(id: ClassId, transformationCounter: int, ghost order: seq<ClassId>)
      requires transformationCounter >= 1 && Picked(usedNames, transformationCounter, order)
      modifies this`validInstanceNum, this`currentName, this`theCXXRecordDecl, this`newNameStr
      ensures Picked(usedNames, transformationCounter, order + [id])
    {
      validInstanceNum := validInstanceNum + 1;
      if validInstanceNum != transformationCounter {
        return;
      }
      ghost var number := validInstanceNum;
      while IsReserved(currentName) || currentName in usedNames
        invariant validInstanceNum == number && 'A' <= currentName <= '['
        invariant forall d :: IsLetter(d) && d < currentName ==> d in usedNames
        decreases '[' as int - currentName as int
      {
        if currentName > 'Z' {
          return;
        }
        currentName := (currentName as int + 1) as char;
      }
      theCXXRecordDecl := Some(id);
      newNameStr := [currentName];
    }

    // doAnalysis, level by level.
    method DoAnalysis(transformationCounter: int, ghost rs: seq<Record>) returns (ghost order: seq<ClassId>)
      requires transformationCounter >= 1 && Collected(rs) && Distinct(rs) && Picked(usedNames, transformationCounter, [])
      modifies this`validInstanceNum, this`currentName, this`theCXXRecordDecl, this`newNameStr
      ensures Picked(usedNames, transformationCounter, order) && Enumerates(StateOf(rs, included), order)
    {
      ghost var s := StateOf(rs, included);
      order := [];
      for level := 0 to maxInheritanceLevel + 1
        invariant Picked(usedNames, transformationCounter, order) && CountedBelow(s, order, level)
      {
        ByLevelAre(rs, level);
        order := AnalyseLevel(level, AtLevel(levelToRecords, level), transformationCounter, s, order);
      }
      LevelsBounded(rs);
    }

    method AnalyseLevel(level: nat, rdSet: set<ClassId>, transformationCounter: int, ghost s: State, ghost before: seq<ClassId>)
      returns (ghost order: seq<ClassId>)
      requires transformationCounter >= 1 && usedNameDecls == s.decls && included == s.included
      requires forall id: ClassId :: id in rdSet <==> id in s.levels && s.levels[id] == level
      requires Picked(usedNames, transformationCounter, before) && CountedBelow(s, before, level)
      modifies this`validInstanceNum, this`currentName, this`theCXXRecordDecl, this`newNameStr
      ensures Picked(usedNames, transformationCounter, order) && CountedBelow(s, order, level + 1)
    {
      order := before;
      var rest := rdSet;
      while rest != {}
        invariant rest <= rdSet && Picked(usedNames, transformationCounter, order)
        invariant CountedExcept(s, order, level + 1, rest)
        decreases |rest|
      {
        var id :| id in rest;
        if !(id in usedNameDecls || id in included) {
          IncValidInstance(id, transformationCounter, order);
          CountOne(s, order, level, rest, id);
          order := order + [id];
        }
        rest := rest - {id};
      }
    }

    // HandleTranslationUnit of a C++ program.
    method HandleTranslationUnit(p: Program, transformationCounter: int) returns (r: Outcome)
      requires transformationCounter >= 1 && WellFormed(p)
      requires Collected([]) && theCXXRecordDecl == None && currentName == 'A' && validInstanceNum == 0
      modifies this
      ensures r.MaxClassesError? <==> Total(Analysed(p, included)) > 23
      ensures r.MaxInstanceError? <==>
                Total(Analysed(p, included)) <= 23 && transformationCounter > |Instances(Analysed(p, included))|
      ensures r.Rewritten? ==> IsRun(p, included, transformationCounter, r.program)
      ensures r.Rewritten? ==> OneIsRenamed(p, included, r.program)
    {
      Traverse(p);
      ghost var s := Analysed(p, included);
      RecordsDistinct(p);
      ghost var order := DoAnalysis(transformationCounter, Records(p));
      SizeOfOrder(order, Instances(s));
      if validInstanceNum + |usedNames| > 23 {
        return MaxClassesError;
      } else if transformationCounter > validInstanceNum {
        return MaxInstanceError;
      }
      NamesAreLetters(Records(p));
      RunPossible(s);
      var id, letter := theCXXRecordDecl.value, newNameStr[0];
      RunDone(p, included, transformationCounter, order, letter);
      RunRenamesOne(p, included, transformationCounter, Renamed(p, id, letter));
      return Rewritten(Renamed(p, id, letter));
    }
  }

  // The instances below a level, or all of them but some, are counted.
  ghost predicate CountedBelow(s: State, order: seq<ClassId>, level: nat) {
    CountedExcept(s, order, level, {})
  }

  ghost predicate CountedExcept(s: State, order: seq<ClassId>, level: nat, rest: set<ClassId>) {
    && (forall id :: id in order <==> IsInstance(s, id) && s.levels[id] < level && id !in rest)
    && NoDuplicates(order) && ByRisingLevel(s.levels, order)
  }

  lemma CountOne(s: State, order: seq<ClassId>, level: nat, rest: set<ClassId>, id: ClassId)
    requires CountedExcept(s, order, level + 1, rest) && id in rest && IsInstance(s, id) && s.levels[id] == level
    ensures CountedExcept(s, order + [id], level + 1, rest - {id})
  {
    var more := order + [id];
    assert forall x :: x in more <==> x in order || x == id;
    forall i, j | 0 <= i < j < |more|
      ensures more[i] != more[j] && s.levels[more[i]] <= s.levels[more[j]]
    {
      assert more[i] == order[i] && order[i] in order;
    }
  }

  // One run under the bound: the class that the counter picks gets the least free letter.
  ghost predicate IsRun(p: Program, included: set<ClassId>, counter: int, q: Program) {
    exists id, letter :: IsRunOf(p, included, counter, id, letter, q)
  }

  ghost predicate IsRunOf(p: Program, included: set<ClassId>, counter: int, id: ClassId, letter: char, q: Program) {
    var s := Analysed(p, included);
    && Total(s) <= 23 && InOrder(s, id, counter) && IsLeastFree(s.names, letter)
    && q == Renamed(p, id, letter) && Analysed(q, included) == Next(s, id, letter) && WellFormed(q)
  }

  lemma RunDone(p: Program, included: set<ClassId>, counter: int, order: seq<ClassId>, letter: char)
    requires WellFormed(p) && Total(Analysed(p, included)) <= 23
    requires Enumerates(Analysed(p, included), order) && 1 <= counter <= |order|
    requires IsLeastFree(Analysed(p, included).names, letter)
    ensures IsRun(p, included, counter, Renamed(p, order[counter - 1], letter))
  {
    var id := order[counter - 1];
    assert id in order && InOrder(Analysed(p, included), id, counter);
    RenamedState(p, included, id, letter);
    assert IsRunOf(p, included, counter, id, letter, Renamed(p, id, letter));
  }
}
