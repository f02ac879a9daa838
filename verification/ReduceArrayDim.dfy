/**
 clang_delta/ReduceArrayDim.cpp: the last two dimensions n and m of an array become one of n * m
 elements, the element [i][j] becomes [i*n+j] (the factor is n, the size of the second-last
 dimension, see ReduceArrayDim.h:97-99), and the braces of the rows are removed.
 */
module ReduceArrayDim {
  import opened Collections
  import opened Decimal
  import opened Wrappers

  // ----- The new index -----

  function NewIndex(n: nat, i: nat, j: nat): nat {
    i * n + j
  }

  ghost predicate AlwaysInBounds(n: nat, m: nat) {
    forall i: nat, j: nat :: i < n && j < m ==> NewIndex(n, i, j) < n * m
  }

  // Every new index lies in the new array exactly when there is one row, or no fewer columns than rows.
  lemma InBoundsIff(n: nat, m: nat)
    requires n >= 1 && m >= 1
    ensures AlwaysInBounds(n, m) <==> n == 1 || n <= m
  {
    if n == 1 || n <= m {
      forall i: nat, j: nat | i < n && j < m
        ensures NewIndex(n, i, j) < n * m
      {
        MulLess(i, n - 1, n);
        MulLess(n, m, n - 1);
        assert (n - 1) * m + m == n * m;
        if n > 1 {
          assert (n - 1) * n <= (n - 1) * m by { MulLess(n, m, n - 1); }
        }
      }
    } else {
      var last := NewIndex(n, n - 1, m - 1);
      assert (n - 1) * n >= (n - 1) * (m + 1) by { MulLess(m + 1, n, n - 1); }
      assert (n - 1) * (m + 1) == (n - 1) * m + (n - 1);
      assert (n - 1) * m + m == n * m;
      assert last >= n * m;
    }
  }

  lemma MulLess(a: nat, b: nat, c: nat)
    requires a <= b
    ensures a * c <= b * c && c * a <= c * b
  {
  }

  ghost predicate OneToOne(n: nat, m: nat) {
    forall i: nat, j: nat, k: nat, l: nat ::
      i < n && j < m && k < n && l < m && NewIndex(n, i, j) == NewIndex(n, k, l) ==> i == k && j == l
  }

  // Different elements get different new indices exactly when there is one row, or no fewer rows than columns.
  lemma OneToOneIff(n: nat, m: nat)
    requires n >= 1 && m >= 1
    ensures OneToOne(n, m) <==> n == 1 || m <= n
  {
    if n == 1 || m <= n {
      forall i: nat, j: nat, k: nat, l: nat | i < n && j < m && k < n && l < m && NewIndex(n, i, j) == NewIndex(n, k, l)
        ensures i == k && j == l
      {
        if i < k {
          RowsApart(n, i, j, k, l);
        } else if k < i {
          RowsApart(n, k, l, i, j);
        }
      }
    } else {
      assert NewIndex(n, 0, n) == NewIndex(n, 1, 0);
    }
  }

  lemma RowsApart(n: nat, i: nat, j: nat, k: nat, l: nat)
    requires i < k && j < n
    ensures NewIndex(n, i, j) < NewIndex(n, k, l)
  {
    MulLess(i + 1, k, n);
    assert (i + 1) * n == i * n + n;
  }

  // Writes to elements, the latest last.
  datatype Write = Write(i: nat, j: nat, value: int)

  predicate Within(ws: seq<Write>, n: nat, m: nat) {
    forall w :: w in ws ==> w.i < n && w.j < m
  }

  // The element of the old array after the writes, and the place k of the new one.
  function OldElement(ws: seq<Write>, i: nat, j: nat): int {
    if ws == [] then 0
    else
      var w := ws[|ws| - 1];
      if w.i == i && w.j == j then w.value else OldElement(ws[..|ws| - 1], i, j)
  }

  function NewElement(ws: seq<Write>, n: nat, k: nat): int {
    if ws == [] then 0
    else
      var w := ws[|ws| - 1];
      if NewIndex(n, w.i, w.j) == k then w.value else NewElement(ws[..|ws| - 1], n, k)
  }

  ghost predicate RunAgrees(ws: seq<Write>, n: nat, m: nat) {
    forall i: nat, j: nat :: i < n && j < m ==> NewElement(ws, n, NewIndex(n, i, j)) == OldElement(ws, i, j)
  }

  // After every run, every element reads the same exactly when there is one row, or no fewer rows
  // than columns.
  lemma RunsAgreeIff(n: nat, m: nat)
    requires n >= 1 && m >= 1
    ensures (forall ws :: Within(ws, n, m) ==> RunAgrees(ws, n, m)) <==> n == 1 || m <= n
  {
    OneToOneIff(n, m);
    if n == 1 || m <= n {
      forall ws | Within(ws, n, m)
        ensures RunAgrees(ws, n, m)
      {
        RunAgreesWhen(ws, n, m);
      }
    } else {
      var ws := [Write(0, n, 1)];
      assert Within(ws, n, m);
      assert NewElement(ws, n, NewIndex(n, 1, 0)) == 1 && ws[..0] == [] && OldElement(ws, 1, 0) == 0;
      assert !RunAgrees(ws, n, m);
    }
  }

  lemma {:induction false} RunAgreesWhen(ws: seq<Write>, n: nat, m: nat)
    requires OneToOne(n, m) && Within(ws, n, m)
    ensures RunAgrees(ws, n, m)
  {
    if ws != [] {
      var w := ws[|ws| - 1];
      assert w in ws && forall x :: x in ws[..|ws| - 1] ==> x in ws;
      RunAgreesWhen(ws[..|ws| - 1], n, m);
    }
  }

  // ----- Subscripts -----

  datatype IndexExpr =
    | Literal(value: int)
    | Variable(name: string)
    | ParenOrCast(sub: IndexExpr)
    | Add(lhs: IndexExpr, rhs: IndexExpr)
    | Mul(lhs: IndexExpr, rhs: IndexExpr)

  type State = map<string, int>

  function Eval(e: IndexExpr, st: State): int {
    match e
    case Literal(v) => v
    case Variable(x) => if x in st then st[x] else 0
    case ParenOrCast(sub) => Eval(sub, st)
    case Add(l, r) => Eval(l, st) + Eval(r, st)
    case Mul(l, r) => Eval(l, st) * Eval(r, st)
  }

  predicate IsIntegerExpr(e: IndexExpr) {
    match e
    case Literal(_) => true
    case ParenOrCast(sub) => IsIntegerExpr(sub)
    case _ => false
  }

  // getIndexAsInteger, for an integer literal
  function GetIndexAsInteger(e: IndexExpr): int
    requires IsIntegerExpr(e)
  {
    ToInt(Eval(e, map[]))
  }

  lemma {:induction false} LiteralValue(e: IndexExpr, st: State)
    requires IsIntegerExpr(e)
    ensures Eval(e, st) == Eval(e, map[])
  {
    if e.ParenOrCast? {
      LiteralValue(e.sub, st);
    }
  }

  // ----- Initialisers -----

  datatype Init = Value(v: int) | List(items: seq<Init>)

  // The element of an array: what is not written is zero.
  function Read(init: Init, path: seq<nat>): int {
    match init
    case Value(v) => if path == [] then v else 0
    case List(items) => if path != [] && path[0] < |items| then Read(items[path[0]], path[1..]) else 0
  }

  // The text of the lists at depth dim without their braces.
  function Spliced(items: seq<Init>): seq<Init> {
    if items == [] then []
    else (match items[0] case List(sub) => sub case Value(_) => [items[0]]) + Spliced(items[1..])
  }

  function Stripped(init: Init, dim: nat): Init
    requires dim >= 1
    decreases init, 0
  {
    match init
    case Value(_) => init
    case List(items) => if dim == 1 then List(Spliced(items)) else List(StrippedAll(items, dim - 1))
  }

  function StrippedAll(items: seq<Init>, dim: nat): (r: seq<Init>)
    requires dim >= 1
    ensures |r| == |items| && forall i :: 0 <= i < |items| ==> r[i] == Stripped(items[i], dim)
    decreases items, 1
  {
    if items == [] then [] else [Stripped(items[0], dim)] + StrippedAll(items[1..], dim)
  }

  type Path = seq<nat>

  // Where the lists that lose their braces are, from items[i] on.
  function InnerLists(items: seq<Init>, i: nat, dim: nat): seq<Path>
    requires i <= |items| && dim >= 1
    decreases items, |items| - i
  {
    if i == |items| then [] else InnerHere(items, i, dim) + InnerLists(items, i + 1, dim)
  }

  function InnerHere(items: seq<Init>, i: nat, dim: nat): seq<Path>
    requires i < |items| && dim >= 1
    decreases items, 0
  {
    match items[i]
    case Value(_) => []
    case List(sub) => if dim == 1 then [[i]] else Under(i, InnerLists(sub, 0, dim - 1))
  }

  function Under(i: nat, ps: seq<Path>): seq<Path> {
    if ps == [] then [] else [[i] + ps[0]] + Under(i, ps[1..])
  }

  // Removing the braces of the list at a path.
  function RemoveBraces(init: Init, p: Path): Init {
    match init
    case Value(_) => init
    case List(items) =>
      if p == [] || p[0] >= |items| then init
      else if |p| == 1 then
        (match items[p[0]]
         case Value(_) => init
         case List(sub) => List(items[..p[0]] + sub + items[p[0] + 1..]))
      else List(items[p[0] := RemoveBraces(items[p[0]], p[1..])])
  }

  // From the last path to the first.
  function RemoveAll(init: Init, ps: seq<Path>): Init {
    if ps == [] then init else RemoveBraces(RemoveAll(init, ps[1..]), ps[0])
  }

  lemma {:induction false} RemoveAllConcat(init: Init, ps: seq<Path>, qs: seq<Path>)
    ensures RemoveAll(init, ps + qs) == RemoveAll(RemoveAll(init, qs), ps)
  {
    if ps == [] {
      assert ps + qs == qs;
    } else {
      assert (ps + qs)[0] == ps[0] && (ps + qs)[1..] == ps[1..] + qs;
      RemoveAllConcat(init, ps[1..], qs);
    }
  }

  predicate NonEmptyPaths(ps: seq<Path>) {
    ps == [] || (ps[0] != [] && NonEmptyPaths(ps[1..]))
  }

  lemma {:induction false} NonEmptyConcat(ps: seq<Path>, qs: seq<Path>)
    requires NonEmptyPaths(ps) && NonEmptyPaths(qs)
    ensures NonEmptyPaths(ps + qs)
  {
    if ps == [] {
      assert ps + qs == qs;
    } else {
      assert (ps + qs)[0] == ps[0] && (ps + qs)[1..] == ps[1..] + qs;
      NonEmptyConcat(ps[1..], qs);
    }
  }

  lemma {:induction false} UnderNonEmpty(i: nat, ps: seq<Path>)
    ensures NonEmptyPaths(Under(i, ps))
  {
    if ps != [] {
      UnderNonEmpty(i, ps[1..]);
    }
  }

  lemma {:induction false} InnerNonEmpty(items: seq<Init>, i: nat, dim: nat)
    requires i <= |items| && dim >= 1
    ensures NonEmptyPaths(InnerLists(items, i, dim))
    decreases |items| - i
  {
    if i < |items| {
      InnerNonEmpty(items, i + 1, dim);
      if items[i].List? && dim > 1 {
        UnderNonEmpty(i, InnerLists(items[i].items, 0, dim - 1));
      }
      NonEmptyConcat(InnerHere(items, i, dim), InnerLists(items, i + 1, dim));
    }
  }

  // Paths below one element change that element alone.
  lemma {:induction false} RemoveUnder(items: seq<Init>, i: nat, ps: seq<Path>)
    requires i < |items| && NonEmptyPaths(ps)
    ensures RemoveAll(List(items), Under(i, ps)) == List(items[i := RemoveAll(items[i], ps)])
  {
    if ps == [] {
      assert items[i := items[i]] == items;
    } else {
      RemoveUnder(items, i, ps[1..]);
      var p := [i] + ps[0];
      assert p[0] == i && p[1..] == ps[0];
    }
  }

  function StrippedItems(items: seq<Init>, dim: nat): seq<Init>
    requires dim >= 1
  {
    if dim == 1 then Spliced(items) else StrippedAll(items, dim - 1)
  }

  // One list directly below.
  lemma RemoveOne(items: seq<Init>, i: nat, sub: seq<Init>)
    requires i < |items| && items[i] == List(sub)
    ensures RemoveAll(List(items), [[i]]) == List(items[..i] + (sub + items[i + 1..]))
  {
    var p: Path := [i];
    assert [p][0] == p && [p][1..] == [];
    assert items[..i] + sub + items[i + 1..] == items[..i] + (sub + items[i + 1..]);
  }

  // Taking the braces away one by one, from the last list to the first, strips the initialiser.
  lemma {:induction false} RemoveStrips(items: seq<Init>, i: nat, dim: nat)
    requires i <= |items| && dim >= 1
    ensures RemoveAll(List(items), InnerLists(items, i, dim)) == List(items[..i] + StrippedItems(items[i..], dim))
    decreases items, |items| - i
  {
    if i == |items| {
      assert items[i..] == [] && items[..i] + [] == items;
    } else {
      var later := StrippedItems(items[i + 1..], dim);
      var here, more := InnerHere(items, i, dim), InnerLists(items, i + 1, dim);
      RemoveStrips(items, i + 1, dim);
      RemoveAllConcat(List(items), here, more);
      if items[i].List? && dim > 1 {
        RemoveStrips(items[i].items, 0, dim - 1);
        StrippedWhole(items[i].items, dim - 1);
      }
      RemoveHere(items, i, dim, later);
      StrippedItemsAt(items, i, dim);
    }
  }

  lemma StrippedWhole(items: seq<Init>, dim: nat)
    requires dim >= 1
    ensures List(items[..0] + StrippedItems(items[0..], dim)) == Stripped(List(items), dim)
  {
    assert items[..0] == [] && items[0..] == items;
  }

  function StrippedHere(item: Init, dim: nat): seq<Init>
    requires dim >= 1
  {
    if dim > 1 then [Stripped(item, dim - 1)] else match item case List(sub) => sub case Value(_) => [item]
  }

  lemma StrippedItemsAt(items: seq<Init>, i: nat, dim: nat)
    requires i < |items| && dim >= 1
    ensures StrippedItems(items[i..], dim) == StrippedHere(items[i], dim) + StrippedItems(items[i + 1..], dim)
  {
    assert items[i..][0] == items[i] && items[i..][1..] == items[i + 1..];
  }

  lemma RemoveHere(items: seq<Init>, i: nat, dim: nat, later: seq<Init>)
    requires i < |items| && dim >= 1
    requires items[i].List? && dim > 1 ==>
               RemoveAll(items[i], InnerLists(items[i].items, 0, dim - 1)) == Stripped(items[i], dim - 1)
    ensures RemoveAll(List(items[..i + 1] + later), InnerHere(items, i, dim)) ==
            List(items[..i] + (StrippedHere(items[i], dim) + later))
  {
    var mid := items[..i + 1] + later;
    assert mid[i] == items[i] && mid[..i] == items[..i] && mid[i + 1..] == later;
    if items[i].Value? {
      assert mid == items[..i] + ([items[i]] + later);
    } else if dim == 1 {
      RemoveOne(mid, i, items[i].items);
    } else {
      var inner := InnerLists(items[i].items, 0, dim - 1);
      InnerNonEmpty(items[i].items, 0, dim - 1);
      RemoveUnder(mid, i, inner);
      Updated(mid, i, Stripped(items[i], dim - 1));
    }
  }

  lemma Updated(items: seq<Init>, i: nat, x: Init)
    requires i < |items|
    ensures items[i := x] == items[..i] + ([x] + items[i + 1..])
  {
  }

  // ----- What stripping leaves -----

  // Lists are spliced item by item: one gives what is in its braces, anything else stays.
  lemma {:induction false} SplicedConcat(a: seq<Init>, b: seq<Init>)
    ensures Spliced(a + b) == Spliced(a) + Spliced(b)
  {
    if a == [] {
      assert a + b == b;
    } else {
      assert (a + b)[0] == a[0] && (a + b)[1..] == a[1..] + b;
      SplicedConcat(a[1..], b);
    }
  }

  lemma SplicedItem(item: Init)
    ensures Spliced([]) == []
    ensures Spliced([item]) == if item.List? then item.items else [item]
  {
    assert [item][1..] == [];
  }

  // What stands at a path of an initialiser.
  function Node(init: Init, path: Path): Option<Init> {
    if path == [] then Some(init)
    else if init.List? && path[0] < |init.items| then Node(init.items[path[0]], path[1..])
    else None
  }

  predicate IsListAt(init: Init, path: Path) {
    Node(init, path).Some? && Node(init, path).value.List?
  }

  // Up to depth dim - 1 there is a list exactly where there was one. Those above that depth keep their
  // sizes, those at that depth are spliced. Values there stay where they are.
  lemma {:induction false} StrippedNodes(init: Init, dim: nat, path: Path)
    requires dim >= 1 && |path| < dim
    ensures IsListAt(Stripped(init, dim), path) <==> IsListAt(init, path)
    ensures IsListAt(init, path) && |path| < dim - 1 ==>
      |Node(Stripped(init, dim), path).value.items| == |Node(init, path).value.items|
    ensures IsListAt(init, path) && |path| == dim - 1 ==>
      Node(Stripped(init, dim), path).value.items == Spliced(Node(init, path).value.items)
    ensures !IsListAt(init, path) ==> Node(Stripped(init, dim), path) == Node(init, path)
    decreases |path|
  {
    if init.List? && path != [] && path[0] < |init.items| {
      StrippedNodes(init.items[path[0]], dim - 1, path[1..]);
    }
  }

  // ----- Reading the flattened rows -----

  // A row of plain values in braces.
  predicate IsRow(init: Init) {
    init.List? && forall k :: 0 <= k < |init.items| ==> init.items[k].Value?
  }

  // Rows with these numbers of values.
  predicate HasRows(items: seq<Init>, lens: seq<nat>) {
    |items| == |lens| && forall k :: 0 <= k < |lens| ==> IsRow(items[k]) && |items[k].items| == lens[k]
  }

  // The number of values in front of row i.
  function Before(lens: seq<nat>, i: nat): nat
    requires i <= |lens|
  {
    if i == 0 then 0 else lens[0] + Before(lens[1..], i - 1)
  }

  lemma {:induction false} BeforeNext(lens: seq<nat>, i: nat)
    requires i < |lens|
    ensures Before(lens, i + 1) == Before(lens, i) + lens[i]
  {
    if i > 0 {
      BeforeNext(lens[1..], i - 1);
    }
  }

  lemma {:induction false} BeforeRises(lens: seq<nat>, i: nat, k: nat)
    requires i <= k <= |lens|
    ensures Before(lens, i) <= Before(lens, k)
  {
    if i < k {
      BeforeRises(lens, i, k - 1);
      BeforeNext(lens, k - 1);
    }
  }

  // The value at a place of a list of plain values.
  function At(vals: seq<Init>, k: nat): int {
    if k < |vals| then Read(vals[k], []) else 0
  }

  function AtRow(items: seq<Init>, i: nat, j: nat): int {
    if i < |items| && items[i].List? then At(items[i].items, j) else 0
  }

  lemma AtConcat(a: seq<Init>, b: seq<Init>, k: nat)
    ensures At(a + b, k) == if k < |a| then At(a, k) else At(b, k - |a|)
  {
  }

  lemma ReadAt(items: seq<Init>, i: nat, j: nat)
    ensures Read(List(items), [i]) == At(items, i)
    ensures Read(List(items), [i, j]) == AtRow(items, i, j)
  {
    assert [i][1..] == [] && [i, j][1..] == [j] && [j][1..] == [];
  }

  lemma {:induction false} SplicedSize(items: seq<Init>, lens: seq<nat>)
    requires HasRows(items, lens)
    ensures |Spliced(items)| == Before(lens, |lens|)
  {
    if items != [] {
      SplicedSize(items[1..], lens[1..]);
    }
  }

  // In the flattened list a value stands behind the rows before its own.
  lemma {:induction false} RowPlace(items: seq<Init>, lens: seq<nat>, i: nat, j: nat)
    requires HasRows(items, lens) && i < |lens| && j < lens[i]
    ensures At(Spliced(items), Before(lens, i) + j) == AtRow(items, i, j)
    decreases i
  {
    AtConcat(items[0].items, Spliced(items[1..]), Before(lens, i) + j);
    if i > 0 {
      RowPlace(items[1..], lens[1..], i - 1, j);
    }
  }

  // The new index of an element finds its value, or nothing when the row has none.
  predicate InLine(lens: seq<nat>, n: nat, i: nat, j: nat) {
    if i < |lens| && j < lens[i] then Before(lens, i) == i * n else NewIndex(n, i, j) >= Before(lens, |lens|)
  }

  ghost predicate ReadsBackAt(items: seq<Init>, n: nat, i: nat, j: nat) {
    Read(List(Spliced(items)), [NewIndex(n, i, j)]) == Read(List(items), [i, j])
  }

  ghost predicate ReadsBack(items: seq<Init>, n: nat, m: nat) {
    forall i: nat, j: nat :: i < n && j < m ==> ReadsBackAt(items, n, i, j)
  }

  lemma InLineReadsBack(items: seq<Init>, lens: seq<nat>, n: nat, i: nat, j: nat)
    requires HasRows(items, lens) && InLine(lens, n, i, j)
    ensures ReadsBackAt(items, n, i, j)
  {
    ReadAt(items, i, j);
    ReadAt(Spliced(items), NewIndex(n, i, j), 0);
    SplicedSize(items, lens);
    if i < |lens| && j < lens[i] {
      RowPlace(items, lens, i, j);
    }
  }

  function CountingRow(first: int, m: nat): (row: seq<Init>)
    ensures |row| == m && forall k :: 0 <= k < m ==> row[k] == Value(first + k)
  {
    seq(m, k => Value(first + k))
  }

  // Rows that count their values from `first` on.
  function CountingRows(first: nat, lens: seq<nat>): (rows: seq<Init>)
    ensures HasRows(rows, lens)
    decreases lens
  {
    if lens == [] then [] else [List(CountingRow(first, lens[0]))] + CountingRows(first + lens[0], lens[1..])
  }

  lemma {:induction false} CountingPlace(first: nat, lens: seq<nat>, k: nat)
    requires k < Before(lens, |lens|)
    ensures At(Spliced(CountingRows(first, lens)), k) == first + k
    decreases lens
  {
    var row, rest := CountingRow(first, lens[0]), CountingRows(first + lens[0], lens[1..]);
    var rows := CountingRows(first, lens);
    assert rows[0] == List(row) && rows[1..] == rest;
    AtConcat(row, Spliced(rest), k);
    if k >= lens[0] {
      CountingPlace(first + lens[0], lens[1..], k - lens[0]);
    }
  }

  // Counting rows read back only what is in line.
  lemma CountingReadsBack(lens: seq<nat>, n: nat, i: nat, j: nat)
    requires ReadsBackAt(CountingRows(1, lens), n, i, j)
    ensures InLine(lens, n, i, j)
  {
    var rows, k := CountingRows(1, lens), NewIndex(n, i, j);
    ReadAt(rows, i, j);
    ReadAt(Spliced(rows), k, 0);
    SplicedSize(rows, lens);
    if i < |lens| && j < lens[i] {
      RowPlace(rows, lens, i, j);
      BeforeNext(lens, i);
      BeforeRises(lens, i + 1, |lens|);
      CountingPlace(1, lens, Before(lens, i) + j);
    }
    if k < Before(lens, |lens|) {
      CountingPlace(1, lens, k);
    }
  }

  predicate FullButLast(lens: seq<nat>, m: nat) {
    forall k :: 0 <= k < |lens| - 1 ==> lens[k] == m
  }

  // One row, or as many rows as columns, and no row but the last short; or a single row that
  // ends before the new index of the second.
  predicate Fits(lens: seq<nat>, n: nat, m: nat) {
    ((n == 1 || n == m) && FullButLast(lens, m)) || lens == [] || (|lens| == 1 && lens[0] <= n)
  }

  lemma {:induction false} FullBefore(lens: seq<nat>, m: nat, i: nat)
    requires FullButLast(lens, m) && i < |lens|
    ensures Before(lens, i) == i * m
  {
    if i > 0 {
      FullBefore(lens, m, i - 1);
      BeforeNext(lens, i - 1);
      assert i * m == (i - 1) * m + m;
    }
  }

  lemma FullInLine(lens: seq<nat>, m: nat, i: nat, j: nat)
    requires FullButLast(lens, m) && j < m && forall k :: 0 <= k < |lens| ==> lens[k] <= m
    ensures InLine(lens, m, i, j)
  {
    var last := |lens| - 1;
    if lens != [] {
      FullBefore(lens, m, last);
      BeforeNext(lens, last);
      if i <= last {
        FullBefore(lens, m, i);
      } else {
        MulLess(last + 1, i, m);
        assert (last + 1) * m == last * m + m;
      }
    }
  }

  lemma FitsInLine(lens: seq<nat>, n: nat, m: nat, i: nat, j: nat)
    requires Fits(lens, n, m) && i < n && j < m && forall k :: 0 <= k < |lens| ==> lens[k] <= m
    ensures InLine(lens, n, i, j)
  {
    if (n == 1 || n == m) && FullButLast(lens, m) {
      FullInLine(lens, m, i, j);
      assert n == 1 ==> i * n == 0 == i * m;
    } else if lens != [] {
      assert Before(lens, 1) == lens[0];
      if i > 0 {
        MulLess(1, i, n);
      }
    }
  }

  lemma InLineFits(lens: seq<nat>, n: nat, m: nat)
    requires |lens| <= n && forall k :: 0 <= k < |lens| ==> 1 <= lens[k] <= m
    requires forall i: nat, j: nat :: i < n && j < m ==> InLine(lens, n, i, j)
    ensures Fits(lens, n, m)
  {
    if |lens| == 1 && n > 1 {
      assert InLine(lens, n, 1, 0);
      assert Before(lens, 1) == lens[0];
    } else if |lens| > 1 {
      forall k | 0 <= k < |lens| - 1
        ensures lens[k] == n
      {
        assert InLine(lens, n, k, 0) && InLine(lens, n, k + 1, 0);
        BeforeNext(lens, k);
        assert (k + 1) * n == k * n + n;
      }
      BeforeNext(lens, 0);
      BeforeNext(lens, 1);
      BeforeRises(lens, 2, |lens|);
      assert n < m ==> InLine(lens, n, 0, n);
    }
  }

  // All initialisers with these numbers of values in their rows read back exactly when the rows fit.
  lemma RowsReadBackIff(lens: seq<nat>, n: nat, m: nat)
    requires |lens| <= n && forall k :: 0 <= k < |lens| ==> 1 <= lens[k] <= m
    ensures (forall items :: HasRows(items, lens) ==> ReadsBack(items, n, m)) <==> Fits(lens, n, m)
  {
    if Fits(lens, n, m) {
      forall items, i: nat, j: nat | HasRows(items, lens) && i < n && j < m
        ensures ReadsBackAt(items, n, i, j)
      {
        FitsInLine(lens, n, m, i, j);
        InLineReadsBack(items, lens, n, i, j);
      }
    } else {
      CountingMoves(lens, n, m);
      assert HasRows(CountingRows(1, lens), lens);
    }
  }

  lemma CountingMoves(lens: seq<nat>, n: nat, m: nat)
    requires |lens| <= n && forall k :: 0 <= k < |lens| ==> 1 <= lens[k] <= m
    requires !Fits(lens, n, m)
    ensures !ReadsBack(CountingRows(1, lens), n, m)
  {
    if ReadsBack(CountingRows(1, lens), n, m) {
      forall i: nat, j: nat | i < n && j < m
        ensures InLine(lens, n, i, j)
      {
        CountingReadsBack(lens, n, i, j);
      }
      InLineFits(lens, n, m);
    }
  }

  function FullRows(n: nat, m: nat): (lens: seq<nat>)
    ensures |lens| == n && forall k :: 0 <= k < n ==> lens[k] == m
  {
    seq(n, _ => m)
  }

  // Every full initialiser reads back the same exactly when there is one row, or as many rows as columns.
  lemma ReadsBackIff(n: nat, m: nat)
    requires n >= 1 && m >= 1
    ensures (forall items :: HasRows(items, FullRows(n, m)) ==> ReadsBack(items, n, m)) <==> n == 1 || n == m
  {
    RowsReadBackIff(FullRows(n, m), n, m);
  }

  // A short row moves the values behind it: {{1}, {2, 3}} for [2][2].
  lemma ShortRowMoves()
    ensures !ReadsBack([List([Value(1)]), List([Value(2), Value(3)])], 2, 2)
  {
    var lens: seq<nat> := [1, 2];
    assert lens[1..] == [2] && [2 as nat][1..] == [];
    assert CountingRow(1, 1) == [Value(1)] && CountingRow(2, 2) == [Value(2), Value(3)];
    assert CountingRows(1, lens) == [List([Value(1)]), List([Value(2), Value(3)])];
    CountingMoves(lens, 2, 2);
  }

  function RowSizes(items: seq<Init>): (lens: seq<nat>)
    ensures |lens| == |items|
    ensures forall k :: 0 <= k < |items| ==> lens[k] == if items[k].List? then |items[k].items| else 0
  {
    seq(|items|, k requires 0 <= k < |items| => if items[k].List? then |items[k].items| else 0)
  }

  predicate IsTable(items: seq<Init>, m: nat) {
    forall k :: 0 <= k < |items| ==> IsRow(items[k]) && |items[k].items| <= m
  }

  // The lists of rows inside an initialiser of dim + 1 dimensions fit.
  predicate FitsAt(init: Init, dim: nat, n: nat, m: nat)
    requires dim >= 1
    decreases init
  {
    match init
    case Value(_) => true
    case List(items) =>
      if dim == 1 then IsTable(items, m) && Fits(RowSizes(items), n, m)
      else forall i :: 0 <= i < |items| ==> FitsAt(items[i], dim - 1, n, m)
  }

  ghost predicate Kept(init: Init, dim: nat, outer: seq<nat>, n: nat, i: nat, j: nat)
    requires dim >= 1
  {
    Read(Stripped(init, dim), outer + [NewIndex(n, i, j)]) == Read(init, outer + [i, j])
  }

  lemma KeptHere(items: seq<Init>, outer: seq<nat>, n: nat, i: nat, j: nat)
    requires outer == []
    ensures Kept(List(items), 1, outer, n, i, j) == ReadsBackAt(items, n, i, j)
  {
    assert outer + [NewIndex(n, i, j)] == [NewIndex(n, i, j)] && outer + [i, j] == [i, j];
  }

  lemma KeptInside(items: seq<Init>, dim: nat, outer: seq<nat>, n: nat, i: nat, j: nat)
    requires dim > 1 && outer != [] && outer[0] < |items|
    ensures Kept(List(items), dim, outer, n, i, j) == Kept(items[outer[0]], dim - 1, outer[1..], n, i, j)
  {
    assert (outer + [NewIndex(n, i, j)])[1..] == outer[1..] + [NewIndex(n, i, j)];
    assert (outer + [i, j])[1..] == outer[1..] + [i, j];
  }

  // The whole declaration: when the rows fit, every element keeps its value.
  lemma {:induction false} ElementsKept(init: Init, dim: nat, outer: seq<nat>, n: nat, m: nat, i: nat, j: nat)
    requires dim >= 1 && |outer| == dim - 1 && init.List?
    requires i < n && j < m && FitsAt(init, dim, n, m)
    ensures Kept(init, dim, outer, n, i, j)
    decreases dim
  {
    var items := init.items;
    if dim == 1 {
      FitsInLine(RowSizes(items), n, m, i, j);
      InLineReadsBack(items, RowSizes(items), n, i, j);
      KeptHere(items, outer, n, i, j);
    } else if outer[0] < |items| {
      KeptInside(items, dim, outer, n, i, j);
      if items[outer[0]].List? {
        ElementsKept(items[outer[0]], dim - 1, outer[1..], n, m, i, j);
      } else {
        assert |outer[1..] + [i, j]| > 0 && |outer[1..] + [NewIndex(n, i, j)]| > 0;
      }
    }
  }

  ghost predicate AllKept(init: Init, dim: nat, n: nat, m: nat)
    requires dim >= 1
  {
    forall outer: seq<nat>, i: nat, j: nat :: |outer| == dim - 1 && i < n && j < m ==> Kept(init, dim, outer, n, i, j)
  }

  // Lists all the way down, and then at most n rows, not empty and not too long.
  predicate Regular(init: Init, dim: nat, n: nat, m: nat)
    requires dim >= 1
    decreases init
  {
    init.List? &&
    if dim == 1 then |init.items| <= n && IsTable(init.items, m) && 0 !in RowSizes(init.items)
    else forall i :: 0 <= i < |init.items| ==> Regular(init.items[i], dim - 1, n, m)
  }

  // The same braces around other values.
  predicate SameShape(a: Init, b: Init) {
    a.List? == b.List? &&
    (a.List? ==> |a.items| == |b.items| && forall i :: 0 <= i < |a.items| ==> SameShape(a.items[i], b.items[i]))
  }

  lemma {:induction false} SameAsItself(a: Init)
    ensures SameShape(a, a)
  {
    if a.List? {
      forall i | 0 <= i < |a.items|
        ensures SameShape(a.items[i], a.items[i])
      {
        SameAsItself(a.items[i]);
      }
    }
  }

  lemma {:induction false} SameShapeFits(a: Init, b: Init, dim: nat, n: nat, m: nat)
    requires dim >= 1 && SameShape(a, b) && FitsAt(a, dim, n, m)
    ensures FitsAt(b, dim, n, m)
    decreases dim
  {
    if a.List? {
      if dim == 1 {
        forall k | 0 <= k < |b.items|
          ensures IsRow(b.items[k]) && |b.items[k].items| == |a.items[k].items|
        {
          assert SameShape(a.items[k], b.items[k]);
        }
        assert RowSizes(a.items) == RowSizes(b.items);
      } else {
        forall i | 0 <= i < |a.items|
          ensures FitsAt(b.items[i], dim - 1, n, m)
        {
          SameShapeFits(a.items[i], b.items[i], dim - 1, n, m);
        }
      }
    }
  }

  // Other values in the same braces, with an element that is lost.
  lemma {:induction false} ElementLost(init: Init, dim: nat, n: nat, m: nat)
    returns (other: Init, outer: seq<nat>, i: nat, j: nat)
    requires dim >= 1 && Regular(init, dim, n, m) && !FitsAt(init, dim, n, m)
    ensures SameShape(init, other) && |outer| == dim - 1 && i < n && j < m && !Kept(other, dim, outer, n, i, j)
    decreases dim
  {
    var items := init.items;
    if dim == 1 {
      var lens := RowSizes(items);
      CountingMoves(lens, n, m);
      var rows := CountingRows(1, lens);
      i, j :| i < n && j < m && !ReadsBackAt(rows, n, i, j);
      KeptHere(rows, [], n, i, j);
      other, outer := List(rows), [];
    } else {
      var k :| 0 <= k < |items| && !FitsAt(items[k], dim - 1, n, m);
      other, outer, i, j := ElementLost(items[k], dim - 1, n, m);
      SameShapeUpdated(items, k, other);
      KeptInside(items[k := other], dim, [k] + outer, n, i, j);
      assert ([k] + outer)[1..] == outer;
      other, outer := List(items[k := other]), [k] + outer;
    }
  }

  lemma SameShapeUpdated(items: seq<Init>, k: nat, x: Init)
    requires k < |items| && SameShape(items[k], x)
    ensures SameShape(List(items), List(items[k := x]))
  {
    forall i | 0 <= i < |items|
      ensures SameShape(items[i], items[k := x][i])
    {
      SameAsItself(items[i]);
    }
  }

  // In any number of outer dimensions: whatever the values, all elements are kept exactly when the rows fit.
  lemma ElementsKeptIff(init: Init, dim: nat, n: nat, m: nat)
    requires dim >= 1 && Regular(init, dim, n, m)
    ensures (forall other :: SameShape(init, other) ==> AllKept(other, dim, n, m)) <==> FitsAt(init, dim, n, m)
  {
    if FitsAt(init, dim, n, m) {
      forall other, outer: seq<nat>, i: nat, j: nat |
        SameShape(init, other) && |outer| == dim - 1 && i < n && j < m
        ensures Kept(other, dim, outer, n, i, j)
      {
        SameShapeFits(init, other, dim, n, m);
        ElementsKept(other, dim, outer, n, m, i, j);
      }
    } else {
      var other, outer, i, j := ElementLost(init, dim, n, m);
      assert !AllKept(other, dim, n, m);
    }
  }

  // ----- The pass -----

  // getConstArraySize: a size that an `unsigned int` does not hold is read as the largest one.
  function ArraySize(size: nat): nat {
    if size < UNSIGNED_LIMIT then size else UNSIGNED_LIMIT - 1
  }

  class ReduceArrayDim {
    // The size of the second-last dimension, kept for the subscripts.
    var arraySz: nat

    constructor ()
      ensures arraySz == 0
    {
      arraySz := 0;
    }

    method GetInitListExprs(items: seq<Init>, dim: nat) returns (initVec: seq<Path>)
      requires dim >= 1
      ensures initVec == InnerLists(items, 0, dim)
      decreases items
    {
      initVec := [];
      for i := 0 to |items|
        invariant initVec + InnerLists(items, i, dim) == InnerLists(items, 0, dim)
      {
        Associate(initVec, InnerHere(items, i, dim), InnerLists(items, i + 1, dim));
        match items[i] {
          case Value(_) =>
            assert initVec + [] == initVec;
          case List(sub) =>
            if dim == 1 {
              initVec := initVec + [[i]];
            } else {
              var subVec := GetInitListExprs(sub, dim - 1);
              initVec := initVec + Under(i, subVec);
            }
        }
      }
    }

    // rewriteInitListExpr, from the last list to the first.
    method RewriteInitListExpr(init: Init, dim: nat) returns (r: Init)
      requires dim >= 2 && init.List?
      ensures r == Stripped(init, dim - 1)
    {
      var initVec := GetInitListExprs(init.items, dim - 1);
      r := init;
      var i := |initVec|;
      assert initVec[i..] == [];
      while i > 0
        invariant r == RemoveAll(init, initVec[i..])
      {
        i := i - 1;
        assert initVec[i..][0] == initVec[i] && initVec[i..][1..] == initVec[i + 1..];
        r := RemoveBraces(r, initVec[i]);
      }
      assert initVec[0..] == initVec;
      RemoveStrips(init.items, 0, dim - 1);
      assert init.items[..0] == [] && init.items[0..] == init.items;
    }

    // rewriteOneVarDecl for constant sizes: the product is an `unsigned int`.
    method RewriteOneVarDecl(dims: seq<nat>, init: Option<Init>) returns (dims': seq<nat>, init': Option<Init>)
      requires |dims| >= 2
      modifies this
      ensures arraySz == ArraySize(dims[|dims| - 2])
      ensures dims[|dims| - 2] < 0x1_0000_0000 && dims[|dims| - 1] < 0x1_0000_0000 ==>
        dims' == dims[..|dims| - 2] + [dims[|dims| - 2] * dims[|dims| - 1] % 0x1_0000_0000]
      ensures dims' == dims[..|dims| - 2] + [arraySz * ArraySize(dims[|dims| - 1]) % UNSIGNED_LIMIT]
      ensures init' == if init.Some? && init.value.List? then Some(Stripped(init.value, |dims| - 1)) else init
      // When the rows fit, every element keeps its value.
      ensures
        var n, m := ArraySize(dims[|dims| - 2]), ArraySize(dims[|dims| - 1]);
        forall outer: seq<nat>, i: nat, j: nat ::
          i < n && j < m && |outer| == |dims| - 2 &&
          init.Some? && init.value.List? && FitsAt(init.value, |dims| - 1, n, m) ==>
            Read(init'.value, outer + [NewIndex(n, i, j)]) == Read(init.value, outer + [i, j])
    {
      var dim := |dims|;
      init' := init;
      if init.Some? && init.value.List? {
        var r := RewriteInitListExpr(init.value, dim);
        init' := Some(r);
      }
      var lastSz := ArraySize(dims[dim - 1]);
      arraySz := ArraySize(dims[dim - 2]);
      dims' := dims[..dim - 2] + [arraySz * lastSz % UNSIGNED_LIMIT];
      var n, m := arraySz, lastSz;
      forall outer: seq<nat>, i: nat, j: nat | i < n && j < m && |outer| == dim - 2 &&
                                               init.Some? && init.value.List? && FitsAt(init.value, dim - 1, n, m)
        ensures Read(init'.value, outer + [NewIndex(n, i, j)]) == Read(init.value, outer + [i, j])
      {
        ElementsKept(init.value, dim - 1, outer, n, m, i, j);
        assert Kept(init.value, dim - 1, outer, n, i, j);
      }
    }

    // rewriteSubscriptExpr: the expressions come with the last index first. In all four forms the new
    // index evaluates to i*n+j in every state, when literals that are computed with are those of an `int`.
    // With any literals the two have the same value as an `unsigned int`.
    method RewriteSubscriptExpr(idxExprs: seq<IndexExpr>) returns (r: seq<IndexExpr>)
      requires |idxExprs| >= 2
      ensures |r| == |idxExprs| - 1 && r[1..] == idxExprs[2..]
      ensures LiteralsFit(idxExprs[1], idxExprs[0], arraySz) ==>
        forall st: State :: Eval(r[0], st) == Eval(idxExprs[1], st) * arraySz + Eval(idxExprs[0], st)
      ensures forall st: State :: SameUnsigned(Eval(r[0], st), Eval(idxExprs[1], st) * arraySz + Eval(idxExprs[0], st))
    {
      var lastE, secE := idxExprs[0], idxExprs[1];
      var newE := RewrittenIndex(secE, lastE);
      r := [newE] + idxExprs[2..];
    }

    method RewrittenIndex(secE: IndexExpr, lastE: IndexExpr) returns (newE: IndexExpr)
      ensures IsNewIndex(newE, secE, lastE, arraySz)
    {
      var lastIdx, secIdx := -1, -1;
      if IsIntegerExpr(lastE) {
        lastIdx := GetIndexAsInteger(lastE);
      }
      if IsIntegerExpr(secE) {
        secIdx := GetIndexAsInteger(secE);
      }
      if lastIdx >= 0 && secIdx >= 0 {
        var newIdx := ToInt(secIdx * arraySz + lastIdx);
        newE := Literal(newIdx);
        TwoLiterals(secE, lastE, arraySz);
      } else if arraySz == 1 {
        newE := Add(secE, lastE);
        SizeOne(secE, lastE);
      } else if secIdx == 1 {
        newE := Add(Literal(arraySz), lastE);
        LiteralOne(secE, lastE, arraySz);
      } else {
        newE := Add(Mul(ParenOrCast(secE), Literal(arraySz)), lastE);
        Product(secE, lastE, arraySz);
      }
    }
  }

  // In every state the expression evaluates to i*n+j as an `unsigned int`, and to i*n+j itself when the literals fit.
  ghost predicate IsNewIndex(newE: IndexExpr, secE: IndexExpr, lastE: IndexExpr, n: nat) {
    && (forall st: State :: SameUnsigned(Eval(newE, st), Eval(secE, st) * n + Eval(lastE, st)))
    && (LiteralsFit(secE, lastE, n) ==> forall st: State :: Eval(newE, st) == Eval(secE, st) * n + Eval(lastE, st))
  }

  lemma TwoLiterals(secE: IndexExpr, lastE: IndexExpr, n: nat)
    requires IsIntegerExpr(secE) && IsIntegerExpr(lastE)
    ensures IsNewIndex(Literal(ToInt(GetIndexAsInteger(secE) * n + GetIndexAsInteger(lastE))), secE, lastE, n)
  {
    var sec, last := Eval(secE, map[]), Eval(lastE, map[]);
    var value := ToInt(ToInt(sec) * n + ToInt(last));
    LiteralsCongruent(sec, last, n);
    if LiteralsFit(secE, lastE, n) {
      LiteralsExact(sec, last, n);
    }
    NumberIsNewIndex(value, secE, lastE, n);
  }

  lemma NumberIsNewIndex(value: int, secE: IndexExpr, lastE: IndexExpr, n: nat)
    requires IsIntegerExpr(secE) && IsIntegerExpr(lastE)
    requires SameUnsigned(value, Eval(secE, map[]) * n + Eval(lastE, map[]))
    requires LiteralsFit(secE, lastE, n) ==> value == Eval(secE, map[]) * n + Eval(lastE, map[])
    ensures IsNewIndex(Literal(value), secE, lastE, n)
  {
    forall st: State
      ensures Eval(Literal(value), st) == value
      ensures Eval(secE, st) == Eval(secE, map[]) && Eval(lastE, st) == Eval(lastE, map[])
    {
      LiteralValue(secE, st);
      LiteralValue(lastE, st);
    }
  }

  lemma LiteralsExact(sec: int, last: int, n: nat)
    requires FitsInt(sec) && FitsInt(last) && FitsInt(sec * n + last)
    ensures ToInt(ToInt(sec) * n + ToInt(last)) == sec * n + last
  {
    ToIntFits(sec);
    ToIntFits(last);
    ToIntFits(sec * n + last);
  }

  lemma SizeOne(secE: IndexExpr, lastE: IndexExpr)
    ensures IsNewIndex(Add(secE, lastE), secE, lastE, 1)
  {
  }

  lemma LiteralOne(secE: IndexExpr, lastE: IndexExpr, n: nat)
    requires IsIntegerExpr(secE) && GetIndexAsInteger(secE) == 1
    ensures IsNewIndex(Add(Literal(n), lastE), secE, lastE, n)
  {
    forall st: State
      ensures SameUnsigned(n + Eval(lastE, st), Eval(secE, st) * n + Eval(lastE, st))
      ensures LiteralsFit(secE, lastE, n) ==> Eval(secE, st) == 1
    {
      LiteralValue(secE, st);
      OneCongruent(Eval(secE, st), Eval(lastE, st), n);
      if LiteralsFit(secE, lastE, n) {
        SubscriptValue(secE, st);
      }
    }
  }

  lemma Product(secE: IndexExpr, lastE: IndexExpr, n: nat)
    ensures IsNewIndex(Add(Mul(ParenOrCast(secE), Literal(n)), lastE), secE, lastE, n)
  {
    forall st: State {
      ProductValue(secE, n, st);
    }
  }

  predicate SameUnsigned(a: int, b: int) {
    a % 0x1_0000_0000 == b % 0x1_0000_0000
  }

  lemma Congruent(a: int, b: int, k: int)
    requires a == b + k * 0x1_0000_0000
    ensures SameUnsigned(a, b)
  {
  }

  lemma ToIntCongruent(v: int) returns (k: int)
    ensures ToInt(v) == v + k * 0x1_0000_0000
  {
    k := -(v / 0x1_0000_0000) - if v % 0x1_0000_0000 >= 0x8000_0000 then 1 else 0;
  }

  // Both indices are literals, cut to an `int` as their sum is.
  lemma LiteralsCongruent(sec: int, last: int, n: nat)
    ensures SameUnsigned(ToInt(ToInt(sec) * n + ToInt(last)), sec * n + last)
  {
    var k1 := ToIntCongruent(sec);
    var k2 := ToIntCongruent(last);
    var k3 := ToIntCongruent(ToInt(sec) * n + ToInt(last));
    var limit := 0x1_0000_0000;
    assert (sec + k1 * limit) * n == sec * n + (k1 * n) * limit;
    Congruent(ToInt(ToInt(sec) * n + ToInt(last)), sec * n + last, k1 * n + k2 + k3);
  }

  lemma OneCongruent(sec: int, last: int, n: nat)
    requires ToInt(sec) == 1
    ensures SameUnsigned(n + last, sec * n + last)
  {
    var k := ToIntCongruent(sec);
    var limit := 0x1_0000_0000;
    assert (sec + k * limit) * n == sec * n + (k * n) * limit;
    Congruent(n + last, sec * n + last, k * n);
  }

  lemma ProductValue(e: IndexExpr, n: nat, st: State)
    ensures Eval(Mul(ParenOrCast(e), Literal(n)), st) == Eval(e, st) * n
  {
    assert Eval(ParenOrCast(e), st) == Eval(e, st);
  }

  // A literal row index is an `int`; so are, besides another literal, that one and the sum.
  predicate LiteralsFit(secE: IndexExpr, lastE: IndexExpr, n: nat) {
    IsIntegerExpr(secE) ==>
      FitsInt(Eval(secE, map[])) &&
      (IsIntegerExpr(lastE) ==> FitsInt(Eval(lastE, map[])) && FitsInt(Eval(secE, map[]) * n + Eval(lastE, map[])))
  }

  lemma SubscriptValue(e: IndexExpr, st: State)
    requires FitsInt(Eval(e, st))
    ensures IsIntegerExpr(e) ==> GetIndexAsInteger(e) == Eval(e, st)
  {
    if IsIntegerExpr(e) {
      LiteralValue(e, st);
      ToIntFits(Eval(e, st));
    }
  }
}
