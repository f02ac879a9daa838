/**
 The text edits of clang_delta/ReplaceCallExpr.cpp:510-603: the parameters in the text of the
 return expression are replaced from left to right at offsets that a running difference
 corrects. They are compared with substitution in the tree.
 */
module ReplaceCallExpr {
  import opened Collections
  import opened CallInlining

  // ----- Printing -----

  function Print(e: Expr): string {
    match e
    case Constant(text, _, _) => text
    case Variable(name, _) => name
    case ParmRef(_, name) => name
    case Paren(sub) => ("(" + Print(sub)) + ")"
    case ImplicitCast(sub) => Print(sub)
    case Cast(tyName, sub) => ("(" + tyName + ")") + Print(sub)
    case Unary(op, sub) => op + Print(sub)
    case Binary(l, op, r) => Print(l) + ((" " + op + " ") + Print(r))
    case Conditional(c, t, f) => (Print(c) + (" ? " + Print(t))) + (" : " + Print(f))
    case Subscript(b, i) => (Print(b) + ("[" + Print(i))) + "]"
    case Member(b, access) => Print(b) + access
  }

  // How each form of expression looks.
  lemma {:induction false} PrintForms(ty: Ty)
    ensures
      var a, b, c := Variable("a", ty), Constant("1", 1, ty), ParmRef(0, "p");
      && Print(Binary(a, "*", b)) == "a * 1" && Print(Conditional(a, b, c)) == "a ? 1 : p"
      && Print(Paren(a)) == "(a)" && Print(Cast("int", a)) == "(int)a" && Print(ImplicitCast(a)) == "a"
      && Print(Unary("-", c)) == "-p" && Print(Subscript(a, b)) == "a[1]" && Print(Member(c, "->x")) == "p->x"
  {
  }

  // RewriteUtils::getExprString puts a comma expression in parentheses.
  function GetExprString(e: Expr): string {
    if IsComma(e) then "(" + Print(e) + ")" else Print(e)
  }

  // The text of an expression in pieces: the names of parameters, and everything else.
  datatype Piece = Text(s: string) | Hole(parm: nat, name: string)

  // Two texts with something in between.
  function Join(a: seq<Piece>, s: string, b: seq<Piece>): seq<Piece> {
    a + ([Text(s)] + b)
  }

  function Pieces(e: Expr): seq<Piece> {
    match e
    case Constant(text, _, _) => [Text(text)]
    case Variable(name, _) => [Text(name)]
    case ParmRef(i, name) => [Hole(i, name)]
    case Paren(sub) => Join(Join([], "(", Pieces(sub)), ")", [])
    case ImplicitCast(sub) => Pieces(sub)
    case Cast(tyName, sub) => Join([], "(" + tyName + ")", Pieces(sub))
    case Unary(op, sub) => Join([], op, Pieces(sub))
    case Binary(l, op, r) => Join(Pieces(l), " " + op + " ", Pieces(r))
    case Conditional(c, t, f) => Join(Join(Pieces(c), " ? ", Pieces(t)), " : ", Pieces(f))
    case Subscript(b, i) => Join(Join(Pieces(b), "[", Pieces(i)), "]", [])
    case Member(b, access) => Join(Pieces(b), access, [])
  }

  function Flat(ps: seq<Piece>): string {
    if ps == [] then []
    else (match ps[0] case Text(s) => s case Hole(_, name) => name) + Flat(ps[1..])
  }

  // The string that takes the place of a parameter, if there is one for it.
  function NewText(parm: nat, name: string, news: seq<string>): string {
    if parm < |news| then news[parm] else name
  }

  // The pieces with other strings for the parameters.
  function FlatWith(ps: seq<Piece>, news: seq<string>): string {
    if ps == [] then []
    else (match ps[0] case Text(s) => s case Hole(i, name) => NewText(i, name, news)) + FlatWith(ps[1..], news)
  }

  lemma {:induction false} FlatJoin(a: seq<Piece>, s: string, b: seq<Piece>)
    ensures Flat(Join(a, s, b)) == Flat(a) + (s + Flat(b))
  {
    if a == [] {
      assert Join(a, s, b) == [Text(s)] + b && ([Text(s)] + b)[1..] == b;
    } else {
      assert Join(a, s, b)[0] == a[0] && Join(a, s, b)[1..] == Join(a[1..], s, b);
      FlatJoin(a[1..], s, b);
    }
  }

  lemma {:induction false} FlatWithJoin(a: seq<Piece>, s: string, b: seq<Piece>, news: seq<string>)
    ensures FlatWith(Join(a, s, b), news) == FlatWith(a, news) + (s + FlatWith(b, news))
  {
    if a == [] {
      assert Join(a, s, b) == [Text(s)] + b && ([Text(s)] + b)[1..] == b;
    } else {
      assert Join(a, s, b)[0] == a[0] && Join(a, s, b)[1..] == Join(a[1..], s, b);
      FlatWithJoin(a[1..], s, b, news);
    }
  }

  lemma FlatPrefix(s: string, ps: seq<Piece>)
    ensures Flat(Join([], s, ps)) == s + Flat(ps)
  {
    FlatJoin([], s, ps);
  }

  lemma FlatSuffix(ps: seq<Piece>, s: string)
    ensures Flat(Join(ps, s, [])) == Flat(ps) + s
  {
    FlatJoin(ps, s, []);
  }

  lemma FlatWithPrefix(s: string, ps: seq<Piece>, news: seq<string>)
    ensures FlatWith(Join([], s, ps), news) == s + FlatWith(ps, news)
  {
    FlatWithJoin([], s, ps, news);
  }

  lemma FlatWithSuffix(ps: seq<Piece>, s: string, news: seq<string>)
    ensures FlatWith(Join(ps, s, []), news) == FlatWith(ps, news) + s
  {
    FlatWithJoin(ps, s, [], news);
  }

  lemma FlatBinary(a: seq<Piece>, op: string, b: seq<Piece>, news: seq<string>)
    ensures Flat(Join(a, " " + op + " ", b)) == Flat(a) + ((" " + op + " ") + Flat(b))
    ensures FlatWith(Join(a, " " + op + " ", b), news) == FlatWith(a, news) + ((" " + op + " ") + FlatWith(b, news))
  {
    FlatJoin(a, " " + op + " ", b);
    FlatWithJoin(a, " " + op + " ", b, news);
  }

  lemma FlatConditional(a: seq<Piece>, b: seq<Piece>, c: seq<Piece>, news: seq<string>)
    ensures Flat(Join(Join(a, " ? ", b), " : ", c)) == (Flat(a) + (" ? " + Flat(b))) + (" : " + Flat(c))
    ensures FlatWith(Join(Join(a, " ? ", b), " : ", c), news) ==
            (FlatWith(a, news) + (" ? " + FlatWith(b, news))) + (" : " + FlatWith(c, news))
  {
    FlatJoin(a, " ? ", b);
    FlatJoin(Join(a, " ? ", b), " : ", c);
    FlatWithJoin(a, " ? ", b, news);
    FlatWithJoin(Join(a, " ? ", b), " : ", c, news);
  }

  lemma FlatSubscript(a: seq<Piece>, b: seq<Piece>, news: seq<string>)
    ensures Flat(Join(Join(a, "[", b), "]", [])) == (Flat(a) + ("[" + Flat(b))) + "]"
    ensures FlatWith(Join(Join(a, "[", b), "]", []), news) == (FlatWith(a, news) + ("[" + FlatWith(b, news))) + "]"
  {
    FlatJoin(a, "[", b);
    FlatSuffix(Join(a, "[", b), "]");
    FlatWithJoin(a, "[", b, news);
    FlatWithSuffix(Join(a, "[", b), "]", news);
  }

  lemma {:induction false} PiecesPrint(e: Expr)
    ensures Flat(Pieces(e)) == Print(e)
  {
    match e
    case Constant(text, _, _) => assert [Text(text)][1..] == [];
    case Variable(name, _) => assert [Text(name)][1..] == [];
    case ParmRef(i, name) => assert [Hole(i, name)][1..] == [];
    case Paren(sub) =>
      PiecesPrint(sub);
      FlatPrefix("(", Pieces(sub));
      FlatSuffix(Join([], "(", Pieces(sub)), ")");
    case ImplicitCast(sub) => PiecesPrint(sub);
    case Cast(tyName, sub) => PiecesPrint(sub); FlatPrefix("(" + tyName + ")", Pieces(sub));
    case Unary(op, sub) => PiecesPrint(sub); FlatPrefix(op, Pieces(sub));
    case Binary(l, op, r) => PiecesPrint(l); PiecesPrint(r); FlatBinary(Pieces(l), op, Pieces(r), []);
    case Conditional(c, t, f) =>
      PiecesPrint(c);
      PiecesPrint(t);
      PiecesPrint(f);
      FlatConditional(Pieces(c), Pieces(t), Pieces(f), []);
    case Subscript(b, i) => PiecesPrint(b); PiecesPrint(i); FlatSubscript(Pieces(b), Pieces(i), []);
    case Member(b, access) => PiecesPrint(b); FlatSuffix(Pieces(b), access);
  }

  function Texts(news: seq<Expr>): (r: seq<string>)
    ensures |r| == |news| && forall i :: 0 <= i < |r| ==> r[i] == Print(news[i])
  {
    seq(|news|, i requires 0 <= i < |news| => Print(news[i]))
  }

  // The pieces with the new strings are the print of the substituted tree.
  lemma {:induction false} PiecesPrintSubst(e: Expr, news: seq<Expr>)
    ensures FlatWith(Pieces(e), Texts(news)) == Print(Subst(e, news))
    decreases e, 1
  {
    match e
    case Constant(text, _, _) => assert [Text(text)][1..] == [];
    case Variable(name, _) => assert [Text(name)][1..] == [];
    case ParmRef(i, name) => assert [Hole(i, name)][1..] == [];
    case Paren(sub) =>
      PiecesPrintSubst(sub, news);
      FlatWithPrefix("(", Pieces(sub), Texts(news));
      FlatWithSuffix(Join([], "(", Pieces(sub)), ")", Texts(news));
    case ImplicitCast(sub) => PiecesPrintSubst(sub, news);
    case Cast(tyName, sub) => PiecesPrintSubst(sub, news); FlatWithPrefix("(" + tyName + ")", Pieces(sub), Texts(news));
    case Unary(op, sub) => PiecesPrintSubst(sub, news); FlatWithPrefix(op, Pieces(sub), Texts(news));
    case Member(b, access) => PiecesPrintSubst(b, news); FlatWithSuffix(Pieces(b), access, Texts(news));
    case _ => PartsPrintSubst(e, news);
  }

  lemma {:induction false} PartsPrintSubst(e: Expr, news: seq<Expr>)
    requires e.Binary? || e.Conditional? || e.Subscript?
    ensures FlatWith(Pieces(e), Texts(news)) == Print(Subst(e, news))
    decreases e, 0
  {
    match e
    case Binary(l, op, r) =>
      PiecesPrintSubst(l, news);
      PiecesPrintSubst(r, news);
      FlatBinary(Pieces(l), op, Pieces(r), Texts(news));
    case Conditional(c, t, f) =>
      PiecesPrintSubst(c, news);
      PiecesPrintSubst(t, news);
      PiecesPrintSubst(f, news);
      FlatConditional(Pieces(c), Pieces(t), Pieces(f), Texts(news));
    case Subscript(b, i) =>
      PiecesPrintSubst(b, news);
      PiecesPrintSubst(i, news);
      FlatSubscript(Pieces(b), Pieces(i), Texts(news));
  }

  // ----- References in the text -----

  // A reference to a parameter, with its offset from the start of the text.
  datatype Ref = Ref(off: nat, parm: nat, name: string)

  function End(r: Ref): nat {
    r.off + |r.name|
  }

  // The references in a text that starts at base, from left to right.
  function RefsOf(ps: seq<Piece>, base: nat): seq<Ref> {
    if ps == [] then []
    else match ps[0]
      case Text(s) => RefsOf(ps[1..], base + |s|)
      case Hole(i, name) => [Ref(base, i, name)] + RefsOf(ps[1..], base + |name|)
  }

  function Refs(e: Expr): seq<Ref> {
    RefsOf(Pieces(e), 0)
  }

  // The references lie between lo and hi, one after the other.
  predicate Spread(refs: seq<Ref>, lo: nat, hi: nat): (b: bool)
    ensures b ==> lo <= hi
  {
    if refs == [] then lo <= hi else lo <= refs[0].off && Spread(refs[1..], End(refs[0]), hi)
  }

  lemma {:induction false} RefsSpread(ps: seq<Piece>, base: nat)
    ensures Spread(RefsOf(ps, base), base, base + |Flat(ps)|)
  {
    if ps != [] {
      match ps[0] {
        case Text(s) =>
          RefsSpread(ps[1..], base + |s|);
          SpreadFrom(RefsOf(ps[1..], base + |s|), base, base + |s|, base + |Flat(ps)|);
        case Hole(_, name) => RefsSpread(ps[1..], base + |name|);
      }
    }
  }

  lemma SpreadFrom(refs: seq<Ref>, lo: nat, mid: nat, hi: nat)
    requires lo <= mid && Spread(refs, mid, hi)
    ensures Spread(refs, lo, hi)
  {
  }

  // str[lo..hi] with the references replaced.
  function Splice(str: string, refs: seq<Ref>, lo: nat, hi: nat, news: seq<string>): string
    requires Spread(refs, lo, hi) && hi <= |str|
  {
    if refs == [] then str[lo..hi]
    else
      var r := refs[0];
      str[lo..r.off] + (NewText(r.parm, r.name, news) + Splice(str, refs[1..], End(r), hi, news))
  }

  lemma SpliceMore(str: string, refs: seq<Ref>, lo: nat, mid: nat, hi: nat, news: seq<string>)
    requires lo <= mid && Spread(refs, mid, hi) && hi <= |str|
    ensures Spread(refs, lo, hi)
    ensures Splice(str, refs, lo, hi, news) == str[lo..mid] + Splice(str, refs, mid, hi, news)
  {
    if refs == [] {
      Cut(str, lo, mid, hi);
    } else {
      var r := refs[0];
      Cut(str, lo, mid, r.off);
      Associate(str[lo..mid], str[mid..r.off], NewText(r.parm, r.name, news) + Splice(str, refs[1..], End(r), hi, news));
    }
  }

  // The text of the pieces stands at base, and replacing its references gives the new text.
  predicate SplicesRight(str: string, ps: seq<Piece>, base: nat, news: seq<string>) {
    var refs, hi := RefsOf(ps, base), base + |Flat(ps)|;
    Spread(refs, base, hi) && hi <= |str| && Splice(str, refs, base, hi, news) == FlatWith(ps, news)
  }

  lemma {:induction false} SpliceFlat(str: string, ps: seq<Piece>, base: nat, news: seq<string>)
    requires base + |Flat(ps)| <= |str| && str[base..base + |Flat(ps)|] == Flat(ps)
    ensures SplicesRight(str, ps, base, news)
  {
    if ps != [] {
      var s, rest := if ps[0].Text? then ps[0].s else ps[0].name, Flat(ps[1..]);
      assert Flat(ps) == s + rest;
      StandsRest(str, base, s, rest);
      SpliceFlat(str, ps[1..], base + |s|, news);
      if ps[0].Text? {
        SpliceText(str, ps, base, news);
      } else {
        SpliceHole(str, ps, base, news);
      }
    }
  }

  lemma SpliceText(str: string, ps: seq<Piece>, base: nat, news: seq<string>)
    requires ps != [] && ps[0].Text? && SplicesRight(str, ps[1..], base + |ps[0].s|, news)
    requires str[base..base + |ps[0].s|] == ps[0].s
    ensures SplicesRight(str, ps, base, news)
  {
    var next := base + |ps[0].s|;
    SpliceMore(str, RefsOf(ps[1..], next), base, next, next + |Flat(ps[1..])|, news);
    assert RefsOf(ps, base) == RefsOf(ps[1..], next);
  }

  lemma SpliceHole(str: string, ps: seq<Piece>, base: nat, news: seq<string>)
    requires ps != [] && ps[0].Hole? && SplicesRight(str, ps[1..], base + |ps[0].name|, news)
    ensures SplicesRight(str, ps, base, news)
  {
    var rest := RefsOf(ps[1..], base + |ps[0].name|);
    var refs := RefsOf(ps, base);
    assert refs[0] == Ref(base, ps[0].parm, ps[0].name) && refs[1..] == rest;
    assert str[base..base] == [];
  }

  lemma StandsRest(str: string, base: nat, s: string, t: string)
    requires base + |s| + |t| <= |str| && str[base..base + |s| + |t|] == s + t
    ensures str[base..base + |s|] == s && str[base + |s|..base + |s| + |t|] == t
  {
    var u := str[base..base + |s| + |t|];
    assert u[..|s|] == s && u[|s|..] == t;
  }

  // On the text of an expression, the replacement prints the substituted tree.
  lemma SplicePrintsSubst(e: Expr, news: seq<Expr>)
    ensures Spread(Refs(e), 0, |Print(e)|)
    ensures Splice(Print(e), Refs(e), 0, |Print(e)|, Texts(news)) == Print(Subst(e, news))
  {
    PiecesPrint(e);
    PiecesPrintSubst(e, news);
    assert Print(e)[0..0 + |Print(e)|] == Print(e);
    SpliceFlat(Print(e), Pieces(e), 0, Texts(news));
  }

  // ----- Sorting -----

  predicate Sorted(refs: seq<Ref>) {
    forall i, j :: 0 <= i < j < |refs| ==> refs[i].off < refs[j].off
  }

  // insertParmRef: after the references with smaller or equal offsets.
  method InsertParmRef(sorted: seq<Ref>, r: Ref) returns (refs: seq<Ref>)
    requires Sorted(sorted) && forall x :: x in sorted ==> x.off != r.off
    ensures Sorted(refs) && multiset(refs) == multiset(sorted) + multiset{r}
  {
    if sorted == [] {
      return [r];
    }
    var i := 0;
    while i < |sorted| && !(r.off < sorted[i].off)
      invariant i <= |sorted|
      invariant forall k :: 0 <= k < i ==> sorted[k].off < r.off
    {
      assert sorted[i] in sorted;
      i := i + 1;
    }
    refs := sorted[..i] + [r] + sorted[i..];
    InsertSorted(sorted, i, r);
  }

  lemma InsertSorted(sorted: seq<Ref>, i: nat, r: Ref)
    requires Sorted(sorted) && i <= |sorted|
    requires forall k :: 0 <= k < i ==> sorted[k].off < r.off
    requires i < |sorted| ==> r.off < sorted[i].off
    ensures Sorted(sorted[..i] + [r] + sorted[i..])
    ensures multiset(sorted[..i] + [r] + sorted[i..]) == multiset(sorted) + multiset{r}
  {
    var refs := sorted[..i] + [r] + sorted[i..];
    forall j, k | 0 <= j < k < |refs|
      ensures refs[j].off < refs[k].off
    {
      var x, y := InsertedAt(sorted, i, r, j), InsertedAt(sorted, i, r, k);
      if k > i {
        assert y == sorted[k - 1];
        if j == i && k - 1 > i {
          assert sorted[i].off < sorted[k - 1].off;
        }
      }
    }
    InsertedMultiset(sorted, i, r);
  }

  function InsertedAt(sorted: seq<Ref>, i: nat, r: Ref, j: nat): (x: Ref)
    requires i <= |sorted| && j <= |sorted|
    ensures x == (sorted[..i] + [r] + sorted[i..])[j]
  {
    if j < i then sorted[j] else if j == i then r else sorted[j - 1]
  }

  lemma InsertedMultiset(sorted: seq<Ref>, i: nat, r: Ref)
    requires i <= |sorted|
    ensures multiset(sorted[..i] + [r] + sorted[i..]) == multiset(sorted) + multiset{r}
  {
    assert sorted == sorted[..i] + sorted[i..];
  }

  // sortParmRefsByOffs: the map may be walked in any order.
  method SortParmRefsByOffs(order: seq<Ref>) returns (sorted: seq<Ref>)
    requires forall i, j :: 0 <= i < j < |order| ==> order[i].off != order[j].off
    ensures Sorted(sorted) && multiset(sorted) == multiset(order)
  {
    sorted := [];
    for k := 0 to |order|
      invariant Sorted(sorted) && multiset(sorted) == multiset(order[..k])
    {
      forall x | x in sorted
        ensures x.off != order[k].off
      {
        assert x in multiset(order[..k]);
        assert x in order[..k];
      }
      assert order[..k + 1] == order[..k] + [order[k]];
      sorted := InsertParmRef(sorted, order[k]);
    }
    assert order[..|order|] == order;
  }

  // There is only one sorted arrangement.
  lemma SortedOneWay(a: seq<Ref>, b: seq<Ref>)
    requires Sorted(a) && Sorted(b) && multiset(a) == multiset(b)
    ensures a == b
  {
    SortedUnique(a, b, (r: Ref) => r.off);
  }

  // The references of a text are sorted when no name is empty.
  lemma {:induction false} SpreadSorted(refs: seq<Ref>, lo: nat, hi: nat)
    requires Spread(refs, lo, hi) && forall r :: r in refs ==> r.name != []
    ensures Sorted(refs) && forall r :: r in refs ==> lo <= r.off
  {
    if refs != [] {
      SpreadSorted(refs[1..], End(refs[0]), hi);
      assert refs[0] in refs;
      forall i, j | 0 <= i < j < |refs|
        ensures refs[i].off < refs[j].off
      {
        assert refs[j] == refs[1..][j - 1] && refs[j] in refs[1..];
        if i > 0 {
          assert refs[i] == refs[1..][i - 1];
        }
      }
      forall r | r in refs
        ensures lo <= r.off
      {
        assert r == refs[0] || r in refs[1..];
      }
    }
  }

  lemma {:induction false} SortedOnce(refs: seq<Ref>, x: Ref)
    requires Sorted(refs)
    ensures multiset(refs)[x] <= 1
  {
    if refs != [] {
      SortedOnce(refs[1..], x);
      assert refs == [refs[0]] + refs[1..];
      assert forall j :: 0 <= j < |refs[1..]| ==> refs[1..][j] == refs[j + 1] && refs[1..][j] != refs[0];
      assert refs[0] !in refs[1..];
    }
  }

  // Different entries of the map stand at different places of the text.
  lemma OffsetsDiffer(order: seq<Ref>, refs: seq<Ref>)
    requires Sorted(refs) && multiset(order) == multiset(refs)
    ensures forall i, j :: 0 <= i < j < |order| ==> order[i].off != order[j].off
  {
    forall i, j | 0 <= i < j < |order|
      ensures order[i].off != order[j].off
    {
      var x, y := order[i], order[j];
      assert x in multiset(refs) && y in multiset(refs);
      assert x in refs && y in refs;
      if x == y {
        assert order == order[..i + 1] + order[i + 1..];
        assert x in order[..i + 1] && order[i + 1..][j - i - 1] == x;
        assert multiset(order)[x] >= 2;
        SortedOnce(refs, x);
      }
    }
  }

  // ----- The edit of the string -----

  // One replacement: the text up to `at` is done, and the rest is as it was.
  lemma ReplaceStep(str: string, done: string, at: nat, refs: seq<Ref>, news: seq<string>)
    requires refs != [] && Spread(refs, at, |str|)
    ensures
      var ref := refs[0];
      var newStr := NewText(ref.parm, ref.name, news);
      var r, off := done + str[at..], |done| + (ref.off - at);
      var done' := (done + str[at..ref.off]) + newStr;
      && End(ref) <= |str| && off + |ref.name| <= |r|
      && r[..off] + newStr + r[off + |ref.name|..] == done' + str[End(ref)..]
      && done + Splice(str, refs, at, |str|, news) == done' + Splice(str, refs[1..], End(ref), |str|, news)
  {
    var ref := refs[0];
    var newStr := NewText(ref.parm, ref.name, news);
    var rest := Splice(str, refs[1..], End(ref), |str|, news);
    CutAt(str, done, at, ref);
    Associate(done, str[at..ref.off], newStr + rest);
    Associate(done + str[at..ref.off], newStr, rest);
  }

  lemma CutAt(str: string, done: string, at: nat, ref: Ref)
    requires at <= ref.off && End(ref) <= |str|
    ensures
      var r, off := done + str[at..], |done| + (ref.off - at);
      && off + |ref.name| <= |r|
      && r[..off] == done + str[at..ref.off]
      && r[off + |ref.name|..] == str[End(ref)..]
  {
  }

  // replaceParmRefs, whatever order the map is walked in.
  method ReplaceParmRefs(retStr: string, order: seq<Ref>, news: seq<string>, ghost refs: seq<Ref>) returns (r: string)
    requires Spread(refs, 0, |retStr|) && (forall x :: x in refs ==> x.name != [])
    requires multiset(order) == multiset(refs)
    ensures r == Splice(retStr, refs, 0, |retStr|, news)
  {
    SpreadSorted(refs, 0, |retStr|);
    OffsetsDiffer(order, refs);
    var sorted := SortParmRefsByOffs(order);
    SortedOneWay(sorted, refs);
    r := ReplaceSorted(retStr, sorted, news);
  }

  // The loop of replaceParmRefs, with Delta the growth so far; std::string::replace at Off takes
  // |name| characters.
  method ReplaceSorted(retStr: string, sorted: seq<Ref>, news: seq<string>) returns (r: string)
    requires Spread(sorted, 0, |retStr|)
    ensures r == Splice(retStr, sorted, 0, |retStr|, news)
  {
    r := retStr;
    var delta := 0;
    ghost var total := Splice(retStr, sorted, 0, |retStr|, news);
    ghost var done := "";
    ghost var at: nat := 0;
    assert sorted[0..] == sorted;
    ProgressStart(retStr, news, sorted);
    for k := 0 to |sorted|
      invariant Progress(retStr, news, total, sorted[k..], done, at, delta, r)
    {
      var ref := sorted[k];
      assert sorted[k..][0] == ref && sorted[k..][1..] == sorted[k + 1..];
      ProgressStep(retStr, news, total, sorted[k..], done, at, delta, r);
      var off := ref.off + delta;
      var newStr := NewText(ref.parm, ref.name, news);
      r := r[..off] + newStr + r[off + |ref.name|..];
      delta := delta + (|newStr| - |ref.name|);
      done, at := (done + retStr[at..ref.off]) + newStr, End(ref);
    }
    assert sorted[|sorted|..] == [];
    ProgressDone(retStr, news, total, done, at, delta, r);
  }

  lemma ProgressStart(str: string, news: seq<string>, refs: seq<Ref>)
    requires Spread(refs, 0, |str|)
    ensures Progress(str, news, Splice(str, refs, 0, |str|, news), refs, "", 0, 0, str)
  {
    assert "" + str[0..] == str;
  }

  lemma ProgressDone(str: string, news: seq<string>, total: string, done: string, at: nat, delta: int, r: string)
    requires Progress(str, news, total, [], done, at, delta, r)
    ensures r == total
  {
    assert str[at..|str|] == str[at..];
  }

  // The text up to `at` is done, the references in rest are to come.
  predicate Progress(str: string, news: seq<string>, total: string, rest: seq<Ref>, done: string, at: nat, delta: int, r: string) {
    && at <= |str| && Spread(rest, at, |str|)
    && delta == |done| - at && r == done + str[at..]
    && total == done + Splice(str, rest, at, |str|, news)
  }

  lemma ProgressStep(str: string, news: seq<string>, total: string, rest: seq<Ref>, done: string, at: nat, delta: int, r: string)
    requires rest != [] && Progress(str, news, total, rest, done, at, delta, r)
    ensures
      var ref := rest[0];
      var off, newStr := ref.off + delta, NewText(ref.parm, ref.name, news);
      && 0 <= off && off + |ref.name| <= |r| && at <= ref.off && End(ref) <= |str|
      && Progress(str, news, total, rest[1..], (done + str[at..ref.off]) + newStr, End(ref),
                  delta + (|newStr| - |ref.name|), r[..off] + newStr + r[off + |ref.name|..])
  {
    ReplaceStep(str, done, at, rest, news);
  }

  // getNewParmRefStr: the text for one parameter of the call.
  lemma {:induction false} NewParmRefText(lang: Language, p: Parm, arg: Expr)
    ensures Print(NewParmRef(lang, p, arg)) ==
            (if lang.canon(p.tyName) == TypeOf(lang, [], arg) then "" else "(" + p.tyName + ")")
            + "(" + GetExprString(Stripped(arg)) + ")"
  {
    StrippedSame(lang, arg, map[]);
    var a := Stripped(arg);
    var inner := Paren(if IsComma(a) then Paren(a) else a);
    assert Print(Paren(a)) == "(" + Print(a) + ")" && Print(inner) == "(" + GetExprString(a) + ")";
    assert Print(Cast(p.tyName, inner)) == "(" + p.tyName + ")" + Print(inner);
    Associate("(" + p.tyName + ")", "(" + GetExprString(a), ")");
    Associate("(" + p.tyName + ")", "(", GetExprString(a));
    assert "" + "(" + GetExprString(a) + ")" == "(" + GetExprString(a) + ")";
  }

  method GetNewParmRefStr(lang: Language, ps: seq<Parm>, args: seq<Expr>, i: nat) returns (parmRefStr: string)
    requires i < |ps| && i < |args|
    ensures parmRefStr == Print(NewParmRef(lang, ps[i], args[i]))
    // Parentheses around the argument's text, and a cast in front exactly when the canonical types differ.
    ensures parmRefStr ==
            (if lang.canon(ps[i].tyName) == TypeOf(lang, [], args[i]) then "" else "(" + ps[i].tyName + ")")
            + "(" + GetExprString(Stripped(args[i])) + ")"
  {
    NewParmRefText(lang, ps[i], args[i]);
    var arg := Stripped(args[i]);
    parmRefStr := GetExprString(arg);
    ghost var inner := if IsComma(arg) then Paren(arg) else arg;
    assert parmRefStr == Print(inner);
    parmRefStr := "(" + parmRefStr + ")";
    assert parmRefStr == Print(Paren(inner));
    if lang.canon(ps[i].tyName) != TypeOf(lang, [], arg) {
      parmRefStr := "(" + ps[i].tyName + ")" + parmRefStr;
    }
  }

  lemma RefsWithin(e: Expr)
    ensures Spread(Refs(e), 0, |Print(e)|) && Spread(Refs(e), 0, |GetExprString(e)|)
  {
    PiecesPrint(e);
    RefsSpread(Pieces(e), 0);
    SpreadTo(Refs(e), 0, |Print(e)|, |GetExprString(e)|);
  }

  lemma {:induction false} SpreadTo(refs: seq<Ref>, lo: nat, hi: nat, hi': nat)
    requires Spread(refs, lo, hi) && hi <= hi'
    ensures Spread(refs, lo, hi')
  {
    if refs != [] {
      SpreadTo(refs[1..], End(refs[0]), hi, hi');
    }
  }

  // Parameter names are identifiers, and a member access is written with its dot or arrow.
  predicate NamesFit(e: Expr) {
    match e
    case Constant(_, _, _) => true
    case Variable(_, _) => true
    case ParmRef(_, name) => name != [] && name[|name| - 1] != ')'
    case Paren(sub) => NamesFit(sub)
    case ImplicitCast(sub) => NamesFit(sub)
    case Cast(_, sub) => NamesFit(sub)
    case Unary(_, sub) => NamesFit(sub)
    case Binary(l, _, r) => NamesFit(l) && NamesFit(r)
    case Conditional(c, t, f) => NamesFit(c) && NamesFit(t) && NamesFit(f)
    case Subscript(b, i) => NamesFit(b) && NamesFit(i)
    case Member(b, access) => NamesFit(b) && access != []
  }

  ghost predicate HolesFit(ps: seq<Piece>) {
    forall p :: p in ps && p.Hole? ==> p.name != [] && p.name[|p.name| - 1] != ')'
  }

  lemma {:induction false} RefNames(e: Expr)
    requires NamesFit(e)
    ensures HolesFit(Pieces(e))
    ensures forall r :: r in Refs(e) ==> r.name != [] && r.name[|r.name| - 1] != ')'
  {
    PiecesNames(e);
    PieceRefNames(Pieces(e), 0);
  }

  lemma {:induction false} PiecesNames(e: Expr)
    requires NamesFit(e)
    ensures HolesFit(Pieces(e))
  {
    match e
    case Constant(_, _, _) =>
    case Variable(_, _) =>
    case ParmRef(_, _) =>
    case Paren(sub) => PiecesNames(sub);
    case ImplicitCast(sub) => PiecesNames(sub);
    case Cast(_, sub) => PiecesNames(sub);
    case Unary(_, sub) => PiecesNames(sub);
    case Binary(l, _, r) => PiecesNames(l); PiecesNames(r);
    case Conditional(c, t, f) => PiecesNames(c); PiecesNames(t); PiecesNames(f);
    case Subscript(b, i) => PiecesNames(b); PiecesNames(i);
    case Member(b, _) => PiecesNames(b);
  }

  lemma {:induction false} PieceRefNames(ps: seq<Piece>, base: nat)
    requires HolesFit(ps)
    ensures forall r :: r in RefsOf(ps, base) ==> r.name != [] && r.name[|r.name| - 1] != ')'
  {
    if ps != [] {
      assert ps[0] in ps && forall p :: p in ps[1..] ==> p in ps;
      match ps[0] {
        case Text(s) => PieceRefNames(ps[1..], base + |s|);
        case Hole(_, name) => PieceRefNames(ps[1..], base + |name|);
      }
    }
  }

  // The text the pass produces for a call whose parameters become news.
  function Inlined(e: Expr, news: seq<Expr>): string {
    RefsWithin(e);
    "(" + Splice(GetExprString(e), Refs(e), 0, |GetExprString(e)|, Texts(news)) + ")"
  }

  // What getNewParmRefStr builds always ends in a closing parenthesis.
  predicate Wrapped(e: Expr) {
    e.Paren? || (e.Cast? && e.sub.Paren?)
  }

  lemma InlinedIsTreeUnlessComma(e: Expr, news: seq<Expr>)
    requires !(IsComma(e) && Refs(e) != []) && forall n :: n in news ==> Wrapped(n)
    ensures Inlined(e, news) == "(" + GetExprString(Subst(e, news)) + ")"
  {
    RefsWithin(e);
    SplicePrintsSubst(e, news);
    if IsComma(e) {
      assert Splice(Print(e), [], 0, |Print(e)|, Texts(news)) == Print(e);
      assert Splice(GetExprString(e), [], 0, |GetExprString(e)|, Texts(news)) == GetExprString(e);
    } else if e.ParmRef? && e.parm < |news| {
      assert Wrapped(news[e.parm]);
    }
  }

  // No two parameters stand side by side.
  predicate Apart(ps: seq<Piece>) {
    ps == [] || (Apart(ps[1..]) && (ps[0].Hole? && |ps| > 1 ==> ps[1].Text? && ps[1].s != []))
  }

  lemma {:induction false} ApartJoin(a: seq<Piece>, s: string, b: seq<Piece>)
    requires Apart(a) && Apart(b) && (s != [] || a == [])
    ensures Apart(Join(a, s, b))
  {
    if a == [] {
      assert Join(a, s, b) == [Text(s)] + b && ([Text(s)] + b)[1..] == b;
    } else {
      assert Join(a, s, b)[0] == a[0] && Join(a, s, b)[1..] == Join(a[1..], s, b);
      ApartJoin(a[1..], s, b);
    }
  }

  lemma {:induction false} PiecesApart(e: Expr)
    requires NamesFit(e)
    ensures Apart(Pieces(e))
  {
    match e
    case Constant(_, _, _) =>
    case Variable(_, _) =>
    case ParmRef(_, _) =>
    case Paren(sub) =>
      PiecesApart(sub);
      ApartJoin([], "(", Pieces(sub));
      ApartJoin(Join([], "(", Pieces(sub)), ")", []);
    case ImplicitCast(sub) => PiecesApart(sub);
    case Cast(tyName, sub) =>
      PiecesApart(sub);
      ApartJoin([], "(" + tyName + ")", Pieces(sub));
    case Unary(op, sub) =>
      PiecesApart(sub);
      ApartJoin([], op, Pieces(sub));
    case Binary(l, op, r) =>
      PiecesApart(l);
      PiecesApart(r);
      ApartJoin(Pieces(l), " " + op + " ", Pieces(r));
    case Conditional(c, t, f) =>
      PiecesApart(c);
      PiecesApart(t);
      PiecesApart(f);
      ApartJoin(Pieces(c), " ? ", Pieces(t));
      ApartJoin(Join(Pieces(c), " ? ", Pieces(t)), " : ", Pieces(f));
    case Subscript(b, i) =>
      PiecesApart(b);
      PiecesApart(i);
      ApartJoin(Pieces(b), "[", Pieces(i));
      ApartJoin(Join(Pieces(b), "[", Pieces(i)), "]", []);
    case Member(b, access) =>
      PiecesApart(b);
      ApartJoin(Pieces(b), access, []);
  }

  // The first reference: its name stands in the text, and the next one is not adjacent.
  predicate FirstStands(refs: seq<Ref>, str: string, base: nat) {
    && refs != []
    && base <= refs[0].off && End(refs[0]) <= base + |str|
    && str[refs[0].off - base..End(refs[0]) - base] == refs[0].name
    && (|refs| > 1 ==> End(refs[0]) < refs[1].off)
  }

  lemma {:induction false} FirstRef(ps: seq<Piece>, base: nat)
    requires Apart(ps) && RefsOf(ps, base) != []
    ensures FirstStands(RefsOf(ps, base), Flat(ps), base)
  {
    match ps[0] {
      case Text(s) =>
        FirstRef(ps[1..], base + |s|);
        FirstStandsAfter(RefsOf(ps[1..], base + |s|), s, Flat(ps[1..]), base);
      case Hole(_, name) =>
        assert RefsOf(ps, base)[1..] == RefsOf(ps[1..], base + |name|);
        if |ps| > 1 {
          RefsSpread(ps[1..][1..], base + |name| + |ps[1].s|);
        }
    }
  }

  lemma FirstStandsAfter(refs: seq<Ref>, s: string, str: string, base: nat)
    requires FirstStands(refs, str, base + |s|)
    ensures FirstStands(refs, s + str, base)
  {
    var lo, hi := refs[0].off - base, End(refs[0]) - base;
    assert (s + str)[lo..hi] == str[lo - |s|..hi - |s|];
  }

  // On a comma expression the offsets miss the opening parenthesis that was put in front.
  lemma CommaShifts(e: Expr, news: seq<Expr>)
    requires IsComma(e) && Refs(e) != [] && NamesFit(e) && Matched(e, |news|) && forall n :: n in news ==> Wrapped(n)
    ensures Inlined(e, news) != "(" + GetExprString(Subst(e, news)) + ")"
  {
    var refs := Refs(e);
    RefsMatched(e, |news|);
    FirstRefOf(e);
    WrappedEnds(news[refs[0].parm]);
    CommaStrings(e, news);
    ShiftedDiffers(Print(e), refs, Texts(news));
    InlinedComma(e, news);
    if Inlined(e, news) == "(" + GetExprString(Subst(e, news)) + ")" {
      InBrackets(Splice("(" + Print(e) + ")", refs, 0, |"(" + Print(e) + ")"|, Texts(news)),
                 "(" + Splice(Print(e), refs, 0, |Print(e)|, Texts(news)) + ")");
    }
  }

  lemma FirstRefOf(e: Expr)
    requires NamesFit(e) && Refs(e) != []
    ensures
      var first := Refs(e)[0];
      && first in Refs(e) && first.name != [] && first.name[|first.name| - 1] != ')'
      && End(first) <= |Print(e)| && Print(e)[first.off..End(first)] == first.name
      && (|Refs(e)| > 1 ==> End(first) < Refs(e)[1].off)
  {
    RefNames(e);
    PiecesPrint(e);
    PiecesApart(e);
    FirstRef(Pieces(e), 0);
  }

  lemma CommaStrings(e: Expr, news: seq<Expr>)
    requires IsComma(e)
    ensures GetExprString(e) == "(" + Print(e) + ")"
    ensures GetExprString(Subst(e, news)) == "(" + Print(Subst(e, news)) + ")"
    ensures Spread(Refs(e), 0, |Print(e)|) && Spread(Refs(e), 0, |"(" + Print(e) + ")"|)
  {
    RefsWithin(e);
  }

  lemma InlinedComma(e: Expr, news: seq<Expr>)
    requires IsComma(e) && Spread(Refs(e), 0, |Print(e)|) && Spread(Refs(e), 0, |"(" + Print(e) + ")"|)
    ensures Inlined(e, news) == "(" + Splice("(" + Print(e) + ")", Refs(e), 0, |"(" + Print(e) + ")"|, Texts(news)) + ")"
    ensures "(" + GetExprString(Subst(e, news)) + ")" ==
            "(" + ("(" + Splice(Print(e), Refs(e), 0, |Print(e)|, Texts(news)) + ")") + ")"
  {
    CommaStrings(e, news);
    SplicePrintsSubst(e, news);
  }

  lemma InBrackets(a: string, b: string)
    requires "(" + a + ")" == "(" + b + ")"
    ensures a == b
  {
    assert ("(" + a + ")")[1..|a| + 1] == a && ("(" + b + ")")[1..|b| + 1] == b;
  }

  lemma ShiftedDiffers(p: string, refs: seq<Ref>, texts: seq<string>)
    requires Spread(refs, 0, |p|) && refs != [] && Spread(refs, 0, |"(" + p + ")"|)
    requires End(refs[0]) <= |p| && p[refs[0].off..End(refs[0])] == refs[0].name
    requires refs[0].name != [] && refs[0].name[|refs[0].name| - 1] != ')'
    requires |refs| > 1 ==> End(refs[0]) < refs[1].off
    requires refs[0].parm < |texts| && texts[refs[0].parm] != []
    requires texts[refs[0].parm][|texts[refs[0].parm]| - 1] == ')'
    ensures Splice("(" + p + ")", refs, 0, |"(" + p + ")"|, texts) != "(" + Splice(p, refs, 0, |p|, texts) + ")"
  {
    var g, first := "(" + p + ")", refs[0];
    var n := texts[first.parm];
    var rest := Splice(g, refs[1..], End(first), |g|, texts);
    SpliceStarts(g, refs[1..], End(first), |g|, texts);
    LastOf(p, first.off, first.name);
    assert g[End(first)] == p[End(first) - 1];
    CharsDiffer(g[0..first.off], p[0..first.off], n, rest, Splice(p, refs[1..], End(first), |p|, texts));
  }

  lemma SpliceStarts(str: string, refs: seq<Ref>, lo: nat, hi: nat, news: seq<string>)
    requires Spread(refs, lo, hi) && hi <= |str| && lo < hi && (refs != [] ==> lo < refs[0].off)
    ensures Splice(str, refs, lo, hi, news) != [] && Splice(str, refs, lo, hi, news)[0] == str[lo]
  {
  }

  lemma LastOf(str: string, off: nat, name: string)
    requires name != [] && off + |name| <= |str| && str[off..off + |name|] == name
    ensures str[off + |name| - 1] == name[|name| - 1]
  {
    assert str[off..off + |name|][|name| - 1] == str[off + |name| - 1];
  }

  lemma CharsDiffer(a: string, b: string, n: string, rest: string, rest': string)
    requires |a| == |b| && n != [] && n[|n| - 1] == ')' && rest != [] && rest[0] != ')'
    ensures a + (n + rest) != "(" + (b + (n + rest')) + ")"
  {
    var at := |a| + |n|;
    assert (a + (n + rest))[at] == rest[0];
    assert ("(" + (b + (n + rest')) + ")")[at] == n[|n| - 1];
  }

  lemma WrappedEnds(e: Expr)
    requires Wrapped(e)
    ensures Print(e) != [] && Print(e)[|Print(e)| - 1] == ')'
  {
  }

  lemma {:induction false} RefsMatched(e: Expr, n: nat)
    requires Matched(e, n)
    ensures forall r :: r in Refs(e) ==> r.parm < n
  {
    PiecesMatched(e, n);
    PieceRefsMatched(Pieces(e), 0, n);
  }

  lemma {:induction false} PiecesMatched(e: Expr, n: nat)
    requires Matched(e, n)
    ensures forall p :: p in Pieces(e) && p.Hole? ==> p.parm < n
  {
    match e
    case Constant(_, _, _) =>
    case Variable(_, _) =>
    case ParmRef(_, _) =>
    case Paren(sub) => PiecesMatched(sub, n);
    case ImplicitCast(sub) => PiecesMatched(sub, n);
    case Cast(_, sub) => PiecesMatched(sub, n);
    case Unary(_, sub) => PiecesMatched(sub, n);
    case Binary(l, _, r) => PiecesMatched(l, n); PiecesMatched(r, n);
    case Conditional(c, t, f) => PiecesMatched(c, n); PiecesMatched(t, n); PiecesMatched(f, n);
    case Subscript(b, i) => PiecesMatched(b, n); PiecesMatched(i, n);
    case Member(b, _) => PiecesMatched(b, n);
  }

  lemma {:induction false} PieceRefsMatched(ps: seq<Piece>, base: nat, n: nat)
    requires forall p :: p in ps && p.Hole? ==> p.parm < n
    ensures forall r :: r in RefsOf(ps, base) ==> r.parm < n
  {
    if ps != [] {
      assert ps[0] in ps && forall p :: p in ps[1..] ==> p in ps;
      match ps[0] {
        case Text(s) => PieceRefsMatched(ps[1..], base + |s|, n);
        case Hole(_, name) => PieceRefsMatched(ps[1..], base + |name|, n);
      }
    }
  }

  // Editing the text agrees with substituting in the tree exactly when no comma expression with
  // parameters stands on top.
  lemma TextIsTreeIff(e: Expr, news: seq<Expr>)
    requires NamesFit(e) && Matched(e, |news|) && forall n :: n in news ==> Wrapped(n)
    ensures Inlined(e, news) == "(" + GetExprString(Subst(e, news)) + ")" <==> !(IsComma(e) && Refs(e) != [])
  {
    if IsComma(e) && Refs(e) != [] {
      CommaShifts(e, news);
    } else {
      InlinedIsTreeUnlessComma(e, news);
    }
  }

  method GetNewParmRefStrs(lang: Language, ps: seq<Parm>, args: seq<Expr>) returns (strs: seq<string>)
    ensures strs == Texts(NewParmRefs(lang, ps, args))
  {
    var n := if |ps| <= |args| then |ps| else |args|;
    strs := [];
    for i := 0 to n
      invariant |strs| == i && forall k :: 0 <= k < i ==> strs[k] == Print(NewParmRef(lang, ps[k], args[k]))
    {
      var str := GetNewParmRefStr(lang, ps, args, i);
      strs := strs + [str];
    }
  }

  // replaceCallExpr: the text that takes the place of the call. `order` is the order in which the
  // map from references to strings is walked. Parameters beyond the arguments are not used.
  method ReplaceCall(lang: Language, ps: seq<Parm>, args: seq<Expr>, retE: Expr, order: seq<Ref>) returns (text: string)
    requires NamesFit(retE) && multiset(order) == multiset(Refs(retE))
    requires Matched(retE, if |ps| <= |args| then |ps| else |args|)
    ensures text == Inlined(retE, NewParmRefs(lang, ps, args))
    // The text put for a parameter has a cast in front exactly when the canonical types differ.
    ensures forall i :: 0 <= i < |ps| && i < |args| ==>
      Texts(NewParmRefs(lang, ps, args))[i] ==
      (if lang.canon(ps[i].tyName) == TypeOf(lang, [], args[i]) then "" else "(" + ps[i].tyName + ")")
      + "(" + GetExprString(Stripped(args[i])) + ")"
    // The text is the tree's exactly when no comma expression with parameters stands on top.
    ensures text == "(" + GetExprString(Subst(retE, NewParmRefs(lang, ps, args))) + ")" <==>
            !(IsComma(retE) && Refs(retE) != [])
  {
    ghost var news := NewParmRefs(lang, ps, args);
    var strs := GetNewParmRefStrs(lang, ps, args);
    var retString := GetExprString(retE);
    RefsWithin(retE);
    RefNames(retE);
    retString := ReplaceParmRefs(retString, order, strs, Refs(retE));
    text := "(" + retString + ")";
    TextIsTreeIff(retE, news);
    forall i | 0 <= i < |ps| && i < |args|
      ensures Texts(news)[i] ==
              (if lang.canon(ps[i].tyName) == TypeOf(lang, [], args[i]) then "" else "(" + ps[i].tyName + ")")
              + "(" + GetExprString(Stripped(args[i])) + ")"
    {
      NewParmRefText(lang, ps[i], args[i]);
    }
  }

  // f(a, b) with int f(int x, int y) { return x, y; }: every edit is one character too far to the left.
  lemma {:induction false} CommaExample(ty: Ty)
    ensures Inlined(Binary(ParmRef(0, "x"), ",", ParmRef(1, "y")), [Paren(Variable("a", ty)), Paren(Variable("b", ty))]) ==
            "((a)x ,(b)y))"
  {
    var e := Binary(ParmRef(0, "x"), ",", ParmRef(1, "y"));
    var news := [Paren(Variable("a", ty)), Paren(Variable("b", ty))];
    CommaStrings(e, news);
    InlinedComma(e, news);
    CommaRefs();
    CommaTexts(ty);
    CommaSplice(Texts(news));
    CommaBrackets();
  }

  lemma {:induction false} CommaBrackets()
    ensures "(" + "x , y" + ")" == "(x , y)" && |"(x , y)"| == 7
    ensures "(" + "(a)x ,(b)y)" + ")" == "((a)x ,(b)y))"
  {
  }

  lemma {:induction false} CommaTexts(ty: Ty)
    ensures Texts([Paren(Variable("a", ty)), Paren(Variable("b", ty))]) == ["(a)", "(b)"]
  {
    var news := [Paren(Variable("a", ty)), Paren(Variable("b", ty))];
    assert Print(Variable("a", ty)) == "a" && Print(Variable("b", ty)) == "b";
    assert Print(news[0]) == "(a)" && Print(news[1]) == "(b)";
  }

  lemma {:induction false} RefsStep(p: Piece, rest: seq<Piece>, base: nat)
    ensures RefsOf([p] + rest, base) ==
            match p
            case Text(s) => RefsOf(rest, base + |s|)
            case Hole(i, name) => [Ref(base, i, name)] + RefsOf(rest, base + |name|)
  {
    assert ([p] + rest)[1..] == rest;
  }

  lemma {:induction false} SpliceStep(str: string, r: Ref, rest: seq<Ref>, lo: nat, hi: nat, news: seq<string>)
    requires lo <= r.off && Spread(rest, End(r), hi) && hi <= |str|
    ensures Spread([r] + rest, lo, hi)
    ensures Splice(str, [r] + rest, lo, hi, news) ==
            str[lo..r.off] + (NewText(r.parm, r.name, news) + Splice(str, rest, End(r), hi, news))
  {
    assert ([r] + rest)[1..] == rest;
  }

  lemma {:induction false} CommaRefs()
    ensures
      var e := Binary(ParmRef(0, "x"), ",", ParmRef(1, "y"));
      Print(e) == "x , y" && Refs(e) == [Ref(0, 0, "x"), Ref(4, 1, "y")]
  {
    var x, y := ParmRef(0, "x"), ParmRef(1, "y");
    var between := " " + "," + " ";
    assert between == " , " && Print(x) == "x" && Print(y) == "y";
    var first, mid, last := Hole(0, "x"), Text(" , "), Hole(1, "y");
    assert Pieces(x) == [first] && Pieces(y) == [last];
    assert Pieces(Binary(x, ",", y)) == Join([first], between, [last]) == [first] + ([mid] + [last]);
    RefsStep(first, [mid] + [last], 0);
    RefsStep(mid, [last], 1);
    RefsStep(last, [], 4);
    assert [last] + [] == [last];
  }

  lemma {:induction false} CommaSplice(texts: seq<string>)
    requires texts == ["(a)", "(b)"]
    ensures
      var refs := [Ref(0, 0, "x"), Ref(4, 1, "y")];
      Spread(refs, 0, 7) && Splice("(x , y)", refs, 0, 7, texts) == "(a)x ,(b)y)"
  {
    var str, first, last := "(x , y)", Ref(0, 0, "x"), Ref(4, 1, "y");
    assert End(last) == 5 && End(first) == 1;
    SpliceStep(str, last, [], 1, 7, texts);
    assert [last] + [] == [last] && [first] + [last] == [first, last];
    SpliceStep(str, first, [last], 0, 7, texts);
    SlicedText(str);
  }

  lemma {:induction false} SlicedText(str: string)
    requires str == "(x , y)"
    ensures str[0..0] == "" && str[1..4] == "x ," && str[5..7] == "y)"
    ensures "" + ("(a)" + ("x ," + ("(b)" + "y)"))) == "(a)x ,(b)y)"
  {
  }
}
