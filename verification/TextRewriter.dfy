/**
 Replacing ranges of a text whose positions are those of the original text, as Clang's
 rewriter does for clang_delta/RewriteUtils.cpp:1576-1591: every edit leaves a difference that
 shifts the positions behind it.
 */
module TextRewriter {
  import opened Collections

  // The characters from l up to r are replaced.
  datatype Range = Range(l: nat, r: nat, text: string)

  // b starts behind the start of a, and lies inside the braces of a or behind it.
  predicate Follows(a: Range, b: Range) {
    a.l < b.l && (b.r < a.r || a.r <= b.l)
  }

  predicate AllFollow(a: Range, rs: seq<Range>) {
    rs == [] || (Follows(a, rs[0]) && AllFollow(a, rs[1..]))
  }

  // Function definitions as a traversal meets them: by increasing starts, nested or disjoint.
  predicate WellNested(rs: seq<Range>, n: nat) {
    rs == [] || (rs[0].l < rs[0].r <= n && AllFollow(rs[0], rs[1..]) && WellNested(rs[1..], n))
  }

  // The position is inside no range.
  predicate Clean(rs: seq<Range>, q: nat) {
    rs == [] || ((q <= rs[0].l || rs[0].r <= q) && Clean(rs[1..], q))
  }

  // s[pos..q] with the outermost ranges replaced; a range that starts before pos lies in one that is
  // already done.
  function Render(s: string, rs: seq<Range>, pos: nat, q: nat): string
    requires pos <= q <= |s| && WellNested(rs, |s|) && Clean(rs, q)
  {
    if rs == [] || q <= rs[0].l then s[pos..q]
    else if rs[0].l < pos then Render(s, rs[1..], pos, q)
    else s[pos..rs[0].l] + (rs[0].text + Render(s, rs[1..], rs[0].r, q))
  }

  lemma AssociateThree(a: string, b: string, c: string, d: string)
    ensures a + (b + (c + d)) == (a + (b + c)) + d
  {
  }

  // Nothing is replaced in front of the first range.
  lemma {:induction false} NothingBefore(s: string, a: Range, rs: seq<Range>, q: nat)
    requires AllFollow(a, rs) && WellNested(rs, |s|) && q <= a.l <= |s|
    ensures Clean(rs, q) && forall pos: nat :: pos <= q ==> Render(s, rs, pos, q) == s[pos..q]
  {
    if rs != [] {
      NothingBefore(s, a, rs[1..], q);
    }
  }

  // Rendering splits at any position that is inside no range.
  lemma {:induction false} RenderSplit(s: string, rs: seq<Range>, pos: nat, mid: nat, q: nat)
    requires pos <= mid <= q <= |s| && WellNested(rs, |s|) && Clean(rs, q) && Clean(rs, mid)
    ensures Render(s, rs, pos, q) == Render(s, rs, pos, mid) + Render(s, rs, mid, q)
    decreases |rs|
  {
    if rs == [] || q <= rs[0].l {
      Cut(s, pos, mid, q);
    } else if rs[0].l < pos {
      RenderSplit(s, rs[1..], pos, mid, q);
      NothingBeforeMid(s, rs, pos, mid);
    } else if rs[0].l < mid {
      RenderSplit(s, rs[1..], rs[0].r, mid, q);
      AssociateThree(s[pos..rs[0].l], rs[0].text, Render(s, rs[1..], rs[0].r, mid), Render(s, rs[1..], mid, q));
    } else {
      Cut(s, pos, mid, rs[0].l);
      Associate(s[pos..mid], s[mid..rs[0].l], rs[0].text + Render(s, rs[1..], rs[0].r, q));
    }
  }

  lemma NothingBeforeMid(s: string, rs: seq<Range>, pos: nat, mid: nat)
    requires pos <= mid <= |s| && WellNested(rs, |s|) && Clean(rs, mid) && rs != [] && rs[0].l < pos
    ensures Render(s, rs, pos, mid) == Render(s, rs[1..], pos, mid)
    ensures Render(s, rs, mid, mid) == Render(s, rs[1..], mid, mid)
  {
  }

  // One range, a second one behind it, and a second one inside it.
  lemma RenderOne(s: string, a: Range, pos: nat)
    requires pos <= a.l < a.r <= |s|
    ensures WellNested([a], |s|) && Clean([a], |s|) && Render(s, [a], pos, |s|) == s[pos..a.l] + (a.text + s[a.r..])
  {
    assert [a][1..] == [];
    assert s[a.r..|s|] == s[a.r..];
  }

  lemma TwoNested(s: string, a: Range, b: Range)
    requires a.l < a.r <= |s| && b.l < b.r <= |s| && Follows(a, b)
    ensures WellNested([a, b], |s|) && Clean([a, b], |s|) && [a, b][1..] == [b] && [b][1..] == []
  {
    assert [a, b][1..] == [b] && [b][1..] == [];
    assert AllFollow(a, [b]) && WellNested([b], |s|);
  }

  lemma RenderApart(s: string, a: Range, b: Range)
    requires a.l < a.r <= b.l < b.r <= |s|
    ensures WellNested([a, b], |s|) && Clean([a, b], |s|)
    ensures Render(s, [a, b], 0, |s|) == s[..a.l] + (a.text + (s[a.r..b.l] + (b.text + s[b.r..])))
  {
    TwoNested(s, a, b);
    RenderOne(s, b, a.r);
    assert s[0..a.l] == s[..a.l];
  }

  // A range that starts earlier changes nothing.
  lemma RenderBehind(s: string, b: Range, pos: nat)
    requires b.l < b.r && b.l < pos && b.r <= pos <= |s|
    ensures WellNested([b], |s|) && Clean([b], |s|) && Render(s, [b], pos, |s|) == s[pos..]
  {
    assert [b][1..] == [];
    assert s[pos..|s|] == s[pos..];
  }

  lemma RenderInside(s: string, a: Range, b: Range)
    requires a.l < b.l < b.r < a.r <= |s|
    ensures WellNested([a, b], |s|) && Clean([a, b], |s|)
    ensures Render(s, [a, b], 0, |s|) == s[..a.l] + (a.text + s[a.r..])
  {
    TwoNested(s, a, b);
    RenderBehind(s, b, a.r);
    assert s[0..a.l] == s[..a.l];
  }

  // The later ranges leave the bounds of the first one alone.
  lemma {:induction false} FollowersClean(a: Range, rs: seq<Range>, n: nat)
    requires AllFollow(a, rs) && WellNested(rs, n) && a.l < a.r
    ensures Clean(rs, a.l) && Clean(rs, a.r) && !StartsAt(rs, a.r - 1)
    ensures forall o: nat :: o <= a.l ==> !StartsAt(rs, o)
  {
    if rs != [] {
      FollowersClean(a, rs[1..], n);
    }
  }

  predicate StartsAt(rs: seq<Range>, o: nat) {
    rs != [] && (rs[0].l == o || StartsAt(rs[1..], o))
  }

  lemma {:induction false} Selected(rs: seq<Range>, n: nat, i: nat, j: nat)
    requires WellNested(rs, n) && i <= j <= |rs|
    ensures WellNested(rs[i..j], n)
    decreases |rs|
  {
    if i > 0 {
      Selected(rs[1..], n, i - 1, j - 1);
      assert rs[1..][i - 1..j - 1] == rs[i..j];
    } else if j > 0 {
      Selected(rs[1..], n, 0, j - 1);
      AllFollowPrefix(rs[0], rs[1..], j - 1);
      assert rs[0..j] == [rs[0]] + rs[1..][0..j - 1];
    }
  }

  lemma {:induction false} AllFollowPrefix(a: Range, rs: seq<Range>, j: nat)
    requires AllFollow(a, rs) && j <= |rs|
    ensures AllFollow(a, rs[0..j])
  {
    if j > 0 {
      AllFollowPrefix(a, rs[1..], j - 1);
      assert rs[0..j] == [rs[0]] + rs[1..][0..j - 1];
    }
  }

  // ----- The buffer -----

  type Deltas = seq<(nat, int)>

  // The sum of the differences at positions before o.
  function Shift(deltas: Deltas, o: nat): int {
    if deltas == [] then 0
    else Shift(deltas[1..], o) + (if deltas[0].0 < o then deltas[0].1 else 0)
  }

  // Where a position of the original text is in the buffer.
  function Mapped(deltas: Deltas, o: nat): int {
    o + Shift(deltas, o)
  }

  // The present size of a range, whose last token is one character.
  function RangeSize(deltas: Deltas, l: nat, r: nat): int
    requires l < r
  {
    Mapped(deltas, r - 1) + 1 - Mapped(deltas, l)
  }

  // Every difference stands at the start of a range.
  predicate OnStarts(deltas: Deltas, rs: seq<Range>) {
    deltas == [] || (StartsAt(rs, deltas[0].0) && OnStarts(deltas[1..], rs))
  }

  // Every position outside the ranges is mapped to its place in the rendered text.
  ghost predicate MapsTo(deltas: Deltas, s: string, rs: seq<Range>) {
    && WellNested(rs, |s|) && OnStarts(deltas, rs)
    && (forall q: nat {:trigger Clean(rs, q)} :: q <= |s| && Clean(rs, q) ==> Mapped(deltas, q) == |Render(s, rs, 0, q)|)
  }

  lemma {:induction false} ShiftSame(deltas: Deltas, rs: seq<Range>, o: nat)
    requires OnStarts(deltas, rs) && !StartsAt(rs, o)
    ensures Shift(deltas, o + 1) == Shift(deltas, o)
  {
    if deltas != [] {
      ShiftSame(deltas[1..], rs, o);
    }
  }

  lemma {:induction false} OnStartsMore(deltas: Deltas, rs: seq<Range>)
    requires rs != [] && OnStarts(deltas, rs[1..])
    ensures OnStarts(deltas, rs)
  {
    if deltas != [] {
      OnStartsMore(deltas[1..], rs);
    }
  }

  lemma FirstSplits(s: string, rs: seq<Range>)
    requires rs != [] && WellNested(rs, |s|) && Clean(rs[1..], |s|)
    ensures Clean(rs[1..], rs[0].l) && Clean(rs[1..], rs[0].r)
    ensures Render(s, rs[1..], 0, |s|) ==
            s[..rs[0].l] + (Render(s, rs[1..], rs[0].l, rs[0].r) + Render(s, rs[1..], rs[0].r, |s|))
  {
    var l, r, rest := rs[0].l, rs[0].r, rs[1..];
    FollowersClean(rs[0], rest, |s|);
    NothingBefore(s, rs[0], rest, l);
    RenderSplit(s, rest, 0, l, |s|);
    RenderSplit(s, rest, l, r, |s|);
  }

  lemma {:induction false} EndClean(rs: seq<Range>, n: nat)
    requires WellNested(rs, n)
    ensures Clean(rs, n)
  {
    if rs != [] {
      EndClean(rs[1..], n);
    }
  }

  // The first range is where it was, and has the size of what became of it.
  lemma FirstSize(deltas: Deltas, s: string, rs: seq<Range>)
    requires rs != [] && WellNested(rs, |s|) && MapsTo(deltas, s, rs[1..])
    ensures Clean(rs[1..], rs[0].l) && Clean(rs[1..], rs[0].r)
    ensures Mapped(deltas, rs[0].l) == rs[0].l
    ensures RangeSize(deltas, rs[0].l, rs[0].r) == |Render(s, rs[1..], rs[0].l, rs[0].r)|
  {
    var l, r, rest := rs[0].l, rs[0].r, rs[1..];
    FollowersClean(rs[0], rest, |s|);
    NothingBefore(s, rs[0], rest, l);
    ShiftSame(deltas, rest, r - 1);
    RenderSplit(s, rest, 0, l, r);
  }

  lemma Exchange(buffer: string, a: string, b: string, c: string, text: string)
    requires buffer == a + (b + c)
    ensures |a| + |b| <= |buffer|
    ensures buffer[..|a|] + text + buffer[|a| + |b|..] == a + (text + c)
  {
    assert buffer[..|a|] == a && buffer[|a| + |b|..] == c;
  }

  lemma FirstMapped(s: string, rs: seq<Range>, q: nat)
    requires rs != [] && WellNested(rs, |s|) && q <= |s| && Clean(rs, q)
    ensures Clean(rs[1..], rs[0].l) && Clean(rs[1..], rs[0].r)
    ensures |Render(s, rs, 0, q)| == |Render(s, rs[1..], 0, q)| +
              if rs[0].l < q then |rs[0].text| - |Render(s, rs[1..], rs[0].l, rs[0].r)| else 0
  {
    var l, r, rest := rs[0].l, rs[0].r, rs[1..];
    FollowersClean(rs[0], rest, |s|);
    if l < q {
      NothingBefore(s, rs[0], rest, l);
      RenderSplit(s, rest, 0, r, q);
      RenderSplit(s, rest, 0, l, r);
    } else {
      NothingBefore(s, rs[0], rest, q);
    }
  }

  // The map after the first range has been replaced as well.
  lemma DeltasGrow(deltas: Deltas, change: int, s: string, rs: seq<Range>)
    requires rs != [] && WellNested(rs, |s|) && MapsTo(deltas, s, rs[1..])
    requires change == |rs[0].text| - RangeSize(deltas, rs[0].l, rs[0].r)
    ensures MapsTo([(rs[0].l, change)] + deltas, s, rs) && (change == 0 ==> MapsTo(deltas, s, rs))
  {
    var more := [(rs[0].l, change)] + deltas;
    assert more[1..] == deltas;
    OnStartsMore(deltas, rs);
    FirstSize(deltas, s, rs);
    forall q: nat | q <= |s| && Clean(rs, q)
      ensures Mapped(more, q) == |Render(s, rs, 0, q)|
      ensures change == 0 ==> Mapped(deltas, q) == |Render(s, rs, 0, q)|
    {
      FirstMapped(s, rs, q);
      assert Clean(rs[1..], q);
    }
  }

  class Rewriter {
    var buffer: string
    // the latest first
    var deltas: Deltas

    constructor (s: string)
      ensures buffer == s && deltas == []
    {
      buffer, deltas := s, [];
    }

    // The buffer after the ranges rs have been replaced.
    ghost predicate Shows(s: string, rs: seq<Range>)
      reads this
    {
      MapsTo(deltas, s, rs) && Clean(rs, |s|) && buffer == Render(s, rs, 0, |s|)
    }

    // ReplaceText on the first of the ranges, after all the others: what it takes out of the buffer
    // is what has become of the original range.
    method ReplaceText(range: Range, ghost s: string, ghost rs: seq<Range>)
      requires rs != [] && rs[0] == range && WellNested(rs, |s|) && Shows(s, rs[1..])
      modifies this
      ensures Shows(s, rs)
    {
      ReplaceFirst(buffer, deltas, s, rs);
      var off, len := Mapped(deltas, range.l), RangeSize(deltas, range.l, range.r);
      buffer := buffer[..off] + range.text + buffer[off + len..];
      if len != |range.text| {
        deltas := [(range.l, |range.text| - len)] + deltas;
      }
    }
  }

  // Replacing the first range at its place in the buffer, with its present size.
  lemma ReplaceFirst(buffer: string, deltas: Deltas, s: string, rs: seq<Range>)
    requires rs != [] && WellNested(rs, |s|) && MapsTo(deltas, s, rs[1..])
    requires Clean(rs[1..], |s|) && buffer == Render(s, rs[1..], 0, |s|)
    ensures Clean(rs, |s|)
    ensures
      var off, len, text := Mapped(deltas, rs[0].l), RangeSize(deltas, rs[0].l, rs[0].r), rs[0].text;
      && 0 <= off <= off + len <= |buffer|
      && buffer[..off] + text + buffer[off + len..] == Render(s, rs, 0, |s|)
      && MapsTo([(rs[0].l, |text| - len)] + deltas, s, rs)
      && (len == |text| ==> MapsTo(deltas, s, rs))
  {
    var l, r := rs[0].l, rs[0].r;
    FirstSplits(s, rs);
    FirstSize(deltas, s, rs);
    Exchange(buffer, s[..l], Render(s, rs[1..], l, r), Render(s, rs[1..], r, |s|), rs[0].text);
    DeltasGrow(deltas, |rs[0].text| - RangeSize(deltas, l, r), s, rs);
  }
}
