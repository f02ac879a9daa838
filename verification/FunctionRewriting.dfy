/**
 Selecting and rewriting function definitions (clang_delta/ReplaceFunctionDefWithDecl.cpp:301-351,
 and clang_delta/RemoveUnusedFunction.cpp:320-353 with an empty replacement): the selected ranges
 are edited from last to first, and the hints are put back into order. The text is compared with
 what cvise/utils/hint.py makes of the hints.
 */
module FunctionRewriting {
  import opened Collections
  import opened Wrappers
  import opened HintsBuilder
  import opened TextRewriter

  const INT_MAX: int := 0x7fff_ffff

  // ----- Applying hints (cvise/utils/hint.py) -----

  function EditOfRange(range: Range): Edit {
    Edit(range.l, range.r, range.text)
  }

  function EditsOfRanges(rs: seq<Range>): (es: seq<Edit>)
    ensures |es| == |rs| && forall i :: 0 <= i < |rs| ==> es[i] == Edit(rs[i].l, rs[i].r, rs[i].text)
  {
    seq(|rs|, i requires 0 <= i < |rs| => EditOfRange(rs[i]))
  }

  // One hint for each range.
  function HintsOfRanges(rs: seq<Range>): (ess: seq<seq<Edit>>)
    ensures |ess| == |rs| && forall i :: 0 <= i < |rs| ==> ess[i] == [Edit(rs[i].l, rs[i].r, rs[i].text)]
  {
    seq(|rs|, i requires 0 <= i < |rs| => [EditOfRange(rs[i])])
  }

  // One step of _merge_overlapping_patches: an overlapping patch only extends the one before it.
  function MergeOne(merged: seq<Edit>, cur: Edit): seq<Edit> {
    if merged == [] then [cur]
    else
      var p := merged[|merged| - 1];
      var xl := if p.l > cur.l then p.l else cur.l;
      var xr := if p.r < cur.r then p.r else cur.r;
      if xl < xr || (xl == xr && cur.l == cur.r) then
        if cur.r > p.r then merged[..|merged| - 1] + [p.(r := cur.r)] else merged
      else merged + [cur]
  }

  function MergeAll(merged: seq<Edit>, es: seq<Edit>): seq<Edit>
    decreases |es|
  {
    if es == [] then merged else MergeAll(MergeOne(merged, es[0]), es[1..])
  }

  // _apply_hint_patches_to_file on the merged patches; None for the failing assertions.
  function ApplyMerged(s: string, es: seq<Edit>, start: nat): Option<string>
    requires start <= |s|
  {
    if es == [] then Some(s[start..])
    else if !(start <= es[0].l <= es[0].r <= |s|) then None
    else
      match ApplyMerged(s, es[1..], es[0].r)
      case None => None
      case Some(rest) => Some(s[start..es[0].l] + (es[0].text + rest))
  }

  // sorted(patches, key=_patch_merge_sorting_key)
  predicate KeyLessEqual(a: Edit, b: Edit) {
    a.l < b.l || (a.l == b.l && (a.r > b.r || (a.r == b.r && (a.text == "" || b.text != ""))))
  }

  ghost predicate IsSorting(sorted: seq<Edit>, es: seq<Edit>) {
    && multiset(sorted) == multiset(es)
    && (forall i, j :: 0 <= i < j < |sorted| ==> KeyLessEqual(sorted[i], sorted[j]))
  }

  predicate Ascending(es: seq<Edit>) {
    forall i, j :: 0 <= i < j < |es| ==> es[i].l < es[j].l
  }

  // When the starts differ, the sorted arrangement is the ascending one.
  lemma SortingUnique(sorted: seq<Edit>, es: seq<Edit>)
    requires IsSorting(sorted, es) && Ascending(es)
    ensures sorted == es
  {
    SortedUnique(sorted, es, (e: Edit) => e.l);
  }

  // Merging keeps the outermost ranges.
  function Outermost(rs: seq<Range>, pos: nat): seq<Range> {
    if rs == [] then []
    else if rs[0].l < pos then Outermost(rs[1..], pos)
    else [rs[0]] + Outermost(rs[1..], rs[0].r)
  }

  lemma {:induction false} MergeKeepsOutermost(merged: seq<Edit>, last: Range, rs: seq<Range>, n: nat)
    requires WellNested(rs, n) && AllFollow(last, rs)
    requires merged != [] && merged[|merged| - 1] == EditOfRange(last)
    ensures MergeAll(merged, EditsOfRanges(rs)) == merged + EditsOfRanges(Outermost(rs, last.r))
    decreases |rs|
  {
    if rs != [] {
      var c := rs[0];
      assert EditsOfRanges(rs)[1..] == EditsOfRanges(rs[1..]);
      if c.l < last.r {
        assert MergeOne(merged, EditOfRange(c)) == merged;
        MergeKeepsOutermost(merged, last, rs[1..], n);
      } else {
        assert MergeOne(merged, EditOfRange(c)) == merged + [EditOfRange(c)];
        MergeKeepsOutermost(merged + [EditOfRange(c)], c, rs[1..], n);
        EditsCons(c, Outermost(rs[1..], c.r));
      }
    }
  }

  lemma EditsCons(c: Range, rs: seq<Range>)
    ensures EditsOfRanges([c] + rs) == [EditOfRange(c)] + EditsOfRanges(rs)
  {
  }

  // No range reaches across the position.
  lemma {:induction false} OutermostRenders(s: string, rs: seq<Range>, pos: nat)
    requires pos <= |s| && WellNested(rs, |s|) && Clean(rs, pos) && Clean(rs, |s|)
    ensures ApplyMerged(s, EditsOfRanges(Outermost(rs, pos)), pos) == Some(Render(s, rs, pos, |s|))
    decreases |rs|
  {
    if rs != [] {
      if rs[0].l < pos {
        OutermostRenders(s, rs[1..], pos);
      } else {
        FollowersClean(rs[0], rs[1..], |s|);
        OutermostRenders(s, rs[1..], rs[0].r);
        var out := Outermost(rs[1..], rs[0].r);
        EditsCons(rs[0], out);
        assert EditsOfRanges([rs[0]] + out)[1..] == EditsOfRanges(out);
      }
    } else {
      assert s[pos..|s|] == s[pos..];
    }
  }

  lemma {:induction false} RangesAscend(a: Range, rs: seq<Range>, n: nat)
    requires AllFollow(a, rs) && WellNested(rs, n)
    ensures Ascending(EditsOfRanges(rs)) && forall i :: 0 <= i < |rs| ==> a.l < rs[i].l
    decreases |rs|
  {
    if rs != [] {
      RangesAscend(a, rs[1..], n);
      RangesAscend(rs[0], rs[1..], n);
      assert forall i :: 0 < i < |rs| ==> rs[i] == rs[1..][i - 1];
      assert forall i :: 0 < i < |rs| ==> EditsOfRanges(rs)[i] == EditsOfRanges(rs[1..])[i - 1];
    }
  }

  lemma StartClean(rs: seq<Range>, n: nat)
    requires WellNested(rs, n)
    ensures Clean(rs, 0) && Clean(rs, n)
  {
    EndClean(rs, n);
    ZeroClean(rs);
  }

  lemma {:induction false} ZeroClean(rs: seq<Range>)
    ensures Clean(rs, 0)
  {
    if rs != [] {
      ZeroClean(rs[1..]);
    }
  }

  lemma MergedIsOutermost(rs: seq<Range>, n: nat)
    requires WellNested(rs, n)
    ensures MergeAll([], EditsOfRanges(rs)) == EditsOfRanges(Outermost(rs, 0))
  {
    if rs != [] {
      var es := EditsOfRanges(rs);
      assert MergeAll([], es) == MergeAll([es[0]], es[1..]);
      assert es[1..] == EditsOfRanges(rs[1..]);
      MergeKeepsOutermost([es[0]], rs[0], rs[1..], n);
      EditsCons(rs[0], Outermost(rs[1..], rs[0].r));
    }
  }

  // Applying the hints of any well nested ranges, in whatever order they come, replaces exactly the
  // outermost ones.
  lemma HintsRender(s: string, rs: seq<Range>, patches: seq<Edit>, sorted: seq<Edit>)
    requires WellNested(rs, |s|) && multiset(patches) == multiset(EditsOfRanges(rs)) && IsSorting(sorted, patches)
    ensures Clean(rs, |s|) && ApplyMerged(s, MergeAll([], sorted), 0) == Some(Render(s, rs, 0, |s|))
  {
    StartClean(rs, |s|);
    if rs != [] {
      RangesAscend(rs[0], rs[1..], |s|);
      AscendingCons(rs);
    }
    SortingUnique(sorted, EditsOfRanges(rs));
    MergedIsOutermost(rs, |s|);
    OutermostRenders(s, rs, 0);
  }

  lemma AscendingCons(rs: seq<Range>)
    requires rs != [] && Ascending(EditsOfRanges(rs[1..])) && forall i :: 0 <= i < |rs[1..]| ==> rs[0].l < rs[1..][i].l
    ensures Ascending(EditsOfRanges(rs))
  {
    assert forall i :: 0 < i < |rs| ==> EditsOfRanges(rs)[i] == EditsOfRanges(rs[1..])[i - 1];
    assert forall i :: 0 < i < |rs| ==> rs[i] == rs[1..][i - 1];
  }

  // From first to last it would go wrong: with the earlier range replaced, the later one is sought behind
  // the new text exactly when it does not lie inside.
  lemma FirstToLastIff(a: Range, b: Range)
    requires a.l < a.r && b.l < b.r && Follows(a, b)
    ensures
      var deltas := [(a.l, |a.text| - (a.r - a.l))];
      && (Mapped(deltas, b.l) >= a.l + |a.text| <==> a.r <= b.l)
      && (Mapped(deltas, b.l) < 0 <==> b.r < a.r && b.l + |a.text| < a.r - a.l)
  {
    var deltas := [(a.l, |a.text| - (a.r - a.l))];
    assert deltas[1..] == [];
    assert Shift(deltas, b.l) == |a.text| - (a.r - a.l);
  }

  // ----- Selection -----

  // What a run does to the definitions that were collected.
  datatype Outcome = MaxInstanceError | NullFunction | Rewritten(selected: seq<Range>)

  function Least(a: int, b: int): int {
    if a < b then a else b
  }

  // The selection by the counters; `warn` is --warn-on-counter-out-of-bounds.
  function Selection(kept: seq<Range>, counter: int, toCounter: int, warn: bool): Outcome
    requires counter >= 1 && (toCounter > 0 ==> counter <= toCounter <= INT_MAX) && |kept| < INT_MAX
  {
    var n := |kept|;
    if counter == 1 && toCounter == INT_MAX then Rewritten(kept)
    else if (counter > n || toCounter > n) && !warn then MaxInstanceError
    else if toCounter <= 0 then if counter <= n then Rewritten([kept[counter - 1]]) else NullFunction
    else if n == 0 then NullFunction
    else Rewritten(kept[Least(counter, n) - 1..Least(toCounter, n)])
  }

  function Kept(defs: seq<(Range, bool)>): (kept: seq<Range>)
    ensures |kept| <= |defs|
  {
    if defs == [] then []
    else
      var (range, preserved) := defs[|defs| - 1];
      Kept(defs[..|defs| - 1]) + if preserved then [] else [range]
  }

  // Those of the definitions that are not preserved, in their order.
  ghost predicate AreKept(defs: seq<(Range, bool)>, kept: seq<Range>, ks: seq<nat>) {
    && |ks| == |kept| && Rising(ks)
    && (forall k :: k in ks <==> 0 <= k < |defs| && !defs[k].1)
    && forall i :: 0 <= i < |ks| ==> ks[i] < |defs| && kept[i] == defs[ks[i]].0
  }

  predicate Rising(ks: seq<nat>) {
    forall i, j :: 0 <= i < j < |ks| ==> ks[i] < ks[j]
  }

  lemma {:induction false} KeptAre(defs: seq<(Range, bool)>) returns (ks: seq<nat>)
    ensures AreKept(defs, Kept(defs), ks)
  {
    ks := [];
    if defs != [] {
      var last := |defs| - 1;
      var before := KeptAre(defs[..last]);
      ks := before + if defs[last].1 then [] else [last];
      forall i | 0 <= i < |before|
        ensures before[i] < last && Kept(defs)[i] == defs[before[i]].0
      {
        assert before[i] in before && Kept(defs)[i] == Kept(defs[..last])[i];
      }
    }
  }

  // What a selection means: the definitions are numbered from 1; a single one, or those with numbers
  // from one counter to the other, where numbers beyond the last are cut to the last.
  ghost predicate IsSelected(kept: seq<Range>, counter: int, to: int, warn: bool, outcome: Outcome) {
    var n, all := |kept|, counter == 1 && to == 0x7fff_ffff;
    && (outcome.MaxInstanceError? <==> !all && !warn && (counter > n || to > n))
    && (outcome.NullFunction? <==> !all && warn && counter > n && (to <= 0 || n == 0))
    && (outcome.Rewritten? && to <= 0 ==> 1 <= counter <= n && outcome.selected == [kept[counter - 1]])
    && (outcome.Rewritten? && to > 0 ==> exists lo, hi :: IsInterval(kept, counter, to, lo, hi, outcome.selected))
  }

  ghost predicate IsInterval(kept: seq<Range>, counter: int, to: int, lo: nat, hi: nat, selected: seq<Range>) {
    && lo <= hi <= |kept| && selected == kept[lo..hi]
    && forall number :: 1 <= number <= |kept| ==> (lo < number <= hi <==> IsAskedFor(|kept|, counter, to, number))
  }

  // Out of n definitions.
  predicate IsAskedFor(n: nat, counter: int, to: int, number: int) {
    (counter <= number || number == n) && number <= to
  }

  lemma SelectedAre(kept: seq<Range>, counter: int, to: int, warn: bool)
    requires counter >= 1 && (to > 0 ==> counter <= to <= INT_MAX) && |kept| < INT_MAX
    ensures IsSelected(kept, counter, to, warn, Selection(kept, counter, to, warn))
  {
    var outcome, n := Selection(kept, counter, to, warn), |kept|;
    if outcome.Rewritten? && to > 0 {
      var all := counter == 1 && to == INT_MAX;
      var lo, hi := if all then 0 else Least(counter, n) - 1, if all then n else Least(to, n);
      assert kept[0..n] == kept;
      assert IsInterval(kept, counter, to, lo, hi, outcome.selected);
    }
  }

  // A run with warnings only can end without a function to rewrite: exactly when the counter of a
  // single instance is out of bounds, or there are no instances and not all of them were asked for.
  lemma NullFunctionIff(kept: seq<Range>, counter: int, toCounter: int, warn: bool)
    requires counter >= 1 && (toCounter > 0 ==> counter <= toCounter <= INT_MAX) && |kept| < INT_MAX
    ensures Selection(kept, counter, toCounter, warn) == NullFunction <==>
            warn && counter > |kept| && (toCounter <= 0 || kept == []) && !(counter == 1 && toCounter == INT_MAX)
  {
  }

  // What the counters become, and the outcome in terms of them.
  lemma SelectionIs(kept: seq<Range>, f: Option<Range>, counter: int, to: int, warn: bool, counter': int, to': int)
    requires counter >= 1 && (to > 0 ==> counter <= to <= INT_MAX) && |kept| < INT_MAX
    requires
      var all := counter == 1 && to == INT_MAX;
      && (all || warn || (counter <= |kept| && to <= |kept|))
      && counter' == (if all then counter else Least(counter, |kept|))
      && to' == (if all then to else Least(to, |kept|))
    ensures to' > 0 ==> to > 0 && 1 <= counter' <= (if to' == INT_MAX then |kept| else to') + 1 <= |kept| + 1
    ensures to' > 0 ==> Selection(kept, counter, to, warn) == Rewritten(ChosenFrom(kept, f, counter', to'))
    ensures to' <= 0 ==>
      Selection(kept, counter, to, warn) == if to <= 0 && counter <= |kept| then Rewritten([kept[counter - 1]]) else NullFunction
  {
    assert kept[0..|kept|] == kept;
  }

  lemma InvalidSelection(kept: seq<Range>, counter: int, to: int, warn: bool)
    requires counter >= 1 && (to > 0 ==> counter <= to <= INT_MAX) && |kept| < INT_MAX
    requires !((counter == 1 && to == INT_MAX) || warn || (counter <= |kept| && to <= |kept|))
    ensures Selection(kept, counter, to, warn) == MaxInstanceError
  {
  }

  function ChosenFrom(all: seq<Range>, f: Option<Range>, counter: int, to: int): seq<Range> {
    if to <= 0 then (if f.Some? then [f.value] else [])
    else
      var last := if to == INT_MAX then |all| else to;
      if 1 <= counter <= last + 1 <= |all| + 1 then all[counter - 1..last] else []
  }

  class FunctionRewriting {
    const rewriter: Rewriter
    const hints: HintsBuilder
    var transformationCounter: int
    var toCounter: int
    var validInstanceNum: int
    var allValidFunctionDefs: seq<Range>
    var theFunctionDef: Option<Range>

    constructor (s: string, counter: int, to: int)
      ensures transformationCounter == counter && toCounter == to && validInstanceNum == 0
      ensures allValidFunctionDefs == [] && theFunctionDef == None
      ensures fresh(rewriter) && rewriter.buffer == s && rewriter.deltas == []
      ensures fresh(hints) && hints.Valid() && hints.Finished() == [] && hints.Current() == []
    {
      rewriter := new Rewriter(s);
      hints := new HintsBuilder();
      transformationCounter, toCounter, validInstanceNum := counter, to, 0;
      allValidFunctionDefs, theFunctionDef := [], None;
    }

    // The collected state after the definitions in kept.
    predicate Collected(kept: seq<Range>)
      reads this
    {
      && validInstanceNum == |kept|
      && allValidFunctionDefs == (if toCounter > 0 then kept else [])
      && theFunctionDef == if toCounter <= 0 && 1 <= transformationCounter <= |kept| then Some(kept[transformationCounter - 1]) else None
    }

    // addOneFunctionDef; `preserved` says that it is the routine that --preserve-routine names.
    method AddOneFunctionDef(range: Range, preserved: bool, ghost kept: seq<Range>)
      requires Collected(kept)
      modifies this`validInstanceNum, this`allValidFunctionDefs, this`theFunctionDef
      ensures Collected(kept + if preserved then [] else [range])
    {
      assert kept + [] == kept;
      if preserved {
        return;
      }
      validInstanceNum := validInstanceNum + 1;
      if toCounter > 0 {
        allValidFunctionDefs := allValidFunctionDefs + [range];
        return;
      }
      if validInstanceNum == transformationCounter {
        theFunctionDef := Some(range);
      }
    }

    method CheckCounterValidity(warnOnCounterOutOfBounds: bool) returns (valid: bool)
      modifies this`transformationCounter, this`toCounter
      ensures
        var counter, to, n := old(transformationCounter), old(toCounter), validInstanceNum;
        var all := counter == 1 && to == INT_MAX;
        && valid == (all || warnOnCounterOutOfBounds || (counter <= n && to <= n))
        && (valid ==> transformationCounter == (if all then counter else Least(counter, n))
                      && toCounter == if all then to else Least(to, n))
    {
      if transformationCounter == 1 && toCounter == INT_MAX {
        return true;
      }
      if transformationCounter > validInstanceNum {
        if warnOnCounterOutOfBounds {
          transformationCounter := validInstanceNum;
        } else {
          return false;
        }
      }
      if toCounter > validInstanceNum {
        if warnOnCounterOutOfBounds {
          toCounter := validInstanceNum;
        } else {
          return false;
        }
      }
      return true;
    }

    // rewriteOneFunctionDef for a definition whose body is replaced, in a hint scope of its own.
    method RewriteOneFunctionDef(range: Range, ghost s: string, ghost rs: seq<Range>)
      requires rs != [] && rs[0] == range && WellNested(rs, |s|) && rewriter.Shows(s, rs[1..])
      requires hints.Valid() && hints.Current() == []
      modifies rewriter, hints
      ensures rewriter.Shows(s, rs)
      ensures hints.Valid() && hints.Current() == [] && hints.Finished() == old(hints.Finished()) + [[Edit(range.l, range.r, range.text)]]
    {
      hints.AddPatch(range.l, range.r - range.l, range.text);
      assert hints.Current() == [EditOfRange(range)];
      rewriter.ReplaceText(range, s, rs);
      hints.FinishCurrentHint();
    }

    // The definitions that doRewriting takes.
    function Chosen(): seq<Range>
      reads this
    {
      ChosenFrom(allValidFunctionDefs, theFunctionDef, transformationCounter, toCounter)
    }

    // The counters are in bounds, as checkCounterValidity leaves them.
    predicate CountersFit()
      reads this
    {
      toCounter > 0 ==>
        1 <= transformationCounter <= (if toCounter == INT_MAX then |allValidFunctionDefs| else toCounter) + 1 <= |allValidFunctionDefs| + 1
    }

    // Exactly the outermost of the ranges are replaced in the text, and there is one hint for each
    // range, in order.
    ghost predicate Replaced(s: string, rs: seq<Range>)
      reads rewriter, hints
    {
      && WellNested(rs, |s|) && Clean(rs, |s|) && rewriter.buffer == Render(s, rs, 0, |s|)
      && hints.Valid() && hints.Current() == [] && hints.Finished() == HintsOfRanges(rs)
    }

    // doRewriting; false stands for the assertion that there is a function.
    method DoRewriting(ghost s: string) returns (ok: bool)
      requires rewriter.Shows(s, []) && Replaced(s, []) && WellNested(allValidFunctionDefs, |s|) && CountersFit()
      requires WellNested(Chosen(), |s|)
      modifies this`toCounter, rewriter, hints
      ensures ok == (old(toCounter) > 0 || theFunctionDef.Some?)
      ensures Replaced(s, old(Chosen()))
    {
      ghost var selected := Chosen();
      if toCounter <= 0 {
        if theFunctionDef.None? {
          return false;
        }
        RewriteTheFunction(theFunctionDef.value, s);
        return true;
      }
      if toCounter == INT_MAX {
        toCounter := |allValidFunctionDefs|;
        if toCounter == 0 {
          return true;
        }
      }
      assert transformationCounter <= toCounter + 1 && toCounter <= |allValidFunctionDefs|;
      assert selected == allValidFunctionDefs[transformationCounter - 1..toCounter];
      RewriteSelected(transformationCounter, toCounter, s);
      return true;
    }

    // A single instance.
    method RewriteTheFunction(range: Range, ghost s: string)
      requires rewriter.Shows(s, []) && Replaced(s, []) && WellNested([range], |s|)
      modifies rewriter, hints
      ensures Replaced(s, [range])
    {
      assert [range][1..] == [];
      RewriteOneFunctionDef(range, s, [range]);
      assert hints.Finished() == HintsOfRanges([range]);
    }

    // The selected definitions, and their hints put back into order.
    method RewriteSelected(first: int, last: int, ghost s: string)
      requires WellNested(allValidFunctionDefs, |s|) && rewriter.Shows(s, []) && Replaced(s, [])
      requires 1 <= first <= last + 1 <= |allValidFunctionDefs| + 1
      modifies rewriter, hints
      ensures Replaced(s, allValidFunctionDefs[first - 1..last])
    {
      RewriteDownwards(first, last, s);
      hints.ReverseOrder();
      ReversedTwice(HintsOfRanges(allValidFunctionDefs[first - 1..last]));
    }

    // One round of the loop below.
    method RewriteNext(range: Range, ghost s: string, ghost rs: seq<Range>)
      requires rs != [] && rs[0] == range && WellNested(rs, |s|) && rewriter.Shows(s, rs[1..])
      requires hints.Valid() && hints.Current() == [] && hints.Finished() == Reversed(HintsOfRanges(rs[1..]))
      modifies rewriter, hints
      ensures rewriter.Shows(s, rs)
      ensures hints.Valid() && hints.Current() == [] && hints.Finished() == Reversed(HintsOfRanges(rs))
    {
      ReversedCons(range, rs[1..]);
      assert [range] + rs[1..] == rs;
      RewriteOneFunctionDef(range, s, rs);
    }

    // The loop of doRewriting, from the last selected definition to the first.
    method RewriteDownwards(first: int, last: int, ghost s: string)
      requires WellNested(allValidFunctionDefs, |s|) && rewriter.Shows(s, [])
      requires hints.Valid() && hints.Current() == [] && hints.Finished() == []
      requires 1 <= first <= last + 1 <= |allValidFunctionDefs| + 1
      modifies rewriter, hints
      ensures WellNested(allValidFunctionDefs[first - 1..last], |s|)
      ensures rewriter.Shows(s, allValidFunctionDefs[first - 1..last])
      ensures hints.Valid() && hints.Current() == []
      ensures hints.Finished() == Reversed(HintsOfRanges(allValidFunctionDefs[first - 1..last]))
    {
      var i := last;
      ghost var rs := [];
      while i >= first
        invariant first - 1 <= i <= last
        invariant rs == allValidFunctionDefs[i..last]
        invariant WellNested(rs, |s|) && rewriter.Shows(s, rs)
        invariant hints.Valid() && hints.Current() == [] && hints.Finished() == Reversed(HintsOfRanges(rs))
      {
        NextSelected(allValidFunctionDefs, |s|, i, last, rs);
        i := i - 1;
        rs := [allValidFunctionDefs[i]] + rs;
        RewriteNext(allValidFunctionDefs[i], s, rs);
      }
    }

    // The collecting visitor.
    method Collect(defs: seq<(Range, bool)>)
      requires Collected([])
      modifies this`validInstanceNum, this`allValidFunctionDefs, this`theFunctionDef
      ensures Collected(Kept(defs))
    {
      for i := 0 to |defs|
        invariant Collected(Kept(defs[..i]))
      {
        assert defs[..i + 1][..i] == defs[..i] && defs[..i + 1][i] == defs[i];
        AddOneFunctionDef(defs[i].0, defs[i].1, Kept(defs[..i]));
      }
      assert defs[..|defs|] == defs;
    }

    // HandleTranslationUnit. Every edit finds its range, only the outermost selected ranges are
    // replaced, and the hints, applied by C-Vise, give the same text.
    method HandleTranslationUnit(s: string, defs: seq<(Range, bool)>, warnOnCounterOutOfBounds: bool) returns (outcome: Outcome)
      requires Collected([]) && WellNested(Kept(defs), |s|) && |defs| < INT_MAX
      requires transformationCounter >= 1 && (toCounter > 0 ==> transformationCounter <= toCounter <= INT_MAX)
      requires rewriter.buffer == s && rewriter.deltas == []
      requires hints.Valid() && hints.Current() == [] && hints.Finished() == []
      modifies this, rewriter, hints
      ensures outcome == Selection(Kept(defs), old(transformationCounter), old(toCounter), warnOnCounterOutOfBounds)
      ensures Replaced(s, if outcome.Rewritten? then outcome.selected else [])
      ensures outcome.Rewritten? ==>
        ApplyMerged(s, MergeAll([], EditsOfRanges(outcome.selected)), 0) == Some(rewriter.buffer)
    {
      var valid := Prepare(s, defs, warnOnCounterOutOfBounds);
      if !valid {
        return MaxInstanceError;
      }
      var chosen := Chosen();
      var ok := DoRewriting(s);
      if !ok {
        return NullFunction;
      }
      AlreadySorted(s, chosen);
      return Rewritten(chosen);
    }

    // Collecting, and the check of the counters.
    method Prepare(ghost s: string, defs: seq<(Range, bool)>, warnOnCounterOutOfBounds: bool) returns (valid: bool)
      requires Collected([]) && WellNested(Kept(defs), |s|) && |defs| < INT_MAX
      requires transformationCounter >= 1 && (toCounter > 0 ==> transformationCounter <= toCounter <= INT_MAX)
      requires rewriter.buffer == s && rewriter.deltas == []
      modifies this
      ensures rewriter.Shows(s, []) && WellNested(allValidFunctionDefs, |s|) && WellNested(Chosen(), |s|)
      ensures valid ==> CountersFit()
      ensures
        Selection(Kept(defs), old(transformationCounter), old(toCounter), warnOnCounterOutOfBounds) ==
        if !valid then MaxInstanceError
        else if toCounter > 0 || theFunctionDef.Some? then Rewritten(Chosen())
        else NullFunction
    {
      NothingReplaced(s);
      Collect(defs);
      valid := CheckCounterValidity(warnOnCounterOutOfBounds);
      if theFunctionDef.Some? {
        OneNested(Kept(defs), |s|, theFunctionDef.value);
      }
      ChosenNested(allValidFunctionDefs, theFunctionDef, transformationCounter, toCounter, |s|);
      if !valid {
        InvalidSelection(Kept(defs), old(transformationCounter), old(toCounter), warnOnCounterOutOfBounds);
        return false;
      }
      ChosenIsSelected(Kept(defs), old(transformationCounter), old(toCounter), warnOnCounterOutOfBounds);
    }

    // What is chosen after the check is what the original counters select.
    lemma ChosenIsSelected(kept: seq<Range>, counter: int, to: int, warn: bool)
      requires counter >= 1 && (to > 0 ==> counter <= to <= INT_MAX) && |kept| < INT_MAX
      requires allValidFunctionDefs == if to > 0 then kept else []
      requires theFunctionDef == if to <= 0 && counter <= |kept| then Some(kept[counter - 1]) else None
      requires
        var all := counter == 1 && to == INT_MAX;
        && (all || warn || (counter <= |kept| && to <= |kept|))
        && transformationCounter == (if all then counter else Least(counter, |kept|))
        && toCounter == (if all then to else Least(to, |kept|))
      ensures CountersFit()
      ensures Selection(kept, counter, to, warn) ==
              if toCounter > 0 || theFunctionDef.Some? then Rewritten(Chosen()) else NullFunction
    {
      SelectionIs(kept, theFunctionDef, counter, to, warn, transformationCounter, toCounter);
    }
  }

  lemma ChosenNested(all: seq<Range>, f: Option<Range>, counter: int, to: int, n: nat)
    requires WellNested(all, n) && (f.Some? ==> WellNested([f.value], n))
    ensures WellNested(ChosenFrom(all, f, counter, to), n)
  {
    var last := if to == INT_MAX then |all| else to;
    if to > 0 && 1 <= counter <= last + 1 <= |all| + 1 {
      Selected(all, n, counter - 1, last);
    }
  }

  lemma {:induction false} OneNested(rs: seq<Range>, n: nat, range: Range)
    requires WellNested(rs, n) && range in rs
    ensures WellNested([range], n)
  {
    assert [range][1..] == [];
    if range != rs[0] {
      OneNested(rs[1..], n, range);
    }
  }

  lemma NothingReplaced(s: string)
    ensures MapsTo([], s, []) && Clean([], |s|) && Render(s, [], 0, |s|) == s
  {
    assert s[0..|s|] == s;
  }

  lemma NextSelected(defs: seq<Range>, n: nat, i: nat, last: nat, rs: seq<Range>)
    requires WellNested(defs, n) && 1 <= i <= last <= |defs| && rs == defs[i..last]
    ensures [defs[i - 1]] + rs == defs[i - 1..last] && WellNested([defs[i - 1]] + rs, n)
    ensures ([defs[i - 1]] + rs)[1..] == rs
  {
    Selected(defs, n, i - 1, last);
    assert [defs[i - 1]] + rs == defs[i - 1..last];
  }

  lemma ReversedCons(range: Range, rs: seq<Range>)
    ensures Reversed(HintsOfRanges([range] + rs)) == Reversed(HintsOfRanges(rs)) + [[EditOfRange(range)]]
  {
  }

  lemma AlreadySorted(s: string, rs: seq<Range>)
    requires WellNested(rs, |s|)
    ensures Clean(rs, |s|) && ApplyMerged(s, MergeAll([], EditsOfRanges(rs)), 0) == Some(Render(s, rs, 0, |s|))
  {
    StartClean(rs, |s|);
    MergedIsOutermost(rs, |s|);
    OutermostRenders(s, rs, 0);
  }
}
