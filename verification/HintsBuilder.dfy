/**
 clang_delta/HintsBuilder.cpp: patches are collected into the current hint, the end of a scope
 finishes the hint, and replacement strings are numbered in a vocabulary.
 */
module HintsBuilder {
  import opened Collections
  import opened Decimal
  import opened Wrappers
  import opened HintFormat

  // What a patch does to the text.
  datatype Edit = Edit(l: nat, r: nat, text: string)

  function TextOf(vocab: seq<string>, v: Option<nat>): string {
    match v
    case None => ""
    case Some(id) => if id < |vocab| then vocab[id] else ""
  }

  function EditOf(vocab: seq<string>, p: Patch): Edit {
    Edit(p.l, p.r, TextOf(vocab, p.v))
  }

  function Edits(vocab: seq<string>, h: Hint): (es: seq<Edit>)
    ensures |es| == |h| && forall i :: 0 <= i < |h| ==> es[i] == EditOf(vocab, h[i])
  {
    seq(|h|, i requires 0 <= i < |h| => EditOf(vocab, h[i]))
  }

  function AllEdits(vocab: seq<string>, hs: seq<Hint>): (ess: seq<seq<Edit>>)
    ensures |ess| == |hs| && forall i :: 0 <= i < |hs| ==> ess[i] == Edits(vocab, hs[i])
  {
    seq(|hs|, i requires 0 <= i < |hs| => Edits(vocab, hs[i]))
  }

  // The range is not backwards, the number exists, and a patch without text deletes something.
  predicate GoodPatch(n: nat, p: Patch) {
    p.l <= p.r && (match p.v case None => p.l < p.r case Some(id) => id < n)
  }

  predicate GoodHint(n: nat, h: Hint) {
    forall p :: p in h ==> GoodPatch(n, p)
  }

  // Numbers keep their strings when the vocabulary grows.
  lemma GrownEdits(vocab: seq<string>, more: seq<string>, h: Hint)
    requires vocab <= more && GoodHint(|vocab|, h)
    ensures Edits(more, h) == Edits(vocab, h) && GoodHint(|more|, h)
  {
    forall i | 0 <= i < |h|
      ensures EditOf(more, h[i]) == EditOf(vocab, h[i])
    {
      assert h[i] in h;
    }
  }

  lemma GrownAllEdits(vocab: seq<string>, more: seq<string>, hs: seq<Hint>)
    requires vocab <= more && forall h :: h in hs ==> GoodHint(|vocab|, h)
    ensures AllEdits(more, hs) == AllEdits(vocab, hs) && forall h :: h in hs ==> GoodHint(|more|, h)
  {
    forall i | 0 <= i < |hs|
      ensures Edits(more, hs[i]) == Edits(vocab, hs[i])
    {
      GrownEdits(vocab, more, hs[i]);
    }
    forall h | h in hs
      ensures GoodHint(|more|, h)
    {
      GrownEdits(vocab, more, h);
    }
  }

  lemma ReversedAllEdits(vocab: seq<string>, hs: seq<Hint>)
    ensures AllEdits(vocab, Reversed(hs)) == Reversed(AllEdits(vocab, hs))
    ensures forall h :: h in Reversed(hs) ==> h in hs
  {
  }

  // The edits that the reader of the output gets.
  function ReadBack(out: string): Option<seq<seq<Edit>>> {
    match Decode(out)
    case None => None
    case Some((vocab, hs)) => Some(AllEdits(vocab, hs))
  }

  class HintsBuilder {
    var vocab: seq<string>
    var hints: seq<Hint>
    var currentHint: Hint

    ghost predicate Valid()
      reads this
    {
      && NoDuplicates(vocab) && "" !in vocab
      && GoodHint(|vocab|, currentHint)
      && (forall h :: h in hints ==> h != [] && GoodHint(|vocab|, h))
    }

    // The finished hints and the current one, as edits of the text.
    function Finished(): seq<seq<Edit>>
      reads this
    {
      AllEdits(vocab, hints)
    }

    function Current(): seq<Edit>
      reads this
    {
      Edits(vocab, currentHint)
    }

    constructor ()
      ensures Valid() && Finished() == [] && Current() == [] && vocab == []
    {
      vocab, hints, currentHint := [], [], [];
    }

    // LookupOrCreateVocabId; std::find is the loop.
    method LookupOrCreateVocabId(s: string) returns (id: nat)
      requires Valid() && s != ""
      modifies this`vocab
      ensures Valid() && Finished() == old(Finished()) && Current() == old(Current())
      ensures old(vocab) <= vocab && id < |vocab| && vocab[id] == s
      ensures vocab == if s in old(vocab) then old(vocab) else old(vocab) + [s]
    {
      id := 0;
      while id < |vocab| && vocab[id] != s
        invariant id <= |vocab| && s !in vocab[..id]
      {
        id := id + 1;
      }
      if id < |vocab| {
        return;
      }
      assert vocab[..id] == vocab;
      GrownAllEdits(vocab, vocab + [s], hints);
      GrownEdits(vocab, vocab + [s], currentHint);
      vocab := vocab + [s];
    }

    // AddPatch of a range of characters; a length that is not positive, such as the -1 of an
    // invalid range, is ignored.
    method AddPatch(l: nat, len: int, replacement: string)
      requires Valid()
      modifies this`vocab, this`currentHint
      ensures Valid() && Finished() == old(Finished()) && old(vocab) <= vocab
      ensures Current() == old(Current()) + if len <= 0 then [] else [Edit(l, l + len, replacement)]
    {
      if len <= 0 {
        assert old(Current()) + [] == old(Current());
        return;
      }
      var p := Patch(l, l + len, None);
      if replacement != "" {
        var id := LookupOrCreateVocabId(replacement);
        p := p.(v := Some(id));
      }
      currentHint := currentHint + [p];
    }

    // AddPatch of an insertion; an empty one is ignored.
    method AddInsertion(l: nat, insertion: string)
      requires Valid()
      modifies this`vocab, this`currentHint
      ensures Valid() && Finished() == old(Finished()) && old(vocab) <= vocab
      ensures Current() == old(Current()) + if insertion == "" then [] else [Edit(l, l, insertion)]
    {
      if insertion == "" {
        assert old(Current()) + [] == old(Current());
        return;
      }
      var id := LookupOrCreateVocabId(insertion);
      currentHint := currentHint + [Patch(l, l, Some(id))];
    }

    // FinishCurrentHint, which the end of a HintScope calls.
    method FinishCurrentHint()
      requires Valid()
      modifies this`hints, this`currentHint
      ensures Valid() && Current() == []
      ensures Finished() == old(Finished()) + if old(Current()) == [] then [] else [old(Current())]
    {
      if currentHint == [] {
        assert old(Finished()) + [] == old(Finished());
        return;
      }
      hints := hints + [currentHint];
      currentHint := [];
    }

    // ReverseOrder; std::reverse swaps from both ends.
    method ReverseOrder()
      requires Valid()
      modifies this`hints
      ensures Valid() && Finished() == Reversed(old(Finished())) && Current() == old(Current())
    {
      var i, j := 0, |hints|;
      while i + 1 < j
        invariant 0 <= i <= j && i + j == |hints| == |old(hints)|
        invariant forall k :: 0 <= k < i || j <= k < |hints| ==> hints[k] == old(hints)[|hints| - 1 - k]
        invariant forall k :: i <= k < j ==> hints[k] == old(hints)[k]
      {
        j := j - 1;
        hints := hints[i := hints[j]][j := hints[i]];
        i := i + 1;
      }
      assert hints == Reversed(old(hints));
      ReversedAllEdits(vocab, old(hints));
    }

    // Output.
    method Output() returns (out: string)
      requires Valid()
      ensures out == Encode(vocab, hints)
      // The reader gets the finished edits back when no string holds the null character.
      ensures (forall x :: x in vocab ==> '\0' !in x) ==> ReadBack(out) == Some(Finished())
    {
      var strings := "";
      for i := 0 to |vocab|
        invariant strings + EncodeStrings(vocab[i..]) == EncodeStrings(vocab)
      {
        assert vocab[i..][0] == vocab[i] && vocab[i..][1..] == vocab[i + 1..];
        Regroup(strings, vocab[i], "\0", EncodeStrings(vocab[i + 1..]));
        strings := strings + (vocab[i] + "\0");
      }
      var lines := "";
      for i := 0 to |hints|
        invariant lines + EncodeHints(hints[i..]) == EncodeHints(hints)
      {
        assert hints[i..][0] == hints[i] && hints[i..][1..] == hints[i + 1..];
        var line := OutputHint(hints[i]);
        Regroup(lines, line, "\n", EncodeHints(hints[i + 1..]));
        lines := lines + (line + "\n");
      }
      assert strings + "" == strings && lines + "" == lines;
      out := Print(|vocab|) + ("\n" + (strings + lines));
      DecodeEncodeIff(vocab, hints);
    }

    method OutputHint(h: Hint) returns (line: string)
      ensures line == EncodeHint(h)
    {
      var first, patches := true, "";
      for i := 0 to |h|
        invariant first == (i == 0)
        invariant if i < |h| then patches + (if i == 0 then "" else ",") + EncodePatches(h[i..]) == EncodePatches(h)
                  else patches == EncodePatches(h)
      {
        assert h[i..][0] == h[i] && h[i..][1..] == h[i + 1..];
        var sep := if first then "" else ",";
        first := false;
        if i + 1 < |h| {
          Regroup(patches + sep, EncodePatch(h[i]), ",", EncodePatches(h[i + 1..]));
        }
        patches := patches + sep + EncodePatch(h[i]);
      }
      line := "{\"p\":[" + (patches + "]}");
    }
  }

  lemma Regroup(a: string, b: string, c: string, d: string)
    ensures a + (b + (c + d)) == (a + (b + c)) + d == ((a + b) + c) + d
  {
  }
}
