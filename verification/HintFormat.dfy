/**
 The text that clang_delta/HintsBuilder.cpp:69-90 writes, and the reader of it in
 cvise/passes/clanghints.py:176-207.
 */
module HintFormat {
  import opened Collections
  import opened Decimal
  import opened Wrappers

  // A patch replaces the characters from l up to r; v is the number of a string in the vocabulary.
  datatype Patch = Patch(l: nat, r: nat, v: Option<nat>)

  type Hint = seq<Patch>

  // ----- Writing -----

  function EncodePatch(p: Patch): string {
    "{" + ("\"l\":" + (Print(p.l) + (",\"r\":" + (Print(p.r) + EncodeValue(p.v)))))
  }

  function EncodeValue(v: Option<nat>): string {
    match v
    case None => "}"
    case Some(id) => ",\"v\":" + (Print(id) + "}")
  }

  // Patches separated by commas.
  function EncodePatches(h: Hint): string {
    if h == [] then ""
    else if |h| == 1 then EncodePatch(h[0])
    else EncodePatch(h[0]) + ("," + EncodePatches(h[1..]))
  }

  function EncodeHint(h: Hint): string {
    "{\"p\":[" + (EncodePatches(h) + "]}")
  }

  function EncodeHints(hs: seq<Hint>): string {
    if hs == [] then "" else EncodeHint(hs[0]) + ("\n" + EncodeHints(hs[1..]))
  }

  // Strings ended by the null character.
  function EncodeStrings(vocab: seq<string>): string {
    if vocab == [] then "" else vocab[0] + ("\0" + EncodeStrings(vocab[1..]))
  }

  function Encode(vocab: seq<string>, hs: seq<Hint>): string {
    Print(|vocab|) + ("\n" + (EncodeStrings(vocab) + EncodeHints(hs)))
  }

  // ----- Reading -----

  // The position of the first c, or the length if there is none.
  function Find(s: string, c: char): (k: nat)
    ensures k <= |s| && c !in s[..k] && (k < |s| ==> s[k] == c)
  {
    if s == [] || s[0] == c then 0
    else
      var k := 1 + Find(s[1..], c);
      assert s[..k] == [s[0]] + s[1..][..k - 1];
      k
  }

  function ReadNat(s: string): Option<(nat, string)> {
    var k := DigitPrefix(s);
    if k == 0 then None else Some((Value(s[..k]), s[k..]))
  }

  function Expect(s: string, literal: string): Option<string> {
    if literal <= s then Some(s[|literal|..]) else None
  }

  // A literal, then a number.
  function ReadField(s: string, literal: string): Option<(nat, string)> {
    match Expect(s, literal)
    case None => None
    case Some(rest) => ReadNat(rest)
  }

  function DecodeValue(s: string): (r: Option<(Option<nat>, string)>)
    ensures r.Some? ==> |r.value.1| < |s|
  {
    if "}" <= s then Some((None, s[1..]))
    else
      match ReadField(s, ",\"v\":")
      case None => None
      case Some((id, rest)) => if "}" <= rest then Some((Some(id), rest[1..])) else None
  }

  function DecodePatch(s: string): (r: Option<(Patch, string)>)
    ensures r.Some? ==> |r.value.1| < |s|
  {
    match ReadField(s, "{\"l\":")
    case None => None
    case Some((l, afterL)) =>
      match ReadField(afterL, ",\"r\":")
      case None => None
      case Some((r, afterR)) =>
        match DecodeValue(afterR)
        case None => None
        case Some((v, rest)) => Some((Patch(l, r, v), rest))
  }

  function DecodePatches(s: string): Option<(Hint, string)>
    decreases |s|
  {
    match DecodePatch(s)
    case None => None
    case Some((p, rest)) =>
      if "," <= rest then
        match DecodePatches(rest[1..])
        case None => None
        case Some((h, rest')) => Some(([p] + h, rest'))
      else Some(([p], rest))
  }

  function DecodeHint(line: string): Option<Hint> {
    match Expect(line, "{\"p\":[")
    case None => None
    case Some(body) =>
      if body == "]}" then Some([])
      else
        match DecodePatches(body)
        case None => None
        case Some((h, rest)) => if rest == "]}" then Some(h) else None
  }

  function DecodeHints(s: string): Option<seq<Hint>>
    decreases |s|
  {
    if s == "" then Some([])
    else
      var end := Find(s, '\n');
      if end == |s| then None
      else
        match DecodeHint(s[..end])
        case None => None
        case Some(h) =>
          match DecodeHints(s[end + 1..])
          case None => None
          case Some(hs) => Some([h] + hs)
  }

  function DecodeStrings(n: nat, s: string): (r: Option<(seq<string>, string)>)
    ensures r.Some? ==> forall x :: x in r.value.0 ==> '\0' !in x
  {
    if n == 0 then Some(([], s))
    else
      var end := Find(s, '\0');
      if end == |s| then None
      else
        match DecodeStrings(n - 1, s[end + 1..])
        case None => None
        case Some((vocab, rest)) => Some(([s[..end]] + vocab, rest))
  }

  // bytes.strip() leaves nothing.
  predicate IsBlank(s: string) {
    forall i :: 0 <= i < |s| ==> s[i] in " \t\n\r" || s[i] == 11 as char || s[i] == 12 as char
  }

  // parse_clang_delta_hints, with a failure for every exception. No output at all is an empty bundle.
  function Decode(s: string): (r: Option<(seq<string>, seq<Hint>)>)
    ensures r.Some? ==> forall x :: x in r.value.0 ==> '\0' !in x
  {
    if IsBlank(s) then Some(([], []))
    else match ReadNat(s)
    case None => None
    case Some((n, rest)) =>
      if !("\n" <= rest) then None
      else
        match DecodeStrings(n, rest[1..])
        case None => None
        case Some((vocab, lines)) =>
          match DecodeHints(lines)
          case None => None
          case Some(hs) => Some((vocab, hs))
  }

  // ----- What is written -----

  lemma DigitText(n: nat)
    requires n < 10
    ensures |Print(n)| == 1 && Print(n)[0] as int == '0' as int + n
  {
    assert Print(n) == [DigitChar(n)];
  }

  // A replacement by string 0, a deletion, and a bundle that holds both in one hint.
  lemma PatchTexts()
    ensures EncodePatch(Patch(1, 2, Some(0))) == "{\"l\":1,\"r\":2,\"v\":0}"
    ensures EncodePatch(Patch(3, 4, None)) == "{\"l\":3,\"r\":4}"
  {
    assert Print(0) == "0" && Print(1) == "1" && Print(2) == "2" && Print(3) == "3" && Print(4) == "4" by {
      DigitText(0);
      DigitText(1);
      DigitText(2);
      DigitText(3);
      DigitText(4);
    }
  }

  lemma HintText(a: Patch, b: Patch)
    ensures EncodeHint([a, b]) == "{\"p\":[" + (EncodePatch(a) + ("," + EncodePatch(b)) + "]}")
  {
    assert [a, b][1..] == [b];
    assert EncodePatches([b]) == EncodePatch(b);
    assert EncodePatches([a, b]) == EncodePatch(a) + ("," + EncodePatches([b]));
  }

  lemma BundleText(x: string, h: Hint)
    ensures Encode([x], [h]) == "1" + ("\n" + (x + "\0" + (EncodeHint(h) + "\n")))
  {
    DigitText(1);
    assert Print(|[x]|) == "1";
    assert [x][1..] == [] && [h][1..] == [];
    assert "\0" + "" == "\0" && "\n" + "" == "\n";
    assert EncodeStrings([]) == "" && EncodeHints([]) == "";
    assert EncodeStrings([x]) == x + ("\0" + EncodeStrings([]));
    assert EncodeHints([h]) == EncodeHint(h) + ("\n" + EncodeHints([]));
  }

  lemma EncodeExample()
    ensures Encode(["x"], [[Patch(1, 2, Some(0)), Patch(3, 4, None)]]) ==
            "1" + ("\n" + ("x" + "\0" +
            ("{\"p\":[" + ("{\"l\":1,\"r\":2,\"v\":0}" + ("," + "{\"l\":3,\"r\":4}") + "]}") + "\n")))
  {
    var a, b := Patch(1, 2, Some(0)), Patch(3, 4, None);
    PatchTexts();
    HintText(a, b);
    BundleText("x", [a, b]);
  }

  // ----- Reading undoes writing -----

  lemma ReadNatPrint(n: nat, rest: string)
    requires rest == [] || !IsDigit(rest[0])
    ensures ReadNat(Print(n) + rest) == Some((n, rest))
  {
    DigitPrefixPrint(n, rest);
    ValuePrint(n);
    assert (Print(n) + rest)[|Print(n)|..] == rest;
  }

  lemma FieldPrint(literal: string, n: nat, rest: string)
    requires rest == [] || !IsDigit(rest[0])
    ensures ReadField(literal + (Print(n) + rest), literal) == Some((n, rest))
  {
    var s := literal + (Print(n) + rest);
    assert s[|literal|..] == Print(n) + rest;
    ReadNatPrint(n, rest);
  }

  lemma ValueReads(v: Option<nat>, rest: string)
    ensures DecodeValue(EncodeValue(v) + rest) == Some((v, rest))
  {
    match v
    case None =>
      assert ("}" + rest)[1..] == rest;
    case Some(id) =>
      var s := EncodeValue(v) + rest;
      assert s == ",\"v\":" + (Print(id) + ("}" + rest));
      assert s[0] == ',';
      FieldPrint(",\"v\":", id, "}" + rest);
      assert ("}" + rest)[1..] == rest;
  }

  lemma PatchReads(p: Patch, rest: string)
    ensures DecodePatch(EncodePatch(p) + rest) == Some((p, rest))
  {
    var value := EncodeValue(p.v) + rest;
    var right := ",\"r\":" + (Print(p.r) + value);
    assert EncodePatch(p) + rest == "{\"l\":" + (Print(p.l) + right);
    FieldPrint("{\"l\":", p.l, right);
    FieldPrint(",\"r\":", p.r, value);
    ValueReads(p.v, rest);
  }

  lemma {:induction false} PatchesRead(h: Hint, rest: string)
    requires h != [] && (rest == "" || rest[0] != ',')
    ensures DecodePatches(EncodePatches(h) + rest) == Some((h, rest))
  {
    if |h| == 1 {
      PatchReads(h[0], rest);
      assert h == [h[0]];
    } else {
      PatchesRead(h[1..], rest);
      OneMorePatch(h[0], h[1..], rest);
      assert h == [h[0]] + h[1..];
    }
  }

  lemma OneMorePatch(p: Patch, h: Hint, rest: string)
    requires h != [] && DecodePatches(EncodePatches(h) + rest) == Some((h, rest))
    ensures DecodePatches(EncodePatches([p] + h) + rest) == Some(([p] + h, rest))
  {
    var first, others := EncodePatch(p), EncodePatches(h);
    var more := "," + (others + rest);
    assert ([p] + h)[1..] == h && EncodePatches([p] + h) == first + ("," + others);
    AssociateComma(first, others, rest);
    PatchReads(p, more);
    CommaReads(first + more, p, more, h, rest);
  }

  lemma AssociateComma(a: string, b: string, c: string)
    ensures (a + ("," + b)) + c == a + ("," + (b + c)) && ("," + (b + c))[1..] == b + c
  {
  }

  lemma CommaReads(s: string, p: Patch, more: string, h: Hint, rest: string)
    requires DecodePatch(s) == Some((p, more)) && "," <= more && DecodePatches(more[1..]) == Some((h, rest))
    ensures DecodePatches(s) == Some(([p] + h, rest))
  {
  }

  lemma HintReads(h: Hint)
    ensures DecodeHint(EncodeHint(h)) == Some(h)
  {
    var body := EncodePatches(h) + "]}";
    assert EncodeHint(h)[|"{\"p\":["|..] == body;
    if h == [] {
      assert body == "]}";
    } else {
      PatchesRead(h, "]}");
      PatchesOpen(h);
      assert body[0] == '{';
    }
  }

  lemma PatchesOpen(h: Hint)
    requires h != []
    ensures EncodePatches(h) != "" && EncodePatches(h)[0] == '{'
  {
  }

  lemma DigitsNoNewline(n: nat)
    ensures '\n' !in Print(n)
  {
  }

  lemma PatchNoNewline(p: Patch)
    ensures '\n' !in EncodePatch(p)
  {
    DigitsNoNewline(p.l);
    DigitsNoNewline(p.r);
    if p.v.Some? {
      DigitsNoNewline(p.v.value);
    }
  }

  lemma {:induction false} PatchesNoNewline(h: Hint)
    ensures '\n' !in EncodePatches(h)
  {
    if h != [] {
      PatchNoNewline(h[0]);
      PatchesNoNewline(h[1..]);
    }
  }

  lemma {:induction false} FindFirst(a: string, c: char, b: string)
    requires c !in a
    ensures Find(a + ([c] + b), c) == |a|
    ensures (a + ([c] + b))[..|a|] == a && (a + ([c] + b))[|a| + 1..] == b
  {
    var s := a + ([c] + b);
    if a != [] {
      assert s[0] == a[0] && s[1..] == a[1..] + ([c] + b);
      FindFirst(a[1..], c, b);
    }
  }

  lemma {:induction false} HintsRead(hs: seq<Hint>)
    ensures DecodeHints(EncodeHints(hs)) == Some(hs)
  {
    if hs != [] {
      var line, more := EncodeHint(hs[0]), EncodeHints(hs[1..]);
      PatchesNoNewline(hs[0]);
      assert '\n' !in line;
      HintReads(hs[0]);
      HintsRead(hs[1..]);
      LineReads(line, hs[0], more, hs[1..]);
      assert [hs[0]] + hs[1..] == hs;
    }
  }

  lemma LineReads(line: string, h: Hint, more: string, hs: seq<Hint>)
    requires '\n' !in line && DecodeHint(line) == Some(h) && DecodeHints(more) == Some(hs)
    ensures DecodeHints(line + ("\n" + more)) == Some([h] + hs)
  {
    FindFirst(line, '\n', more);
  }

  lemma {:induction false} StringsRead(vocab: seq<string>, rest: string)
    requires forall x :: x in vocab ==> '\0' !in x
    ensures DecodeStrings(|vocab|, EncodeStrings(vocab) + rest) == Some((vocab, rest))
  {
    if vocab == [] {
      assert "" + rest == rest;
    } else {
      assert vocab[0] in vocab && forall x :: x in vocab[1..] ==> x in vocab;
      StringsRead(vocab[1..], rest);
      StringReads(vocab[0], vocab[1..], EncodeStrings(vocab[1..]), rest);
      assert [vocab[0]] + vocab[1..] == vocab;
    }
  }

  lemma StringReads(x: string, vocab: seq<string>, encoded: string, rest: string)
    requires '\0' !in x && DecodeStrings(|vocab|, encoded + rest) == Some((vocab, rest))
    ensures DecodeStrings(|vocab| + 1, (x + ("\0" + encoded)) + rest) == Some(([x] + vocab, rest))
  {
    Associate(x, "\0" + encoded, rest);
    Associate("\0", encoded, rest);
    FindFirst(x, '\0', encoded + rest);
  }

  // What was written is read back exactly when no string of the vocabulary holds the null character.
  lemma DecodeEncodeIff(vocab: seq<string>, hs: seq<Hint>)
    ensures Decode(Encode(vocab, hs)) == Some((vocab, hs)) <==> forall x :: x in vocab ==> '\0' !in x
  {
    assert IsDigit(Encode(vocab, hs)[0]) && !IsBlank(Encode(vocab, hs));
    if forall x :: x in vocab ==> '\0' !in x {
      var rest := EncodeStrings(vocab) + EncodeHints(hs);
      ReadNatPrint(|vocab|, "\n" + rest);
      assert ("\n" + rest)[1..] == rest;
      StringsRead(vocab, EncodeHints(hs));
      HintsRead(hs);
    }
  }
}
