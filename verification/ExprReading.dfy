/**
 How the text of an expression is read: a reader of tokens by precedence, after the grammar of
 section 6.5 of ISO/IEC 9899, and the trees that are read back from their own tokens. With it, when the
 text that clang_delta/ReplaceCallExpr.cpp writes is read as the tree it stands for.
 */
module ExprReading {
  import opened Wrappers
  import opened CallInlining
  import opened ReplaceCallExpr

  // A constant or a name is one token, and so is a type name in parentheses.
  datatype Token =
    | Leaf(e: Expr)
    | Open | Close
    | OpenIndex | CloseIndex
    | CastTo(tyName: string)
    | Access(text: string)
    | Op(op: string)
    | Question | Colon

  predicate IsLeaf(e: Expr) {
    e.Constant? || e.Variable? || e.ParmRef?
  }

  // The tokens of an expression, and then the rest.
  function Toks(e: Expr, rest: seq<Token>): (ts: seq<Token>)
    ensures |ts| > |rest|
    decreases e
  {
    match e
    case Constant(_, _, _) => [Leaf(e)] + rest
    case Variable(_, _) => [Leaf(e)] + rest
    case ParmRef(_, _) => [Leaf(e)] + rest
    case Paren(sub) => [Open] + Toks(sub, [Close] + rest)
    case ImplicitCast(sub) => Toks(sub, rest)
    case Cast(tyName, sub) => [CastTo(tyName)] + Toks(sub, rest)
    case Unary(op, sub) => [Op(op)] + Toks(sub, rest)
    case Binary(l, op, r) => Toks(l, [Op(op)] + Toks(r, rest))
    case Conditional(c, t, f) => Toks(c, [Question] + Toks(t, [Colon] + Toks(f, rest)))
    case Subscript(b, i) => Toks(b, [OpenIndex] + Toks(i, [CloseIndex] + rest))
    case Member(b, access) => Toks(b, [Access(access)] + rest)
  }

  // ----- Spelling -----

  // A text without its blanks, and then the rest.
  function Squeezed(s: string, rest: string): string {
    if s == [] then rest
    else if s[0] == ' ' then Squeezed(s[1..], rest)
    else [s[0]] + Squeezed(s[1..], rest)
  }

  lemma {:induction false} SqueezedConcat(s: string, t: string, rest: string)
    ensures Squeezed(s + t, rest) == Squeezed(s, Squeezed(t, rest))
  {
    if s == [] {
      assert s + t == t;
    } else {
      assert (s + t)[0] == s[0] && (s + t)[1..] == s[1..] + t;
      SqueezedConcat(s[1..], t, rest);
    }
  }

  function Spelling(t: Token): string {
    match t
    case Leaf(e) => Print(e)
    case Open => "("
    case Close => ")"
    case OpenIndex => "["
    case CloseIndex => "]"
    case CastTo(tyName) => "(" + tyName + ")"
    case Access(text) => text
    case Op(op) => op
    case Question => "?"
    case Colon => ":"
  }

  // The spellings one after the other, without blanks.
  function Spelled(ts: seq<Token>): string {
    if ts == [] then [] else Squeezed(Spelling(ts[0]), Spelled(ts[1..]))
  }

  lemma SpelledMore(t: Token, ts: seq<Token>)
    ensures Spelled([t] + ts) == Squeezed(Spelling(t), Spelled(ts))
  {
    assert ([t] + ts)[1..] == ts;
  }

  // ----- Trees of the grammar -----

  const COMMA := 1
  const CONDITIONAL := 2
  const UNARY := 13
  const POSTFIX := 14

  // How tightly an operator binds, 0 when it is none.
  function Prec(op: string): nat {
    if op == "," then COMMA
    else if op == "||" then 3
    else if op == "&&" then 4
    else if op == "|" then 5
    else if op == "^" then 6
    else if op == "&" then 7
    else if op in ["==", "!="] then 8
    else if op in ["<", ">", "<=", ">="] then 9
    else if op in ["<<", ">>"] then 10
    else if op in ["+", "-"] then 11
    else if op in ["*", "/", "%"] then 12
    else 0
  }

  function Level(e: Expr): nat {
    match e
    case Binary(_, op, _) => Prec(op)
    case Conditional(_, _, _) => CONDITIONAL
    case Cast(_, _) => UNARY
    case Unary(_, _) => UNARY
    case ImplicitCast(sub) => Level(sub)
    case _ => POSTFIX
  }

  // Every part stands where the grammar allows it. Implicit casts are not seen.
  predicate Readable(e: Expr) {
    match e
    case Constant(_, _, _) => true
    case Variable(_, _) => true
    case ParmRef(_, _) => true
    case Paren(sub) => Readable(sub)
    case ImplicitCast(sub) => Readable(sub)
    case Cast(_, sub) => Readable(sub) && Level(sub) >= UNARY
    case Unary(_, sub) => Readable(sub) && Level(sub) >= UNARY
    case Binary(l, op, r) => Prec(op) > 0 && Readable(l) && Readable(r) && Level(l) >= Prec(op) && Level(r) > Prec(op)
    case Conditional(c, t, f) =>
      Readable(c) && Readable(t) && Readable(f) && Level(c) > CONDITIONAL && Level(f) >= CONDITIONAL
    case Subscript(b, i) => Readable(b) && Readable(i) && Level(b) == POSTFIX
    case Member(b, _) => Readable(b) && Level(b) == POSTFIX
  }

  lemma {:induction false} LevelInRange(e: Expr)
    requires Readable(e)
    ensures 1 <= Level(e) <= POSTFIX
  {
    if e.ImplicitCast? {
      LevelInRange(e.sub);
    }
  }

  // The tree without its implicit casts.
  function Bare(e: Expr): (r: Expr)
    ensures Level(r) == Level(e)
  {
    match e
    case Constant(_, _, _) => e
    case Variable(_, _) => e
    case ParmRef(_, _) => e
    case Paren(sub) => Paren(Bare(sub))
    case ImplicitCast(sub) => Bare(sub)
    case Cast(tyName, sub) => Cast(tyName, Bare(sub))
    case Unary(op, sub) => Unary(op, Bare(sub))
    case Binary(l, op, r) => Binary(Bare(l), op, Bare(r))
    case Conditional(c, t, f) => Conditional(Bare(c), Bare(t), Bare(f))
    case Subscript(b, i) => Subscript(Bare(b), Bare(i))
    case Member(b, access) => Member(Bare(b), access)
  }

  lemma {:induction false} BareReadable(e: Expr)
    ensures Readable(Bare(e)) == Readable(e)
  {
    match e
    case Constant(_, _, _) =>
    case Variable(_, _) =>
    case ParmRef(_, _) =>
    case Paren(sub) => BareReadable(sub);
    case ImplicitCast(sub) => BareReadable(sub);
    case Cast(_, sub) => BareReadable(sub);
    case Unary(_, sub) => BareReadable(sub);
    case Binary(l, _, r) => BareReadable(l); BareReadable(r);
    case Conditional(c, t, f) => BareReadable(c); BareReadable(t); BareReadable(f);
    case Subscript(b, i) => BareReadable(b); BareReadable(i);
    case Member(b, _) => BareReadable(b);
  }

  // ----- The reader -----

  // An expression and what follows it.
  datatype Reading = Reading(e: Expr, rest: seq<Token>)

  // A cast-expression.
  function ReadOperand(ts: seq<Token>): (r: Option<Reading>)
    ensures r.Some? ==> |r.value.rest| < |ts|
    decreases |ts|, 0
  {
    if ts == [] then None
    else match ts[0]
      case Leaf(e) => if IsLeaf(e) then ReadPostfix(e, ts[1..]) else None
      case Open =>
        var r := ReadClosed(ts[1..], Close);
        if r.None? then None else ReadPostfix(Paren(r.value.e), r.value.rest)
      case CastTo(tyName) =>
        var r := ReadOperand(ts[1..]);
        if r.None? then None else Some(Reading(Cast(tyName, r.value.e), r.value.rest))
      case Op(op) =>
        var r := ReadOperand(ts[1..]);
        if r.None? then None else Some(Reading(Unary(op, r.value.e), r.value.rest))
      case _ => None
  }

  // An expression and the token that ends it.
  function ReadClosed(ts: seq<Token>, close: Token): (r: Option<Reading>)
    ensures r.Some? ==> |r.value.rest| < |ts|
    decreases |ts|, 2
  {
    var r := ReadFrom(COMMA, ts);
    if r.Some? && r.value.rest != [] && r.value.rest[0] == close then Some(Reading(r.value.e, r.value.rest[1..])) else None
  }

  // The postfix operators after an expression.
  function ReadPostfix(base: Expr, ts: seq<Token>): (r: Option<Reading>)
    ensures r.Some? ==> |r.value.rest| <= |ts|
    decreases |ts|, 0
  {
    if ts == [] then Some(Reading(base, ts))
    else match ts[0]
      case OpenIndex =>
        var r := ReadClosed(ts[1..], CloseIndex);
        if r.None? then None else ReadPostfix(Subscript(base, r.value.e), r.value.rest)
      case Access(text) => ReadPostfix(Member(base, text), ts[1..])
      case _ => Some(Reading(base, ts))
  }

  // An expression of a level or a higher one.
  function ReadFrom(level: nat, ts: seq<Token>): (r: Option<Reading>)
    ensures r.Some? ==> |r.value.rest| < |ts|
    decreases |ts|, 1
  {
    var r := ReadOperand(ts);
    if r.None? then None else ReadMore(level, r.value.e, r.value.rest)
  }

  // The operators of a level or a higher one after an operand.
  function ReadMore(level: nat, lhs: Expr, ts: seq<Token>): (r: Option<Reading>)
    ensures r.Some? ==> |r.value.rest| <= |ts|
    decreases |ts|, 0
  {
    if NextPrec(ts) == 0 || NextPrec(ts) < level then Some(Reading(lhs, ts))
    else match ts[0]
      case Op(op) =>
        var r := ReadFrom(Prec(op) + 1, ts[1..]);
        if r.None? then None else ReadMore(level, Binary(lhs, op, r.value.e), r.value.rest)
      case Question =>
        var t := ReadClosed(ts[1..], Colon);
        if t.None? then None
        else
          var f := ReadFrom(CONDITIONAL, t.value.rest);
          if f.None? then None else ReadMore(level, Conditional(lhs, t.value.e, f.value.e), f.value.rest)
  }

  // How tightly the next token binds, 0 when it ends the expression.
  function NextPrec(ts: seq<Token>): (p: nat)
    ensures p > 0 ==> ts != [] && (ts[0].Op? || ts[0].Question?)
  {
    if ts == [] then 0
    else match ts[0]
      case Op(op) => Prec(op)
      case Question => CONDITIONAL
      case _ => 0
  }

  predicate StartsPostfix(ts: seq<Token>) {
    ts != [] && (ts[0].OpenIndex? || ts[0].Access?)
  }

  // A whole text.
  function Read(ts: seq<Token>): Option<Expr> {
    var r := ReadFrom(COMMA, ts);
    if r.Some? && r.value.rest == [] then Some(r.value.e) else None
  }

  // ----- Readable trees are read back -----

  // What follows an expression does not belong to it.
  predicate Ends(e: Expr, rest: seq<Token>) {
    && !StartsPostfix(rest) && NextPrec(rest) <= Level(e)
    && (Level(e) == CONDITIONAL ==> NextPrec(rest) < CONDITIONAL)
  }

  lemma Taken(t: Token, ts: seq<Token>)
    ensures ([t] + ts)[0] == t && ([t] + ts)[1..] == ts
  {
  }

  lemma {:induction false} PostfixRead(e: Expr, rest: seq<Token>)
    requires Readable(e) && Level(e) == POSTFIX
    ensures ReadOperand(Toks(e, rest)) == ReadPostfix(Bare(e), rest)
    decreases e, 0
  {
    match e
    case Constant(_, _, _) => Taken(Leaf(e), rest);
    case Variable(_, _) => Taken(Leaf(e), rest);
    case ParmRef(_, _) => Taken(Leaf(e), rest);
    case Paren(sub) =>
      Taken(Open, Toks(sub, [Close] + rest));
      ClosedRead(sub, Close, rest);
    case ImplicitCast(sub) => PostfixRead(sub, rest);
    case Subscript(b, i) =>
      PostfixRead(b, [OpenIndex] + Toks(i, [CloseIndex] + rest));
      Taken(OpenIndex, Toks(i, [CloseIndex] + rest));
      ClosedRead(i, CloseIndex, rest);
    case Member(b, access) =>
      PostfixRead(b, [Access(access)] + rest);
      Taken(Access(access), rest);
  }

  lemma {:induction false} OperandRead(e: Expr, rest: seq<Token>)
    requires Readable(e) && Level(e) >= UNARY && !StartsPostfix(rest)
    ensures ReadOperand(Toks(e, rest)) == Some(Reading(Bare(e), rest))
    decreases e, 1
  {
    LevelInRange(e);
    if Level(e) == POSTFIX {
      PostfixRead(e, rest);
    } else if e.ImplicitCast? {
      OperandRead(e.sub, rest);
    } else {
      OperandRead(e.sub, rest);
      Taken(if e.Cast? then CastTo(e.tyName) else Op(e.op), Toks(e.sub, rest));
    }
  }

  lemma {:induction false} ClosedRead(e: Expr, close: Token, rest: seq<Token>)
    requires Readable(e) && (close.Close? || close.CloseIndex? || close.Colon?)
    ensures ReadClosed(Toks(e, [close] + rest), close) == Some(Reading(Bare(e), rest))
    decreases e, 3
  {
    Taken(close, rest);
    LevelInRange(e);
    FromRead(COMMA, e, [close] + rest);
  }

  lemma {:induction false} FromRead(level: nat, e: Expr, rest: seq<Token>)
    requires level >= 1 && Readable(e) && Level(e) >= level && Ends(e, rest)
    ensures ReadFrom(level, Toks(e, rest)) == ReadMore(level, Bare(e), rest)
    decreases e, 2
  {
    LevelInRange(e);
    if Level(e) >= UNARY {
      OperandRead(e, rest);
    } else {
      match e
      case ImplicitCast(sub) => FromRead(level, sub, rest);
      case Binary(l, op, r) => BinaryRead(level, l, op, r, rest);
      case Conditional(c, t, f) => ConditionalRead(level, c, t, f, rest);
    }
  }

  lemma {:induction false} BinaryRead(level: nat, l: Expr, op: string, r: Expr, rest: seq<Token>)
    requires level >= 1 && Readable(Binary(l, op, r)) && Prec(op) >= level && Ends(Binary(l, op, r), rest)
    ensures ReadFrom(level, Toks(Binary(l, op, r), rest)) == ReadMore(level, Binary(Bare(l), op, Bare(r)), rest)
    decreases Binary(l, op, r), 1
  {
    OperatorEnds(l, op, Toks(r, rest));
    FromRead(level, l, [Op(op)] + Toks(r, rest));
    EndsRight(l, op, r, rest);
    FromRead(Prec(op) + 1, r, rest);
    OperatorTaken(level, Bare(l), op, Toks(r, rest), Bare(r), rest);
  }

  lemma OperatorEnds(l: Expr, op: string, ts: seq<Token>)
    requires 1 <= Prec(op) <= Level(l)
    ensures Ends(l, [Op(op)] + ts)
  {
    Taken(Op(op), ts);
  }

  lemma EndsRight(l: Expr, op: string, r: Expr, rest: seq<Token>)
    requires Level(r) > Prec(op) && Ends(Binary(l, op, r), rest)
    ensures Ends(r, rest) && ReadMore(Prec(op) + 1, Bare(r), rest) == Some(Reading(Bare(r), rest))
  {
  }

  lemma OperatorTaken(level: nat, lhs: Expr, op: string, ts: seq<Token>, r: Expr, rest: seq<Token>)
    requires 1 <= level <= Prec(op) && ReadFrom(Prec(op) + 1, ts) == Some(Reading(r, rest))
    ensures ReadMore(level, lhs, [Op(op)] + ts) == ReadMore(level, Binary(lhs, op, r), rest)
  {
    Taken(Op(op), ts);
  }

  lemma {:induction false} ConditionalRead(level: nat, c: Expr, t: Expr, f: Expr, rest: seq<Token>)
    requires 1 <= level <= CONDITIONAL && Readable(Conditional(c, t, f)) && Ends(Conditional(c, t, f), rest)
    ensures ReadFrom(level, Toks(Conditional(c, t, f), rest)) == ReadMore(level, Conditional(Bare(c), Bare(t), Bare(f)), rest)
    decreases Conditional(c, t, f), 1
  {
    var ts := Toks(f, rest);
    Taken(Question, Toks(t, [Colon] + ts));
    FromRead(level, c, [Question] + Toks(t, [Colon] + ts));
    ClosedRead(t, Colon, ts);
    FromRead(CONDITIONAL, f, rest);
  }

  // ----- What is read is readable -----

  // The reading of an expression from ts, down to a level.
  predicate IsReading(r: Reading, level: nat, ts: seq<Token>) {
    Readable(r.e) && Level(r.e) >= level && Toks(r.e, r.rest) == ts && !StartsPostfix(r.rest)
  }

  lemma {:induction false} OperandSound(ts: seq<Token>)
    ensures var r := ReadOperand(ts); r.Some? ==> IsReading(r.value, UNARY, ts)
    decreases |ts|, 0
  {
    if ts != [] {
      assert ts == [ts[0]] + ts[1..];
      match ts[0]
      case Leaf(e) =>
        if IsLeaf(e) {
          PostfixSound(e, ts[1..]);
        }
      case Open =>
        ClosedSound(ts[1..], Close);
        var r := ReadClosed(ts[1..], Close);
        if r.Some? {
          PostfixSound(Paren(r.value.e), r.value.rest);
        }
      case CastTo(_) => OperandSound(ts[1..]);
      case Op(_) => OperandSound(ts[1..]);
      case _ =>
    }
  }

  lemma {:induction false} ClosedSound(ts: seq<Token>, close: Token)
    ensures
      var r := ReadClosed(ts, close);
      r.Some? ==> Readable(r.value.e) && Toks(r.value.e, [close] + r.value.rest) == ts
    decreases |ts|, 2
  {
    FromSound(COMMA, ts);
    var r := ReadFrom(COMMA, ts);
    if r.Some? && r.value.rest != [] {
      assert r.value.rest == [r.value.rest[0]] + r.value.rest[1..];
    }
  }

  lemma {:induction false} PostfixSound(base: Expr, ts: seq<Token>)
    requires Readable(base) && Level(base) == POSTFIX
    ensures var r := ReadPostfix(base, ts); r.Some? ==> IsReading(r.value, POSTFIX, Toks(base, ts))
    decreases |ts|, 0
  {
    if ts != [] {
      assert ts == [ts[0]] + ts[1..];
      match ts[0]
      case OpenIndex =>
        ClosedSound(ts[1..], CloseIndex);
        var r := ReadClosed(ts[1..], CloseIndex);
        if r.Some? {
          PostfixSound(Subscript(base, r.value.e), r.value.rest);
        }
      case Access(text) => PostfixSound(Member(base, text), ts[1..]);
      case _ =>
    }
  }

  lemma {:induction false} FromSound(level: nat, ts: seq<Token>)
    requires 1 <= level <= UNARY
    ensures
      var r := ReadFrom(level, ts);
      r.Some? ==> IsReading(r.value, level, ts) && Ends(r.value.e, r.value.rest) && NextPrec(r.value.rest) < level
    decreases |ts|, 1
  {
    OperandSound(ts);
    var r := ReadOperand(ts);
    if r.Some? {
      NextInRange(r.value.rest);
      MoreSound(level, r.value.e, r.value.rest);
    }
  }

  lemma NextInRange(ts: seq<Token>)
    ensures NextPrec(ts) < UNARY
  {
  }

  lemma {:induction false} MoreSound(level: nat, lhs: Expr, ts: seq<Token>)
    requires 1 <= level <= UNARY && Readable(lhs) && Level(lhs) >= level && Ends(lhs, ts)
    ensures
      var r := ReadMore(level, lhs, ts);
      r.Some? ==> IsReading(r.value, level, Toks(lhs, ts)) && Ends(r.value.e, r.value.rest) && NextPrec(r.value.rest) < level
    decreases |ts|, 1
  {
    NextInRange(ts);
    if NextPrec(ts) >= level {
      assert ts == [ts[0]] + ts[1..];
      match ts[0]
      case Op(op) => BinarySound(level, lhs, ts);
      case Question => ConditionalSound(level, lhs, ts);
    }
  }

  lemma {:induction false} BinarySound(level: nat, lhs: Expr, ts: seq<Token>)
    requires 1 <= level && Readable(lhs) && Level(lhs) >= level && Ends(lhs, ts)
    requires ts != [] && ts[0].Op? && level <= NextPrec(ts) < UNARY
    ensures
      var r := ReadMore(level, lhs, ts);
      r.Some? ==> IsReading(r.value, level, Toks(lhs, ts)) && Ends(r.value.e, r.value.rest) && NextPrec(r.value.rest) < level
    decreases |ts|, 0
  {
    var op := ts[0].op;
    FromSound(Prec(op) + 1, ts[1..]);
    var r := ReadFrom(Prec(op) + 1, ts[1..]);
    OperatorMore(level, lhs, ts);
    if r.Some? {
      SidesTaken(level, lhs, r.value, ts);
      MoreSound(level, Binary(lhs, op, r.value.e), r.value.rest);
    }
  }

  lemma {:induction false} SidesTaken(level: nat, lhs: Expr, r: Reading, ts: seq<Token>)
    requires Readable(lhs) && Ends(lhs, ts) && ts != [] && ts[0].Op? && 1 <= level <= NextPrec(ts) < UNARY
    requires IsReading(r, Prec(ts[0].op) + 1, ts[1..]) && Ends(r.e, r.rest) && NextPrec(r.rest) < Prec(ts[0].op) + 1
    ensures
      var e := Binary(lhs, ts[0].op, r.e);
      Readable(e) && Level(e) >= level && Ends(e, r.rest) && Toks(e, r.rest) == Toks(lhs, ts)
  {
    assert ts == [ts[0]] + ts[1..];
  }

  // The step of the reader at an operator.
  lemma {:induction false} OperatorMore(level: nat, lhs: Expr, ts: seq<Token>)
    requires ts != [] && ts[0].Op? && 1 <= level <= NextPrec(ts) < UNARY
    ensures
      var op, r := ts[0].op, ReadFrom(Prec(ts[0].op) + 1, ts[1..]);
      ReadMore(level, lhs, ts) == if r.None? then None else ReadMore(level, Binary(lhs, op, r.value.e), r.value.rest)
  {
  }

  lemma {:induction false} ConditionalSound(level: nat, lhs: Expr, ts: seq<Token>)
    requires 1 <= level <= CONDITIONAL && Readable(lhs) && Level(lhs) >= level && Ends(lhs, ts)
    requires ts != [] && ts[0].Question?
    ensures
      var r := ReadMore(level, lhs, ts);
      r.Some? ==> IsReading(r.value, level, Toks(lhs, ts)) && Ends(r.value.e, r.value.rest) && NextPrec(r.value.rest) < level
    decreases |ts|, 0
  {
    assert ts == [ts[0]] + ts[1..];
    ClosedSound(ts[1..], Colon);
    var t := ReadClosed(ts[1..], Colon);
    if t.Some? {
      FromSound(CONDITIONAL, t.value.rest);
      var f := ReadFrom(CONDITIONAL, t.value.rest);
      if f.Some? {
        MoreSound(level, Conditional(lhs, t.value.e, f.value.e), f.value.rest);
      }
    }
  }

  // A tree is read back from its own tokens exactly when every part stands where the grammar allows it.
  lemma ReadBackIff(e: Expr)
    ensures Read(Toks(e, [])) == Some(Bare(e)) <==> Readable(e)
  {
    if Readable(e) {
      LevelInRange(e);
      FromRead(COMMA, e, []);
    }
    FromSound(COMMA, Toks(e, []));
    BareReadable(e);
  }

  // Of all trees with the same tokens the text is read as the one that stands in the grammar; there is but one.
  lemma ReadOnce(a: Expr, b: Expr)
    requires Readable(b) && Toks(a, []) == Toks(b, [])
    ensures Read(Toks(a, [])) == Some(Bare(b))
    ensures Readable(a) <==> Bare(a) == Bare(b)
  {
    ReadBackIff(a);
    ReadBackIff(b);
  }

  // ----- The printed text -----

  lemma PrefixSpells(t: Token, s: string, ts: seq<Token>, rest: string)
    requires Spelled(ts) == Squeezed(s, rest)
    ensures Spelled([t] + ts) == Squeezed(Spelling(t) + s, rest)
  {
    SpelledMore(t, ts);
    SqueezedConcat(Spelling(t), s, rest);
  }

  lemma SuffixSpells(s: string, t: Token, rest: seq<Token>)
    ensures Squeezed(s, Spelled([t] + rest)) == Squeezed(s + Spelling(t), Spelled(rest))
  {
    SpelledMore(t, rest);
    SqueezedConcat(s, Spelling(t), Spelled(rest));
  }

  lemma BlanksAround(op: string, s: string, rest: string)
    ensures Squeezed((" " + op + " ") + s, rest) == Squeezed(op, Squeezed(s, rest))
  {
    SqueezedConcat(" " + op + " ", s, rest);
    SqueezedConcat(" " + op, " ", Squeezed(s, rest));
    SqueezedConcat(" ", op, Squeezed(" ", Squeezed(s, rest)));
  }

  lemma OperatorSpells(s: string, op: string, t: string, ts: seq<Token>, rest: string)
    requires Spelled(ts) == Squeezed(t, rest)
    ensures Squeezed(s, Spelled([Op(op)] + ts)) == Squeezed(s + ((" " + op + " ") + t), rest)
  {
    SpelledMore(Op(op), ts);
    BlanksAround(op, t, rest);
    SqueezedConcat(s, (" " + op + " ") + t, rest);
  }

  lemma ChoiceSpells(c: string, t: string, f: string, ts: seq<Token>, fs: seq<Token>, rest: string)
    requires Spelled(fs) == Squeezed(f, rest) && Spelled(ts) == Squeezed(t, Spelled([Colon] + fs))
    ensures Squeezed(c, Spelled([Question] + ts)) == Squeezed((c + (" ? " + t)) + (" : " + f), rest)
  {
    SpelledMore(Question, ts);
    SpelledMore(Colon, fs);
    assert " " + ":" + " " == " : " && " " + "?" + " " == " ? ";
    var otherwise := " : " + f;
    BlanksAround(":", f, rest);
    BlanksAround("?", t, Squeezed(otherwise, rest));
    SqueezedConcat(c, " ? " + t, Squeezed(otherwise, rest));
    SqueezedConcat(c + (" ? " + t), otherwise, rest);
  }

  lemma IndexSpells(b: string, i: string, ts: seq<Token>, rest: seq<Token>)
    requires Spelled(ts) == Squeezed(i, Spelled([CloseIndex] + rest))
    ensures Squeezed(b, Spelled([OpenIndex] + ts)) == Squeezed((b + ("[" + i)) + "]", Spelled(rest))
  {
    PrefixSpells(OpenIndex, i, ts, Spelled([CloseIndex] + rest));
    SqueezedConcat(b, "[" + i, Spelled([CloseIndex] + rest));
    SuffixSpells(b + ("[" + i), CloseIndex, rest);
  }

  // The tokens, and what follows them, are those of the printed text.
  lemma {:induction false} PrintSpells(e: Expr, rest: seq<Token>)
    ensures Spelled(Toks(e, rest)) == Squeezed(Print(e), Spelled(rest))
    decreases e, 1
  {
    match e
    case Constant(_, _, _) => SpelledMore(Leaf(e), rest);
    case Variable(_, _) => SpelledMore(Leaf(e), rest);
    case ParmRef(_, _) => SpelledMore(Leaf(e), rest);
    case ImplicitCast(sub) => PrintSpells(sub, rest);
    case Cast(tyName, sub) =>
      PrintSpells(sub, rest);
      CastSpells(tyName, sub, rest);
    case Unary(op, sub) =>
      PrintSpells(sub, rest);
      PrefixSpells(Op(op), Print(sub), Toks(sub, rest), Spelled(rest));
    case Member(b, access) =>
      PrintSpells(b, [Access(access)] + rest);
      SuffixSpells(Print(b), Access(access), rest);
    case _ => PartsSpell(e, rest);
  }

  lemma {:induction false} CastSpells(tyName: string, sub: Expr, rest: seq<Token>)
    requires Spelled(Toks(sub, rest)) == Squeezed(Print(sub), Spelled(rest))
    ensures Spelled(Toks(Cast(tyName, sub), rest)) == Squeezed(Print(Cast(tyName, sub)), Spelled(rest))
  {
    PrefixSpells(CastTo(tyName), Print(sub), Toks(sub, rest), Spelled(rest));
  }

  lemma {:induction false} ParenSpells(sub: Expr, rest: seq<Token>)
    requires Spelled(Toks(sub, [Close] + rest)) == Squeezed(Print(sub), Spelled([Close] + rest))
    ensures Spelled(Toks(Paren(sub), rest)) == Squeezed(Print(Paren(sub)), Spelled(rest))
  {
    PrefixSpells(Open, Print(sub), Toks(sub, [Close] + rest), Spelled([Close] + rest));
    SuffixSpells("(" + Print(sub), Close, rest);
  }

  lemma {:induction false} PartsSpell(e: Expr, rest: seq<Token>)
    requires e.Binary? || e.Conditional? || e.Subscript? || e.Paren?
    ensures Spelled(Toks(e, rest)) == Squeezed(Print(e), Spelled(rest))
    decreases e, 0
  {
    match e
    case Binary(l, op, r) =>
      PrintSpells(l, [Op(op)] + Toks(r, rest));
      PrintSpells(r, rest);
      OperatorSpells(Print(l), op, Print(r), Toks(r, rest), Spelled(rest));
    case Conditional(c, t, f) =>
      PrintSpells(c, [Question] + Toks(t, [Colon] + Toks(f, rest)));
      PrintSpells(t, [Colon] + Toks(f, rest));
      PrintSpells(f, rest);
      ChoiceSpells(Print(c), Print(t), Print(f), Toks(t, [Colon] + Toks(f, rest)), Toks(f, rest), Spelled(rest));
    case Subscript(b, i) =>
      PrintSpells(b, [OpenIndex] + Toks(i, [CloseIndex] + rest));
      PrintSpells(i, [CloseIndex] + rest);
      IndexSpells(Print(b), Print(i), Toks(i, [CloseIndex] + rest), rest);
    case Paren(sub) =>
      PrintSpells(sub, [Close] + rest);
      ParenSpells(sub, rest);
  }

  // ----- Inlined expressions -----

  // A parameter that is replaced with a cast in front.
  predicate BecomesCast(e: Expr, news: seq<Expr>) {
    match e
    case ParmRef(i, _) => i < |news| && news[i].Cast?
    case ImplicitCast(sub) => BecomesCast(sub, news)
    case _ => false
  }

  // Such a parameter is what a subscript or member access is applied to.
  predicate CastMeetsPostfix(e: Expr, news: seq<Expr>) {
    match e
    case Constant(_, _, _) => false
    case Variable(_, _) => false
    case ParmRef(_, _) => false
    case Paren(sub) => CastMeetsPostfix(sub, news)
    case ImplicitCast(sub) => CastMeetsPostfix(sub, news)
    case Cast(_, sub) => CastMeetsPostfix(sub, news)
    case Unary(_, sub) => CastMeetsPostfix(sub, news)
    case Binary(l, _, r) => CastMeetsPostfix(l, news) || CastMeetsPostfix(r, news)
    case Conditional(c, t, f) => CastMeetsPostfix(c, news) || CastMeetsPostfix(t, news) || CastMeetsPostfix(f, news)
    case Subscript(b, i) => BecomesCast(b, news) || CastMeetsPostfix(b, news) || CastMeetsPostfix(i, news)
    case Member(b, _) => BecomesCast(b, news) || CastMeetsPostfix(b, news)
  }

  // A parameter becomes a cast exactly when its canonical type is not that of its argument.
  lemma {:induction false} BecomesCastIff(lang: Language, ps: seq<Parm>, args: seq<Expr>, i: nat, name: string)
    requires i < |ps| && i < |args|
    ensures BecomesCast(ParmRef(i, name), NewParmRefs(lang, ps, args)) <==> lang.canon(ps[i].tyName) != TypeOf(lang, [], args[i])
  {
    NewParmRefCastIff(lang, ps[i], args[i]);
  }

  // When the types agree none meets a postfix operator as a cast.
  lemma {:induction false} NoCastWhenTypesAgree(lang: Language, ps: seq<Parm>, args: seq<Expr>, e: Expr)
    requires forall i :: 0 <= i < |ps| && i < |args| ==> lang.canon(ps[i].tyName) == TypeOf(lang, [], args[i])
    ensures !CastMeetsPostfix(e, NewParmRefs(lang, ps, args)) && !BecomesCast(e, NewParmRefs(lang, ps, args))
  {
    match e
    case Constant(_, _, _) =>
    case Variable(_, _) =>
    case ParmRef(i, name) =>
      if i < |ps| && i < |args| {
        BecomesCastIff(lang, ps, args, i, name);
      }
    case Paren(sub) => NoCastWhenTypesAgree(lang, ps, args, sub);
    case ImplicitCast(sub) => NoCastWhenTypesAgree(lang, ps, args, sub);
    case Cast(_, sub) => NoCastWhenTypesAgree(lang, ps, args, sub);
    case Unary(_, sub) => NoCastWhenTypesAgree(lang, ps, args, sub);
    case Binary(l, _, r) =>
      NoCastWhenTypesAgree(lang, ps, args, l);
      NoCastWhenTypesAgree(lang, ps, args, r);
    case Conditional(c, t, f) =>
      NoCastWhenTypesAgree(lang, ps, args, c);
      NoCastWhenTypesAgree(lang, ps, args, t);
      NoCastWhenTypesAgree(lang, ps, args, f);
    case Subscript(b, i) =>
      NoCastWhenTypesAgree(lang, ps, args, b);
      NoCastWhenTypesAgree(lang, ps, args, i);
    case Member(b, _) => NoCastWhenTypesAgree(lang, ps, args, b);
  }

  predicate AllWrapped(news: seq<Expr>) {
    forall n :: n in news ==> Wrapped(n) && Readable(n)
  }

  lemma {:induction false} LevelSubst(e: Expr, news: seq<Expr>)
    requires AllWrapped(news)
    ensures Level(Subst(e, news)) == if BecomesCast(e, news) then UNARY else Level(e)
    ensures BecomesCast(e, news) ==> Level(e) == POSTFIX
  {
    match e
    case ImplicitCast(sub) => LevelSubst(sub, news);
    case ParmRef(i, _) =>
      if i < |news| {
        assert news[i] in news;
      }
    case _ =>
  }

  lemma {:induction false} SubstReadableIff(e: Expr, news: seq<Expr>)
    requires AllWrapped(news) && Readable(e)
    ensures Readable(Subst(e, news)) <==> !CastMeetsPostfix(e, news)
  {
    match e
    case Constant(_, _, _) =>
    case Variable(_, _) =>
    case ParmRef(i, _) =>
      if i < |news| {
        assert news[i] in news;
      }
    case Paren(sub) => SubstReadableIff(sub, news);
    case ImplicitCast(sub) => SubstReadableIff(sub, news);
    case Cast(_, sub) => SubstReadableIff(sub, news); LevelSubst(sub, news);
    case Unary(_, sub) => SubstReadableIff(sub, news); LevelSubst(sub, news);
    case Binary(l, op, r) =>
      SubstReadableIff(l, news);
      SubstReadableIff(r, news);
      BinarySubst(l, op, r, news);
    case Conditional(c, t, f) =>
      SubstReadableIff(c, news);
      SubstReadableIff(t, news);
      SubstReadableIff(f, news);
      ConditionalSubst(c, t, f, news);
    case Subscript(b, i) =>
      SubstReadableIff(b, news);
      SubstReadableIff(i, news);
      LevelSubst(b, news);
    case Member(b, _) =>
      SubstReadableIff(b, news);
      LevelSubst(b, news);
  }

  lemma BinarySubst(l: Expr, op: string, r: Expr, news: seq<Expr>)
    requires AllWrapped(news) && Readable(Binary(l, op, r))
    ensures Readable(Subst(Binary(l, op, r), news)) == (Readable(Subst(l, news)) && Readable(Subst(r, news)))
  {
    LevelSubst(l, news);
    LevelSubst(r, news);
  }

  lemma ConditionalSubst(c: Expr, t: Expr, f: Expr, news: seq<Expr>)
    requires AllWrapped(news) && Readable(Conditional(c, t, f))
    ensures Readable(Subst(Conditional(c, t, f), news)) ==
            (Readable(Subst(c, news)) && Readable(Subst(t, news)) && Readable(Subst(f, news)))
  {
    LevelSubst(c, news);
    LevelSubst(f, news);
  }

  lemma {:induction false} StrippedReadable(e: Expr)
    requires Readable(e)
    ensures Readable(Stripped(e))
  {
    match e
    case Paren(sub) => StrippedReadable(sub);
    case ImplicitCast(sub) => StrippedReadable(sub);
    case _ =>
  }

  predicate AllReadable(es: seq<Expr>) {
    forall i :: 0 <= i < |es| ==> Readable(es[i])
  }

  lemma NewParmRefsWrapped(lang: Language, ps: seq<Parm>, args: seq<Expr>)
    requires AllReadable(args)
    ensures AllWrapped(NewParmRefs(lang, ps, args))
  {
    var news := NewParmRefs(lang, ps, args);
    forall i | 0 <= i < |news|
      ensures Wrapped(news[i]) && Readable(news[i])
    {
      StrippedReadable(args[i]);
    }
  }

  // The tree that the text is to stand for: the whole is put in parentheses, once more when it is a comma expression.
  function InlinedTree(e: Expr, news: seq<Expr>): Expr {
    var tree := Subst(e, news);
    Paren(if IsComma(tree) then Paren(tree) else tree)
  }

  // The inlined text is that of the substituted tree and is read as it, exactly when no comma expression
  // with parameters stands on top, and no parameter that gets a cast is subscripted or has a member accessed.
  lemma InlinedReadsBackIff(lang: Language, ps: seq<Parm>, args: seq<Expr>, e: Expr)
    requires NamesFit(e) && Matched(e, if |ps| <= |args| then |ps| else |args|)
    requires Readable(e) && AllReadable(args)
    ensures
      var news := NewParmRefs(lang, ps, args);
      var tree := InlinedTree(e, news);
      && Spelled(Toks(tree, [])) == Squeezed(Print(tree), "")
      && (Inlined(e, news) == Print(tree) && Read(Toks(tree, [])) == Some(Bare(tree)) <==>
          !(IsComma(e) && Refs(e) != []) && !CastMeetsPostfix(e, news))
  {
    var news := NewParmRefs(lang, ps, args);
    var tree := InlinedTree(e, news);
    NewParmRefsWrapped(lang, ps, args);
    TextIsTreeIff(e, news);
    TreePrints(e, news);
    PrintSpells(tree, []);
    SubstReadableIff(e, news);
    ReadBackIff(tree);
  }

  // So when the types agree the text is read as the tree exactly when no comma expression with parameters stands on top.
  lemma {:induction false} AgreeingTypesReadBack(lang: Language, ps: seq<Parm>, args: seq<Expr>, e: Expr)
    requires NamesFit(e) && Matched(e, if |ps| <= |args| then |ps| else |args|)
    requires Readable(e) && AllReadable(args)
    requires forall i :: 0 <= i < |ps| && i < |args| ==> lang.canon(ps[i].tyName) == TypeOf(lang, [], args[i])
    ensures
      var news := NewParmRefs(lang, ps, args);
      var tree := InlinedTree(e, news);
      Inlined(e, news) == Print(tree) && Read(Toks(tree, [])) == Some(Bare(tree)) <==> !(IsComma(e) && Refs(e) != [])
  {
    InlinedReadsBackIff(lang, ps, args, e);
    NoCastWhenTypesAgree(lang, ps, args, e);
  }

  // int f(int *p) { return p[0]; } called as f(q + 1) with int *q: no cast, and the element is what is read.
  lemma {:induction false} PointerArgument(lang: Language, p: Parm, q: Expr, zero: Expr)
    requires q.Binary? && !IsComma(q) && zero.Constant? && lang.canon(p.tyName) == TypeOf(lang, [], q)
    ensures InlinedTree(Subscript(ParmRef(0, p.name), zero), NewParmRefs(lang, [p], [q])) == Paren(Subscript(Paren(q), zero))
  {
    NewParmRefCastIff(lang, p, q);
    assert Stripped(q) == q && NewParmRefs(lang, [p], [q])[0] == Paren(q);
    var news := NewParmRefs(lang, [p], [q]);
    assert Subst(ParmRef(0, p.name), news) == Paren(q) && Subst(zero, news) == zero;
    assert Subst(Subscript(ParmRef(0, p.name), zero), news) == Subscript(Paren(q), zero);
  }

  lemma TreePrints(e: Expr, news: seq<Expr>)
    ensures Print(InlinedTree(e, news)) == "(" + GetExprString(Subst(e, news)) + ")"
    ensures Readable(InlinedTree(e, news)) == Readable(Subst(e, news))
  {
  }

  // int f(int *p) { return p[0]; } called as f(a) with int a[10]: the cast is read as that of the element.
  lemma CastBindsLast(lang: Language, p: Parm, a: Expr, zero: Expr)
    requires IsLeaf(a) && IsLeaf(zero) && lang.canon(p.tyName) != TypeOf(lang, [], a)
    requires zero.Constant?
    ensures
      var news := NewParmRefs(lang, [p], [a]);
      var tree := InlinedTree(Subscript(ParmRef(0, p.name), zero), news);
      && tree == Paren(Subscript(Cast(p.tyName, Paren(a)), zero))
      && Read(Toks(tree, [])) == Some(Paren(Cast(p.tyName, Subscript(Paren(a), zero))))
  {
    var news := NewParmRefs(lang, [p], [a]);
    var e, read := Subscript(ParmRef(0, p.name), zero), Paren(Cast(p.tyName, Subscript(Paren(a), zero)));
    assert news[0] == Cast(p.tyName, Paren(a));
    assert Subst(e, news) == Subscript(Subst(ParmRef(0, p.name), news), Subst(zero, news));
    CastMoves(p.tyName, a, zero);
    assert Bare(a) == a && Bare(Paren(a)) == Paren(Bare(a)) && Bare(zero) == zero;
    assert Bare(Subscript(Paren(a), zero)) == Subscript(Bare(Paren(a)), Bare(zero));
    assert Readable(a) && Readable(zero) && Readable(Paren(a)) && Readable(Subscript(Paren(a), zero));
    ReadBackIff(read);
  }

  // With its cast a name is spelled like a cast of the subscripted name.
  lemma CastMoves(tyName: string, a: Expr, idx: Expr)
    ensures Toks(Paren(Subscript(Cast(tyName, Paren(a)), idx)), []) == Toks(Paren(Cast(tyName, Subscript(Paren(a), idx))), [])
  {
    var close: seq<Token> := [Close] + [];
    var index := [OpenIndex] + Toks(idx, [CloseIndex] + close);
    assert Toks(Subscript(Cast(tyName, Paren(a)), idx), close) == Toks(Cast(tyName, Paren(a)), index);
    assert Toks(Cast(tyName, Paren(a)), index) == [CastTo(tyName)] + Toks(Paren(a), index);
    assert Toks(Subscript(Paren(a), idx), close) == Toks(Paren(a), index);
  }
}
