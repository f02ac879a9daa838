/**
 How the new index that clang_delta/ReduceArrayDim.cpp:343-354 writes for a subscript is read:
 it puts no parentheses around the last index.
 */
module SubscriptReading {
  import opened Wrappers
  import opened CallInlining
  import opened ExprReading

  // An index as it is written: a comma expression is put in parentheses.
  function Written(e: Expr): Expr {
    if IsComma(e) then Paren(e) else e
  }

  // The three forms with operands that are written out: for one row, for row 1 and for any other row.
  function OneRowIndex(secE: Expr, lastE: Expr): Expr {
    Binary(Written(secE), "+", Written(lastE))
  }

  function SecondRowIndex(size: Expr, lastE: Expr): Expr {
    Binary(size, "+", Written(lastE))
  }

  function ProductIndex(secE: Expr, size: Expr, lastE: Expr): Expr {
    Binary(Binary(Paren(Written(secE)), "*", size), "+", Written(lastE))
  }

  // The text of an expression is read as the expression.
  predicate ReadsBack(e: Expr) {
    Read(Toks(e, [])) == Some(Bare(e))
  }

  // What may stand on the right of a sum, and on the left.
  predicate BindsTighter(e: Expr) {
    Level(Written(e)) > Prec("+")
  }

  predicate BindsAsTightly(e: Expr) {
    Level(Written(e)) >= Prec("+")
  }

  lemma {:induction false} Precs()
    ensures Prec("+") == 11 && Prec("*") == 12 && Prec("&") == 7
  {
    assert "+"[0] == '+' && "*"[0] == '*' && "&"[0] == '&';
  }

  // Each form is read as it is meant exactly when the operands without parentheses bind tightly enough.
  lemma {:induction false} NewIndexReadsIff(secE: Expr, lastE: Expr, size: Expr)
    requires Readable(secE) && Readable(lastE) && size.Constant?
    ensures ReadsBack(OneRowIndex(secE, lastE)) <==> BindsAsTightly(secE) && BindsTighter(lastE)
    ensures ReadsBack(SecondRowIndex(size, lastE)) <==> BindsTighter(lastE)
    ensures ReadsBack(ProductIndex(secE, size, lastE)) <==> BindsTighter(lastE)
  {
    ReadBackIff(OneRowIndex(secE, lastE));
    ReadBackIff(SecondRowIndex(size, lastE));
    ReadBackIff(ProductIndex(secE, size, lastE));
    WrittenReadable(secE);
    WrittenReadable(lastE);
    ProductReadable(Written(secE), size);
    SumReadable(Written(secE), Written(lastE));
    SumReadable(size, Written(lastE));
    SumReadable(Binary(Paren(Written(secE)), "*", size), Written(lastE));
  }

  lemma {:induction false} SumReadable(l: Expr, r: Expr)
    ensures Readable(Binary(l, "+", r)) <==>
            Readable(l) && Readable(r) && Level(l) >= Prec("+") && Level(r) > Prec("+")
  {
    Precs();
  }

  lemma {:induction false} WrittenReadable(e: Expr)
    ensures Readable(Written(e)) == Readable(e)
  {
  }

  lemma {:induction false} ProductReadable(e: Expr, size: Expr)
    requires Readable(e) && IsLeaf(size)
    ensures Readable(Binary(Paren(e), "*", size)) && Level(Binary(Paren(e), "*", size)) >= Prec("+")
    ensures Readable(size) && Level(size) >= Prec("+")
  {
    Precs();
    assert Readable(Paren(e));
  }

  lemma {:induction false} OperandsReadable(l: Expr, op: string, r: Expr)
    requires Readable(l) && Readable(r) && 0 < Prec(op) <= Level(l) && Prec(op) < Level(r)
    ensures Readable(Binary(l, op, r))
  {
  }

  lemma {:induction false} OperandsBare(l: Expr, op: string, r: Expr)
    requires Bare(l) == l && Bare(r) == r
    ensures Bare(Binary(l, op, r)) == Binary(l, op, r)
  {
  }

  // a[i][j & 1] becomes a[(i)*n+j & 1], which is read as a[((i)*n+j) & 1].
  lemma {:induction false} MaskMoves(i: Expr, j: Expr, one: Expr, size: Expr)
    requires i.Variable? && j.Variable? && one.Constant? && size.Constant?
    ensures
      var product := Binary(Paren(i), "*", size);
      var index := ProductIndex(i, size, Binary(j, "&", one));
      && index == Binary(product, "+", Binary(j, "&", one))
      && Read(Toks(index, [])) == Some(Binary(Binary(product, "+", j), "&", one))
  {
    var product := Binary(Paren(i), "*", size);
    var sum := Binary(product, "+", j);
    Precs();
    assert "&"[0] != ","[0];
    ProductReadable(i, size);
    SumReadable(product, j);
    OperandsReadable(sum, "&", one);
    assert Bare(Paren(i)) == Paren(i);
    OperandsBare(Paren(i), "*", size);
    OperandsBare(product, "+", j);
    OperandsBare(sum, "&", one);
    ReadOnce(Binary(product, "+", Binary(j, "&", one)), Binary(sum, "&", one));
  }
}
