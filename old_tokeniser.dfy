/**
 * The oldest tokeniser (src/tokeniser.rs): split the line at every single space and classify
 * each piece through a table that knows `rt`/`root` but not `sqrt`. It produces the tokens of
 * the older tokenizer.
 */
module OldTokeniser {
  import opened Wrappers
  import opened Strings
  import opened Decimals
  import Ops
  import opened OldTokenizer

  /** The table of `_tokenise`, on an already lower-cased piece. */
  function TableEntry(y: string): Option<Token> {
    if y == "*" then Some(Op(Ops.Mul))
    else if y == "/" then Some(Op(Ops.Div))
    else if y == "+" then Some(Op(Ops.Add))
    else if y == "-" then Some(Op(Ops.Sub))
    else if y == "^" then Some(Op(Ops.Pow))
    else if y == "rt" || y == "root" then Some(Op(Ops.Root))
    else if y == "log" || y == "lg" then Some(Op(Ops.Log))
    else None
  }

  /** `_tokenise`: lower-case, then the table, then a number, else Invalid. */
  function ClassifyPiece(x: string): (t: Token)
    ensures t.Invalid? <==> TableEntry(ToLower(x)).None? && ParseDecimal(ToLower(x)).None?
  {
    var y := ToLower(x);
    match TableEntry(y)
    case Some(t) => t
    case None =>
      match ParseDecimal(y)
      case Some(f) => Number(Normalize(f))
      case None => Invalid
  }

  /** `tokenise`: one token per piece between single spaces. */
  function Tokenise(s: string): (ts: seq<Token>)
    ensures |ts| == CountChar(s, ' ') + 1
    ensures forall i :: 0 <= i < |ts| ==> ts[i] == ClassifyPiece(SplitOn(s, ' ')[i])
  {
    var pieces := SplitOn(s, ' ');
    seq(|pieces|, i requires 0 <= i < |pieces| => ClassifyPiece(pieces[i]))
  }

  /** The table is the older tokenizer's without `sqrt`, so only "sqrt" is classified differently. */
  lemma ClassifyPieceDiffers(x: string)
    ensures ClassifyPiece(x) == if ToLower(x) == "sqrt" then Invalid else Classify(x)
  {
    if ToLower(x) == "sqrt" {
      var y := ToLower(x);
      T.NotDecimal(y);
    }
  }

  /** "sqrt" is not recognised: it is Invalid, while "rt" and "Root" are Root. */
  lemma ClassifyRoots()
    ensures ClassifyPiece("sqrt") == Invalid
    ensures ClassifyPiece("rt") == Op(Ops.Root) && ClassifyPiece("Root") == Op(Ops.Root)
  {
    ClassifyPieceDiffers("sqrt");
    assert ToLower("sqrt") == "sqrt";
    assert ToLower("rt") == "rt";
    assert ToLower("Root") == "root";
  }

  /** The classification sees the piece only through its lower-case form. */
  lemma ClassifyPieceCaseInsensitive(x: string)
    ensures ClassifyPiece(ToLower(x)) == ClassifyPiece(x)
  {
    ToLowerIdempotent(x);
  }

  /** The empty piece is Invalid, as no float parses from it. */
  lemma EmptyPieceInvalid()
    ensures ClassifyPiece("") == Invalid
  {
    assert ToLower("") == "";
    assert SplitOn("", '.') == [""];
  }

  /** Two spaces in a row leave an empty, Invalid piece between the words around them. */
  lemma DoubleSpace(a: string, b: string)
    requires ' ' !in a && ' ' !in b
    ensures Tokenise(a + "  " + b) == [ClassifyPiece(a), Invalid, ClassifyPiece(b)]
  {
    assert a + "  " + b == a + [' '] + ("" + [' '] + b);
    SplitOnFirst(a, ' ', "" + [' '] + b);
    SplitOnFirst("", ' ', b);
    assert "" + [' '] + b == [' '] + b;
    SplitOnAbsent(b, ' ');
    EmptyPieceInvalid();
  }
}
