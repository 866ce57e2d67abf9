/**
 * The older tokenizer (src/tokenizer.rs): the same leftmost-delimiter split with fewer
 * delimiters, and a smaller table in which a piece that is neither an operator nor a number
 * is Invalid. Its number tokens carry the parsed float, modelled by its exact decimal value
 * in normalized form (so "123" and "123.0" give equal tokens, as the f64 values are).
 */
module OldTokenizer {
  import opened Wrappers
  import opened Strings
  import opened Rationals
  import opened Decimals
  import opened Splitting
  import Ops
  import T = Tokenizer

  /** The token of the older snapshot; its `Unit` variant is never produced and is left out. */
  datatype Token =
    | Number(value: Decimal)
    | Op(op: Ops.OpType)
    | Invalid

  datatype TokenType = NumberType | OpType | InvalidType

  function GetType(t: Token): (k: TokenType)
    ensures k == NumberType <==> t.Number?
    ensures k == OpType <==> t.Op?
  {
    match t
    case Number(_) => NumberType
    case Op(_) => OpType
    case Invalid => InvalidType
  }

  function AsOp(t: Token): (r: Option<Ops.OpType>)
    ensures r.Some? <==> t.Op?
    ensures r.Some? ==> t == Op(r.value)
  {
    if t.Op? then Some(t.op) else None
  }

  function AsNr(t: Token): (r: Option<Decimal>)
    ensures r.Some? <==> t.Number?
    ensures r.Some? ==> t == Number(r.value)
  {
    if t.Number? then Some(t.value) else None
  }

  /** The delimiters of the older `split`. */
  const Delimiters := [' ', '*', '/', '+', '-', '^']

  /** The table, on an already lower-cased piece. */
  function Keyword(y: string): Option<Token> {
    if y == "*" then Some(Op(Ops.Mul))
    else if y == "/" then Some(Op(Ops.Div))
    else if y == "+" then Some(Op(Ops.Add))
    else if y == "-" then Some(Op(Ops.Sub))
    else if y == "^" then Some(Op(Ops.Pow))
    else if y == "sqrt" || y == "rt" || y == "root" then Some(Op(Ops.Root))
    else if y == "log" || y == "lg" then Some(Op(Ops.Log))
    else None
  }

  /** `_tokenize`: lower-case, then the table, then a number, else Invalid. */
  function Classify(x: string): (t: Token)
    ensures t.Invalid? <==> Keyword(ToLower(x)).None? && ParseDecimal(ToLower(x)).None?
    ensures t.Number? ==> Keyword(ToLower(x)).None? && ParseDecimal(ToLower(x)).Some?
    ensures t.Op? ==> t.op != Ops.Mod
  {
    var y := ToLower(x);
    match Keyword(y)
    case Some(t) => t
    case None =>
      match ParseDecimal(y)
      case Some(f) => Number(Normalize(f))
      case None => Invalid
  }

  /** The classification sees the piece only through its lower-case form. */
  lemma ClassifyCaseInsensitive(x: string)
    ensures Classify(ToLower(x)) == Classify(x)
  {
    ToLowerIdempotent(x);
  }

  /** Every entry of the older table is an entry of the current one, with the same operator. */
  lemma KeywordInCurrent(y: string)
    ensures Keyword(y).Some? ==> T.Keyword(y) == Some(T.Op(Keyword(y).value.op))
  {
  }

  /**
   * The current tokenizer refines this one: where it finds a variable this one has Invalid,
   * where it finds a number this one has the same float (the current token holds its
   * `From<f64>` fraction), and the operators agree except Mod, which only the current one has.
   */
  lemma CurrentRefines(x: string)
    ensures T.Classify(x).Literal? ==> Classify(x) == Invalid
    ensures T.Classify(x).Number? ==> Classify(x).Number? && T.Classify(x).value == FromFloat(Classify(x).value)
    ensures T.Classify(x).Op? && T.Classify(x).op != Ops.Mod ==> Classify(x) == Op(T.Classify(x).op)
    ensures Classify(x).Op? ==> T.Classify(x) == T.Op(Classify(x).op)
  {
    var y := ToLower(x);
    KeywordInCurrent(y);
    if T.Classify(x).Number? {
      var f := ParseDecimal(y).value;
      var n := Normalize(f);
      FromFloatDependsOnValue(n, f);
    }
  }

  /** A piece of digits is the whole number it spells. */
  lemma ClassifyInteger(x: string)
    requires |x| > 0 && AllDigits(x)
    ensures Classify(x) == Number(Decimal(DigitsValue(x), 0))
  {
    T.ToLowerDigits(x);
    T.KeywordShape(x);
    KeywordInCurrent(x);
    ParseWhole(x);
    ClassifyParsed(x, Decimal(DigitsValue(x), 0));
  }

  /** A lower-case piece that is no keyword and parses as a float is that float, normalized. */
  lemma ClassifyParsed(x: string, f: Decimal)
    requires ToLower(x) == x && Keyword(x).None? && ParseDecimal(x) == Some(f)
    ensures Classify(x) == Number(Normalize(f))
  {
  }

  /** A piece "a.b" of digits is the float ab / 10^|b|, normalized. */
  lemma ClassifyFraction(a: string, b: string)
    requires AllDigits(a) && AllDigits(b) && |b| >= 1
    ensures Classify(a + ['.'] + b) == Number(Normalize(Decimal(DigitsValue(a + b), |b|)))
  {
    T.FractionPiece(a, b);
    NoDot(a);
    NoDot(b);
    SplitOnOnce(a, '.', b);
  }

  /** The number tests: "123" and "123.0" are the float 123, ".01" is 0.01. */
  lemma ClassifyWholeExample()
    ensures Classify("123") == Number(Decimal(123, 0))
  {
    ClassifyInteger("123");
    assert DigitsValue("123") == 123 by {
      assert "123"[..2] == "12" && "12"[..1] == "1";
    }
  }

  lemma ClassifyPointZeroExample()
    ensures Classify("123.0") == Number(Decimal(123, 0))
  {
    PointZeroValue();
    ClassifyFractionIs("123", "0", Decimal(123, 0));
    assert "123" + ['.'] + "0" == "123.0";
  }

  lemma PointZeroValue()
    ensures Normalize(Decimal(DigitsValue("123" + "0"), |"0"|)) == Decimal(123, 0)
  {
    assert "123" + "0" == "1230";
    assert "1230"[..3] == "123" && "123"[..2] == "12" && "12"[..1] == "1";
    assert Normalize(Decimal(1230, 1)) == Normalize(Decimal(123, 0));
  }

  lemma ClassifyHundredthExample()
    ensures Classify(".01") == Number(Decimal(1, 2))
  {
    HundredthValue();
    ClassifyFractionIs("", "01", Decimal(1, 2));
    assert "" + ['.'] + "01" == ".01";
  }

  lemma HundredthValue()
    ensures Normalize(Decimal(DigitsValue("" + "01"), |"01"|)) == Decimal(1, 2)
  {
    assert "" + "01" == "01";
    assert "01"[..1] == "0" && "0"[..0] == "";
  }

  lemma ClassifyFractionIs(a: string, b: string, v: Decimal)
    requires AllDigits(a) && AllDigits(b) && |b| >= 1
    requires Normalize(Decimal(DigitsValue(a + b), |b|)) == v
    ensures Classify(a + ['.'] + b) == Number(v)
  {
    ClassifyFraction(a, b);
  }

  /** A word outside the table that is no number is Invalid ("a" in the tokenize test). */
  lemma ClassifyInvalidExample()
    ensures Classify("a") == Invalid
  {
    assert ToLower("a") == "a";
    T.NotDecimal("a");
  }

  lemma ClassifyKeyword(x: string, y: string, tok: Token)
    requires ToLower(x) == y && Keyword(y) == Some(tok)
    ensures Classify(x) == tok
  {
  }

  /** The single-character operators. */
  lemma ClassifyOperators()
    ensures Classify("*") == Op(Ops.Mul) && Classify("/") == Op(Ops.Div) && Classify("+") == Op(Ops.Add)
    ensures Classify("-") == Op(Ops.Sub) && Classify("^") == Op(Ops.Pow)
  {
    ClassifyKeyword("*", "*", Op(Ops.Mul));
    ClassifyKeyword("/", "/", Op(Ops.Div));
    ClassifyKeyword("+", "+", Op(Ops.Add));
    ClassifyKeyword("-", "-", Op(Ops.Sub));
    ClassifyKeyword("^", "^", Op(Ops.Pow));
  }

  /** The spellings of Root and Log, in any letter case. */
  lemma ClassifyWords()
    ensures Classify("SQRT") == Op(Ops.Root) && Classify("rt") == Op(Ops.Root) && Classify("Root") == Op(Ops.Root)
    ensures Classify("log") == Op(Ops.Log) && Classify("LG") == Op(Ops.Log)
  {
    ClassifyKeyword("SQRT", "sqrt", Op(Ops.Root));
    ClassifyKeyword("rt", "rt", Op(Ops.Root));
    ClassifyKeyword("Root", "root", Op(Ops.Root));
    ClassifyKeyword("log", "log", Op(Ops.Log));
    ClassifyKeyword("LG", "lg", Op(Ops.Log));
  }

  /** `tokenize`: `_tokenize` applied to every piece of `split`. */
  function TokenStream(s: string): (ts: seq<Token>)
    ensures |ts| == |Pieces(s, Delimiters)|
  {
    var pieces := Pieces(s, Delimiters);
    seq(|pieces|, i requires 0 <= i < |pieces| => Classify(pieces[i]))
  }

  method Tokenize(s: string) returns (ts: seq<Token>)
    ensures |ts| == |Pieces(s, Delimiters)|
    ensures forall i :: 0 <= i < |ts| ==> ts[i] == Classify(Pieces(s, Delimiters)[i])
    ensures ts == TokenStream(s)
  {
    var pieces := Split(s, Delimiters);
    ts := seq(|pieces|, i requires 0 <= i < |pieces| => Classify(pieces[i]));
  }

  /** The pieces are the line without its spaces, each non-empty, each a delimiter or a word. */
  lemma SplitContract(s: string)
    ensures Concat(Pieces(s, Delimiters)) == DropSpaces(s)
    ensures forall i :: 0 <= i < |Pieces(s, Delimiters)| ==> WellFormedPiece(Pieces(s, Delimiters)[i], Delimiters)
  {
    PiecesConcat(s, Delimiters);
    PiecesShape(s, Delimiters);
  }

  /** The root test: "sqrt a ^ b" keeps the '^' and drops the spaces. */
  lemma SplitRoot(a: string, b: string)
    requires IsWord(a, Delimiters) && IsWord(b, Delimiters)
    ensures Pieces("sqrt " + a + " ^ " + b, Delimiters) == ["sqrt", a, "^", b]
  {
    SqrtWord();
    T.RootLineShape(a, b);
    PiecesAroundDelimiter("sqrt", a, '^', b, Delimiters);
  }

  lemma SqrtWord()
    ensures IsWord("sqrt", Delimiters)
  {
  }

  /** The log test: "log a b" splits into the three words. */
  lemma SplitLog(a: string, b: string)
    requires IsWord(a, Delimiters) && IsWord(b, Delimiters)
    ensures Pieces("log " + a + " " + b, Delimiters) == ["log", a, b]
  {
    assert IsWord("log", Delimiters);
    PiecesThreeWords("log", a, b, Delimiters);
    assert "log " + a + " " + b == "log" + " " + a + " " + b;
  }

  /** The slash test: "a/ b*/////" gives a, "/", b, "*" and five separate "/" (n of them in general). */
  lemma SplitSlashes(a: string, b: string, n: nat)
    requires IsWord(a, Delimiters) && IsWord(b, Delimiters)
    ensures Pieces(a + "/ " + b + "*" + seq(n, _ => '/'), Delimiters) == [a, "/", b, "*"] + seq(n, _ => "/")
  {
    var r := seq(n, _ => '/');
    PiecesRun('/', n, Delimiters);
    T.SlashLineShape(a, b, r);
    PiecesDelimitedPair(a, '/', b, '*', r, Delimiters);
  }

  /** "a 1*123", with any words in place of a, 1 and 123: each word and the '*' is a token. */
  lemma TokenizeWords(x: string, y: string, z: string)
    requires IsWord(x, Delimiters) && IsWord(y, Delimiters) && IsWord(z, Delimiters)
    ensures TokenStream(x + " " + y + "*" + z) == [Classify(x), Classify(y), Op(Ops.Mul), Classify(z)]
  {
    PiecesSpaceThenDelimiter(x, y, '*', z, Delimiters);
    ClassifyKeyword("*", "*", Op(Ops.Mul));
    TokenStreamOfFour(x + " " + y + "*" + z, x, y, "*", z);
  }

  lemma TokenStreamOfFour(s: string, a: string, b: string, c: string, d: string)
    requires Pieces(s, Delimiters) == [a, b, c, d]
    ensures TokenStream(s) == [Classify(a), Classify(b), Classify(c), Classify(d)]
  {
  }

  /** The tokenize test: "a 1*123" is Invalid, then 1, *, 123. */
  lemma TokenizeExample()
    ensures TokenStream("a 1*123") == [Invalid, Number(Decimal(1, 0)), Op(Ops.Mul), Number(Decimal(123, 0))]
  {
    ExampleWords();
    TokenizeWords("a", "1", "123");
    ExampleLine();
    ExampleClassified();
  }

  /** The classifications of the example's four pieces. */
  lemma ExampleClassified()
    ensures [Classify("a"), Classify("1"), Op(Ops.Mul), Classify("123")] ==
      [Invalid, Number(Decimal(1, 0)), Op(Ops.Mul), Number(Decimal(123, 0))]
  {
    ClassifyInvalidExample();
    ClassifyInteger("1");
    ClassifyWholeExample();
  }

  lemma ExampleWords()
    ensures IsWord("a", Delimiters) && IsWord("1", Delimiters) && IsWord("123", Delimiters)
  {
  }

  lemma ExampleLine()
    ensures "a" + " " + "1" + "*" + "123" == "a 1*123"
  {
  }
}
