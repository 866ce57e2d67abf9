/**
 * The current tokenizer (core/src/tokenizer.rs): split the line at the delimiters, then
 * classify each piece through a fixed case-insensitive table, as a number, or as a
 * lower-cased variable name.
 */
module Tokenizer {
  import opened Wrappers
  import opened NumberTheory
  import opened Strings
  import opened Rationals
  import opened Decimals
  import opened Splitting
  import Ops

  datatype TokenType = NumberType | OpType | OpenPType | ClosePType | LiteralType | EqType | InvalidType

  datatype Token =
    | Number(value: Rational)
    | Op(op: Ops.OpType)
    | OpenP
    | CloseP
    | Literal(name: string)
    | Eq
    | Invalid

  /** Options selected by the prefix before '#'. */
  datatype TokenizerOptions = TokenizerOptions(debug: bool, asFloat: bool)

  const DefaultOptions := TokenizerOptions(false, false)

  /** The delimiters of `split`. */
  const Delimiters := [' ', '*', '/', '+', '-', '^', '(', ')', '%', '=']

  function GetType(t: Token): (k: TokenType) {
    match t
    case Number(_) => NumberType
    case Op(_) => OpType
    case OpenP => OpenPType
    case CloseP => ClosePType
    case Literal(_) => LiteralType
    case Eq => EqType
    case Invalid => InvalidType
  }

  /** The operator of an operator token. */
  function AsOpType(t: Token): (r: Option<Ops.OpType>)
    ensures r.Some? <==> GetType(t) == OpType
    ensures r.Some? ==> t == Op(r.value)
  {
    if t.Op? then Some(t.op) else None
  }

  /** The value of a number token. */
  function AsNr(t: Token): (r: Option<Rational>)
    ensures r.Some? <==> GetType(t) == NumberType
    ensures r.Some? ==> t == Number(r.value)
  {
    if t.Number? then Some(t.value) else None
  }

  /** The fixed part of the table, on an already lower-cased piece. */
  function Keyword(y: string): Option<Token> {
    if y == "*" then Some(Op(Ops.Mul))
    else if y == "/" then Some(Op(Ops.Div))
    else if y == "+" then Some(Op(Ops.Add))
    else if y == "-" then Some(Op(Ops.Sub))
    else if y == "^" then Some(Op(Ops.Pow))
    else if y == "sqrt" || y == "rt" || y == "root" then Some(Op(Ops.Root))
    else if y == "log" || y == "lg" then Some(Op(Ops.Log))
    else if y == "(" then Some(OpenP)
    else if y == ")" then Some(CloseP)
    else if y == "%" then Some(Op(Ops.Mod))
    else if y == "=" then Some(Eq)
    else None
  }

  /** `_tokenize`: lower-case, then the table, then a number, else a variable name. */
  function Classify(x: string): (t: Token)
    ensures t != Invalid
    ensures t.Literal? ==> t.name == ToLower(x) && Keyword(ToLower(x)).None? && ParseDecimal(ToLower(x)).None?
    ensures t.Number? ==> Keyword(ToLower(x)).None? && ParseDecimal(ToLower(x)).Some?
  {
    var y := ToLower(x);
    match Keyword(y)
    case Some(t) => t
    case None =>
      match ParseDecimal(y)
      case Some(f) => Number(FromFloat(f))
      case None => Literal(y)
  }

  /** A number token holds the literal's value in lowest terms. */
  lemma ClassifyNumberValue(x: string)
    requires Classify(x).Number?
    ensures var f := ParseDecimal(ToLower(x)).value;
      IsReduced(Classify(x).value) && SameValue(Classify(x).value, Rational(f.m, Pow10(f.k)))
  {
    FromFloatNormal(ParseDecimal(ToLower(x)).value);
  }

  /** The classification sees the piece only through its lower-case form. */
  lemma ClassifyCaseInsensitive(x: string)
    ensures Classify(ToLower(x)) == Classify(x)
  {
    ToLowerIdempotent(x);
  }

  lemma ClassifyKeyword(x: string, y: string, t: Token)
    requires ToLower(x) == y && Keyword(y) == Some(t)
    ensures Classify(x) == t
  {
  }

  lemma ClassifyDecimal(x: string, y: string, f: Decimal)
    requires ToLower(x) == y && Keyword(y).None? && ParseDecimal(y) == Some(f)
    ensures Classify(x) == Number(FromFloat(f))
  {
  }

  /** The single-character operators. */
  lemma ClassifyOperators()
    ensures Classify("*") == Op(Ops.Mul) && Classify("/") == Op(Ops.Div) && Classify("+") == Op(Ops.Add)
    ensures Classify("-") == Op(Ops.Sub) && Classify("^") == Op(Ops.Pow) && Classify("%") == Op(Ops.Mod)
  {
    ClassifyKeyword("*", "*", Op(Ops.Mul));
    ClassifyKeyword("/", "/", Op(Ops.Div));
    ClassifyKeyword("+", "+", Op(Ops.Add));
    ClassifyKeyword("-", "-", Op(Ops.Sub));
    ClassifyKeyword("^", "^", Op(Ops.Pow));
    ClassifyKeyword("%", "%", Op(Ops.Mod));
  }

  /** The spellings of Root and Log, in any letter case. */
  lemma ClassifyWords()
    ensures Classify("sqrt") == Op(Ops.Root) && Classify("RT") == Op(Ops.Root) && Classify("Root") == Op(Ops.Root)
    ensures Classify("log") == Op(Ops.Log) && Classify("LG") == Op(Ops.Log)
  {
    ClassifyKeyword("sqrt", "sqrt", Op(Ops.Root));
    ClassifyKeyword("RT", "rt", Op(Ops.Root));
    ClassifyKeyword("Root", "root", Op(Ops.Root));
    ClassifyKeyword("log", "log", Op(Ops.Log));
    ClassifyKeyword("LG", "lg", Op(Ops.Log));
  }

  /** Parentheses and the assignment sign. */
  lemma ClassifyPunctuation()
    ensures Classify("(") == OpenP && Classify(")") == CloseP && Classify("=") == Eq
  {
    ClassifyKeyword("(", "(", OpenP);
    ClassifyKeyword(")", ")", CloseP);
    ClassifyKeyword("=", "=", Eq);
  }

  /** No table entry is numeric or contains '.'. */
  lemma KeywordShape(y: string)
    ensures Keyword(y).Some? ==> '.' !in y && exists i :: 0 <= i < |y| && !IsDigit(y[i])
  {
    if Keyword(y).Some? {
      assert !IsDigit(y[0]);
    }
  }

  lemma ToLowerDigits(s: string)
    requires AllDigits(s)
    ensures ToLower(s) == s
  {
  }

  /** A piece of digits is the whole number it spells ("123" is 123/1). */
  lemma ClassifyInteger(x: string)
    requires |x| > 0 && AllDigits(x)
    ensures Classify(x) == Number(Rational(DigitsValue(x), 1))
  {
    ToLowerDigits(x);
    KeywordShape(x);
    ParseWhole(x);
    FromFloatInteger(DigitsValue(x));
  }

  /** A piece "a.b" of digits is the reduced fraction ab / 10^|b| (".01" is 1/100). */
  lemma ClassifyFraction(a: string, b: string)
    requires AllDigits(a) && AllDigits(b) && |b| >= 1
    ensures Classify(a + ['.'] + b) == Number(Reduce(Rational(DigitsValue(a + b), Pow10(|b|))))
  {
    FractionPiece(a, b);
    NoDot(a);
    NoDot(b);
    SplitOnOnce(a, '.', b);
    ClassifyDecimalValue(a + ['.'] + b, DigitsValue(a + b), |b|);
  }

  lemma ClassifyDecimalValue(x: string, m: int, k: nat)
    requires ToLower(x) == x && Keyword(x).None? && ParseDecimal(x) == Some(Decimal(m, k))
    ensures Classify(x) == Number(Reduce(Rational(m, Pow10(k))))
  {
    FromFloatValue(Decimal(m, k));
  }

  lemma FractionPiece(a: string, b: string)
    requires AllDigits(a) && AllDigits(b)
    ensures ToLower(a + ['.'] + b) == a + ['.'] + b && Keyword(a + ['.'] + b).None?
  {
    ToLowerDigits(a);
    ToLowerDigits(b);
    KeywordShape(a + ['.'] + b);
    assert (a + ['.'] + b)[|a|] == '.';
  }

  lemma ClassifyParsed(x: string, f: Decimal)
    requires ToLower(x) == x && Keyword(x).None? && ParseDecimal(x) == Some(f)
    ensures Classify(x) == Number(FromFloat(f))
  {
  }

  predicate IsLetter(c: char) {
    'a' <= c <= 'z' || 'A' <= c <= 'Z'
  }

  /** A word of letters outside the table is a variable under its lower-case name. */
  lemma ClassifyName(x: string)
    requires |x| > 0 && (forall i :: 0 <= i < |x| ==> IsLetter(x[i])) && Keyword(ToLower(x)).None?
    ensures Classify(x) == Literal(ToLower(x))
  {
    var y := ToLower(x);
    assert forall i :: 0 <= i < |y| ==> IsLetter(y[i]);
    assert '.' !in y;
    NotDecimal(y);
    ClassifyUnparsed(x);
  }

  lemma NotDecimal(y: string)
    requires |y| > 0 && '.' !in y && !IsDigit(y[0])
    ensures ParseDecimal(y).None?
  {
    SplitOnAbsent(y, '.');
  }

  lemma ClassifyUnparsed(x: string)
    requires Keyword(ToLower(x)).None? && ParseDecimal(ToLower(x)).None?
    ensures Classify(x) == Literal(ToLower(x))
  {
  }

  /** The number tests: "1" and "123" are whole numbers. */
  lemma ClassifyOneExample()
    ensures Classify("1") == Number(Rational(1, 1))
  {
    ClassifyInteger("1");
  }

  lemma ClassifyWholeExample()
    ensures Classify("123") == Number(Rational(123, 1))
  {
    ClassifyInteger("123");
    assert DigitsValue("123") == 123 by {
      assert "123"[..2] == "12" && "12"[..1] == "1";
    }
  }

  /** "123.0" is the whole number 123. */
  lemma ClassifyPointZeroExample()
    ensures Classify("123.0") == Number(Rational(123, 1))
  {
    PointZeroValue();
    ClassifyFractionIs("123", "0", Rational(123, 1));
    assert "123" + ['.'] + "0" == "123.0";
  }

  lemma PointZeroValue()
    ensures DigitsValue("123" + "0") == 1230 && Reduce(Rational(1230, Pow10(1))) == Rational(123, 1)
  {
    assert "123" + "0" == "1230";
    assert "1230"[..3] == "123" && "123"[..2] == "12" && "12"[..1] == "1";
    ReduceCanonical(Rational(1230, 10), Rational(123, 1));
    GcdOne(123);
    ReduceFixesReduced(Rational(123, 1));
  }

  /** ".01" is 1/100. */
  lemma ClassifyHundredthExample()
    ensures Classify(".01") == Number(Rational(1, 100))
  {
    HundredthValue();
    ClassifyFractionIs("", "01", Rational(1, 100));
    assert "" + ['.'] + "01" == ".01";
  }

  lemma HundredthValue()
    ensures DigitsValue("" + "01") == 1 && Reduce(Rational(1, Pow10(2))) == Rational(1, 100)
  {
    assert "" + "01" == "01";
    assert "01"[..1] == "0" && "0"[..0] == "";
    assert GcdOf(1, 100) == 1 by {
      assert GcdOf(1, 100) == GcdOf(100, 1) == GcdOf(1, 0);
    }
    ReduceFixesReduced(Rational(1, 100));
  }

  lemma ClassifyFractionIs(a: string, b: string, v: Rational)
    requires AllDigits(a) && AllDigits(b) && |b| >= 1
    requires Reduce(Rational(DigitsValue(a + b), Pow10(|b|))) == v
    ensures Classify(a + ['.'] + b) == Number(v)
  {
    ClassifyFraction(a, b);
  }

  /** "A" is the variable "a". */
  lemma ClassifyUpperExample()
    ensures Classify("A") == Literal("a")
  {
    ClassifyName("A");
    assert ToLower("A") == "a";
  }

  /**
   * No delimiter separates a digit from a letter, so "2x" is one piece, and as it is no number
   * it becomes the variable name "2x"; a Mul is inserted only in "2 x".
   */
  lemma ClassifyGluedExample()
    ensures Classify("2x") == Literal("2x")
  {
    assert ToLower("2x") == "2x";
    SplitOnAbsent("2x", '.');
    assert !IsDigit("2x"[1]);
    ClassifyUnparsed("2x");
  }

  /** `tokenize`: `_tokenize` applied to every piece of `split`. */
  function TokenStream(s: string): (ts: seq<Token>)
    ensures |ts| == |Pieces(s, Delimiters)|
  {
    var pieces := Pieces(s, Delimiters);
    seq(|pieces|, i requires 0 <= i < |pieces| => Classify(pieces[i]))
  }

  method Tokenize(s: string) returns (ts: seq<Token>)
    ensures |ts| == |Pieces(s, Delimiters)|
    ensures forall i :: 0 <= i < |ts| ==> ts[i] == Classify(Pieces(s, Delimiters)[i])
    ensures ts == TokenStream(s)
  {
    var pieces := Split(s, Delimiters);
    ts := seq(|pieces|, i requires 0 <= i < |pieces| => Classify(pieces[i]));
  }

  /** `dbg_tokenize`: every piece paired with its token. */
  method DbgTokenize(s: string) returns (ps: seq<(string, Token)>)
    ensures |ps| == |Pieces(s, Delimiters)|
    ensures forall i :: 0 <= i < |ps| ==> ps[i] == (Pieces(s, Delimiters)[i], Classify(Pieces(s, Delimiters)[i]))
    ensures forall i :: 0 <= i < |ps| ==> ps[i].1 == TokenStream(s)[i]
  {
    var pieces := Split(s, Delimiters);
    ps := seq(|pieces|, i requires 0 <= i < |pieces| => (pieces[i], Classify(pieces[i])));
  }

  /** A tokenized line never holds an Invalid token. */
  lemma TokenStreamValid(s: string)
    ensures Invalid !in TokenStream(s)
  {
  }

  /** The log test, for any two operand words: "log a b" splits into the three words. */
  lemma SplitLog(a: string, b: string)
    requires IsWord(a, Delimiters) && IsWord(b, Delimiters)
    ensures Pieces("log " + a + " " + b, Delimiters) == ["log", a, b]
  {
    assert IsWord("log", Delimiters);
    PiecesThreeWords("log", a, b, Delimiters);
    assert "log " + a + " " + b == "log" + " " + a + " " + b;
  }

  /** The root test: "sqrt a ^ b" keeps the '^' and drops the spaces. */
  lemma SplitRoot(a: string, b: string)
    requires IsWord(a, Delimiters) && IsWord(b, Delimiters)
    ensures Pieces("sqrt " + a + " ^ " + b, Delimiters) == ["sqrt", a, "^", b]
  {
    SqrtWord();
    RootLineShape(a, b);
    PiecesAroundDelimiter("sqrt", a, '^', b, Delimiters);
  }

  lemma SqrtWord()
    ensures IsWord("sqrt", Delimiters)
  {
  }

  lemma RootLineShape(a: string, b: string)
    ensures "sqrt " + a + " ^ " + b == "sqrt" + " " + a + " " + ['^'] + " " + b
  {
  }

  /** The slash test: "a/ b*/////" gives a, "/", b, "*" and five separate "/" (n of them in general). */
  lemma SplitSlashes(a: string, b: string, n: nat)
    requires IsWord(a, Delimiters) && IsWord(b, Delimiters)
    ensures Pieces(a + "/ " + b + "*" + seq(n, _ => '/'), Delimiters) == [a, "/", b, "*"] + seq(n, _ => "/")
  {
    var r := seq(n, _ => '/');
    PiecesRun('/', n, Delimiters);
    SlashLineShape(a, b, r);
    PiecesDelimitedPair(a, '/', b, '*', r, Delimiters);
  }

  lemma SlashLineShape(a: string, b: string, r: string)
    ensures a + "/ " + b + "*" + r == a + ['/'] + " " + b + ['*'] + r
  {
  }

  /** "a 1*123", with any words in place of a, 1 and 123: each word and the '*' is a token. */
  lemma TokenizeWords(x: string, y: string, z: string)
    requires IsWord(x, Delimiters) && IsWord(y, Delimiters) && IsWord(z, Delimiters)
    ensures TokenStream(x + " " + y + "*" + z) == [Classify(x), Classify(y), Op(Ops.Mul), Classify(z)]
  {
    PiecesSpaceThenDelimiter(x, y, '*', z, Delimiters);
    ClassifyStar();
    TokenStreamOfFour(x + " " + y + "*" + z, x, y, "*", z);
  }

  lemma TokenStreamOfFour(s: string, a: string, b: string, c: string, d: string)
    requires Pieces(s, Delimiters) == [a, b, c, d]
    ensures TokenStream(s) == [Classify(a), Classify(b), Classify(c), Classify(d)]
  {
  }

  /** The tokenize test: "a 1*123" is the variable a, then 1, *, 123. */
  lemma TokenizeExample()
    ensures TokenStream("a 1*123") == [Literal("a"), Number(Rational(1, 1)), Op(Ops.Mul), Number(Rational(123, 1))]
  {
    ExampleWords();
    TokenizeWords("a", "1", "123");
    ExampleLine();
    ClassifyLowerExample();
    ClassifyOneExample();
    ClassifyWholeExample();
  }

  lemma ExampleWords()
    ensures IsWord("a", Delimiters) && IsWord("1", Delimiters) && IsWord("123", Delimiters)
  {
  }

  lemma ExampleLine()
    ensures "a" + " " + "1" + "*" + "123" == "a 1*123"
  {
  }

  lemma ClassifyLowerExample()
    ensures Classify("a") == Literal("a")
  {
    ClassifyName("a");
    assert ToLower("a") == "a";
  }

  lemma ClassifyStar()
    ensures Classify("*") == Op(Ops.Mul)
  {
    ClassifyKeyword("*", "*", Op(Ops.Mul));
  }

  /** `pre_tokenize`: the options are the 'd' and 'f' before the first '#'; the rest follows it. */
  method PreTokenize(s: string) returns (rest: string, opts: TokenizerOptions)
    ensures Find(s, '#').None? ==> rest == s && opts == DefaultOptions
    ensures Find(s, '#').Some? ==>
      var k := Find(s, '#').value;
      rest == s[k + 1..] && opts.debug == ('d' in s[..k]) && opts.asFloat == ('f' in s[..k])
  {
    opts := DefaultOptions;
    var found := Find(s, '#');
    if found.Some? {
      var k := found.value;
      var i := 0;
      while i < k
        invariant 0 <= i <= k && opts.debug == ('d' in s[..i]) && opts.asFloat == ('f' in s[..i])
      {
        assert s[..i + 1] == s[..i] + [s[i]];
        if s[i] == 'd' {
          opts := opts.(debug := true);
        } else if s[i] == 'f' {
          opts := opts.(asFloat := true);
        }
        i := i + 1;
      }
      rest := s[k + 1..];
    } else {
      rest := s;
    }
  }
}
