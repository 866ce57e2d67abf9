/**
 * The older parser (src/parser.rs): the same implicit-multiplication pass, inserting only
 * between two numbers, and the same single forward pass without variables and without `=`.
 * Its stream is modelled over the current token type, since it builds the same expression
 * tree with Rational leaves; variables, `=` and parentheses are then plain tokens to it.
 */
module OldParser {
  import opened Wrappers
  import R = Rationals
  import Ops
  import E = Expressions
  import opened Tokenizer
  import opened Parser

  /** The older pass inserts `*` only between two numbers. */
  const NumberKinds: set<TokenType> := {NumberType}

  function SanitaseOf(data: seq<Token>): Result<seq<Token>, ParseError> {
    SanitaseWith(data, NumberKinds)
  }

  method Sanitase(data: seq<Token>) returns (r: Result<seq<Token>, ParseError>)
    ensures r == SanitaseOf(data)
  {
    r := SanitaseLoop(data, NumberKinds);
  }

  /**
   * The older pass only inserts `*`, keeps the order of the input, rejects Invalid in longer
   * streams, and leaves a stream with no two adjacent numbers as it is.
   */
  lemma SanitaseContract(data: seq<Token>)
    ensures |data| <= 1 ==> SanitaseOf(data) == Success(data)
    ensures |data| > 1 ==> (SanitaseOf(data).Failure? <==> Invalid in data)
    ensures SanitaseOf(data).Failure? ==> SanitaseOf(data).error == InvalidTokens
    ensures SanitaseOf(data).Success? ==> MulExtension(data, SanitaseOf(data).value)
    ensures Invalid !in data && NoAdjacentOperands(data, NumberKinds) ==> SanitaseOf(data) == Success(data)
  {
    Parser.SanitaseContract(data, NumberKinds);
    if Invalid !in data && NoAdjacentOperands(data, NumberKinds) && |data| > 1 {
      SanitaseFromIdentity(data, 0, InvalidType, NumberKinds);
    }
  }

  /** Two numbers get a `*` between them. */
  lemma SanitaseNumbers(a: R.Rational, b: R.Rational)
    ensures SanitaseOf([Number(a), Number(b)]) == Success([Number(a), Op(Ops.Mul), Number(b)])
  {
    var s := [Number(a), Number(b)];
    var s1 := s[..1] + [Op(Ops.Mul)] + s[1..];
    assert s1 == [Number(a), Op(Ops.Mul), Number(b)];
    assert SanitaseFrom(s, 1, s, NumberType, NumberKinds) == s1;
  }

  /** A variable next to a number gets no `*`, where the current pass inserts one. */
  lemma SanitaseVariable(a: R.Rational, x: string)
    ensures SanitaseOf([Number(a), Literal(x)]) == Success([Number(a), Literal(x)])
    ensures Parser.SanitaseOf([Number(a), Literal(x)]) == Success([Number(a), Op(Ops.Mul), Literal(x)])
  {
    SanitaseContract([Number(a), Literal(x)]);
    SanitaseNumberVariable(a, x);
  }

  // parse_to_operations

  /** One iteration of the older loop: operators as in the current one, any other token kept. */
  function Step(data: seq<Token>, i: nat, st: State): Result<State, ParseError>
    requires i < |data|
  {
    if st.skip > 0 then Success(State(data[i], st.skip - 1, st.ret))
    else
      match data[i]
      case Op(op) =>
        var o :- OperatorStep(data, i, st.prev, st.ret, op);
        Success(State(data[i], o.0, o.1))
      case _ => Success(State(data[i], 0, st.ret))
  }

  function Run(data: seq<Token>, i: nat, st: State): Result<E.Expr, ParseError>
    requires i <= |data|
    decreases |data| - i
  {
    if i == |data| then Success(st.ret)
    else
      match Step(data, i, st)
      case Failure(e) => Failure(e)
      case Success(next) => Run(data, i + 1, next)
  }

  function ParseToOperationsOf(data: seq<Token>): Result<E.Expr, ParseError> {
    if Invalid in data then Failure(InvalidTokens)
    else if |data| == 0 then Failure(StreamEmpty)
    else if |data| == 1 then
      match AsNr(data[0]) case Some(v) => Success(E.Number(v)) case None => Failure(FailedToParse)
    else Run(data, 0, Initial())
  }

  method ParseToOperations(data: seq<Token>) returns (r: Result<E.Expr, ParseError>)
    ensures r == ParseToOperationsOf(data)
  {
    if Invalid in data {
      return Failure(InvalidTokens);
    }
    if |data| <= 1 {
      if |data| == 0 {
        return Failure(StreamEmpty);
      }
      match AsNr(data[0])
      case Some(v) => return Success(E.Number(v));
      case None => return Failure(FailedToParse);
    }
    var prev := Invalid;
    var skip := 0;
    var ret := E.Number(R.Zero());
    for i := 0 to |data|
      invariant Run(data, i, State(prev, skip, ret)) == Run(data, 0, Initial())
    {
      var token := data[i];
      if skip > 0 {
        skip := skip - 1;
        prev := token;
        continue;
      }
      if token.Op? {
        var o := OperatorStep(data, i, prev, ret, token.op);
        if o.Failure? {
          return Failure(o.error);
        }
        skip, ret := o.value.0, o.value.1;
      }
      prev := token;
    }
    return Success(ret);
  }

  /** A stream with no variable and no `=`. */
  predicate PlainStream(data: seq<Token>) {
    forall j :: 0 <= j < |data| ==> !data[j].Literal? && !data[j].Eq?
  }

  lemma {:induction false} RunMatchesCurrent(data: seq<Token>, i: nat, st: State, table: map<string, R.Rational>)
    requires i <= |data| && PlainStream(data)
    ensures Parser.Run(data, i, st, table) == (Run(data, i, st), table)
    decreases |data| - i
  {
    if i < |data| {
      match Step(data, i, st)
      case Failure(_) =>
      case Success(next) =>
        RunNext(data, i, st, table, next, table);
        RunMatchesCurrent(data, i + 1, next, table);
    }
  }

  /**
   * On streams without variables and `=`, the current parser builds the same tree as the
   * older one, or fails in the same way, and leaves the table alone.
   */
  lemma MatchesCurrent(data: seq<Token>, table: map<string, R.Rational>)
    requires PlainStream(data)
    ensures Parser.ParseToOperationsOf(data, table) == (ParseToOperationsOf(data), table)
  {
    assert Substitute(data, table) == data;
    if Invalid !in data && |data| > 1 {
      RunMatchesCurrent(data, 0, Initial(), table);
    }
  }

  /** The older tests: 2 op 2 is op(2, 2) for the four arithmetic operators. */
  lemma InfixPair(a: R.Rational, b: R.Rational, op: Ops.OpType)
    requires !Ops.IsForward(op)
    ensures ParseToOperationsOf([Number(a), Op(op), Number(b)]) == Success(E.Binary(op, E.Number(a), E.Number(b)))
  {
    MatchesCurrent([Number(a), Op(op), Number(b)], map[]);
    Parser.InfixPair(a, b, op, map[]);
  }

  /** Reordering reaches one level into the tree, as in the current parser. */
  lemma InfixChain(a: R.Rational, b: R.Rational, c: R.Rational, o1: Ops.OpType, o2: Ops.OpType)
    requires !Ops.IsForward(o1) && !Ops.IsForward(o2)
    ensures var (A, B, C) := (E.Number(a), E.Number(b), E.Number(c));
      ParseToOperationsOf([Number(a), Op(o1), Number(b), Op(o2), Number(c)]) ==
      Success(if Ops.Order(o1) < Ops.Order(o2) then E.Binary(o1, A, E.Binary(o2, B, C))
              else E.Binary(o2, E.Binary(o1, A, B), C))
  {
    MatchesCurrent([Number(a), Op(o1), Number(b), Op(o2), Number(c)], map[]);
    Parser.InfixChain(a, b, c, o1, o2, map[]);
  }

  /** A trailing infix operator misses its right operand at position 2. */
  lemma MissingOperand(a: R.Rational, op: Ops.OpType)
    requires !Ops.IsForward(op)
    ensures ParseToOperationsOf([Number(a), Op(op)]) == Failure(ExpectedToken(2))
  {
    MatchesCurrent([Number(a), Op(op)], map[]);
    MissingOperands(a, op, map[]);
  }

  /** `parse`: sanitise, build the tree, evaluate. */
  function ParseOf(data: seq<Token>, fl: R.FloatOps): Result<R.Rational, ParseError> {
    var s :- SanitaseOf(data);
    var tree :- ParseToOperationsOf(s);
    Success(E.Apply(tree, fl))
  }

  method Parse(data: seq<Token>, fl: R.FloatOps) returns (r: Result<R.Rational, ParseError>)
    ensures r == ParseOf(data, fl)
  {
    var s := Sanitase(data);
    if s.Failure? {
      return Failure(s.error);
    }
    var tree := ParseToOperations(s.value);
    if tree.Failure? {
      return Failure(tree.error);
    }
    return Success(E.Apply(tree.value, fl));
  }

  method DbgParse(pairs: seq<(string, Token)>, fl: R.FloatOps) returns (r: Result<R.Rational, ParseError>)
    ensures r == ParseOf(TokensOf(pairs), fl)
  {
    r := Parse(TokensOf(pairs), fl);
  }
}
