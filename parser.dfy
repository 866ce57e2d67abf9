/**
 * The parser of core/src/parser.rs: the implicit-multiplication pass (`sanitase`) and the
 * single forward pass that builds the expression tree (`parse_to_operations`), with the
 * variable table the calculator keeps between lines.
 */
module Parser {
  import opened Wrappers
  import R = Rationals
  import S = Strings
  import NumberTheory
  import Ops
  import E = Expressions
  import opened Tokenizer

  /** The error strings the parser returns, one variant each. */
  datatype ParseError =
    | InvalidTokens
    | StreamEmpty
    | FailedToParse
    | ExpectedToken(at: nat)
    | NumberExpected
    | UnknownLiteral(name: string)
    | NotImplemented

  function Message(e: ParseError): string {
    match e
    case InvalidTokens => "Stream contains invalid tokens"
    case StreamEmpty => "Stream empty"
    case FailedToParse => "Failed to parse stream."
    case ExpectedToken(n) => "Expected token at: " + S.NatToString(n)
    case NumberExpected => "Number expected."
    case UnknownLiteral(name) => "Unknown literal: \"" + name + "\""
    case NotImplemented => "not yet implemented"
  }

  /** Positions are told apart by their messages. */
  lemma ExpectedTokenMessages(m: nat, n: nat)
    requires Message(ExpectedToken(m)) == Message(ExpectedToken(n))
    ensures m == n
  {
    var prefix := "Expected token at: ";
    assert S.NatToString(m) == Message(ExpectedToken(m))[|prefix|..];
    assert S.NatToString(n) == Message(ExpectedToken(n))[|prefix|..];
    S.NatToStringInjective(m, n);
  }

  /** The variable table (`KnownLiterals`): names bound by `=`, kept between lines. */
  class KnownLiterals {
    var table: map<string, R.Rational>

    constructor()
      ensures table == map[]
    {
      table := map[];
    }

    function Get(name: string): (r: Option<R.Rational>)
      reads this
      ensures r.Some? <==> name in table
      ensures r.Some? ==> r.value == table[name]
    {
      if name in table then Some(table[name]) else None
    }

    method Insert(name: string, v: R.Rational)
      modifies this
      ensures table == old(table)[name := v]
    {
      table := table[name := v];
    }
  }

  // ---------------------------------------------------------------------------------------
  // sanitase

  /** The token kinds between which `sanitase` inserts a Mul: numbers and variables. */
  const OperandKinds: set<TokenType> := {NumberType, LiteralType}

  /** The token at j of the (already extended) vector is a forward operator. */
  predicate ForwardAt(data: seq<Token>, j: nat) {
    j < |data| && GetType(data[j]) == OpType && Ops.IsForward(AsOpType(data[j]).value)
  }

  /**
   * Position i of the original stream gets a Mul in front of it: this token and the previous
   * one are operands, and the token two places back in the extended vector is not a forward
   * operator (always, when i < 2).
   */
  predicate InsertsBefore(data: seq<Token>, i: nat, k: TokenType, prev: TokenType, kinds: set<TokenType>) {
    k in kinds && prev in kinds && !(i >= 2 && ForwardAt(data, i - 2))
  }

  /**
   * The loop of `sanitase` from position i of the original stream orig, with data the
   * vector built so far and prev the kind of orig[i - 1]. A Mul goes in at index i of data,
   * the same index as in orig, however many were inserted before.
   */
  function SanitaseFrom(orig: seq<Token>, i: nat, data: seq<Token>, prev: TokenType, kinds: set<TokenType>): (r: seq<Token>)
    requires i <= |orig| <= |data|
    ensures |data| <= |r| <= |data| + (|orig| - i)
    decreases |orig| - i
  {
    if i == |orig| then data
    else
      var k := GetType(orig[i]);
      var next := if InsertsBefore(data, i, k, prev, kinds) then data[..i] + [Op(Ops.Mul)] + data[i..] else data;
      SanitaseFrom(orig, i + 1, next, k, kinds)
  }

  /** `sanitase` with the given operand kinds. */
  function SanitaseWith(data: seq<Token>, kinds: set<TokenType>): Result<seq<Token>, ParseError> {
    if |data| <= 1 then Success(data)
    else if Invalid in data then Failure(InvalidTokens)
    else Success(SanitaseFrom(data, 0, data, InvalidType, kinds))
  }

  function SanitaseOf(data: seq<Token>): Result<seq<Token>, ParseError> {
    SanitaseWith(data, OperandKinds)
  }

  /** The loop of `sanitase`, inserting into the vector it indexes while it walks a copy. */
  method SanitaseLoop(data0: seq<Token>, kinds: set<TokenType>) returns (r: Result<seq<Token>, ParseError>)
    ensures r == SanitaseWith(data0, kinds)
  {
    if |data0| == 1 || |data0| == 0 {
      return Success(data0);
    }
    if Invalid in data0 {
      return Failure(InvalidTokens);
    }
    var data := data0;
    var prevType := InvalidType;
    for i := 0 to |data0|
      invariant |data0| <= |data|
      invariant SanitaseFrom(data0, i, data, prevType, kinds) == SanitaseFrom(data0, 0, data0, InvalidType, kinds)
    {
      var k := GetType(data0[i]);
      if k in kinds && prevType in kinds {
        if i >= 2 {
          if !(GetType(data[i - 2]) == OpType && Ops.IsForward(AsOpType(data[i - 2]).value)) {
            data := data[..i] + [Op(Ops.Mul)] + data[i..];
          }
        } else {
          data := data[..i] + [Op(Ops.Mul)] + data[i..];
        }
      }
      prevType := k;
    }
    return Success(data);
  }

  /** `sanitase`: a Mul between adjacent numbers or variables ("2 x" is 2 * x). */
  method Sanitase(data: seq<Token>) returns (r: Result<seq<Token>, ParseError>)
    ensures r == SanitaseOf(data)
  {
    r := SanitaseLoop(data, OperandKinds);
  }

  /** b is a with Mul tokens inserted: a is an order-preserving subsequence of b, the rest Mul. */
  predicate MulExtension(a: seq<Token>, b: seq<Token>)
    decreases |b|
  {
    if |b| == 0 then |a| == 0
    else (|a| > 0 && a[0] == b[0] && MulExtension(a[1..], b[1..])) || (b[0] == Op(Ops.Mul) && MulExtension(a, b[1..]))
  }

  lemma {:induction false} MulExtensionRefl(a: seq<Token>)
    ensures MulExtension(a, a)
    decreases |a|
  {
    if |a| > 0 {
      MulExtensionRefl(a[1..]);
    }
  }

  /** Inserting one more Mul anywhere keeps b an extension of a. */
  lemma {:induction false} MulExtensionInsert(a: seq<Token>, b: seq<Token>, i: nat)
    requires MulExtension(a, b) && i <= |b|
    ensures MulExtension(a, b[..i] + [Op(Ops.Mul)] + b[i..])
    decreases i
  {
    var c := b[..i] + [Op(Ops.Mul)] + b[i..];
    if i == 0 {
      assert c[1..] == b;
    } else {
      var d := b[1..][..i - 1] + [Op(Ops.Mul)] + b[1..][i - 1..];
      assert c[0] == b[0] && c[1..] == d;
      if |a| > 0 && a[0] == b[0] && MulExtension(a[1..], b[1..]) {
        MulExtensionInsert(a[1..], b[1..], i - 1);
      } else {
        MulExtensionInsert(a, b[1..], i - 1);
      }
    }
  }

  lemma {:induction false} SanitaseFromExtends(orig: seq<Token>, i: nat, data: seq<Token>, prev: TokenType, kinds: set<TokenType>)
    requires i <= |orig| <= |data| && MulExtension(orig, data)
    ensures MulExtension(orig, SanitaseFrom(orig, i, data, prev, kinds))
    decreases |orig| - i
  {
    if i < |orig| {
      var k := GetType(orig[i]);
      if InsertsBefore(data, i, k, prev, kinds) {
        MulExtensionInsert(orig, data, i);
      }
      var next := if InsertsBefore(data, i, k, prev, kinds) then data[..i] + [Op(Ops.Mul)] + data[i..] else data;
      SanitaseFromExtends(orig, i + 1, next, k, kinds);
    }
  }

  /**
   * `sanitase` leaves streams of length 0 or 1 alone, fails exactly on a longer stream holding
   * Invalid, and otherwise only inserts Mul tokens, at most one per input token.
   */
  lemma SanitaseContract(data: seq<Token>, kinds: set<TokenType>)
    ensures |data| <= 1 ==> SanitaseWith(data, kinds) == Success(data)
    ensures |data| > 1 ==> (SanitaseWith(data, kinds).Failure? <==> Invalid in data)
    ensures SanitaseWith(data, kinds).Failure? ==> SanitaseWith(data, kinds).error == InvalidTokens
    ensures SanitaseWith(data, kinds).Success? ==>
      var out := SanitaseWith(data, kinds).value; MulExtension(data, out) && |data| <= |out| <= 2 * |data|
  {
    if |data| > 1 && Invalid !in data {
      MulExtensionRefl(data);
      SanitaseFromExtends(data, 0, data, InvalidType, kinds);
    } else if |data| <= 1 {
      MulExtensionRefl(data);
    }
  }

  /** No two neighbouring tokens are both operands. */
  predicate NoAdjacentOperands(data: seq<Token>, kinds: set<TokenType>) {
    forall j :: 0 < j < |data| ==> !(GetType(data[j - 1]) in kinds && GetType(data[j]) in kinds)
  }

  lemma {:induction false} SanitaseFromIdentity(orig: seq<Token>, i: nat, prev: TokenType, kinds: set<TokenType>)
    requires i <= |orig| && NoAdjacentOperands(orig, kinds)
    requires (i == 0 ==> prev == InvalidType) && (i > 0 ==> prev == GetType(orig[i - 1]))
    requires InvalidType !in kinds
    ensures SanitaseFrom(orig, i, orig, prev, kinds) == orig
    decreases |orig| - i
  {
    if i < |orig| {
      SanitaseFromIdentity(orig, i + 1, GetType(orig[i]), kinds);
    }
  }

  /** A stream without neighbouring operands comes back unchanged. */
  lemma SanitaseIdentity(data: seq<Token>)
    requires Invalid !in data && NoAdjacentOperands(data, OperandKinds)
    ensures SanitaseOf(data) == Success(data)
  {
    if |data| > 1 {
      SanitaseFromIdentity(data, 0, InvalidType, OperandKinds);
    }
  }

  /** "2 x": a number followed by a variable gets a Mul between them. */
  lemma SanitaseNumberVariable(a: R.Rational, x: string)
    ensures SanitaseOf([Number(a), Literal(x)]) == Success([Number(a), Op(Ops.Mul), Literal(x)])
  {
    var s := [Number(a), Literal(x)];
    var s1 := s[..1] + [Op(Ops.Mul)] + s[1..];
    assert s1 == [Number(a), Op(Ops.Mul), Literal(x)];
    assert SanitaseFrom(s, 1, s, NumberType, OperandKinds) == s1;
  }

  /**
   * Three numbers in a row get both Muls at index 1 and 2 of the vector being extended, so
   * "2 3 4" becomes 2 * * 3 4 (inserting at the original index shifts the second insertion).
   */
  lemma SanitaseThreeNumbers(a: R.Rational, b: R.Rational, c: R.Rational)
    ensures SanitaseOf([Number(a), Number(b), Number(c)]) ==
      Success([Number(a), Op(Ops.Mul), Op(Ops.Mul), Number(b), Number(c)])
  {
    var s := [Number(a), Number(b), Number(c)];
    var s1 := [Number(a), Op(Ops.Mul), Number(b), Number(c)];
    var s2 := [Number(a), Op(Ops.Mul), Op(Ops.Mul), Number(b), Number(c)];
    assert s[..1] + [Op(Ops.Mul)] + s[1..] == s1;
    assert s1[..2] + [Op(Ops.Mul)] + s1[2..] == s2;
    assert SanitaseFrom(s, 3, s2, NumberType, OperandKinds) == s2;
    assert !ForwardAt(s1, 0);
    assert SanitaseFrom(s, 2, s1, NumberType, OperandKinds) == s2;
    assert SanitaseFrom(s, 1, s, NumberType, OperandKinds) == s2;
    assert SanitaseFrom(s, 0, s, InvalidType, OperandKinds) == s2;
  }

  /** Operands right after a forward operator are its arguments: "log 2 8" gets no Mul. */
  lemma SanitaseAfterForward(op: Ops.OpType, a: R.Rational, b: R.Rational)
    requires Ops.IsForward(op)
    ensures SanitaseOf([Op(op), Number(a), Number(b)]) == Success([Op(op), Number(a), Number(b)])
  {
    var s := [Op(op), Number(a), Number(b)];
    assert ForwardAt(s, 0);
    assert SanitaseFrom(s, 3, s, NumberType, OperandKinds) == s;
    assert SanitaseFrom(s, 2, s, NumberType, OperandKinds) == s;
    assert SanitaseFrom(s, 1, s, OpType, OperandKinds) == s;
    assert SanitaseFrom(s, 0, s, InvalidType, OperandKinds) == s;
  }

  // ---------------------------------------------------------------------------------------
  // parse_to_operations

  /** The loop's state: the previous token, how many tokens to pass over, the tree so far. */
  datatype State = State(prev: Token, skip: nat, ret: E.Expr)

  function Initial(): State {
    State(Invalid, 0, E.Number(R.Zero()))
  }

  /** `next_token!`: the number k places after i, or the error for a missing or other token. */
  function NextToken(data: seq<Token>, i: nat, k: nat): (r: Result<E.Expr, ParseError>)
    ensures r.Success? <==> i + k < |data| && data[i + k].Number?
    ensures r.Success? ==> r.value == E.Number(data[i + k].value)
    ensures i + k >= |data| ==> r == Failure(ExpectedToken(i + k))
    ensures i + k < |data| && !data[i + k].Number? ==> r == Failure(NumberExpected)
  {
    if i + k < |data| then
      match AsNr(data[i + k])
      case Some(v) => Success(E.Number(v))
      case None => Failure(NumberExpected)
    else Failure(ExpectedToken(i + k))
  }

  /** `prev_token!`: the previous token as a number. */
  function PrevToken(t: Token): (r: Result<E.Expr, ParseError>)
    ensures r.Success? <==> t.Number?
    ensures r.Success? ==> r.value == E.Number(t.value)
    ensures r.Failure? ==> r.error == NumberExpected
  {
    match AsNr(t)
    case Some(v) => Success(E.Number(v))
    case None => Failure(NumberExpected)
  }

  /**
   * The operator branch at token i: the new skip count and tree. A forward operator takes
   * the numbers after it; an infix one combines its left operand (the tree so far, or the
   * previous number while the tree is still the initial zero) with the next number. When the
   * operator binds tighter than the tree's root ("reverse"), only the root's right child is
   * rebuilt.
   */
  function OperatorStep(data: seq<Token>, i: nat, prev: Token, ret: E.Expr, op: Ops.OpType): Result<(nat, E.Expr), ParseError> {
    var reverse := E.GetOrder(ret) < Ops.Order(op) && E.GetOrder(ret) != 0;
    var skip := Ops.ConsumeCount(op);
    if Ops.IsForward(op) then
      if reverse then Failure(NotImplemented)
      else if op == Ops.Root then
        var x :- NextToken(data, i, 1);
        Success((skip, E.Root(x)))
      else
        var x :- NextToken(data, i, 1);
        var y :- NextToken(data, i, 2);
        Success((skip, E.Binary(op, x, y)))
    else
      var left :- if ret != E.Number(R.Zero()) then Success(ret) else PrevToken(prev);
      if reverse then
        match E.GetY(left)
        case Some(y) =>
          var z :- NextToken(data, i, 1);
          Success((skip - 1, E.ChangeY(left, E.Binary(op, y, z))))
        case None => Success((skip - 1, ret))
      else
        var z :- NextToken(data, i, 1);
        Success((skip - 1, E.Binary(op, left, z)))
  }

  /**
   * The `=` branch at token i: after a variable, bind it to the next token's number, or to
   * the value of a bound variable there; the tree becomes that value.
   */
  function AssignStep(data: seq<Token>, i: nat, prev: Token, ret: E.Expr, table: map<string, R.Rational>): Result<(E.Expr, map<string, R.Rational>), ParseError> {
    if !prev.Literal? then Success((ret, table))
    else if i + 1 >= |data| then Failure(ExpectedToken(i + 1))
    else
      match data[i + 1]
      case Literal(next) =>
        if next in table then Success((E.Number(table[next]), table[prev.name := table[next]]))
        else Success((ret, table))
      case Number(v) => Success((E.Number(v), table[prev.name := v]))
      case _ => Success((ret, table))
  }

  /** The retroactive lookup of a variable token: its value if bound, an error if it is last. */
  function Lookup(data: seq<Token>, i: nat, ret: E.Expr, table: map<string, R.Rational>): Result<(Token, E.Expr), ParseError>
    requires i < |data|
  {
    match data[i]
    case Literal(name) =>
      if name in table then Success((Number(table[name]), E.Number(table[name])))
      else if i + 1 > |data| - 1 then Failure(UnknownLiteral(name))
      else Success((data[i], ret))
    case _ => Success((data[i], ret))
  }

  /** One iteration of the loop: the next state and table, or the error it returns. */
  function Step(data: seq<Token>, i: nat, st: State, table: map<string, R.Rational>): Result<(State, map<string, R.Rational>), ParseError>
    requires i < |data|
  {
    if st.skip > 0 then Success((State(data[i], st.skip - 1, st.ret), table))
    else
      var branch :- match data[i]
        case Op(op) =>
          var o :- OperatorStep(data, i, st.prev, st.ret, op);
          Success((o.0, o.1, table))
        case Eq =>
          var a :- AssignStep(data, i, st.prev, st.ret, table);
          Success((0, a.0, a.1))
        case _ => Success((0, st.ret, table));
      var l :- Lookup(data, i, branch.1, branch.2);
      Success((State(l.0, branch.0, l.1), branch.2))
  }

  /** The loop from token i on: its result and the table as the loop leaves it. */
  function Run(data: seq<Token>, i: nat, st: State, table: map<string, R.Rational>): (Result<E.Expr, ParseError>, map<string, R.Rational>)
    requires i <= |data|
    decreases |data| - i
  {
    if i == |data| then (Success(st.ret), table)
    else
      match Step(data, i, st, table)
      case Failure(e) => (Failure(e), table)
      case Success(next) => Run(data, i + 1, next.0, next.1)
  }

  /** One successful step of the loop (`Run` unfolded once). */
  lemma RunNext(data: seq<Token>, i: nat, st: State, table: map<string, R.Rational>, st': State, table': map<string, R.Rational>)
    requires i < |data| && Step(data, i, st, table) == Success((st', table'))
    ensures Run(data, i, st, table) == Run(data, i + 1, st', table')
  {
  }

  /** A number token outside a skip only becomes the previous token. */
  lemma NumberStep(data: seq<Token>, i: nat, st: State, table: map<string, R.Rational>)
    requires i < |data| && st.skip == 0 && data[i].Number?
    ensures Step(data, i, st, table) == Success((State(data[i], 0, st.ret), table))
  {
  }

  /** A token inside a skip is passed over. */
  lemma SkipStep(data: seq<Token>, i: nat, st: State, table: map<string, R.Rational>)
    requires i < |data| && st.skip > 0
    ensures Step(data, i, st, table) == Success((State(data[i], st.skip - 1, st.ret), table))
  {
  }

  /**
   * An infix operator after a binary tree: it takes the tree as its left operand, or, when it
   * binds tighter than the root, the root's right child.
   */
  lemma InfixStep(data: seq<Token>, i: nat, st: State, table: map<string, R.Rational>, op: Ops.OpType)
    requires i + 1 < |data| && data[i] == Op(op) && !Ops.IsForward(op) && data[i + 1].Number?
    requires st.skip == 0 && E.GetY(st.ret).Some?
    ensures var z := E.Number(data[i + 1].value);
      Step(data, i, st, table) == Success((State(Op(op), 1,
        if E.GetOrder(st.ret) < Ops.Order(op) then E.ChangeY(st.ret, E.Binary(op, st.ret.y, z))
        else E.Binary(op, st.ret, z)), table))
  {
  }

  /** The proactive lookup: a bound variable token becomes its number. */
  function Resolve(t: Token, table: map<string, R.Rational>): (u: Token)
    ensures u.Literal? ==> u == t && u.name !in table
    ensures t.Literal? && t.name in table ==> u == Number(table[t.name])
    ensures !t.Literal? ==> u == t
  {
    if t.Literal? && t.name in table then Number(table[t.name]) else t
  }

  function Substitute(data: seq<Token>, table: map<string, R.Rational>): (d: seq<Token>)
    ensures |d| == |data| && forall j :: 0 <= j < |d| ==> d[j] == Resolve(data[j], table)
  {
    seq(|data|, j requires 0 <= j < |data| => Resolve(data[j], table))
  }

  /** `parse_to_operations`: the tree of a sanitised stream, and the table afterwards. */
  function ParseToOperationsOf(data: seq<Token>, table: map<string, R.Rational>): (Result<E.Expr, ParseError>, map<string, R.Rational>) {
    if Invalid in data then (Failure(InvalidTokens), table)
    else
      var d := Substitute(data, table);
      if |d| == 0 then (Failure(StreamEmpty), table)
      else if |d| == 1 then
        (match AsNr(d[0]) case Some(v) => Success(E.Number(v)) case None => Failure(FailedToParse), table)
      else Run(d, 0, Initial(), table)
  }

  /** The `=` branch of the loop, on the table object. */
  method Assign(d: seq<Token>, i: nat, prev: Token, ret: E.Expr, known: KnownLiterals) returns (r: Result<E.Expr, ParseError>)
    modifies known
    ensures match AssignStep(d, i, prev, ret, old(known.table))
      case Success(a) => r == Success(a.0) && known.table == a.1
      case Failure(e) => r == Failure(e) && known.table == old(known.table)
  {
    if !prev.Literal? {
      return Success(ret);
    }
    if i + 1 >= |d| {
      return Failure(ExpectedToken(i + 1));
    }
    var next := d[i + 1];
    r := Success(ret);
    if next.Literal? {
      var v := known.Get(next.name);
      if v.Some? {
        r := Success(E.Number(v.value));
        known.Insert(prev.name, v.value);
      }
    } else if next.Number? {
      r := Success(E.Number(next.value));
      known.Insert(prev.name, next.value);
    }
  }

  /** The retroactive lookup of the loop, on the table object. */
  method RetroactiveLookup(d: seq<Token>, i: nat, ret: E.Expr, known: KnownLiterals) returns (r: Result<(Token, E.Expr), ParseError>)
    requires i < |d|
    ensures r == Lookup(d, i, ret, known.table)
  {
    var token := d[i];
    if token.Literal? {
      var v := known.Get(token.name);
      if v.Some? {
        return Success((Number(v.value), E.Number(v.value)));
      }
      if i + 1 > |d| - 1 {
        return Failure(UnknownLiteral(token.name));
      }
    }
    return Success((token, ret));
  }

  /** One iteration of the loop, on the table object: the next state of `Step`, or its error. */
  method LoopStep(d: seq<Token>, i: nat, st: State, known: KnownLiterals) returns (r: Result<State, ParseError>)
    requires i < |d|
    modifies known
    ensures match Step(d, i, st, old(known.table))
      case Success(next) => r == Success(next.0) && known.table == next.1
      case Failure(e) => r == Failure(e) && known.table == old(known.table)
  {
    var token := d[i];
    if st.skip > 0 {
      return Success(State(token, st.skip - 1, st.ret));
    }
    var skip, ret := 0, st.ret;
    if token.Op? {
      var o := OperatorStep(d, i, st.prev, st.ret, token.op);
      if o.Failure? {
        return Failure(o.error);
      }
      skip, ret := o.value.0, o.value.1;
    } else if token.Eq? {
      var a := Assign(d, i, st.prev, st.ret, known);
      if a.Failure? {
        return Failure(a.error);
      }
      ret := a.value;
    }
    var l := RetroactiveLookup(d, i, ret, known);
    if l.Failure? {
      return Failure(l.error);
    }
    return Success(State(l.value.0, skip, l.value.1));
  }

  method ParseToOperations(data: seq<Token>, known: KnownLiterals) returns (r: Result<E.Expr, ParseError>)
    modifies known
    ensures (r, known.table) == ParseToOperationsOf(data, old(known.table))
  {
    if Invalid in data {
      return Failure(InvalidTokens);
    }
    var d := Substitute(data, known.table);
    if |d| <= 1 {
      if |d| == 0 {
        return Failure(StreamEmpty);
      }
      match AsNr(d[0])
      case Some(v) => return Success(E.Number(v));
      case None => return Failure(FailedToParse);
    }
    ghost var t0 := known.table;
    var st := Initial();
    for i := 0 to |d|
      invariant Run(d, i, st, known.table) == Run(d, 0, Initial(), t0)
    {
      var next := LoopStep(d, i, st, known);
      if next.Failure? {
        return Failure(next.error);
      }
      st := next.value;
    }
    return Success(st.ret);
  }

  // ---------------------------------------------------------------------------------------
  // What the pass guarantees

  /** Every binding of t is still in u, with the same value. */
  predicate Extends(t: map<string, R.Rational>, u: map<string, R.Rational>) {
    forall k :: k in t ==> k in u && u[k] == t[k]
  }

  /**
   * What holds between iterations: the tokens still to be passed over are numbers inside the
   * stream, and a variable in `prev` is unbound (a bound one was turned into its number).
   */
  predicate Inv(data: seq<Token>, i: nat, st: State, table: map<string, R.Rational>) {
    i + st.skip <= |data| &&
    (forall j :: i <= j < i + st.skip ==> data[j].Number?) &&
    (st.prev.Literal? ==> st.prev.name !in table)
  }

  /**
   * A step keeps the invariant, touches the table only at `=`, and there only adds the name
   * of the unbound variable before it.
   */
  lemma StepKeepsInv(data: seq<Token>, i: nat, st: State, table: map<string, R.Rational>)
    requires i < |data| && Inv(data, i, st, table) && Step(data, i, st, table).Success?
    ensures var next := Step(data, i, st, table).value;
      Inv(data, i + 1, next.0, next.1) && Extends(table, next.1) && (data[i] != Eq ==> next.1 == table)
  {
    if st.skip == 0 && data[i].Op? {
      var op := data[i].op;
      var reverse := E.GetOrder(st.ret) < Ops.Order(op) && E.GetOrder(st.ret) != 0;
      if !Ops.IsForward(op) && reverse {
        assert !st.ret.Number? && !st.ret.Root?;
      }
    }
  }

  lemma {:induction false} RunExtends(data: seq<Token>, i: nat, st: State, table: map<string, R.Rational>)
    requires i <= |data| && Inv(data, i, st, table)
    ensures Extends(table, Run(data, i, st, table).1)
    decreases |data| - i
  {
    if i < |data| && Step(data, i, st, table).Success? {
      var next := Step(data, i, st, table).value;
      StepKeepsInv(data, i, st, table);
      RunExtends(data, i + 1, next.0, next.1);
    }
  }

  /** A name already in the table is never rebound, and nothing is removed from it. */
  lemma NoRebinding(data: seq<Token>, table: map<string, R.Rational>)
    ensures Extends(table, ParseToOperationsOf(data, table).1)
  {
    if Invalid !in data && |data| > 1 {
      RunExtends(Substitute(data, table), 0, Initial(), table);
    }
  }

  /** A missing operand is reported at a position past the end of the stream. */
  lemma {:induction false} RunExpectedPastEnd(data: seq<Token>, i: nat, st: State, table: map<string, R.Rational>)
    requires i <= |data|
    ensures var r := Run(data, i, st, table).0; r.Failure? && r.error.ExpectedToken? ==> r.error.at >= |data|
    decreases |data| - i
  {
    if i < |data| && Step(data, i, st, table).Success? {
      var next := Step(data, i, st, table).value;
      RunExpectedPastEnd(data, i + 1, next.0, next.1);
    }
  }

  lemma ExpectedPastEnd(data: seq<Token>, table: map<string, R.Rational>)
    ensures var r := ParseToOperationsOf(data, table).0; r.Failure? && r.error.ExpectedToken? ==> r.error.at >= |data|
  {
    if Invalid !in data && |data| > 1 {
      RunExpectedPastEnd(Substitute(data, table), 0, Initial(), table);
    }
  }

  /**
   * Short and invalid streams: Invalid anywhere fails, an empty stream fails with "Stream
   * empty", and a single token gives its number (after the variable lookup) or fails.
   */
  lemma ShortStreams(data: seq<Token>, table: map<string, R.Rational>)
    ensures Invalid in data ==> ParseToOperationsOf(data, table) == (Failure(InvalidTokens), table)
    ensures Invalid !in data && |data| == 0 ==> ParseToOperationsOf(data, table) == (Failure(StreamEmpty), table)
    ensures Invalid !in data && |data| == 1 ==>
      var r := ParseToOperationsOf(data, table);
      r.1 == table &&
      (data[0].Number? ==> r.0 == Success(E.Number(data[0].value))) &&
      (data[0].Literal? && data[0].name in table ==> r.0 == Success(E.Number(table[data[0].name]))) &&
      (!data[0].Number? && !(data[0].Literal? && data[0].name in table) ==> r.0 == Failure(FailedToParse))
  {
  }

  // ---------------------------------------------------------------------------------------
  // The trees built for operator chains

  /** `a op b` for an infix operator becomes the node op(a, b). */
  lemma InfixPair(a: R.Rational, b: R.Rational, op: Ops.OpType, table: map<string, R.Rational>)
    requires !Ops.IsForward(op)
    ensures ParseToOperationsOf([Number(a), Op(op), Number(b)], table) ==
      (Success(E.Binary(op, E.Number(a), E.Number(b))), table)
  {
    var d := [Number(a), Op(op), Number(b)];
    assert Substitute(d, table) == d;
    InfixPrefix(d, op, table);
  }

  /**
   * `a o1 b o2 c`: when o2 binds tighter than o1 it takes b and c as operands, otherwise
   * the chain is evaluated left to right.
   */
  lemma InfixChain(a: R.Rational, b: R.Rational, c: R.Rational, o1: Ops.OpType, o2: Ops.OpType, table: map<string, R.Rational>)
    requires !Ops.IsForward(o1) && !Ops.IsForward(o2)
    ensures var (A, B, C) := (E.Number(a), E.Number(b), E.Number(c));
      ParseToOperationsOf([Number(a), Op(o1), Number(b), Op(o2), Number(c)], table) ==
      (Success(if Ops.Order(o1) < Ops.Order(o2) then E.Binary(o1, A, E.Binary(o2, B, C))
               else E.Binary(o2, E.Binary(o1, A, B), C)), table)
  {
    var (A, B, C) := (E.Number(a), E.Number(b), E.Number(c));
    var d := [Number(a), Op(o1), Number(b), Op(o2), Number(c)];
    NumbersAndOperators(d, table);
    var t1 := E.Binary(o1, A, B);
    var t2 := if Ops.Order(o1) < Ops.Order(o2) then E.ChangeY(t1, E.Binary(o2, B, C)) else E.Binary(o2, t1, C);
    if Ops.Order(o1) < Ops.Order(o2) {
      E.BinaryOfParts(t2);
    }
    InfixPrefix(d, o1, table);
    InfixOperand(d, 3, Number(b), t1, o2, table);
  }

  /** A stream of numbers and operators goes straight to the loop: nothing to look up. */
  lemma NumbersAndOperators(d: seq<Token>, table: map<string, R.Rational>)
    requires |d| > 1 && forall j :: 0 <= j < |d| ==> d[j].Number? || d[j].Op?
    ensures ParseToOperationsOf(d, table) == Run(d, 0, Initial(), table)
  {
    assert Substitute(d, table) == d;
    assert Invalid !in d;
  }

  /** A stream starting `a op b` reaches its fourth token with the tree op(a, b). */
  lemma InfixPrefix(d: seq<Token>, op: Ops.OpType, table: map<string, R.Rational>)
    requires |d| >= 3 && d[0].Number? && d[1] == Op(op) && !Ops.IsForward(op) && d[2].Number?
    ensures Run(d, 0, Initial(), table) ==
      Run(d, 3, State(d[2], 0, E.Binary(op, E.Number(d[0].value), E.Number(d[2].value))), table)
  {
    var t := E.Binary(op, E.Number(d[0].value), E.Number(d[2].value));
    var s1 := State(d[0], 0, E.Number(R.Zero()));
    var s2 := State(Op(op), 1, t);
    NumberStep(d, 0, Initial(), table);
    RunNext(d, 0, Initial(), table, s1, table);
    RunNext(d, 1, s1, table, s2, table);
    SkipStep(d, 2, s2, table);
    RunNext(d, 2, s2, table, State(d[2], 0, t), table);
  }

  /** The test trees: 2 - 2 / 3 is 2 - (2 / 3), and 2 * 2 / 3 is (2 * 2) / 3. */
  lemma ChainExamples(table: map<string, R.Rational>)
    ensures var (two, three) := (E.Number(R.Rational(2, 1)), E.Number(R.Rational(3, 1)));
      ParseToOperationsOf([Number(R.Rational(2, 1)), Op(Ops.Sub), Number(R.Rational(2, 1)), Op(Ops.Div), Number(R.Rational(3, 1))], table)
        == (Success(E.Sub(two, E.Div(two, three))), table) &&
      ParseToOperationsOf([Number(R.Rational(2, 1)), Op(Ops.Mul), Number(R.Rational(2, 1)), Op(Ops.Div), Number(R.Rational(3, 1))], table)
        == (Success(E.Div(E.Mul(two, two), three)), table)
  {
    InfixChain(R.Rational(2, 1), R.Rational(2, 1), R.Rational(3, 1), Ops.Sub, Ops.Div, table);
    InfixChain(R.Rational(2, 1), R.Rational(2, 1), R.Rational(3, 1), Ops.Mul, Ops.Div, table);
  }

  /**
   * Reordering reaches only one level into the tree: in `a + b * c ^ d` the power takes the
   * product b * c, not c alone, as its base.
   */
  lemma ReorderOneLevel(a: R.Rational, b: R.Rational, c: R.Rational, e: R.Rational, table: map<string, R.Rational>)
    ensures var (A, B, C, D) := (E.Number(a), E.Number(b), E.Number(c), E.Number(e));
      ParseToOperationsOf([Number(a), Op(Ops.Add), Number(b), Op(Ops.Mul), Number(c), Op(Ops.Pow), Number(e)], table) ==
      (Success(E.Add(A, E.Pow(E.Mul(B, C), D))), table)
  {
    var (A, B, C, D) := (E.Number(a), E.Number(b), E.Number(c), E.Number(e));
    var d := [Number(a), Op(Ops.Add), Number(b), Op(Ops.Mul), Number(c), Op(Ops.Pow), Number(e)];
    NumbersAndOperators(d, table);
    var t1 := E.Add(A, B);
    var t2 := E.Add(A, E.Mul(B, C));
    var t3 := E.Add(A, E.Pow(E.Mul(B, C), D));
    InfixPrefix(d, Ops.Add, table);
    InfixOperand(d, 3, Number(b), t1, Ops.Mul, table);
    assert E.ChangeY(t1, E.Binary(Ops.Mul, t1.y, C)) == t2;
    InfixOperand(d, 5, Number(c), t2, Ops.Pow, table);
    assert E.ChangeY(t2, E.Binary(Ops.Pow, t2.y, D)) == t3;
  }

  /** An infix operator and its right operand, after a binary tree: two tokens of the loop. */
  lemma InfixOperand(d: seq<Token>, i: nat, prev: Token, t: E.Expr, op: Ops.OpType, table: map<string, R.Rational>)
    requires i + 1 < |d| && d[i] == Op(op) && !Ops.IsForward(op) && d[i + 1].Number? && E.GetY(t).Some?
    ensures var z := E.Number(d[i + 1].value);
      var t' := if E.GetOrder(t) < Ops.Order(op) then E.ChangeY(t, E.Binary(op, t.y, z)) else E.Binary(op, t, z);
      Run(d, i, State(prev, 0, t), table) == Run(d, i + 2, State(d[i + 1], 0, t'), table)
  {
    var z := E.Number(d[i + 1].value);
    var t' := if E.GetOrder(t) < Ops.Order(op) then E.ChangeY(t, E.Binary(op, t.y, z)) else E.Binary(op, t, z);
    var s := State(prev, 0, t);
    InfixStep(d, i, s, table, op);
    RunNext(d, i, s, table, State(Op(op), 1, t'), table);
    SkipStep(d, i + 1, State(Op(op), 1, t'), table);
    RunNext(d, i + 1, State(Op(op), 1, t'), table, State(d[i + 1], 0, t'), table);
  }

  /** A forward operator takes the numbers after it: `sqrt a` and `log a b`. */
  lemma ForwardOperands(a: R.Rational, b: R.Rational, table: map<string, R.Rational>)
    ensures ParseToOperationsOf([Op(Ops.Root), Number(a)], table) == (Success(E.Root(E.Number(a))), table)
    ensures ParseToOperationsOf([Op(Ops.Log), Number(a), Number(b)], table) == (Success(E.Log(E.Number(a), E.Number(b))), table)
  {
    var d1 := [Op(Ops.Root), Number(a)];
    assert Substitute(d1, table) == d1;
    var r := State(Op(Ops.Root), 1, E.Root(E.Number(a)));
    RunNext(d1, 0, Initial(), table, r, table);
    RunNext(d1, 1, r, table, State(Number(a), 0, E.Root(E.Number(a))), table);
    var d2 := [Op(Ops.Log), Number(a), Number(b)];
    assert Substitute(d2, table) == d2;
    var l := E.Log(E.Number(a), E.Number(b));
    var s1 := State(Op(Ops.Log), 2, l);
    var s2 := State(Number(a), 1, l);
    RunNext(d2, 0, Initial(), table, s1, table);
    RunNext(d2, 1, s1, table, s2, table);
    RunNext(d2, 2, s2, table, State(Number(b), 0, l), table);
  }

  /** An infix operator after a root applies to the whole root: `sqrt a + b` is (sqrt a) + b. */
  lemma RootThenInfix(a: R.Rational, b: R.Rational, table: map<string, R.Rational>)
    ensures ParseToOperationsOf([Op(Ops.Root), Number(a), Op(Ops.Add), Number(b)], table) ==
      (Success(E.Add(E.Root(E.Number(a)), E.Number(b))), table)
  {
    var d := [Op(Ops.Root), Number(a), Op(Ops.Add), Number(b)];
    assert Substitute(d, table) == d;
    var t := E.Add(E.Root(E.Number(a)), E.Number(b));
    var s1 := State(Op(Ops.Root), 1, E.Root(E.Number(a)));
    var s2 := State(Number(a), 0, E.Root(E.Number(a)));
    var s3 := State(Op(Ops.Add), 1, t);
    RunNext(d, 0, Initial(), table, s1, table);
    RunNext(d, 1, s1, table, s2, table);
    RunNext(d, 2, s2, table, s3, table);
    RunNext(d, 3, s3, table, State(Number(b), 0, t), table);
  }

  /** A trailing infix operator misses its right operand, and a leading one its left. */
  lemma MissingOperands(a: R.Rational, op: Ops.OpType, table: map<string, R.Rational>)
    requires !Ops.IsForward(op)
    ensures ParseToOperationsOf([Number(a), Op(op)], table) == (Failure(ExpectedToken(2)), table)
    ensures ParseToOperationsOf([Op(op), Number(a)], table) == (Failure(NumberExpected), table)
  {
    var d1 := [Number(a), Op(op)];
    assert Substitute(d1, table) == d1;
    RunNext(d1, 0, Initial(), table, State(Number(a), 0, E.Number(R.Zero())), table);
    var d2 := [Op(op), Number(a)];
    assert Substitute(d2, table) == d2;
  }

  // ---------------------------------------------------------------------------------------
  // Variables

  /** `x = v` binds an unbound x to v, and the tree is v. */
  lemma AssignNumber(x: string, v: R.Rational, table: map<string, R.Rational>)
    requires x !in table
    ensures ParseToOperationsOf([Literal(x), Eq, Number(v)], table) == (Success(E.Number(v)), table[x := v])
  {
    var d := [Literal(x), Eq, Number(v)];
    assert Substitute(d, table) == d;
    var s1 := State(Literal(x), 0, E.Number(R.Zero()));
    var s2 := State(Eq, 0, E.Number(v));
    RunNext(d, 0, Initial(), table, s1, table);
    RunNext(d, 1, s1, table, s2, table[x := v]);
    NumberStep(d, 2, s2, table[x := v]);
    RunNext(d, 2, s2, table[x := v], State(Number(v), 0, E.Number(v)), table[x := v]);
  }

  /** `y = x` with x bound binds y to the value of x. */
  lemma AssignVariable(y: string, x: string, table: map<string, R.Rational>)
    requires y !in table && x in table
    ensures ParseToOperationsOf([Literal(y), Eq, Literal(x)], table) ==
      (Success(E.Number(table[x])), table[y := table[x]])
  {
    var d := [Literal(y), Eq, Number(table[x])];
    assert Substitute([Literal(y), Eq, Literal(x)], table) == d;
    AssignNumber(y, table[x], table);
    assert Substitute(d, table) == d;
  }

  /** Assigning to a bound name changes nothing: the name was already replaced by its number. */
  lemma AssignBound(x: string, v: R.Rational, table: map<string, R.Rational>)
    requires x in table
    ensures ParseToOperationsOf([Literal(x), Eq, Number(v)], table) == (Success(E.Number(R.Zero())), table)
  {
    var d := [Number(table[x]), Eq, Number(v)];
    assert Substitute([Literal(x), Eq, Number(v)], table) == d;
    var s1 := State(Number(table[x]), 0, E.Number(R.Zero()));
    var s2 := State(Eq, 0, E.Number(R.Zero()));
    NumberStep(d, 0, Initial(), table);
    RunNext(d, 0, Initial(), table, s1, table);
    RunNext(d, 1, s1, table, s2, table);
    NumberStep(d, 2, s2, table);
    RunNext(d, 2, s2, table, State(Number(v), 0, E.Number(R.Zero())), table);
  }

  /** `y = x` with both unbound fails on x, the unknown last token. */
  lemma AssignUnknown(y: string, x: string, table: map<string, R.Rational>)
    requires y !in table && x !in table
    ensures ParseToOperationsOf([Literal(y), Eq, Literal(x)], table) == (Failure(UnknownLiteral(x)), table)
  {
    var d := [Literal(y), Eq, Literal(x)];
    assert Substitute(d, table) == d;
    var s1 := State(Literal(y), 0, E.Number(R.Zero()));
    var s2 := State(Eq, 0, E.Number(R.Zero()));
    RunNext(d, 0, Initial(), table, s1, table);
    RunNext(d, 1, s1, table, s2, table);
  }

  /** A session: after `x = v`, the stream `x * w` is the product v * w. */
  lemma SessionExample(x: string, v: R.Rational, w: R.Rational, table: map<string, R.Rational>)
    requires x !in table
    ensures var t1 := ParseToOperationsOf([Literal(x), Eq, Number(v)], table).1;
      t1 == table[x := v] &&
      ParseToOperationsOf([Literal(x), Op(Ops.Mul), Number(w)], t1) == (Success(E.Mul(E.Number(v), E.Number(w))), t1)
  {
    AssignNumber(x, v, table);
    var t1 := table[x := v];
    var d := [Number(v), Op(Ops.Mul), Number(w)];
    assert Substitute([Literal(x), Op(Ops.Mul), Number(w)], t1) == d;
    InfixPair(v, w, Ops.Mul, t1);
    assert Substitute(d, t1) == d;
  }

  // ---------------------------------------------------------------------------------------
  // Parse: sanitise, build the tree, evaluate

  /** `parse` on a token stream: its value and the table afterwards. */
  function ParseOf(data: seq<Token>, table: map<string, R.Rational>, fl: R.FloatOps): (r: (Result<R.Rational, ParseError>, map<string, R.Rational>))
    ensures Extends(table, r.1)
    ensures Invalid in data ==> r == (Failure(InvalidTokens), table)
  {
    match SanitaseOf(data)
    case Failure(e) => (Failure(e), table)
    case Success(s) =>
      NoRebinding(s, table);
      ParseContractInvalid(data);
      var (tree, after) := ParseToOperationsOf(s, table);
      (match tree case Failure(e) => Failure(e) case Success(x) => Success(E.Apply(x, fl)), after)
  }

  /** Sanitising keeps Invalid tokens in a stream of one and rejects them in longer ones. */
  lemma ParseContractInvalid(data: seq<Token>)
    ensures SanitaseOf(data).Success? && Invalid in data ==> Invalid in SanitaseOf(data).value
  {
    SanitaseContract(data, OperandKinds);
  }

  method Parse(data: seq<Token>, known: KnownLiterals, fl: R.FloatOps) returns (r: Result<R.Rational, ParseError>)
    modifies known
    ensures (r, known.table) == ParseOf(data, old(known.table), fl)
  {
    var s := Sanitase(data);
    if s.Failure? {
      return Failure(s.error);
    }
    var tree := ParseToOperations(s.value, known);
    if tree.Failure? {
      return Failure(tree.error);
    }
    return Success(E.Apply(tree.value, fl));
  }

  /** The tokens of a debug stream, without their source text. */
  function TokensOf(pairs: seq<(string, Token)>): (ts: seq<Token>)
    ensures |ts| == |pairs| && forall j :: 0 <= j < |ts| ==> ts[j] == pairs[j].1
  {
    seq(|pairs|, j requires 0 <= j < |pairs| => pairs[j].1)
  }

  /** `parse` on a debug stream: the stream of its tokens is parsed. */
  method DbgParse(pairs: seq<(string, Token)>, known: KnownLiterals, fl: R.FloatOps) returns (r: Result<R.Rational, ParseError>)
    modifies known
    ensures (r, known.table) == ParseOf(TokensOf(pairs), old(known.table), fl)
  {
    r := Parse(TokensOf(pairs), known, fl);
  }

  /** A session: `x = 2` evaluates to 2 and binds x, then `x * 3` evaluates to 6. */
  lemma ParseSession(x: string, table: map<string, R.Rational>, fl: R.FloatOps)
    requires x !in table
    ensures var first := ParseOf([Literal(x), Eq, Number(R.Rational(2, 1))], table, fl);
      first == (Success(R.Rational(2, 1)), table[x := R.Rational(2, 1)]) &&
      ParseOf([Literal(x), Op(Ops.Mul), Number(R.Rational(3, 1))], first.1, fl) == (Success(R.Rational(6, 1)), first.1)
  {
    var (two, three) := (R.Rational(2, 1), R.Rational(3, 1));
    var d1 := [Literal(x), Eq, Number(two)];
    var d2 := [Literal(x), Op(Ops.Mul), Number(three)];
    SanitaseIdentity(d1);
    SanitaseIdentity(d2);
    AssignNumber(x, two, table);
    SessionExample(x, two, three, table);
    NumberTheory.GcdOne(6);
    R.ReduceFixesReduced(R.Rational(6, 1));
  }
}
