# rust_calc: a verified model of the exact-fraction calculator

rust_calc reads a line such as `x = 2` and then `sqrt 4 + 2 x`, and prints each value as an exact
fraction. The pipeline has four stages:

1. The **tokenizer** splits the line at spaces and operator characters and classifies each
   piece. A piece can be an operator, a parenthesis, `=`, a number or a variable name.
2. The **implicit-multiplication pass** (`sanitase`) inserts `*` between two adjacent
   operands, so `2 x` means `2 * x`. A glued `2x` is one piece and names a variable.
3. The **tree builder** (`parse_to_operations`) makes one forward pass over the tokens. It
   tracks a skip count, the previous token and the tree built so far. A table of variables
   bound by `=` is kept between lines.
4. The **evaluator** (`apply`) computes the tree over `Rational`, a numerator/denominator
   pair kept in lowest terms.

The current crate lives in `core/`. The top-level `src/` files are an older snapshot of the
same pipeline, and this project models them as variants:

- an older tokenizer with fewer delimiters, which marks every unknown word Invalid;
- the oldest tokeniser, which splits on single spaces;
- an older parser with no variables and no `=`.

## Modules

| module | file | source |
|---|---|---|
| `NumberTheory` | `number_theory.dfy` | Euclid's gcd as a recursive function, with its facts. |
| `Strings` | `strings.dfy` | Integer rendering, ASCII lower-casing, splitting on a single character. |
| `Rationals` | `rationals.dfy` | `core/src/rational.rs`, and `src/rational.rs`. The older file differs in three ways: its `From<f64>` reduces p/1 directly; it has no `Rem` impl; and its `From<f32>` builds reduce(p/1) itself instead of calling `From<f64>`. |
| `Decimals` | `decimals.dfy` | Floats as exact decimals m/10^k, their shortest rendering, plain decimal parsing, `From<f64>`. |
| `Splitting` | `splitting.dfy` | The `split` loop, generic in its delimiter list. |
| `Ops` | `ops.dfy` | The operator kinds (`OpType`). |
| `Expressions` | `expressions.dfy` | The expression tree and evaluator (`src/op.rs`). |
| `Tokenizer` | `tokenizer.dfy` | `core/src/tokenizer.rs` |
| `Parser` | `parser.dfy` | `core/src/parser.rs` |
| `OldTokenizer` | `old_tokenizer.dfy` | `src/tokenizer.rs` |
| `OldTokeniser` | `old_tokeniser.dfy` | `src/tokeniser.rs` |
| `OldParser` | `old_parser.dfy` | `src/parser.rs` |

## Modelling choices

- **The Rational pair.** `Rational(p, q)` holds two unbounded integers. The source stores
  them as f64. The model uses exact integers throughout and abstracts away rounding, so it
  describes the fraction the source means to build. The source does not always get there:
  see `Decimals.FromFloat` under "## Left out".
- **Zero denominators.**
  - `reduce` of `0/0` produces the NaN pair. The model writes it `Rational(0, 0)`, which
    displays as `NaN/NaN`.
  - Any other zero denominator reduces to `±1/0`, which displays as `undefined`.
- **Floating-point operations.** `sqrt`, `pow`, `log` and `%` go through the float library.
  They are an explicit parameter `fl: FloatOps` whose results are then reduced.
- **Floats from the tokenizer.** A float is taken to be the decimal it prints as,
  `Decimal(m, k)`, meaning m/10^k; the binary value it really holds is not modelled.
  `to_string` is the shortest rendering with no exponent. `parse::<f64>` accepts
  plain decimal literals only: digits, optionally `.` and digits, with at least one digit.
  `From<f64>` follows the source's steps: render, split at `.`, and scale both parts by
  10^(digits after the point). The scaling is exact in the model and rounded in the source
  (see `Decimals.FromFloat` under "## Left out").
- **In-place updates.**
  - `com_den` rescales both values; it is a function returning the rescaled pair.
  - `Op::change_y` replaces a node's right child; it is a function returning the new node.
  - `sanitase` inserts into the vector it indexes while walking a copy; the method keeps
    this loop.
  - `parse_to_operations` has a `for` loop, and the variable table `KnownLiterals` is a
    class whose map the method changes.
- **Operator kinds.** `core/src/op.rs` is not part of this model. The enum `OpType` is
  defined from the way the tokenizers and parsers use it:
  - Root and Log come before their operands (`is_forward`).
  - Root consumes one token and Log two. An infix operator consumes two, and the parser
    gives one back.
  - The binding orders are those of `Op::get_order`; `Mod` gets the order of Mul and Div.
- **Reverse binding.** An operator that binds tighter than the root of the tree built so far
  replaces only the root's right child. `Parser.ReorderOneLevel` shows that this reaches
  one level only: in `a + b * c ^ d` the base of the power is the product `b * c`.
- **Insertion index in `sanitase`.** The pass inserts at the index it has reached in the
  original stream, even when that vector already grew: `2 3 4` becomes `2 * * 3 4`. The
  model keeps this (`Parser.SanitaseThreeNumbers`).
- **The older snapshot's stages are modelled separately.** Their types do not connect: the
  old tokenizer produces f64 numbers, while the old parser builds trees with Rational
  leaves.
  - The old tokenizer's number payload is its `Decimal`.
  - The old parser runs over the current token type. Variables and `=` are then ordinary
    tokens it never special-cases.
  - The old `src/op.rs` has no `Mod`; the old tokenizer never produces one.

## Model

| member | source | states |
|---|---|---|
| NumberTheory.GcdZero | core/src/rational.rs:9-18 | The gcd is zero exactly when both arguments are zero. |
| NumberTheory.GcdDivides | core/src/rational.rs:9-18 | For arguments that are not both zero, the gcd is positive and divides both. |
| NumberTheory.GcdGreatest | core/src/rational.rs:9-18 | Every positive common divisor divides the gcd. |
| NumberTheory.GcdHomogeneous | core/src/rational.rs:9-18 | gcd(k x, k y) = k gcd(x, y). |
| NumberTheory.CoprimeQuotients | core/src/rational.rs:37-48 | Dividing both values by their nonzero gcd leaves coprime quotients. |
| NumberTheory.EuclidLemma | core/src/rational.rs:37-48 | If m divides a k and gcd(a, m) = 1, then m divides k; used for uniqueness of lowest terms. |
| Rationals.Gcd | core/src/rational.rs:9-18 | The loop returns Euclid's gcd of the absolute values. gcd(x, 0) = abs(x). For inputs not both zero the result is a positive common divisor. |
| Rationals.Lcm | core/src/rational.rs:20-22 | For nonzero arguments the result is a nonzero common multiple, and lcm * gcd = x y. |
| Rationals.LcmFacts | src/rational.rs:18-20 | x y / gcd is a nonzero multiple of both nonzero arguments, and the division is exact. |
| Rationals.New | core/src/rational.rs:25-27 | The pair is stored as given, with no reduction. |
| Rationals.Zero | core/src/rational.rs:29-31 | Zero is reduced and has numerator 0. |
| Rationals.One | core/src/rational.rs:33-35 | One is reduced and has equal numerator and denominator. |
| Rationals.Reduce | core/src/rational.rs:37-48 | The denominator becomes nonnegative, and it is zero exactly when the input's is. |
| Rationals.ReduceParts | core/src/rational.rs:37-48 | A nonzero denominator gets its sign moved to the numerator; both parts are then divided by their gcd, which leaves them coprime. |
| Rationals.ReduceNormal | core/src/rational.rs:37-48 | For q != 0, the result is in lowest terms with q > 0 and has the same value. |
| Rationals.ReduceZeroDen | core/src/rational.rs:37-48 | 0/0 gives the NaN pair; p/0 with p != 0 gives sign(p)/0, which displays as undefined. |
| Rationals.ReduceFixesReduced | core/src/rational.rs:227 | A pair already in lowest terms is left unchanged. |
| Rationals.ReduceIdempotent | core/src/rational.rs:37-48 | Reducing twice is the same as reducing once. |
| Rationals.ReducedUnique | core/src/rational.rs:37-48 | Two reduced pairs with the same value are equal. |
| Rationals.ReduceCanonical | core/src/rational.rs:37-48 | Pairs with nonzero denominators and equal values reduce to the same pair. |
| Rationals.ReduceExamples | core/src/rational.rs:223-227 | The tests: 10/-2 gives -5/1, -2/-10 gives 1/5, and 3/2 stays 3/2. |
| Rationals.ComDen | core/src/rational.rs:51-58 | For nonzero denominators, both results have the denominator lcm(q1, q2) and keep their values. A zero denominator gives the NaN pair for both. |
| Rationals.Rescaled | core/src/rational.rs:51-58 | Scaling p and q by l / q, where q divides l, keeps the value. |
| Rationals.Add | core/src/rational.rs:162-169 | Definition: common denominator, add the numerators, reduce. Characterised by `Rationals.AddValue`. |
| Rationals.Sub | core/src/rational.rs:171-178 | Definition: common denominator, subtract the numerators, reduce. Characterised by `Rationals.SubValue`. |
| Rationals.Mul | core/src/rational.rs:180-187 | Definition: multiply both parts, reduce. Characterised by `Rationals.MulValue`. |
| Rationals.Div | core/src/rational.rs:189-196 | Definition: cross-multiply, reduce. Characterised by `Rationals.DivIsMulReciprocal` and `Rationals.DivByZero`. |
| Rationals.AddValue | core/src/rational.rs:162-169 | a + b is the reduced form of (p1 q2 + p2 q1) / (q1 q2). |
| Rationals.SubValue | core/src/rational.rs:171-178 | a - b is the reduced form of (p1 q2 - p2 q1) / (q1 q2). |
| Rationals.AddSubZeroDen | core/src/rational.rs:162-178 | With a zero denominator on either side, + and - give the NaN pair. |
| Rationals.SubIsAddNeg | core/src/rational.rs:171-178 | a - b equals a + (-b). |
| Rationals.AddCommutes | core/src/rational.rs:162-169 | + is commutative. |
| Rationals.AddNegIsZero | core/src/rational.rs:162-169 | A defined value plus its negation is zero. |
| Rationals.MulValue | core/src/rational.rs:180-187 | The product is p1 p2 / (q1 q2) in lowest terms. |
| Rationals.MulCommutes | core/src/rational.rs:180-187 | * is commutative. |
| Rationals.DivIsMulReciprocal | core/src/rational.rs:189-196 | Division is cross-multiplication, i.e. multiplication by q2/p2. |
| Rationals.DivByZero | core/src/rational.rs:189-196 | A zero divisor gives a zero denominator. The result is the NaN pair exactly when the dividend's numerator is 0, and undefined otherwise. |
| Rationals.OperatorsReduced | core/src/rational.rs:162-196 | The results of + - * / are fixed points of reduce. |
| Rationals.Neg | core/src/rational.rs:198-205 | Negation keeps the denominator and negates the numerator, without reducing. |
| Rationals.NegInvolution | src/rational.rs:188-195 | Negating twice gives back the original pair. |
| Rationals.Abs | core/src/rational.rs:64-70 | For q != 0, the result is reduced, nonnegative, and has the value abs(p)/abs(q). |
| Rationals.Sqrt | core/src/rational.rs:72-78 | The float square root's result is reduced. |
| Rationals.Pow | core/src/rational.rs:80-91 | The float power's result is reduced. |
| Rationals.Log | core/src/rational.rs:93-100 | The float logarithm's result is reduced. |
| Rationals.Rem | core/src/rational.rs:207-217 | The float remainder's result is reduced. |
| Rationals.Display | core/src/rational.rs:117-130 | Definition: the reduced pair as "undefined", "NaN/NaN", an integer, or p/q. Characterised by the `Rationals.Display*` lemmas. |
| Rationals.DisplayStart | core/src/rational.rs:117-130 | A defined value's text starts with '-' or a digit. |
| Rationals.DisplayUndefined | core/src/rational.rs:117-130 | The text is "undefined" exactly when q = 0 and p != 0. |
| Rationals.DisplayNaN | core/src/rational.rs:117-130 | The text is "NaN/NaN" exactly for the 0/0 pair. |
| Rationals.DisplayInteger | core/src/rational.rs:117-130 | A value whose reduced denominator is 1 is shown as the bare integer. |
| Rationals.DisplayFaithful | core/src/rational.rs:117-130 | For defined values, equal texts mean equal values, and equal values mean equal texts. |
| Rationals.OldFromFloat | src/rational.rs:130-134 | The older From<f64> on the float m / 2^e is in lowest terms and has that value; an integer n gives n/1. |
| Decimals.Render | core/src/rational.rs:134 | Definition: the float's shortest decimal text, as `to_string` prints it. Characterised by `Decimals.RenderPieces` and `Decimals.ParseRender`. |
| Decimals.FromFloat | core/src/rational.rs:132-148 | Definition: scale by ten to the number of digits after the point, then reduce. Characterised by the `Decimals.FromFloat*` lemmas. |
| Decimals.Normalize | core/src/rational.rs:132-148 | Trailing zeros after the point are removed, and the value stays the same. |
| Decimals.RenderPieces | core/src/rational.rs:134-136 | The rendering splits at '.' into one piece, or into two when the normalized value has k > 0 digits after the point; the second piece then has exactly k digits. |
| Decimals.FromFloatValue | core/src/rational.rs:132-148 | From<f64> gives the reduced form of m / 10^k. |
| Decimals.FromFloatDependsOnValue | core/src/rational.rs:132-148 | Two floats with the same value give the same fraction. |
| Decimals.FromFloatNormal | core/src/rational.rs:132-148 | The result is in lowest terms and has the float's value. |
| Decimals.FromFloatExamples | core/src/rational.rs:240-261 | The tests: 3.4 gives 17/5, 0.5 gives 1/2, 2.0 gives 2/1 and 0.0 gives 0/1. |
| Decimals.OldFromFloatAgrees | src/rational.rs:130-134 | On a value both can represent, the older From<f64> and the current one give the same fraction. |
| Decimals.OldFromFloatHalf | src/rational.rs:130-134 | The older From<f64> gives 1/2 for 0.5. |
| Decimals.FromFloatInteger | core/src/rational.rs:132-148 | An integer n gives n/1. |
| Decimals.ParseDecimal | core/src/tokenizer.rs:186-192 | A parsed literal is never negative. |
| Decimals.ParseRender | core/src/rational.rs:132-148 | Parsing the rendering of a nonnegative float gives back its normalized value. |
| Splitting.FindSpec | core/src/tokenizer.rs:104-109 | `find` gives the first index holding the character, and None exactly when the character is absent. |
| Splitting.FirstInSpec | core/src/tokenizer.rs:103-121 | The leftmost delimiter is found, with no delimiter before it, and None exactly when there is none. |
| Splitting.FoundIdxMin | core/src/tokenizer.rs:118-121 | The minimum of the found indices is the leftmost delimiter. |
| Splitting.FindAll | core/src/tokenizer.rs:103-109 | The loop collects the first index of every delimiter present. |
| Splitting.Split | core/src/tokenizer.rs:98-135 | The loop returns the piece list of the specification `Pieces`. |
| Splitting.Pieces | core/src/tokenizer.rs:98-135 | Definition: the pieces `split` returns, by recursion on the leftmost delimiter. Characterised by `Splitting.Split`, `Splitting.PiecesConcat`, `Splitting.PiecesShape` and `Splitting.PiecesOfItems`. |
| Splitting.PiecesConcat | core/src/tokenizer.rs:98-135 | Joining the pieces gives the input with every space removed. |
| Splitting.PiecesShape | core/src/tokenizer.rs:113-130 | Every piece is non-empty. It is either one non-space delimiter or contains no delimiter. |
| Splitting.PiecesOfItems | core/src/tokenizer.rs:98-135 | Words and delimiters, written with spaces where needed, split back into those words and delimiters, with the spaces dropped. |
| Ops.Order | src/op.rs:56-63 | Every order lies between 1 and 3, and forward operators have order 3. |
| Ops.ConsumeCount | core/src/parser.rs:127-139 | Root takes one token, Log two, and an infix operator two, one of which the parser gives back. |
| Ops.IsForward | src/tokenizer.rs:29-39 | Definition: Root and Log are forward. `Ops.Order` states that forward operators have order 3. |
| Expressions.Apply | src/op.rs:16-29 | A number evaluates to itself; every other node gives a reduced value. |
| Expressions.ArithmeticExact | src/op.rs:16-29 | A tree of numbers with only + - * / does not depend on the float library. |
| Expressions.DefinedValue | src/op.rs:16-29 | A tree of + - * over defined numbers has a defined value, in lowest terms unless it is a leaf. |
| Expressions.GetOrder | src/op.rs:56-63 | The order is 0 exactly for a number; otherwise it is the order of the root's operator. |
| Expressions.GetY | src/op.rs:31-41 | The right child is returned for every binary node; Root and Number give None. |
| Expressions.ChangeY | src/op.rs:42-54 | On a binary node, the new right child is returned by GetY, and kind, left child and order stay the same. On Root or Number nothing changes. |
| Expressions.Binary | src/op.rs:4-13 | The node built for an infix operator has that kind, the two operands as children, and the operator's order. |
| Expressions.BinaryOfParts | src/op.rs:31-41 | A node with a right child is rebuilt from its kind and children. |
| Tokenizer.GetType | core/src/tokenizer.rs:44-54 | Definition: the tag of each token variant. |
| Tokenizer.Keyword | core/src/tokenizer.rs:173-184 | Definition: the table of operator words and punctuation. Characterised by `Tokenizer.ClassifyOperators`, `Tokenizer.ClassifyWords` and `Tokenizer.ClassifyPunctuation`. |
| Tokenizer.AsOpType | core/src/tokenizer.rs:56-59 | Some exactly for an operator token, with its kind. |
| Tokenizer.AsNr | core/src/tokenizer.rs:60-65 | Some exactly for a number token, with its value. |
| Tokenizer.Classify | core/src/tokenizer.rs:170-192 | Never Invalid. A Literal is the lower-cased piece, and it is neither a keyword nor a number. A Number is not a keyword. |
| Tokenizer.ClassifyNumberValue | core/src/tokenizer.rs:186-190 | A number piece's value is From<f64> of the parsed float. |
| Tokenizer.ClassifyCaseInsensitive | core/src/tokenizer.rs:171 | The class of a piece is that of its lower-case form. |
| Tokenizer.ClassifyOperators | core/src/tokenizer.rs:174-183 | * / + - ^ % map to their operators. |
| Tokenizer.ClassifyWords | core/src/tokenizer.rs:179-180 | sqrt, rt and root map to Root, and log and lg to Log, in any case. |
| Tokenizer.ClassifyPunctuation | core/src/tokenizer.rs:181-184 | ( ) and = map to OpenP, CloseP and Eq. |
| Tokenizer.ClassifyInteger | core/src/tokenizer.rs:186-190 | A digit string is a number n/1. |
| Tokenizer.ClassifyFraction | core/src/tokenizer.rs:186-190 | "a.b" is reduce(ab / 10^abs(b)). |
| Tokenizer.ClassifyName | core/src/tokenizer.rs:186-192 | A non-empty piece made only of letters that is no keyword is the Literal of its lower-case form. |
| Tokenizer.ClassifyWholeExample | core/src/tokenizer.rs:223 | "123" gives 123/1. |
| Tokenizer.ClassifyPointZeroExample | core/src/tokenizer.rs:224 | "123.0" gives 123/1. |
| Tokenizer.ClassifyHundredthExample | core/src/tokenizer.rs:225 | ".01" gives 1/100. |
| Tokenizer.ClassifyUpperExample | core/src/tokenizer.rs:186-192 | "A" gives Literal("a"). |
| Tokenizer.ClassifyGluedExample | core/src/tokenizer.rs:99 | "2x" is no number, so it is the variable name "2x": no delimiter separates a digit from a letter. |
| Tokenizer.TokenStream | core/src/tokenizer.rs:166-168 | There is one token per piece of `split`. |
| Tokenizer.Tokenize | core/src/tokenizer.rs:166-168 | The stream is the classification of each piece of `split`, in order. |
| Tokenizer.DbgTokenize | core/src/tokenizer.rs:157-164 | Each pair holds a piece and its token, and the tokens in order are those of `tokenize`. |
| Tokenizer.TokenStreamValid | core/src/tokenizer.rs:166-192 | A tokenized line holds no Invalid token. |
| Tokenizer.PreTokenize | core/src/tokenizer.rs:137-155 | Without '#' the result is the line and the default options. With '#' it is the text after the first '#'; debug is set exactly when a 'd' precedes it, and as_float exactly when an 'f' does. |
| Tokenizer.SplitLog | core/src/tokenizer.rs:210 | "log a b" splits into log, a, b. |
| Tokenizer.SplitRoot | core/src/tokenizer.rs:211 | "sqrt a ^ b" splits into sqrt, a, ^, b. |
| Tokenizer.SplitSlashes | core/src/tokenizer.rs:206-209 | "a/ b*" followed by n slashes splits into a, /, b, * and n separate slashes. |
| Tokenizer.TokenizeWords | core/src/tokenizer.rs:239-268 | "x y*z" tokenizes to the classes of x and y, then Mul, then the class of z. |
| Tokenizer.TokenizeExample | core/src/tokenizer.rs:261-268 | TokenStream("a 1*123") is Literal("a"), 1/1, Mul, 123/1. |
| Parser.ExpectedTokenMessages | core/src/parser.rs:66-76 | Different positions give different "Expected token at" messages. |
| Parser.KnownLiterals.constructor | core/src/parser.rs:6 | The table starts empty. |
| Parser.KnownLiterals.Get | core/src/parser.rs:179-188 | A lookup succeeds exactly for a bound name and returns its value. |
| Parser.KnownLiterals.Insert | core/src/parser.rs:162-177 | Inserting binds the name to the value and changes no other binding. |
| Parser.Message | core/src/parser.rs:35 | Definition: the error texts of lines 35, 71, 73, 80, 166 and 185. Characterised by `Parser.ExpectedTokenMessages`. |
| Parser.SanitaseWith | core/src/parser.rs:30-64 | Definition: `sanitase` over a given set of operand kinds. Characterised by `Parser.SanitaseContract`. |
| Parser.SanitaseOf | core/src/parser.rs:30-64 | Definition: `SanitaseWith` with numbers and variables as operands. Characterised by `Parser.SanitaseContract` and the `Parser.Sanitase*` examples. |
| Parser.SanitaseFrom | core/src/parser.rs:38-61 | The loop from position i adds at most one token per remaining input token. |
| Parser.SanitaseLoop | core/src/parser.rs:30-64 | The in-place insertion loop computes `SanitaseWith`. |
| Parser.Sanitase | core/src/parser.rs:30-64 | The current pass, with numbers and variables as operands. |
| Parser.MulExtensionInsert | core/src/parser.rs:53-56 | Inserting one more Mul keeps the input an ordered subsequence of the output, every other token being a Mul. |
| Parser.SanitaseContract | core/src/parser.rs:30-64 | A stream of length 0 or 1 comes back as it is. A longer one fails, with the invalid-tokens error, exactly when it holds Invalid; otherwise the result is the input with Mul tokens inserted. |
| Parser.SanitaseIdentity | core/src/parser.rs:38-61 | A valid stream with no two neighbouring operands comes back unchanged. |
| Parser.SanitaseNumberVariable | core/src/parser.rs:46-57 | "2 x" (a number, then a variable) gets a Mul between the number and the variable. |
| Parser.SanitaseThreeNumbers | core/src/parser.rs:46-57 | Three numbers get both inserted Muls at indices 1 and 2, because the insertion index is that of the original stream. |
| Parser.SanitaseAfterForward | core/src/parser.rs:49-53 | Numbers right after a forward operator get no Mul, since the token two places back is that operator. |
| Parser.NextToken | core/src/parser.rs:66-76 | Succeeds exactly for a number k places ahead. A position past the end gives "Expected token at" that position; another token gives "Number expected.". |
| Parser.PrevToken | core/src/parser.rs:78-82 | Succeeds exactly for a number token; anything else fails with "Number expected.". |
| Parser.Resolve | core/src/parser.rs:90-101 | A bound variable becomes its number. An unbound one stays, and other tokens are unchanged. |
| Parser.Substitute | core/src/parser.rs:90-101 | Every token of the stream is resolved, and the length is kept. |
| Parser.Initial | core/src/parser.rs:112-114 | Definition: the loop starts with prev Invalid, skip 0 and the tree holding the number 0. Characterised by `Parser.InfixPrefix` and `Parser.NoRebinding`, whose pass starts from it. |
| Parser.OperatorStep | core/src/parser.rs:125-159 | Definition: the node an operator builds and its skip count. Characterised by `Parser.InfixStep`, `Parser.ForwardOperands` and `Parser.MissingOperands`. |
| Parser.AssignStep | core/src/parser.rs:162-177 | Definition: the `=` branch. Characterised by `Parser.AssignNumber`, `Parser.AssignVariable` and `Parser.StepKeepsInv`. |
| Parser.Lookup | core/src/parser.rs:179-188 | Definition: the retroactive lookup. Characterised by `Parser.AssignUnknown`. |
| Parser.Step | core/src/parser.rs:116-192 | Definition: one iteration of the loop. Characterised by `Parser.StepKeepsInv` and `Parser.RunNext`. |
| Parser.Run | core/src/parser.rs:116-192 | Definition: the loop from token i. Characterised by `Parser.RunNext` and `Parser.StepKeepsInv`. |
| Parser.ParseToOperationsOf | core/src/parser.rs:84-194 | Definition: `parse_to_operations`. Characterised by `Parser.ShortStreams`, `Parser.InfixPair`, `Parser.InfixChain` and `Parser.NoRebinding`. |
| Parser.ParseToOperations | core/src/parser.rs:84-194 | The loop computes the tree and table of `ParseToOperationsOf` from the old table. |
| Parser.Assign | core/src/parser.rs:162-177 | After a variable, `=` binds it to the number that follows, or to the value of a bound variable there, and yields that value. An unbound variable or any other token there, or a non-variable before `=`, changes nothing. Only a missing right-hand token fails ("Expected token at"), and then the table is unchanged. |
| Parser.RetroactiveLookup | core/src/parser.rs:179-188 | A variable still unresolved at its turn is looked up. A bound one becomes its number; an unbound one fails with "Unknown literal" only when it is the last token, and is otherwise kept. |
| Parser.LoopStep | core/src/parser.rs:116-192 | One iteration of the loop moves the state and the table on as the step function says, or fails with the table unchanged. |
| Parser.RunNext | core/src/parser.rs:116-192 | One successful iteration moves the loop on to the next token. |
| Parser.NumberStep | core/src/parser.rs:189-191 | A number outside a skip only becomes the previous token. |
| Parser.SkipStep | core/src/parser.rs:118-122 | A token inside a skip is passed over and the skip count decreases. |
| Parser.InfixStep | core/src/parser.rs:125-159 | An infix operator after a binary tree takes the tree as its left operand. If it binds tighter than the root, it takes only the root's right child. |
| Parser.StepKeepsInv | core/src/parser.rs:116-192 | An iteration keeps the loop invariant and never removes or rebinds a name. Only at `=` can the table change. |
| Parser.NoRebinding | core/src/parser.rs:162-177 | Every binding in the table before the pass is still there, unchanged, after it. |
| Parser.ExpectedPastEnd | core/src/parser.rs:66-76 | An "Expected token at" error always names a position past the end of the stream. |
| Parser.ShortStreams | core/src/parser.rs:86-110 | Invalid anywhere fails, and an empty stream fails with "Stream empty". A single token yields its number, or a bound variable's value, and fails otherwise; the table is unchanged. |
| Parser.NumbersAndOperators | core/src/parser.rs:86-101 | A stream of two or more numbers and operators goes straight to the loop, since substitution leaves it alone. |
| Parser.InfixPrefix | core/src/parser.rs:149-159 | The first three tokens a op b leave the loop holding op(a, b), with b as the previous token. |
| Parser.InfixOperand | core/src/parser.rs:125-159 | An infix operator and its operand extend the tree: at the root's right child when it binds tighter, otherwise above the root. |
| Parser.InfixPair | core/src/parser.rs:149-159 | a op b gives the node op(a, b) for every infix operator. |
| Parser.InfixChain | core/src/parser.rs:125-159 | In a o1 b o2 c, o2 takes b and c when it binds tighter than o1; otherwise the chain groups from the left. |
| Parser.ChainExamples | core/src/parser.rs:202-311 | The test trees: 2 - 2 / 3 is Sub(2, Div(2, 3)), and 2 * 2 / 3 is Div(Mul(2, 2), 3). |
| Parser.ReorderOneLevel | core/src/parser.rs:125-159 | In a + b * c ^ d, the power's base is Mul(b, c): reordering reaches only one level. |
| Parser.ForwardOperands | core/src/parser.rs:133-139 | Root a gives Root(a), and Log a b gives Log(a, b). |
| Parser.RootThenInfix | core/src/parser.rs:133-159 | sqrt a + b is (sqrt a) + b. |
| Parser.MissingOperands | core/src/parser.rs:66-82 | A trailing infix operator gives "Expected token at: 2"; a leading one gives "Number expected.". |
| Parser.AssignNumber | core/src/parser.rs:162-177 | x = v with x unbound yields v and binds x to v. |
| Parser.AssignVariable | core/src/parser.rs:162-177 | y = x with x bound yields x's value and binds y to it. |
| Parser.AssignBound | core/src/parser.rs:90-101 | Assigning to a bound name leaves the table unchanged, since the name was already replaced by its number. |
| Parser.AssignUnknown | core/src/parser.rs:179-188 | y = x with x unbound fails with "Unknown literal" for x. |
| Parser.SessionExample | core/src/parser.rs:162-188 | After x = v, the stream x * w gives Mul(v, w). |
| Parser.ParseOf | core/src/parser.rs:12-16 | parse never removes or rebinds a name. A stream with Invalid fails with the invalid-tokens error and leaves the table alone. |
| Parser.ParseContractInvalid | core/src/parser.rs:30-36 | A stream that passes sanitising with an Invalid in it keeps that Invalid. |
| Parser.Parse | core/src/parser.rs:12-16 | sanitase, then parse_to_operations with the table, then apply. |
| Parser.TokensOf | core/src/parser.rs:18-28 | The debug pairs' tokens, in order. |
| Parser.DbgParse | core/src/parser.rs:18-28 | Parsing a debug stream parses its tokens. |
| Parser.ParseSession | core/src/parser.rs:12-16 | x = 2 yields 2 and binds x; then x * 3 yields 6. |
| OldTokenizer.GetType | src/tokenizer.rs:66-72 | The type tag matches the token's variant. |
| OldTokenizer.AsOp | src/tokenizer.rs:74-76 | Some exactly for an operator token, with its kind. |
| OldTokenizer.AsNr | src/tokenizer.rs:78-80 | Some exactly for a number token, with its value. |
| OldTokenizer.Classify | src/tokenizer.rs:162-182 | Invalid exactly when the piece is neither a keyword nor a number. The result is never Mod. |
| OldTokenizer.ClassifyCaseInsensitive | src/tokenizer.rs:163 | The class of a piece is that of its lower-case form. |
| OldTokenizer.Keyword | src/tokenizer.rs:165-172 | Definition: the older table of operator words, with no punctuation and no `%`. Characterised by `OldTokenizer.KeywordInCurrent`, `OldTokenizer.ClassifyOperators` and `OldTokenizer.ClassifyWords`. |
| OldTokenizer.KeywordInCurrent | src/tokenizer.rs:165-172 | Every keyword of the older table means the same operator in the current table. |
| OldTokenizer.CurrentRefines | src/tokenizer.rs:162-182 | Where the current tokenizer gives a Literal, the older gives Invalid. Numbers agree through From<f64>, and operators other than Mod agree both ways. |
| OldTokenizer.ClassifyInteger | src/tokenizer.rs:174-180 | A digit string is the number n. |
| OldTokenizer.ClassifyParsed | src/tokenizer.rs:174-180 | A lower-case piece that is no keyword and parses as a decimal is that decimal, normalized. |
| OldTokenizer.ClassifyFraction | src/tokenizer.rs:174-180 | "a.b" is the normalized decimal ab / 10^abs(b). |
| OldTokenizer.ClassifyWholeExample | src/tokenizer.rs:211 | "123" gives 123. |
| OldTokenizer.ClassifyPointZeroExample | src/tokenizer.rs:212 | "123.0" gives the same token as "123". |
| OldTokenizer.ClassifyHundredthExample | src/tokenizer.rs:213 | ".01" gives 0.01. |
| OldTokenizer.ClassifyInvalidExample | src/tokenizer.rs:174-180 | "a" is Invalid. |
| OldTokenizer.ClassifyOperators | src/tokenizer.rs:166-170 | * / + - ^ map to their operators. |
| OldTokenizer.ClassifyWords | src/tokenizer.rs:171-172 | sqrt, rt and root map to Root, and log and lg to Log, in any case. |
| OldTokenizer.TokenStream | src/tokenizer.rs:158-160 | There is one token per piece of `split`. |
| OldTokenizer.Tokenize | src/tokenizer.rs:158-160 | The stream is the classification of each piece, in order. |
| OldTokenizer.SplitContract | src/tokenizer.rs:110-147 | With the delimiters space * / + - ^, joining the pieces gives the line without spaces, and every piece is well formed. |
| OldTokenizer.SplitRoot | src/tokenizer.rs:199 | "sqrt a ^ b" splits into sqrt, a, ^, b. |
| OldTokenizer.SplitLog | src/tokenizer.rs:198 | "log a b" splits into log, a, b. |
| OldTokenizer.SplitSlashes | src/tokenizer.rs:194-197 | "a/ b*" followed by n slashes splits into a, /, b, * and n slashes. |
| OldTokenizer.TokenizeWords | src/tokenizer.rs:222-248 | "x y*z" tokenizes to the classes of x and y, then Mul, then the class of z. |
| OldTokenizer.TokenizeExample | src/tokenizer.rs:240-248 | TokenStream("a 1*123") is Invalid, 1, Mul, 123. |
| OldTokeniser.TableEntry | src/tokeniser.rs:120-127 | Definition: the oldest table, which knows `rt` and `root` but not `sqrt`. Characterised by `OldTokeniser.ClassifyPieceDiffers` and `OldTokeniser.ClassifyRoots`. |
| OldTokeniser.ClassifyPiece | src/tokeniser.rs:118-137 | Invalid exactly when the lower-cased piece is neither in the table nor a number. |
| OldTokeniser.Tokenise | src/tokeniser.rs:114-116 | There are (number of spaces + 1) tokens, each the class of the matching piece between single spaces. |
| OldTokeniser.ClassifyPieceDiffers | src/tokeniser.rs:118-137 | It agrees with the older tokenizer on every piece except "sqrt", which it marks Invalid. |
| OldTokeniser.ClassifyRoots | src/tokeniser.rs:118-137 | "sqrt" is Invalid, while "rt" and "Root" are Root. |
| OldTokeniser.ClassifyPieceCaseInsensitive | src/tokeniser.rs:119 | The class of a piece is that of its lower-case form. |
| OldTokeniser.EmptyPieceInvalid | src/tokeniser.rs:129-135 | The empty piece is Invalid. |
| OldTokeniser.DoubleSpace | src/tokeniser.rs:114-116 | Two spaces between words leave an Invalid empty piece between them. |
| OldParser.SanitaseOf | src/parser.rs:26-58 | Definition: the insertion pass with numbers as the only operands. Characterised by `OldParser.SanitaseContract`. |
| OldParser.Sanitase | src/parser.rs:26-58 | The older pass, with numbers as the only operands. |
| OldParser.SanitaseContract | src/parser.rs:26-58 | A stream of length 0 or 1 comes back as it is. A longer one fails exactly when it holds Invalid; otherwise Mul tokens are only inserted. A stream with no adjacent numbers is unchanged. |
| OldParser.SanitaseNumbers | src/parser.rs:42-52 | Two numbers get a Mul between them. |
| OldParser.SanitaseVariable | src/parser.rs:42-52 | A number next to a variable gets no Mul, where the current pass inserts one. |
| OldParser.Step | src/parser.rs:91-143 | Definition: one iteration of the older loop. Characterised by `OldParser.MatchesCurrent`. |
| OldParser.Run | src/parser.rs:91-143 | Definition: the older loop from token i. Characterised by `OldParser.MatchesCurrent`. |
| OldParser.ParseToOperationsOf | src/parser.rs:78-144 | Definition: the older `parse_to_operations`. Characterised by `OldParser.MatchesCurrent`, `OldParser.InfixPair` and `OldParser.InfixChain`. |
| OldParser.ParseToOperations | src/parser.rs:78-144 | The loop computes the older parser's tree. |
| OldParser.MatchesCurrent | src/parser.rs:78-144 | On streams without variables and `=`, the current parser builds the same tree, or fails the same way, and leaves the table alone. |
| OldParser.InfixPair | src/parser.rs:146-206 | 2 op 2 gives op(2, 2) for every infix operator. |
| OldParser.InfixChain | src/parser.rs:102-138 | Reordering reaches one level into the tree, as in the current parser. |
| OldParser.MissingOperand | src/parser.rs:60-70 | A trailing infix operator gives "Expected token at: 2". |
| OldParser.ParseOf | src/parser.rs:8-24 | Definition: the older sanitase, then parse_to_operations, then apply. Characterised by `OldParser.SanitaseContract`, `OldParser.MatchesCurrent` and `OldParser.InfixPair`. |
| OldParser.Parse | src/parser.rs:8-24 | sanitase, then parse_to_operations, then apply. |
| OldParser.DbgParse | src/parser.rs:8-24 | Parsing a debug stream parses its tokens. |

## Left out

- Terminal I/O and the read-eval-print loop (`cli/src/term.rs`, `src/term.rs`,
  `cli/src/main.rs`, `src/main.rs`) are outside the model.
- Floating-point rounding is not modelled. Fractions have unbounded integer parts, so the
  large-magnitude reduce test (core/src/rational.rs:228-231), which depends on f64
  precision, has no counterpart.
- `Decimals.FromFloat`: the source multiplies the parsed f64 by `powi(10, k)` in f64
  (core/src/rational.rs:139-142), and that product is rounded. For ordinary literals it is not
  an integer: in IEEE-754 doubles, 0.57 × 100 is 56.99999999999999 and 0.07 × 100 is
  7.000000000000001. The float gcd then reduces the pair to a fraction other than 57/100 or
  7/100. The model computes the exact m / 10^k, reduced, so for such literals its value is
  the intended fraction, not the one the source produces.
- `Tokenizer.ClassifyFraction` and `Decimals.FromFloatValue` inherit the same abstraction.
  They state reduce(ab / 10^|b|), which the source reaches only when the f64 product is
  exact.
- `sqrt`, `powf`, `pow`, `log` and `%` are a parameter record, `FloatOps`. Only their
  reduced results are modelled.
- `to_float` and the conversion of a Rational into an f64 pair are not modelled, since the
  model has no floats.
- The `From<f32>` conversion of Rational is never called by the pipeline and is left out.
- The `Debug` impl of Rational, and `Token`'s `DbgDisplay` string building, are formatting
  only.
- `parse::<f64>` is restricted to plain decimal literals. Exponents, `inf`, `nan`, a leading
  sign and signed zero are left out.
- Signed zero in arithmetic and display is left out. In the source, a negative value times 0
  (core/src/rational.rs:180-187), as in `log 10 0.1 * 0`, or the negation of 0/1 (198-205),
  has the numerator -0.0, and Display (117-130) prints "-0". The integer model has one zero
  and prints "0".
- `Strings.ToLower` lower-cases ASCII letters only; Rust's `to_lowercase` handles all of
  Unicode.
- `split` indexes bytes in the source. The model indexes characters, which is the same for
  ASCII input.
- `Rationals.Lcm`: lcm(0, 0) divides 0 by 0 in the source. The model answers 0 there.
- The `todo!()` panic for a forward operator under reverse binding becomes the error
  `NotImplemented`.
- The `Unknown literal` message prints the name through Rust's `Debug` formatting, with
  quotes and escapes. `Parser.Message` writes the name in plain quotes.
- The debug `println!` of the token stream in `Parse for Vec<(String, Token)>`, and the
  string output of the older `dbg_tokenize`/`dbg_tokenise`, are left out.
- The older tokenizer's unused `Unit` enum and `Token::Unit` variant are left out.
- The f64 `Op::apply` of the older tokenizers (src/tokenizer.rs:15-27,
  src/tokeniser.rs:15-26) is float arithmetic that the pipeline never calls.
- The older snapshot's stages are not composed: its tokenizer's f64 tokens do not fit its
  parser's Rational tree.
- `Rationals.OldFromFloat`: the older conversion's f64 gcd runs on m / 2^e and 1; the model
  runs Euclid on m and 2^e, which is the same scaled by 2^e since `%` on floats is exact. NaN
  and the infinities are not modelled. The input is the binary float, so 0.1 is
  3602879701896397 / 2^55 there, not 1/10.
- `Ops.Order`: core/src/op.rs is not part of this model, and the rank of `Mod` is an
  assumption from the calculator's design, not from source text.
- `Expressions.ChangeY` and `Rationals.ComDen` return new values rather than updating in
  place. The values involved are owned exclusively, so no aliasing is lost.
- `Ops.ConsumeCount`: the skipped token after an infix operator must be a number or the loop
  fails first, so the surplus count is never observed.
