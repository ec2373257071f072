# A verified model of martin-beran's Rust learning exercises

The repository is a set of small programs written while learning Rust, with a
few C++ counterparts. This project models their computing core in Dafny:

- **The expression evaluators.**
  - `expr_static` (Rust) reads one line, parses an arithmetic expression over
    `i32`, `u32` or `String` literals, prints the fully parenthesised tree and
    prints its value, "no value", or "invalid expression".
  - `expr_static_cpp` is the C++ version built on a `std::variant` tree.
  - `expr_cpp` is the C++ version built on a virtual class hierarchy.
  - `expr` is a Rust stub that builds one fixed tree.
- **`graph_cpp`.** A table of named handlers that own (`shared_ptr`) or
  observe (`weak_ptr`) named sessions, driven by text commands.
- **`cpp-meetup/primes.cpp`.** Five prime generators by trial
  division.
- **The smaller Rust programs.**
  - A doubly linked list and two cons lists.
  - The Fibonacci and counting loops of `loops`.
  - `first_word` and friends from `ownership-4.1`.
  - `largest` and `mixup` from `generics-10`.
  - The rectangles and squares of `rectangles`.
  - The `IpAddr` / `Message` / `divide` code of `enums`.
  - `longest` from `lifetimes`.

Each program's model follows its form in the source:

- Pure matches and recursion become functions.
- Loops become methods proved equal to a specification function, or to
  the property the source promises.
- Objects whose fields change become classes with `modifies` frames.

Some source behaviour has no value in the language's own terms:

- **Integer overflow.** An overflowing Rust `i32`/`u32` operation panics, as
  in a debug build; the expression model has an explicit `Panic` outcome for
  it. A signed C++ overflow is undefined behaviour and is modelled as an
  `Undefined` outcome. Unsigned C++ arithmetic wraps modulo 2^32.
- **Strings.** Strings are Dafny strings of Unicode scalar values. The byte
  length that Rust's `str::len` reports is the length of their UTF-8
  encoding, which is modelled.
- **Input and output.** Reading a line is modelled by passing the line as a
  parameter, and printing by returning the printed lines.

Files, one module each:

| file | module | models |
|---|---|---|
| wrappers.dfy | Wrappers | `Option`, suffixes of a sequence |
| expr_core.dfy | ExprCore | scalar kinds, the tree, decimal text, truncating division, 32-bit wrap |
| expr_static.dfy | ExprStatic | the Rust `Ops` table, operator and tree evaluation, `Display` |
| expr_static_eval_props.dfy | ExprStaticEvalProps | evaluation against unbounded arithmetic, panics iff overflow |
| expr_static_parser.dfy | ExprStaticParser | the Rust parser: rules as functions, the loops as methods |
| expr_static_suffix.dfy | ExprStaticSuffix | every rule leaves a suffix of its input |
| expr_static_props.dfy | ExprStaticProps | parsing the printed tree gives the tree back |
| expr_static_examples.dfy | ExprStaticExamples | precedence, associativity, panics and failures of the Rust parser |
| expr_stub.dfy | ExprStub | the `expr` stub with its fixed tree |
| cpp_stream.dfy | CppStream | the `std::cin` operations the C++ parsers use, as a class |
| cpp_expr.dfy | CppExpr | the C++ trees (variant and virtual), `eval`, `display` |
| cpp_parser.dfy | CppParser | the C++ parser rules as functions, for both variants |
| cpp_parser_loops.dfy | CppParserLoops | the C++ parser loops over the stream, proved equal to the rules |
| cpp_props.dfy | CppProps | properties of the C++ evaluators |
| cpp_examples.dfy | CppExamples | concrete behaviour of the C++ parsers |
| cpp_vs_rust.dfy | CppVersusRust | where the C++ and Rust evaluators agree and differ |
| graph_split.dfy | GraphSplit | `split` of a command line into words |
| graph_table.dfy | GraphTable | the handler table as a class over a sorted sequence |
| graph_run.dfy | GraphRun | the command interpreter `run` |
| graph_props.dfy | GraphProps | table operations and session lifetime |
| primes.dfy | Primes | the five trial-division generators |
| loops.dfy | Loops | `fib`, the Fibonacci table and the counting loops |
| cons_lists.dfy | ConsList | the `Box` and `Rc` cons lists, `MyBox` |
| linked_list.dfy | LinkedList | the doubly linked list |
| rust_str.dfy | RustStr | UTF-8 byte length of a string |
| ownership.dfy | Ownership | `first_word`, `str_append`, `str_len_copy`, `report_num_ret` |
| lifetimes.dfy | Lifetimes | `longest`, `first` |
| generics.dfy | Generics | `largest`, `format`, `mixup` |
| rectangles.dfy | Rectangles | `Rectangle`, `Square` |
| enums.dfy | Enums | `IpAddr::to_string`, `process`, `divide` |

## Model

| member | source | states |
|---|---|---|
| ExprCore.Zero | expr_static/src/main.rs:183-188 | `T::default()`, the divisor `Op2Kind::eval` refuses, is a value of the chosen kind |
| ExprCore.ShowNat | expr_static/src/main.rs:238 | the printed digits of a natural number are non-empty decimal digits with no leading zero |
| ExprCore.DigitsValueShowNat | expr_static/src/main.rs:356 | reading the printed digits of `n` back as a number gives `n` |
| ExprCore.ShowIntInjective | expr_static/src/main.rs:238 | two integers with the same printed text are equal |
| ExprCore.TruncDiv | expr_static/src/main.rs:92-94 | integer `/` rounds toward zero: the quotient's magnitude is `abs(a) / abs(b)` and its sign is the product of the operands' signs |
| ExprCore.TruncDivRemainder | expr_static/src/main.rs:92-94 | the remainder left by `/` is smaller than the divisor in magnitude and has the dividend's sign |
| ExprCore.WrapU32 | expr_static_cpp/expr_static.cpp:95-107 | `unsigned` arithmetic yields a value in 0..2^32-1 congruent to the exact result modulo 2^32 |
| ExprStatic.Checked | expr_static/src/main.rs:79-112 | an integer operation yields its exact result iff it fits the kind, and panics otherwise (debug-build overflow check) |
| ExprStatic.OpsNeg | expr_static/src/main.rs:80-133 | negation has no value for `u32` and `String`; for `i32` it is `-c` and panics exactly at `i32::MIN` |
| ExprStatic.OpsAdd | expr_static/src/main.rs:83-136 | `+` concatenates strings and adds integers, panicking on overflow |
| ExprStatic.OpsSub | expr_static/src/main.rs:86-139 | `-` has no value for strings and is the checked integer difference otherwise |
| ExprStatic.OpsMul | expr_static/src/main.rs:89-142 | `*` has no value for strings and is the checked integer product otherwise |
| ExprStatic.OpsDiv | expr_static/src/main.rs:92-145 | `/` has no value for strings, panics on a zero divisor and is the checked truncating quotient otherwise |
| ExprStatic.Op1Eval | expr_static/src/main.rs:157-163 | `Op1Kind::eval` has a value exactly for an `i32` operand other than `i32::MIN`, and that value is its negation |
| ExprStatic.Op2Eval | expr_static/src/main.rs:177-190 | a divisor equal to `T::default()` gives no value; any value is of the kind; for `String` only `+` has a value |
| ExprStatic.Eval | expr_static/src/main.rs:216-233 | a value computed by `eval` is of the chosen kind (see `EvalIdeal`, `EvalPanicIffOverflow`, `StrEval` for what the value is) |
| ExprStatic.Display | expr_static/src/main.rs:235-243 | `Display for Expr` puts every node in parentheses (`ExprStaticProps.DisplayParens`), and `parse` reads the printed tree back (`ExprStaticProps.ParseDisplay`) |
| ExprStaticEvalProps.EvalIdeal | expr_static/src/main.rs:79-233 | when no intermediate result overflows, `eval` is the value in unbounded integer arithmetic, with no value for a zero divisor or a `u32` negation |
| ExprStaticEvalProps.Op2Ideal | expr_static/src/main.rs:177-231 | one binary node keeps the agreement of `EvalIdeal` when both children have it |
| ExprStaticEvalProps.EvalPanicIffOverflow | expr_static/src/main.rs:79-233 | `eval` of an integer tree panics iff some intermediate result leaves the kind's range |
| ExprStaticEvalProps.Op2Overflow | expr_static/src/main.rs:177-231 | one binary node over fitting children panics iff its own result overflows |
| ExprStaticEvalProps.U32MinusNoValue | expr_static/src/main.rs:97-225 | a `u32` tree containing a unary minus anywhere has no value |
| ExprStaticEvalProps.DivByZero | expr_static/src/main.rs:183-188 | dividing by a subtree whose value is zero gives no value rather than a panic, unless the dividend panics |
| ExprStaticEvalProps.StrEval | expr_static/src/main.rs:130-233 | a `String` tree never panics, has a value iff all its operators are `+`, and that value is its literals concatenated left to right |
| ExprStaticParser.TrimStart | expr_static/src/main.rs:257 | `trim_start` returns a suffix that does not start with whitespace |
| ExprStaticParser.TrimEnd | expr_static/src/main.rs:251 | `trim` removes trailing whitespace: the result is a prefix that does not end with whitespace |
| ExprStaticParser.TerminalEnd | expr_static/src/main.rs:363-388 | `TerminalEnd::pattern`: any non-digit ends an integer literal and only the space ends a String literal; `FindEnd` and `ExprStaticExamples.FindEndNoSpace` state where a literal stops |
| ExprStaticParser.FindEnd | expr_static/src/main.rs:352-388 | the literal ends at the first terminating character (non-digit for integers, space for `String`), or at the end |
| ExprStaticParser.FromStr | expr_static/src/main.rs:356 | `parse::<T>()` yields only values of the kind, and for `String` accepts any text |
| ExprStaticParser.Terminal | expr_static/src/main.rs:347-361 | `terminal` never panics, yields only a literal of the kind, and consumes at least one character when it does |
| ExprStaticParser.Factor | expr_static/src/main.rs:306-345 | `factor` yields a tree of the kind with non-negative literals and leaves no more text than it got |
| ExprStaticParser.Operand | expr_static/src/main.rs:319-344 | the part of `factor` after the sign keeps the same guarantee |
| ExprStaticParser.Close | expr_static/src/main.rs:325-343 | a parenthesised operand is the inner expression, negated under a `-`, and leaves less text than the inner expression left |
| ExprStaticParser.Term | expr_static/src/main.rs:280-304 | `term` yields a tree of the kind with non-negative literals and leaves no more text than it got |
| ExprStaticParser.TermTail | expr_static/src/main.rs:282-300 | the loop of `term` keeps that guarantee for the tree it accumulates |
| ExprStaticParser.Expression | expr_static/src/main.rs:254-278 | `expression` yields a tree of the kind with non-negative literals and leaves no more text than it got |
| ExprStaticParser.ExprTail | expr_static/src/main.rs:256-274 | the loop of `expression` keeps that guarantee for the tree it accumulates |
| ExprStaticParser.Parse | expr_static/src/main.rs:250-252 | `parse` trims the line and keeps the tree of `expression`, whatever text it leaves; its outcomes are characterised by `ExprStaticParser.ParseGood` and `ExprStaticExamples.ParseOf` |
| ExprStaticParser.Run | expr_static/src/main.rs:49-69 | `run` exits with success, or with the panic status 101 |
| ExprStaticParser.ParseGood | expr_static/src/main.rs:250-252 | a tree returned by `parse` is of the chosen kind and has non-negative literals |
| ExprStaticParser.ParseFactor | expr_static/src/main.rs:306-345 | the imperative `factor`, rebinding its cursor, returns exactly what the `Factor` rule specifies |
| ExprStaticParser.ParseTerm | expr_static/src/main.rs:280-304 | the `term` loop, accumulating `f1`, returns exactly what the `Term` rule specifies |
| ExprStaticParser.ParseExpression | expr_static/src/main.rs:254-278 | the `expression` loop, accumulating `t1`, returns exactly what the `Expression` rule specifies |
| ExprStaticSuffix.TerminalSuffix | expr_static/src/main.rs:347-361 | the text `terminal` leaves is a suffix of its input |
| ExprStaticSuffix.CloseSuffix | expr_static/src/main.rs:328-337 | reading `)` leaves a suffix of what the inner expression left |
| ExprStaticSuffix.FactorSuffix | expr_static/src/main.rs:306-345 | the text `factor` leaves is a suffix of its input |
| ExprStaticSuffix.OperandSuffix | expr_static/src/main.rs:319-344 | the text the operand part of `factor` leaves is a suffix of its input |
| ExprStaticSuffix.TermSuffix | expr_static/src/main.rs:280-304 | the text `term` leaves is a suffix of its input |
| ExprStaticSuffix.TermTailSuffix | expr_static/src/main.rs:282-300 | the text the `term` loop leaves is a suffix of its input |
| ExprStaticSuffix.ExpressionSuffix | expr_static/src/main.rs:254-278 | the text `expression` leaves is a suffix of its input |
| ExprStaticSuffix.ExprTailSuffix | expr_static/src/main.rs:256-274 | the text the `expression` loop leaves is a suffix of its input |
| ExprStaticProps.FindEndDigits | expr_static/src/main.rs:352-378 | an integer literal ends right after its run of digits |
| ExprStaticProps.FromStrShowNat | expr_static/src/main.rs:356 | the printed digits of a number in range convert back to it |
| ExprStaticProps.TerminalLiteral | expr_static/src/main.rs:347-361 | `terminal` reads a printed non-negative literal back and stops at the first non-digit |
| ExprStaticProps.FactorLiteral | expr_static/src/main.rs:306-345 | the same literal is a whole factor |
| ExprStaticProps.FactorParen | expr_static/src/main.rs:324-338 | `factor` on text starting with `(` takes the parenthesised branch |
| ExprStaticProps.FactorMinus | expr_static/src/main.rs:312-343 | a `-` before a successful factor negates its tree and leaves the same text |
| ExprStaticProps.CloseParen | expr_static/src/main.rs:262-336 | a `)` stops both loops and is consumed by the parenthesised branch |
| ExprStaticProps.ExpressionOfFactor | expr_static/src/main.rs:254-304 | a factor followed by `)` is a whole term and a whole expression |
| ExprStaticProps.ParenLiteral | expr_static/src/main.rs:238-338 | the printed literal `(n)` is read back as `n` |
| ExprStaticProps.ParenNegation | expr_static/src/main.rs:239-343 | the printed negation `(-x)` is read back as the negated tree |
| ExprStaticProps.InfixOperands | expr_static/src/main.rs:240-304 | inside parentheses `l op r` reads as the binary node, at either precedence level |
| ExprStaticProps.InfixFactors | expr_static/src/main.rs:282-300 | `*` and `/` are consumed by the `term` loop, and `)` then ends the `expression` loop |
| ExprStaticProps.InfixTerms | expr_static/src/main.rs:256-291 | `+` and `-` stop the `term` loop and are consumed by the `expression` loop |
| ExprStaticProps.ReadDisplayValue | expr_static/src/main.rs:238-361 | the printed form of a literal is read back as that literal |
| ExprStaticProps.ReadDisplayOp1 | expr_static/src/main.rs:239-345 | the printed form of a negation is read back when its child's is |
| ExprStaticProps.ReadDisplayOp2 | expr_static/src/main.rs:240-345 | the printed form of a binary node is read back when its children's are |
| ExprStaticProps.FactorDisplay | expr_static/src/main.rs:235-345 | for any integer tree with non-negative literals, `factor` reads its printed form back as the same tree and leaves the text after it |
| ExprStaticProps.EndOfInput | expr_static/src/main.rs:258-286 | the end of the input ends both loops with the tree built so far |
| ExprStaticProps.ParseWholeFactor | expr_static/src/main.rs:250-252 | a trimmed line that is one whole factor parses as that factor |
| ExprStaticProps.ParseDisplay | expr_static/src/main.rs:235-252 | round trip: `parse` of the printed tree gives the tree back, for integer trees with non-negative literals |
| ExprStaticProps.DisplayParens | expr_static/src/main.rs:235-243 | every printed node is wrapped in parentheses |
| ExprStaticExamples.TermTailStep | expr_static/src/main.rs:287-297 | one turn of the `term` loop makes the tree so far the left child of the operator |
| ExprStaticExamples.ExprTailStep | expr_static/src/main.rs:261-271 | one turn of the `expression` loop makes the tree so far the left child of the operator |
| ExprStaticExamples.TailsStop | expr_static/src/main.rs:258-291 | the loops stop with the tree unchanged at the end of text or at a non-operator |
| ExprStaticExamples.TermOf | expr_static/src/main.rs:280-281 | `term` is its first factor followed by the loop |
| ExprStaticExamples.ExpressionOf | expr_static/src/main.rs:254-255 | `expression` is its first term followed by the loop |
| ExprStaticExamples.ParseOf | expr_static/src/main.rs:250-252 | `parse` reports a panic, no tree, or the tree of `expression` |
| ExprStaticExamples.TermLiteral | expr_static/src/main.rs:280-304 | a literal followed by `+`, `-` or nothing is a whole term |
| ExprStaticExamples.LeftAssociative | expr_static/src/main.rs:254-278 | `a-b-c` parses as `(a-b)-c` |
| ExprStaticExamples.ParseDifferences | expr_static/src/main.rs:254-278 | the parse of `a-b-c` once the line is known to be trimmed |
| ExprStaticExamples.MulBindsTighter | expr_static/src/main.rs:254-304 | `a+b*c` parses as `a+(b*c)` |
| ExprStaticExamples.ParseSumOfProduct | expr_static/src/main.rs:254-304 | the parse of `a+b*c` once the line is known to be trimmed |
| ExprStaticExamples.ProductTerm | expr_static/src/main.rs:280-304 | `b*c` at the end of the text is one term |
| ExprStaticExamples.MulBindsTighterValue | expr_static/src/main.rs:216-233 | `2+3*4` evaluates to 14 |
| ExprStaticExamples.TrailingTextIgnored | expr_static/src/main.rs:250-265 | text after a complete expression is ignored: `12x` parses as `12` |
| ExprStaticExamples.StopAfterSpace | expr_static/src/main.rs:283-291 | the `term` loop skips whitespace before looking for an operator |
| ExprStaticExamples.MinusBeforeBadOperandPanics | expr_static/src/main.rs:341-343 | `-x`, a minus before an operand `terminal` rejects, panics at the `unwrap` |
| ExprStaticExamples.BadOperand | expr_static/src/main.rs:339-355 | a non-digit operand gives a panic under a minus and no tree without one |
| ExprStaticExamples.MinusFactor | expr_static/src/main.rs:312-319 | `factor` on `-w` is the negated operand `w` |
| ExprStaticExamples.ParseOfPanickedFactor | expr_static/src/main.rs:250-281 | a panic in the first factor aborts the whole line |
| ExprStaticExamples.MinusBeforeBadGroupPanics | expr_static/src/main.rs:325-343 | `-(x`, a minus before a group whose expression fails, panics |
| ExprStaticExamples.FailedExpression | expr_static/src/main.rs:275-303 | a first factor that fails without panicking makes the expression fail |
| ExprStaticExamples.LoneMinus | expr_static/src/main.rs:319-322 | a lone `-` gives no tree, as `factor` returns before the `unwrap` |
| ExprStaticExamples.MinusBeforeUnclosedGroup | expr_static/src/main.rs:328-332 | `-(1` gives no tree: the missing `)` returns before the `unwrap` |
| ExprStaticExamples.ParseOfFailedFactor | expr_static/src/main.rs:250-303 | a first factor that gives no tree makes the line give no tree |
| ExprStaticExamples.StrSingleLiteral | expr_static/src/main.rs:384-388 | for `String`, text without spaces (`a+b`) is one literal |
| ExprStaticExamples.StrLiteralFactor | expr_static/src/main.rs:339-361 | the same text is one whole factor |
| ExprStaticExamples.FindEndNoSpace | expr_static/src/main.rs:384-388 | a `String` literal runs to the first space |
| ExprStaticExamples.StrDisplayNotReadBack | expr_static/src/main.rs:384-388 | for `String` the printed `(v)` does not parse: the literal swallows the `)` |
| ExprStaticExamples.OpenGroupFails | expr_static/src/main.rs:328-332 | a group whose literal runs to the end is never closed |
| CppStream.SkipSpace | expr_static_cpp/expr_static.cpp:167 | formatted input skips to a suffix that does not start with C whitespace |
| CppStream.ReadChar | expr_static_cpp/expr_static.cpp:167 | `cin >> c` yields the first non-whitespace character and leaves the text after it; at the end of input the stream fails |
| CppStream.PutBack | expr_static_cpp/expr_static.cpp:173 | `unget` puts one character back and keeps the stream state |
| CppStream.Span | expr_static_cpp/expr_static.cpp:158-159 | the scan of an extraction covers exactly the leading digits (or, for `std::string`, non-whitespace) |
| CppStream.Convert | expr_static_cpp/expr_static.cpp:158-159 | a converted integer is within the kind: `int` rejects out-of-range values, `unsigned` wraps a negated magnitude |
| CppStream.ReadValue | expr_static_cpp/expr_static.cpp:156-162 | `cin >> v` yields a value of the kind on a usable stream and consumes at least one character when it succeeds |
| CppStream.Stream.constructor | expr_static_cpp/expr_static.cpp:264-266 | `std::cin` starts usable and holds the whole input |
| CppStream.Stream.GetChar | expr_static_cpp/expr_static.cpp:167 | extracting a character changes the stream exactly as `ReadChar` says |
| CppStream.Stream.Unget | expr_static_cpp/expr_static.cpp:173 | `unget` changes the stream exactly as `PutBack` says |
| CppStream.Stream.GetValue | expr_static_cpp/expr_static.cpp:159 | extracting a value changes the stream exactly as `ReadValue` says |
| CppStream.UngetRead | expr_static_cpp/expr_static.cpp:167-176 | a character extracted and put back leaves the stream as it was after skipping whitespace |
| CppStream.ReadCharFindsText | expr_static_cpp/expr_static.cpp:267-268 | any non-whitespace character left in a usable stream is found by the leftover test of `parse` |
| CppStream.FailedStays | expr_static_cpp/expr_static.cpp:156-162 | a failed stream yields nothing, stays unchanged and stays failed |
| CppExpr.Arith | expr_static_cpp/expr_static.cpp:95-107 | a signed result is exact and defined only inside `int`; an unsigned one wraps modulo 2^32 |
| CppExpr.NegOp | expr_static_cpp/expr_static.cpp:53-68 | unary minus has no value exactly for strings, and wraps for `unsigned` |
| CppExpr.BinOp | expr_static_cpp/expr_static.cpp:95-122 | strings have a value only for `+` (concatenation); an integer division has no value iff the divisor is 0; operators never throw |
| CppExpr.Eval | expr_static_cpp/expr_static.cpp:31-122 | a value computed by `eval` is of the kind (see `CppProps` and `CppVersusRust.EvalAgrees` for what it is) |
| CppExpr.Display | expr_static_cpp/expr_static.cpp:34-148 | when `display` does not throw, it writes a text wrapped in parentheses |
| CppParser.Terminal | expr_static_cpp/expr_static.cpp:156-162 | `terminal` is null iff the extraction fails, and otherwise a literal of the kind that consumed input |
| CppParser.Wrap | expr_cpp/expr.cpp:261-264 | a pending minus wraps the operand; in the class hierarchy a null operand throws from `op1::child`, in the variant program it is kept |
| CppParser.Factor | expr_static_cpp/expr_static.cpp:164-208 | `factor` is null or a tree of the kind, and never leaves more input than it got |
| CppParser.Operand | expr_static_cpp/expr_static.cpp:179-205 | the second half of `factor` keeps the same guarantee |
| CppParser.Close | expr_static_cpp/expr_static.cpp:182-196 | a parenthesised operand is the inner tree, negated under a minus; a failed inner expression or a missing `)` gives null without the minus |
| CppParser.Term | expr_static_cpp/expr_static.cpp:210-234 | `term` is null or a tree of the kind, and never leaves more input than it got |
| CppParser.TermTail | expr_static_cpp/expr_static.cpp:213-231 | the loop of `term` keeps that guarantee for the tree it accumulates |
| CppParser.Expression | expr_static_cpp/expr_static.cpp:236-260 | `expression` is null or a tree of the kind, and never leaves more input than it got |
| CppParser.ExprTail | expr_static_cpp/expr_static.cpp:239-257 | the loop of `expression` keeps that guarantee for the tree it accumulates |
| CppParser.Parse | expr_static_cpp/expr_static.cpp:264-270 | a tree returned by `parse` has the shape the parsers build |
| CppParser.Run | expr_static_cpp/expr_static.cpp:272-290 | `run` returns `EXIT_SUCCESS` or `EXIT_FAILURE` whenever its behaviour is defined |
| CppParser.ShapeKinded | expr_static_cpp/expr_static.cpp:156-162 | every literal in a parsed tree is of the chosen kind |
| CppParserLoops.ReadTerminal | expr_static_cpp/expr_static.cpp:156-162 | the imperative `terminal` over the stream object gives exactly the `Terminal` rule |
| CppParserLoops.ParseFactor | expr_static_cpp/expr_static.cpp:164-208 | the imperative `factor` with its `unget`s gives exactly the `Factor` rule, for both programs |
| CppParserLoops.ParseTerm | expr_static_cpp/expr_static.cpp:210-234 | the `for` loop of `term` gives exactly the `Term` rule |
| CppParserLoops.ParseExpression | expr_static_cpp/expr_static.cpp:236-260 | the `for` loop of `expression` gives exactly the `Expression` rule |
| CppParserLoops.ParseInput | expr_static_cpp/expr_static.cpp:264-270 | `parse` on a fresh stream, with its leftover test, gives exactly `Parse` |
| CppProps.VirtualTreesWhole | expr_cpp/expr.cpp:51-55 | the class hierarchy never builds a tree with a null child |
| CppProps.DisplayThrowsIffNull | expr_static_cpp/expr_static.cpp:69-148 | `display` throws iff the tree holds a null pointer, in both programs |
| CppProps.WholeEvalNoThrow | expr_static_cpp/expr_static.cpp:53-94 | `eval` of a tree without null pointers never throws |
| CppProps.VirtualRunAfterParse | expr_cpp/expr.cpp:337-355 | in the class hierarchy, once `parse` has a tree, `run` succeeds unless a signed operation overflows |
| CppProps.AbortedRun | expr_static_cpp/expr_static.cpp:272-290 | an exception from the parser ends `run` with `EXIT_FAILURE` and nothing written |
| CppProps.BinNeedsBoth | expr_static_cpp/expr_static.cpp:83-94 | a binary node has a value only if both children do, and then it is the operator applied to them |
| CppProps.DivByZero | expr_static_cpp/expr_static.cpp:103-105 | a zero divisor gives no value |
| CppProps.UnsignedNegationWraps | expr_static_cpp/expr_static.cpp:61 | `unsigned` negation of a non-zero `n` is 2^32 - n |
| CppProps.StrEval | expr_static_cpp/expr_static.cpp:112-122 | a string tree has a value iff all operators are `+`, the concatenation of its literals, and otherwise no value |
| CppExamples.NextChar | expr_static_cpp/expr_static.cpp:167-176 | a non-whitespace character at the front is extracted, and `unget` restores the stream |
| CppExamples.SpanDigits | expr_static_cpp/expr_static.cpp:159 | the digit scan of an integer extraction stops right after the digits |
| CppExamples.ReadDigits | expr_static_cpp/expr_static.cpp:159 | a run of digits whose value the kind holds is extracted whole |
| CppExamples.ConvertInRange | expr_static_cpp/expr_static.cpp:159 | a magnitude the kind holds converts to itself |
| CppExamples.TerminalLiteral | expr_static_cpp/expr_static.cpp:156-162 | `terminal` reads a printed non-negative literal and stops at the first non-digit |
| CppExamples.FactorLiteral | expr_static_cpp/expr_static.cpp:164-208 | the same literal is a whole factor, in both programs |
| CppExamples.TailsStop | expr_static_cpp/expr_static.cpp:222-224 | the loops stop at a non-operator and put it back |
| CppExamples.TailsAtEnd | expr_static_cpp/expr_static.cpp:213-231 | at the end of input the loops stop with the tree so far and the stream fails |
| CppExamples.TermTailStep | expr_static_cpp/expr_static.cpp:226-227 | one turn of the `term` loop makes the tree so far the left child of the operator |
| CppExamples.ExprTailStep | expr_static_cpp/expr_static.cpp:252-253 | one turn of the `expression` loop makes the tree so far the left child of the operator |
| CppExamples.TermOf | expr_static_cpp/expr_static.cpp:212 | `term` is its first factor followed by the loop |
| CppExamples.ExpressionOf | expr_static_cpp/expr_static.cpp:238 | `expression` is its first term followed by the loop |
| CppExamples.TermLiteral | expr_static_cpp/expr_static.cpp:210-234 | a literal followed by `+`, `-` or nothing is a whole term |
| CppExamples.TrailingTextRejected | expr_static_cpp/expr_static.cpp:264-270 | text after a complete expression makes `parse` give no tree: `12x` is invalid |
| CppExamples.LeftAssociative | expr_static_cpp/expr_static.cpp:236-260 | `a-b-c` parses as `(a-b)-c`, in both programs |
| CppExamples.FoldDifferences | expr_static_cpp/expr_static.cpp:236-260 | the parse of `a-b-c` from its pieces |
| CppExamples.FirstDifference | expr_static_cpp/expr_static.cpp:238-253 | after `a-b` the `expression` loop goes on with `(a-b)` |
| CppExamples.SecondTerm | expr_static_cpp/expr_static.cpp:252 | the term after the first `-` is the literal `b` |
| CppExamples.ParseOfWhole | expr_static_cpp/expr_static.cpp:264-270 | an expression that uses up the input is what `parse` gives |
| CppExamples.LastDifference | expr_static_cpp/expr_static.cpp:239-257 | `-c` at the end of the input completes the fold |
| CppExamples.FailedTails | expr_static_cpp/expr_static.cpp:213 | once the stream has failed the loops stop |
| CppExamples.ParseOfFailedTerm | expr_static_cpp/expr_static.cpp:264-270 | a term that leaves a failed stream is what `parse` gives |
| CppExamples.ParseOfThrowingTerm | expr_static_cpp/expr_static.cpp:264-270 | an exception in the first term leaves `parse` |
| CppExamples.MinusBeforeBadOperand | expr_static_cpp/expr_static.cpp:197-204 | `-x`: the variant program builds a minus over null and `display` throws; the class hierarchy throws while parsing; both write nothing and fail |
| CppExamples.MinusFactor | expr_cpp/expr.cpp:256-264 | `factor` on `-x` is a minus over null in the variant program and throws in the class hierarchy |
| CppExamples.PartialOutput | expr_static_cpp/expr_static.cpp:123-148 | `2*-x`: the variant program writes `((2)*` before failing, the class hierarchy writes nothing |
| CppExamples.DisplayProduct | expr_static_cpp/expr_static.cpp:123-148 | the variant `display` of `2*` over a minus with a null child writes `((2)*` and throws |
| CppExamples.ProductWithBadOperand | expr_static_cpp/expr_static.cpp:264-270 | `parse` of `2*-x` is a product with a null-child minus, or an exception |
| CppExamples.ProductTerm | expr_static_cpp/expr_static.cpp:210-234 | `term` of `2*-x` is that product, or an exception |
| CppExamples.ProductTail | expr_static_cpp/expr_static.cpp:213-231 | the `term` loop on `*-x` builds the product, or throws |
| CppVersusRust.ToPtr | expr_static_cpp/expr_static.cpp:24-30 | a Rust tree maps to a C++ tree with no null pointer |
| CppVersusRust.ToPtrKinded | expr_static_cpp/expr_static.cpp:24-30 | the mapped tree keeps the kind of its literals |
| CppVersusRust.Op2Agree | expr_static_cpp/expr_static.cpp:95-122 | for `int` and strings the C++ binary operators agree with Rust's, overflow excepted |
| CppVersusRust.EvalAgrees | expr_static_cpp/expr_static.cpp:31-122 | for `int` and strings both C++ programs evaluate every tree as the Rust evaluator does (a Rust panic corresponds to C++ undefined behaviour) |
| CppVersusRust.DisplayAgrees | expr_static_cpp/expr_static.cpp:34-148 | both C++ printers write every tree as the Rust printer does |
| CppVersusRust.UnsignedNegationDiffers | expr_static_cpp/expr_static.cpp:61 | unsigned negation: Rust has no value, C++ wraps around |
| CppVersusRust.UnsignedOverflowDiffers | expr_static_cpp/expr_static.cpp:98 | an unsigned sum past 2^32-1: Rust panics, C++ wraps around |
| CppVersusRust.TrailingTextDiffers | expr_static_cpp/expr_static.cpp:264-270 | `12x`: Rust's `parse` keeps `12`, C++'s `parse` gives no tree |
| CppVersusRust.MinusBeforeBadOperandDiffers | expr_static_cpp/expr_static.cpp:197-204 | `-x`: Rust panics with status 101, both C++ programs return `EXIT_FAILURE` with empty output |
| ExprStub.NegateOption | expr/src/main.rs:124-129 | `eval_op` has a value iff its operand has one, and that value is the operand negated |
| ExprStub.Eval | expr/src/main.rs:72-85 | every tree of the sketch has a value |
| ExprStub.Display | expr/src/main.rs:76-91 | every printed node is wrapped in parentheses |
| ExprStub.EvalNest | expr/src/main.rs:83-85 | a literal under `d` minus nodes evaluates to itself for even `d` and to its negation for odd `d` |
| ExprStub.DisplayBalanced | expr/src/main.rs:76-91 | the printed tree has as many `(` as `)` |
| ExprStub.Run | expr/src/main.rs:42-52 | `run` prints `(-(1))` and then `-1` |
| GraphSplit.FirstNonBlank | graph_cpp/graph.cpp:115 | `find_first_not_of(" \t")`: the position of the first character that is neither space nor tab, or the end |
| GraphSplit.FirstBlank | graph_cpp/graph.cpp:121 | `find_first_of(" \t")`: the position of the first space or tab, or the end |
| GraphSplit.TokensAfterBlanks | graph_cpp/graph.cpp:115-118 | skipping the leading blanks does not change the tokens |
| GraphSplit.Split | graph_cpp/graph.cpp:109-130 | the `split` loop, narrowing `s` and pushing each token, returns exactly the tokens of the line |
| GraphSplit.NonBlanksAppend | graph_cpp/graph.cpp:109-130 | removing blanks distributes over concatenation |
| GraphSplit.TokensSound | graph_cpp/graph.cpp:109-130 | every token is non-empty and blank-free, and the tokens joined are the line with its blanks removed |
| GraphSplit.BlankLine | graph_cpp/graph.cpp:115-116 | a line of blanks has no tokens |
| GraphTable.BeforeIrreflexive | graph_cpp/graph.cpp:46-48 | no name is ordered before itself |
| GraphTable.BeforeTransitive | graph_cpp/graph.cpp:46-48 | the name order is transitive |
| GraphTable.BeforeTotal | graph_cpp/graph.cpp:46-48 | of two different names one comes first, so the set keys handlers by name |
| GraphTable.Before | graph_cpp/graph.cpp:46-48 | `handler::operator<` compares names as `std::string` does; `BeforeIrreflexive`, `BeforeTransitive` and `BeforeTotal` make it a strict total order on names |
| GraphTable.Find | graph_cpp/graph.cpp:74 | `data.find` gives the position of a handler with the name, or reports that none has it |
| GraphTable.GetShared | graph_cpp/graph.cpp:49-54 | `get_shared` gives a session iff the handler holds one strongly or its weak session is still alive |
| GraphTable.IsShared | graph_cpp/graph.cpp:55-57 | `is_shared` holds iff the handler holds its session strongly; `GraphProps.DisplayInOrder` uses it to pick ` => ` or ` -> ` |
| GraphTable.Insert | graph_cpp/graph.cpp:68 | `emplace` of a new name adds exactly that handler |
| GraphTable.InsertOrdered | graph_cpp/graph.cpp:68 | the insertion keeps the table sorted by name |
| GraphTable.Remove | graph_cpp/graph.cpp:92 | `erase` keeps exactly the handlers with other names, and shrinks the table when the name was present |
| GraphTable.RemoveOrdered | graph_cpp/graph.cpp:92 | the removal keeps the table sorted by name |
| GraphTable.Create | graph_cpp/graph.cpp:67-72 | `create_session` keeps the table well formed (see `GraphProps.CreateInserts`) |
| GraphTable.Link | graph_cpp/graph.cpp:73-90 | `add_shared_ptr` and `add_weak_ptr` keep the table well formed (see `GraphProps.LinkAddsOne`) |
| GraphTable.Erase | graph_cpp/graph.cpp:91-96 | `erase` keeps the table well formed (see `GraphProps.EraseRemoves`) |
| GraphTable.Listing | graph_cpp/graph.cpp:97-104 | `display` writes one line per handler |
| GraphTable.HandlerTable.constructor | graph_cpp/graph.cpp:137 | the table starts empty, with no session made |
| GraphTable.HandlerTable.CreateSession | graph_cpp/graph.cpp:67-72 | the in-place `create_session` keeps the table valid and changes it and answers exactly as `Create` |
| GraphTable.HandlerTable.AddPointer | graph_cpp/graph.cpp:73-90 | the shared part of both link commands changes the table and answers exactly as `Link` |
| GraphTable.HandlerTable.AddSharedPtr | graph_cpp/graph.cpp:73-81 | `add_shared_ptr` is `Link` with a strong reference |
| GraphTable.HandlerTable.AddWeakPtr | graph_cpp/graph.cpp:82-90 | `add_weak_ptr` is `Link` with a weak reference |
| GraphTable.HandlerTable.EraseHandler | graph_cpp/graph.cpp:91-96 | the in-place `erase` changes the table and answers exactly as `Erase` |
| GraphTable.HandlerTable.Display | graph_cpp/graph.cpp:97-104 | the walk over the set writes exactly `Listing` |
| GraphRun.Classify | graph_cpp/graph.cpp:140-159 | a line is an unknown command (`???`) iff its tokens are not `H + S`, `H => H`, `H -> H`, `! H` or `?` |
| GraphRun.Apply | graph_cpp/graph.cpp:141-159 | every command keeps the table well formed |
| GraphRun.Replay | graph_cpp/graph.cpp:139-160 | a sequence of lines keeps the table well formed |
| GraphRun.ReplayNext | graph_cpp/graph.cpp:139-160 | the answer to the next line comes before the answers to the lines after it, and the table those lines leave is the same |
| GraphRun.Execute | graph_cpp/graph.cpp:141-159 | the dispatch on the in-place table does exactly what `Apply` says |
| GraphRun.DyingOrder | graph_cpp/graph.cpp:27-29 | as the handlers are destroyed from the last name to the first, each session alive among them dies exactly once, with its first-named strong owner |
| GraphRun.Run | graph_cpp/graph.cpp:135-166 | the `getline` loop from an empty table writes exactly what `Replay` says, and then, as the local table is destroyed on return, one deletion line per session still alive, in the order they die |
| GraphRun.AnswerLength | graph_cpp/graph.cpp:67-104 | `?` writes one line per handler; every other command one line, or two when a session dies |
| GraphRun.BlankLineUnrecognised | graph_cpp/graph.cpp:159 | a blank line answers `???` and leaves the table unchanged |
| GraphRun.CreatedThenDestroyed | graph_cpp/graph.cpp:135-166 | the input `A + S` writes `Created` and then, when `run` returns, `deleted session S` |
| GraphRun.FarewellDescending | graph_cpp/graph.cpp:137-165 | handlers are destroyed in descending name order: with `A` owning `S` and `B` owning `T`, `T` dies before `S` |
| GraphProps.FindMember | graph_cpp/graph.cpp:46-48 | names in the table are unique: finding a member's name finds that member |
| GraphProps.CreateInserts | graph_cpp/graph.cpp:67-72 | `H + S` adds `H` owning a fresh session iff `H` is new; otherwise the handlers are unchanged and the fresh session dies at once, printing its deletion before the answer |
| GraphProps.LinkUnchanged | graph_cpp/graph.cpp:73-90 | with no target, or with the new name taken, nothing changes and the matching error is written |
| GraphProps.LinkAddsOne | graph_cpp/graph.cpp:73-90 | otherwise exactly one handler is added, strong iff requested and the target has a session, with the target's session; no living session dies |
| GraphProps.LinkFromExpired | graph_cpp/graph.cpp:49-90 | a handler copied from a target whose weak session expired holds no session |
| GraphProps.EraseRemoves | graph_cpp/graph.cpp:91-96 | `! H` removes exactly `H` and answers whether it existed |
| GraphProps.EraseLastOwner | graph_cpp/graph.cpp:27-96 | erasing the last owner of a session kills it, prints its deletion first, and its weak handlers lose it |
| GraphProps.EraseOtherOwner | graph_cpp/graph.cpp:91-96 | a session with another owner survives the erase, silently |
| GraphProps.DisplayInOrder | graph_cpp/graph.cpp:97-104 | `?` lists the handlers in name order, each line starting with the name and going on iff `get_shared` gives a session |
| GraphProps.CreateThenLink | graph_cpp/graph.cpp:67-90 | `A + S` then `B => A` or `B -> A` leaves both handlers referring to the new session |
| GraphProps.StrongKeepsWeakLoses | graph_cpp/graph.cpp:49-96 | after `! A`, a strong `B` keeps the session alive and a weak `B` loses it, with the deletion printed |
| Primes.LeastDivisor | cpp-meetup/primes.cpp:9-10 | the least divisor of `p` from `from` on divides `p`, and nothing between `from` and it does |
| Primes.LeastDivisorPrime | cpp-meetup/primes.cpp:9-13 | the least divisor of a number is prime |
| Primes.LeastDivisorSquare | cpp-meetup/primes.cpp:7-8 | a proper least divisor has a square not above the number, which is why the search may stop at the square root |
| Primes.SmallPrimeFactor | cpp-meetup/primes.cpp:7-13 | a composite number has a prime factor whose square does not exceed it |
| Primes.PrimesBelowSpec | cpp-meetup/primes.cpp:5-15 | the specification list is ascending and holds exactly the primes below `n` |
| Primes.FirstSquareAbove | cpp-meetup/primes.cpp:7-8 | the boundary `find_if` gives the first position whose element's square exceeds `p`, or the end |
| Primes.FirstDivisor | cpp-meetup/primes.cpp:9-10 | the divisor `find_if` gives the first position before the boundary whose element divides `p`, or the boundary iff there is none |
| Primes.ResumeSearch | cpp-meetup/primes.cpp:20-21 | resuming the boundary search where the last one stopped finds the same boundary as a search from the start |
| Primes.BoundaryGrows | cpp-meetup/primes.cpp:19-21 | the boundary never moves back as `p` grows and the vector is extended |
| Primes.TrialDivision | cpp-meetup/primes.cpp:7-13 | trial division by the primes below `p`, up to the boundary, finds no divisor iff `p` is prime |
| Primes.ScanStops | cpp-meetup/primes.cpp:35-40 | an inner loop that stops at a square above `i`, at the end, or at a divisor decides the same as the boundary search |
| Primes.RootScan | cpp-meetup/primes.cpp:35-40 | over an ascending vector, the scan finds no divisor iff no element with square at most `i` divides `i` |
| Primes.NextPrimes | cpp-meetup/primes.cpp:11-13 | one outer step appends `p` exactly when it is prime, extending the primes below `p` to those below `p + 1` |
| Primes.Primes1 | cpp-meetup/primes.cpp:5-15 | `primes1` only appends to the vector, and from an empty vector leaves exactly the primes below `n`, ascending |
| Primes.Primes2 | cpp-meetup/primes.cpp:17-29 | `primes2`, with its resumed boundary, only appends, and from an empty vector leaves exactly the primes below `n` |
| Primes.Scan3 | cpp-meetup/primes.cpp:34-40 | the inner loop of `primes3` keeps `is_p` iff no element up to the boundary divides `i` |
| Primes.Primes3 | cpp-meetup/primes.cpp:31-44 | `primes3` appends 2 and then, from an empty vector, leaves exactly the primes below `n` (just `[2]` when `n <= 2`) |
| Primes.Scan4 | cpp-meetup/primes.cpp:49-55 | the inner loop of `primes4` decides as `Scan3` when it stops inside the vector, and runs off the end (undefined behaviour) exactly when every element has a square at most `i` and divides nothing |
| Primes.ScanEnds | cpp-meetup/primes.cpp:50 | with the primes below `i` and a prime whose square exceeds `i` among them, the scan of `primes4` stays inside the vector |
| Primes.Primes4 | cpp-meetup/primes.cpp:46-59 | `primes4` only appends; from an empty vector, when every prime below `n` has a smaller prime whose square exceeds it, it never runs off the end and leaves exactly the primes below `n` |
| Primes.Scan5 | cpp-meetup/primes.cpp:64-73 | the `find_if` with its lambda clears `is_p` iff an element up to the boundary divides `i` |
| Primes.Primes5 | cpp-meetup/primes.cpp:61-77 | `primes5` appends 2 and then, from an empty vector, leaves exactly the primes below `n` |
| Loops.FibonacciMono | loops/src/main.rs:60-74 | the Fibonacci numbers never decrease, so once `fib`'s sum leaves `u64` the answer cannot fit either |
| Loops.Fib | loops/src/main.rs:60-74 | `fib(n)` is 1 for 0 and otherwise runs its loop `n` times and answers F(n+1); it panics (`None`) exactly when F(n+1) does not fit in `u64` |
| Loops.FibRecurrence | loops/src/main.rs:66-71 | the specification function F satisfies the Fibonacci recurrence; since `Fib` is proved to answer F(n+1), consecutive answers of `fib` do too |
| Loops.FibonacciBelowPow2 | loops/src/main.rs:60-74 | F(k) is below 2^k |
| Loops.Pow2Of64 | loops/src/main.rs:60 | 2^64 is the `u64` modulus |
| Loops.FibFitsBelow50 | loops/src/main.rs:55-57 | every `fib(v)` of the table, for `v` below 50, fits in `u64`, so the table never panics |
| Loops.FibTable | loops/src/main.rs:55-57 | the table has 50 lines and line `v` shows `v` and F(v+1) |
| Loops.BreakWithValue | loops/src/main.rs:3-10 | the `loop` breaks with the value 12 |
| Loops.LabelledBreak | loops/src/main.rs:13-29 | the labelled loop prints `i=0 n=10 n=9 i=1 n=10 n=9 i=2 n=10` and ends with `i = 2` |
| Loops.CountdownLines | loops/src/main.rs:32-36 | the countdown from `n` has `n` lines and line `k` shows `n - k` |
| Loops.Countdown | loops/src/main.rs:32-37 | the `while n != 0` loop prints `n` down to 1 and then "after while" |
| Loops.IndexedLines | loops/src/main.rs:39-44 | the index loop prints each element once, in order, with its index |
| Loops.ElementLines | loops/src/main.rs:47-49 | `for v in a` prints each element once, in order |
| Loops.Reversed | loops/src/main.rs:50-52 | the reversed range prints `n - 1` down to 0, each once |
| Enums.IpToString | enums/src/main.rs:9-15 | `None` renders as "None" and `V6` as its own text; `V4` as its dotted bytes |
| Enums.V4Injective | enums/src/main.rs:9-15 | two `V4` addresses with the same text are equal, so the rendering loses nothing |
| Enums.AddressesInMain | enums/src/main.rs:53-59 | `main`'s three addresses render as "None", "127.0.0.1" and "::1" |
| Enums.Process | enums/src/main.rs:29-50 | `process` answers true exactly for `Move`, `Write` and `ChangeColor`; those and `Quit` print one line, the rest nothing |
| Enums.Divide | enums/src/main.rs:82-88 | `divide` is `None` exactly for a zero divisor, and otherwise the quotient truncated toward zero, within `i32` |
| Enums.QuotientLineNotZero | enums/src/main.rs:71 | a quotient line is never the zero-divisor message |
| Enums.NegLineNotZero | enums/src/main.rs:73-75 | a negation line is never the zero-divisor message |
| Enums.SuccessLines | enums/src/main.rs:69-78 | neither line of a successful division is the zero-divisor message |
| Enums.DivideLinesZero | enums/src/main.rs:67-79 | one round of the loop prints "Division by zero" iff the divisor is 0 |
| Enums.DivideLoop | enums/src/main.rs:67-79 | the loop runs the 20 divisors from -10 to 9 in order and only the divisor 0 prints "Division by zero" |
| Rectangles.ProductMono | rectangles/src/main.rs:50-52 | with non-negative sides, holding a rectangle means having at least its area |
| Rectangles.Rectangle.constructor | rectangles/src/main.rs:13-15 | `new` keeps the width and height it is given |
| Rectangles.Rectangle.Square | rectangles/src/main.rs:16-18 | `Rectangle::square` is as wide as high |
| Rectangles.Rectangle.Area | rectangles/src/main.rs:19-21 | `area` is the product of the sides, defined when it fits in `i32`; `Rectangle.Double` quadruples it and `CanHoldArea` bounds it |
| Rectangles.Rectangle.Double | rectangles/src/main.rs:22-25 | `double` doubles both sides in place, which quadruples the area; it requires both doubled sides to fit in `i32` |
| Rectangles.Rectangle.HasWidth | rectangles/src/main.rs:44-46 | `width()` is true iff the width is not zero |
| Rectangles.Rectangle.HasHeight | rectangles/src/main.rs:47-49 | `height()` is true iff the height is not zero |
| Rectangles.Rectangle.CanHold | rectangles/src/main.rs:50-52 | `can_hold` compares both sides; `CanHoldReflexive`, `CanHoldTransitive` and `CanHoldArea` state its properties |
| Rectangles.CanHoldReflexive | rectangles/src/main.rs:50-52 | every rectangle can hold itself |
| Rectangles.CanHoldTransitive | rectangles/src/main.rs:50-52 | `can_hold` is transitive |
| Rectangles.CanHoldArea | rectangles/src/main.rs:50-52 | a rectangle that can hold another of non-negative sides has at least its area |
| Rectangles.Square.constructor | rectangles/src/main.rs:29-31 | `Square::new` keeps its side |
| Rectangles.Square.Area | rectangles/src/main.rs:32-34 | `area` is the side squared, defined when it fits in `i32`; `Square.Double` quadruples it |
| Rectangles.Square.Double | rectangles/src/main.rs:35-37 | `double` doubles the side in place, which quadruples the area |
| Rectangles.Square.ToRectangle | rectangles/src/main.rs:38-40 | `to_rectangle` gives a new rectangle with both sides equal to the side and the same area |
| Rectangles.Square.HasSide | rectangles/src/main.rs:56-58 | `side()` is true iff the side is not zero |
| Rectangles.Square.CanHold | rectangles/src/main.rs:59-61 | `can_hold` compares the sides; `SquareCanHoldPreorder` makes it a total preorder |
| Rectangles.SquareCanHoldPreorder | rectangles/src/main.rs:59-61 | the square `can_hold` is reflexive, transitive and total |
| Rectangles.MainLines | rectangles/src/main.rs:64-81 | `main` prints the areas 25, 100, 1500 and 6000 and the comparisons true, false, true, false, true, true |
| Generics.Largest | generics-10/src/main.rs:1-9 | `largest` returns an element no element exceeds, and the first such one, since it moves on only for a strictly greater element |
| Generics.LargestInMain | generics-10/src/main.rs:43-49 | the largest of `main`'s numbers is 100 and of its characters `y` |
| Generics.Format | generics-10/src/main.rs:16-19 | `format` writes the point in square brackets, and `FormatInjective` shows that the text determines both coordinates |
| Generics.FormatInjective | generics-10/src/main.rs:16-19 | two points with the same `[x,y]` text have the same coordinates |
| Generics.Mixup | generics-10/src/main.rs:36-39 | `mixup` takes `x` from `self` and `y` from the other point |
| Lifetimes.Longest | lifetimes/src/main.rs:1-7 | `longest` returns one of its arguments, with at least as many bytes as either, and the second on a tie |
| Lifetimes.First | lifetimes/src/main.rs:9-11 | `first` always returns its first argument |
| Lifetimes.LongestCountsBytes | lifetimes/src/main.rs:1-7 | lengths are in UTF-8 bytes, so two two-byte characters beat three ASCII ones |
| Lifetimes.MainLines | lifetimes/src/main.rs:18-25 | `main` prints `longest=abcd` and `first=abcd` |
| ConsList.RenderConcat | smart_ptr-15/src/main.rs:8-21 | rendering a list is the in-order concatenation of its node values |
| ConsList.ToString | smart_ptr-15/src/main.rs:8-21 | the `to_string` loop of `BoxList` (and the identical one of `RcList`) returns the concatenation of the node values in order |
| ConsList.Walk | smart_ptr-15/src/main.rs:79-86 | walking `k` steps, where `Null` stays put, reaches the list after its first `k` nodes |
| ConsList.DropValues | smart_ptr-15/src/main.rs:79-86 | after `k` steps the cursor holds the values from position `k` on, or none when the list is shorter |
| ConsList.WalkRender | smart_ptr-15/src/main.rs:79-86 | walking `k` steps and rendering gives the concatenation of the values from position `k` on |
| ConsList.Truncate | smart_ptr-15/src/main.rs:87-95 | overwriting the node reached after `k` steps with `Null` keeps exactly the first `k` values |
| ConsList.Deref | smart_ptr-15/src/main.rs:51-56 | `deref` gives the value the box wraps |
| ConsList.DerefNew | smart_ptr-15/src/main.rs:124-127 | dereferencing `MyBox::new(x)` gives `x` back |
| ConsList.BoxMain | smart_ptr/src/main.rs:22-33 | the program prints `list=Hello world!` |
| ConsList.SmartPtrMain | smart_ptr-15/src/main.rs:67-117 | the list lines are the whole list, its suffix after two steps, the list cut after three nodes, the `Rc` list, its clone, and the two walked suffixes |
| LinkedList.Node.constructor | linked_list/src/main.rs:22-26 | a new node holds its value and no links |
| LinkedList.ConcatPrepend | linked_list/src/main.rs:57-78 | concatenating after a value put in front is that value followed by the concatenation |
| LinkedList.List.constructor | linked_list/src/main.rs:15-20 | `new` gives a well-linked empty list with no first and no last node |
| LinkedList.List.Append | linked_list/src/main.rs:21-37 | `append` adds the value at the end, links the new node both ways to the old last one, keeps the list well linked and touches only the list and its old last node |
| LinkedList.List.Prepend | linked_list/src/main.rs:38-54 | `prepend` adds the value at the front, links the new node both ways to the old first one, keeps the list well linked and touches only the list and its old first node |
| LinkedList.List.ToString | linked_list/src/main.rs:57-78 | following `next` from `first` concatenates the values in list order |
| LinkedList.MainString | linked_list/src/main.rs:81-88 | two appends and two prepends give `Hello world!` |
| RustStr.EncodeChar | ownership-4.1/src/main.rs:84-92 | a character encodes to one to four UTF-8 bytes, a single byte equal to it exactly below U+0080, and only bytes of at least 0x80 otherwise |
| RustStr.SpaceByte | ownership-4.1/src/main.rs:87 | the space byte occurs in a character's encoding iff the character is a space |
| RustStr.Utf8Append | ownership-4.1/src/main.rs:80-82 | the encoding of a concatenation is the concatenation of the encodings |
| RustStr.Utf8NoSpace | ownership-4.1/src/main.rs:86-91 | a string with no space has no space byte |
| RustStr.LenBounds | ownership-4.1/src/main.rs:71-74 | the byte length is between the number of characters and four times it, and equals it for ASCII text |
| Ownership.WordEnd | ownership-4.1/src/main.rs:86-91 | the word end is the position of the first space byte, or the end when there is none |
| Ownership.WordEndUnique | ownership-4.1/src/main.rs:86-91 | those properties determine the word end, so it is well defined |
| Ownership.FirstWord | ownership-4.1/src/main.rs:84-92 | `first_word` returns the bytes before the first space, and the whole slice when there is no space |
| Ownership.FirstWordOfText | ownership-4.1/src/main.rs:84-92 | the byte scan cuts the text's encoding exactly after the characters of its first word |
| Ownership.StrAppend | ownership-4.1/src/main.rs:80-82 | `str_append` leaves the string followed by exactly " tail", five bytes longer |
| Ownership.StrLenCopy | ownership-4.1/src/main.rs:71-74 | `str_len_copy` gives the string back unchanged with its byte length |
| Ownership.ReportNumRet | ownership-4.1/src/main.rs:62-65 | `report_num_ret` prints the string, ": " and the decimal digits of `n`, and gives the string back unchanged |

## Left out

- Floating point: the `f64` mode of every expression program, `Point<f64>`, `is_float` and the `f64` point of `mixup` in `generics-10`, because floating-point arithmetic and formatting are outside the model.
- Program entry points: `main`, `usage`, the command-line type selection and the messages written to standard error. The input line is a parameter and the printed lines are results.
- C++ `std::cin >> v` for integers is library code that is not part of this model; it is reduced to a rule: skip blanks, an optional sign, at least one digit, a range check, and a negative value read into `unsigned` wraps.
- `graph_cpp` uses `shared_ptr` and `weak_ptr`: the reference counts are abstracted to "a session is alive iff some handler holds it strongly", and a session's `~session` line is written when the last handler holding it strongly goes (`Create`, `Erase`, and the end of `run`); the `std::set` of handlers is a sequence kept sorted by name; the `getline` loop is a sequence of lines.
- GraphRun.Run: the order in which a `std::set` frees its nodes on destruction is implementation-defined; the model follows libstdc++, whose `_Rb_tree::_M_erase` frees them in descending order. The exception path of `run` (graph.cpp line 163) is not modelled, since no command of the model can throw.
- Primes: the vector passed by reference is a sequence passed in and returned; `size_t` and `int` are unbounded, so the overflow of `c * c` and of the counters for huge `n` is not modelled.
- Primes.Primes4: the result is proved equal to the primes below `n` only under the hypothesis that every prime below `n` has a smaller prime whose square exceeds it (a consequence of Bertrand's postulate, which is not proved here); without it the model only states that the vector is extended, or that the scan runs off the end.
- ExprStub.Eval: integers are unbounded, so negating `i32::MIN` does not panic.
- Rectangles.Rectangle.Double: `double` panics in a debug build when a doubled side leaves `i32`; the model requires both doubled sides to fit instead.
- Rectangles.Rectangle.Area: `area` panics in a debug build when `width * height` leaves `i32`; the model requires the product to fit instead.
- Rectangles.Square.Double: the same overflow of the doubled side is excluded by the precondition.
- Rectangles.Square.Area: the overflow panic of `side * side` is excluded by the precondition that the product fits in `i32`.
- Enums.Divide: `i32::MIN / -1` panics; it is excluded by the precondition, as is `neg` of `i32::MIN` in `main`'s loop.
- Generics.Largest: `&list[0]` panics on an empty slice; the model requires a non-empty slice instead, as both calls in `main` pass. `PartialOrd` is narrowed to a strict total order, as it is on the `i32` and `char` values of `main`; with incomparable elements (a NaN among floats) the first-maximum promise would not hold.
- Integer overflow in Rust follows a debug build, where it panics. A release build would wrap `+`, `-`, `*` and unary `-` instead, and that choice is not modelled; a division overflow (`i32::MIN / -1`) and a zero divisor panic in both builds.
- The cons lists: the `Rc` strong and weak counts, `Weak::upgrade`, the `DropSmartPtr` drop messages and `dbg!` output of `smart_ptr-15` and `rectangles`; they only print.
- The `&mut` updates of `str_append` and of the list truncation walk are modelled on values: the new string or list is returned.
- LinkedList: the generic `LinkedList<T>` is modelled for `String` values only, the type that `to_string` needs; `Rc` and `RefCell` become object references.
- Lifetimes: `ImportantExcerpt` and the `split('.')` of the last lines of `main` are not modelled; they only print.
- The other `ownership-4.1` functions are not modelled separately: `str_len` and `str_len_ref` return the byte length that `StrLenCopy` returns alongside the string, and `report_num` and `print_array_slice` only print.
- Other programs of the repository are not part of this model: the `graph/src/main.rs` stub, `cpp-meetup/src/main.rs` (a printing loop whose divisor test repeats `primes1`), `workshop`, `error`, `panic`, `panic-9.2`, `variables-3.1`, `experiment`, `collections`, `traits`, `trait_object`, `closures-13.1`, `structs`, `functions`, `ownership`, `try-borrow` and `restaurant-7.2`.
