# uintx_t: extensible unsigned integers, their maths and a calculator

uintx_t is a C++ class of unsigned integers of any size. A value is a
buffer of 32-bit words, least significant word first. The class is
*normalized* when its most significant word is not zero, or when it is the
single word 0. On top of the class sit a few derived functions (power,
factorial, gcd/lcm, Fibonacci numbers, square root, and others). They come
in three versions:

- one for uintx_t values, which knows about NaN;
- one for a test program;
- generic templates.

A small calculator sits on top of that. It has a lexer, a recursive-descent
parser that builds an expression tree, and an evaluator and renderer for
that tree.

This project models these three layers and proves properties of the model.

- **Kernel** (`words`, `store`, `compare`, `add`, `sub`, `shift`, `logic`,
  `mul`, `divide`, `hex`). A value is a `seq<Word>` with `Word = x: nat | x < 2^32`.
  `Words.Val` is the number the words denote, and `Words.Normalized` is the
  class's invariant. Every operator is a function or method on word
  sequences, and its contract is stated on `Val`. `Bits` holds the
  arithmetic on powers of two and the bitwise operators on naturals.
- **Derived maths** (`maths`, `sqrt`). These functions are modelled on
  naturals, and uintx_t::NaN is a separate value (`Maths.Num`). The kernel
  operations they call are the ones proved above.
- **Calculator** (`lexical`, `parser`, `tree`, `rendering`, `roundtrip`,
  `grouping`). The lexer and parser state is an immutable `Lex` value. Each
  recursive-descent function returns the state after it, the tree it
  built, and an error flag. The key result is `RoundTrip.ParseInorder`:
  parsing the infix rendering of any well-formed tree gives back that tree.

For each bug listed under Findings, the operator is modelled both as written
and as intended, and the rest of the model uses the intended version. Other
bugs are modelled only as intended and are named under Left out: the
unsigned loops that count down while an index is at least 0, and the loop of
`*`.

## Model

| member | source | states |
|---|---|---|
| Words.WordsOf | Src/uintx_t.h:15-17 | every natural has a normalized word buffer denoting it |
| Store.FromUint32 | Src/uintx_t.cpp:28-33 | the 32-bit constructor gives a normalized one-word value equal to its argument |
| Store.FromUint64 | Src/uintx_t.cpp:38-44 | the 64-bit constructor always makes two words denoting the argument; the result is normalized exactly when the argument is at least 2^32 |
| Store.Reallocate | Src/uintx_t.cpp:88-97 | the buffer gets the new size; the same size keeps the words, and a new size gives a zero buffer |
| Store.Grow | Src/uintx_t.cpp:102-120 | the buffer never shrinks; the old words stay as a prefix, the new words are zero, and the value is unchanged |
| Store.Normalize | Src/uintx_t.cpp:125-140 | the result is normalized with the same value; it is a prefix of the input with only zero words dropped; a normalized input is unchanged |
| Store.Assign | Src/uintx_t.cpp:214-222 | copy assignment makes the target equal to the source, whatever the target was |
| Store.AssignUint32 | Src/uintx_t.cpp:228-232 | assigning a 32-bit integer gives the same value as constructing from it |
| Store.AssignUint64 | Src/uintx_t.cpp:238-243 | assigning a 64-bit integer gives the same value as constructing from it |
| Store.BitCount | Src/uintx_t.cpp:189-201 | the value is below 2 to the bit count; for a normalized value the bit count is exactly its bit length |
| Store.BitCountAsWritten | Src/uintx_t.cpp:200 | the 32-bit bit count is the bit count modulo 2^32, and equals it exactly when the bit count is below 2^32 |
| Store.BitCountWrapCounterexample | Src/uintx_t.cpp:200 | a buffer of 2^27 + 1 words with top word 1 has 2^32 + 1 bits, and the 32-bit bit count reports 1 |
| Store.ToUint32 | Src/uintx_t.cpp:854-856 | the cast to 32 bits is the value modulo 2^32 |
| Store.ToUint64 | Src/uintx_t.cpp:861-863 | the cast to 64 bits is the value modulo 2^64 |
| Store.Uint64Halves | Src/uintx_t.cpp:862 | or-ing the shifted high word with the low word gives the value modulo 2^64 |
| Store.CastRoundTrip | Src/uintx_t.cpp:854-863 | casting back gives the integer the value was constructed from, for 32 and for 64 bits |
| Compare.ScanDown | Src/uintx_t.cpp:344-348 | scanning equal-length buffers from the top word decides the order of their values: above, below, or equal buffers |
| Compare.Greater | Src/uintx_t.cpp:339-349 | for equal lengths, or for two normalized operands, true exactly when the left value is larger |
| Compare.GreaterEq | Src/uintx_t.cpp:365-375 | for equal lengths, or for two normalized operands, true exactly when the left value is at least the right |
| Compare.Less | Src/uintx_t.cpp:392-394 | for equal lengths, or for two normalized operands, true exactly when the left value is smaller |
| Compare.LessEq | Src/uintx_t.cpp:410-412 | for equal lengths, or for two normalized operands, true exactly when the left value is at most the right |
| Compare.Equal | Src/uintx_t.cpp:428-441 | true exactly when the buffers are equal; for normalized operands, exactly when the values are equal |
| Compare.NotEqual | Src/uintx_t.cpp:466-468 | true exactly when the buffers differ |
| Compare.EqualWord | Src/uintx_t.cpp:448-450 | true only if the value equals the word; for a normalized value, exactly then |
| Compare.LengthDecides | Src/uintx_t.cpp:340-341 | for normalized operands, the longer buffer has the larger value |
| Add.AddWord | Src/uintx_t.cpp:290-316 | one step of the carry chain: the sum word plus 2^32 times the new carry is the two words plus the old carry, and the new carry is 0 or 1 |
| Add.AddWords | Src/uintx_t.cpp:286-317 | the word loop gives the longer operand's length and a carry of at most 1, and the buffer plus the carry out is the sum of the values |
| Add.AddAssign | Src/uintx_t.cpp:275-325 | the value becomes the sum; the length is the longer operand's, or one more with a top word of 1; normalized operands give a normalized result |
| Add.Plus | Src/uintx_t.cpp:266-269 | the value is the sum, and normalized operands give a normalized result |
| Sub.SubWord | Src/uintx_t.cpp:732-742 | one step of the borrow chain: the difference word minus 2^32 times the new borrow is the left word minus the right word minus the old borrow |
| Sub.SubWords | Src/uintx_t.cpp:730-743 | the word loop keeps the left length, and the buffer minus the borrow out is the difference of the values |
| Sub.SubAssign | Src/uintx_t.cpp:721-749 | the result is normalized; when the guard sees the right operand at least as large, the result is zero; otherwise it is the difference, or the difference wrapped at the buffer size when lengths mislead the guard; for normalized operands it is the difference stopped at zero |
| Sub.Minus | Src/uintx_t.cpp:712-715 | for normalized operands, the difference stopped at zero, and normalized |
| Shift.ShlWordsValue | Src/uintx_t.cpp:523-528 | shifting within words by d multiplies the value by 2^d, with the bits pushed out of the top word lost |
| Shift.MoveUpShape | Src/uintx_t.cpp:508-518 | the word copy places q zero words below the original low words |
| Shift.WordMoveUp | Src/uintx_t.cpp:508-518 | the copy and fill loops produce the moved buffer |
| Shift.ShiftWordsUp | Src/uintx_t.cpp:521-528 | the in-word loop produces the word-wise left shift |
| Shift.ShiftLeft | Src/uintx_t.cpp:499-532 | the value is multiplied by 2^distance; normalization is kept; a normalized nonzero value gets exactly ceil((bit length + distance) / 32) words |
| Shift.GrowSizeAsWritten | Src/uintx_t.cpp:505 | the size `<<=` grows to, computed in 32 bits, is below 2^27 |
| Shift.GrowSizeAgrees | Src/uintx_t.cpp:505 | the 32-bit grow size equals the intended ceil((bit count + distance) / 32) exactly when bit count + distance + 31 is below 2^32, and otherwise falls short by at least 2^27 words |
| Shift.ShiftLeftWrapCounterexample | Src/uintx_t.cpp:505-511 | 1 << 0xFFFFFFFF grows to size 0, so the buffer stays one word, while the result needs 2^27 words |
| Shift.NewSize | Src/uintx_t.cpp:550-553 | the size after a right shift is zero exactly when the distance reaches the bit count, and otherwise the number of words the remaining bits need |
| Shift.NewSizeAgrees | Src/uintx_t.cpp:550 | the 32-bit size computation as written agrees with the intended one exactly when the distance is below the bit count plus 32 |
| Shift.FreshMove | Src/uintx_t.cpp:557-564 | moving words down by q puts word j+q at j, with zeros above, and divides the value by 2^(32q) |
| Shift.StaleAgrees | Src/uintx_t.cpp:557-564 | the word move as written, which leaves the upper words in place, agrees with the intended move exactly when the words it leaves behind are zero |
| Shift.WordMoveDown | Src/uintx_t.cpp:557-564 | the copy loop produces the as-written word move |
| Shift.ShrWordsValue | Src/uintx_t.cpp:569-573 | shifting within words right by d divides the value by 2^d |
| Shift.ShiftWordsDown | Src/uintx_t.cpp:569-573 | the in-word loop over the kept words produces the word-wise right shift of that prefix |
| Shift.ShiftRight | Src/uintx_t.cpp:548-582 | intended right shift: the value is divided by 2^distance, and the result is normalized |
| Shift.ShiftRightAsWritten | Src/uintx_t.cpp:548-582 | right shift as written: normalized, and equal to the intended shift when the distance is below the bit count plus 32 and no stale word is left |
| Shift.StaleCounterexample | Src/uintx_t.cpp:557-573 | the value 2^65 + 2^32, shifted right by 65 as written, gives 0x80000001 instead of 1 |
| Shift.WrapCounterexample | Src/uintx_t.cpp:550-553 | 1 shifted right by 64 as written stays 1, because the size computation wraps to 0x7FFFFFF |
| Shift.ShiftRoundTrip | Src/uintx_t.cpp:499-582 | shifting a normalized value left and then right by the same distance gives it back |
| Logic.PairwiseValue | Src/uintx_t.cpp:606-647 | combining two equal-length buffers word by word with and, or or xor is the same bitwise operation on their values |
| Logic.CombineLow | Src/uintx_t.cpp:611-612 | the loop combines the words both operands have and keeps the left operand's other words |
| Logic.Combine | Src/uintx_t.cpp:606-647 | the result has the left operand's length; each shared word is combined and the rest are copied; on values, the shared low part is combined and the left's high part is kept; equal lengths combine the whole values |
| Mul.MulWord | Src/uintx_t.cpp:666 | multiplying by one word gives the product value, normalized |
| Mul.Times | Src/uintx_t.cpp:657-672 | the product of the values, normalized |
| Divide.Double | Src/uintx_t.cpp:772 | shifting left by one doubles a normalized value |
| Divide.Halve | Src/uintx_t.cpp:776 | shifting right by one halves the value, rounding down |
| Divide.Scale | Src/uintx_t.cpp:769 | the first window shift multiplies by 2 to the difference of the bit counts |
| Divide.Less | Src/uintx_t.cpp:779 | subtracting a window no larger than the rest gives the exact difference |
| Divide.Increment | Src/uintx_t.cpp:780 | adding one to the quotient |
| Divide.Widen | Src/uintx_t.cpp:771-772 | the window doubles until it is above the dividend; it stays the divisor times a power of two |
| Divide.LongDivide | Src/uintx_t.cpp:766-783 | the loop ends with dividend = divisor * quotient + rest, and rest below the divisor |
| Divide.Div | Src/uintx_t.cpp:763-786 | the quotient is the dividend divided by the divisor, rounded down, and normalized |
| Divide.WindowTop | Src/uintx_t.cpp:815-816 | the doubled window ends above the dividend and not below where it started |
| Divide.WindowTopPower | Src/uintx_t.cpp:815-816 | a window that starts as the divisor times a power of two ends as one |
| Divide.RemAsWrittenBound | Src/uintx_t.cpp:811-826 | the remainder as written is below the divisor and at most the dividend, and is the dividend when that is below the divisor |
| Divide.RemAsWritten | Src/uintx_t.cpp:811-826 | the operator% as written: normalized, with the value of its value-level model, below the divisor and at most the dividend |
| Divide.Rem | Src/uintx_t.cpp:811-826 | the intended remainder: the dividend modulo the divisor, normalized |
| Divide.RemCounterexample | Src/uintx_t.cpp:821-822 | 5 % 2 as written is 0, against the true remainder 1 |
| Hex.DigitChar | Src/uintx_t.cpp:879 | a digit below 16 renders as an upper-case hex character whose value is that digit |
| Hex.HexPrefix | Src/uintx_t.cpp:156-167 | the loader stops at the first character that is not a hex digit |
| Hex.LoadString | Src/uintx_t.cpp:145-184 | loading fills m words; the success flag is true exactly when every character is a hex digit; the value is the digits read so far, placed as if the whole string and the spare words were there |
| Hex.FromString | Src/uintx_t.cpp:49-58 | the string constructor makes ceil(length / 8) words, and a string of hex digits denotes its hex value |
| Hex.AssignStringAsWritten | Src/uintx_t.cpp:249-252 | string assignment as written keeps the target's length, and the value comes out multiplied by 2^32 for each spare word |
| Hex.AssignStringScales | Src/uintx_t.cpp:249-252 | assigning "1" to a two-word zero as written gives 2^32 |
| Hex.AssignString | Src/uintx_t.cpp:249-252 | intended string assignment: the words the string needs, and its hex value |
| Hex.LsdDigitsVal | Src/uintx_t.cpp:873-883 | the digits of the words, least significant first, denote the value |
| Hex.TrimHighVal | Src/uintx_t.cpp:887-890 | dropping leading zero digits keeps the value |
| Hex.ToHex | Src/uintx_t.cpp:868-898 | the cast to string is at least one upper-case hex digit, has no leading zero unless it is "0", and denotes the value |
| Hex.CanonicalUnique | Src/uintx_t.cpp:868-898 | two canonical hex strings with the same value are equal, so the rendering is the only canonical string for its value |
| Hex.HexRoundTrip | Src/uintx_t.cpp:868-898 | the rendered string loads back without error to the same value, and to the same buffer for a normalized value |
| Hex.HexDigitCount | Src/uintx_t.cpp:868-898 | the rendering of a normalized value needs exactly as many words as it has |
| Hex.HexRoundTripString | Src/uintx_t.cpp:49-58 | a canonical hex string, constructed and rendered again, comes back unchanged |
| Maths.BinaryPower | uintx_t/Src/uintx_math.cpp:22-30 | square-and-multiply gives y to the power z, and 1 for exponent 0; the test program's power (test/Src/uintx_math.cpp) and the template power (Src/uintx_math.cpp) are the same loop |
| Maths.PowX | uintx_t/Src/uintx_math.cpp:18-33 | powx keeps NaN and otherwise gives the power |
| Maths.Factorial | uintx_t/Src/uintx_math.cpp:48-57 | the loop gives n!, and 1 for n at most 1; the test program's and the template factorial are the same loop |
| Maths.FactDivisible | uintx_t/Src/uintx_math.cpp:48-57 | n! is divisible by every i from 1 to n |
| Maths.DividesRem | uintx_t/Src/uintx_math.cpp:75 | one Euclid step keeps the common divisors |
| Maths.Euclid | uintx_t/Src/uintx_math.cpp:73-77 | Euclid's loop with the intended remainder yields the greatest common divisor, and the other operand when one is zero |
| Maths.GcdX | uintx_t/Src/uintx_math.cpp:65-80 | gcdx with the intended remainder: NaN if an operand is NaN, otherwise the greatest common divisor |
| Maths.GcdXAsWritten | uintx_t/Src/uintx_math.cpp:65-80 | gcdx with the remainder as written: NaN if an operand is NaN, otherwise Euclid's loop over the as-written remainder |
| Maths.OrderedGcd | test/Src/uintx_math.cpp:47-58 | ordering the operands first and then running Euclid's loop gives the greatest common divisor; the template gcd (Src/uintx_math.cpp) is the same ordered loop |
| Maths.GcdCounterexample | uintx_t/Src/uintx_math.cpp:73-77 | gcdx(2, 5) and gcd(2, 5) as written are 2, which does not divide 5, and lcmx(2, 5) is 4, which 5 does not divide |
| Maths.LcmX | uintx_t/Src/uintx_math.cpp:87-89 | with the intended remainder, lcmx is a multiple of both operands, and times their gcd it is their product |
| Maths.FibDouble | uintx_t/Src/uintx_math.cpp:103-104 | the doubling identities F(2k) = F(k)(2F(k+1) - F(k)) and F(2k+1) = F(k)^2 + F(k+1)^2 |
| Maths.MaskBit | uintx_t/Src/uintx_math.cpp:109 | the mask test is nonzero exactly when that bit of the argument is set |
| Maths.Doubling | uintx_t/Src/uintx_math.cpp:102-116 | the doubling loop over the bits from the top down gives the Fibonacci number of those bits |
| Maths.FibX | uintx_t/Src/uintx_math.cpp:97-119 | fibx(n) is the n-th Fibonacci number |
| Maths.First1MaskValue | test/Src/uintx_math.cpp:64-66 | the mask of the lowest set bit is 2 to the index of that bit, and 0 for 0; the template findfirst1 (Src/uintx_math.cpp) computes the same mask |
| Maths.First1Index | test/Src/uintx_math.cpp:72-84 | the index of the lowest set bit, with every bit below it clear, and -1 for 0 |
| Maths.FibLowest | test/Src/uintx_math.cpp:91-113 | the test program's fib is the Fibonacci number of the lowest set bit's mask, and so is the template fib (Src/uintx_math.cpp) |
| Maths.FibLowestCounterexample | test/Src/uintx_math.cpp:85-113 | fib(3) as written is F(1) = 1, not the third Fibonacci number F(3) = 2 its documentation promises |
| Maths.SqrX | uintx_t/Src/uintx_math.cpp:39-41 | the square of the value, normalized |
| Maths.Exp2X | uintx_t/Src/uintx_math.cpp:167-169 | 2^n, normalized, in n / 32 + 1 words |
| Maths.Exp2XSizeAgrees | uintx_t/Src/uintx_math.cpp:167-169 | the size the shift in exp2x(n) grows to, as the source computes it, is the size of 2^n exactly when n < 2^32 - 32 |
| Maths.MaxX | uintx_t/Src/uintx_math.cpp:176-178 | one of the operands, and for normalized operands at least both, the first on a tie |
| Maths.MinX | uintx_t/Src/uintx_math.cpp:185-187 | one of the operands, and for normalized operands at most both, the first on a tie |
| Sqrt.Candidate | uintx_t/Src/uintx_math.cpp:143-144 | or-ing in the next bit and its square gives the candidate root and its square |
| Sqrt.SqrtStart | uintx_t/Src/uintx_math.cpp:130-144 | the start values satisfy the loop invariant: the root so far is a multiple of the bit under test, with its square at most x |
| Sqrt.SqrtStep | uintx_t/Src/uintx_math.cpp:146-158 | one step keeps the invariant with one bit fewer to decide |
| Sqrt.Root | uintx_t/Src/uintx_math.cpp:146-160 | the loop ends with the floor of the square root |
| Sqrt.RootUnique | uintx_t/Src/uintx_math.cpp:160 | the floor square root is unique |
| Sqrt.SqrtX | uintx_t/Src/uintx_math.cpp:125-161 | sqrtx keeps NaN and otherwise gives the floor square root |
| Lexical.DigitChar | check/Src/lexical.cpp:96 | a decimal digit's character has that digit as its value |
| Lexical.Decimal | check/Src/expressiontree.cpp:112 | the decimal rendering is a non-empty run of digits, with a leading 0 only for zero |
| Lexical.DecimalRoundTrip | check/Src/lexical.cpp:92-98 | reading back the decimal rendering of n gives n, and the rendering is canonical |
| Lexical.DecimalOfValue | check/Src/lexical.cpp:92-98 | a canonical run of digits is the rendering of its own value |
| Lexical.DigitsEnd | check/Src/lexical.cpp:95-97 | the run of digits ends at the end of the buffer or at a non-digit |
| Lexical.ReadDigitsValue | check/Src/lexical.cpp:92-98 | getnumber's loop reads the maximal run of digits and yields its decimal value |
| Lexical.ReadWordRun | check/Src/lexical.cpp:105-111 | getidentifier's loop takes the first character and then the maximal alphanumeric run |
| Lexical.NamePlain | check/Src/lexical.h:30-32 | the function names start with a letter and are alphanumeric |
| Lexical.Scan | check/Src/lexical.cpp:48-87 | reading moves forward within the buffer; the end of the buffer gives Null; an identifier is always a function name; an error comes with Null |
| Lexical.GetSymbol | check/Src/lexical.cpp:48-87 | the lexer advances, keeps its buffer, sets the number only on a Number and the name only on an Identifier, and reports errors with Null |
| Lexical.LexSkip | check/Src/lexical.cpp:52-53 | white space before a symbol is skipped |
| Lexical.LexNumber | check/Src/lexical.cpp:61-64 | a digit starts a Number whose value is the maximal run of digits |
| Lexical.LexIdentifier | check/Src/lexical.cpp:66-69 | a letter starts the maximal alphanumeric run, which is an Identifier exactly when it names a function and is otherwise an error |
| Lexical.LexSingle | check/Src/lexical.cpp:71-83 | any other character is a symbol by itself, and Null exactly when it is not one of ( ) * / + - |
| Lexical.LexDecimal | check/Src/lexical.cpp:61-64 | a rendered number not followed by a digit lexes back to that number |
| Lexical.LexName | check/Src/lexical.cpp:66-69 | a function name not followed by an alphanumeric character lexes back to that name |
| Parser.Accept | check/Src/parser.cpp:25-29 | accepting succeeds exactly when the current symbol is the one asked for and reading the next one raises no error, and only then does the state move |
| Parser.Expect | check/Src/parser.cpp:36-40 | expect succeeds exactly when accept does; the message is the only difference |
| Parser.SyntaxError | check/Src/parser.cpp:88-93 | the error branch of factor flags an error, keeps the tree and skips one symbol |
| Parser.Factor | check/Src/parser.cpp:70-96 | a factor without an error yields a well-formed tree |
| Parser.Term | check/Src/parser.cpp:106-130 | a term without an error yields a well-formed tree |
| Parser.Expression | check/Src/parser.cpp:140-171 | an expression without an error yields a well-formed tree |
| Parser.Parse | check/Src/parser.cpp:181-202 | an empty string succeeds and changes nothing; otherwise parsing succeeds exactly when the expression has no error and the whole input is used up, and then the tree is well formed |
| Grouping.TermLoopFold | check/Src/parser.cpp:112-127 | a chain of * and / factors builds the left-leaning tree of the chain |
| Grouping.ExprLoopFold | check/Src/parser.cpp:150-168 | a chain of + and - terms builds the left-leaning tree of the chain |
| Grouping.TermFold | check/Src/parser.cpp:106-130 | a term is its first factor folded to the left with the rest |
| Grouping.ExpressionFold | check/Src/parser.cpp:140-171 | an expression without a leading sign is its first term folded to the left with the rest |
| Grouping.SignDropped | check/Src/parser.cpp:145-146 | a leading + or - is skipped and has no effect on the tree |
| Grouping.FactorIgnoresTree | check/Src/parser.cpp:70-96 | a successful factor does not depend on the tree passed in |
| Grouping.ExpressionIgnoresTree | check/Src/parser.cpp:140-171 | an expression's outcome does not depend on the tree passed in |
| Grouping.ProductInsideSum | check/Src/parser.cpp:106-171 | "1+2*3" parses as 1 + (2 * 3) |
| Grouping.DifferencesGroupLeft | check/Src/parser.cpp:140-171 | "1-2-3" parses as (1 - 2) - 3 |
| Grouping.LeadingSignDropped | check/Src/parser.cpp:145-146 | "-1-2" parses as 1 - 2: the leading minus is lost |
| Grouping.StraySymbolRejected | check/Src/parser.cpp:181-202 | "1)" is rejected: the parse stops at the unmatched parenthesis |
| ExpressionTree.CallFunction | check/Src/expressiontree.cpp:62-83 | a function node calls the math function its name names, on the value of its operand |
| ExpressionTree.Operate | check/Src/expressiontree.cpp:55-58 | an operator node's kernel operation has a value exactly when the operator on the operand values has one, and then it is that value, normalized |
| ExpressionTree.Evaluate | check/Src/expressiontree.cpp:42-88 | evaluation through the kernel has a value exactly when the tree has a meaning, and then it is that meaning, normalized |
| ExpressionTree.InorderBalanced | check/Src/expressiontree.cpp:133-153 | the infix rendering of a well-formed tree has balanced parentheses |
| ExpressionTree.FieldsJoin | check/Src/expressiontree.cpp:109-127 | the space-separated fields of two texts joined by a space are the fields of each |
| ExpressionTree.PostorderRuns | check/Src/expressiontree.cpp:109-127 | running the postfix rendering on a stack pushes the tree's meaning |
| ExpressionTree.PostorderValue | check/Src/expressiontree.cpp:109-127 | the postfix rendering of a well-formed tree evaluates on an empty stack to the tree's meaning |
| Rendering.EndInorder | check/Src/expressiontree.cpp:133-153 | where the rendering of a tree ends is its start plus its length |
| Rendering.StartRead | check/Src/expressiontree.cpp:133-153 | the rendering of a well-formed tree starts with a Number, a ( or a function name, without a lexer error |
| RoundTrip.FactorInorder | check/Src/parser.cpp:70-96 | the rendering of a well-formed tree parses as a factor to that tree, leaving the lexer just past it |
| RoundTrip.ExpressionInorder | check/Src/parser.cpp:140-171 | the rendering of a well-formed tree parses as an expression to that tree |
| RoundTrip.ParseInorder | check/Src/parser.cpp:181-202 | parsing the infix rendering of any well-formed tree succeeds and gives back that tree |

## Left out

- Compare.Greater, Compare.GreaterEq, Compare.Less, Compare.LessEq: the loops at Src/uintx_t.cpp:344 and 370 count an unsigned index down while it is at least 0. The model stops after index 0. It also requires a word in the buffer when the lengths are equal, because the source reads word `m_nSize - 1` of an empty buffer.
- Shift.ShiftLeft, Shift.WordMoveUp, Shift.ShiftWordsUp: the unsigned loops at Src/uintx_t.cpp:511, 517 and 524 are modelled the same way, as stopping after index 0.
- Mul.Times: modelled by the contract in its doc comment (Src/uintx_t.cpp:657-660). The loop at 665 tests `z`, not the copy `z0` that it shifts, and it multiplies by a word through the overload at 680, which calls `*` again. So in the source `*` does not return when the right operand is nonzero: `z` never changes, and the word overload calls `*` again with a nonzero word. The model loops over the copy and shifts it, as the doc comment intends.
- Divide.LongDivide, Divide.Div, Divide.RemAsWritten, Divide.Rem: require normalized operands. With unnormalized operands the length-based comparisons take other branches, and the 64-bit constructor makes two-word values below 2^32.
- Divide.LongDivide, Divide.Div, Divide.Rem, Divide.RemAsWritten: require a nonzero divisor. Division by zero never returns in the source, so the tree's Combine gives no value for it.
- Shift.ShiftRightAsWritten: requires the distance to be a whole number of words, or the as-written size to fit the buffer. Outside these cases the source writes beyond its buffer.
- Hex.AssignStringAsWritten: requires a target with at least the words the string needs. Otherwise the source loads into a buffer that is too small.
- Store.ToUint64: requires at least two words, since the source reads word 1.
- Maths.BinaryPower, Maths.First1Index, Maths.FibLowest: read `&` and `==` as bit tests on the value. The test program applies them to uintx_t values with int operands. Those overloads (the int constructor and the int `==` and `!=`, declared at Src/uintx_t.h:27, 85 and 89) are not part of this model, and uintx_t's `&` keeps the left operand's length. The reading is exact for powx's 32-bit exponent and for the templates instantiated at built-in integers.
- Sqrt.SqrtX, Sqrt.Root: require x >= 1. Both go through log2x, and the logarithm of 0 is not shown. Maths.FibX requires n >= 1 for the same reason. ExpressionTree.Invoke gives no value for sqrtx, fibx and log2x of 0.
- Shift.ShiftLeft, Maths.Exp2X, Store.BitCount: sizes and bit counts are unbounded naturals. The source computes them in 32-bit unsigned arithmetic. The grow size at Src/uintx_t.cpp:505 wraps once bit count + distance + 31 reaches 2^32, which for exp2x(n) is n >= 2^32 - 32, and the source then writes outside its buffer. The bit count at Src/uintx_t.cpp:200 wraps for buffers of more than 2^27 words. Shift.GrowSizeAsWritten and Store.BitCountAsWritten model the 32-bit values, and Findings lists both.
- Maths.GcdX, Maths.GcdXAsWritten, Maths.LcmX, Maths.OrderedGcd, Maths.Euclid, Sqrt.SqrtX: take their operands as naturals. That is exact for normalized uintx_t values only. The comparisons decide on the length first (Src/uintx_t.cpp:339-341 and 428-441), and the 64-bit constructor makes two-word values below 2^32. So gcdx of `uintx_t((uint64_t)0)`, which is [0, 0], enters the loop, divides by zero and does not return, where the model gives the other operand. With such an operand sqrtx's `q2 <= x` and `n2 != x` may also branch differently.
- Maths.LcmX: requires x > 0 or y > 0. lcmx(0, 0) divides by gcdx(0, 0) = 0 and does not return in the source.
- log2x: not part of this model beyond its use as the floor of the base-2 logarithm.
- Lexical.Decimal: to_string of uintx_t is not part of this model. The number leaves render in decimal.
- The number leaf: getnumber builds its value with int overloads that are not shown. The model reads the number as the decimal value of its digits and stores it as `Words.WordsOf` of that value.
- ExpressionTree.Evaluate: the operators go through the kernel, but the math functions are computed on values and stored with `Words.WordsOf`.
- to_uint32, which factorialx, exp2x and fibx receive in the calculator: taken as the low 32 bits.
- The `~` operator: modelled as the complement within the value's bit length (`Bits.BitNot`).
- The increment, decrement and small-int multiplication overloads used by the test and template functions: not shown, and taken as exact arithmetic.
- Error printing: printf and putchar in error, getidentifier and factor become the error flag (Parser.SyntaxError, Parser.Expect).
- Memory management: new, delete, destructors and self-assignment.
- The test program's sqrt (test/Src/uintx_math.cpp:119-153): its loop does not terminate on the inputs it is meant for.
- The commented-out template sqrt.
- Template instantiations at fixed-width types: wrap-around in them is not modelled.
- check/Src/main.cpp and test/Src/main.cpp, and the CParser evaluate, GetPostfixString and GetInfixString wrappers (check/Src/parser.cpp:207-239): these are thin wrappers around the modelled functions.
- uintx_t::NaN: Src/uintx_t.h:17 and 137 declare a flag `m_bNaN` and a constant `NaN`, but Src/uintx_t.cpp neither defines the constant nor uses the flag. `operator==` (Src/uintx_t.cpp:428-441) compares buffers only, so the derived functions' `x == uintx_t::NaN` compares against a buffer this source never defines. The derived functions model NaN as the NaN case of `Maths.Num`.

## Findings

| source | as written | input that shows it | evidently intended | confidence | as-written member | corrected member |
|---|---|---|---|---|---|---|
| Src/uintx_t.cpp:557-573 | the word copy of `>>=` leaves the upper words in place, and the in-word phase then or-s them back in | [0, 1, 2] (2^65 + 2^32) >> 65 gives 0x80000001 | 1 | not executed | Shift.StaleCounterexample | Shift.ShiftRight |
| Src/uintx_t.cpp:550-553 | the new size is computed in 32-bit unsigned arithmetic and wraps when the distance exceeds the bit count by 32 or more | [1] >> 64 keeps the value 1 (new size 0x7FFFFFF) | 0 | not executed | Shift.WrapCounterexample | Shift.ShiftRight |
| Src/uintx_t.cpp:815-823 | operator% compares the window with the original dividend `y` instead of the running `result` | 5 % 2 gives 0 | 1 | not executed | Divide.RemCounterexample | Divide.Rem |
| uintx_t/Src/uintx_math.cpp:73-77 | gcdx, and gcd in the test program, inherit operator%, and lcmx divides by that gcd | gcdx(2, 5) = gcd(2, 5) = 2 and lcmx(2, 5) = 4 | 1, 1 and 10 | not executed | Maths.GcdCounterexample | Maths.GcdX |
| Src/uintx_t.cpp:505 | the size `<<=` grows to is computed in 32-bit unsigned arithmetic and wraps once bit count + distance + 31 reaches 2^32 | 1 << 0xFFFFFFFF, that is exp2x(0xFFFFFFFF), grows to size 0 and keeps a one-word buffer for a result of 2^27 words | the buffer grows to 2^27 words | not executed | Shift.ShiftLeftWrapCounterexample | Shift.ShiftLeft |
| Src/uintx_t.cpp:200 | bitcount computes `(m_nSize - 1)*BitsInWord` and the sum in 32 bits, which wrap for buffers of more than 2^27 words | 2^27 + 1 words with top word 1 give a bit count of 1 | 2^32 + 1 | not executed | Store.BitCountWrapCounterexample | Store.BitCount |
| test/Src/uintx_math.cpp:91-113 | the test program's fib starts its doubling loop at the lowest set bit of x (first1mask) instead of the highest | fib(3) = F(1) = 1 | F(3) = 2 | not executed | Maths.FibLowestCounterexample | Maths.FibX |
| Src/uintx_t.cpp:249-252 | string assignment loads into the target's existing buffer instead of one sized for the string | a two-word zero assigned "1" becomes 2^32 | 1 | not executed | Hex.AssignStringScales | Hex.AssignString |
