# Polynomial processing API — a Dafny model of its core

The service takes a polynomial as text, for example `2*x^2 + 3*x - 5 + x^2 + x`.
It either simplifies it to a canonical text (`3*x^2 + 4*x - 5`) or evaluates it at an
integer `x`. Results and parse failures are memoized in two caches.

This project models that core with immutable datatypes and pure functions:

- the term and polynomial algebra: the zero-filtering constructor, `simplify`,
  `multiply` and `evaluate`;
- the text parser, with its simple and complex shapes, the sign-prefixed tokenizer,
  the per-term rules and `parseX`;
- the canonical formatter;
- the error-code table;
- the failure text stored in the cache, and its reading when replayed;
- the memoizing processor, over two cache maps passed in and returned;
- the part of the web exception handler that decides whether a failure is cached,
  and encodes it.

Modules, one per component:

| module | file | models |
|---|---|---|
| `Text` | `text.dfy` | character classes, decimal digits, `replace(" ", "")`, `indexOf`, `split` |
| `ErrorCodes` | `error_codes.dfy` | the `ErrorCode` enum and `getErrorCodeByCode` |
| `Failures` | `failures.dfy` | `Failure(kind, params)`, the unchecked runtime faults, and `Outcome<T>` |
| `Terms` | `terms.dfy` | `TermImpl` |
| `Polynomials` | `polynomials.dfy` | `PolynomialImpl` |
| `Parser` | `parser.dfy` | `PolynomialParserImpl` |
| `Formatter` | `formatter.dfy` | `PolynomialMapperImpl` |
| `RoundTrip` | `roundtrip.dfy` | parsing the formatter's text gives the terms back |
| `ErrorCodec` | `error_codec.dfy` | the cached error string, both ways |
| `Processor` | `processor.dfy` | `PolynomialProcessorImpl` over cache maps |
| `ExceptionHandler` | `exception_handler.dfy` | the failure-to-cache decision and the 400 answer |
| `EvaluationFinding` | `evaluation_finding.dfy` | the concrete input behind the finding below |
| `TextExamples`, `ParserExamples` | `parser_examples.dfy` | the parser's unit-test inputs |
| `FormatterExamples`, `CodecExamples`, `HandlerExamples` | `pipeline_examples.dfy` | the mapper, processor and integration test inputs |

How the Java code maps onto the model:

- A Java `TreeMap<Integer, Integer>(reverseOrder())` becomes its entry list: a
  `seq<Term>` with strictly descending degrees, built by `Polynomials.Merge`.
- A typed parser exception becomes `Outcome.Raised(failure, polynomial)`.
  `polynomial` is the request text that `parsePolynomial`'s `catch` attaches.
- An unchecked exception the code lets escape becomes `Outcome.Crash(fault)`.
  These are:
  - `Integer.parseInt("")` on `x^`;
  - `charAt(0)` on an empty factor;
  - `charAt(1)` on an empty rendering;
  - a cached error string that does not start with an integer.
- Each request returns the parser and mapper calls it made (`Processor.Call`). This
  is how "a cache hit never parses" is stated.

## Model

Paths are relative to the repository root.
Main sources live under `src/main/java/com/kostenko/polynomial/processing/api/`.
Tests live under `src/test/java/com/kostenko/polynomial/processing/api/service/`.

| member | source | states |
|---|---|---|
| Polynomials.Make | src/main/java/com/kostenko/polynomial/processing/api/model/impl/PolynomialImpl.java:11-15 | the constructor keeps exactly the nonzero terms, keeps every degree's coefficient sum, and keeps a descending list descending |
| Polynomials.MakeNoZero | src/main/java/com/kostenko/polynomial/processing/api/model/impl/PolynomialImpl.java:11-15 | a list without zero terms is kept as it is |
| Polynomials.MakeAppend | src/main/java/com/kostenko/polynomial/processing/api/model/impl/PolynomialImpl.java:11-15 | filtering distributes over concatenation, so the surviving terms stay in their original order |
| Polynomials.Merge | src/main/java/com/kostenko/polynomial/processing/api/model/impl/PolynomialImpl.java:21-23 | `merge(degree, coefficient, Integer::sum)` keeps the entries strictly descending and adds the term's coefficient at its degree only |
| Polynomials.MergeAll | src/main/java/com/kostenko/polynomial/processing/api/model/impl/PolynomialImpl.java:21-23 | after merging all terms, each degree holds the sum of the coefficients at that degree |
| Polynomials.CanonicalUnique | src/main/java/com/kostenko/polynomial/processing/api/model/impl/PolynomialImpl.java:55-61 | two canonical lists with the same coefficient at every degree are equal |
| Polynomials.Simplify | src/main/java/com/kostenko/polynomial/processing/api/model/impl/PolynomialImpl.java:18-26 | the result is canonical: strictly descending degrees and no zero coefficient. Each degree's coefficient is the sum of the input's coefficients there |
| Polynomials.SimplifyCanonical | src/main/java/com/kostenko/polynomial/processing/api/model/impl/PolynomialImpl.java:18-26 | a canonical polynomial is its own simplification |
| Polynomials.SimplifyIdempotent | src/main/java/com/kostenko/polynomial/processing/api/model/impl/PolynomialImpl.java:18-26 | simplifying twice is simplifying once, and the empty polynomial simplifies to itself |
| Polynomials.SimplifyEqualIff | src/main/java/com/kostenko/polynomial/processing/api/model/impl/PolynomialImpl.java:18-26 | two lists simplify alike if and only if they have equal coefficients at every degree |
| Polynomials.CrossCoefficient | src/main/java/com/kostenko/polynomial/processing/api/model/impl/PolynomialImpl.java:39-44 | the nested loops' products sum, at each degree, to the reference sum of `c1*c2` over pairs whose degrees add up to it |
| Polynomials.Multiply | src/main/java/com/kostenko/polynomial/processing/api/model/impl/PolynomialImpl.java:36-47 | the product is canonical, and its coefficient at every degree is the reference pairwise sum |
| Polynomials.MultiplyByOne | src/main/java/com/kostenko/polynomial/processing/api/model/impl/PolynomialImpl.java:36-47 | multiplying by `{(0, 1)}`, on either side, equals simplification |
| Polynomials.EvaluateSimplify | src/main/java/com/kostenko/polynomial/processing/api/model/impl/PolynomialImpl.java:28-33 | simplification does not change the value at any `x` |
| Polynomials.EvaluateMultiply | src/main/java/com/kostenko/polynomial/processing/api/model/impl/PolynomialImpl.java:36-47 | the product polynomial evaluates to the product of the two values |
| Polynomials.EvaluateExample | src/test/java/com/kostenko/polynomial/processing/api/service/processor/impl/PolynomialProcessorImplTest.java:114-154 | `3*x^2 + 4*x - 5` at 2 is 15 |
| Text.StripSpaces | src/main/java/com/kostenko/polynomial/processing/api/service/parser/impl/PolynomialParserImpl.java:39 | the result has no space and is no longer than the input |
| Text.StripSpacesAppend | src/main/java/com/kostenko/polynomial/processing/api/service/parser/impl/PolynomialParserImpl.java:39 | removing spaces distributes over concatenation |
| Text.IndexOf | src/main/java/com/kostenko/polynomial/processing/api/service/parser/impl/PolynomialParserImpl.java:117 | the result is -1 exactly when the character is absent; otherwise it is the position of the first occurrence |
| Text.DecimalString | src/main/java/com/kostenko/polynomial/processing/api/service/mapper/impl/PolynomialMapperImpl.java:51 | the text is non-empty, all digits, has a leading zero only for 0, and its digits denote the number |
| Text.Split | src/main/java/com/kostenko/polynomial/processing/api/service/parser/impl/PolynomialParserImpl.java:85 | the pieces joined with the delimiter give the text back |
| Text.SplitJoin | src/main/java/com/kostenko/polynomial/processing/api/service/parser/impl/PolynomialParserImpl.java:85 | splitting undoes joining when no piece contains the delimiter's first character |
| Text.JavaSplit | src/main/java/com/kostenko/polynomial/processing/api/service/parser/impl/PolynomialParserImpl.java:85 | `split` keeps a prefix of the raw pieces and removes only empty trailing ones. When the delimiter occurred it ends in a non-empty piece; when it did not, the one raw piece is kept as it is |
| Parser.ComplexShape | src/main/java/com/kostenko/polynomial/processing/api/service/parser/impl/PolynomialParserImpl.java:27 | every text `(f1)*...*(fn)` of simple-character factors is complex, and its factors are recovered exactly |
| Parser.ComplexShapeConverse | src/main/java/com/kostenko/polynomial/processing/api/service/parser/impl/PolynomialParserImpl.java:84-85 | every complex text is `(` + its factors joined by `)*(` + `)`, and each factor uses simple characters only |
| Parser.Tokenize | src/main/java/com/kostenko/polynomial/processing/api/service/parser/impl/PolynomialParserImpl.java:102-109 | every match is a sign followed by sign-free characters |
| Parser.TokenizeCovers | src/main/java/com/kostenko/polynomial/processing/api/service/parser/impl/PolynomialParserImpl.java:102-109 | the matches, concatenated, are the text from its first sign on |
| Parser.TokenizeConcat | src/main/java/com/kostenko/polynomial/processing/api/service/parser/impl/PolynomialParserImpl.java:102-109 | tokenizing a concatenation of tokens gives those tokens back |
| Parser.AddSilentSign | src/main/java/com/kostenko/polynomial/processing/api/service/parser/impl/PolynomialParserImpl.java:95-100 | the result starts with a sign. It equals the text exactly when the text starts with `-`, and otherwise it is `+` followed by the text |
| Parser.ParseCoefficient | src/main/java/com/kostenko/polynomial/processing/api/service/parser/impl/PolynomialParserImpl.java:142-149 | the text is read if and only if it is a sign, a nonzero digit and at most eight more digits. The value is nonzero, has the digits' magnitude, and is negative exactly when the text starts with `-`. Otherwise IMPOSSIBLE_TO_PARSE_COEFFICIENT names the text |
| Parser.ParseCoefficientBefore | src/main/java/com/kostenko/polynomial/processing/api/service/parser/impl/PolynomialParserImpl.java:151-159 | no `*` before `x` gives INCORRECT_MULTIPLY_SIGN_POSITION with the whole term. Otherwise the prefix before `*` is read, and a coefficient failure names that prefix |
| Parser.ParseDegree | src/main/java/com/kostenko/polynomial/processing/api/service/parser/impl/PolynomialParserImpl.java:161-173 | no `^` after `x` gives INCORRECT_DEGREE_SIGN_POSITION. More than nine digits, or a non-digit, gives IMPOSSIBLE_TO_PARSE_DEGREE. An empty degree is the runtime fault. A parsed degree is at most 999999999 |
| Parser.ParseTerm | src/main/java/com/kostenko/polynomial/processing/api/service/parser/impl/PolynomialParserImpl.java:115-140 | a parsed term is within the literal bounds and has the token's sign. Without `x` it has degree 0; with `x` right after the sign its coefficient is 1 in magnitude, and bare `x` has degree 1. Every failure names one prefix of the token |
| Parser.ParseTermConstant | src/main/java/com/kostenko/polynomial/processing/api/service/parser/impl/PolynomialParserImpl.java:119-120 | a token without `x` is read if and only if it is a coefficient literal, as degree 0 with the signed digits' value. Otherwise IMPOSSIBLE_TO_PARSE_COEFFICIENT names the whole token |
| Parser.ParseTermBareX | src/main/java/com/kostenko/polynomial/processing/api/service/parser/impl/PolynomialParserImpl.java:123-130 | with `x` right after the sign and more text after it: no `^` next gives INCORRECT_DEGREE_SIGN_POSITION with the token; a non-literal degree gives IMPOSSIBLE_TO_PARSE_DEGREE; `x^` alone is the runtime fault; otherwise the term has the degree's value and coefficient ±1 |
| Parser.ParseTermTrailingX | src/main/java/com/kostenko/polynomial/processing/api/service/parser/impl/PolynomialParserImpl.java:132-135 | with `x` last and a coefficient before it: no `*` before `x` gives INCORRECT_MULTIPLY_SIGN_POSITION with the token. Otherwise the term is read if and only if the text before `*` is a coefficient literal, with degree 1, and a failure names that text |
| Parser.ParseTermInteriorX | src/main/java/com/kostenko/polynomial/processing/api/service/parser/impl/PolynomialParserImpl.java:137-139 | with `x` inside the token the degree is checked before the coefficient: the degree failures come first, then INCORRECT_MULTIPLY_SIGN_POSITION, then the coefficient failure; a read term has the digits after `^` as degree |
| Parser.ParseTerms | src/main/java/com/kostenko/polynomial/processing/api/service/parser/impl/PolynomialParserImpl.java:110-112 | the result is Ok if and only if every token parses, and then it holds their terms in order. A failure is one-parameter, names no polynomial, and is well formed |
| Parser.ParseTermsFailure | src/main/java/com/kostenko/polynomial/processing/api/service/parser/impl/PolynomialParserImpl.java:110-112 | when some token fails, the result is the failure of the first token that does not parse; every token before it parses |
| Parser.ParseTermsAllOk | src/main/java/com/kostenko/polynomial/processing/api/service/parser/impl/PolynomialParserImpl.java:110-112 | when every token parses to a given term, the result is exactly that list |
| Parser.ParseSimple | src/main/java/com/kostenko/polynomial/processing/api/service/parser/impl/PolynomialParserImpl.java:71-79 | the terms carry no zero and stay within the literal bounds. A non-empty text parses if and only if every token of its signed form parses. An empty factor, and only that, is the `charAt(0)` fault |
| Parser.FoldFactors | src/main/java/com/kostenko/polynomial/processing/api/service/parser/impl/PolynomialParserImpl.java:87-89 | folding `multiply` over parsed factors from a canonical seed stays canonical |
| Parser.ParseComplex | src/main/java/com/kostenko/polynomial/processing/api/service/parser/impl/PolynomialParserImpl.java:81-93 | a product of factors parses to a canonical polynomial, or to a well-formed one-parameter failure |
| Parser.FoldFactorsEvaluate | src/main/java/com/kostenko/polynomial/processing/api/service/parser/impl/PolynomialParserImpl.java:87-89 | the fold's value at any `x` is the seed's value times every factor's value |
| Parser.ParseComplexEvaluate | src/main/java/com/kostenko/polynomial/processing/api/service/parser/impl/PolynomialParserImpl.java:81-93 | a parsed product takes, at every `x`, the product of its factors' values |
| Parser.ParsePolynomial | src/main/java/com/kostenko/polynomial/processing/api/service/parser/impl/PolynomialParserImpl.java:35-56 | every typed failure carries the unstripped request and is well formed. A text neither simple nor complex fails UNSUPPORTED_POLYNOMIAL_TYPE with no parameter. A parsed simple text has no zero term and only literal-sized terms; a parsed complex text is canonical |
| Parser.ParsePolynomialSimple | src/main/java/com/kostenko/polynomial/processing/api/service/parser/impl/PolynomialParserImpl.java:42-43 | a simple text whose tokens all parse gives exactly those terms, in token order, without zero terms and with nothing merged |
| Parser.ParsePolynomialSimpleFailure | src/main/java/com/kostenko/polynomial/processing/api/service/parser/impl/PolynomialParserImpl.java:42-54 | a simple text with a token that does not parse fails with the failure of the first such token, attached to the unstripped request |
| Parser.ParseX | src/main/java/com/kostenko/polynomial/processing/api/service/parser/impl/PolynomialParserImpl.java:58-69 | `x` is read if and only if it is an optional `-` and one to nine digits. The value has the digits' magnitude and is negative exactly when `-` precedes nonzero digits. Otherwise UNSUPPORTED_X_TYPE with no parameter |
| Parser.ParseXIntString | src/main/java/com/kostenko/polynomial/processing/api/service/parser/impl/PolynomialParserImpl.java:58-69 | every integer of at most nine digits is read back from its decimal text |
| Formatter.Body | src/main/java/com/kostenko/polynomial/processing/api/service/mapper/impl/PolynomialMapperImpl.java:48-70 | a term's text after its sign is non-empty, starts with a digit or `x`, and uses digits, `x`, `*` and `^` only |
| Formatter.Render | src/main/java/com/kostenko/polynomial/processing/api/service/mapper/impl/PolynomialMapperImpl.java:13-27 | a non-empty rendering starts with the first term's ` + ` or ` - ` |
| Formatter.Format | src/main/java/com/kostenko/polynomial/processing/api/service/mapper/impl/PolynomialMapperImpl.java:29-37 | a text is produced exactly for a non-empty polynomial; the empty one is the `charAt(1)` fault |
| Formatter.FormatShape | src/main/java/com/kostenko/polynomial/processing/api/service/mapper/impl/PolynomialMapperImpl.java:29-37 | a leading ` + ` is deleted and a leading ` - ` becomes `-`; later terms keep their spaced signs |
| Formatter.FormatLeadingSign | src/main/java/com/kostenko/polynomial/processing/api/service/mapper/impl/PolynomialMapperImpl.java:39-46 | the text starts with `-` exactly when the leading coefficient is not positive, and never with a space |
| RoundTrip.StripRender | src/main/java/com/kostenko/polynomial/processing/api/service/mapper/impl/PolynomialMapperImpl.java:13-27 | a rendering without its spaces is the terms' compact texts, concatenated |
| RoundTrip.StripFormat | src/main/java/com/kostenko/polynomial/processing/api/service/parser/impl/PolynomialParserImpl.java:39-43 | a formatted text, with spaces removed, is simple. With the silent sign added, it is the concatenation of the compact terms |
| RoundTrip.CompactTextToken | src/main/java/com/kostenko/polynomial/processing/api/service/parser/impl/PolynomialParserImpl.java:24 | each formatted term is exactly one tokenizer match of simple characters |
| RoundTrip.ParseSignedDecimal | src/main/java/com/kostenko/polynomial/processing/api/service/parser/impl/PolynomialParserImpl.java:142-149 | a sign and the digits of a literal-sized coefficient read back as that coefficient |
| RoundTrip.ParseCompactText | src/main/java/com/kostenko/polynomial/processing/api/service/parser/impl/PolynomialParserImpl.java:115-140 | every term a literal can express is read back from its formatted text |
| RoundTrip.FormatThenParse | src/main/java/com/kostenko/polynomial/processing/api/service/mapper/impl/PolynomialMapperImpl.java:13-20 | parsing the formatted text of a non-empty polynomial, whose terms fit nine-digit literals, gives its terms back in order |
| RoundTrip.RejectCompactText | src/main/java/com/kostenko/polynomial/processing/api/service/parser/impl/PolynomialParserImpl.java:115-140 | the formatted text of a nonzero term that no nine-digit literal can express is rejected by the term parser with a typed failure |
| RoundTrip.CompactTextOutcome | src/main/java/com/kostenko/polynomial/processing/api/service/parser/impl/PolynomialParserImpl.java:115-140 | a formatted nonzero term is read back as itself when its literals fit, and is rejected with a typed failure otherwise |
| RoundTrip.FormatThenParseRejects | src/main/java/com/kostenko/polynomial/processing/api/service/mapper/impl/PolynomialMapperImpl.java:13-37 | parsing the formatted text of a non-empty polynomial with a term beyond nine-digit literals fails with a typed failure |
| ErrorCodes.ValuesComplete | src/main/java/com/kostenko/polynomial/processing/api/exception/ErrorCode.java:11-20 | the value table lists every kind |
| ErrorCodes.FirstWithCode | src/main/java/com/kostenko/polynomial/processing/api/exception/ErrorCode.java:26-29 | the search stops at the first kind with the code, or past the end when none has it |
| ErrorCodes.FromCode | src/main/java/com/kostenko/polynomial/processing/api/exception/ErrorCode.java:25-30 | the lookup returns a kind with that code, or UNKNOWN_EXCEPTION when no kind has it |
| ErrorCodes.CodesDistinct | src/main/java/com/kostenko/polynomial/processing/api/exception/ErrorCode.java:11-20 | no two kinds share a code |
| ErrorCodes.FromCodeOfCode | src/main/java/com/kostenko/polynomial/processing/api/exception/ErrorCode.java:25-30 | looking a kind up by its own code gives that kind |
| ErrorCodec.ParseInt | src/main/java/com/kostenko/polynomial/processing/api/service/processor/impl/PolynomialProcessorImpl.java:122 | `Integer.parseInt` accepts exactly an optionally signed, non-empty digit run whose value fits 32 bits, with magnitude up to 2147483648 after `-`. The value has the digits' magnitude and is negative exactly when `-` precedes nonzero digits |
| ErrorCodec.ParseIntString | src/main/java/com/kostenko/polynomial/processing/api/service/processor/impl/PolynomialProcessorImpl.java:122 | every 32-bit integer is read back from its decimal text |
| ErrorCodec.Encode | src/main/java/com/kostenko/polynomial/processing/api/exception/handler/PolynomialWebExceptionHandler.java:56-61 | the stored text is the code, then each parameter, all separated by single spaces |
| ErrorCodec.Decode | src/main/java/com/kostenko/polynomial/processing/api/service/processor/impl/PolynomialProcessorImpl.java:119-131 | a replay fails at runtime exactly when there is no first token or it is not an integer. Decoded parameters never contain a space |
| ErrorCodec.SplitEncode | src/main/java/com/kostenko/polynomial/processing/api/exception/handler/PolynomialWebExceptionHandler.java:56-61 | the stored text of a failure with non-empty, space-free parameters splits into the code and the parameters |
| ErrorCodec.DecodeEncode | src/main/java/com/kostenko/polynomial/processing/api/service/processor/impl/PolynomialProcessorImpl.java:119-131 | reading back a stored failure gives the same kind and parameters |
| ErrorCodec.DecodeStable | src/main/java/com/kostenko/polynomial/processing/api/service/processor/impl/PolynomialProcessorImpl.java:119-131 | a decoded failure with non-empty parameters re-encodes to a text that decodes to it again |
| Processor.Replay | src/main/java/com/kostenko/polynomial/processing/api/service/processor/impl/PolynomialProcessorImpl.java:119-131 | a replay always fails. A replayed failure names no polynomial, so it is never cached again |
| Processor.ReplayEncoded | src/main/java/com/kostenko/polynomial/processing/api/service/processor/impl/PolynomialProcessorImpl.java:119-131 | a stored failure is replayed as the same failure |
| Processor.ProcessSimplification | src/main/java/com/kostenko/polynomial/processing/api/service/processor/impl/PolynomialProcessorImpl.java:64-73 | the answer is the fresh parse-simplify-format. One record for the request is stored on success, nothing on failure. The parser is called once, and the mapper once after a parse |
| Processor.SimplifyRequest | src/main/java/com/kostenko/polynomial/processing/api/service/processor/impl/PolynomialProcessorImpl.java:32-48 | a cached record answers with no parser or mapper call and no store. A cached text is returned unchanged and a cached failure replayed; a miss is processed |
| Processor.ProcessEvaluation | src/main/java/com/kostenko/polynomial/processing/api/service/processor/impl/PolynomialProcessorImpl.java:104-117 | the answer is the fresh evaluation. On success both the polynomial record and the evaluation are stored |
| Processor.EvaluateCachedText | src/main/java/com/kostenko/polynomial/processing/api/service/processor/impl/PolynomialProcessorImpl.java:88-101 | as written: the cached text, not the request, is parsed; it succeeds exactly when that text parses; one evaluation is stored |
| Processor.EvaluateRequestAsWritten | src/main/java/com/kostenko/polynomial/processing/api/service/processor/impl/PolynomialProcessorImpl.java:75-102 | as written: a hit makes no call; a cached failure is replayed before `x`; a bad `x` fails and stores nothing; a cached text is parsed after `x`, and a failure to parse it is answered as the text's failure and stores nothing |
| Processor.EvaluateCached | src/main/java/com/kostenko/polynomial/processing/api/service/processor/impl/PolynomialProcessorImpl.java:88-101 | corrected: with a record cached, the request is parsed and the answer is the fresh evaluation |
| Processor.EvaluateRequest | src/main/java/com/kostenko/polynomial/processing/api/service/processor/impl/PolynomialProcessorImpl.java:50-62 | corrected: a hit answers the stored integer with no call. A cached failure is replayed before `x` is read. A bad `x` fails before any polynomial parse and stores nothing. With a simplified text cached, the request is parsed, not the text (line 93 and the tests at PolynomialProcessorImplTest.java:198 and PolynomialProcessorIntegrationTest.java:184-185 expect the text). A miss equals the fresh evaluation. Only the request's own entries may change |
| Processor.CachedTextAgreesWhenBounded | src/main/java/com/kostenko/polynomial/processing/api/service/processor/impl/PolynomialProcessorImpl.java:93-94 | re-parsing the cached text gives the fresh answer whenever every simplified term fits nine-digit literals |
| Processor.CachedTextRejectedWhenUnbounded | src/main/java/com/kostenko/polynomial/processing/api/service/processor/impl/PolynomialProcessorImpl.java:93-94 | under consistent caches, when some simplified term of the request exceeds nine-digit literals, the source's evaluation from the cached text fails with the text's failure, naming the text, while a fresh evaluation succeeds |
| Processor.EvaluateAsWrittenTransparent | src/main/java/com/kostenko/polynomial/processing/api/service/processor/impl/PolynomialProcessorImpl.java:50-102 | under consistent caches and a readable `x`, the source's evaluation answers like a fresh one, except exactly when the cached text is stale: then it fails where a fresh one succeeds |
| Processor.EvaluateInvalidX | src/main/java/com/kostenko/polynomial/processing/api/service/processor/impl/PolynomialProcessorImpl.java:81-86 | with an unreadable `x`, the answer is UNSUPPORTED_X_TYPE or, for a cached rejected request, its replayed failure |
| Processor.SimplifyTransparent | src/main/java/com/kostenko/polynomial/processing/api/service/processor/impl/PolynomialProcessorImpl.java:32-48 | under consistent caches, a simplification answers what a fresh one does, up to the request a failure carries |
| Processor.EvaluateTransparent | src/main/java/com/kostenko/polynomial/processing/api/service/processor/impl/PolynomialProcessorImpl.java:50-62 | corrected: under consistent caches and a readable `x`, the corrected evaluation answers what a fresh one does, up to the request a failure carries |
| ExceptionHandler.Respond | src/main/java/com/kostenko/polynomial/processing/api/exception/handler/PolynomialWebExceptionHandler.java:27-52 | exactly the typed failures become a 400 answer carrying the failure's code |
| ExceptionHandler.RecordFailure | src/main/java/com/kostenko/polynomial/processing/api/exception/handler/PolynomialWebExceptionHandler.java:44-46 | a failure is stored only when it names a polynomial, under that polynomial, as its encoded text. Every other record and every evaluation is unchanged |
| ExceptionHandler.WellFormedEncodable | src/main/java/com/kostenko/polynomial/processing/api/exception/handler/PolynomialWebExceptionHandler.java:56-61 | parameters the parser produces are non-empty and space-free, so they survive the stored text |
| ExceptionHandler.RecordFailureConsistent | src/main/java/com/kostenko/polynomial/processing/api/exception/handler/PolynomialWebExceptionHandler.java:54-72 | storing a parser failure keeps every cached record in agreement with its request |
| ExceptionHandler.ServeSimplify | src/main/java/com/kostenko/polynomial/processing/api/exception/handler/PolynomialWebExceptionHandler.java:36-52 | a rejected, uncached request is answered 400 with its failure and leaves the encoded failure under the request |
| ExceptionHandler.ServeEvaluate | src/main/java/com/kostenko/polynomial/processing/api/exception/handler/PolynomialWebExceptionHandler.java:36-52 | a bad `x` is answered with code 2 and nothing is cached. A rejected, uncached request is cached as its encoded failure. A rejected cached text is answered 400 and its failure is cached under the text. A hit answers the stored value and changes nothing |
| ExceptionHandler.ServeEvaluateCorrected | src/main/java/com/kostenko/polynomial/processing/api/exception/handler/PolynomialWebExceptionHandler.java:36-52 | corrected: the same answers for a bad `x`, a rejected uncached request and a hit, over the corrected evaluation |
| ExceptionHandler.ServeSimplifyConsistent | src/main/java/com/kostenko/polynomial/processing/api/service/processor/impl/PolynomialProcessorImpl.java:64-73 | serving a simplification keeps the caches consistent |
| ExceptionHandler.ServeEvaluateConsistent | src/main/java/com/kostenko/polynomial/processing/api/service/processor/impl/PolynomialProcessorImpl.java:75-117 | serving an evaluation as the source does keeps the caches consistent, also when a cached text is rejected and its failure stored under the text |
| ExceptionHandler.ServeEvaluateCorrectedConsistent | src/main/java/com/kostenko/polynomial/processing/api/service/processor/impl/PolynomialProcessorImpl.java:104-117 | corrected: serving a corrected evaluation keeps the caches consistent |
| ExceptionHandler.ServeSimplifyTransparent | src/main/java/com/kostenko/polynomial/processing/api/service/processor/impl/PolynomialProcessorImpl.java:32-48 | under consistent caches, the client's answer to a simplification is the uncached one |
| ExceptionHandler.ServeEvaluateTransparent | src/main/java/com/kostenko/polynomial/processing/api/service/processor/impl/PolynomialProcessorImpl.java:50-102 | under consistent caches and a readable `x`, the client's answer is the uncached one unless the cached text is stale; then it is a 400 where a fresh evaluation succeeds |
| ExceptionHandler.ServeEvaluateCorrectedTransparent | src/main/java/com/kostenko/polynomial/processing/api/service/processor/impl/PolynomialProcessorImpl.java:50-62 | corrected: under consistent caches and a readable `x`, the client's answer to a corrected evaluation is the uncached one |
| EvaluationFinding.LongDigitsRejected | src/main/java/com/kostenko/polynomial/processing/api/service/parser/impl/PolynomialParserImpl.java:142-149 | a run of ten or more digits is rejected as a coefficient, naming the signed run |
| EvaluationFinding.ConstantFormat | src/main/java/com/kostenko/polynomial/processing/api/service/mapper/impl/PolynomialMapperImpl.java:48-60 | a constant above 1 is formatted as its bare digits |
| EvaluationFinding.FreshEvaluateRequest | src/main/java/com/kostenko/polynomial/processing/api/service/processor/impl/PolynomialProcessorImpl.java:104-117 | `999999999 + 1` at `x = 0` evaluates afresh to 1000000000 |
| EvaluationFinding.CachedTextDisagrees | src/main/java/com/kostenko/polynomial/processing/api/service/processor/impl/PolynomialProcessorImpl.java:93-94 | with the simplified text consistently cached, the source's evaluation fails on coefficient `+1000000000`, while a fresh one answers 1000000000 |
| EvaluationFinding.ServedCachedTextDisagrees | src/main/java/com/kostenko/polynomial/processing/api/exception/handler/PolynomialWebExceptionHandler.java:36-52 | through the web layer the same request is answered with code 3 naming `+1000000000`, and `1000000000` is cached as `3 +1000000000` |
| EvaluationFinding.RepairedAgrees | src/main/java/com/kostenko/polynomial/processing/api/service/processor/impl/PolynomialProcessorImpl.java:93-94 | the corrected pipeline answers the same cached request with 1000000000 |
| TextExamples.StripJoinedPieces | src/main/java/com/kostenko/polynomial/processing/api/service/parser/impl/PolynomialParserImpl.java:39 | spaces between space-free pieces disappear and nothing else changes |
| TextExamples.StripSumExample | src/test/java/com/kostenko/polynomial/processing/api/service/parser/impl/PolynomialParserImplTest.java:99 | `2*x^2 + 3*x^2 -5` loses its spaces |
| ParserExamples.SingleToken | src/main/java/com/kostenko/polynomial/processing/api/service/parser/impl/PolynomialParserImpl.java:102-109 | a simple text with no later sign is one token after the silent sign |
| ParserExamples.TokenizeSumExample | src/test/java/com/kostenko/polynomial/processing/api/service/parser/impl/PolynomialParserImplTest.java:99-103 | `2*x^2+3*x^2-5` splits into `+2*x^2`, `+3*x^2`, `-5` |
| ParserExamples.SquareTermExample | src/test/java/com/kostenko/polynomial/processing/api/service/parser/impl/PolynomialParserImplTest.java:99-103 | `+2*x^2` and `+3*x^2` parse to `(2, 2)` and `(2, 3)` |
| ParserExamples.ConstantTermExample | src/test/java/com/kostenko/polynomial/processing/api/service/parser/impl/PolynomialParserImplTest.java:99-103 | `-5` parses to `(0, -5)` |
| ParserExamples.ParseMissingMultiplySign | src/test/java/com/kostenko/polynomial/processing/api/service/parser/impl/PolynomialParserImplTest.java:90 | `2x` fails INCORRECT_MULTIPLY_SIGN_POSITION naming `+2x` |
| ParserExamples.ParseMissingDegreeSign | src/test/java/com/kostenko/polynomial/processing/api/service/parser/impl/PolynomialParserImplTest.java:91 | `x2` fails INCORRECT_DEGREE_SIGN_POSITION naming `+x2` |
| ParserExamples.ParseDigitProduct | src/main/java/com/kostenko/polynomial/processing/api/service/parser/impl/PolynomialParserImpl.java:142-149 | any `d*d` of two digits fails IMPOSSIBLE_TO_PARSE_COEFFICIENT naming the signed text |
| ParserExamples.ParseBadCoefficient | src/test/java/com/kostenko/polynomial/processing/api/service/parser/impl/PolynomialParserImplTest.java:92 | `5*5` fails IMPOSSIBLE_TO_PARSE_COEFFICIENT naming `+5*5` |
| ParserExamples.ParseBadDegree | src/test/java/com/kostenko/polynomial/processing/api/service/parser/impl/PolynomialParserImplTest.java:93 | `x^x` fails IMPOSSIBLE_TO_PARSE_DEGREE naming `+x^x` |
| ParserExamples.ParseUnsupported | src/test/java/com/kostenko/polynomial/processing/api/service/parser/impl/PolynomialParserImplTest.java:55-68 | `abc` fails UNSUPPORTED_POLYNOMIAL_TYPE with no parameter, carrying the request |
| ParserExamples.ParseNegatedX | src/test/java/com/kostenko/polynomial/processing/api/service/parser/impl/PolynomialParserImplTest.java:111-113 | `-x` parses to `(1, -1)` |
| ParserExamples.ParseXExamples | src/test/java/com/kostenko/polynomial/processing/api/service/parser/impl/PolynomialParserImplTest.java:31-52 | `-36` is read as -36 and `abc` fails UNSUPPORTED_X_TYPE |
| FormatterExamples.QuadraticBodies | src/test/java/com/kostenko/polynomial/processing/api/service/mapper/impl/PolynomialMapperImplTest.java:26-41 | the bodies of the test terms, e.g. `2*x^2`, `3*x`, `5`, `x^2` |
| FormatterExamples.FormatQuadratic | src/test/java/com/kostenko/polynomial/processing/api/service/mapper/impl/PolynomialMapperImplTest.java:28-32 | `[(2,2),(1,3),(0,-5)]` is `2*x^2 + 3*x - 5` |
| FormatterExamples.FormatNegativeLead | src/test/java/com/kostenko/polynomial/processing/api/service/mapper/impl/PolynomialMapperImplTest.java:33-37 | `[(2,-1),(1,2),(0,-1)]` is `-x^2 + 2*x - 1` |
| FormatterExamples.FormatCube | src/test/java/com/kostenko/polynomial/processing/api/service/mapper/impl/PolynomialMapperImplTest.java:38-40 | `[(3,1)]` is `x^3` |
| CodecExamples.EncodeExamples | src/test/java/com/kostenko/polynomial/processing/api/service/processor/impl/PolynomialProcessorImplTest.java:89-112 | the stored texts `1`, `3 +2*2` and `5 +x^2*2` |
| CodecExamples.DecodeExamples | src/main/java/com/kostenko/polynomial/processing/api/service/processor/impl/PolynomialProcessorImpl.java:119-131 | `1` reads as code 1 with no parameter, `5 +x^2*2` as code 5 with parameter `+x^2*2` |
| CodecExamples.DecodeMalformed | src/main/java/com/kostenko/polynomial/processing/api/service/processor/impl/PolynomialProcessorImpl.java:121-122 | the empty text and `abc` cannot be replayed |
| HandlerExamples.RejectedSimplification | src/test/java/com/kostenko/polynomial/processing/api/service/PolynomialProcessorIntegrationTest.java:194-216 | `2*2` is answered with code 3 and cached as `3 +2*2` |
| HandlerExamples.RejectedX | src/test/java/com/kostenko/polynomial/processing/api/service/PolynomialProcessorIntegrationTest.java:218-235 | polynomial `x` with `x = abc` is answered with code 2 and nothing is cached |

## Left out

- Spring and JPA are not modelled: the controller, DTOs, entities with their ids and
  cascade, repositories, `@Retryable`, and logging. The two caches are maps passed in
  and returned. The JSON body and the message text of an answer are not modelled;
  an answer carries the failure's code and its `Failure(kind, params)`.
- Concurrent requests and retries are not modelled: each request runs alone.
- `DataAccessException` swallowing in `savePolynomialExceptionToCache` is not
  modelled. The store is a map update, which always succeeds and overwrites.
- Regular expressions are replaced by predicates over the characters they accept.
  Examples: `IsSimple`, `IsComplex`, `IsCoefficientLiteral`, `IsDegreeLiteral`,
  `IsXLiteral`. `[0-9]` means ASCII digits only, so non-ASCII digits that
  `Integer.parseInt` would accept are not modelled.
- Java's 32-bit `int` arithmetic is not reproduced. Sums and products of
  coefficients (`Integer::sum`, `*`) and `Math.pow` with its `(int)` cast are modelled
  with unbounded integers and exact powers. The source wraps on overflow and
  saturates in `(int) Math.pow`; neither is modelled.
- Polynomials.Evaluate: the value is the exact integer, not the 32-bit one the
  source computes.
- Formatter.Body: Java's 32-bit `Math.abs` is not modelled. The model writes the
  exact magnitude. The two differ only for a coefficient equal to
  `Integer.MIN_VALUE`. The parser never produces one directly, but a sum or product
  that stays in range can. Example: `-999999999 - 999999999 - 147483650` simplifies
  to `-2147483648`.
  - The source's mapper then produces ` - -2147483648` and reduces it to
    `--2147483648`.
  - `Formatter.Format` gives `-2147483648`.
  - A later evaluation of that request re-parses the cached text. In the source, it
    fails with IMPOSSIBLE_TO_PARSE_COEFFICIENT naming `-`, cached under
    `--2147483648`. In the model, the failure names `-2147483648` and is cached
    under `-2147483648`.
- A Java `null` parameter array is modelled as an empty parameter list. The parser
  never raises a failure with an empty non-null array, so the two cannot be
  confused.
- Processor.EvaluateRequest: its equality with a fresh evaluation
  (`Processor.EvaluateTransparent`, `ExceptionHandler.ServeEvaluateCorrectedTransparent`)
  needs a readable `x`. The processor replays a cached polynomial failure before it
  reads `x`, while the fresh computation reads `x` first. With an unreadable `x`,
  `Processor.EvaluateInvalidX` states which of the two failures is answered.
- ParserExamples: the multi-term test inputs `2*x^2 + 3*x^2 -5` and
  `2*x^2+3*x-5+x^2+x` are covered only in pieces (space removal, tokens, each
  term), not as one literal equation per input. `RoundTrip.FormatThenParse` covers
  multi-term parsing for all inputs.
- ParserExamples: the complex test input `(x +2)*(x- 1)` is not stated as a literal
  equation. Products are covered for all inputs by
  `Parser.ParseComplexEvaluate` and `Polynomials.Multiply`.
- Text.JavaSplit: only literal delimiters are modelled (`)*(` and a space), not
  general regular-expression splitting.

## Findings

| source | as written | input that shows it | evidently intended | confidence | as-written member | corrected member |
|---|---|---|---|---|---|---|
| src/main/java/com/kostenko/polynomial/processing/api/service/processor/impl/PolynomialProcessorImpl.java:93-94 | When a simplified text is cached, `evaluate` parses that canonical text instead of the request. Simplification can produce a coefficient of ten digits, and the parser rejects that text: IMPOSSIBLE_TO_PARSE_COEFFICIENT `+1000000000`. The failure is then cached under `1000000000` | simplify `999999999 + 1` (cached as `1000000000`), then evaluate the same request at `x = 0` | the cached path answers what a fresh evaluation answers: 1000000000 | not executed | Processor.EvaluateRequestAsWritten, ExceptionHandler.ServeEvaluate, EvaluationFinding.CachedTextDisagrees, EvaluationFinding.ServedCachedTextDisagrees | Processor.EvaluateRequest, ExceptionHandler.ServeEvaluateCorrected, EvaluationFinding.RepairedAgrees |

`ExceptionHandler.ServeEvaluate` serves the source's evaluation. The caches stay
consistent under it, but its answer differs from a fresh one exactly when the
cached text is stale (`Processor.StaleText`): the request's simplified terms do not all fit
nine-digit literals. `Processor.CachedTextAgreesWhenBounded` and
`Processor.CachedTextRejectedWhenUnbounded` give the two sides of that split.
`Processor.EvaluateRequest` and `ExceptionHandler.ServeEvaluateCorrected` read a cached
request from the request itself, and always answer what a fresh evaluation answers.
