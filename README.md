# validation-lib in Dafny

A model of the runtime core of ReactiveCouchbase's `validation-lib`. The library is a
composable validation engine for Java. It has three parts:

- **Paths** (`Paths.java`) locate an error inside nested data. A path is an immutable list of
  key and index nodes. Paths can be extended, composed, rendered, compared and parsed from an
  expression such as `users[2].address.street`.
- **A validation** (`Validation.java`, `ValidationSuccess.java`, `ValidationFailure.java`) is
  either a success holding a value or a failure holding an ordered list of
  `ValidationError {path, message}` (`ValidationError.java`). It comes with the usual
  combinators, the static `repath`, and `withValidations`, which accumulates the errors of
  several validations.
- **A rule** (`Rule.java`) is a function from an input to a validation. The rule combinators
  sequence rules (`flatMap`, `compose`), run them side by side (`combine`, `orElse`), focus them
  on a part of the input (`within`, `innerValidation`), and rewrite errors (`rewriteErrors`,
  `repath`). The boundary constructors (`from`, `of`, `validateWith`) turn exceptions into
  failures. `Rules.java` is the catalogue of ready-made rules and the folds over lists of
  rules (`combine`) and lists of inputs (`collection`, `list`, `set`).

The Dafny modules follow that structure:

| module | file | models |
|---|---|---|
| `Wrappers` | `wrappers.dfy` | `Option`, a caught exception (`Fault`), and an outcome that may raise (`Attempt`) |
| `JavaLang` | `java_lang.dfy` | 32/64-bit integers, `Integer.toString`/`Integer.valueOf`, `Pattern.split` on one literal character, `String.replace`, `String.trim` |
| `Paths` | `paths.dfy` | `Paths.java` |
| `Errors` | `errors.dfy` | `ValidationError.java` |
| `Validations` | `validations.dfy` | `Validation.java`, `ValidationSuccess.java`, `ValidationFailure.java` |
| `Combinators` | `combinators.dfy` | `Rule.java` |
| `Catalogue` | `catalogue.dfy` | `Rules.java` |

Modelling choices:

- A Java `null` is `None` of `Option`. The rules that test for `null` take `Option<T>`.
- A rule is a total Dafny function `I -> Validation<O, ValidationError>`. Because of this, a
  plain `Rule` that throws is not modelled at all. That includes the places where the library
  would catch its exception: `within`, `innerValidation` and `rewriteErrors` (and so `repath`
  and `rewriteErrorMessages`) wrap the call in `Rule.from`.
- Code that the library runs inside `try`/`catch` returns an `Attempt`: either the answer or
  a `Fault` carrying the exception's message. This covers a `RuleLike`, a predicate, an
  extractor and an error-rewriting function.
- The catch blocks are modelled as written:
  - in `from(RuleLike)`, `of`, `from(Function)` and `validateWith` (Rule.java:175-177, 188-190,
    201-203 and 233-235), an exception becomes one `ValidationError` at `Root` that carries the
    exception's message;
  - in `Paths.parse` (Paths.java:127-129), an exception makes the whole parse answer `Root`;
    no error is created;
  - in `isInteger` (Rules.java:300-302), an exception becomes one error at `Root` with the
    fixed message "Not an integer".
- The four loops of the core are Dafny methods with `for` loops, each proved equal to a
  specification function:
  - `Paths.parse`
  - `ContextualValidation.withValidations`
  - the loop of `Rules.combine`
  - the loop of `Rules.collection`

Behaviour of the code worth knowing:

- `compose` appends its path to every error, including those of the upstream rule
  (Rule.java:36).
- `validateWith` reports an exception of the predicate at `Root`, not at its `path`
  (Rule.java:233-235).
- `notNull`'s own message "The specified value is null" never appears (Rules.java:194-196).
  `validateWith` rejects `null` with "Input can't be null" before it calls the predicate
  (Rule.java:226-228).

## Model

| member | source | states |
|---|---|---|
| Paths.PathNode.Stringify | validation-lib/src/main/java/org/reactivecouchbase/validation/Paths.java:67-70 | A key renders as its name. An index renders as `[`, then decimal digits that `Integer.valueOf` reads back as the index, then `]`. A non-negative index has no sign and no leading zero. |
| Paths.Path.AndThenIndex | validation-lib/src/main/java/org/reactivecouchbase/validation/Paths.java:148-152 | The result has the receiver's nodes and exactly one more node, the index, at the end. |
| Paths.Path.AndThenKey | validation-lib/src/main/java/org/reactivecouchbase/validation/Paths.java:154-158 | The result has the receiver's nodes and exactly one more node, the key, at the end. |
| Paths.Path.AtIndex | validation-lib/src/main/java/org/reactivecouchbase/validation/Paths.java:140-142 | `atIndex` is `andThen(int)`: the receiver's nodes followed by one index node. |
| Paths.Path.Field | validation-lib/src/main/java/org/reactivecouchbase/validation/Paths.java:144-146 | `field` is `andThen(String)`: the receiver's nodes followed by one key node. |
| Paths.Path.Compose | validation-lib/src/main/java/org/reactivecouchbase/validation/Paths.java:160-164 | The receiver's nodes come first, then all of the argument's nodes. |
| Paths.Path.ToString | validation-lib/src/main/java/org/reactivecouchbase/validation/Paths.java:166-172 | The rendering starts with `/`. It is exactly `/` iff the path is empty; otherwise it starts with `/ `. A one-node path renders as `/ ` and that node's rendering. |
| Paths.ComposeIdentity | validation-lib/src/main/java/org/reactivecouchbase/validation/Paths.java:160-164 | `Root` is a left and a right identity of `compose`. |
| Paths.ComposeAssociative | validation-lib/src/main/java/org/reactivecouchbase/validation/Paths.java:160-164 | `compose` is associative. |
| Paths.AndThenIsCompose | validation-lib/src/main/java/org/reactivecouchbase/validation/Paths.java:148-158 | Appending one node is composing with the one-node path. |
| Paths.EqualsIsStructural | validation-lib/src/main/java/org/reactivecouchbase/validation/Paths.java:174-184 | `equals` holds iff the two paths are equal, iff their node lists agree position by position. |
| Paths.KeyIsNeverIndex | validation-lib/src/main/java/org/reactivecouchbase/validation/Paths.java:39-51 | The key `"[2]"` and the index 2 render alike but are not equal, and neither are the paths made of them. |
| Paths.ToStringCompose | validation-lib/src/main/java/org/reactivecouchbase/validation/Paths.java:166-172 | Rendering the composition of two non-empty paths gives the first rendering, then ` / `, then the second rendering without its leading `/ `. |
| Paths.ToStringFieldExample | validation-lib/src/main/java/org/reactivecouchbase/validation/Paths.java:166-172 | `Root` renders `/`, and `Root.field("user").field("name")` renders `/ user / name`. |
| Paths.ToStringIndexExample | validation-lib/src/main/java/org/reactivecouchbase/validation/Paths.java:67-70 | `Root.field("users").atIndex(2)` renders `/ users / [2]`. |
| Paths.ToStringComposeExample | validation-lib/src/main/java/org/reactivecouchbase/validation/Paths.java:160-172 | A key-and-index path composed with a two-key path renders its four nodes in order, separated by ` / `. |
| Paths.Parse | validation-lib/src/main/java/org/reactivecouchbase/validation/Paths.java:108-131 | The loop over the split segments answers the specification `Parsed`, including the early return of `Root` when a segment raises. |
| Paths.ParsePartsNoneIff | validation-lib/src/main/java/org/reactivecouchbase/validation/Paths.java:113-129 | Parsing a list of segments raises iff at least one segment raises. |
| Paths.ParseFaultIsRoot | validation-lib/src/main/java/org/reactivecouchbase/validation/Paths.java:127-129 | A null expression, or one with a segment that raises, parses to `Root`. |
| Paths.ParsePartsLength | validation-lib/src/main/java/org/reactivecouchbase/validation/Paths.java:113-125 | A parse that does not raise has one node per segment, plus one for each `field[digits]` segment. |
| Paths.ParseKeySegment | validation-lib/src/main/java/org/reactivecouchbase/validation/Paths.java:123-125 | A segment without `[` becomes one key node holding the whole segment. |
| Paths.ParseIndexSegment | validation-lib/src/main/java/org/reactivecouchbase/validation/Paths.java:120-122 | `[n]` becomes the single index node `n`. |
| Paths.ParseFieldIndexSegment | validation-lib/src/main/java/org/reactivecouchbase/validation/Paths.java:114-119 | `field[n]` becomes the key node `field` followed by the index node `n`. |
| Paths.ParseIndexOverflow | validation-lib/src/main/java/org/reactivecouchbase/validation/Paths.java:120-129 | `[digits]` with a value of 2^31 or more makes `Integer.valueOf` raise, so the segment raises and the expression parses to `Root`. |
| Paths.ParseExample | validation-lib/src/main/java/org/reactivecouchbase/validation/Paths.java:108-131 | `field[n].key1.key2` parses to the four nodes `field`, `[n]`, `key1`, `key2`, in that order. |
| Paths.ParseEdgeCases | validation-lib/src/main/java/org/reactivecouchbase/validation/Paths.java:111-112 | `""` parses to one empty key, because splitting an expression without a dot gives the expression. `"."` parses to `Root`, because split drops trailing empty strings. `null` parses to `Root`. |
| JavaLang.DecimalRoundTrip | validation-lib/src/main/java/org/reactivecouchbase/validation/Paths.java:117 | `Integer.valueOf` reads back every 32-bit integer from its decimal rendering. |
| JavaLang.PiecesJoin | validation-lib/src/main/java/org/reactivecouchbase/validation/Paths.java:111 | The pieces of a split contain no separator, and joining them with it gives back the input. |
| JavaLang.PiecesOfJoin | validation-lib/src/main/java/org/reactivecouchbase/validation/Paths.java:111 | Separator-free strings joined with the separator split back into the same strings. |
| JavaLang.TrimEmptyIffBlank | validation-lib/src/main/java/org/reactivecouchbase/validation/Rules.java:287 | `trim` gives the empty string iff every character is at most the space character. |
| Errors.ValidationError.ToString | validation-lib/src/main/java/org/reactivecouchbase/validation/ValidationError.java:44-47 | The rendering is `ValidationError @ ( `, then the path's rendering, then ` => `, then the message, then ` )`. Each piece is stated at its position, and the length is the sum of the pieces. |
| Errors.At | validation-lib/src/main/java/org/reactivecouchbase/validation/ValidationError.java:32-34 | The error holds exactly the given path and message. |
| Errors.Of | validation-lib/src/main/java/org/reactivecouchbase/validation/ValidationError.java:28-30 | The error holds the message at `Root`. |
| Errors.AtFault | validation-lib/src/main/java/org/reactivecouchbase/validation/ValidationError.java:40-42 | The error is at the given path and holds the exception's message. |
| Errors.OfFault | validation-lib/src/main/java/org/reactivecouchbase/validation/ValidationError.java:36-38 | The error holds the exception's message at `Root`. |
| Errors.ToStringAtRoot | validation-lib/src/main/java/org/reactivecouchbase/validation/ValidationError.java:44-47 | An error at `Root` renders `ValidationError @ ( / => message )`. |
| Errors.ToStringAtField | validation-lib/src/main/java/org/reactivecouchbase/validation/ValidationError.java:44-47 | An error at a one-key path renders `ValidationError @ ( / key => message )`. |
| Validations.FailureOf | validation-lib/src/main/java/org/reactivecouchbase/validation/Validation.java:32-36 | `failure(e)` is a failure whose error list is exactly `[e]`. |
| Validations.SuccessVariant | validation-lib/src/main/java/org/reactivecouchbase/validation/ValidationSuccess.java:15-43 | A success is not a failure. `getSuccess`, `get` and `getOrElse` answer its value unchanged. `asSuccess` is itself and `asFailure` is empty. `onFailure` is empty, and it contributes no errors. |
| Validations.FailureVariant | validation-lib/src/main/java/org/reactivecouchbase/validation/ValidationFailure.java:15-43 | A failure is not a success. `getFailures` answers exactly its list, in order. `asFailure` is itself and `asSuccess` is empty. `getOrElse` answers the alternative. |
| Validations.MapLaws | validation-lib/src/main/java/org/reactivecouchbase/validation/Validation.java:89-94 | Mapping the identity changes nothing. Two maps compose. A failure keeps its errors. |
| Validations.FlatMapLaws | validation-lib/src/main/java/org/reactivecouchbase/validation/Validation.java:96-101 | On a success, `flatMap(f)` is `f(value)`. A failure keeps its errors. `success` is a left and right unit, and `flatMap` is associative. |
| Validations.MapIsFlatMap | validation-lib/src/main/java/org/reactivecouchbase/validation/Validation.java:89-101 | `map(f)` is `flatMap` into `success(f(x))`. |
| Validations.OrElseLaws | validation-lib/src/main/java/org/reactivecouchbase/validation/Validation.java:82-87 | A success wins. A failure yields the argument verbatim, so errors are not merged. The result succeeds iff either side does. `orElse` is associative. |
| Validations.FoldLaws | validation-lib/src/main/java/org/reactivecouchbase/validation/Validation.java:103-108 | Exactly one branch runs, on the value or on the errors. Folding into the two constructors rebuilds the validation. |
| Validations.CollectLaws | validation-lib/src/main/java/org/reactivecouchbase/validation/Validation.java:110-119 | A value that `f` maps to some `x` gives `success(x)`. A value that `f` rejects gives `failure(otherwise)`. A total `f` makes `collect` a `map`. A failure keeps its errors. |
| Validations.FilterLaws | validation-lib/src/main/java/org/reactivecouchbase/validation/Validation.java:125-134 | Under the precondition that a success satisfies the predicate, `filter` returns the validation unchanged. `filterNot` of the negation does the same on a success. |
| Validations.FilterNotAsWrittenNeverReturns | validation-lib/src/main/java/org/reactivecouchbase/validation/Validation.java:121-123 | `filterNot` as written never returns, whatever the stack depth. |
| Validations.RecoverLaws | validation-lib/src/main/java/org/reactivecouchbase/validation/Validation.java:148-167 | A success keeps its value. A failure becomes `success(v)` when the function offers `v`, and stays the same failure otherwise. `recoverWith` always succeeds. |
| Validations.AllAt | validation-lib/src/main/java/org/reactivecouchbase/validation/Validation.java:173 | Every error is moved to the path, with its message and its position kept. |
| Validations.RepathLaws | validation-lib/src/main/java/org/reactivecouchbase/validation/Validation.java:169-174 | A success is untouched. A failure keeps its number of errors and their messages in order, and every error is at the given path. |
| Validations.RepathTwice | validation-lib/src/main/java/org/reactivecouchbase/validation/Validation.java:169-174 | The last `repath` wins. |
| Validations.ContextualValidation.WithValidations | validation-lib/src/main/java/org/reactivecouchbase/validation/Validation.java:209-220 | The loop answers the specification `Accumulated` of the input and the sub-validations. |
| Validations.AllErrorsAppend | validation-lib/src/main/java/org/reactivecouchbase/validation/Validation.java:210-215 | The errors of two runs of sub-validations are the first run's errors, then the second's. |
| Validations.AllErrorsMembers | validation-lib/src/main/java/org/reactivecouchbase/validation/Validation.java:210-215 | An error is collected iff some sub-validation failed with it. |
| Validations.AllErrorsEmpty | validation-lib/src/main/java/org/reactivecouchbase/validation/Validation.java:210-215 | No error is collected iff no sub-validation contributes one. |
| Validations.AccumulatedLaws | validation-lib/src/main/java/org/reactivecouchbase/validation/Validation.java:209-220 | For sub-validations whose failures are non-empty, the result is `success(input)` iff every sub-validation succeeds. Otherwise it holds all their errors in argument order. |
| Validations.AccumulatedSplit | validation-lib/src/main/java/org/reactivecouchbase/validation/Validation.java:209-220 | Splitting the sub-validations in two lists concatenates the two error lists in order. |
| Combinators.ValidateAndGetLaws | validation-lib/src/main/java/org/reactivecouchbase/validation/Rule.java:13-19 | `validateAndGet` answers a success's output. `validateAndGetOpt` answers `Some` of the output on a success and `None` on a failure. |
| Combinators.FromLaws | validation-lib/src/main/java/org/reactivecouchbase/validation/Rule.java:164-206 | `from` and `of` answer the wrapped rule's result, and turn an exception into one error at `Root` with its message. `from(Function)` succeeds iff the built rule succeeds, and then answers the input itself. A failure of the built rule keeps its errors. An exception of the factory or of the built rule becomes one error at `Root` with its message. |
| Combinators.FlatMapLaws | validation-lib/src/main/java/org/reactivecouchbase/validation/Rule.java:49-60 | A failure of the receiver is kept. On success, the rule built from the output runs on the original input. Constant rules are units, and `flatMap` is associative. |
| Combinators.Suffixed | validation-lib/src/main/java/org/reactivecouchbase/validation/Rule.java:34-37 | Each error keeps its message, and its path becomes its old path composed with the join path. |
| Combinators.ComposeLaws | validation-lib/src/main/java/org/reactivecouchbase/validation/Rule.java:21-43 | On success the result is `sub` on the receiver's output. When the receiver fails, or `sub` fails, the failing side's errors come out in order, each with the path appended. |
| Combinators.ComposeRootLaw | validation-lib/src/main/java/org/reactivecouchbase/validation/Rule.java:45-47 | `compose(sub)` is the receiver's validation `flatMap`ped into `sub`, with every path unchanged. |
| Combinators.SuffixedTwice | validation-lib/src/main/java/org/reactivecouchbase/validation/Rule.java:36 | Appending two paths one after the other appends their composition. |
| Combinators.ComposeNested | validation-lib/src/main/java/org/reactivecouchbase/validation/Rule.java:21-43 | An upstream failure under two nested `compose` calls carries both join paths, inner first. |
| Combinators.OrElseLaws | validation-lib/src/main/java/org/reactivecouchbase/validation/Rule.java:62-69 | The corrected `orElse` answers the receiver's success, or else the other rule's result. |
| Combinators.OrElseAsWrittenNeverReturns | validation-lib/src/main/java/org/reactivecouchbase/validation/Rule.java:66 | `orElse` as written never returns, whatever the stack depth. |
| Combinators.CombinedLaw | validation-lib/src/main/java/org/reactivecouchbase/validation/Rule.java:71-92 | The result is the second success iff both sides succeed. Otherwise it is the failing sides' errors, the receiver's first. Non-empty failures stay non-empty. |
| Combinators.CombineAssociative | validation-lib/src/main/java/org/reactivecouchbase/validation/Rule.java:71-92 | `combine` is associative. |
| Combinators.WithinLaws | validation-lib/src/main/java/org/reactivecouchbase/validation/Rule.java:98-106 | `within` answers the rule's result on the extracted part. An exception of the extractor is one error at `Root`. |
| Combinators.InnerValidationLaws | validation-lib/src/main/java/org/reactivecouchbase/validation/Rule.java:112-124 | On success, `innerValidation` answers the whole input. Otherwise it answers exactly the part's errors, or the extractor's exception at `Root`. |
| Combinators.MapErrors | validation-lib/src/main/java/org/reactivecouchbase/validation/Rule.java:141-144 | The stream map completes iff every error's rewrite completes, and then rewrites position by position. Otherwise there is a first error whose rewrite raises. |
| Combinators.RewriteErrorsLaws | validation-lib/src/main/java/org/reactivecouchbase/validation/Rule.java:134-150 | A success is unchanged. If every rewrite answers, a failure keeps the number and order of its errors, each one rewritten. Otherwise the result is one error at `Root` carrying the message of the first rewrite that raises. |
| Combinators.RewriteErrorMessagesLaws | validation-lib/src/main/java/org/reactivecouchbase/validation/Rule.java:130-132 | A success is unchanged. If every message rewrite answers, a failure keeps each error's path and position and rewrites its message. Otherwise the result is one error at `Root` carrying the message of the first rewrite that raises. |
| Combinators.RewriteErrorMessagesToLaws | validation-lib/src/main/java/org/reactivecouchbase/validation/Rule.java:126-128 | A success is unchanged. A failure keeps each error's path and position, and every message becomes the given one. |
| Combinators.RepathWithLaws | validation-lib/src/main/java/org/reactivecouchbase/validation/Rule.java:160-162 | A success is unchanged. If `f` answers for every path, a failure keeps each error's message and position and moves it to `f` of its path. Otherwise the result is one error at `Root` carrying the message of the first `f` that raises. |
| Combinators.RepathConstant | validation-lib/src/main/java/org/reactivecouchbase/validation/Rule.java:160-162 | Repathing with a function that always answers `p` is the static `repath(v, p)`. |
| Combinators.RepathToLaw | validation-lib/src/main/java/org/reactivecouchbase/validation/Rule.java:156-158 | `repath(path)` on a rule is the static `repath` of its result. |
| Combinators.RepathParsedLaw | validation-lib/src/main/java/org/reactivecouchbase/validation/Rule.java:152-154 | `repath(String)` moves every error to the parse of the expression, and never raises. |
| Combinators.RepathToTwice | validation-lib/src/main/java/org/reactivecouchbase/validation/Rule.java:152-162 | The last `repath` wins. |
| Combinators.ValidateWithLaws | validation-lib/src/main/java/org/reactivecouchbase/validation/Rule.java:221-238 | `null` fails with "Input can't be null" at `path`. A holding predicate gives `success(in)`; a failing one gives the message at `path`. An exception of the predicate gives its message at `Root`. |
| Combinators.ValidateWithDefaults | validation-lib/src/main/java/org/reactivecouchbase/validation/Rule.java:208-219 | The overloads default to `Root` and to "Input does not match predicate". |
| Catalogue.ConstantRules | validation-lib/src/main/java/org/reactivecouchbase/validation/Rules.java:36-61 | `pass()` and `ignore()` succeed with the input, `null` included. `pass(o)` succeeds with `o`. `fail()` fails with the single "Always fail" at `Root`. |
| Catalogue.CombinePass | validation-lib/src/main/java/org/reactivecouchbase/validation/Rules.java:36-43 | `pass()` is a left identity of `combine`. On the right, it turns a success's output into the input. |
| Catalogue.CombineRules | validation-lib/src/main/java/org/reactivecouchbase/validation/Rules.java:28-34 | The loop that reassigns `last` answers `pass().combine(r1)...combine(rn)`. |
| Catalogue.CombineAllLaw | validation-lib/src/main/java/org/reactivecouchbase/validation/Rules.java:24-34 | The combination succeeds iff every rule succeeds, with the last rule's output, or the input for an empty list. Otherwise it holds every rule's errors, in list order. |
| Catalogue.CombineAllDecision | validation-lib/src/main/java/org/reactivecouchbase/validation/Rules.java:28-34 | Success iff every rule succeeds. A success is the last rule's result, or the input for an empty list. |
| Catalogue.CombineAllErrors | validation-lib/src/main/java/org/reactivecouchbase/validation/Rules.java:28-34 | The combination's errors are the rules' errors concatenated in list order. |
| Catalogue.CombineAllSuccess | validation-lib/src/main/java/org/reactivecouchbase/validation/Rules.java:28-34 | With rules whose failures are non-empty, success iff every rule succeeds, and failures stay non-empty. |
| Catalogue.Collect | validation-lib/src/main/java/org/reactivecouchbase/validation/Rules.java:63-84 | The loop collects exactly the specification's outputs and errors. |
| Catalogue.ElementErrorsEmpty | validation-lib/src/main/java/org/reactivecouchbase/validation/Rules.java:63-84 | No error is collected iff no input contributes one. |
| Catalogue.OutputsAllPass | validation-lib/src/main/java/org/reactivecouchbase/validation/Rules.java:63-84 | When every input passes, the outputs are one per input, in input order. |
| Catalogue.ElementErrorsAppend | validation-lib/src/main/java/org/reactivecouchbase/validation/Rules.java:63-84 | The errors of two runs of inputs are the first run's errors, then the second's. |
| Catalogue.ListLaws | validation-lib/src/main/java/org/reactivecouchbase/validation/Rules.java:86-88 | With element failures that are non-empty, `list` succeeds iff every element succeeds, and then holds the outputs in element order. Otherwise it holds all elements' errors in element order. |
| Catalogue.SetLaws | validation-lib/src/main/java/org/reactivecouchbase/validation/Rules.java:90-92 | `set` decides as `list` does, with the same outputs as a set and the same errors. |
| Catalogue.PathRuleLaws | validation-lib/src/main/java/org/reactivecouchbase/validation/Rules.java:98-106 | The result is the rule's on the extracted part, with the same outcome. Every error is at `path` and keeps its message, in order. |
| Catalogue.PathRuleAtRootLaws | validation-lib/src/main/java/org/reactivecouchbase/validation/Rules.java:94-96 | `pathRule(extractor, rule)` gives the rule's outcome on the extracted part. Every error is at `Root` and keeps its message, in order. |
| Catalogue.NullLaws | validation-lib/src/main/java/org/reactivecouchbase/validation/Rules.java:194-208 | `notNull` fails exactly on `null`, with "Input can't be null". `isNull` succeeds exactly on `null`, and otherwise fails with "The specified value is not null". |
| Catalogue.EqualsToLaws | validation-lib/src/main/java/org/reactivecouchbase/validation/Rules.java:210-212 | The rule succeeds exactly on the reference value. Another value gets the message quoting the reference's `toString`. |
| Catalogue.IntBoundLaws | validation-lib/src/main/java/org/reactivecouchbase/validation/Rules.java:129-135 | `minI`/`greaterThan` accept only `x > v`, and `maxI`/`lesserThan` only `x < v`. The bound itself gets the message naming it, and `null` fails. |
| Catalogue.WideBoundLaws | validation-lib/src/main/java/org/reactivecouchbase/validation/Rules.java:137-183 | `minL`/`minBI` accept only `x > v` and `maxL`/`maxBI` only `x < v`. |
| Catalogue.EmptinessLaws | validation-lib/src/main/java/org/reactivecouchbase/validation/Rules.java:214-228 | `notEmptyStr`/`notEmpty` accept exactly the non-empty values and `emptyStr`/`isEmpty` exactly the empty ones. For a non-null string, exactly one of each pair passes. |
| Catalogue.LengthLaws | validation-lib/src/main/java/org/reactivecouchbase/validation/Rules.java:230-236 | `minLength(n)` accepts `length >= n` and `maxLength(n)` accepts `length <= n`, both inclusive. A rejected string gets the default message. |
| Catalogue.MandatoryLaws | validation-lib/src/main/java/org/reactivecouchbase/validation/Rules.java:279-292 | `null` fails with "Validated value is null", and a string that is blank after `trim` fails with "Validated value is empty". Every other string succeeds unchanged. |
| Catalogue.IsIntegerLaws | validation-lib/src/main/java/org/reactivecouchbase/validation/Rules.java:294-305 | The rule succeeds exactly when `Integer.valueOf` accepts the input, with that value. Otherwise it fails with "Not an integer". It reads back every 32-bit integer from its decimal rendering. |

## Left out

- Regular-expression rules (`email`, `url`, `phone`, `pattern`) and Java's regex engine. The
  two patterns of `Paths.parse` are written out as character predicates instead.
- `date` and `dateTime`: they depend on `SimpleDateFormat` and Joda-Time.
- Floating-point, `Short` and `BigDecimal` rules (`minD`/`maxD`/`minF`/`maxF`/`minS`/`maxS`/`minBD`/`maxBD`)
  and `isDouble`/`isFLoat`: floating point is out of scope.
- `isLong` and `isBoolean`: they are parsing wrappers like `isInteger`, which is modelled.
- `ValidationException`, `orThrow` and `forEach`: they exist only to throw or to run side effects.
- `populateErrs`: it is private and never called.
- Concrete `hashCode` values. Equal paths have equal hashes for any function of a Dafny value,
  so that property needs no statement.
- Exceptions thrown by a plain `Rule`: a rule is a total function here. So the model cannot
  say what happens when such a rule throws. That holds where the exception would escape, and
  also inside `within`, `innerValidation`, `rewriteErrors`, `repath` and
  `rewriteErrorMessages`, which catch it through `Rule.from` (Rule.java:100, 114 and 136).
- Exceptions escaping other unguarded code: the other rule of `orElse`, the extractor of
  `pathRule`, and a `null` `Iterable` given to `collection`.
- Errors.AtFault, Errors.OfFault: a Java exception's `getMessage()` can be `null`, and the
  error then carries a `null` message. A `Fault` here always carries a string.
- The wildcard `Validation<?, E>` of `withValidations` and `from(Function)`: the model uses one
  output type for all sub-validations.
- `Collection` inputs are Dafny sequences, and a Java `HashSet` is a Dafny `set`.
- `String.length()` counts characters here, not UTF-16 code units. `Integer.valueOf` accepts
  only ASCII digits here, not other Unicode digits. `toString()` of an arbitrary object is a
  string parameter (`EqualsTo`).
- `new Path(null)` and null nodes: a path is always a list of nodes.
- Rule `orElse` evaluates `other.validate(in)` eagerly, even when the receiver succeeds. In a
  total, side-effect-free model that cannot be observed.
- `isSuccess`/`isFailure` are Dafny's `Success?`/`Failure?` discriminators.
- Combinators.ValidateAndGet: `validateAndGet` calls `get()`, which throws on a failure; the
  model requires a success instead of modelling the exception.
- Validations.Validation.Filter: the source throws when a success fails the predicate; the model
  excludes that call with a precondition instead of modelling the exception.
- Combinators.FlatMap: the source calls `foldWrapped`, which `Validation` does not define; the
  model gives the evident meaning (a failure propagates, a success runs `f(o)` on the input).

## Findings

| source | as written | input that shows it | evidently intended | confidence | as-written member | corrected member |
|---|---|---|---|---|---|---|
| validation-lib/src/main/java/org/reactivecouchbase/validation/Rule.java:66 | `orElse`'s rule calls `this.validate(in)`, and `this` is the new rule itself, so it recurses until the stack overflows | any input, with any two rules | the receiver's validation, or else `other`'s | high; not executed | Combinators.OrElseAsWritten (with Combinators.OrElseAsWrittenNeverReturns) | Combinators.OrElse (with Combinators.OrElseLaws) |
| validation-lib/src/main/java/org/reactivecouchbase/validation/Validation.java:121-123 | `filterNot(p)` calls `filterNot(!p)`, itself, so it recurses until the stack overflows | any validation, with any predicate | `filter` with the negated predicate | high; not executed | Validations.Validation.FilterNotAsWritten (with Validations.FilterNotAsWrittenNeverReturns) | Validations.Validation.FilterNot (with Validations.FilterLaws) |
