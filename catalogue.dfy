/** `Rules`: the ready-made rules (pass, fail, null checks, bounds, lengths, emptiness,
    `mandatory`) and the helpers that fold rules over a list of rules (`combine`) or a rule
    over a list of inputs (`collection`, `list`, `set`). */
module Catalogue {
  import opened Wrappers
  import opened JavaLang
  import opened Paths
  import opened Errors
  import opened Validations
  import opened Combinators

  // ---------------------------------------------------------------------------
  // Constant rules

  /** `Rules.pass()`: every input, `null` included, passes unchanged. */
  function Pass<I>(): Rule<I, I> {
    (input: I) => Success(input)
  }

  /** `Rules.ignore()`, which behaves as `pass()`. */
  function Ignore<I>(): Rule<I, I> {
    Pass()
  }

  /** `Rules.pass(o)`: every input passes, with `o` as the output. */
  function PassValue<I, O>(o: O): Rule<I, O> {
    (_: I) => Success(o)
  }

  /** `Rules.fail()`: every input fails with one error at `Root`. */
  function Fail<I, O>(): Rule<I, O> {
    (_: I) => FailureOf(Of("Always fail"))
  }

  lemma ConstantRules<I, O>(input: I, o: O)
    ensures Pass()(input) == Success(input) && Ignore()(input) == Success(input)
    ensures PassValue(o)(input) == Success(o)
    ensures Fail<I, O>()(input) == Failure([ValidationError(Root, "Always fail")])
  {
  }

  /** `pass()` is a left identity of `combine`; on the right it replaces a success's output by
      the input and keeps a failure. */
  lemma CombinePass<I>(rule: Rule<I, I>, input: I)
    ensures Combine(Pass(), rule)(input) == rule(input)
    ensures Combine(rule, Pass())(input) == if rule(input).Success? then Success(input) else rule(input)
  {
    CombinedLaw(Pass()(input), rule(input));
    CombinedLaw(rule(input), Pass()(input));
  }

  // ---------------------------------------------------------------------------
  // `combine(rules)`

  /** `Rules.combine(rules)`: `pass().combine(r1).combine(r2)...`. */
  function CombineAll<I>(rules: seq<Rule<I, I>>): Rule<I, I> {
    if |rules| == 0 then Pass() else Combine(CombineAll(rules[..|rules| - 1]), rules[|rules| - 1])
  }

  /** `Rules.combine(Iterable)`: the loop that reassigns `last`. */
  method CombineRules<I>(rules: seq<Rule<I, I>>) returns (last: Rule<I, I>)
    ensures last == CombineAll(rules)
  {
    last := Pass();
    for i := 0 to |rules|
      invariant last == CombineAll(rules[..i])
    {
      assert rules[..i + 1][..i] == rules[..i];
      last := Combine(last, rules[i]);
    }
    assert rules[..|rules|] == rules;
  }

  /** The validations of one input by each rule, in order. */
  function Results<I, O>(rules: seq<Rule<I, O>>, input: I): (r: seq<Validation<O, ValidationError>>)
    ensures |r| == |rules| && forall i :: 0 <= i < |rules| ==> r[i] == rules[i](input)
  {
    seq(|rules|, i requires 0 <= i < |rules| => rules[i](input))
  }

  /** The combination succeeds exactly when every rule does, with the last rule's output (the
      input when there is none); otherwise its errors are all the rules' errors in list order. */
  lemma CombineAllLaw<I>(rules: seq<Rule<I, I>>, input: I)
    ensures CombineAll(rules)(input) ==
      if forall i :: 0 <= i < |rules| ==> rules[i](input).Success? then
        (if |rules| == 0 then Success(input) else rules[|rules| - 1](input))
      else Failure(AllErrors(Results(rules, input)))
  {
    CombineAllDecision(rules, input);
    CombineAllErrors(rules, input);
  }

  lemma {:induction false} CombineAllDecision<I>(rules: seq<Rule<I, I>>, input: I)
    ensures CombineAll(rules)(input).Success? <==> forall i :: 0 <= i < |rules| ==> rules[i](input).Success?
    ensures CombineAll(rules)(input).Success? ==>
      CombineAll(rules)(input) == if |rules| == 0 then Success(input) else rules[|rules| - 1](input)
  {
    if |rules| > 0 {
      var init := rules[..|rules| - 1];
      var v1 := CombineAll(init)(input);
      var v2 := rules[|rules| - 1](input);
      CombineAllDecision(init, input);
      assert CombineAll(rules)(input) == Combined(v1, v2);
      if forall i :: 0 <= i < |rules| ==> rules[i](input).Success? {
        assert forall i :: 0 <= i < |init| ==> init[i](input).Success? by {
          forall i | 0 <= i < |init| ensures init[i](input).Success? {
            assert init[i] == rules[i];
          }
        }
      } else if v2.Success? {
        var k :| 0 <= k < |rules| && !rules[k](input).Success?;
        assert init[k] == rules[k];
        assert v1.Failure?;
      }
    }
  }

  lemma {:induction false} CombineAllErrors<I>(rules: seq<Rule<I, I>>, input: I)
    ensures ErrorsOf(CombineAll(rules)(input)) == AllErrors(Results(rules, input))
  {
    if |rules| > 0 {
      var init := rules[..|rules| - 1];
      CombineAllErrors(init, input);
      var v1 := CombineAll(init)(input);
      var v2 := rules[|rules| - 1](input);
      assert CombineAll(rules)(input) == Combined(v1, v2);
      CombinedLaw(v1, v2);
      assert Results(rules, input)[..|rules| - 1] == Results(init, input);
    }
  }

  /** With rules that never fail without an error, the combination succeeds exactly when every
      rule succeeds. */
  lemma CombineAllSuccess<I>(rules: seq<Rule<I, I>>, input: I)
    requires forall i :: 0 <= i < |rules| ==> rules[i](input).WellFormed()
    ensures CombineAll(rules)(input).Success? <==> forall i :: 0 <= i < |rules| ==> rules[i](input).Success?
    ensures CombineAll(rules)(input).WellFormed()
  {
    CombineAllLaw(rules, input);
    AllErrorsEmpty(Results(rules, input));
    if !(forall i :: 0 <= i < |rules| ==> rules[i](input).Success?) {
      var k :| 0 <= k < |rules| && !rules[k](input).Success?;
      assert ErrorsOf(Results(rules, input)[k]) != [];
    }
  }

  // ---------------------------------------------------------------------------
  // `collection(builder, rule)`, `list(rule)`, `set(rule)`

  /** The outputs of the inputs that pass, in input order. */
  function Outputs<I, O>(rule: Rule<I, O>, ins: seq<I>): seq<O> {
    if |ins| == 0 then []
    else
      var v := rule(ins[|ins| - 1]);
      Outputs(rule, ins[..|ins| - 1]) + (if v.Success? then [v.value] else [])
  }

  /** The errors of the inputs that fail, in input order. */
  function ElementErrors<I, O>(rule: Rule<I, O>, ins: seq<I>): seq<ValidationError> {
    if |ins| == 0 then [] else ElementErrors(rule, ins[..|ins| - 1]) + ErrorsOf(rule(ins[|ins| - 1]))
  }

  /** The loop of `collection`: validate each input in turn, adding the output of a success to
      `outs` and the errors of a failure to `errors`. */
  method Collect<I, O>(rule: Rule<I, O>, ins: seq<I>) returns (outs: seq<O>, errors: seq<ValidationError>)
    ensures outs == Outputs(rule, ins) && errors == ElementErrors(rule, ins)
  {
    outs, errors := [], [];
    for i := 0 to |ins|
      invariant outs == Outputs(rule, ins[..i]) && errors == ElementErrors(rule, ins[..i])
    {
      assert ins[..i + 1][..i] == ins[..i];
      var errorValidation := rule(ins[i]);
      if errorValidation.Success? {
        outs := outs + [errorValidation.GetSuccess()];
      }
      if errorValidation.Failure? {
        errors := errors + errorValidation.GetFailures();
      }
    }
    assert ins[..|ins|] == ins;
  }

  /** `Rules.list(rule)`: the outputs in input order, unless some input contributed an error. */
  function ListRule<I, O>(rule: Rule<I, O>): Rule<seq<I>, seq<O>> {
    (ins: seq<I>) => ListOf(rule, ins)
  }

  function ListOf<I, O>(rule: Rule<I, O>, ins: seq<I>): Validation<seq<O>, ValidationError> {
    var errors := ElementErrors(rule, ins);
    if |errors| == 0 then Success(Outputs(rule, ins)) else Failure(errors)
  }

  /** `Rules.set(rule)`: the same, collecting the outputs into a set. */
  function SetRule<I, O>(rule: Rule<I, O>): Rule<seq<I>, set<O>> {
    (ins: seq<I>) => SetOf(rule, ins)
  }

  function SetOf<I, O>(rule: Rule<I, O>, ins: seq<I>): Validation<set<O>, ValidationError> {
    var errors := ElementErrors(rule, ins);
    if |errors| == 0 then Success(set o | o in Outputs(rule, ins)) else Failure(errors)
  }

  /** No error is collected exactly when no input contributes one. */
  lemma {:induction false} ElementErrorsEmpty<I, O>(rule: Rule<I, O>, ins: seq<I>)
    ensures ElementErrors(rule, ins) == [] <==> forall i :: 0 <= i < |ins| ==> ErrorsOf(rule(ins[i])) == []
  {
    if |ins| > 0 {
      var init := ins[..|ins| - 1];
      ElementErrorsEmpty(rule, init);
      if ElementErrors(rule, ins) == [] {
        forall i | 0 <= i < |ins| ensures ErrorsOf(rule(ins[i])) == [] {
          if i < |ins| - 1 {
            assert ins[i] == init[i];
          }
        }
      }
    }
  }

  /** When every input passes, the outputs are the inputs' outputs, one each, in order. */
  lemma {:induction false} OutputsAllPass<I, O>(rule: Rule<I, O>, ins: seq<I>)
    requires forall i :: 0 <= i < |ins| ==> rule(ins[i]).Success?
    ensures |Outputs(rule, ins)| == |ins|
    ensures forall i :: 0 <= i < |ins| ==> Outputs(rule, ins)[i] == rule(ins[i]).value
  {
    if |ins| > 0 {
      var init := ins[..|ins| - 1];
      assert forall i :: 0 <= i < |init| ==> init[i] == ins[i];
      OutputsAllPass(rule, init);
    }
  }

  /** Validating two runs of inputs: the errors of the first come first. */
  lemma {:induction false} ElementErrorsAppend<I, O>(rule: Rule<I, O>, a: seq<I>, b: seq<I>)
    ensures ElementErrors(rule, a + b) == ElementErrors(rule, a) + ElementErrors(rule, b)
    decreases |b|
  {
    if |b| == 0 {
      assert a + b == a;
    } else {
      var init := b[..|b| - 1];
      assert (a + b)[..|a + b| - 1] == a + init;
      ElementErrorsAppend(rule, a, init);
    }
  }

  /** `list(rule)` succeeds exactly when every input passes (the library's failures are never
      empty), with the outputs in input order; otherwise it holds the errors of all failing
      inputs in input order. */
  lemma ListLaws<I, O>(rule: Rule<I, O>, ins: seq<I>)
    requires forall i :: 0 <= i < |ins| ==> rule(ins[i]).WellFormed()
    ensures ListRule(rule)(ins).Success? <==> forall i :: 0 <= i < |ins| ==> rule(ins[i]).Success?
    ensures ListRule(rule)(ins).Success? ==>
      |ListRule(rule)(ins).value| == |ins|
      && forall i :: 0 <= i < |ins| ==> ListRule(rule)(ins).value[i] == rule(ins[i]).value
    ensures ListRule(rule)(ins).Failure? ==> ListRule(rule)(ins).errors == ElementErrors(rule, ins)
    ensures ListRule(rule)(ins).WellFormed()
  {
    ElementErrorsEmpty(rule, ins);
    if forall i :: 0 <= i < |ins| ==> rule(ins[i]).Success? {
      OutputsAllPass(rule, ins);
    } else {
      var k :| 0 <= k < |ins| && !rule(ins[k]).Success?;
      assert ErrorsOf(rule(ins[k])) != [];
    }
  }

  /** `set(rule)` decides as `list(rule)` does and holds the same outputs, as a set. */
  lemma SetLaws<I, O>(rule: Rule<I, O>, ins: seq<I>)
    ensures SetRule(rule)(ins).Success? <==> ListRule(rule)(ins).Success?
    ensures SetRule(rule)(ins).Success? ==> forall o :: o in SetRule(rule)(ins).value <==> o in ListRule(rule)(ins).value
    ensures SetRule(rule)(ins).Failure? ==> SetRule(rule)(ins).errors == ListRule(rule)(ins).errors
  {
  }

  // ---------------------------------------------------------------------------
  // `pathRule`

  /** `Rules.pathRule(path, extractor, rule)`: validate the extracted part and move every
      error to `path`. */
  function PathRule<I, F, O>(path: Path, extractor: I -> F, rule: Rule<F, O>): Rule<I, O> {
    (input: I) => Validations.Repath(rule(extractor(input)), path)
  }

  /** `Rules.pathRule(extractor, rule)`: the same at `Root`. */
  function PathRuleAtRoot<I, F, O>(extractor: I -> F, rule: Rule<F, O>): Rule<I, O> {
    PathRule(Root, extractor, rule)
  }

  /** `pathRule(extractor, rule)` answers the rule's outcome on the part, with every error moved
      to `Root` and the messages kept in order. */
  lemma PathRuleAtRootLaws<I, F, O>(extractor: I -> F, rule: Rule<F, O>, input: I)
    ensures var part := rule(extractor(input));
      var r := PathRuleAtRoot(extractor, rule)(input);
      && (r.Success? <==> part.Success?)
      && (part.Success? ==> r == part)
      && (part.Failure? ==> Messages(r.errors) == Messages(part.errors) && forall e :: e in r.errors ==> e.path == Root)
  {
    PathRuleLaws(Root, extractor, rule, input);
  }

  /** `pathRule` answers the rule's outcome on the part, with its errors' messages in order, all
      at `path`. */
  lemma PathRuleLaws<I, F, O>(path: Path, extractor: I -> F, rule: Rule<F, O>, input: I)
    ensures var part := rule(extractor(input));
      var r := PathRule(path, extractor, rule)(input);
      && (r.Success? <==> part.Success?)
      && (part.Success? ==> r == part)
      && (part.Failure? ==> Messages(r.errors) == Messages(part.errors) && forall e :: e in r.errors ==> e.path == path)
  {
    RepathLaws(rule(extractor(input)), path);
  }

  // ---------------------------------------------------------------------------
  // Null checks

  /** `Rules.notNull()`; its own message is never used, since `validateWith` rejects `null`
      before the predicate runs. */
  function NotNull<T>(): Rule<Option<T>, Option<T>> {
    ValidateWithMessage("The specified value is null", (_: T) => Done(true))
  }

  /** `Rules.isNull()`. */
  function IsNull<T>(): Rule<Option<T>, Option<T>> {
    (input: Option<T>) => if input.None? then Success(input) else FailureOf(Of("The specified value is not null"))
  }

  lemma NullLaws<T>(input: Option<T>)
    ensures NotNull()(input).Success? <==> input.Some?
    ensures input.None? ==> NotNull<T>()(input) == Failure([ValidationError(Root, "Input can't be null")])
    ensures IsNull()(input).Success? <==> input.None?
    ensures input.Some? ==> IsNull()(input) == Failure([ValidationError(Root, "The specified value is not null")])
    ensures NotNull()(input).Success? ==> NotNull()(input).value == input
  {
    ValidateWithLaws(Root, "The specified value is null", (_: T) => Done(true), input);
  }

  /** `Rules.equalsTo(to)`: `rendered` is `to.toString()`, which the message quotes. */
  function EqualsTo<T(==)>(to: T, rendered: string): Rule<Option<T>, Option<T>> {
    ValidateWithMessage("The specified value is not equals to reference object (" + rendered + ")", (x: T) => Done(x == to))
  }

  lemma EqualsToLaws<T>(to: T, rendered: string, input: Option<T>)
    ensures EqualsTo(to, rendered)(input).Success? <==> input == Some(to)
    ensures input.Some? && input.value != to ==>
      EqualsTo(to, rendered)(input) == Failure([ValidationError(Root, "The specified value is not equals to reference object (" + rendered + ")")])
  {
    ValidateWithLaws(Root, "The specified value is not equals to reference object (" + rendered + ")", (x: T) => Done(x == to), input);
  }

  // ---------------------------------------------------------------------------
  // Bounds: all strict

  /** `Rules.minI(value)`: only integers strictly above `value` pass. */
  function MinI(value: int32): Rule<Option<int32>, Option<int32>> {
    ValidateWithMessage("The specified value is smaller than " + DecimalString(value as int), (x: int32) => Done(x > value))
  }

  /** `Rules.maxI(value)`: only integers strictly below `value` pass. */
  function MaxI(value: int32): Rule<Option<int32>, Option<int32>> {
    ValidateWithMessage("The specified value is bigger than " + DecimalString(value as int), (x: int32) => Done(x < value))
  }

  /** `Rules.minL(value)`. */
  function MinL(value: int64): Rule<Option<int64>, Option<int64>> {
    ValidateWithMessage("The specified value is smaller than " + DecimalString(value as int), (x: int64) => Done(x > value))
  }

  /** `Rules.maxL(value)`. */
  function MaxL(value: int64): Rule<Option<int64>, Option<int64>> {
    ValidateWithMessage("The specified value is bigger than " + DecimalString(value as int), (x: int64) => Done(x < value))
  }

  /** `Rules.minBI(value)`, on unbounded integers. */
  function MinBI(value: int): Rule<Option<int>, Option<int>> {
    ValidateWithMessage("The specified value is smaller than " + DecimalString(value), (x: int) => Done(x > value))
  }

  /** `Rules.maxBI(value)`. */
  function MaxBI(value: int): Rule<Option<int>, Option<int>> {
    ValidateWithMessage("The specified value is bigger than " + DecimalString(value), (x: int) => Done(x < value))
  }

  /** `Rules.greaterThan(value)`: strictly above, with the message "lesser than". */
  function GreaterThan(value: int32): Rule<Option<int32>, Option<int32>> {
    ValidateWithMessage("The specified value is lesser than " + DecimalString(value as int), (x: int32) => Done(x > value))
  }

  /** `Rules.lesserThan(value)`: strictly below, with the message "greater than". */
  function LesserThan(value: int32): Rule<Option<int32>, Option<int32>> {
    ValidateWithMessage("The specified value is greater than " + DecimalString(value as int), (x: int32) => Done(x < value))
  }

  /** The 32-bit bounds are strict: the bound itself is rejected, with the message naming it. */
  lemma IntBoundLaws(value: int32, input: Option<int32>)
    ensures MinI(value)(input).Success? <==> input.Some? && input.value > value
    ensures MaxI(value)(input).Success? <==> input.Some? && input.value < value
    ensures GreaterThan(value)(input).Success? <==> input.Some? && input.value > value
    ensures LesserThan(value)(input).Success? <==> input.Some? && input.value < value
    ensures MinI(value)(Some(value)) == Failure([ValidationError(Root, "The specified value is smaller than " + DecimalString(value as int))])
    ensures MaxI(value)(Some(value)) == Failure([ValidationError(Root, "The specified value is bigger than " + DecimalString(value as int))])
    ensures MinI(value)(None) == Failure([ValidationError(Root, "Input can't be null")])
  {
    ValidateWithLaws(Root, "The specified value is smaller than " + DecimalString(value as int), (x: int32) => Done(x > value), input);
    ValidateWithLaws(Root, "The specified value is bigger than " + DecimalString(value as int), (x: int32) => Done(x < value), input);
    ValidateWithLaws(Root, "The specified value is lesser than " + DecimalString(value as int), (x: int32) => Done(x > value), input);
    ValidateWithLaws(Root, "The specified value is greater than " + DecimalString(value as int), (x: int32) => Done(x < value), input);
    ValidateWithLaws(Root, "The specified value is smaller than " + DecimalString(value as int), (x: int32) => Done(x > value), Some(value));
    ValidateWithLaws(Root, "The specified value is bigger than " + DecimalString(value as int), (x: int32) => Done(x < value), Some(value));
    ValidateWithLaws(Root, "The specified value is smaller than " + DecimalString(value as int), (x: int32) => Done(x > value), None);
  }

  /** The 64-bit and unbounded bounds are strict in the same way. */
  lemma WideBoundLaws(value: int64, big: int, input: Option<int64>, bigInput: Option<int>)
    ensures MinL(value)(input).Success? <==> input.Some? && input.value > value
    ensures MaxL(value)(input).Success? <==> input.Some? && input.value < value
    ensures MinBI(big)(bigInput).Success? <==> bigInput.Some? && bigInput.value > big
    ensures MaxBI(big)(bigInput).Success? <==> bigInput.Some? && bigInput.value < big
  {
    ValidateWithLaws(Root, "The specified value is smaller than " + DecimalString(value as int), (x: int64) => Done(x > value), input);
    ValidateWithLaws(Root, "The specified value is bigger than " + DecimalString(value as int), (x: int64) => Done(x < value), input);
    ValidateWithLaws(Root, "The specified value is smaller than " + DecimalString(big), (x: int) => Done(x > big), bigInput);
    ValidateWithLaws(Root, "The specified value is bigger than " + DecimalString(big), (x: int) => Done(x < big), bigInput);
  }

  // ---------------------------------------------------------------------------
  // Emptiness and lengths

  /** `Rules.notEmptyStr()`. */
  function NotEmptyStr(): Rule<Option<string>, Option<string>> {
    ValidateWithMessage("The specified value is an empty String", (x: string) => Done(|x| > 0))
  }

  /** `Rules.emptyStr()`. */
  function EmptyStr(): Rule<Option<string>, Option<string>> {
    ValidateWithMessage("The specified value is not an empty String", (x: string) => Done(|x| == 0))
  }

  /** `Rules.notEmpty()`, on a collection. */
  function NotEmpty<T>(): Rule<Option<seq<T>>, Option<seq<T>>> {
    ValidateWithMessage("The specified value is an empty collection", (x: seq<T>) => Done(|x| > 0))
  }

  /** `Rules.isEmpty()`, on a collection. */
  function IsEmpty<T>(): Rule<Option<seq<T>>, Option<seq<T>>> {
    ValidateWithMessage("The specified value is not an empty collection", (x: seq<T>) => Done(|x| == 0))
  }

  /** `Rules.minLength(size)`: at least `size` characters, with the default message. */
  function MinLength(size: int32): Rule<Option<string>, Option<string>> {
    ValidateWithPredicate((x: string) => Done(|x| >= size as int))
  }

  /** `Rules.maxLength(size)`: at most `size` characters, with the default message. */
  function MaxLength(size: int32): Rule<Option<string>, Option<string>> {
    ValidateWithPredicate((x: string) => Done(|x| <= size as int))
  }

  /** A non-null string is either empty or not: exactly one of the two rules passes it, and
      `null` passes neither. */
  lemma EmptinessLaws<T>(input: Option<string>, coll: Option<seq<T>>)
    ensures NotEmptyStr()(input).Success? <==> input.Some? && |input.value| > 0
    ensures EmptyStr()(input).Success? <==> input.Some? && |input.value| == 0
    ensures NotEmpty()(coll).Success? <==> coll.Some? && |coll.value| > 0
    ensures IsEmpty()(coll).Success? <==> coll.Some? && |coll.value| == 0
    ensures input.Some? ==> NotEmptyStr()(input).Success? != EmptyStr()(input).Success?
  {
    ValidateWithLaws(Root, "The specified value is an empty String", (x: string) => Done(|x| > 0), input);
    ValidateWithLaws(Root, "The specified value is not an empty String", (x: string) => Done(|x| == 0), input);
    ValidateWithLaws(Root, "The specified value is an empty collection", (x: seq<T>) => Done(|x| > 0), coll);
    ValidateWithLaws(Root, "The specified value is not an empty collection", (x: seq<T>) => Done(|x| == 0), coll);
  }

  /** The length bounds are inclusive, and a rejected string gets the default message. */
  lemma LengthLaws(size: int32, input: Option<string>)
    ensures MinLength(size)(input).Success? <==> input.Some? && |input.value| >= size as int
    ensures MaxLength(size)(input).Success? <==> input.Some? && |input.value| <= size as int
    ensures input.Some? && |input.value| < size as int ==>
      MinLength(size)(input) == Failure([ValidationError(Root, "Input does not match predicate")])
  {
    ValidateWithLaws(Root, DefaultMessage, (x: string) => Done(|x| >= size as int), input);
    ValidateWithLaws(Root, DefaultMessage, (x: string) => Done(|x| <= size as int), input);
  }

  // ---------------------------------------------------------------------------
  // `mandatory`

  /** `Rules.mandatory()`: `Rule.from` around a check of `null` and of blankness after `trim`. */
  function Mandatory(): Rule<Option<string>, Option<string>> {
    FromRuleLike((input: Option<string>) => Done(MandatoryCheck(input)))
  }

  function MandatoryCheck(input: Option<string>): Validation<Option<string>, ValidationError> {
    match input
    case None => FailureOf(Of("Validated value is null"))
    case Some(s) => if |Trim(s)| == 0 then FailureOf(Of("Validated value is empty")) else Success(input)
  }

  /** `mandatory` passes exactly the non-null strings with a character above the space
      character, unchanged; `null` and blank strings each get their own message. */
  lemma MandatoryLaws(input: Option<string>)
    ensures Mandatory()(input).Success? <==>
      input.Some? && exists i :: 0 <= i < |input.value| && !IsTrimmed(input.value[i])
    ensures Mandatory()(input).Success? ==> Mandatory()(input).value == input
    ensures input.None? ==> Mandatory()(input) == Failure([ValidationError(Root, "Validated value is null")])
    ensures input.Some? && (forall i :: 0 <= i < |input.value| ==> IsTrimmed(input.value[i])) ==>
      Mandatory()(input) == Failure([ValidationError(Root, "Validated value is empty")])
  {
    var rule := (i: Option<string>) => Done(MandatoryCheck(i));
    assert Mandatory() == FromRuleLike(rule);
    assert FromRuleLike(rule)(input) == Caught(rule(input));
    if input.Some? {
      TrimEmptyIffBlank(input.value);
    }
  }

  // ---------------------------------------------------------------------------
  // `isInteger`

  /** `Rules.isInteger()`: `Integer.valueOf` of the input; a null or malformed input, or one
      outside 32 bits, is "Not an integer". */
  function IsInteger(): Rule<Option<string>, int32> {
    FromRuleLike((input: Option<string>) => Done(IntegerCheck(input)))
  }

  function IntegerCheck(input: Option<string>): Validation<int32, ValidationError> {
    match input
    case None => FailureOf(Of("Not an integer"))
    case Some(s) =>
      match ParseInt32(s)
      case None => FailureOf(Of("Not an integer"))
      case Some(n) => Success(n)
  }

  /** `isInteger` accepts exactly what `Integer.valueOf` accepts, and reads back every
      32-bit integer from its decimal rendering. */
  lemma IsIntegerLaws(input: Option<string>, n: int32)
    ensures IsInteger()(input).Success? <==> input.Some? && ParseInt32(input.value).Some?
    ensures IsInteger()(input).Success? ==> IsInteger()(input).value == ParseInt32(input.value).value
    ensures IsInteger()(input).Failure? ==> IsInteger()(input).errors == [ValidationError(Root, "Not an integer")]
    ensures IsInteger()(Some(DecimalString(n as int))) == Success(n)
  {
    var rule := (i: Option<string>) => Done(IntegerCheck(i));
    assert IsInteger() == FromRuleLike(rule);
    assert FromRuleLike(rule)(input) == Caught(rule(input));
    assert FromRuleLike(rule)(Some(DecimalString(n as int))) == Caught(rule(Some(DecimalString(n as int))));
    DecimalRoundTrip(n);
  }
}
