/** `Rule`: a validation function from an input to a validated output, and the combinators
    that build new rules from old ones. Every combinator returns a fresh closure; nothing is
    mutated. */
module Combinators {
  import opened Wrappers
  import opened Paths
  import opened Errors
  import opened Validations

  /** `Rule<I, O>`: validating an input gives a validation of an output. */
  type Rule<-I, O> = I -> Validation<O, ValidationError>

  /** A `RuleLike<I, O>` (or `Function`) that the library calls inside a `try`/`catch`:
      it may raise an exception instead of answering. */
  type RuleLike<-I, O> = I -> Attempt<Validation<O, ValidationError>>

  const DefaultMessage: string := "Input does not match predicate"
  const NullMessage: string := "Input can't be null"

  /** `validateAndGet(in)`: the output of a validation that succeeds; a failure throws. */
  function ValidateAndGet<I, O>(rule: Rule<I, O>, input: I): O
    requires rule(input).Success?
  {
    rule(input).Get()
  }

  /** `validateAndGetOpt(in)`: the output, if the validation succeeds. */
  function ValidateAndGetOpt<I, O>(rule: Rule<I, O>, input: I): Option<O> {
    rule(input).OnSuccess()
  }

  /** `validateAndGet` answers the output of a success; `validateAndGetOpt` answers it as
      `Some` exactly when the validation succeeds. */
  lemma ValidateAndGetLaws<I, O>(rule: Rule<I, O>, input: I)
    ensures rule(input).Success? ==> ValidateAndGet(rule, input) == rule(input).value
    ensures rule(input).Success? ==> ValidateAndGetOpt(rule, input) == Some(rule(input).value)
    ensures rule(input).Failure? ==> ValidateAndGetOpt(rule, input) == None
  {
  }

  // ---------------------------------------------------------------------------
  // Boundaries: `from`, `of`

  /** The `catch (Exception e)` of the boundary constructors: an exception becomes a failure
      with one error at `Root` that carries the exception's message. */
  function Caught<O>(a: Attempt<Validation<O, ValidationError>>): Validation<O, ValidationError> {
    match a
    case Done(v) => v
    case Raised(fault) => FailureOf(OfFault(fault))
  }

  /** `Rule.from(RuleLike)`. */
  function FromRuleLike<I, O>(rule: RuleLike<I, O>): Rule<I, O> {
    input => Caught(rule(input))
  }

  /** `Rule.of(Function)`: the same boundary around a function. */
  function RuleOf<I, O>(rule: RuleLike<I, O>): Rule<I, O> {
    FromRuleLike(rule)
  }

  /** `Rule.from(Function<I, RuleLike<I, ?>>)`: build a rule from the input, run it on the same
      input, and keep the input as the output when it succeeds. */
  function FromFactory<I, X>(factory: I -> Attempt<RuleLike<I, X>>): Rule<I, I> {
    input =>
      match factory(input)
      case Raised(fault) => FailureOf(OfFault(fault))
      case Done(rule) =>
        match rule(input)
        case Raised(fault) => FailureOf(OfFault(fault))
        case Done(v) => if v.Failure? then Failure(v.errors) else Success(input)
  }

  /** At the boundaries `from(RuleLike)`, `of` and `from(Function)`, a fault of the guarded code
      is one error at `Root` with the fault's message. `from(RuleLike)` and `of` pass anything
      else through. `from(Function)` keeps the errors of a failure and answers the input on a
      success. */
  lemma FromLaws<I, O, X>(rule: RuleLike<I, O>, factory: I -> Attempt<RuleLike<I, X>>, input: I)
    ensures rule(input).Done? ==> FromRuleLike(rule)(input) == rule(input).value
    ensures rule(input).Raised? ==> FromRuleLike(rule)(input) == Failure([At(Root, rule(input).fault.message)])
    ensures RuleOf(rule)(input) == FromRuleLike(rule)(input)
    ensures FromFactory(factory)(input).Success? <==>
      factory(input).Done? && factory(input).value(input).Done? && factory(input).value(input).value.Success?
    ensures FromFactory(factory)(input).Success? ==> FromFactory(factory)(input).value == input
    ensures factory(input).Raised? ==> FromFactory(factory)(input) == Failure([OfFault(factory(input).fault)])
    ensures factory(input).Done? && factory(input).value(input).Raised? ==>
      FromFactory(factory)(input) == Failure([OfFault(factory(input).value(input).fault)])
    ensures factory(input).Done? && factory(input).value(input).Done? && factory(input).value(input).value.Failure? ==>
      FromFactory(factory)(input) == Failure(factory(input).value(input).value.errors)
  {
  }

  // ---------------------------------------------------------------------------
  // Sequencing: `flatMap`, `compose`

  /** `flatMap(f)`: the failure of the receiver, or the rule `f` builds from its output run on
      the ORIGINAL input. */
  function FlatMap<I, O, B>(self: Rule<I, O>, f: O -> Rule<I, B>): Rule<I, B> {
    input => self(input).FlatMap(o => f(o)(input))
  }

  /** Every error's path with `path` appended, messages kept. */
  function Suffixed(errs: seq<ValidationError>, path: Path): (r: seq<ValidationError>)
    ensures Messages(r) == Messages(errs)
    ensures forall i :: 0 <= i < |r| ==> r[i].path == errs[i].path.Compose(path)
  {
    if |errs| == 0 then []
    else [ValidationError(errs[0].path.Compose(path), errs[0].message)] + Suffixed(errs[1..], path)
  }

  /** `compose(path, sub)`: feed the receiver's output to `sub`; whichever of the two fails,
      every error gets `path` appended to its own path. */
  function Compose<I, O, P>(self: Rule<I, O>, path: Path, sub: Rule<O, P>): Rule<I, P> {
    var rule := FlatMap(self, (o: O) => (_: I) => sub(o));
    input =>
      var validation := rule(input);
      if validation.Failure? then Failure(Suffixed(validation.errors, path)) else validation
  }

  /** `compose(sub)`, which is `compose(Root, sub)`. */
  function ComposeRoot<I, O, P>(self: Rule<I, O>, sub: Rule<O, P>): Rule<I, P> {
    Compose(self, Root, sub)
  }

  /** `flatMap` re-runs the rule `f` builds on the original input; it is a monad bind with the
      constant rules as unit. */
  lemma FlatMapLaws<I, O, B, C>(self: Rule<I, O>, f: O -> Rule<I, B>, g: B -> Rule<I, C>, o: O, input: I)
    ensures self(input).Failure? ==> FlatMap(self, f)(input) == Failure(self(input).errors)
    ensures self(input).Success? ==> FlatMap(self, f)(input) == f(self(input).value)(input)
    ensures FlatMap((_: I) => Success(o), f)(input) == f(o)(input)
    ensures FlatMap(self, (p: O) => (_: I) => Success(p))(input) == self(input)
    ensures FlatMap(FlatMap(self, f), g)(input) == FlatMap(self, (p: O) => FlatMap(f(p), g))(input)
  {
    var unit: Rule<I, O> := (_: I) => Success(o);
    assert unit(input) == Success(o);
  }

  /** `compose`: `sub` sees the receiver's output; on success the result is `sub`'s; on any
      failure, the failing side's errors in order, each with `path` appended. */
  lemma ComposeLaws<I, O, P>(self: Rule<I, O>, path: Path, sub: Rule<O, P>, input: I)
    ensures self(input).Success? && sub(self(input).value).Success? ==>
      Compose(self, path, sub)(input) == sub(self(input).value)
    ensures self(input).Failure? ==>
      Compose(self, path, sub)(input) == Failure(Suffixed(self(input).errors, path))
    ensures self(input).Success? && sub(self(input).value).Failure? ==>
      Compose(self, path, sub)(input) == Failure(Suffixed(sub(self(input).value).errors, path))
  {
  }

  /** Appending `Root` to every path changes nothing. */
  lemma SuffixedRoot(errs: seq<ValidationError>)
    ensures Suffixed(errs, Root) == errs
  {
    forall i | 0 <= i < |errs| ensures Suffixed(errs, Root)[i].path == errs[i].path {
      ComposeIdentity(errs[i].path);
    }
    ErrorsDetermined(Suffixed(errs, Root), errs);
  }

  /** `compose(sub)` keeps every path as it is: it is the plain sequencing of the two rules. */
  lemma ComposeRootLaw<I, O, P>(self: Rule<I, O>, sub: Rule<O, P>, input: I)
    ensures ComposeRoot(self, sub)(input) == self(input).FlatMap(sub)
  {
    var v := self(input).FlatMap(sub);
    if v.Failure? {
      SuffixedRoot(v.errors);
    }
  }

  /** Appending two paths one after the other is appending their composition. */
  lemma SuffixedTwice(errs: seq<ValidationError>, p: Path, q: Path)
    ensures Suffixed(Suffixed(errs, p), q) == Suffixed(errs, p.Compose(q))
  {
    forall i | 0 <= i < |errs| ensures Suffixed(Suffixed(errs, p), q)[i].path == Suffixed(errs, p.Compose(q))[i].path {
      ComposeAssociative(errs[i].path, p, q);
    }
    ErrorsDetermined(Suffixed(Suffixed(errs, p), q), Suffixed(errs, p.Compose(q)));
  }

  /** A failure of the receiver of two nested `compose` carries both join paths, the inner
      one first. */
  lemma ComposeNested<I, O, P, Q>(self: Rule<I, O>, p: Path, sub: Rule<O, P>, q: Path, next: Rule<P, Q>, input: I)
    requires self(input).Failure?
    ensures Compose(Compose(self, p, sub), q, next)(input) == Failure(Suffixed(self(input).errors, p.Compose(q)))
  {
    SuffixedTwice(self(input).errors, p, q);
  }

  // ---------------------------------------------------------------------------
  // Alternatives and conjunction: `orElse`, `combine`

  /** `orElse(other)` as evidently intended: the receiver's success, else `other`'s result.
      The source evaluates `other` eagerly; without side effects that is not observable. */
  function OrElse<I, O>(self: Rule<I, O>, other: Rule<I, O>): Rule<I, O> {
    input => self(input).OrElse(other(input))
  }

  /** `orElse(other)` as written: the new rule's `validate` calls itself before `other`, so it
      never returns. `depth` is the stack the call may use; `None` is the stack overflow. */
  function OrElseAsWritten<I, O>(other: Rule<I, O>, input: I, depth: nat): Option<Validation<O, ValidationError>> {
    if depth == 0 then None
    else
      match OrElseAsWritten(other, input, depth - 1)
      case None => None
      case Some(v) => Some(v.OrElse(other(input)))
  }

  lemma OrElseLaws<I, O>(self: Rule<I, O>, other: Rule<I, O>, input: I)
    ensures self(input).Success? ==> OrElse(self, other)(input) == self(input)
    ensures self(input).Failure? ==> OrElse(self, other)(input) == other(input)
  {
  }

  /** The source's `orElse` overflows the stack whatever stack it is given. */
  lemma {:induction false} OrElseAsWrittenNeverReturns<I, O>(other: Rule<I, O>, input: I, depth: nat)
    ensures OrElseAsWritten(other, input, depth) == None
  {
    if depth > 0 {
      OrElseAsWrittenNeverReturns(other, input, depth - 1);
    }
  }

  /** What `combine` answers from the two validations of the same input. */
  function Combined<O>(validation1: Validation<O, ValidationError>, validation2: Validation<O, ValidationError>): Validation<O, ValidationError> {
    if validation1.Success? && validation2.Success? then validation2
    else if validation1.Failure? && validation2.Success? then Failure(validation1.errors)
    else if validation1.Success? && validation2.Failure? then Failure(validation2.errors)
    else Failure(validation1.errors + validation2.errors)
  }

  /** `combine(other)`: run both rules on the same input. */
  function Combine<I, O>(self: Rule<I, O>, other: Rule<I, O>): Rule<I, O> {
    input => Combined(self(input), other(input))
  }

  /** `combine` succeeds, with the second output, exactly when both sides succeed; otherwise
      its errors are the receiver's followed by `other`'s. */
  lemma CombinedLaw<O>(v1: Validation<O, ValidationError>, v2: Validation<O, ValidationError>)
    ensures Combined(v1, v2) == if v1.Success? && v2.Success? then v2 else Failure(ErrorsOf(v1) + ErrorsOf(v2))
    ensures v1.WellFormed() && v2.WellFormed() ==> Combined(v1, v2).WellFormed()
  {
  }

  /** `combine` is associative. */
  lemma CombineAssociative<I, O>(a: Rule<I, O>, b: Rule<I, O>, c: Rule<I, O>, input: I)
    ensures Combine(Combine(a, b), c)(input) == Combine(a, Combine(b, c))(input)
  {
    var va, vb, vc := a(input), b(input), c(input);
    CombinedLaw(va, vb);
    CombinedLaw(vb, vc);
    CombinedLaw(Combined(va, vb), vc);
    CombinedLaw(va, Combined(vb, vc));
    assert ErrorsOf(va) + ErrorsOf(vb) + ErrorsOf(vc) == ErrorsOf(va) + (ErrorsOf(vb) + ErrorsOf(vc));
  }

  // ---------------------------------------------------------------------------
  // Sub-parts: `within`, `innerValidation`

  /** `within(extractor)`: validate the part the extractor picks; an exception raised by the
      extractor becomes one error at `Root`. */
  function Within<E, I, O>(self: Rule<I, O>, extractor: E -> Attempt<I>): Rule<E, O> {
    FromRuleLike((input: E) => WithinAttempt(self, extractor, input))
  }

  /** The `RuleLike` that `within` wraps: the extractor, then the rule on the part. */
  function WithinAttempt<E, I, O>(self: Rule<I, O>, extractor: E -> Attempt<I>, input: E): Attempt<Validation<O, ValidationError>> {
    match extractor(input)
    case Raised(fault) => Raised(fault)
    case Done(part) => Done(self(part))
  }

  /** `innerValidation(extractor)`: validate the part, but answer with the whole input. */
  function InnerValidation<E, I, O>(self: Rule<I, O>, extractor: E -> Attempt<I>): Rule<E, E> {
    FromRuleLike((input: E) => InnerAttempt(self, extractor, input))
  }

  /** The `RuleLike` that `innerValidation` wraps. */
  function InnerAttempt<E, I, O>(self: Rule<I, O>, extractor: E -> Attempt<I>, input: E): Attempt<Validation<E, ValidationError>> {
    match extractor(input)
    case Raised(fault) => Raised(fault)
    case Done(part) =>
      var validation := self(part);
      Done(if validation.Failure? then Failure(validation.errors) else Success(input))
  }

  lemma WithinApply<E, I, O>(self: Rule<I, O>, extractor: E -> Attempt<I>, input: E)
    ensures Within(self, extractor)(input) == Caught(WithinAttempt(self, extractor, input))
  {
    var rule := (i: E) => WithinAttempt(self, extractor, i);
    assert Within(self, extractor) == FromRuleLike(rule);
    assert FromRuleLike(rule)(input) == Caught(rule(input));
  }

  lemma InnerApply<E, I, O>(self: Rule<I, O>, extractor: E -> Attempt<I>, input: E)
    ensures InnerValidation(self, extractor)(input) == Caught(InnerAttempt(self, extractor, input))
  {
    var rule := (i: E) => InnerAttempt(self, extractor, i);
    assert InnerValidation(self, extractor) == FromRuleLike(rule);
    assert FromRuleLike(rule)(input) == Caught(rule(input));
  }

  /** `within` answers the rule's result on the extracted part; a fault of the extractor is
      one error at `Root`. */
  lemma WithinLaws<E, I, O>(self: Rule<I, O>, extractor: E -> Attempt<I>, input: E)
    ensures extractor(input).Done? ==> Within(self, extractor)(input) == self(extractor(input).value)
    ensures extractor(input).Raised? ==> Within(self, extractor)(input) == FailureOf(OfFault(extractor(input).fault))
  {
    WithinApply(self, extractor, input);
  }

  /** `innerValidation` keeps the outer value on success and answers exactly the part's
      errors otherwise. */
  lemma InnerValidationLaws<E, I, O>(self: Rule<I, O>, extractor: E -> Attempt<I>, input: E)
    ensures extractor(input).Done? && self(extractor(input).value).Success? ==>
      InnerValidation(self, extractor)(input) == Success(input)
    ensures extractor(input).Done? && self(extractor(input).value).Failure? ==>
      InnerValidation(self, extractor)(input) == Failure(self(extractor(input).value).errors)
    ensures extractor(input).Raised? ==>
      InnerValidation(self, extractor)(input) == FailureOf(OfFault(extractor(input).fault))
    ensures extractor(input).Done? ==>
      InnerValidation(self, extractor)(input) == Within(self, extractor)(input).Map((_: O) => input)
  {
    WithinApply(self, extractor, input);
    InnerApply(self, extractor, input);
  }

  // ---------------------------------------------------------------------------
  // Rewriting errors: `rewriteErrors`, `rewriteErrorMessages`, `repath`

  /** Mapping the errors one by one, in order, as the stream does; the first exception stops
      the map. */
  function MapErrors(errs: seq<ValidationError>, rewrite: ValidationError -> Attempt<ValidationError>): (r: Attempt<seq<ValidationError>>)
    ensures r.Done? <==> forall i :: 0 <= i < |errs| ==> rewrite(errs[i]).Done?
    ensures r.Done? ==> |r.value| == |errs| && forall i :: 0 <= i < |errs| ==> r.value[i] == rewrite(errs[i]).value
    ensures r.Raised? ==>
      exists i :: 0 <= i < |errs| && rewrite(errs[i]) == Raised(r.fault) && forall j :: 0 <= j < i ==> rewrite(errs[j]).Done?
  {
    if |errs| == 0 then Done([])
    else
      match rewrite(errs[0])
      case Raised(fault) => Raised(fault)
      case Done(e) =>
        var rest := MapErrors(errs[1..], rewrite);
        match rest
        case Raised(fault) =>
          var i :| 0 <= i < |errs| - 1 && rewrite(errs[1..][i]) == Raised(fault)
            && forall j :: 0 <= j < i ==> rewrite(errs[1..][j]).Done?;
          assert rewrite(errs[i + 1]) == Raised(fault);
          Raised(fault)
        case Done(es) => Done([e] + es)
  }

  /** `rewriteErrors(rewrite)`: a success as it is; every error of a failure rewritten; an
      exception of `rewrite` becomes one error at `Root`. */
  function RewriteErrors<I, O>(self: Rule<I, O>, rewrite: ValidationError -> Attempt<ValidationError>): Rule<I, O> {
    FromRuleLike((input: I) => RewriteAttempt(self, rewrite, input))
  }

  /** The `RuleLike` that `rewriteErrors` wraps. */
  function RewriteAttempt<I, O>(self: Rule<I, O>, rewrite: ValidationError -> Attempt<ValidationError>, input: I): Attempt<Validation<O, ValidationError>> {
    var validation := self(input);
    if validation.Failure? then
      match MapErrors(validation.errors, rewrite)
      case Raised(fault) => Raised(fault)
      case Done(newErrors) => Done(Failure(newErrors))
    else Done(validation)
  }

  /** `rewriteErrorMessages(rewrite)`: rewrite the message, keep the path. */
  function RewriteErrorMessages<I, O>(self: Rule<I, O>, rewrite: string -> Attempt<string>): Rule<I, O> {
    RewriteErrors(self, (e: ValidationError) => MessageRewrite(rewrite, e))
  }

  /** `input -> ValidationError.at(input.path, rewrite.apply(input.message))`. */
  function MessageRewrite(rewrite: string -> Attempt<string>, e: ValidationError): Attempt<ValidationError> {
    match rewrite(e.message)
    case Raised(fault) => Raised(fault)
    case Done(m) => Done(At(e.path, m))
  }

  /** `rewriteErrorMessages(message)`: every message becomes `message`. */
  function RewriteErrorMessagesTo<I, O>(self: Rule<I, O>, message: string): Rule<I, O> {
    RewriteErrorMessages(self, (_: string) => Done(message))
  }

  /** `repath(Function<Path, Path>)`: rewrite the path, keep the message. */
  function RepathWith<I, O>(self: Rule<I, O>, f: Path -> Attempt<Path>): Rule<I, O> {
    RewriteErrors(self, (e: ValidationError) => PathRewrite(f, e))
  }

  /** `input -> ValidationError.at(f.apply(input.path), input.message)`. */
  function PathRewrite(f: Path -> Attempt<Path>, e: ValidationError): Attempt<ValidationError> {
    match f(e.path)
    case Raised(fault) => Raised(fault)
    case Done(p) => Done(At(p, e.message))
  }

  /** `repath(Path)`: every error moves to `path`. */
  function RepathTo<I, O>(self: Rule<I, O>, path: Path): Rule<I, O> {
    RepathWith(self, (_: Path) => Done(path))
  }

  /** `repath(String)`: every error moves to the parse of the expression. */
  function RepathParsed<I, O>(self: Rule<I, O>, expr: Option<string>): Rule<I, O> {
    RepathWith(self, (_: Path) => Done(Parsed(expr)))
  }

  /** `rewriteErrors` keeps a success, and keeps the number and the order of the errors. */
  lemma RewriteErrorsApply<I, O>(self: Rule<I, O>, rewrite: ValidationError -> Attempt<ValidationError>, input: I)
    ensures RewriteErrors(self, rewrite)(input) == Caught(RewriteAttempt(self, rewrite, input))
  {
    var rule := (i: I) => RewriteAttempt(self, rewrite, i);
    assert RewriteErrors(self, rewrite) == FromRuleLike(rule);
    assert FromRuleLike(rule)(input) == Caught(rule(input));
  }

  /** `rewriteErrors` keeps a success, and keeps the number and the order of the errors; a
      fault of `rewrite` on any error is one error at `Root`. */
  lemma RewriteErrorsLaws<I, O>(self: Rule<I, O>, rewrite: ValidationError -> Attempt<ValidationError>, input: I)
    ensures self(input).Success? ==> RewriteErrors(self, rewrite)(input) == self(input)
    ensures self(input).Failure? && (forall e :: e in self(input).errors ==> rewrite(e).Done?) ==>
      var r := RewriteErrors(self, rewrite)(input);
      r.Failure? && |r.errors| == |self(input).errors|
      && forall i :: 0 <= i < |r.errors| ==> r.errors[i] == rewrite(self(input).errors[i]).value
    ensures self(input).Failure? && (exists e :: e in self(input).errors && rewrite(e).Raised?) ==>
      exists k :: 0 <= k < |self(input).errors| && rewrite(self(input).errors[k]).Raised?
        && (forall j :: 0 <= j < k ==> rewrite(self(input).errors[j]).Done?)
        && RewriteErrors(self, rewrite)(input) == Failure([OfFault(rewrite(self(input).errors[k]).fault)])
  {
    RewriteErrorsApply(self, rewrite, input);
    var v := self(input);
    if v.Failure? {
      var m := MapErrors(v.errors, rewrite);
      if forall e :: e in v.errors ==> rewrite(e).Done? {
        forall i | 0 <= i < |v.errors| ensures rewrite(v.errors[i]).Done? {
          assert v.errors[i] in v.errors;
        }
      }
      if exists e :: e in v.errors && rewrite(e).Raised? {
        var e :| e in v.errors && rewrite(e).Raised?;
        var i :| 0 <= i < |v.errors| && v.errors[i] == e;
        assert m.Raised?;
        var k :| 0 <= k < |v.errors| && rewrite(v.errors[k]) == Raised(m.fault)
          && forall j :: 0 <= j < k ==> rewrite(v.errors[j]).Done?;
        assert RewriteErrors(self, rewrite)(input) == Failure([OfFault(rewrite(v.errors[k]).fault)]);
      }
    }
  }

  /** `rewriteErrorMessages` keeps a success; on a failure it keeps every path and rewrites
      only the messages, in order; the first message rewrite that raises gives one error at
      `Root` with that exception's message. */
  lemma RewriteErrorMessagesLaws<I, O>(self: Rule<I, O>, rewrite: string -> Attempt<string>, input: I)
    ensures self(input).Success? ==> RewriteErrorMessages(self, rewrite)(input) == self(input)
    ensures self(input).Failure? && (forall e :: e in self(input).errors ==> rewrite(e.message).Done?) ==>
      var r := RewriteErrorMessages(self, rewrite)(input);
      r.Failure? && |r.errors| == |self(input).errors|
      && forall i :: 0 <= i < |r.errors| ==>
        r.errors[i].path == self(input).errors[i].path
        && r.errors[i].message == rewrite(self(input).errors[i].message).value
    ensures self(input).Failure? && (exists e :: e in self(input).errors && rewrite(e.message).Raised?) ==>
      exists k :: 0 <= k < |self(input).errors| && rewrite(self(input).errors[k].message).Raised?
        && (forall j :: 0 <= j < k ==> rewrite(self(input).errors[j].message).Done?)
        && RewriteErrorMessages(self, rewrite)(input) == Failure([OfFault(rewrite(self(input).errors[k].message).fault)])
  {
    var f := (e: ValidationError) => MessageRewrite(rewrite, e);
    assert RewriteErrorMessages(self, rewrite) == RewriteErrors(self, f);
    if self(input).Success? {
      RewriteErrorsLaws(self, f, input);
    } else {
      if forall e :: e in self(input).errors ==> rewrite(e.message).Done? {
        MessagesRewritten(self, rewrite, input);
      }
      if exists e :: e in self(input).errors && rewrite(e.message).Raised? {
        MessageRewriteRaises(self, rewrite, input);
      }
    }
  }

  /** The case of `RewriteErrorMessagesLaws` where every message rewrite answers. */
  lemma MessagesRewritten<I, O>(self: Rule<I, O>, rewrite: string -> Attempt<string>, input: I)
    requires self(input).Failure?
    requires forall e :: e in self(input).errors ==> rewrite(e.message).Done?
    ensures var r := RewriteErrorMessages(self, rewrite)(input);
      r.Failure? && |r.errors| == |self(input).errors|
      && forall i :: 0 <= i < |r.errors| ==>
        r.errors[i].path == self(input).errors[i].path
        && r.errors[i].message == rewrite(self(input).errors[i].message).value
  {
    var errs := self(input).errors;
    var f := (e: ValidationError) => MessageRewrite(rewrite, e);
    assert RewriteErrorMessages(self, rewrite) == RewriteErrors(self, f);
    forall e | e in errs ensures f(e).Done? {
      assert rewrite(e.message).Done?;
    }
    RewriteErrorsLaws(self, f, input);
  }

  /** The case of `RewriteErrorMessagesLaws` where some message rewrite raises. */
  lemma MessageRewriteRaises<I, O>(self: Rule<I, O>, rewrite: string -> Attempt<string>, input: I)
    requires self(input).Failure?
    requires exists e :: e in self(input).errors && rewrite(e.message).Raised?
    ensures
      exists k :: 0 <= k < |self(input).errors| && rewrite(self(input).errors[k].message).Raised?
        && (forall j :: 0 <= j < k ==> rewrite(self(input).errors[j].message).Done?)
        && RewriteErrorMessages(self, rewrite)(input) == Failure([OfFault(rewrite(self(input).errors[k].message).fault)])
  {
    var errs := self(input).errors;
    var f := (e: ValidationError) => MessageRewrite(rewrite, e);
    assert RewriteErrorMessages(self, rewrite) == RewriteErrors(self, f);
    var e :| e in errs && rewrite(e.message).Raised?;
    assert f(e).Raised?;
    RewriteErrorsLaws(self, f, input);
    var k :| 0 <= k < |errs| && f(errs[k]).Raised?
      && (forall j :: 0 <= j < k ==> f(errs[j]).Done?)
      && RewriteErrors(self, f)(input) == Failure([OfFault(f(errs[k]).fault)]);
    assert f(errs[k]).fault == rewrite(errs[k].message).fault;
    forall j | 0 <= j < k ensures rewrite(errs[j].message).Done? {
      assert f(errs[j]).Done?;
    }
  }

  /** `rewriteErrorMessages(message)` keeps a success; on a failure every error keeps its path
      and position and gets `message`. */
  lemma RewriteErrorMessagesToLaws<I, O>(self: Rule<I, O>, message: string, input: I)
    ensures self(input).Success? ==> RewriteErrorMessagesTo(self, message)(input) == self(input)
    ensures self(input).Failure? ==>
      var r := RewriteErrorMessagesTo(self, message)(input);
      r.Failure? && |r.errors| == |self(input).errors|
      && forall i :: 0 <= i < |r.errors| ==> r.errors[i] == At(self(input).errors[i].path, message)
  {
    var rewrite := (_: string) => Done(message);
    assert RewriteErrorMessagesTo(self, message) == RewriteErrorMessages(self, rewrite);
    RewriteErrorMessagesLaws(self, rewrite, input);
    if self(input).Failure? {
      forall e | e in self(input).errors ensures rewrite(e.message).Done? {
      }
    }
  }

  /** `repath(f)` keeps a success; on a failure every error keeps its message and position and
      moves to `f` of its path; the first `f` that raises gives one error at `Root` with that
      exception's message. */
  lemma RepathWithLaws<I, O>(self: Rule<I, O>, f: Path -> Attempt<Path>, input: I)
    ensures self(input).Success? ==> RepathWith(self, f)(input) == self(input)
    ensures self(input).Failure? && (forall e :: e in self(input).errors ==> f(e.path).Done?) ==>
      var r := RepathWith(self, f)(input);
      r.Failure? && |r.errors| == |self(input).errors|
      && forall i :: 0 <= i < |r.errors| ==>
        r.errors[i] == At(f(self(input).errors[i].path).value, self(input).errors[i].message)
    ensures self(input).Failure? && (exists e :: e in self(input).errors && f(e.path).Raised?) ==>
      exists k :: 0 <= k < |self(input).errors| && f(self(input).errors[k].path).Raised?
        && (forall j :: 0 <= j < k ==> f(self(input).errors[j].path).Done?)
        && RepathWith(self, f)(input) == Failure([OfFault(f(self(input).errors[k].path).fault)])
  {
    var g := (e: ValidationError) => PathRewrite(f, e);
    assert RepathWith(self, f) == RewriteErrors(self, g);
    if self(input).Success? {
      RewriteErrorsLaws(self, g, input);
    } else {
      if forall e :: e in self(input).errors ==> f(e.path).Done? {
        PathsRewritten(self, f, input);
      }
      if exists e :: e in self(input).errors && f(e.path).Raised? {
        PathRewriteRaises(self, f, input);
      }
    }
  }

  /** The case of `RepathWithLaws` where `f` answers for every path. */
  lemma PathsRewritten<I, O>(self: Rule<I, O>, f: Path -> Attempt<Path>, input: I)
    requires self(input).Failure?
    requires forall e :: e in self(input).errors ==> f(e.path).Done?
    ensures var r := RepathWith(self, f)(input);
      r.Failure? && |r.errors| == |self(input).errors|
      && forall i :: 0 <= i < |r.errors| ==>
        r.errors[i] == At(f(self(input).errors[i].path).value, self(input).errors[i].message)
  {
    var errs := self(input).errors;
    var g := (e: ValidationError) => PathRewrite(f, e);
    assert RepathWith(self, f) == RewriteErrors(self, g);
    forall e | e in errs ensures g(e).Done? {
      assert f(e.path).Done?;
    }
    RewriteErrorsLaws(self, g, input);
  }

  /** The case of `RepathWithLaws` where `f` raises for some path. */
  lemma PathRewriteRaises<I, O>(self: Rule<I, O>, f: Path -> Attempt<Path>, input: I)
    requires self(input).Failure?
    requires exists e :: e in self(input).errors && f(e.path).Raised?
    ensures
      exists k :: 0 <= k < |self(input).errors| && f(self(input).errors[k].path).Raised?
        && (forall j :: 0 <= j < k ==> f(self(input).errors[j].path).Done?)
        && RepathWith(self, f)(input) == Failure([OfFault(f(self(input).errors[k].path).fault)])
  {
    var errs := self(input).errors;
    var g := (e: ValidationError) => PathRewrite(f, e);
    assert RepathWith(self, f) == RewriteErrors(self, g);
    var e :| e in errs && f(e.path).Raised?;
    assert g(e).Raised?;
    RewriteErrorsLaws(self, g, input);
    var k :| 0 <= k < |errs| && g(errs[k]).Raised?
      && (forall j :: 0 <= j < k ==> g(errs[j]).Done?)
      && RewriteErrors(self, g)(input) == Failure([OfFault(g(errs[k]).fault)]);
    assert g(errs[k]).fault == f(errs[k].path).fault;
    forall j | 0 <= j < k ensures f(errs[j].path).Done? {
      assert g(errs[j]).Done?;
    }
  }

  /** Moving every error with a path function that always answers `path` is the static
      `Validation.repath` to `path`. */
  lemma RepathConstant<I, O>(self: Rule<I, O>, f: Path -> Attempt<Path>, path: Path, input: I)
    requires forall p :: f(p) == Done(path)
    ensures RepathWith(self, f)(input) == Validations.Repath(self(input), path)
  {
    var v := self(input);
    var g := (e: ValidationError) => PathRewrite(f, e);
    assert RepathWith(self, f) == RewriteErrors(self, g);
    RewriteErrorsLaws(self, g, input);
    if v.Failure? {
      var r := RepathWith(self, f)(input);
      forall e | e in v.errors ensures g(e).Done? {
        assert f(e.path) == Done(path);
      }
      assert r.Failure? && |r.errors| == |v.errors|;
      forall i | 0 <= i < |r.errors| ensures r.errors[i] == AllAt(v.errors, path)[i] {
        assert f(v.errors[i].path) == Done(path);
        assert r.errors[i] == g(v.errors[i]).value;
        assert AllAt(v.errors, path)[i].message == Messages(AllAt(v.errors, path))[i] == Messages(v.errors)[i];
      }
      assert r.errors == AllAt(v.errors, path);
    }
  }

  /** `repath(path)` on a rule is the static `Validation.repath` of its result. */
  lemma RepathToLaw<I, O>(self: Rule<I, O>, path: Path, input: I)
    ensures RepathTo(self, path)(input) == Validations.Repath(self(input), path)
  {
    RepathConstant(self, (_: Path) => Done(path), path, input);
  }

  /** `repath(String)` moves every error to the parse of the expression, and never raises. */
  lemma RepathParsedLaw<I, O>(self: Rule<I, O>, expr: Option<string>, input: I)
    ensures RepathParsed(self, expr)(input) == Validations.Repath(self(input), Parsed(expr))
  {
    RepathConstant(self, (_: Path) => Done(Parsed(expr)), Parsed(expr), input);
  }

  /** The last `repath` wins. */
  lemma RepathToTwice<I, O>(self: Rule<I, O>, p: Path, q: Path, input: I)
    ensures RepathTo(RepathTo(self, p), q)(input) == RepathTo(self, q)(input)
  {
    RepathToLaw(self, p, input);
    RepathToLaw(RepathTo(self, p), q, input);
    RepathToLaw(self, q, input);
    RepathTwice(self(input), p, q);
  }

  // ---------------------------------------------------------------------------
  // Predicates: `validateWith`

  /** `validateWith(path, errorMessage, test)`, over a nullable input: `null` fails at
      `path`; the predicate's verdict decides otherwise; an exception of the test becomes
      one error at `Root`, not at `path`. */
  function ValidateWith<T>(path: Path, errorMessage: string, test: T -> Attempt<bool>): Rule<Option<T>, Option<T>> {
    (input: Option<T>) => Checked(path, errorMessage, test, input)
  }

  /** The `validate` of the rule `validateWith` builds. */
  function Checked<T>(path: Path, errorMessage: string, test: T -> Attempt<bool>, input: Option<T>): Validation<Option<T>, ValidationError> {
    match input
    case None => FailureOf(At(path, NullMessage))
    case Some(x) =>
      match test(x)
      case Raised(fault) => FailureOf(OfFault(fault))
      case Done(holds) => if holds then Success(input) else FailureOf(At(path, errorMessage))
  }

  /** `validateWith(path, test)`: the default message. */
  function ValidateWithAt<T>(path: Path, test: T -> Attempt<bool>): Rule<Option<T>, Option<T>> {
    ValidateWith(path, DefaultMessage, test)
  }

  /** `validateWith(errorMessage, test)`: at `Root`. */
  function ValidateWithMessage<T>(errorMessage: string, test: T -> Attempt<bool>): Rule<Option<T>, Option<T>> {
    ValidateWith(Root, errorMessage, test)
  }

  /** `validateWith(test)`: the default message at `Root`. */
  function ValidateWithPredicate<T>(test: T -> Attempt<bool>): Rule<Option<T>, Option<T>> {
    ValidateWithMessage(DefaultMessage, test)
  }

  lemma ValidateWithLaws<T>(path: Path, errorMessage: string, test: T -> Attempt<bool>, input: Option<T>)
    ensures var r := ValidateWith(path, errorMessage, test)(input);
      && r.WellFormed()
      && (r.Success? <==> input.Some? && test(input.value) == Done(true))
      && (r.Success? ==> r.value == input)
      && (input.None? ==> r == Failure([At(path, NullMessage)]))
      && (input.Some? && test(input.value) == Done(false) ==> r == Failure([At(path, errorMessage)]))
      && (input.Some? && test(input.value).Raised? ==>
            r == Failure([At(Root, test(input.value).fault.message)]))
  {
  }

  /** The overloads fill in `Root` and the default message. */
  lemma ValidateWithDefaults<T>(path: Path, errorMessage: string, test: T -> Attempt<bool>, input: Option<T>)
    ensures ValidateWithAt(path, test)(input) == ValidateWith(path, "Input does not match predicate", test)(input)
    ensures ValidateWithMessage(errorMessage, test)(input) == ValidateWith(Root, errorMessage, test)(input)
    ensures ValidateWithPredicate(test)(input) == ValidateWith(Root, "Input does not match predicate", test)(input)
  {
  }
}
