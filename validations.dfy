/** `Validation`, with its two variants `ValidationSuccess` and `ValidationFailure`, the
    combinators on it, and the static helpers `repath` and `withValidations`. */
module Validations {
  import opened Wrappers
  import opened Paths
  import opened Errors

  /** A validation either holds the validated value or the ordered list of its errors. */
  datatype Validation<T, E> = Success(value: T) | Failure(errors: seq<E>)
  {
    /** Every failure the library itself builds carries at least one error; `failure(List)`
        accepts an empty list, so this is a property of results, not of the type. */
    predicate WellFormed() {
      Failure? ==> |errors| > 0
    }

    /** `getSuccess()`; a failure throws, so callers must hold a success. */
    function GetSuccess(): T
      requires Success?
    {
      value
    }

    /** `getFailures()`; a success throws, so callers must hold a failure. */
    function GetFailures(): seq<E>
      requires Failure?
    {
      errors
    }

    /** `asSuccess()`: the receiver itself when it is a success. */
    function AsSuccess(): Option<Validation<T, E>> {
      if Success? then Some(this) else None
    }

    /** `asFailure()`: the receiver itself when it is a failure. */
    function AsFailure(): Option<Validation<T, E>> {
      if Failure? then Some(this) else None
    }

    /** `toSuccess()`, that is `asSuccess().get()`. */
    function ToSuccess(): Validation<T, E>
      requires Success?
    {
      AsSuccess().value
    }

    /** `toFailure()`, that is `asFailure().get()`. */
    function ToFailure(): Validation<T, E>
      requires Failure?
    {
      AsFailure().value
    }

    /** `onFailure()`: the error list of a failure. */
    function OnFailure(): Option<seq<E>> {
      if Failure? then Some(errors) else None
    }

    /** `onSuccess()` and `asOption()`: the value of a success. */
    function OnSuccess(): Option<T> {
      if Failure? then None else Some(value)
    }

    /** `get()`, that is `asOption().get()`. */
    function Get(): T
      requires Success?
    {
      OnSuccess().value
    }

    /** `getOrElse(t)`. */
    function GetOrElse(t: T): T {
      match OnSuccess()
      case Some(v) => v
      case None => t
    }

    /** `orElse(t)`: a success wins, otherwise the alternative as it is. */
    function OrElse(t: Validation<T, E>): Validation<T, E> {
      if Success? then this else t
    }

    /** `map(f)`. */
    function Map<X>(f: T -> X): Validation<X, E> {
      if Success? then Success(f(value)) else Failure(errors)
    }

    /** `flatMap(f)`. */
    function FlatMap<X>(f: T -> Validation<X, E>): Validation<X, E> {
      if Success? then f(value) else Failure(errors)
    }

    /** `fold(invalid, valid)`. */
    function Fold<X>(invalid: seq<E> -> X, valid: T -> X): X {
      if Success? then valid(value) else invalid(errors)
    }

    /** `collect(otherwise, f)`: a value `f` maps to nothing (or to `null`) becomes the
        single error `otherwise`. */
    function Collect<X>(otherwise: E, f: T -> Option<X>): Validation<X, E> {
      if Success? then
        match f(value)
        case None => Failure([otherwise])
        case Some(x) => Success(x)
      else Failure(errors)
    }

    /** `filter(p)`. A success whose value fails `p` makes the source call `getFailures()` on
        a success, which throws; callers must not reach that case. */
    function Filter(p: T -> bool): Validation<T, E>
      requires Success? ==> p(value)
    {
      if Success? then Success(value) else Failure(errors)
    }

    /** `filterNot(p)` as evidently intended: `filter` with the negated predicate. */
    function FilterNot(p: T -> bool): Validation<T, E>
      requires Success? ==> !p(value)
    {
      Filter(x => !p(x))
    }

    /** `filterNot(p)` as written: it calls itself with the negated predicate and never
        returns. `depth` is the stack the call may use; `None` is the stack overflow. */
    function FilterNotAsWritten(p: T -> bool, depth: nat): Option<Validation<T, E>> {
      if depth == 0 then None else FilterNotAsWritten(x => !p(x), depth - 1)
    }

    /** `recover(f)`: a failure that `f` maps to a value becomes a success. */
    function Recover(f: seq<E> -> Option<T>): Validation<T, E> {
      if Failure? then
        match f(errors)
        case Some(v) => Success(v)
        case None => this
      else Success(Get())
    }

    /** `recoverWith(f)`: every failure becomes a success. */
    function RecoverWith(f: seq<E> -> T): Validation<T, E> {
      if Failure? then Success(f(errors)) else Success(Get())
    }
  }

  /** `Validation.failure(e)`: a failure with exactly one error. */
  function FailureOf<T, E>(e: E): (r: Validation<T, E>)
    ensures r.Failure? && r.errors == [e] && r.WellFormed()
  {
    Failure([e])
  }

  /** The errors a validation contributes when its failures are collected: none for a success. */
  function ErrorsOf<T, E>(v: Validation<T, E>): seq<E> {
    if v.Failure? then v.errors else []
  }

  // ---------------------------------------------------------------------------
  // The two variants

  /** A success answers as a success, holds its value unchanged and has no failure. */
  lemma SuccessVariant<T, E>(x: T, t: T)
    ensures var v: Validation<T, E> := Success(x);
      && !v.Failure? && v.GetSuccess() == x && v.Get() == x && v.GetOrElse(t) == x
      && v.AsSuccess() == Some(v) && v.AsFailure() == None && v.ToSuccess() == v
      && v.OnSuccess() == Some(x) && v.OnFailure() == None && ErrorsOf(v) == []
  {
  }

  /** A failure answers as a failure, holds exactly its error list and has no value. */
  lemma FailureVariant<T, E>(es: seq<E>, t: T)
    ensures var v: Validation<T, E> := Failure(es);
      && !v.Success? && v.GetFailures() == es && v.GetOrElse(t) == t
      && v.AsFailure() == Some(v) && v.AsSuccess() == None && v.ToFailure() == v
      && v.OnFailure() == Some(es) && v.OnSuccess() == None && ErrorsOf(v) == es
  {
  }

  // ---------------------------------------------------------------------------
  // Laws of the combinators

  /** `map` is a functor: the identity changes nothing, and maps compose. */
  lemma MapLaws<T, E, X, Y>(v: Validation<T, E>, f: T -> X, g: X -> Y)
    ensures v.Map(x => x) == v
    ensures v.Map(f).Map(g) == v.Map(x => g(f(x)))
    ensures v.Failure? ==> v.Map(f).errors == v.errors
  {
  }

  /** `flatMap` is a monad bind with `success` as unit, and `map` is a bind into `success`. */
  lemma FlatMapLaws<T, E, X, Y>(x: T, v: Validation<T, E>, f: T -> Validation<X, E>, g: X -> Validation<Y, E>)
    ensures Success(x).FlatMap(f) == f(x)
    ensures v.FlatMap(y => Success(y)) == v
    ensures v.FlatMap(f).FlatMap(g) == v.FlatMap(y => f(y).FlatMap(g))
    ensures v.Failure? ==> v.FlatMap(f) == Failure(v.errors)
  {
  }

  lemma MapIsFlatMap<T, E, X>(v: Validation<T, E>, f: T -> X)
    ensures v.Map(f) == v.FlatMap(y => Success(f(y)))
  {
  }

  /** `orElse` keeps the first success; between two failures the second wins and the errors
      are not merged; it is associative. */
  lemma OrElseLaws<T, E>(a: Validation<T, E>, b: Validation<T, E>, c: Validation<T, E>)
    ensures a.Success? ==> a.OrElse(b) == a
    ensures a.Failure? ==> a.OrElse(b) == b
    ensures a.OrElse(b).Success? <==> a.Success? || b.Success?
    ensures a.OrElse(b).OrElse(c) == a.OrElse(b.OrElse(c))
  {
  }

  /** `fold` runs exactly one branch; folding into the two constructors rebuilds the validation. */
  lemma FoldLaws<T, E, X>(v: Validation<T, E>, invalid: seq<E> -> X, valid: T -> X)
    ensures v.Success? ==> v.Fold(invalid, valid) == valid(v.value)
    ensures v.Failure? ==> v.Fold(invalid, valid) == invalid(v.errors)
    ensures v.Fold(es => Failure(es), y => Success(y)) == v
  {
  }

  /** `collect` with a total function is `map`; a value it rejects is the single `otherwise`. */
  lemma CollectLaws<T, E, X>(v: Validation<T, E>, otherwise: E, f: T -> X, g: T -> Option<X>)
    ensures v.Collect(otherwise, y => Some(f(y))) == v.Map(f)
    ensures v.Success? && g(v.value).Some? ==> v.Collect(otherwise, g) == Success(g(v.value).value)
    ensures v.Success? && g(v.value).None? ==> v.Collect(otherwise, g) == FailureOf(otherwise)
    ensures v.Failure? ==> v.Collect(otherwise, g) == Failure(v.errors)
    ensures v.WellFormed() ==> v.Collect(otherwise, g).WellFormed()
  {
  }

  /** `filter` lets through what it may be given unchanged; `filterNot` is its complement. */
  lemma FilterLaws<T, E>(v: Validation<T, E>, p: T -> bool)
    requires v.Success? ==> p(v.value)
    ensures v.Filter(p) == v
    ensures v.Success? ==> v.FilterNot(x => !p(x)) == v
  {
  }

  /** The source's `filterNot` overflows the stack whatever stack it is given. */
  lemma {:induction false} FilterNotAsWrittenNeverReturns<T, E>(v: Validation<T, E>, p: T -> bool, depth: nat)
    ensures v.FilterNotAsWritten(p, depth) == None
  {
    if depth > 0 {
      FilterNotAsWrittenNeverReturns(v, x => !p(x), depth - 1);
    }
  }

  /** `recover`: a success keeps its value; a failure becomes the value `f` offers, or stays
      the same failure when `f` offers none. `recoverWith` always succeeds. */
  lemma RecoverLaws<T, E>(v: Validation<T, E>, f: seq<E> -> Option<T>, g: seq<E> -> T)
    ensures v.Success? ==> v.Recover(f) == v && v.RecoverWith(g) == v
    ensures v.Failure? && f(v.errors).Some? ==> v.Recover(f) == Success(f(v.errors).value)
    ensures v.Failure? && f(v.errors).None? ==> v.Recover(f) == v
    ensures v.Recover(f).Failure? <==> v.Failure? && f(v.errors).None?
    ensures v.RecoverWith(g).Success?
    ensures v.Recover(es => Some(g(es))) == v.RecoverWith(g)
  {
  }

  // ---------------------------------------------------------------------------
  // Static `repath`

  /** The messages of a list of errors, in order. */
  function Messages(errs: seq<ValidationError>): (r: seq<string>)
    ensures |r| == |errs|
    ensures forall i :: 0 <= i < |errs| ==> r[i] == errs[i].message
  {
    if |errs| == 0 then [] else [errs[0].message] + Messages(errs[1..])
  }

  /** Every error moved to `path`, messages kept. */
  function AllAt(errs: seq<ValidationError>, path: Path): (r: seq<ValidationError>)
    ensures Messages(r) == Messages(errs)
    ensures forall i :: 0 <= i < |r| ==> r[i].path == path
  {
    if |errs| == 0 then [] else [At(path, errs[0].message)] + AllAt(errs[1..], path)
  }

  /** An error list is determined by its messages and its paths. */
  lemma ErrorsDetermined(a: seq<ValidationError>, b: seq<ValidationError>)
    requires Messages(a) == Messages(b)
    requires forall i :: 0 <= i < |a| && i < |b| ==> a[i].path == b[i].path
    ensures a == b
  {
    assert |a| == |Messages(a)|;
    forall i | 0 <= i < |a| ensures a[i] == b[i] {
      assert a[i].message == Messages(a)[i];
    }
  }

  /** `Validation.repath(v, path)`: a success as it is; a failure with every error at `path`. */
  function Repath<T>(v: Validation<T, ValidationError>, path: Path): Validation<T, ValidationError> {
    if v.Success? then v else Failure(AllAt(v.errors, path))
  }

  /** `repath` keeps the outcome, the number of errors and their messages, and sets every path. */
  lemma RepathLaws<T>(v: Validation<T, ValidationError>, path: Path)
    ensures Repath(v, path).Success? <==> v.Success?
    ensures v.Success? ==> Repath(v, path) == v
    ensures v.Failure? ==> |Repath(v, path).errors| == |v.errors|
    ensures v.Failure? ==> Messages(Repath(v, path).errors) == Messages(v.errors)
    ensures v.Failure? ==> forall e :: e in Repath(v, path).errors ==> e.path == path
    ensures v.WellFormed() ==> Repath(v, path).WellFormed()
  {
    if v.Failure? {
      assert |Messages(Repath(v, path).errors)| == |Messages(v.errors)|;
    }
  }

  /** The last `repath` wins. */
  lemma RepathTwice<T>(v: Validation<T, ValidationError>, p: Path, q: Path)
    ensures Repath(Repath(v, p), q) == Repath(v, q)
  {
    if v.Failure? {
      ErrorsDetermined(AllAt(AllAt(v.errors, p), q), AllAt(v.errors, q));
    }
  }

  // ---------------------------------------------------------------------------
  // `ContextualValidation.withValidations`

  /** The failures of the sub-validations, concatenated in argument order. */
  function AllErrors<X, E>(subs: seq<Validation<X, E>>): seq<E> {
    if |subs| == 0 then [] else AllErrors(subs[..|subs| - 1]) + ErrorsOf(subs[|subs| - 1])
  }

  /** What `withValidations` answers: the input when no sub-validation contributed an error,
      otherwise all their errors. */
  function Accumulated<T, X, E>(input: T, subs: seq<Validation<X, E>>): Validation<T, E> {
    var failures := AllErrors(subs);
    if |failures| == 0 then Success(input) else Failure(failures)
  }

  /** `Validation.of(input)` and `Validation.globalFor(input)`: the input, waiting for its
      sub-validations. */
  datatype ContextualValidation<T> = ContextualValidation(input: T)
  {
    /** `withValidations(subs...)`: one pass over the sub-validations that appends each
        failure list to a local list. */
    method WithValidations<X, E>(subs: seq<Validation<X, E>>) returns (r: Validation<T, E>)
      ensures r == Accumulated(input, subs)
    {
      var failures: seq<E> := [];
      for i := 0 to |subs|
        invariant failures == AllErrors(subs[..i])
      {
        assert subs[..i + 1][..i] == subs[..i];
        match subs[i].OnFailure() {
          case Some(failureList) => failures := failures + failureList;
          case None =>
        }
      }
      assert subs[..|subs|] == subs;
      if |failures| == 0 {
        return Success(input);
      }
      return Failure(failures);
    }
  }

  /** Collecting the failures of two runs of sub-validations is concatenating them. */
  lemma {:induction false} AllErrorsAppend<X, E>(a: seq<Validation<X, E>>, b: seq<Validation<X, E>>)
    ensures AllErrors(a + b) == AllErrors(a) + AllErrors(b)
    decreases |b|
  {
    if |b| == 0 {
      assert a + b == a;
    } else {
      var init := b[..|b| - 1];
      assert (a + b)[..|a + b| - 1] == a + init;
      AllErrorsAppend(a, init);
    }
  }

  /** An error is collected exactly when some sub-validation failed with it. */
  lemma {:induction false} AllErrorsMembers<X, E>(subs: seq<Validation<X, E>>, e: E)
    ensures e in AllErrors(subs) <==> exists i :: 0 <= i < |subs| && subs[i].Failure? && e in subs[i].errors
  {
    if |subs| > 0 {
      var init := subs[..|subs| - 1];
      AllErrorsMembers(init, e);
      if e in AllErrors(init) {
        var i :| 0 <= i < |init| && init[i].Failure? && e in init[i].errors;
        assert subs[i] == init[i];
      }
      if exists i :: 0 <= i < |subs| && subs[i].Failure? && e in subs[i].errors {
        var i :| 0 <= i < |subs| && subs[i].Failure? && e in subs[i].errors;
        if i < |subs| - 1 {
          assert init[i] == subs[i];
        }
      }
    }
  }

  /** No errors are collected exactly when no sub-validation contributes one. */
  lemma {:induction false} AllErrorsEmpty<X, E>(subs: seq<Validation<X, E>>)
    ensures AllErrors(subs) == [] <==> forall i :: 0 <= i < |subs| ==> ErrorsOf(subs[i]) == []
  {
    if |subs| > 0 {
      var init := subs[..|subs| - 1];
      AllErrorsEmpty(init);
      if AllErrors(subs) == [] {
        forall i | 0 <= i < |subs| ensures ErrorsOf(subs[i]) == [] {
          if i < |subs| - 1 {
            assert subs[i] == init[i];
          }
        }
      }
    }
  }

  /** `withValidations` succeeds, with the input itself, exactly when no sub-validation
      failed (the library's failures are never empty); otherwise its errors are the
      concatenation of all the failure lists in argument order. */
  lemma AccumulatedLaws<T, X, E>(input: T, subs: seq<Validation<X, E>>)
    requires forall i :: 0 <= i < |subs| ==> subs[i].WellFormed()
    ensures Accumulated(input, subs).Success? <==> forall i :: 0 <= i < |subs| ==> subs[i].Success?
    ensures Accumulated(input, subs).Success? ==> Accumulated(input, subs).value == input
    ensures Accumulated(input, subs).Failure? ==> Accumulated(input, subs).errors == AllErrors(subs)
    ensures Accumulated(input, subs).WellFormed()
  {
    AllErrorsEmpty(subs);
  }

  /** Splitting the sub-validations in two: the errors of the first come first. */
  lemma AccumulatedSplit<T, X, E>(input: T, a: seq<Validation<X, E>>, b: seq<Validation<X, E>>)
    requires Accumulated(input, a).Failure? && Accumulated(input, b).Failure?
    ensures Accumulated(input, a + b).Failure?
    ensures Accumulated(input, a + b).errors == Accumulated(input, a).errors + Accumulated(input, b).errors
  {
    AllErrorsAppend(a, b);
  }
}
