/** The success/failure result type that the validating factories are built on
    ("railway oriented programming"): a value is either on the success track,
    carrying a payload, or on the failure track, carrying the message of the
    first rule it broke. Every combinator returns a new value; nothing is
    updated in place. */
module Results {

  /** Exactly one of `value` and `error` exists: the two constructors are the
      only states. Reading `value` of a failure (or `error` of a success) is a
      precondition violation of the destructor. */
  datatype Result<T> = Success(value: T) | Failure(error: string) {

    predicate IsSuccess() { Success? }

    predicate IsFailure() { Failure? }

    /** Entry point of a pipeline: a value that needs no validation yet. */
    static function Create(value: T): (r: Result<T>)
      ensures r.IsSuccess() && !r.IsFailure()
      ensures r.value == value
    {
      Success(value)
    }

    /** Keeps a success whose payload satisfies `pred`, turns one that does not
        into `Failure(err)`, and passes a failure through without looking at
        `pred` at all. */
    function Ensure(pred: T -> bool, err: string): (r: Result<T>)
      ensures r.Success? <==> Success? && pred(value)
      ensures r.Success? ==> r == this
      ensures Failure? ==> r == this
      ensures Success? && !pred(value) ==> r.error == err
    {
      if Failure? || pred(value) then this else Failure(err)
    }

    /** Monadic bind: a success hands its payload to `f` and returns whatever
        `f` returns; a failure is re-typed with the same error and `f` is not
        applied. */
    function Map<U>(f: T -> Result<U>): (r: Result<U>)
      ensures Failure? ==> r.Failure? && r.error == error
      ensures Success? ==> r == f(value)
    {
      match this
      case Success(v) => f(v)
      case Failure(e) => Failure(e)
    }
  }

  /** One validation rule of a pipeline: the predicate a payload must satisfy
      and the message reported when it does not. */
  datatype Rule<!T> = Rule(holds: T -> bool, message: string)

  /** `r.Ensure(rules[0]...).Ensure(rules[1]...)...`: a chain of `Ensure` calls
      applied left to right, as the factories write them. */
  function EnsureAll<T>(r: Result<T>, rules: seq<Rule<T>>): (s: Result<T>)
    decreases |rules|
    // short-circuit: once failed, later rules leave the original error as it was
    ensures r.Failure? ==> s == r
    ensures s.Success? ==> s == r
  {
    if rules == [] then r
    else EnsureAll(r.Ensure(rules[0].holds, rules[0].message), rules[1..])
  }

  /** Every rule of the chain accepts `v`. */
  predicate AllHold<T>(v: T, rules: seq<Rule<T>>)
  {
    forall k :: 0 <= k < |rules| ==> rules[k].holds(v)
  }

  /** A chain started on a success stays a success, with the same payload,
      exactly when every rule holds of that payload. */
  lemma {:induction false} ChainSucceedsIff<T>(v: T, rules: seq<Rule<T>>)
    ensures EnsureAll(Success(v), rules).Success? <==> AllHold(v, rules)
    ensures AllHold(v, rules) ==> EnsureAll(Success(v), rules) == Success(v)
  {
    if rules != [] {
      if rules[0].holds(v) {
        ChainSucceedsIff(v, rules[1..]);
        assert AllHold(v, rules) <==> AllHold(v, rules[1..]) by {
          if AllHold(v, rules[1..]) {
            forall k | 0 <= k < |rules| ensures rules[k].holds(v) {
              if k > 0 { assert rules[k] == rules[1..][k - 1]; }
            }
          }
        }
      }
    }
  }

  /** First-failure-wins: when rule `k` is the first rule that rejects `v`, the
      chain reports rule `k`'s message, not that of any later rule. */
  lemma {:induction false} FirstFailureWins<T>(v: T, rules: seq<Rule<T>>, k: nat)
    requires k < |rules|
    requires !rules[k].holds(v)
    requires forall m :: 0 <= m < k ==> rules[m].holds(v)
    ensures EnsureAll(Success(v), rules) == Failure(rules[k].message)
  {
    if k > 0 {
      assert rules[0].holds(v);
      forall m | 0 <= m < k - 1 ensures rules[1..][m].holds(v) {
        assert rules[1..][m] == rules[m + 1];
      }
      FirstFailureWins(v, rules[1..], k - 1);
    }
  }
}
