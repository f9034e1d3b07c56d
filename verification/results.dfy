/** Failure-compatible wrappers shared by the whole model. Each `Error`
    case stands for an exception raised by glyp_ref_gen.py, png_to_gyph.py or
    art_utils.py, or for a case the model treats as one. */
module Results {

  /** The exceptions the modelled code can raise. */
  datatype Error =
    | EmptyRange(lo: int, hi: int)   // random.randint(lo, hi) with hi < lo: ValueError
    | NoContours                     // np.vstack / min over no points: ValueError
    | DegenerateBox                  // zero width and zero height: the offsets become NaN; modelled as a failure
    | NoSamples                      // scores[0] on an empty score list: IndexError

  datatype Result<+T> = Success(value: T) | Failure(error: Error) {

    predicate IsFailure() {
      Failure?
    }

    function PropagateFailure<U>(): Result<U>
      requires Failure?
    {
      Failure(error)
    }

    function Extract(): T
      requires Success?
    {
      value
    }
  }

  /** A loop of n iterations whose body can raise: the values of iterations
      0 to n-1 in order, or the error of the first iteration that raises. */
  function Collect<T>(body: nat -> Result<T>, n: nat): Result<seq<T>> {
    if n == 0 then Success([])
    else
      var pre :- Collect(body, n - 1);
      var x :- body(n - 1);
      Success(pre + [x])
  }

  /** The loop completes exactly when every iteration does, and then value i
      is iteration i's; otherwise it raises the first iteration's error. */
  lemma {:induction false} CollectSpec<T>(body: nat -> Result<T>, n: nat)
    ensures Collect(body, n).Success? <==> forall i :: 0 <= i < n ==> body(i).Success?
    ensures Collect(body, n).Success? ==>
      |Collect(body, n).value| == n && forall i :: 0 <= i < n ==> body(i) == Success(Collect(body, n).value[i])
    ensures Collect(body, n).Failure? ==>
      exists j :: 0 <= j < n && body(j).Failure? && Collect(body, n).error == body(j).error
        && forall i :: 0 <= i < j ==> body(i).Success?
  {
    if n > 0 {
      CollectSpec(body, n - 1);
      var r := Collect(body, n);
      var pre := Collect(body, n - 1);
      if pre.Success? && r.Success? {
        assert r.value == pre.value + [body(n - 1).value];
        forall i | 0 <= i < n
          ensures body(i) == Success(r.value[i])
        {
          if i < n - 1 {
            assert r.value[i] == pre.value[i];
          }
        }
      } else if pre.Success? {
        assert body(n - 1).Failure? && r.error == body(n - 1).error;
      }
    }
  }

  /** Iterations that agree give loops that agree. */
  lemma {:induction false} CollectCongruent<T>(body: nat -> Result<T>, body': nat -> Result<T>, n: nat)
    requires forall i :: 0 <= i < n ==> body(i) == body'(i)
    ensures Collect(body, n) == Collect(body', n)
  {
    if n > 0 {
      CollectCongruent(body, body', n - 1);
    }
  }
}
