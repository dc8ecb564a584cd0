/** Shared vocabulary: the exceptions the Python code raises, a failure-compatible
    Result, and order-preserving selection over sequences (the shape of every
    filter in the system). */
module Common {

  datatype Option<+T> = None | Some(value: T)

  /** The exceptions raised by the modelled code, one constructor per cause. */
  datatype Error =
    | InvalidCharacters   // ValueError raised by a sequence constructor
    | Unsupported         // AttributeError: the variant has no such method
    | EmptySequence       // ValueError "Sequence is empty"
    | InvalidAlphabet     // ValueError raised by validate_protein's alphabet check
    | MissingStartCodon   // ValueError "Sequence does not start with methionine (M)"
    | TooShort            // ValueError "Sequence is too short to be a valid protein"
    | UnmappedCharacter   // KeyError of a dictionary lookup
    | DivisionByZero      // ZeroDivisionError
    | MissingField        // IndexError of split(...)[1]

  datatype Result<+T> = Ok(value: T) | Err(error: Error) {
    predicate IsFailure() { Err? }

    function PropagateFailure<U>(): Result<U>
      requires Err?
    {
      Err(error)
    }

    function Extract(): T
      requires Ok?
    {
      value
    }
  }

  function Min(a: int, b: int): int { if a <= b then a else b }

  function Max(a: int, b: int): int { if a <= b then b else a }

  /** sum(xs) */
  function Sum(xs: seq<int>): int
  {
    if xs == [] then 0 else Sum(xs[..|xs| - 1]) + xs[|xs| - 1]
  }

  predicate Distinct<T(==)>(xs: seq<T>)
  {
    forall i, j :: 0 <= i < j < |xs| ==> xs[i] != xs[j]
  }

  /** The elements of xs that satisfy p, in their original order. */
  function Filter<T(==,!new)>(xs: seq<T>, p: T -> bool): (r: seq<T>)
    ensures |r| <= |xs|
  {
    if xs == [] then []
    else
      var init := Filter(xs[..|xs| - 1], p);
      if p(xs[|xs| - 1]) then init + [xs[|xs| - 1]] else init
  }

  /** The selection holds exactly the elements of xs that satisfy p. */
  lemma {:induction false} FilterMembers<T(!new)>(xs: seq<T>, p: T -> bool)
    ensures forall x :: x in Filter(xs, p) <==> x in xs && p(x)
    ensures forall k :: 0 <= k < |Filter(xs, p)| ==> Filter(xs, p)[k] in xs && p(Filter(xs, p)[k])
  {
    if xs != [] {
      FilterMembers(xs[..|xs| - 1], p);
      assert forall x :: x in xs <==> x in xs[..|xs| - 1] || x == xs[|xs| - 1];
    }
  }

  /** a can be obtained from b by deleting elements. */
  predicate IsSubsequence<T(==)>(a: seq<T>, b: seq<T>)
    decreases |b|
  {
    a == []
    || (b != []
        && ((a[|a| - 1] == b[|b| - 1] && IsSubsequence(a[..|a| - 1], b[..|b| - 1]))
            || IsSubsequence(a, b[..|b| - 1])))
  }

  lemma FilterSnoc<T(!new)>(xs: seq<T>, x: T, p: T -> bool)
    ensures Filter(xs + [x], p) == if p(x) then Filter(xs, p) + [x] else Filter(xs, p)
  {
    assert (xs + [x])[..|xs|] == xs;
  }

  /** Every filter keeps an order-preserving selection of its input. */
  lemma {:induction false} FilterIsSubsequence<T(!new)>(xs: seq<T>, p: T -> bool)
    ensures IsSubsequence(Filter(xs, p), xs)
  {
    if xs != [] {
      var init := xs[..|xs| - 1];
      FilterIsSubsequence(init, p);
      var r := Filter(xs, p);
      if p(xs[|xs| - 1]) {
        assert r[..|r| - 1] == Filter(init, p);
      } else if r != [] {
        assert r == Filter(init, p);
      }
    }
  }

  /** Selecting a second time with the same predicate keeps everything. */
  lemma {:induction false} FilterIdempotent<T(!new)>(xs: seq<T>, p: T -> bool)
    ensures Filter(Filter(xs, p), p) == Filter(xs, p)
  {
    if xs != [] {
      var init := xs[..|xs| - 1];
      FilterIdempotent(init, p);
      if p(xs[|xs| - 1]) {
        FilterSnoc(Filter(init, p), xs[|xs| - 1], p);
      }
    }
  }

  /** When every element passes, the selection is the whole input. */
  lemma {:induction false} FilterAll<T(!new)>(xs: seq<T>, p: T -> bool)
    requires forall i :: 0 <= i < |xs| ==> p(xs[i])
    ensures Filter(xs, p) == xs
  {
    if xs != [] {
      FilterAll(xs[..|xs| - 1], p);
    }
  }

  /** A sum of non-negative numbers is non-negative. */
  lemma {:induction false} SumNonNegative(xs: seq<int>)
    requires forall i :: 0 <= i < |xs| ==> xs[i] >= 0
    ensures Sum(xs) >= 0
  {
    if xs != [] {
      SumNonNegative(xs[..|xs| - 1]);
    }
  }

  /** The sum of n copies of v. */
  lemma {:induction false} SumConstant(xs: seq<int>, v: int)
    requires forall i :: 0 <= i < |xs| ==> xs[i] == v
    ensures Sum(xs) == |xs| * v
  {
    if xs != [] {
      SumConstant(xs[..|xs| - 1], v);
    }
  }
}
