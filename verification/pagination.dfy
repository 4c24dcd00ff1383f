/** MyCustomers.Application/PaginationValidator.cs and the page-size constants of
    MyCustomers.Application.Contracts/AppServiceConstants.cs. */
module Pagination {
  import opened Wrappers
  import opened Results
  import Text

  /** `AppServiceConstants.DefaultPageSize`: the page size when `take` is omitted. */
  const DefaultPageSize: int := 50

  /** `AppServiceConstants.MaxPageSize`: the largest page a caller may ask for. */
  const MaxPageSize: int := 100

  const SkipNegative := Validation("skip", "Skip cannot be negative.")
  const TakeTooSmall := Validation("take", "Take must be at least 1.")
  const TakeTooLarge := Validation("take", "Take cannot exceed " + Text.NatText(MaxPageSize) + ".")

  /** The (skip, take) pairs the application accepts: a present skip is not
      negative, a present take lies in 1..MaxPageSize. */
  predicate Acceptable(skip: Option<int>, take: Option<int>) {
    && (skip.None? || skip.value >= 0)
    && (take.None? || 1 <= take.value <= MaxPageSize)
  }

  /** `PaginationValidator.Validate`: the three checks all run and their
      failures are merged, skip first. */
  function Validate(skip: Option<int>, take: Option<int>): (r: Result<()>)
    ensures r.Ok? <==> Acceptable(skip, take)
    ensures (SkipNegative in ErrorsOf(r)) <==> skip.Some? && skip.value < 0
    ensures (TakeTooSmall in ErrorsOf(r)) <==> take.Some? && take.value < 1
    ensures (TakeTooLarge in ErrorsOf(r)) <==> take.Some? && take.value > MaxPageSize
    ensures forall e :: e in ErrorsOf(r) ==> e == SkipNegative || e == TakeTooSmall || e == TakeTooLarge
    ensures |ErrorsOf(r)| <= 2
    ensures skip.Some? && skip.value < 0 ==> ErrorsOf(r)[0] == SkipNegative
  {
    var skipResult := FailIf(skip.Some? && skip.value < 0, SkipNegative);
    var takeMinimumResult := FailIf(take.Some? && take.value < 1, TakeTooSmall);
    var takeMaximumResult := FailIf(take.Some? && take.value > MaxPageSize, TakeTooLarge);
    MergeThree(skipResult, takeMinimumResult, takeMaximumResult);
    ChecksMeaning(skip.Some? && skip.value < 0, take.Some? && take.value < 1, take.Some? && take.value > MaxPageSize);
    Merge([skipResult, takeMinimumResult, takeMaximumResult])
  }

  /** The errors of the three checks, given which of them fail. */
  function Checks(skipFails: bool, takeMinimumFails: bool, takeMaximumFails: bool): seq<Error> {
    (if skipFails then [SkipNegative] else [])
    + (if takeMinimumFails then [TakeTooSmall] else [])
    + (if takeMaximumFails then [TakeTooLarge] else [])
  }

  /** Each error is present exactly when its check fails; a take cannot be
      both too small and too large, so at most two errors arise. */
  lemma ChecksMeaning(skipFails: bool, takeMinimumFails: bool, takeMaximumFails: bool)
    requires !(takeMinimumFails && takeMaximumFails)
    ensures var errs := Checks(skipFails, takeMinimumFails, takeMaximumFails);
      && (|errs| == 0 <==> !skipFails && !takeMinimumFails && !takeMaximumFails)
      && (SkipNegative in errs <==> skipFails)
      && (TakeTooSmall in errs <==> takeMinimumFails)
      && (TakeTooLarge in errs <==> takeMaximumFails)
      && (forall e :: e in errs ==> e == SkipNegative || e == TakeTooSmall || e == TakeTooLarge)
      && |errs| <= 2
      && (skipFails ==> errs[0] == SkipNegative)
  {
    ErrorsDistinct();
  }

  lemma MergeThree(a: Result<()>, b: Result<()>, c: Result<()>)
    ensures AllErrors([a, b, c]) == ErrorsOf(a) + ErrorsOf(b) + ErrorsOf(c)
  {
    var abc, bc, cs: seq<Result<()>> := [a, b, c], [b, c], [c];
    var ea, eb, ec := ErrorsOf(a), ErrorsOf(b), ErrorsOf(c);
    assert abc[1..] == bc && bc[1..] == cs && cs[1..] == [];
    assert AllErrors(cs) == ec by { assert ec + [] == ec; }
    assert AllErrors(bc) == eb + ec;
    assert AllErrors(abc) == ea + (eb + ec);
    assert ea + (eb + ec) == ea + eb + ec;
  }

  /** The three pagination errors are told apart: by field, and the two take
      errors by message. */
  lemma ErrorsDistinct()
    ensures SkipNegative != TakeTooSmall && SkipNegative != TakeTooLarge && TakeTooSmall != TakeTooLarge
  {
    assert SkipNegative.field[0] == 's' && TakeTooSmall.field[0] == 't' && TakeTooLarge.field[0] == 't';
    assert TakeTooSmall.message[5] == 'm';
    TakeTooLargeMessage();
    assert TakeTooLarge.message[5] == 'c';
  }

  /** The skip error names `skip`, both take errors name `take`. */
  lemma ErrorFields()
    ensures SkipNegative.field == "skip" && TakeTooSmall.field == "take" && TakeTooLarge.field == "take"
    ensures "skip" != "take"
  {
    assert "skip"[0] != "take"[0];
  }

  /** The maximum-size message spells out the constant: "Take cannot exceed 100.". */
  lemma TakeTooLargeMessage()
    ensures TakeTooLarge.message == "Take cannot exceed 100."
  {
    assert Text.NatText(10) == "10";
    assert Text.NatText(100) == "100";
  }

  /** The boundary values: 0 and 101 are refused as a take, 1 and 100 accepted,
      -1 refused as a skip; both parameters absent is a success. */
  lemma ValidateBoundaries()
    ensures Validate(None, None).Ok?
    ensures Validate(None, Some(0)).Fail? && Validate(None, Some(101)).Fail?
    ensures Validate(None, Some(1)).Ok? && Validate(None, Some(100)).Ok?
    ensures Validate(Some(-1), None) == Fail([SkipNegative])
    ensures Validate(Some(0), Some(50)).Ok?
  {
  }

  /** The default page a successful validation leads to. */
  function Defaults(skip: Option<int>, take: Option<int>): (p: (nat, nat))
    requires Acceptable(skip, take)
    ensures p.0 == (if skip.Some? then skip.value else 0)
    ensures p.1 == (if take.Some? then take.value else DefaultPageSize)
    ensures 1 <= p.1 <= MaxPageSize
  {
    (skip.GetOr(0), take.GetOr(DefaultPageSize))
  }
}
