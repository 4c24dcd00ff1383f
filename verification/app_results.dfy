/** MyCustomers.Application/Results/ResultExtensions.cs: the error priority the
    application services apply before handing a failed result to the web
    layer. A not-found error beats validation errors, which beat everything
    else. */
module AppResults {
  import opened Wrappers
  import opened Seqs
  import opened Results

  ghost predicate HasNotFound(errs: seq<Error>) {
    exists i :: 0 <= i < |errs| && errs[i].NotFound?
  }

  ghost predicate HasValidation(errs: seq<Error>) {
    exists i :: 0 <= i < |errs| && errs[i].Validation?
  }

  /** `k` is the position of the first not-found error. */
  ghost predicate FirstNotFoundAt(errs: seq<Error>, k: int) {
    && 0 <= k < |errs|
    && errs[k].NotFound?
    && forall j :: 0 <= j < k ==> !errs[j].NotFound?
  }

  /** `MapErrorsToAppServiceResult`. */
  function MapErrorsToAppServiceResult(r: Result<()>): (m: Result<()>)
    ensures r.Ok? ==> m == r
    ensures r.Fail? ==> m.Fail? && IsSubsequence(m.errors, r.errors)
    ensures r.Fail? && HasNotFound(r.errors) ==>
      exists k :: FirstNotFoundAt(r.errors, k) && m.errors == [r.errors[k]]
    ensures r.Fail? && !HasNotFound(r.errors) && HasValidation(r.errors) ==>
      && (forall i :: 0 <= i < |m.errors| ==> m.errors[i].Validation?)
      && (forall i :: 0 <= i < |r.errors| && r.errors[i].Validation? ==> r.errors[i] in m.errors)
      && |m.errors| == Count(r.errors, IsValidation)
    ensures r.Fail? && !HasNotFound(r.errors) && !HasValidation(r.errors) ==> m == r
  {
    if r.Ok? then r
    else match FirstIndex(r.errors, IsNotFound)
      case Some(k) =>
        SubsequenceSingleton(r.errors, k);
        Fail([r.errors[k]])
      case None =>
        var validationErrors := Filter(r.errors, IsValidation);
        FilterIsSubsequence(r.errors, IsValidation);
        FilterLength(r.errors, IsValidation);
        SubsequenceReflexive(r.errors);
        if |validationErrors| > 0 then Fail(validationErrors) else r
  }

  /** A single element of a sequence is a subsequence of it. */
  lemma {:induction false} SubsequenceSingleton<T>(s: seq<T>, k: nat)
    requires k < |s|
    ensures IsSubsequence([s[k]], s)
  {
    if k > 0 && s[0] != s[k] {
      SubsequenceSingleton(s[1..], k - 1);
      assert s[1..][k - 1] == s[k];
    }
  }

  /** Mapping an already mapped result changes nothing. */
  lemma MapErrorsToAppServiceResultIdempotent(r: Result<()>)
    ensures MapErrorsToAppServiceResult(MapErrorsToAppServiceResult(r)) == MapErrorsToAppServiceResult(r)
  {
    var m := MapErrorsToAppServiceResult(r);
    if r.Fail? {
      match FirstIndex(r.errors, IsNotFound)
      case Some(k) =>
        assert m.errors == [r.errors[k]];
        assert FirstIndex(m.errors, IsNotFound) == Some(0);
      case None =>
        var validationErrors := Filter(r.errors, IsValidation);
        if |validationErrors| > 0 {
          assert m.errors == validationErrors;
          assert FirstIndex(m.errors, IsNotFound).None?;
          FilterAllPass(m.errors, IsValidation);
        }
    }
  }
}
