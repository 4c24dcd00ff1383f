/** MyCustomers.WebApi/Results/ResultExtensions.cs: the field-to-messages
    dictionary that becomes the body of a validation problem response. */
module ValidationDictionary {
  import opened Seqs
  import opened Results

  /** Reference definition: the messages of the validation errors that name
      `field`, in the order the errors occur. */
  function MessagesFor(errs: seq<Error>, field: string): seq<string> {
    if |errs| == 0 then []
    else (if errs[0].Validation? && errs[0].field == field then [errs[0].message] else [])
         + MessagesFor(errs[1..], field)
  }

  /** Some validation error names `field`. */
  ghost predicate NamesField(errs: seq<Error>, field: string) {
    exists i :: 0 <= i < |errs| && errs[i].Validation? && errs[i].field == field
  }

  /** Whether a non-empty list names `field`, decided on its head and tail. */
  lemma NamesFieldUnfold(errs: seq<Error>, field: string)
    requires |errs| > 0
    ensures NamesField(errs, field) <==>
      (errs[0].Validation? && errs[0].field == field) || NamesField(errs[1..], field)
  {
    if NamesField(errs, field) && !(errs[0].Validation? && errs[0].field == field) {
      var i :| 0 <= i < |errs| && errs[i].Validation? && errs[i].field == field;
      assert errs[1..][i - 1] == errs[i];
    }
    if NamesField(errs[1..], field) {
      var i :| 0 <= i < |errs[1..]| && errs[1..][i].Validation? && errs[1..][i].field == field;
      assert errs[i + 1] == errs[1..][i];
    }
  }

  /** A field has messages exactly when some validation error names it. */
  lemma {:induction false} NamesFieldIffMessages(errs: seq<Error>, field: string)
    ensures NamesField(errs, field) <==> |MessagesFor(errs, field)| > 0
  {
    if |errs| > 0 {
      NamesFieldUnfold(errs, field);
      NamesFieldIffMessages(errs[1..], field);
    }
  }

  /** `GroupBy(e => e.Field).ToDictionary(g => g.Key, g => g.Select(e => e.Message))`
      over the validation errors, built from the back of the list. */
  function GroupByField(errs: seq<Error>): map<string, seq<string>> {
    if |errs| == 0 then map[]
    else
      var rest := GroupByField(errs[1..]);
      var e := errs[0];
      if e.Validation? then
        rest[e.field := [e.message] + (if e.field in rest then rest[e.field] else [])]
      else rest
  }

  /** The grouping agrees with the reference definition: its keys are the
      named fields, and each key holds that field's messages in order. */
  lemma {:induction false} GroupByFieldMeaning(errs: seq<Error>)
    ensures forall f :: f in GroupByField(errs) <==> NamesField(errs, f)
    ensures forall f :: f in GroupByField(errs) ==> GroupByField(errs)[f] == MessagesFor(errs, f)
  {
    if |errs| > 0 {
      GroupByFieldMeaning(errs[1..]);
      forall f ensures f in GroupByField(errs) <==> NamesField(errs, f) {
        NamesFieldUnfold(errs, f);
      }
      forall f | f in GroupByField(errs) ensures GroupByField(errs)[f] == MessagesFor(errs, f) {
        NamesFieldIffMessages(errs[1..], f);
      }
    }
  }

  /** `MapValidationErrorsToDictionary`: keys are exactly the fields some
      validation error names; each key lists that field's messages, in order. */
  function MapValidationErrorsToDictionary(r: Result<()>): (d: map<string, seq<string>>)
    ensures forall f :: f in d <==> NamesField(ErrorsOf(r), f)
    ensures forall f :: f in d ==> d[f] == MessagesFor(ErrorsOf(r), f) && |d[f]| > 0
    ensures r.Ok? ==> d == map[]
  {
    GroupByFieldMeaning(ErrorsOf(r));
    var d := GroupByField(ErrorsOf(r));
    assert forall f :: f in d ==> |d[f]| > 0 by {
      forall f | f in d ensures |d[f]| > 0 {
        NamesFieldIffMessages(ErrorsOf(r), f);
      }
    }
    d
  }

  /** Errors that are not validation errors do not affect the dictionary. */
  lemma {:induction false} DictionaryIgnoresOtherErrors(errs: seq<Error>)
    ensures GroupByField(Filter(errs, IsValidation)) == GroupByField(errs)
  {
    if |errs| > 0 {
      DictionaryIgnoresOtherErrors(errs[1..]);
      var f := Filter(errs, IsValidation);
      if errs[0].Validation? {
        assert f[0] == errs[0] && f[1..] == Filter(errs[1..], IsValidation);
      }
    }
  }

  /** Some key of a non-empty key set. */
  ghost function PickKey(keys: set<string>): (k: string)
    requires |keys| > 0
    ensures k in keys
  {
    var k :| k in keys; k
  }

  /** The total number of messages over all keys. */
  ghost function TotalMessages(d: map<string, seq<string>>): nat
    decreases |d|
  {
    if |d| == 0 then 0
    else
      var k := PickKey(d.Keys);
      |d[k]| + TotalMessages(d - {k})
  }

  /** The total may be computed by taking out any key first. */
  lemma {:induction false} TotalMessagesRemove(d: map<string, seq<string>>, k: string)
    requires k in d
    ensures TotalMessages(d) == |d[k]| + TotalMessages(d - {k})
    decreases |d|
  {
    var k' := PickKey(d.Keys);
    if k' != k {
      var dk' := d - {k'};
      var dk := d - {k};
      assert |dk'| < |d| by { assert dk'.Keys == d.Keys - {k'}; }
      assert |dk| < |d| by { assert dk.Keys == d.Keys - {k}; }
      assert k in dk' && k' in dk;
      TotalMessagesRemove(dk', k);
      TotalMessagesRemove(dk, k');
      assert dk' - {k} == dk - {k'};
    }
  }

  /** Every validation error contributes exactly one message. */
  lemma {:induction false} TotalMessagesIsValidationCount(errs: seq<Error>)
    ensures TotalMessages(GroupByField(errs)) == Count(errs, IsValidation)
  {
    if |errs| > 0 {
      TotalMessagesIsValidationCount(errs[1..]);
      var rest := GroupByField(errs[1..]);
      var d := GroupByField(errs);
      var e := errs[0];
      if e.Validation? {
        TotalMessagesRemove(d, e.field);
        assert d - {e.field} == rest - {e.field};
        if e.field in rest {
          TotalMessagesRemove(rest, e.field);
        } else {
          assert rest - {e.field} == rest;
        }
      }
    }
  }
}
