/** MyCustomers.WebFrontend/app/lib/utils.ts: how a server action turns an
    API error into the state its form shows. Field errors win over a
    problem's `detail`, which wins over its `title`, which wins over a
    generic message; the submitted form data is always handed back. */
module WebUtils {
  import opened Wrappers

  /** The parsed error body: whether it has an `errors` member (a validation
      problem) and its `detail` and `title`, each possibly missing. */
  datatype Details = Details(errors: Option<map<string, seq<string>>>, detail: Option<string>, title: Option<string>)

  /** `ApiError`. */
  datatype ApiError = ApiError(status: int, details: Option<Details>)

  /** `ActionState<T>` with the form data of type `D`; `successMessage` is
      never set by these functions and is left out. */
  datatype ActionState<D> = ActionState(
    errorMessage: Option<string>,
    showSnackbar: Option<bool>,
    errors: Option<map<string, seq<string>>>,
    data: Option<D>)

  const GenericMessage := "An error occurred while processing your request."

  /** JavaScript truthiness of an optional string: present and not empty. */
  predicate Truthy(s: Option<string>) {
    s.Some? && s.value != ""
  }

  /** `handleUnknownActionError`: the generic message, always in a snackbar. */
  function HandleUnknownActionError<D>(data: Option<D>): (s: ActionState<D>)
    ensures s.errorMessage == Some(GenericMessage) && s.showSnackbar == Some(true)
    ensures s.errors.None? && s.data == data
  {
    ActionState(Some(GenericMessage), Some(true), None, data)
  }

  /** `handleApiActionError`. */
  function HandleApiActionError<D>(error: ApiError, data: Option<D>): (s: ActionState<D>)
    ensures s.data == data
    ensures s.errors.Some? <==> error.details.Some? && error.details.value.errors.Some?
    ensures s.errors.Some? ==> s.errors == error.details.value.errors && s.errorMessage.None? && s.showSnackbar.None?
    ensures s.errors.None? ==> s.errorMessage.Some? && s.showSnackbar.Some?
    ensures s.errors.None? && s.errorMessage != Some(GenericMessage) ==> s.showSnackbar == Some(error.status == 500)
  {
    match error.details
    case None => HandleUnknownActionError(data)
    case Some(details) =>
      if details.errors.Some? then ActionState(None, None, details.errors, data)
      else if Truthy(details.detail) then ActionState(details.detail, Some(error.status == 500), None, data)
      else if Truthy(details.title) then ActionState(details.title, Some(error.status == 500), None, data)
      else HandleUnknownActionError(data)
  }

  /** Reference definition: the first truthy message of a list. */
  function FirstTruthy(messages: seq<Option<string>>): (m: Option<string>)
    ensures m.Some? ==> m.value != "" && m in messages
    ensures m.None? <==> forall i :: 0 <= i < |messages| ==> !Truthy(messages[i])
  {
    if |messages| == 0 then None
    else if Truthy(messages[0]) then messages[0]
    else FirstTruthy(messages[1..])
  }

  /** Without field errors, the message shown is the first truthy one of
      `detail` and `title`, or the generic message; it is in a snackbar
      exactly when the status is 500 or no message was found. */
  lemma MessagePrecedence<D>(error: ApiError, data: Option<D>)
    requires error.details.None? || error.details.value.errors.None?
    ensures var s := HandleApiActionError(error, data);
      var found := if error.details.None? then None
                   else FirstTruthy([error.details.value.detail, error.details.value.title]);
      && s.errorMessage == Some(found.GetOr(GenericMessage))
      && s.showSnackbar == Some(found.None? || error.status == 500)
  {
    if error.details.Some? {
      var d := error.details.value;
      assert [d.detail, d.title][1..] == [d.title];
    }
  }

  /** Field errors hide a detail and a title entirely: the state depends only
      on the errors and the form data. */
  lemma FieldErrorsWin<D>(status: int, status': int, errors: map<string, seq<string>>,
                          detail: Option<string>, title: Option<string>, data: Option<D>)
    ensures HandleApiActionError(ApiError(status, Some(Details(Some(errors), detail, title))), data)
         == HandleApiActionError(ApiError(status', Some(Details(Some(errors), None, None))), data)
  {
  }
}
