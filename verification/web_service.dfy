/** MyCustomers.WebFrontend/app/lib/service.ts: the Next.js server-side API
    helpers. `listResources` checks its paging arguments before anything is
    sent and builds the query string; every helper turns the HTTP response
    into an `ApiResult`. The request itself (`fetch` with the session's
    bearer token) is the `send` parameter, answering a URL with a response. */
module WebService {
  import opened Wrappers
  import Text
  import Pagination

  /** `MAX_ITEMS_PER_PAGE` in constants.ts. */
  const MaxItemsPerPage: int := 100

  const SkipMessage := "Skip must be a non-negative integer."
  const TakeMessage := "Take must be between 1 and 100."

  /** One `name=value` pair of a `URLSearchParams`. */
  datatype Param = Param(name: string, value: string)

  /** The paging arguments, checked: the error `listResources` throws, or
      the parameters it puts in the query string. */
  datatype Arguments = Refused(message: string) | Accepted(params: seq<Param>)

  /** The checks and `params.set` calls of `listResources`: skip first; an
      undefined argument is checked against nothing and left out. */
  function ListArguments(skip: Option<int>, take: Option<int>): (a: Arguments)
    ensures skip.Some? && skip.value < 0 ==> a == Refused(SkipMessage)
    ensures (skip.None? || skip.value >= 0) && take.Some? && (take.value < 1 || take.value > MaxItemsPerPage) ==>
      a == Refused(TakeMessage)
    ensures a.Accepted? ==>
      && (forall i :: 0 <= i < |a.params| ==> a.params[i].name == "skip" || a.params[i].name == "take")
      && (skip.Some? ==> Param("skip", Text.IntText(skip.value)) in a.params)
      && (take.Some? ==> Param("take", Text.IntText(take.value)) in a.params)
      && (skip.None? ==> forall i :: 0 <= i < |a.params| ==> a.params[i].name != "skip")
      && (take.None? ==> forall i :: 0 <= i < |a.params| ==> a.params[i].name != "take")
  {
    var skipParams := if skip.Some? then [Param("skip", Text.IntText(skip.value))] else [];
    var takeParams := if take.Some? then [Param("take", Text.IntText(take.value))] else [];
    if skip.Some? && skip.value < 0 then Refused(SkipMessage)
    else if take.Some? && (take.value < 1 || take.value > MaxItemsPerPage) then Refused(TakeMessage)
    else Accepted(skipParams + takeParams)
  }

  /** The client accepts exactly the paging arguments the server's
      validator accepts, so a request it sends is never refused for them. */
  lemma GuardAgreesWithServer(skip: Option<int>, take: Option<int>)
    ensures ListArguments(skip, take).Accepted? <==> Pagination.Validate(skip, take).Ok?
  {
  }

  /** The query string names its arguments unambiguously: two accepted
      argument pairs with the same parameters are the same pair. */
  lemma ParamsDetermineArguments(skip: Option<int>, take: Option<int>, skip': Option<int>, take': Option<int>)
    requires ListArguments(skip, take).Accepted? && ListArguments(skip', take').Accepted?
    requires ListArguments(skip, take) == ListArguments(skip', take')
    ensures skip == skip' && take == take'
  {
    var ps := ListArguments(skip, take).params;
    if skip.Some? {
      var i :| 0 <= i < |ps| && ps[i] == Param("skip", Text.IntText(skip.value));
      assert skip'.Some?;
      var j :| 0 <= j < |ps| && ps[j] == Param("skip", Text.IntText(skip'.value));
      assert ps[0] == ps[i] && ps[0] == ps[j];
      Text.IntTextInjective(skip.value, skip'.value);
    }
    if take.Some? {
      var i :| 0 <= i < |ps| && ps[i] == Param("take", Text.IntText(take.value));
      assert take'.Some?;
      var j :| 0 <= j < |ps| && ps[j] == Param("take", Text.IntText(take'.value));
      assert ps[|ps| - 1] == ps[i] && ps[|ps| - 1] == ps[j];
      Text.IntTextInjective(take.value, take'.value);
    }
  }

  /** `params.toString()`: the pairs joined by `&`. */
  function QueryString(params: seq<Param>): (q: string)
    ensures |params| == 0 <==> |q| == 0
  {
    if |params| == 0 then ""
    else
      var pair := params[0].name + "=" + params[0].value;
      assert |pair| > 0;
      pair + (if |params| == 1 then "" else "&" + QueryString(params[1..]))
  }

  /** An HTTP response: its `ok` flag, its status, and its body when the
      body parses as JSON. */
  datatype Response<J> = Response(ok: bool, status: int, body: Option<J>)

  /** `ApiError`: the status and the parsed error body, if any. */
  datatype ApiError<J> = ApiError(status: int, details: Option<J>)

  /** `ApiResult<T>` whose error details are parsed JSON, plus the exception
      `response.json()` throws when a successful response's body does not
      parse. */
  datatype ApiResult<T, J> = Success(data: T) | Failure(error: ApiError<J>) | Threw

  /** The shaping shared by `listResources`, `getResource`, `createResource`
      and `updateResource`. */
  function ShapeResult<J>(r: Response<J>): (a: ApiResult<J, J>)
    ensures a.Failure? <==> !r.ok
    ensures a.Failure? ==> a.error == ApiError(r.status, r.body)
    ensures a.Success? <==> r.ok && r.body.Some?
    ensures a.Success? ==> a.data == r.body.value
  {
    if !r.ok then Failure(ApiError(r.status, r.body))
    else match r.body
      case Some(json) => Success(json)
      case None => Threw
  }

  /** `deleteResource`: a successful delete carries `undefined` as its data
      (here `()`), whatever the body; a failed one is shaped like any other. */
  function ShapeDelete<J>(r: Response<J>): (a: ApiResult<(), J>)
    ensures a.Success? <==> r.ok
    ensures a.Failure? ==> a.error == ApiError(r.status, r.body)
    ensures !a.Threw?
  {
    if !r.ok then Failure(ApiError(r.status, r.body)) else Success(())
  }

  /** A delete and any other call shaped from the same failed response
      report the same error. */
  lemma FailuresShapedAlike<J>(r: Response<J>)
    requires !r.ok
    ensures ShapeDelete(r).error == ShapeResult(r).error
  {
  }

  /** What `listResources` does: throws before sending, or sends one request
      for `url?query` and shapes its response. */
  datatype Listing<J> = ThrewBeforeSending(message: string) | Sent(requestUrl: string, result: ApiResult<J, J>)

  function ListResources<J>(url: string, skip: Option<int>, take: Option<int>,
                            send: string -> Response<J>): (l: Listing<J>)
    ensures l.ThrewBeforeSending? <==> !Pagination.Acceptable(skip, take)
    ensures l.Sent? ==> l.requestUrl == url + "?" + QueryString(ListArguments(skip, take).params)
    ensures l.Sent? ==> l.result == ShapeResult(send(l.requestUrl))
    ensures skip.None? && take.None? ==> l == Sent(url + "?", ShapeResult(send(url + "?")))
  {
    GuardAgreesWithServer(skip, take);
    match ListArguments(skip, take)
    case Refused(message) => ThrewBeforeSending(message)
    case Accepted(params) =>
      var requestUrl := url + "?" + QueryString(params);
      assert |params| == 0 ==> requestUrl == url + "?";
      Sent(requestUrl, ShapeResult(send(requestUrl)))
  }
}
