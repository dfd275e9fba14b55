/** `make_api_request`: what the helper returns for each way an HTTP exchange can
    end, and which of those results the caller treats as success. */
module Api {

  import opened Wrappers

  datatype HttpMethod = GET | POST | PUT | DELETE

  /** The Python values the helper can hand back, including any decoded JSON body. */
  datatype PyValue =
    | PyNone
    | PyBool(b: bool)
    | PyNumber(x: real)
    | PyStr(s: string)
    | PyList(items: seq<PyValue>)
    | PyDict(entries: seq<(string, PyValue)>)

  /** Python truthiness: None, False, zero and empty containers are false. */
  predicate Truthy(v: PyValue)
    ensures v == PyNone || v == PyBool(false) || v == PyStr("") || v == PyList([]) || v == PyDict([]) ==> !Truthy(v)
    ensures v.PyBool? || v.PyStr? || v.PyList? || v.PyDict? ==>
              (Truthy(v) <==> v != PyBool(false) && v != PyStr("") && v != PyList([]) && v != PyDict([]))
  {
    match v
    case PyNone => false
    case PyBool(b) => b
    case PyNumber(x) => x != 0.0
    case PyStr(s) => s != ""
    case PyList(items) => |items| > 0
    case PyDict(entries) => |entries| > 0
  }

  /** How one request ended: the transport raised (timeout, refused connection or any
      other request error), or a response arrived with a status, a body text and the
      body decoded as JSON (None where it is not valid JSON). */
  datatype Exchange =
    | TransportError
    | Response(status: int, text: string, json: Option<PyValue>)

  /** `raise_for_status` raises for client and server errors. */
  predicate IsHttpError(status: int) {
    400 <= status < 600
  }

  /** The helper's result: True for a 204 answer to a DELETE, an empty list for a
      200 with an empty body, the decoded body otherwise, and None for every
      error, which it reports instead of raising. */
  function MakeApiRequest(verb: HttpMethod, ex: Exchange): (r: PyValue)
    ensures ex.TransportError? ==> r == PyNone
    ensures ex.Response? && IsHttpError(ex.status) ==> r == PyNone
    ensures ex.Response? && ex.json.None? && !(ex.status == 204 && verb == DELETE) ==> !Truthy(r)
    ensures Truthy(r) ==> ex.Response? && !IsHttpError(ex.status)
  {
    match ex
    case TransportError => PyNone
    case Response(status, text, json) =>
      if IsHttpError(status) then PyNone
      else if status == 204 && verb == DELETE then PyBool(true)
      else if status == 200 && text == "" then PyList([])
      else match json
        case Some(v) => v
        case None => PyNone
  }

  /** Which DELETE results the deletion loop counts as a success: a 204, or a
      non-error response whose body is not empty-for-200 and decodes to a truthy
      value. */
  lemma DeleteSucceedsIff(ex: Exchange)
    ensures Truthy(MakeApiRequest(DELETE, ex)) <==>
            && ex.Response?
            && !IsHttpError(ex.status)
            && (ex.status == 204
                || (!(ex.status == 200 && ex.text == "") && ex.json.Some? && Truthy(ex.json.value)))
  {
  }

  /** The asymmetry the deletion loop inherits: 204 is a success, while a 200 with an
      empty body yields an empty list and so counts as a failure. */
  lemma NoContentVersusEmptyOk(text: string, json: Option<PyValue>)
    ensures MakeApiRequest(DELETE, Response(204, text, json)) == PyBool(true)
    ensures MakeApiRequest(DELETE, Response(200, "", json)) == PyList([])
    ensures !Truthy(MakeApiRequest(DELETE, Response(200, "", json)))
  {
  }
}
