/** `OnlineUploader.uploadBase64`: one form-encoded POST per attempt; a
    response status below 300 reports success to the callback, any other
    status reports an error and re-issues the identical call later. The
    transport and the delay are not modelled: the responses arrive as a
    sequence of statuses, one per attempt, and `encodeURIComponent` is the
    parameter `enc`. */
module Online {
  import opened Values

  const UploadFailed: string := "Failed to upload the item. Auto-retrying in a moment."

  /** The request body: `'name=' + enc(name) + '&' + 'data=' + enc(data)`. */
  function Body(name: string, data: string, enc: string -> string): string
  {
    "name=" + enc(name) + "&" + "data=" + enc(data)
  }

  /** The status test `xhr.status < 300`. It accepts every status below 300,
      status 0 (no response at all) included. */
  predicate Succeeded(status: int)
  {
    status < 300
  }

  /** What the callback is called with after a response with `status`. */
  function Respond(status: int): (r: Reply)
    ensures r.IsSuccess() <==> Succeeded(status)
    ensures r.IsError() <==> !Succeeded(status)
  {
    if Succeeded(status) then Called(None) else Called(Some(UploadFailed))
  }

  /** The first position of `c` in `s`. */
  function IndexOf(s: string, c: char): (r: Option<nat>)
    ensures r.Some? ==> r.value < |s| && s[r.value] == c && c !in s[..r.value]
    ensures r.None? ==> c !in s
  {
    if s == [] then None
    else if s[0] == c then Some(0)
    else match IndexOf(s[1..], c)
      case None => None
      case Some(i) => Some(i + 1)
  }

  /** Reads the two encoded fields back out of a request body, splitting at
      the first `&`. */
  function ParseBody(body: string): Option<(string, string)>
  {
    if |body| < 5 || body[..5] != "name=" then None
    else match IndexOf(body[5..], '&')
      case None => None
      case Some(i) =>
        var rest := body[5 + i + 1..];
        if |rest| < 5 || rest[..5] != "data=" then None
        else Some((body[5..5 + i], rest[5..]))
  }

  lemma {:induction false} IndexOfFirst(a: string, c: char, b: string)
    requires c !in a
    ensures IndexOf(a + [c] + b, c) == Some(|a|)
  {
    if a != [] {
      assert (a + [c] + b)[1..] == a[1..] + [c] + b;
      IndexOfFirst(a[1..], c, b);
    }
  }

  /** The body is a round trip for the encoded fields whenever the encoded
      name holds no `&` (which `encodeURIComponent` never emits). */
  lemma ParseBodyOfBody(name: string, data: string, enc: string -> string)
    requires '&' !in enc(name)
    ensures ParseBody(Body(name, data, enc)) == Some((enc(name), enc(data)))
  {
    var body := Body(name, data, enc);
    var n := enc(name);
    assert body[..5] == "name=";
    assert body[5..] == n + ['&'] + ("data=" + enc(data));
    IndexOfFirst(n, '&', "data=" + enc(data));
    assert body[5 + |n| + 1..] == "data=" + enc(data);
    assert body[5..5 + |n|] == n;
  }

  /** One request and the argument its callback was called with. */
  datatype Attempt = Attempt(body: string, reply: Reply)

  /** `uploadBase64(name, data, callback)` with its re-calls: the i-th
      response has status `statuses[i]`. Every attempt sends the same body
      and calls the callback once; a failed attempt is followed by exactly
      one more attempt, a successful one by none. `statuses` running out
      stands for the responses not yet having arrived. */
  method UploadBase64(name: string, data: string, enc: string -> string, statuses: seq<int>)
    returns (attempts: seq<Attempt>)
    ensures |attempts| <= |statuses|
    ensures forall i :: 0 <= i < |attempts| ==>
      attempts[i] == Attempt(Body(name, data, enc), Respond(statuses[i]))
    ensures forall i :: 0 <= i < |attempts| - 1 ==> !Succeeded(statuses[i])
    ensures |attempts| < |statuses| ==> |attempts| > 0 && Succeeded(statuses[|attempts| - 1])
  {
    var body := Body(name, data, enc);
    attempts := [];
    var i := 0;
    while i < |statuses|
      invariant i <= |statuses| && |attempts| == i
      invariant forall j :: 0 <= j < i ==> attempts[j] == Attempt(body, Respond(statuses[j]))
      invariant forall j :: 0 <= j < i ==> !Succeeded(statuses[j])
    {
      attempts := attempts + [Attempt(body, Respond(statuses[i]))];
      if Succeeded(statuses[i]) {
        return;
      }
      // the retry: the same name, data and callback
      i := i + 1;
    }
  }
}
