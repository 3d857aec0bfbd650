/** The remote inventory: the paginated bucket listing behind
    `remote_objects`. The storage service is abstracted as the sequence of
    responses it gives to successive listing requests. */
module Listing {
  import opened Wrappers

  /** One listed object: its key and its etag as the service reports it
      (possibly wrapped in double quotes). */
  datatype RemoteObject = RemoteObject(key: string, etag: string)

  /** One listing response. */
  datatype Page = Page(contents: seq<RemoteObject>, isTruncated: bool, nextToken: Option<string>)

  /** The request with this index got no response: the call failed, and the
      whole listing is abandoned. */
  datatype ListError = RequestFailed(request: nat)

  /** Some response reports that the listing is complete. */
  predicate HasFinalPage(pages: seq<Page>)
  {
    exists i :: 0 <= i < |pages| && !pages[i].isTruncated
  }

  /** The index of the first response reporting that the listing is complete. */
  function FirstFinal(pages: seq<Page>): (n: nat)
    requires HasFinalPage(pages)
    ensures n < |pages| && !pages[n].isTruncated
    ensures forall k :: 0 <= k < n ==> pages[k].isTruncated
  {
    if !pages[0].isTruncated then 0
    else
      assert HasFinalPage(pages[1..]) by {
        var i :| 0 <= i < |pages| && !pages[i].isTruncated;
        assert !pages[1..][i - 1].isTruncated;
      }
      1 + FirstFinal(pages[1..])
  }

  /** The contents of the pages, concatenated in page order. */
  function Flatten(pages: seq<Page>): (r: seq<RemoteObject>)
  {
    if |pages| == 0 then [] else pages[0].contents + Flatten(pages[1..])
  }

  /** The number of entries over all pages. */
  function TotalEntries(pages: seq<Page>): (r: nat)
  {
    if |pages| == 0 then 0 else |pages[0].contents| + TotalEntries(pages[1..])
  }

  lemma {:induction false} FlattenAppend(a: seq<Page>, b: seq<Page>)
    ensures Flatten(a + b) == Flatten(a) + Flatten(b)
  {
    if |a| == 0 {
      assert a + b == b;
    } else {
      assert (a + b)[1..] == a[1..] + b;
      FlattenAppend(a[1..], b);
    }
  }

  /** Pagination neither loses nor invents entries: the accumulated listing
      holds exactly as many entries as the pages together. */
  lemma {:induction false} FlattenLength(pages: seq<Page>)
    ensures |Flatten(pages)| == TotalEntries(pages)
  {
    if |pages| > 0 {
      FlattenLength(pages[1..]);
    }
  }

  /** The `remote_objects` loop. The first request carries no continuation
      token; while a response says it is truncated, its contents are
      appended and the next request carries its `next_continuation_token`;
      the response that says it is not truncated is appended last.
      `responses[k]` answers request `k`; a request beyond the last
      response is a failed call and aborts the listing. `requests` records
      the continuation token sent with each request. */
  method ListAll(responses: seq<Page>) returns (result: Result<seq<RemoteObject>, ListError>, requests: seq<Option<string>>)
    ensures result.Success? <==> HasFinalPage(responses)
    ensures result.Success? ==>
      && result.value == Flatten(responses[..FirstFinal(responses) + 1])
      && |requests| == FirstFinal(responses) + 1
    ensures result.Failure? ==> result.error == RequestFailed(|responses|) && |requests| == |responses| + 1
    ensures |requests| > 0 && requests[0] == None
    ensures forall k :: 0 < k < |requests| ==> responses[k - 1].isTruncated && requests[k] == responses[k - 1].nextToken
  {
    var objects: seq<RemoteObject> := [];
    var truncated := true;
    var token: Option<string> := None;
    var k := 0;
    requests := [];
    while truncated
      invariant 0 <= k <= |responses|
      invariant |requests| == k
      invariant k > 0 ==> requests[0] == None
      invariant forall i :: 0 < i < k ==> responses[i - 1].isTruncated && requests[i] == responses[i - 1].nextToken
      invariant objects == Flatten(responses[..k])
      invariant truncated ==> token == (if k == 0 then None else responses[k - 1].nextToken)
      invariant truncated ==> forall i :: 0 <= i < k ==> responses[i].isTruncated
      invariant !truncated ==> k > 0 && !responses[k - 1].isTruncated
      decreases |responses| - k
    {
      requests := requests + [token];
      if k == |responses| {
        assert !HasFinalPage(responses);
        result := Failure(RequestFailed(k));
        return;
      }
      var page := responses[k];
      assert responses[..k + 1] == responses[..k] + [page];
      FlattenAppend(responses[..k], [page]);
      objects := objects + page.contents;
      truncated := page.isTruncated;
      if page.isTruncated {
        token := page.nextToken;
      }
      k := k + 1;
    }
    assert HasFinalPage(responses) by {
      assert !responses[k - 1].isTruncated;
    }
    forall i | 0 <= i < k - 1
      ensures responses[i].isTruncated
    {
      assert requests[i + 1] == responses[i].nextToken;
    }
    assert FirstFinal(responses) == k - 1;
    result := Success(objects);
  }
}
