/**
 * The token-driven listing pattern shared by `load_all_images` and
 * `load_all_repositories` (src/main.rs): request a page, passing the previous
 * response's continuation token; stop at the first response without one; join
 * the pages' items in request order; give up on the first failed request.
 *
 * The remote service is a script: the k-th request sent is answered by
 * `script[k]`. A listing only returns once some response ends it, so every
 * load here requires `Ends(script)`.
 */
module Pagination {
  import opened Wrappers

  type Token = string

  /** An opaque service failure (throttling, missing resource, credentials, ...). */
  datatype ApiError = ApiError(message: string)

  /** One page: its item list, absent on some responses, and the continuation token. */
  datatype Page<T> = Page(items: Option<seq<T>>, nextToken: Option<Token>)

  type Response<T> = Result<Page<T>, ApiError>

  /** What one load did: the token carried by each request it sent, and its result. */
  datatype Listing<T> = Listing(tokens: seq<Option<Token>>, outcome: Result<seq<T>, ApiError>)

  /** A response after which no further request is sent. */
  predicate Final<T>(r: Response<T>) {
    r.Failure? || r.value.nextToken.None?
  }

  /** Some response of the script ends the listing. */
  ghost predicate Ends<T>(script: seq<Response<T>>) {
    script != [] && (Final(script[0]) || Ends(script[1..]))
  }

  /** A script with a final response somewhere ends the listing. */
  lemma {:induction false} EndsAtFinal<T>(script: seq<Response<T>>, n: nat)
    requires n < |script| && Final(script[n])
    ensures Ends(script)
    decreases n
  {
    if n > 0 && !Final(script[0]) {
      assert script[1..][n - 1] == script[n];
      EndsAtFinal(script[1..], n - 1);
    }
  }

  /** The items a response contributes; a page without an item list contributes none. */
  function Items<T>(r: Response<T>): seq<T> {
    match r
    case Success(page) => page.items.GetOr([])
    case Failure(_) => []
  }

  /** The items of the given responses, joined in order. */
  function Flatten<T>(rs: seq<Response<T>>): seq<T> {
    if rs == [] then [] else Items(rs[0]) + Flatten(rs[1..])
  }

  /** Position of the response that ends the listing. */
  ghost function FirstFinal<T>(script: seq<Response<T>>): (n: nat)
    requires Ends(script)
    ensures n < |script| && Final(script[n])
    ensures forall i :: 0 <= i < n ==> !Final(script[i])
  {
    if Final(script[0]) then 0 else 1 + FirstFinal(script[1..])
  }

  /**
   * The listing started with token `next`, as the source's recursion does it:
   * the first request carries `next`, each later one the previous response's
   * token; the first failure is the result; otherwise the items of every
   * requested page, in request order.
   */
  function Load<T>(script: seq<Response<T>>, next: Option<Token>): (l: Listing<T>)
    requires Ends(script)
    ensures |l.tokens| == FirstFinal(script) + 1 && l.tokens[0] == next
    ensures forall i :: 0 <= i < FirstFinal(script) ==>
              script[i].Success? && l.tokens[i + 1] == script[i].value.nextToken
    ensures script[FirstFinal(script)].Failure? ==>
              l.outcome == Failure(script[FirstFinal(script)].error)
    ensures script[FirstFinal(script)].Success? ==>
              l.outcome == Success(Flatten(script[..FirstFinal(script) + 1]))
    decreases |script|
  {
    match script[0]
    case Failure(e) => Listing([next], Failure(e))
    case Success(page) =>
      if page.nextToken.Some? then
        var rest := Load(script[1..], page.nextToken);
        ghost var n := FirstFinal(script[1..]);
        assert script[..n + 2][0] == script[0] && script[..n + 2][1..] == script[1..][..n + 1];
        Listing([next] + rest.tokens,
                match rest.outcome
                case Failure(e) => Failure(e)
                case Success(more) => Success(page.items.GetOr([]) + more))
      else
        assert FirstFinal(script) == 0;
        assert script[..1][0] == script[0] && script[..1][1..] == [];
        assert Flatten(script[..1]) == Items(script[0]);
        Listing([next], Success(page.items.GetOr([])))
  }

  /** Joining is associative with splitting: the page boundaries do not change the items or their order. */
  lemma {:induction false} FlattenAppend<T>(a: seq<Response<T>>, b: seq<Response<T>>)
    ensures Flatten(a + b) == Flatten(a) + Flatten(b)
  {
    if a == [] {
      assert a + b == b;
    } else {
      assert (a + b)[0] == a[0] && (a + b)[1..] == a[1..] + b;
      FlattenAppend(a[1..], b);
    }
  }

  /** Only the items of each response matter to the join. */
  lemma {:induction false} FlattenSameItems<T>(a: seq<Response<T>>, b: seq<Response<T>>)
    requires |a| == |b|
    requires forall i :: 0 <= i < |a| ==> Items(a[i]) == Items(b[i])
    ensures Flatten(a) == Flatten(b)
  {
    if a != [] {
      FlattenSameItems(a[1..], b[1..]);
    }
  }

  /**
   * Two scripts that end at the same position, hand out the same tokens before it,
   * and end alike (the same failure, or pages whose items join alike) list the same.
   */
  lemma SameLoad<T>(a: seq<Response<T>>, b: seq<Response<T>>, next: Option<Token>)
    requires Ends(a) && Ends(b)
    requires FirstFinal(a) == FirstFinal(b)
    requires forall i :: 0 <= i < FirstFinal(a) ==> a[i].value.nextToken == b[i].value.nextToken
    requires a[FirstFinal(a)].Failure? <==> b[FirstFinal(b)].Failure?
    requires a[FirstFinal(a)].Failure? ==> a[FirstFinal(a)].error == b[FirstFinal(b)].error
    requires a[FirstFinal(a)].Success? ==> Flatten(a[..FirstFinal(a) + 1]) == Flatten(b[..FirstFinal(b) + 1])
    ensures Load(a, next) == Load(b, next)
  {
    var la, lb := Load(a, next), Load(b, next);
    assert la.tokens == lb.tokens by {
      forall i | 0 <= i < |la.tokens| ensures la.tokens[i] == lb.tokens[i] {
        if i > 0 { assert a[i - 1].value.nextToken == b[i - 1].value.nextToken; }
      }
    }
  }

  /** Responses after the one that ends the listing are never requested and do not matter. */
  lemma UnrequestedResponsesIgnored<T>(script: seq<Response<T>>, next: Option<Token>)
    requires Ends(script)
    ensures Ends(script[..FirstFinal(script) + 1])
    ensures Load(script, next) == Load(script[..FirstFinal(script) + 1], next)
  {
    var n := FirstFinal(script);
    var prefix := script[..n + 1];
    EndsAtFinal(prefix, n);
    assert FirstFinal(prefix) == n;
    assert prefix[..n + 1] == prefix;
    SameLoad(script, prefix, next);
  }

  /** A page without an item list is the same to the load as a page with an empty one. */
  lemma AbsentItemsCountAsEmpty<T>(script: seq<Response<T>>, k: nat, next: Option<Token>)
    requires Ends(script)
    requires k < |script| && script[k].Success? && script[k].value.items.None?
    ensures Ends(script[k := Success(Page(Some([]), script[k].value.nextToken))])
    ensures Load(script, next) == Load(script[k := Success(Page(Some([]), script[k].value.nextToken))], next)
  {
    var other := script[k := Success(Page(Some([]), script[k].value.nextToken))];
    var n := FirstFinal(script);
    EndsAtFinal(other, n);
    assert FirstFinal(other) == n;
    FlattenSameItems(script[..n + 1], other[..n + 1]);
    SameLoad(script, other, next);
  }

  /** A failed request aborts the load: the result is that failure, with no items. */
  lemma FailureAborts<T>(script: seq<Response<T>>, next: Option<Token>, i: nat)
    requires Ends(script)
    requires i < |Load(script, next).tokens| && script[i].Failure?
    ensures Load(script, next).outcome == Failure(script[i].error)
  {
    assert i == FirstFinal(script);
  }

  /** The load fails only when some request it sent failed. */
  lemma SuccessUnlessRequestFailed<T>(script: seq<Response<T>>, next: Option<Token>)
    requires Ends(script)
    requires forall i :: 0 <= i < |Load(script, next).tokens| ==> script[i].Success?
    ensures Load(script, next).outcome.Success?
  {
    assert script[FirstFinal(script)].Success?;
  }
}
