/** The cursor loop of `Repository.get_issues` in wrapper/github.py. Each
    request asks for the first 100 issues after a cursor; the loop appends
    the page's nodes and stops once fewer than 100 issues have been
    gathered IN TOTAL or the page has no edges, otherwise it asks again
    after the last edge's cursor.

    The server is modelled by the finite sequence of its responses, in the
    order the loop receives them; the loop's answer is `None` when it would
    ask for more responses than the sequence holds. */
module Pagination {
  import opened Outcomes

  /** The `first` argument of every request. */
  const PageSize: nat := 100

  /** One response: the issue nodes and the cursors of its edges. */
  datatype Page<N> = Page(nodes: seq<N>, cursors: seq<string>)

  /** What the loop gathered, and the `after` argument of each request it
      sent (`None` for the first). */
  datatype Listing<N> = Listing(issues: seq<N>, requests: seq<Option<string>>)

  /** The nodes of the first `k` responses, in order. */
  function Fetched<N>(responses: seq<Page<N>>, k: nat): seq<N>
    requires k <= |responses|
  {
    if k == 0 then [] else Fetched(responses, k - 1) + responses[k - 1].nodes
  }

  /** The loop's exit test after the response with index `k`. */
  predicate StopsAt<N>(responses: seq<Page<N>>, k: nat)
    requires k < |responses|
  {
    |Fetched(responses, k + 1)| < PageSize || responses[k].cursors == []
  }

  /** The first request has no cursor and every later one carries the last
      edge cursor of the response before it. */
  predicate FollowsCursors<N>(responses: seq<Page<N>>, requests: seq<Option<string>>)
  {
    && 1 <= |requests| <= |responses|
    && requests[0] == None
    && forall j :: 0 <= j < |requests| - 1 ==>
         responses[j].cursors != [] && requests[j + 1] == Some(LastCursor(responses[j]))
  }

  /** The cursor of a page's last edge. */
  function LastCursor<N>(page: Page<N>): string
    requires page.cursors != []
  {
    page.cursors[|page.cursors| - 1]
  }

  /** The listing obtained by stopping after response `n`. */
  predicate ListsUpTo<N(==)>(responses: seq<Page<N>>, n: nat, r: Listing<N>)
    requires n < |responses|
  {
    && |r.requests| == n + 1
    && r.issues == Fetched(responses, n + 1)
    && FollowsCursors(responses, r.requests)
  }

  /** One iteration of the loop, from response `i` on, with `gathered`
      already accumulated and `sent` the requests made so far. */
  function Loop<N(==)>(responses: seq<Page<N>>, i: nat, gathered: seq<N>, sent: seq<Option<string>>)
    : (r: Option<Listing<N>>)
    requires i < |responses|
    requires gathered == Fetched(responses, i)
    requires |sent| == i + 1 && FollowsCursors(responses, sent)
    requires forall j :: 0 <= j < i ==> !StopsAt(responses, j)
    ensures r.Some? <==> exists k :: i <= k < |responses| && StopsAt(responses, k)
    ensures r.Some? ==>
      var n := |r.value.requests| - 1;
      && i <= n < |responses|
      && StopsAt(responses, n)
      && (forall j :: 0 <= j < n ==> !StopsAt(responses, j))
      && ListsUpTo(responses, n, r.value)
    decreases |responses| - i
  {
    var page := responses[i];
    var all := gathered + page.nodes;
    assert all == Fetched(responses, i + 1);
    if |all| < PageSize || page.cursors == [] then
      assert StopsAt(responses, i);
      Some(Listing(all, sent))
    else if i + 1 == |responses| then
      None
    else
      var sent' := sent + [Some(LastCursor(page))];
      assert FollowsCursors(responses, sent') by {
        forall j | 0 <= j < |sent'| - 1
          ensures responses[j].cursors != [] && sent'[j + 1] == Some(LastCursor(responses[j]))
        {
          if j + 1 < |sent| {
            assert sent'[j + 1] == sent[j + 1];
          }
        }
      }
      Loop(responses, i + 1, all, sent')
  }

  /** `Repository.get_issues`. */
  function GetIssues<N(==)>(responses: seq<Page<N>>): (r: Option<Listing<N>>)
    ensures r.Some? <==> exists k :: 0 <= k < |responses| && StopsAt(responses, k)
    ensures r.Some? ==>
      var n := |r.value.requests| - 1;
      && 0 <= n < |responses|
      && StopsAt(responses, n)
      && (forall j :: 0 <= j < n ==> !StopsAt(responses, j))
      && ListsUpTo(responses, n, r.value)
  {
    if |responses| == 0 then None
    else Loop(responses, 0, [], [None])
  }

  /** A first response with fewer than 100 nodes, or with no edges, ends the
      loop at once: one request, and its nodes are the result. */
  lemma ShortFirstPageStops<N>(responses: seq<Page<N>>)
    requires |responses| >= 1
    requires |responses[0].nodes| < PageSize || responses[0].cursors == []
    ensures GetIssues(responses) == Some(Listing(responses[0].nodes, [None]))
  {
    assert Fetched(responses, 1) == responses[0].nodes;
    assert StopsAt(responses, 0);
  }

  /** The number of gathered issues never shrinks. */
  lemma {:induction false} FetchedGrows<N>(responses: seq<Page<N>>, j: nat, k: nat)
    requires j <= k <= |responses|
    ensures |Fetched(responses, j)| <= |Fetched(responses, k)|
    decreases k
  {
    if j < k {
      FetchedGrows(responses, j, k - 1);
    }
  }

  /** Once 100 issues have been gathered the total test can no longer fire,
      so only a response without edges stops the loop. */
  lemma OnceFullOnlyEmptyEdgesStop<N>(responses: seq<Page<N>>, j: nat, k: nat)
    requires j <= k < |responses|
    requires |Fetched(responses, j)| >= PageSize
    ensures StopsAt(responses, k) <==> responses[k].cursors == []
  {
    FetchedGrows(responses, j, k + 1);
  }

  function Min(a: nat, b: nat): nat
  {
    if a <= b then a else b
  }

  /** The position of the first occurrence of `c` in `cs`. */
  function IndexOf(cs: seq<string>, c: string): (r: Option<nat>)
    ensures r.None? <==> c !in cs
    ensures r.Some? ==> r.value < |cs| && cs[r.value] == c &&
                        forall j :: 0 <= j < r.value ==> cs[j] != c
  {
    if |cs| == 0 then None
    else if cs[0] == c then Some(0)
    else match IndexOf(cs[1..], c)
      case None => None
      case Some(k) => Some(k + 1)
  }

  /** No cursor names two edges. */
  predicate Distinct(cs: seq<string>)
  {
    forall i, j :: 0 <= i < j < |cs| ==> cs[i] != cs[j]
  }

  /** GitHub's answer to `issues(first: 100, after: after)` over the
      collection `all`, whose edges carry the cursors `cs`: the edges that
      follow the one named by `after` (all of them when there is no cursor),
      at most 100; an unknown cursor is past the end. */
  function Answer<N>(all: seq<N>, cs: seq<string>, after: Option<string>): Page<N>
    requires |cs| == |all|
  {
    var start :=
      match after
      case None => 0
      case Some(c) => (match IndexOf(cs, c) case None => |all| case Some(k) => k + 1);
    var end := Min(start + PageSize, |all|);
    Page(all[start..end], cs[start..end])
  }

  /** The `i`-th block of 100 edges of `all` (empty past the end). */
  function Block<N>(all: seq<N>, cs: seq<string>, i: nat): Page<N>
    requires |cs| == |all|
  {
    var start := Min(PageSize * i, |all|);
    var end := Min(PageSize * (i + 1), |all|);
    Page(all[start..end], cs[start..end])
  }

  /** The number of non-empty blocks of a collection of `n` issues. */
  function Blocks(n: nat): nat
  {
    (n + PageSize - 1) / PageSize
  }

  /** A well-behaved server for the collection `all`: every response the
      loop receives is GitHub's answer to the request it sent, that is, to
      the last cursor of the response before; the cursors are distinct; and
      there are enough responses to get past the last block. */
  predicate Serves<N(==)>(all: seq<N>, cs: seq<string>, responses: seq<Page<N>>)
  {
    && |cs| == |all|
    && Distinct(cs)
    && |responses| > Blocks(|all|)
    && responses[0] == Answer(all, cs, None)
    && forall j :: 0 <= j < |responses| - 1 && responses[j].cursors != [] ==>
         responses[j + 1] == Answer(all, cs, Some(LastCursor(responses[j])))
  }

  /** A block is non-empty exactly when its index is below `Blocks`. */
  lemma BlocksBound(n: nat, i: nat)
    ensures PageSize * i < n <==> i < Blocks(n)
  {
  }

  /** Following cursors through a well-behaved server walks the blocks in
      order: as long as every earlier block was non-empty, response `i` is
      block `i`. */
  lemma {:induction false} ServedBlocks<N>(all: seq<N>, cs: seq<string>, responses: seq<Page<N>>, i: nat)
    requires Serves(all, cs, responses) && i < |responses| && i <= Blocks(|all|)
    ensures responses[i] == Block(all, cs, i)
    decreases i
  {
    if i > 0 {
      ServedBlocks(all, cs, responses, i - 1);
      BlocksBound(|all|, i - 1);
      var start := PageSize * (i - 1);
      var end := Min(PageSize * i, |all|);
      assert responses[i - 1].cursors == cs[start..end];
      assert LastCursor(responses[i - 1]) == cs[end - 1];
      assert IndexOf(cs, cs[end - 1]) == Some(end - 1);
    }
  }

  /** Against a well-behaved server, the first `k` responses hold the first
      `100 * k` issues. */
  lemma {:induction false} FetchedIsPrefix<N>(all: seq<N>, cs: seq<string>, responses: seq<Page<N>>, k: nat)
    requires Serves(all, cs, responses) && k <= |responses| && k <= Blocks(|all|) + 1
    ensures Fetched(responses, k) == all[..Min(PageSize * k, |all|)]
    decreases k
  {
    if k > 0 {
      FetchedIsPrefix(all, cs, responses, k - 1);
      ServedBlocks(all, cs, responses, k - 1);
      var a := Min(PageSize * (k - 1), |all|);
      var b := Min(PageSize * k, |all|);
      assert all[..a] + all[a..b] == all[..b];
    }
  }

  /** Against a well-behaved server the loop stops exactly after the first
      response when the collection has fewer than 100 issues, and otherwise
      after the first empty block. */
  lemma StopsAtServed<N>(all: seq<N>, cs: seq<string>, responses: seq<Page<N>>, k: nat)
    requires Serves(all, cs, responses) && k < |responses| && k <= Blocks(|all|)
    ensures StopsAt(responses, k) <==> |all| < PageSize || PageSize * k >= |all|
  {
    FetchedIsPrefix(all, cs, responses, k + 1);
    ServedBlocks(all, cs, responses, k);
    assert |Fetched(responses, k + 1)| == Min(PageSize * (k + 1), |all|);
  }

  /** Completeness: against a well-behaved server `get_issues` returns the
      whole collection, whatever its size. A collection of exactly `100 * m`
      issues (m >= 1) is not truncated; it costs one extra request, whose
      answer is empty. */
  lemma GetIssuesComplete<N>(all: seq<N>, cs: seq<string>, responses: seq<Page<N>>)
    requires Serves(all, cs, responses)
    ensures GetIssues(responses).Some?
    ensures GetIssues(responses).value.issues == all
    ensures |all| >= PageSize ==>
      |GetIssues(responses).value.requests| == Blocks(|all|) + 1
  {
    var n: nat := if |all| < PageSize then 0 else Blocks(|all|);
    assert n < |responses|;
    BlocksBound(|all|, n);
    StopsAtServed(all, cs, responses, n);
    assert StopsAt(responses, n);
    var r := GetIssues(responses);
    assert r.Some?;
    var m := |r.value.requests| - 1;
    if m < n {
      BlocksBound(|all|, m);
      StopsAtServed(all, cs, responses, m);
      assert false;
    }
    assert m == n;
    FetchedIsPrefix(all, cs, responses, n + 1);
  }

  /** The boundary case spelled out: exactly `100 * m` issues are all
      returned, using `m + 1` requests. */
  lemma ExactMultipleNotTruncated<N>(all: seq<N>, cs: seq<string>, responses: seq<Page<N>>, m: nat)
    requires Serves(all, cs, responses) && m >= 1 && |all| == PageSize * m
    ensures GetIssues(responses).Some?
    ensures GetIssues(responses).value.issues == all
    ensures |GetIssues(responses).value.requests| == m + 1
  {
    GetIssuesComplete(all, cs, responses);
    assert Blocks(PageSize * m) == m;
  }
}
