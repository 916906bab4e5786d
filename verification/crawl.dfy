/** The crawl loop of main.go: request the page the cursor names, take the
    next cursor from the `Link` header, apply the rate limit, decode the
    users and store them with one multi-row INSERT. The network, the clock
    and the JSON decoder are inputs: each iteration consumes one `Fetch`
    (what the HTTP client returned, with the body already decoded or not)
    and one clock reading. The loop itself never stops on success, so a run
    is modelled over a finite sequence of such inputs. */
module Crawl {
  import opened Wrappers
  import opened GoStrings
  import opened Batch
  import opened Pagination
  import opened RateLimit

  /** The parts of an HTTP response the loop reads. A missing header is
      the empty string; `users` is `None` when the body could not be read
      or is not a JSON array of users. */
  datatype Reply = Reply(link: string, remaining: string, reset: string, users: Option<seq<User>>)

  /** The outcome of one request. */
  datatype Fetch = Received(reply: Reply) | Unreachable

  /** Why an iteration ends the crawl; the source panics in each case. */
  datatype StopReason = RequestFailed | NoNextLink | RateLimitHeader(error: HeaderError) | BadBody

  /** One completed iteration: the URL fetched, the cursor for the next
      iteration, the rate-limit decision and the statement executed. */
  datatype Page = Page(url: string, next: string, throttle: Throttle, insert: Insert)

  /** One iteration of the loop. Failures are checked in the order the
      source checks them: the request, the `Link` header, the two
      rate-limit headers, then the body. */
  function Step(cursor: string, f: Fetch, now: Int64): (r: Result<Page, StopReason>)
    ensures r == Failure(RequestFailed) <==> f.Unreachable?
    ensures r == Failure(NoNextLink) <==> f.Received? && NextLink(f.reply.link).None?
    ensures r.Failure? && r.error.RateLimitHeader? <==>
              f.Received? && NextLink(f.reply.link).Some? &&
              Decide(f.reply.remaining, f.reply.reset, now).Failure?
    ensures r.Failure? && r.error.RateLimitHeader? ==>
              Decide(f.reply.remaining, f.reply.reset, now) == Failure(r.error.error)
    ensures r.Success? <==>
              f.Received? && NextLink(f.reply.link).Some? &&
              Decide(f.reply.remaining, f.reply.reset, now).Success? && f.reply.users.Some?
    ensures r.Success? ==>
              && r.value.url == RequestURL(cursor)
              && NextLink(f.reply.link) == Some(r.value.next)
              && Decide(f.reply.remaining, f.reply.reset, now) == Success(r.value.throttle)
              && r.value.insert == BuildInsert(f.reply.users.value)
  {
    match f
      case Unreachable => Failure(RequestFailed)
      case Received(reply) =>
        match NextLink(reply.link)
          case None => Failure(NoNextLink)
          case Some(next) =>
            match Decide(reply.remaining, reply.reset, now)
              case Failure(e) => Failure(RateLimitHeader(e))
              case Success(throttle) =>
                match reply.users
                  case None => Failure(BadBody)
                  case Some(users) => Success(Page(RequestURL(cursor), next, throttle, BuildInsert(users)))
  }

  /** The iterations completed on a finite run of inputs, and the failure
      that ended the crawl, if one did. */
  datatype Trace = Trace(pages: seq<Page>, stop: Option<StopReason>)

  /** The cursor in force when the iteration after `pages` starts. */
  function CursorAfter(start: string, pages: seq<Page>): string {
    if |pages| == 0 then start else pages[|pages| - 1].next
  }

  /** An iteration as a function value, so that the run can be reasoned
      about for any iteration. */
  type Stepper = (string, Fetch, Int64) -> Result<Page, StopReason>

  /** Runs the loop with iteration `step` from `cursor` over `inputs`. */
  function RunWith(step: Stepper, cursor: string, inputs: seq<(Fetch, Int64)>): (t: Trace)
    ensures |t.pages| <= |inputs|
    ensures t.stop.None? <==> |t.pages| == |inputs|
    decreases |inputs|
  {
    if |inputs| == 0 then Trace([], None)
    else match step(cursor, inputs[0].0, inputs[0].1)
      case Failure(e) => Trace([], Some(e))
      case Success(p) =>
        var rest := RunWith(step, p.next, inputs[1..]);
        Trace([p] + rest.pages, rest.stop)
  }

  /** Runs the loop from `cursor` over the inputs `inputs` (one response
      and one clock reading per iteration). Each input completes at most
      one page, and the run stops early exactly when an iteration fails. */
  function Run(cursor: string, inputs: seq<(Fetch, Int64)>): (t: Trace)
    ensures |t.pages| <= |inputs|
    ensures t.stop.None? <==> |t.pages| == |inputs|
  {
    RunWith(Step, cursor, inputs)
  }

  lemma {:induction false} PagesWith(step: Stepper, cursor: string, inputs: seq<(Fetch, Int64)>)
    ensures var t := RunWith(step, cursor, inputs);
      forall k :: 0 <= k < |t.pages| ==>
        step(CursorAfter(cursor, t.pages[..k]), inputs[k].0, inputs[k].1) == Success(t.pages[k])
    decreases |inputs|
  {
    if |inputs| > 0 {
      match step(cursor, inputs[0].0, inputs[0].1)
        case Failure(_) =>
        case Success(p) =>
          var rest := RunWith(step, p.next, inputs[1..]);
          PagesWith(step, p.next, inputs[1..]);
          var t := RunWith(step, cursor, inputs);
          assert t.pages == [p] + rest.pages;
          forall k | 0 < k < |t.pages|
            ensures step(CursorAfter(cursor, t.pages[..k]), inputs[k].0, inputs[k].1) == Success(t.pages[k])
          {
            CursorAfterCons(cursor, p, rest.pages, k - 1);
            assert inputs[k] == inputs[1..][k - 1];
          }
    }
  }

  lemma {:induction false} StopWith(step: Stepper, cursor: string, inputs: seq<(Fetch, Int64)>)
    ensures var t := RunWith(step, cursor, inputs);
      t.stop.Some? ==>
        step(CursorAfter(cursor, t.pages), inputs[|t.pages|].0, inputs[|t.pages|].1) == Failure(t.stop.value)
    decreases |inputs|
  {
    if |inputs| > 0 {
      match step(cursor, inputs[0].0, inputs[0].1)
        case Failure(_) =>
        case Success(p) =>
          var rest := RunWith(step, p.next, inputs[1..]);
          StopWith(step, p.next, inputs[1..]);
          var t := RunWith(step, cursor, inputs);
          assert t.pages == [p] + rest.pages;
          CursorAfterCons(cursor, p, rest.pages, |rest.pages|);
          assert t.pages[..|t.pages|] == t.pages;
          assert rest.pages[..|rest.pages|] == rest.pages;
          assert |t.pages| < |inputs| ==> inputs[|t.pages|] == inputs[1..][|rest.pages|];
    }
  }

  lemma CursorAfterCons(cursor: string, p: Page, rest: seq<Page>, k: nat)
    requires k <= |rest|
    ensures CursorAfter(cursor, ([p] + rest)[..k + 1]) == CursorAfter(p.next, rest[..k])
  {
    if k > 0 {
      assert ([p] + rest)[..k + 1][k] == rest[..k][k - 1];
    }
  }

  /** Every completed iteration is what `Step` makes of its input and the
      cursor the previous iteration extracted (the starting cursor for the
      first), and a run that stopped did so because the iteration after
      its last page failed. */
  lemma RunChains(cursor: string, inputs: seq<(Fetch, Int64)>)
    ensures var t := Run(cursor, inputs);
      && (forall k :: 0 <= k < |t.pages| ==>
            Step(CursorAfter(cursor, t.pages[..k]), inputs[k].0, inputs[k].1) == Success(t.pages[k]))
      && (t.stop.Some? ==>
            Step(CursorAfter(cursor, t.pages), inputs[|t.pages|].0, inputs[|t.pages|].1) == Failure(t.stop.value))
  {
    PagesWith(Step, cursor, inputs);
    StopWith(Step, cursor, inputs);
  }

  /** Consecutive pages chain: each page fetched the URL of the cursor the
      page before it extracted, and the first fetched the starting one. */
  lemma RunFollowsLinks(cursor: string, inputs: seq<(Fetch, Int64)>)
    ensures var t := Run(cursor, inputs);
      && (|t.pages| > 0 ==> t.pages[0].url == RequestURL(cursor))
      && (forall k :: 0 < k < |t.pages| ==> t.pages[k].url == RequestURL(t.pages[k - 1].next))
  {
    var t := Run(cursor, inputs);
    RunChains(cursor, inputs);
    forall k | 0 <= k < |t.pages|
      ensures t.pages[k].url == RequestURL(if k == 0 then cursor else t.pages[k - 1].next)
    {
      CursorAfterPrefix(cursor, t.pages, k);
    }
  }

  /** The cursor after the first k pages. */
  lemma CursorAfterPrefix(cursor: string, pages: seq<Page>, k: nat)
    requires k <= |pages|
    ensures CursorAfter(cursor, pages[..k]) == if k == 0 then cursor else pages[k - 1].next
  {
  }

  /** Each completed iteration stored exactly the users its response
      carried, as the batch statement for that page. */
  lemma RunStoresEachPage(cursor: string, inputs: seq<(Fetch, Int64)>)
    ensures var t := Run(cursor, inputs);
      forall k :: 0 <= k < |t.pages| ==>
        inputs[k].0.Received? && inputs[k].0.reply.users.Some? &&
        t.pages[k].insert == BuildInsert(inputs[k].0.reply.users.value)
  {
    var t := Run(cursor, inputs);
    RunChains(cursor, inputs);
    forall k | 0 <= k < |t.pages|
      ensures inputs[k].0.Received? && inputs[k].0.reply.users.Some? &&
        t.pages[k].insert == BuildInsert(inputs[k].0.reply.users.value)
    {
      assert Step(CursorAfter(cursor, t.pages[..k]), inputs[k].0, inputs[k].1) == Success(t.pages[k]);
    }
  }

  /** The next cursor and everything stored depend on the response alone,
      not on the cursor that requested it. */
  lemma NextCursorIgnoresCursor(c1: string, c2: string, f: Fetch, now: Int64)
    ensures Step(c1, f, now).Success? <==> Step(c2, f, now).Success?
    ensures Step(c1, f, now).Success? ==>
              Step(c1, f, now).value.next == Step(c2, f, now).value.next &&
              Step(c1, f, now).value.throttle == Step(c2, f, now).value.throttle &&
              Step(c1, f, now).value.insert == Step(c2, f, now).value.insert
    ensures Step(c1, f, now).Failure? ==> Step(c1, f, now) == Step(c2, f, now)
  {
  }

  /** The last page carries no next link, so the crawl fails on it before
      its users are stored: whatever its body, no completed iteration
      comes from it or from any later input. */
  lemma {:induction false} LastPageNotStored(cursor: string, inputs: seq<(Fetch, Int64)>, k: nat)
    requires k < |inputs|
    requires inputs[k].0.Received? && NextLink(inputs[k].0.reply.link).None?
    ensures |Run(cursor, inputs).pages| <= k
    ensures |Run(cursor, inputs).pages| == k ==> Run(cursor, inputs).stop == Some(NoNextLink)
  {
    var t := Run(cursor, inputs);
    RunChains(cursor, inputs);
    forall j | 0 <= j < |t.pages| ensures inputs[j].0.Received? && NextLink(inputs[j].0.reply.link).Some? {
      assert Step(CursorAfter(cursor, t.pages[..j]), inputs[j].0, inputs[j].1).Success?;
    }
  }

  /** An empty link, as in a header `<>`, sends the next request back to
      the first page. */
  lemma EmptyLinkRestarts(cursor: string, remaining: string, reset: string, users: seq<User>, now: Int64)
    requires Atoi(remaining).Some? && Atoi(remaining).value > 1
    ensures Step(cursor, Received(Reply("<>", remaining, reset, Some(users))), now).Success?
    ensures RequestURL(Step(cursor, Received(Reply("<>", remaining, reset, Some(users))), now).value.next) == FirstPageURL
  {
    assert Span("<>", 0, 1);
    LinkFromSpan("<>", 0, 1);
  }

  lemma ConsPrefix<T>(x: T, a: seq<T>, b: seq<T>)
    requires a <= b
    ensures [x] + a <= [x] + b
  {
    assert ([x] + b)[..|a| + 1] == [x] + b[..|a|];
  }

  lemma {:induction false} PrefixWith(step: Stepper, cursor: string, inputs: seq<(Fetch, Int64)>, n: nat)
    requires n <= |inputs|
    ensures RunWith(step, cursor, inputs[..n]).pages <= RunWith(step, cursor, inputs).pages
    ensures RunWith(step, cursor, inputs[..n]).stop.Some? ==>
              RunWith(step, cursor, inputs[..n]) == RunWith(step, cursor, inputs)
    decreases n
  {
    var a := inputs[..n];
    if n == 0 {
      assert a == [];
    } else {
      assert a[0] == inputs[0];
      match step(cursor, inputs[0].0, inputs[0].1)
        case Failure(e) =>
        case Success(p) =>
          assert a[1..] == inputs[1..][..n - 1];
          PrefixWith(step, p.next, inputs[1..], n - 1);
          var short := RunWith(step, p.next, inputs[1..][..n - 1]);
          var long := RunWith(step, p.next, inputs[1..]);
          assert RunWith(step, cursor, a) == Trace([p] + short.pages, short.stop);
          ConsPrefix(p, short.pages, long.pages);
    }
  }

  /** Observing more inputs only extends what was observed: the pages of
      a shorter run are a prefix of the pages of a longer one, and a run
      that already stopped is not changed by later inputs. */
  lemma RunPrefix(cursor: string, inputs: seq<(Fetch, Int64)>, n: nat)
    requires n <= |inputs|
    ensures Run(cursor, inputs[..n]).pages <= Run(cursor, inputs).pages
    ensures Run(cursor, inputs[..n]).stop.Some? ==> Run(cursor, inputs[..n]) == Run(cursor, inputs)
  {
    PrefixWith(Step, cursor, inputs, n);
  }
}
