/** The step of the workflow that reaches the mailbox list: one click on the
    mailbox entry of the menu, then at most two retries while the page is
    not the list. The browser page is abstract: each click is answered by
    where the page settles and whether the mailbox entry is there again. */
module Navigation {
  import opened Text

  /** The path the page must show once the mailbox list is open. */
  const ListPath := "/mailbox/list"
  /** The bound on the retry counter. */
  const MaxRetries := 2
  const LinkNotFound := "Mailboxes link not found"
  const StillNotOnList := "Still not on Mailboxes page after retries"

  /** The answer to one click on the mailbox entry, the awaited navigation
      included: the page settles at `url`, where the entry is or is not found
      again, or the navigation throws. */
  datatype Click = Landed(url: string, linkPresent: bool) | Threw(message: string)

  /** Whether the workflow may go on (and at which page) or the error it throws. */
  datatype Outcome = Reached(url: string) | Failed(message: string)

  /** The outcome together with the number of clicks issued on the entry. */
  datatype Trace = Trace(outcome: Outcome, clicks: nat)

  predicate OnList(url: string)
  {
    Contains(url, ListPath)
  }

  /** The check after the loop: go on only from the list page. */
  function Settle(url: string, clicks: nat): Trace
  {
    Trace(if OnList(url) then Reached(url) else Failed(StillNotOnList), clicks)
  }

  /** The retry loop from a page at `url`, with `budget` iterations left;
      `rest` answers the further clicks in order. */
  function Retry(url: string, linkPresent: bool, rest: seq<Click>, budget: nat, clicks: nat): (t: Trace)
    requires budget <= |rest|
    ensures clicks <= t.clicks <= clicks + budget
    ensures t.outcome.Reached? ==> OnList(t.outcome.url)
    decreases budget
  {
    if budget == 0 || OnList(url) then Settle(url, clicks)
    else if !linkPresent then Retry(url, linkPresent, rest, budget - 1, clicks)
    else match rest[0]
      case Threw(m) => Trace(Failed(m), clicks + 1)
      case Landed(u, p) => Retry(u, p, rest[1..], budget - 1, clicks + 1)
  }

  /** The whole step: the entry must be found, is clicked once, and the loop
      runs with a budget of `MaxRetries`. `answers[k]` answers click `k`. */
  function Navigate(linkFound: bool, answers: seq<Click>): Trace
    requires |answers| > MaxRetries
  {
    if !linkFound then Trace(Failed(LinkNotFound), 0)
    else match answers[0]
      case Threw(m) => Trace(Failed(m), 1)
      case Landed(u, p) => Retry(u, p, answers[1..], MaxRetries, 1)
  }

  /** The step as the source runs it: the counter advances on every
      iteration, a retry click is issued only when the entry is present, and
      the URL is read again after every click. */
  method NavigateToMailboxList(linkFound: bool, answers: seq<Click>) returns (t: Trace)
    requires |answers| > MaxRetries
    ensures t == Navigate(linkFound, answers)
  {
    if !linkFound {
      return Trace(Failed(LinkNotFound), 0);
    }
    var clicks := 1;
    var first := answers[0];
    if first.Threw? {
      return Trace(Failed(first.message), clicks);
    }
    var url, linkPresent := first.url, first.linkPresent;
    var attemptCount := 0;
    while attemptCount < MaxRetries && !OnList(url)
      invariant 0 <= attemptCount <= MaxRetries
      invariant 1 <= clicks <= 1 + attemptCount
      invariant Navigate(linkFound, answers)
             == Retry(url, linkPresent, answers[clicks..], MaxRetries - attemptCount, clicks)
    {
      if linkPresent {
        var next := answers[clicks];
        assert answers[clicks..][1..] == answers[clicks + 1..];
        clicks := clicks + 1;
        if next.Threw? {
          return Trace(Failed(next.message), clicks);
        }
        url, linkPresent := next.url, next.linkPresent;
      }
      attemptCount := attemptCount + 1;
    }
    if !OnList(url) {
      return Trace(Failed(StillNotOnList), clicks);
    }
    t := Trace(Reached(url), clicks);
  }

  /** A click that leaves the page off the list with the entry there to click again. */
  predicate Missed(c: Click)
  {
    c.Landed? && !OnList(c.url) && c.linkPresent
  }

  /** Click `k` is the first to land on the list, every earlier one having missed. */
  predicate FirstOnListAt(answers: seq<Click>, k: nat)
  {
    && k < |answers|
    && (forall j :: 0 <= j < k ==> Missed(answers[j]))
    && answers[k].Landed? && OnList(answers[k].url)
  }

  /** An independent account of the step: the clicks are read in order until
      the first one that is not a miss; that click decides the outcome, and
      after `MaxRetries` misses the step gives up. The link being absent ends
      the step at once here, where the source lets the counter run out. */
  function FirstStop(answers: seq<Click>, k: nat): Trace
    requires k <= MaxRetries < |answers|
    decreases MaxRetries - k
  {
    match answers[k]
    case Threw(m) => Trace(Failed(m), k + 1)
    case Landed(u, p) =>
      if OnList(u) then Trace(Reached(u), k + 1)
      else if !p || k == MaxRetries then Trace(Failed(StillNotOnList), k + 1)
      else FirstStop(answers, k + 1)
  }

  /** Without the entry, the loop only spends its budget and then fails. */
  lemma {:induction false} RetryWithoutLink(url: string, rest: seq<Click>, budget: nat, clicks: nat)
    requires budget <= |rest|
    ensures Retry(url, false, rest, budget, clicks) == Settle(url, clicks)
  {
    if budget > 0 && !OnList(url) {
      RetryWithoutLink(url, rest, budget - 1, clicks);
    }
  }

  /** The loop agrees with the independent account, from any click `k - 1`
      that missed. */
  lemma {:induction false} RetryIsFirstStop(answers: seq<Click>, k: nat)
    requires 1 <= k <= MaxRetries < |answers|
    requires Missed(answers[k - 1])
    ensures Retry(answers[k - 1].url, true, answers[k..], MaxRetries - k + 1, k) == FirstStop(answers, k)
    decreases MaxRetries - k
  {
    var rest := answers[k..];
    assert rest[0] == answers[k];
    match answers[k]
    case Threw(m) =>
    case Landed(u, p) =>
      assert rest[1..] == answers[k + 1..];
      if !OnList(u) && k < MaxRetries {
        if p {
          RetryIsFirstStop(answers, k + 1);
        } else {
          RetryWithoutLink(u, rest[1..], MaxRetries - k, k + 1);
        }
      }
  }

  /** The step agrees with the independent account whenever the entry is found. */
  lemma NavigateIsFirstStop(answers: seq<Click>)
    requires |answers| > MaxRetries
    ensures Navigate(true, answers) == FirstStop(answers, 0)
  {
    match answers[0]
    case Threw(m) =>
    case Landed(u, p) =>
      if !OnList(u) {
        if p {
          assert Missed(answers[0]);
          RetryIsFirstStop(answers, 1);
        } else {
          RetryWithoutLink(u, answers[1..], MaxRetries, 1);
        }
      }
  }

  /** Misses between `k` and `m` are skipped over. */
  lemma {:induction false} FirstStopSkipsMisses(answers: seq<Click>, k: nat, m: nat)
    requires k <= m <= MaxRetries < |answers|
    requires forall j :: k <= j < m ==> Missed(answers[j])
    ensures FirstStop(answers, k) == FirstStop(answers, m)
    decreases m - k
  {
    if k < m {
      assert Missed(answers[k]);
      FirstStopSkipsMisses(answers, k + 1, m);
    }
  }

  /** Click `m` decides trace `t` of a step read from click `k`: clicks `k`
      to `m - 1` missed, `m + 1` clicks were issued, and going on means click
      `m` landed on the list. */
  predicate DecidedAt(answers: seq<Click>, k: nat, m: nat, t: Trace)
    requires m < |answers|
  {
    && t.clicks == m + 1
    && (forall j :: k <= j < m ==> Missed(answers[j]))
    && (t.outcome.Reached? ==> answers[m].Landed? && OnList(answers[m].url) && t.outcome.url == answers[m].url)
  }

  /** What the independent account can end in: the click that decides is
      click `m`, at most the last allowed one, and the clicks issued are `m + 1`. */
  lemma {:induction false} FirstStopDecidedAt(answers: seq<Click>, k: nat)
    requires k <= MaxRetries < |answers|
    ensures exists m :: k <= m <= MaxRetries && DecidedAt(answers, k, m, FirstStop(answers, k))
    decreases MaxRetries - k
  {
    match answers[k]
    case Threw(msg) =>
      assert DecidedAt(answers, k, k, FirstStop(answers, k));
    case Landed(u, p) =>
      if OnList(u) || !p || k == MaxRetries {
        assert DecidedAt(answers, k, k, FirstStop(answers, k));
      } else {
        FirstStopDecidedAt(answers, k + 1);
        var m :| k + 1 <= m <= MaxRetries && DecidedAt(answers, k + 1, m, FirstStop(answers, k + 1));
        assert DecidedAt(answers, k, m, FirstStop(answers, k));
      }
  }

  /** At most three clicks in all, one initial and at most `MaxRetries`
      retries; none at all when the entry is not found. */
  lemma ClicksBound(linkFound: bool, answers: seq<Click>)
    requires |answers| > MaxRetries
    ensures Navigate(linkFound, answers).clicks <= 1 + MaxRetries
    ensures Navigate(linkFound, answers).clicks == 0 <==> !linkFound
  {
    if linkFound {
      NavigateIsFirstStop(answers);
      FirstStopDecidedAt(answers, 0);
    }
  }

  /** The workflow goes past this step only from a page on the mailbox list. */
  lemma ReachedOnlyOnList(linkFound: bool, answers: seq<Click>)
    requires |answers| > MaxRetries
    ensures Navigate(linkFound, answers).outcome.Reached? ==> OnList(Navigate(linkFound, answers).outcome.url)
  {
    if linkFound {
      NavigateIsFirstStop(answers);
      FirstStopDecidedAt(answers, 0);
    }
  }

  /** When click `k` is the first on the list, the step goes on from that
      page after `k + 1` clicks. */
  lemma ReachedAtFirstOnList(answers: seq<Click>, k: nat)
    requires |answers| > MaxRetries && k <= MaxRetries
    requires FirstOnListAt(answers, k)
    ensures Navigate(true, answers) == Trace(Reached(answers[k].url), k + 1)
  {
    NavigateIsFirstStop(answers);
    FirstStopSkipsMisses(answers, 0, k);
  }

  /** The step goes on exactly when one of the three clicks lands on the list
      after only misses before it. */
  lemma ReachedIff(answers: seq<Click>)
    requires |answers| > MaxRetries
    ensures Navigate(true, answers).outcome.Reached?
        <==> exists k :: 0 <= k <= MaxRetries && FirstOnListAt(answers, k)
  {
    if Navigate(true, answers).outcome.Reached? {
      NavigateIsFirstStop(answers);
      FirstStopDecidedAt(answers, 0);
      var m :| 0 <= m <= MaxRetries && DecidedAt(answers, 0, m, FirstStop(answers, 0));
      assert FirstOnListAt(answers, m);
    }
    if exists k :: 0 <= k <= MaxRetries && FirstOnListAt(answers, k) {
      var k :| 0 <= k <= MaxRetries && FirstOnListAt(answers, k);
      ReachedAtFirstOnList(answers, k);
    }
  }

  /** A first click that lands on the list issues no retry click. */
  lemma FirstClickOnList(answers: seq<Click>)
    requires |answers| > MaxRetries
    requires answers[0].Landed? && OnList(answers[0].url)
    ensures Navigate(true, answers) == Trace(Reached(answers[0].url), 1)
  {
    ReachedAtFirstOnList(answers, 0);
  }

  /** A page that misses on every click ends the step with the error after
      exactly three clicks. */
  lemma AlwaysMissing(answers: seq<Click>)
    requires |answers| > MaxRetries
    requires forall j :: 0 <= j <= MaxRetries ==> Missed(answers[j])
    ensures Navigate(true, answers) == Trace(Failed(StillNotOnList), 1 + MaxRetries)
  {
    NavigateIsFirstStop(answers);
    FirstStopSkipsMisses(answers, 0, MaxRetries);
  }

  /** When a click lands off the list and the entry is gone, no further click
      is issued: the counter runs out and the step fails. */
  lemma EntryGoneFails(answers: seq<Click>, k: nat)
    requires |answers| > MaxRetries && k <= MaxRetries
    requires forall j :: 0 <= j < k ==> Missed(answers[j])
    requires answers[k].Landed? && !OnList(answers[k].url) && !answers[k].linkPresent
    ensures Navigate(true, answers) == Trace(Failed(StillNotOnList), k + 1)
  {
    NavigateIsFirstStop(answers);
    FirstStopSkipsMisses(answers, 0, k);
  }

  /** The step fails only with one of its two own messages or with the
      message of the last click it issued, which threw. */
  lemma FailureMessages(linkFound: bool, answers: seq<Click>)
    requires |answers| > MaxRetries
    ensures var t := Navigate(linkFound, answers);
      t.outcome.Failed? ==>
        var m := t.outcome.message;
        m == LinkNotFound || m == StillNotOnList || (1 <= t.clicks && answers[t.clicks - 1] == Threw(m))
  {
    if linkFound {
      NavigateIsFirstStop(answers);
      FirstStopDecidedAt(answers, 0);
      var m :| 0 <= m <= MaxRetries && DecidedAt(answers, 0, m, FirstStop(answers, 0));
      FirstStopSkipsMisses(answers, 0, m);
    }
  }
}
