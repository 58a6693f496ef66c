/** The browser client's retry protocol: one refresh at a time, shared by every request that meets a 401. */
module ApiClient {
  import opened Wrappers

  const REFRESH_PATH := "/auth/refresh"

  /** A refresh: its own call outstanding, its answer being parsed, or resolved to a verdict. */
  datatype Refresh = Calling | Parsing | Resolved(ok: bool)

  /** `Reading` waits for the response body; `ok` tells whether the response was a success. */
  datatype Phase = Sending(retry: bool) | Waiting(refresh: nat) | Reading(ok: bool) | Settled(succeeded: bool)

  /** A plain request, a download (which retries whatever its path), or one whose success its caller answers
      by storing a token: a login, a second factor or a change of organization. */
  datatype Kind = Plain | Download | Session(delivered: bool)

  /** `sends` counts the fetches of the request's own path; `after` remembers the refresh it retried after. */
  datatype Request = Request(path: string, kind: Kind, phase: Phase, sends: nat, after: Option<nat>)

  /** What the caller of a session request does with its result: a login that asks for a second factor stores
      nothing, and a result without a token stores none. */
  datatype Delivery = Keeps | Stores(token: Option<string>)

  /** Module state (`current` is the shared refresh promise) and the asynchronous calls under way. */
  datatype Client = Client(token: Option<string>, current: Option<nat>, refreshes: seq<Refresh>, requests: seq<Request>)

  const START := Client(None, None, [], [])

  datatype Response = Unauthorized | Content | NoContent | Refused

  /** What runs between two awaits. Callers start a request or a refresh, store a token or clear it (a completed
      logout, a failed session load). A fetch answers or fails, and its body is parsed or not; a session
      request's result is delivered to its caller. The refresh answers, its body is parsed (`received` is None
      when it holds no token), or either fails. An awaited refresh lets its request go on. */
  datatype Event =
    | StartRequest(path: string, kind: Kind)
    | StartRefresh
    | StoreToken(token: string)
    | ClearToken
    | Reply(request: nat, response: Response)
    | Body(request: nat, parsed: bool)
    | Unreachable(request: nat)
    | Deliver(request: nat, delivery: Delivery)
    | RefreshReply(ok: bool)
    | RefreshBody(received: Option<string>)
    | RefreshFailed
    | Resume(request: nat)

  /** A caller's own step, possible at any time. */
  predicate Opens(e: Event) {
    e.StartRequest? || e.StartRefresh? || e.StoreToken? || e.ClearToken?
  }

  predicate IsSending(c: Client, i: nat) {
    i < |c.requests| && c.requests[i].phase.Sending?
  }

  /** The request has succeeded and its caller is about to use the result. */
  predicate IsOwed(r: Request) {
    r.kind == Session(false) && r.phase == Settled(true)
  }

  predicate InFlight(c: Client) {
    c.current.Some? && c.current.value < |c.refreshes| && !c.refreshes[c.current.value].Resolved?
  }

  predicate Enabled(c: Client, e: Event) {
    match e
    case Reply(i, _) => IsSending(c, i)
    case Unreachable(i) => IsSending(c, i)
    case Body(i, _) => i < |c.requests| && c.requests[i].phase.Reading?
    case Deliver(i, _) => i < |c.requests| && IsOwed(c.requests[i])
    case RefreshReply(_) => InFlight(c) && c.refreshes[c.current.value].Calling?
    case RefreshBody(_) => InFlight(c) && c.refreshes[c.current.value].Parsing?
    case RefreshFailed => InFlight(c)
    case Resume(i) =>
      i < |c.requests| && c.requests[i].phase.Waiting? && c.requests[i].phase.refresh < |c.refreshes|
      && c.refreshes[c.requests[i].phase.refresh].Resolved?
    case StartRequest(_, kind) => kind != Session(true)
    case _ => true
  }

  /** Joins the refresh under way, or starts one. */
  function TryRefresh(c: Client): Client {
    if c.current.Some? then c else c.(current := Some(|c.refreshes|), refreshes := c.refreshes + [Calling])
  }

  /** The refresh settles: the shared promise is cleared, then its verdict is visible. */
  function Resolve(c: Client, ok: bool): Client
    requires c.current.Some? && c.current.value < |c.refreshes|
  {
    c.(current := None, refreshes := c.refreshes[c.current.value := Resolved(ok)])
  }

  function WithPhase(c: Client, i: nat, phase: Phase): Client
    requires i < |c.requests|
  {
    c.(requests := c.requests[i := c.requests[i].(phase := phase)])
  }

  predicate Exempt(r: Request) {
    r.path == REFRESH_PATH && !r.kind.Download?
  }

  /** Whether a 401 now makes the request await a refresh. */
  predicate MayRetry(r: Request) {
    r.phase == Sending(true) && !Exempt(r)
  }

  function Answered(c: Client, i: nat, response: Response): Client
    requires IsSending(c, i)
  {
    match response
    case NoContent => WithPhase(c, i, Settled(true))
    case Content => WithPhase(c, i, Reading(true))
    case Refused => WithPhase(c, i, Reading(false))
    case Unauthorized =>
      if MayRetry(c.requests[i]) then
        var joined := TryRefresh(c);
        WithPhase(joined, i, Waiting(joined.current.value))
      else WithPhase(c, i, Reading(false))
  }

  function Step(c: Client, e: Event): Client {
    if !Enabled(c, e) then c
    else match e
      case StartRequest(path, kind) => c.(requests := c.requests + [Request(path, kind, Sending(true), 1, None)])
      case StartRefresh => TryRefresh(c)
      case StoreToken(token) => c.(token := Some(token))
      case ClearToken => c.(token := None)
      case Reply(i, response) => Answered(c, i, response)
      case Body(i, parsed) => WithPhase(c, i, Settled(c.requests[i].phase.ok && parsed))
      case Unreachable(i) => WithPhase(c, i, Settled(false))
      case Deliver(i, delivery) =>
        c.(requests := c.requests[i := c.requests[i].(kind := Session(true))],
           token := match delivery case Keeps => c.token case Stores(token) => token)
      case RefreshReply(ok) =>
        if ok then c.(refreshes := c.refreshes[c.current.value := Parsing]) else Resolve(c, false)
      case RefreshBody(received) => Resolve(c.(token := received), true)
      case RefreshFailed => Resolve(c, false)
      case Resume(i) =>
        var r := c.requests[i];
        if c.refreshes[r.phase.refresh].ok
        then
          var again := Request(r.path, r.kind, Sending(false), r.sends + 1, Some(r.phase.refresh));
          c.(requests := c.requests[i := again])
        else WithPhase(c, i, Reading(false))
  }

  function Run(events: seq<Event>): Client {
    if events == [] then START else Step(Run(events[..|events| - 1]), events[|events| - 1])
  }

  // ----- safety -----

  /** The shared promise is set exactly for the one refresh that is not resolved. */
  ghost predicate SingleFlight(c: Client) {
    && (c.current.Some? ==> c.current.value < |c.refreshes|)
    && forall k :: 0 <= k < |c.refreshes| ==> (!c.refreshes[k].Resolved? <==> c.current == Some(k))
  }

  /** A request's own path goes out once, or twice after a refresh that resolved true; a refresh request of
      the caller's own is never retried. */
  ghost predicate RequestSound(c: Client, r: Request) {
    && 1 <= r.sends <= 2
    && (r.sends == 2 <==> r.after.Some?)
    && (r.after.Some? ==> r.after.value < |c.refreshes| && c.refreshes[r.after.value] == Resolved(true))
    && (Exempt(r) ==> r.sends == 1 && !r.phase.Waiting?)
    && match r.phase
       case Sending(retry) => retry <==> r.sends == 1
       case Waiting(k) => r.sends == 1 && k < |c.refreshes|
       case Reading(_) => true
       case Settled(_) => true
  }

  ghost predicate Sound(c: Client) {
    SingleFlight(c) && forall i :: 0 <= i < |c.requests| ==> RequestSound(c, c.requests[i])
  }

  /** Refreshes are added and resolved, never unresolved. */
  ghost predicate RefreshesPersist(before: Client, after: Client) {
    && |before.refreshes| <= |after.refreshes|
    && forall k :: 0 <= k < |before.refreshes| && before.refreshes[k].Resolved?
        ==> after.refreshes[k] == before.refreshes[k]
  }

  lemma StepPersists(c: Client, e: Event)
    requires SingleFlight(c)
    ensures RefreshesPersist(c, Step(c, e)) && SingleFlight(Step(c, e))
  {
  }

  lemma RequestStaysSound(c: Client, e: Event, i: nat)
    requires SingleFlight(c) && i < |c.requests| && RequestSound(c, c.requests[i])
    requires RefreshesPersist(c, Step(c, e))
    ensures i < |Step(c, e).requests| && RequestSound(Step(c, e), Step(c, e).requests[i])
  {
  }

  lemma NewRequestIsSound(c: Client, e: Event, i: nat)
    requires |c.requests| <= i < |Step(c, e).requests|
    ensures RequestSound(Step(c, e), Step(c, e).requests[i])
  {
  }

  lemma StepIsSound(c: Client, e: Event)
    requires Sound(c)
    ensures Sound(Step(c, e))
  {
    StepPersists(c, e);
    var next := Step(c, e);
    hide SingleFlight, Step;
    forall i | 0 <= i < |next.requests| ensures RequestSound(next, next.requests[i]) {
      if i < |c.requests| {
        assert RequestSound(c, c.requests[i]);
        RequestStaysSound(c, e, i);
      } else {
        NewRequestIsSound(c, e, i);
      }
    }
  }

  /** In every interleaving of concurrent requests: at most one refresh is under way, and the shared promise
      is set exactly then; no request sends its own path more than twice, and a second time only after a
      refresh that resolved true. */
  lemma {:induction false} EveryInterleavingIsSound(events: seq<Event>)
    ensures Sound(Run(events))
  {
    if events != [] {
      EveryInterleavingIsSound(events[..|events| - 1]);
      StepIsSound(Run(events[..|events| - 1]), events[|events| - 1]);
    }
  }

  /** Requests that wait for an unresolved refresh all wait for the one under way. */
  lemma WaitersShareOneRefresh(c: Client, i: nat)
    requires Sound(c) && i < |c.requests| && c.requests[i].phase.Waiting?
    ensures !c.refreshes[c.requests[i].phase.refresh].Resolved? <==> c.current == Some(c.requests[i].phase.refresh)
  {
    assert RequestSound(c, c.requests[i]);
  }

  /** An answer ends the sending of a request, unless it is the first 401 to a download or to a path other than
      the refresh: then the request waits for the refresh under way, and one is started exactly when none was. */
  lemma AnswersDecide(c: Client, i: nat, response: Response)
    requires Sound(c) && Enabled(c, Reply(i, response))
    ensures var next, r := Step(c, Reply(i, response)), c.requests[i];
            var after := next.requests[i].phase;
            if response == Unauthorized && r.sends == 1 && (r.path != REFRESH_PATH || r.kind == Download)
            then && after.Waiting? && next.current == Some(after.refresh)
                 && |next.refreshes| == |c.refreshes| + (if c.current.None? then 1 else 0)
            else && next.refreshes == c.refreshes
                 && after == if response == NoContent then Settled(true) else Reading(response == Content)
  {
    assert RequestSound(c, c.requests[i]);
  }

  // ----- the retry -----

  /** A resumed request is sent again, once and remembering its refresh, when that refresh resolved true, and
      otherwise ends with its 401; nothing else changes. */
  lemma ResumeDecides(c: Client, i: nat)
    requires Sound(c) && Enabled(c, Resume(i))
    ensures var next, r := Step(c, Resume(i)), c.requests[i];
            && next == c.(requests := c.requests[i := next.requests[i]])
            && next.requests[i] == if c.refreshes[r.phase.refresh] == Resolved(true)
                                   then r.(phase := Sending(false), sends := 2, after := Some(r.phase.refresh))
                                   else r.(phase := Reading(false))
  {
    assert RequestSound(c, c.requests[i]);
  }

  /** The request that an answer or a resumption is for. */
  function Concerns(e: Event): Option<nat> {
    match e
    case Reply(i, _) => Some(i)
    case Body(i, _) => Some(i)
    case Unreachable(i) => Some(i)
    case Deliver(i, _) => Some(i)
    case Resume(i) => Some(i)
    case _ => None
  }

  /** A request is sent once when it is started, and keeps its path and, but for the delivery, its kind. An
      event changes no request but the one it is for; an unreachable server fails its request; a settled
      request stays settled as it is. */
  lemma RequestsAreKept(c: Client, e: Event)
    ensures var next := Step(c, e).requests;
            && |next| == |c.requests| + (if e.StartRequest? && Enabled(c, e) then 1 else 0)
            && (|next| > |c.requests| ==> next[|c.requests|] == Request(e.path, e.kind, Sending(true), 1, None))
            && (forall i | 0 <= i < |c.requests| ::
                  && (Concerns(e) != Some(i) ==> next[i] == c.requests[i])
                  && next[i].path == c.requests[i].path
                  && (!e.Deliver? ==> next[i].kind == c.requests[i].kind)
                  && (c.requests[i].phase.Settled? ==> next[i].phase == c.requests[i].phase)
                  && (e == Unreachable(i) && Enabled(c, e) ==> next[i].phase == Settled(false)))
  {
  }

  /** A refresh gets its verdict while it is the one under way: true when its body is read, false when it is
      refused or fails. Until then the verdict is open, and afterwards it stands. */
  lemma VerdictStep(c: Client, e: Event, f: nat)
    requires SingleFlight(c)
    ensures VerdictIs(Step(c, e), f, true) <==>
              VerdictIs(c, f, true) || (e.RefreshBody? && Enabled(c, e) && c.current == Some(f))
    ensures VerdictIs(Step(c, e), f, false) <==>
              VerdictIs(c, f, false)
              || ((e == RefreshReply(false) || e == RefreshFailed) && Enabled(c, e) && c.current == Some(f))
  {
  }

  ghost predicate VerdictIs(c: Client, f: nat, ok: bool) {
    f < |c.refreshes| && c.refreshes[f] == Resolved(ok)
  }

  /** Event k reads the body of refresh f. */
  ghost predicate RefreshedAt(events: seq<Event>, k: nat, f: nat) {
    && k < |events| && events[k].RefreshBody? && Enabled(Run(events[..k]), events[k])
    && Run(events[..k]).current == Some(f)
  }

  lemma RefreshedBefore(events: seq<Event>, k: nat, f: nat, n: nat)
    requires k < n <= |events|
    ensures RefreshedAt(events, k, f) <==> RefreshedAt(events[..n], k, f)
  {
    assert events[..n][..k] == events[..k];
  }

  lemma {:induction false} VerdictWasRead(events: seq<Event>, f: nat)
    ensures VerdictIs(Run(events), f, true) <==> exists k: nat :: RefreshedAt(events, k, f)
  {
    if events != [] {
      var n := |events| - 1;
      VerdictWasRead(events[..n], f);
      EveryInterleavingIsSound(events[..n]);
      VerdictStep(Run(events[..n]), events[n], f);
      hide Enabled, Step, VerdictIs;
      forall k: nat | k < n ensures RefreshedAt(events, k, f) <==> RefreshedAt(events[..n], k, f) {
        RefreshedBefore(events, k, f, n);
      }
      assert RefreshedAt(events, n, f) <==>
        events[n].RefreshBody? && Enabled(Run(events[..n]), events[n]) && Run(events[..n]).current == Some(f);
    } else {
      assert Run(events) == START;
    }
  }

  /** Event m lets request i, which waits for refresh f, go on. */
  ghost predicate ResumedAt(events: seq<Event>, m: nat, i: nat, f: nat) {
    && m < |events| && events[m] == Resume(i) && Enabled(Run(events[..m]), events[m])
    && Run(events[..m]).requests[i].phase == Waiting(f)
  }

  /** Event m lets request i go on after the body of its refresh was read. */
  ghost predicate RetriedAt(events: seq<Event>, m: nat, i: nat) {
    exists f: nat, k: nat :: ResumedAt(events, m, i, f) && k < m && RefreshedAt(events, k, f)
  }

  ghost predicate SentTwice(c: Client, i: nat) {
    i < |c.requests| && c.requests[i].sends == 2
  }

  lemma SendsStep(c: Client, e: Event, i: nat)
    requires Sound(c)
    ensures SentTwice(Step(c, e), i) <==>
              SentTwice(c, i)
              || (e == Resume(i) && Enabled(c, e) && VerdictIs(c, c.requests[i].phase.refresh, true))
  {
    if i < |c.requests| {
      assert RequestSound(c, c.requests[i]);
    }
  }

  lemma RetryStep(events: seq<Event>, i: nat)
    requires events != []
    ensures var n := |events| - 1;
            var before := Run(events[..n]);
            RetriedAt(events, n, i) <==>
              events[n] == Resume(i) && Enabled(before, events[n])
              && VerdictIs(before, before.requests[i].phase.refresh, true)
  {
    var n := |events| - 1;
    if events[n] == Resume(i) && Enabled(Run(events[..n]), events[n]) {
      var f := Run(events[..n]).requests[i].phase.refresh;
      VerdictWasRead(events[..n], f);
      hide VerdictIs;
      assert ResumedAt(events, n, i, f);
      forall k: nat | k < n ensures RefreshedAt(events, k, f) <==> RefreshedAt(events[..n], k, f) {
        RefreshedBefore(events, k, f, n);
      }
    }
  }

  lemma RetriedBefore(events: seq<Event>, m: nat, i: nat, n: nat)
    requires m < n <= |events|
    ensures RetriedAt(events, m, i) <==> RetriedAt(events[..n], m, i)
  {
    assert events[..n][..m] == events[..m];
    assert forall f :: ResumedAt(events, m, i, f) <==> ResumedAt(events[..n], m, i, f);
    forall k: nat, f: nat | k < m ensures RefreshedAt(events, k, f) <==> RefreshedAt(events[..n], k, f) {
      RefreshedBefore(events, k, f, n);
    }
    hide ResumedAt, RefreshedAt;
  }

  /** In every interleaving a request has been sent a second time exactly when it went on after the body of
      the refresh it waited for was read. */
  lemma {:induction false} RetriedExactly(events: seq<Event>, i: nat)
    ensures SentTwice(Run(events), i) <==> exists m: nat :: RetriedAt(events, m, i)
  {
    if events != [] {
      var n := |events| - 1;
      RetriedExactly(events[..n], i);
      EveryInterleavingIsSound(events[..n]);
      SendsStep(Run(events[..n]), events[n], i);
      RetryStep(events, i);
      hide Enabled, Step, SentTwice, VerdictIs;
      forall m: nat | m < n ensures RetriedAt(events, m, i) <==> RetriedAt(events[..n], m, i) {
        RetriedBefore(events, m, i, n);
      }
      assert forall m: nat :: RetriedAt(events, m, i) ==> m <= n;
    } else {
      assert Run(events) == START;
    }
  }

  /** The answers under which a request that meets its first 401 is sent again and succeeds. */
  lemma RetryCanSucceed(c: Client, i: nat, token: string) returns (events: seq<Event>)
    requires Sound(c) && i < |c.requests| && MayRetry(c.requests[i])
    ensures AllEnabled(c, events) && events != [] && events[0] == Reply(i, Unauthorized)
    ensures var end := Continue(c, events);
            PhaseIs(end, i, Settled(true)) && SentTwice(end, i) && end.token == Some(token)
  {
    assert RequestSound(c, c.requests[i]);
    var c1 := Step(c, Reply(i, Unauthorized));
    var f := c1.current.value;
    var c2 := if c1.refreshes[f].Calling? then Step(c1, RefreshReply(true)) else c1;
    var c3 := Step(c2, RefreshBody(Some(token)));
    StepIsSound(c, Reply(i, Unauthorized));
    if c1.refreshes[f].Calling? {
      StepIsSound(c1, RefreshReply(true));
    }
    StepIsSound(c2, RefreshBody(Some(token)));
    assert c3.requests[i].phase == Waiting(f) && c3.refreshes[f] == Resolved(true) && c3.token == Some(token);
    var e4, e5 := Resume(i), Reply(i, NoContent);
    var c4 := Step(c3, e4);
    ResumeDecides(c3, i);
    var last := [e4, e5];
    OneEvent(c4, e5);
    Chain(c3, e4, [e5]);
    Chain(c2, RefreshBody(Some(token)), [e4] + [e5]);
    events := [RefreshBody(Some(token))] + ([e4] + [e5]);
    if c1.refreshes[f].Calling? {
      Chain(c1, RefreshReply(true), events);
      events := [RefreshReply(true)] + events;
    }
    Chain(c, Reply(i, Unauthorized), events);
    events := [Reply(i, Unauthorized)] + events;
  }

  lemma Chain(c: Client, e: Event, rest: seq<Event>)
    requires Enabled(c, e) && !Opens(e) && AllEnabled(Step(c, e), rest)
    ensures AllEnabled(c, [e] + rest) && Continue(c, [e] + rest) == Continue(Step(c, e), rest)
  {
    assert ([e] + rest)[1..] == rest;
  }

  // ----- success -----

  /** Event k is this answer to request i, which was waiting for it. */
  ghost predicate AnsweredAt(events: seq<Event>, k: nat, i: nat, response: Response) {
    k < |events| && events[k] == Reply(i, response) && Enabled(Run(events[..k]), events[k])
  }

  /** Event k completes request i: an accepting answer without a body, or the body of one that had it. */
  ghost predicate CompletedAt(events: seq<Event>, k: nat, i: nat) {
    && k < |events| && Enabled(Run(events[..k]), events[k])
    && (events[k] == Reply(i, NoContent)
        || (events[k] == Body(i, true) && exists j: nat :: j < k && AnsweredAt(events, j, i, Content)))
  }

  ghost predicate PhaseIs(c: Client, i: nat, phase: Phase) {
    i < |c.requests| && c.requests[i].phase == phase
  }

  ghost predicate Done(c: Client, i: nat) {
    i < |c.requests| && (c.requests[i].phase.Settled? || c.requests[i].phase == Reading(true))
  }

  lemma SuccessStep(c: Client, e: Event, i: nat)
    ensures PhaseIs(Step(c, e), i, Settled(true)) <==>
              PhaseIs(c, i, Settled(true))
              || (Enabled(c, e) && (e == Reply(i, NoContent) || (e == Body(i, true) && PhaseIs(c, i, Reading(true)))))
    ensures PhaseIs(Step(c, e), i, Reading(true)) ==>
              PhaseIs(c, i, Reading(true)) || (e == Reply(i, Content) && Enabled(c, e))
    ensures Done(c, i) || (e == Reply(i, Content) && Enabled(c, e)) ==> Done(Step(c, e), i)
  {
  }

  lemma AnsweredBefore(events: seq<Event>, k: nat, i: nat, response: Response, n: nat)
    requires k < n <= |events|
    ensures AnsweredAt(events, k, i, response) <==> AnsweredAt(events[..n], k, i, response)
  {
    assert events[..n][..k] == events[..k];
  }

  /** A request reads a success body only after an accepting answer; after one it does so until it settles. */
  lemma {:induction false} ReadingWasAccepted(events: seq<Event>, i: nat)
    ensures PhaseIs(Run(events), i, Reading(true)) ==> exists j: nat :: AnsweredAt(events, j, i, Content)
    ensures (exists j: nat :: AnsweredAt(events, j, i, Content)) ==> Done(Run(events), i)
  {
    if events != [] {
      var n := |events| - 1;
      hide Enabled, Step, PhaseIs, Done;
      ReadingWasAccepted(events[..n], i);
      SuccessStep(Run(events[..n]), events[n], i);
      forall j: nat | j < n ensures AnsweredAt(events, j, i, Content) <==> AnsweredAt(events[..n], j, i, Content) {
        AnsweredBefore(events, j, i, Content, n);
      }
      assert AnsweredAt(events, n, i, Content) <==>
        events[n] == Reply(i, Content) && Enabled(Run(events[..n]), events[n]);
    } else {
      assert Run(events) == START;
    }
  }

  lemma CompletionStep(events: seq<Event>, i: nat)
    requires events != []
    ensures var n := |events| - 1;
            CompletedAt(events, n, i) <==>
              Enabled(Run(events[..n]), events[n])
              && (events[n] == Reply(i, NoContent)
                  || (events[n] == Body(i, true) && PhaseIs(Run(events[..n]), i, Reading(true))))
  {
    var n := |events| - 1;
    ReadingWasAccepted(events[..n], i);
    forall j: nat | j < n ensures AnsweredAt(events, j, i, Content) <==> AnsweredAt(events[..n], j, i, Content) {
      AnsweredBefore(events, j, i, Content, n);
    }
    if events[n] == Body(i, true) && Enabled(Run(events[..n]), events[n]) {
      if j: nat :| j < n && AnsweredAt(events, j, i, Content) {
        assert Done(Run(events[..n]), i);
      }
      if j: nat :| AnsweredAt(events[..n], j, i, Content) {
        assert j < n && AnsweredAt(events, j, i, Content);
      }
    }
  }

  /** In every interleaving a request has succeeded exactly when the server accepted it and the body, if
      there was one, was read. */
  lemma {:induction false} SuccessWasAccepted(events: seq<Event>, i: nat)
    ensures PhaseIs(Run(events), i, Settled(true)) <==> exists k: nat :: CompletedAt(events, k, i)
  {
    if events != [] {
      var n := |events| - 1;
      SuccessWasAccepted(events[..n], i);
      SuccessStep(Run(events[..n]), events[n], i);
      CompletionStep(events, i);
      hide Enabled, Step, PhaseIs;
      forall k: nat | k < n ensures CompletedAt(events, k, i) <==> CompletedAt(events[..n], k, i) {
        assert events[..n][..k] == events[..k];
        forall j: nat | j < k
          ensures AnsweredAt(events, j, i, Content) <==> AnsweredAt(events[..n], j, i, Content)
        {
          AnsweredBefore(events, j, i, Content, n);
        }
      }
    } else {
      assert Run(events) == START;
    }
  }

  // ----- the token -----

  /** The event assigns the token. */
  predicate Writes(c: Client, e: Event) {
    e.StoreToken? || e.ClearToken? || ((e.RefreshBody? || (e.Deliver? && e.delivery.Stores?)) && Enabled(c, e))
  }

  function Written(e: Event): Option<string> {
    match e
    case StoreToken(token) => Some(token)
    case RefreshBody(received) => received
    case Deliver(_, Stores(token)) => token
    case _ => None
  }

  ghost predicate WrittenAt(events: seq<Event>, k: nat) {
    k < |events| && Writes(Run(events[..k]), events[k])
  }

  ghost predicate LastWrittenAt(events: seq<Event>, k: nat) {
    WrittenAt(events, k) && forall j: nat :: k < j < |events| ==> !WrittenAt(events, j)
  }

  lemma TokenStep(c: Client, e: Event)
    ensures Step(c, e).token == if Writes(c, e) then Written(e) else c.token
  {
  }

  lemma EarlierWrites(events: seq<Event>, n: nat)
    requires n <= |events|
    ensures forall k: nat | k < n :: WrittenAt(events, k) <==> WrittenAt(events[..n], k)
  {
    forall k: nat | k < n ensures WrittenAt(events, k) <==> WrittenAt(events[..n], k) {
      assert events[..n][..k] == events[..k];
    }
  }

  lemma {:induction false} LastWriteIsHeld(events: seq<Event>, k: nat)
    requires LastWrittenAt(events, k)
    ensures Run(events).token == Written(events[k])
  {
    var n := |events| - 1;
    TokenStep(Run(events[..n]), events[n]);
    EarlierWrites(events, n);
    hide Writes, Step;
    if k < n {
      assert !WrittenAt(events, n);
      assert LastWrittenAt(events[..n], k);
      LastWriteIsHeld(events[..n], k);
    }
  }

  lemma {:induction false} UnwrittenIsEmpty(events: seq<Event>)
    requires forall k: nat :: !WrittenAt(events, k)
    ensures Run(events).token == None
  {
    if events == [] {
      assert Run(events) == START;
    } else {
      var n := |events| - 1;
      TokenStep(Run(events[..n]), events[n]);
      EarlierWrites(events, n);
      hide Writes, Step;
      assert !WrittenAt(events, n);
      forall k: nat ensures !WrittenAt(events[..n], k) {
        assert k < n ==> !WrittenAt(events, k);
      }
      UnwrittenIsEmpty(events[..n]);
    }
  }

  /** The client holds what the last writer wrote, and nothing if no one has: requests, answers, joined and
      failed refreshes leave the token alone. */
  lemma TokenIsLastWritten(events: seq<Event>)
    ensures forall k: nat :: LastWrittenAt(events, k) ==> Run(events).token == Written(events[k])
    ensures (forall k: nat :: !WrittenAt(events, k)) ==> Run(events).token == None
  {
    hide Writes, Run, Written;
    forall k: nat | LastWrittenAt(events, k) ensures k < |events| && Run(events).token == Written(events[k]) {
      LastWriteIsHeld(events, k);
    }
    if forall k: nat :: !WrittenAt(events, k) {
      UnwrittenIsEmpty(events);
    }
  }

  // ----- progress -----

  function RequestWork(r: Request): nat {
    (if r.kind == Session(false) then 1 else 0) +
    match r.phase
    case Sending(retry) => if retry then 6 else 2
    case Waiting(_) => 3
    case Reading(_) => 1
    case Settled(_) => 0
  }

  function RefreshWork(r: Refresh): nat {
    match r case Calling => 2 case Parsing => 1 case Resolved(_) => 0
  }

  function RequestsWork(rs: seq<Request>): nat {
    if rs == [] then 0 else RequestsWork(rs[..|rs| - 1]) + RequestWork(rs[|rs| - 1])
  }

  function RefreshesWork(rs: seq<Refresh>): nat {
    if rs == [] then 0 else RefreshesWork(rs[..|rs| - 1]) + RefreshWork(rs[|rs| - 1])
  }

  /** A bound on the events the calls under way can still take. */
  function Work(c: Client): nat {
    RequestsWork(c.requests) + RefreshesWork(c.refreshes)
  }

  lemma {:induction false} UpdateRequest(rs: seq<Request>, i: nat, r: Request)
    requires i < |rs|
    ensures RequestsWork(rs[i := r]) == RequestsWork(rs) - RequestWork(rs[i]) + RequestWork(r)
  {
    var n := |rs| - 1;
    if i < n {
      UpdateRequest(rs[..n], i, r);
      assert rs[i := r][..n] == rs[..n][i := r];
    } else {
      assert rs[i := r][..n] == rs[..n];
    }
  }

  lemma {:induction false} UpdateRefresh(rs: seq<Refresh>, i: nat, r: Refresh)
    requires i < |rs|
    ensures RefreshesWork(rs[i := r]) == RefreshesWork(rs) - RefreshWork(rs[i]) + RefreshWork(r)
  {
    var n := |rs| - 1;
    if i < n {
      UpdateRefresh(rs[..n], i, r);
      assert rs[i := r][..n] == rs[..n][i := r];
    } else {
      assert rs[i := r][..n] == rs[..n];
    }
  }

  lemma AppendRefresh(rs: seq<Refresh>, r: Refresh)
    ensures RefreshesWork(rs + [r]) == RefreshesWork(rs) + RefreshWork(r)
  {
    assert (rs + [r])[..|rs|] == rs;
  }

  /** Every answer, failure and resumption uses up work. */
  lemma StepUsesWork(c: Client, e: Event)
    requires Sound(c) && Enabled(c, e) && !Opens(e)
    ensures Work(Step(c, e)) < Work(c)
  {
    var next := Step(c, e);
    hide RequestsWork, RefreshesWork;
    if c.current.Some? {
      var k := c.current.value;
      UpdateRefresh(c.refreshes, k, next.refreshes[k]);
      assert c.refreshes[k := next.refreshes[k]] == next.refreshes || next.refreshes == c.refreshes;
    }
    match e
    case Reply(i, _) =>
      assert RequestSound(c, c.requests[i]);
      UpdateRequest(c.requests, i, next.requests[i]);
      AppendRefresh(c.refreshes, Calling);
    case Unreachable(i) => UpdateRequest(c.requests, i, next.requests[i]);
    case Body(i, _) => UpdateRequest(c.requests, i, next.requests[i]);
    case Resume(i) => UpdateRequest(c.requests, i, next.requests[i]);
    case Deliver(i, _) => UpdateRequest(c.requests, i, next.requests[i]);
    case RefreshReply(_) =>
    case RefreshBody(_) =>
    case RefreshFailed =>
  }

  /** Nothing is left to answer or to resume. */
  ghost predicate Quiet(c: Client) {
    forall e :: Enabled(c, e) ==> Opens(e)
  }

  /** While a request is not settled, some answer or resumption is outstanding: no request waits for nothing. */
  lemma UnsettledIsNotStuck(c: Client, i: nat)
    requires Sound(c) && i < |c.requests| && !c.requests[i].phase.Settled?
    ensures !Quiet(c)
  {
    assert RequestSound(c, c.requests[i]);
    match c.requests[i].phase
    case Sending(_) => assert Enabled(c, Unreachable(i));
    case Waiting(k) =>
      if c.refreshes[k].Resolved? {
        assert Enabled(c, Resume(i));
      } else {
        assert Enabled(c, RefreshFailed);
      }
    case Reading(_) => assert Enabled(c, Body(i, true));
    case Settled(_) =>
  }

  function Continue(c: Client, events: seq<Event>): Client
    decreases |events|
  {
    if events == [] then c else Continue(Step(c, events[0]), events[1..])
  }

  ghost predicate AllEnabled(c: Client, events: seq<Event>)
    decreases |events|
  {
    events == [] || (Enabled(c, events[0]) && !Opens(events[0]) && AllEnabled(Step(c, events[0]), events[1..]))
  }

  /** Once nothing new is started, at most Work(c) events remain; and if they have run until none is
      enabled, so that every fetch has settled, every request has settled and every result is delivered. */
  lemma {:induction false} RequestsSettle(c: Client, events: seq<Event>)
    requires Sound(c) && AllEnabled(c, events)
    ensures |events| <= Work(c)
    ensures var end := Continue(c, events);
            Quiet(end) ==> forall i :: 0 <= i < |end.requests| ==>
                             end.requests[i].phase.Settled? && !IsOwed(end.requests[i])
    decreases |events|
  {
    if events == [] {
      forall i | 0 <= i < |c.requests| && !c.requests[i].phase.Settled? ensures !Quiet(c) {
        UnsettledIsNotStuck(c, i);
      }
      forall i | 0 <= i < |c.requests| && IsOwed(c.requests[i]) ensures !Quiet(c) {
        assert Enabled(c, Deliver(i, Keeps));
      }
    } else {
      StepUsesWork(c, events[0]);
      StepIsSound(c, events[0]);
      RequestsSettle(Step(c, events[0]), events[1..]);
    }
  }

  // ----- logout -----

  /** The request can still succeed and have its caller store a token; while it waits for a refresh under way
      that refresh decides. */
  predicate MayDeliver(c: Client, r: Request) {
    r.kind == Session(false) &&
    match r.phase
    case Sending(_) => true
    case Waiting(k) => k < |c.refreshes| && c.refreshes[k] == Resolved(true)
    case Reading(ok) => ok
    case Settled(succeeded) => succeeded
  }

  /** A refresh is under way, an answer to some request or download can still start one, or a session request
      can still deliver a token. */
  ghost predicate MayBringToken(c: Client) {
    || c.current.Some?
    || exists i :: 0 <= i < |c.requests| && (MayRetry(c.requests[i]) || MayDeliver(c, c.requests[i]))
  }

  lemma QuietRequest(c: Client, e: Event, i: nat)
    requires Sound(c) && !MayBringToken(c) && Enabled(c, e) && !Opens(e) && i < |Step(c, e).requests|
    ensures !MayRetry(Step(c, e).requests[i]) && !MayDeliver(Step(c, e), Step(c, e).requests[i])
  {
    assert RequestSound(c, c.requests[i]);
  }

  lemma QuietStepKeepsToken(c: Client, e: Event)
    requires Sound(c) && !MayBringToken(c) && Enabled(c, e) && !Opens(e)
    ensures Step(c, e).token == c.token && !MayBringToken(Step(c, e))
  {
    forall i | 0 <= i < |Step(c, e).requests|
      ensures !MayRetry(Step(c, e).requests[i]) && !MayDeliver(Step(c, e), Step(c, e).requests[i])
    {
      QuietRequest(c, e, i);
    }
    hide SingleFlight, RequestSound;
  }

  lemma {:induction false} QuietRunKeepsToken(c: Client, events: seq<Event>)
    requires Sound(c) && !MayBringToken(c) && AllEnabled(c, events)
    ensures Continue(c, events).token == c.token
    decreases |events|
  {
    if events != [] {
      QuietStepKeepsToken(c, events[0]);
      StepIsSound(c, events[0]);
      QuietRunKeepsToken(Step(c, events[0]), events[1..]);
    }
  }

  lemma OneEvent(c: Client, e: Event)
    ensures Continue(c, [e]) == Step(c, e)
    ensures AllEnabled(c, [e]) <==> Enabled(c, e) && !Opens(e)
  {
    assert [e][1..] == [];
    assert Continue(Step(c, e), []) == Step(c, e);
  }

  /** The event brings the token, or a state that may still bring one. */
  ghost predicate BringsCloser(c: Client, e: Event, token: string) {
    Enabled(c, e) && !Opens(e) && (Step(c, e).token == Some(token) || MayBringToken(Step(c, e)))
  }

  lemma RefreshBringsCloser(c: Client, token: string) returns (e: Event)
    requires Sound(c) && c.current.Some?
    ensures BringsCloser(c, e, token)
  {
    e := if c.refreshes[c.current.value].Calling? then RefreshReply(true) else RefreshBody(Some(token));
  }

  lemma RequestBringsCloser(c: Client, i: nat, token: string) returns (e: Event)
    requires Sound(c) && i < |c.requests| && (MayRetry(c.requests[i]) || MayDeliver(c, c.requests[i]))
    ensures BringsCloser(c, e, token)
  {
    assert RequestSound(c, c.requests[i]);
    if MayRetry(c.requests[i]) {
      e := Reply(i, Unauthorized);
    } else {
      match c.requests[i].phase {
        case Sending(_) => e := Reply(i, Content);
        case Waiting(_) => e := Resume(i);
        case Reading(_) => e := Body(i, true);
        case Settled(_) => e := Deliver(i, Stores(Some(token)));
      }
      if !e.Deliver? {
        assert MayDeliver(Step(c, e), Step(c, e).requests[i]);
      }
    }
  }

  lemma {:induction false} MayBringStores(c: Client, token: string) returns (events: seq<Event>)
    requires Sound(c) && MayBringToken(c)
    ensures AllEnabled(c, events) && Continue(c, events).token == Some(token)
    decreases Work(c)
  {
    var e: Event;
    if c.current.Some? {
      e := RefreshBringsCloser(c, token);
    } else {
      var i :| 0 <= i < |c.requests| && (MayRetry(c.requests[i]) || MayDeliver(c, c.requests[i]));
      e := RequestBringsCloser(c, i, token);
    }
    StepIsSound(c, e);
    StepUsesWork(c, e);
    hide Step, Enabled, MayBringToken, Sound;
    if Step(c, e).token == Some(token) {
      events := [e];
      OneEvent(c, e);
    } else {
      var rest := MayBringStores(Step(c, e), token);
      events := [e] + rest;
      assert events[1..] == rest;
    }
  }

  /** A logout is final, whatever the calls under way still do while no caller starts anything new, exactly
      when no refresh is under way, no request or download can still start one, and no session request can
      still deliver a token: each of these outlives the logout and stores its token afterwards. */
  lemma LogoutIsFinalExactly(c: Client)
    requires Sound(c)
    ensures (forall events :: AllEnabled(Step(c, ClearToken), events)
                              ==> Continue(Step(c, ClearToken), events).token == None)
       <==> !MayBringToken(c)
  {
    var out := Step(c, ClearToken);
    StepIsSound(c, ClearToken);
    assert forall r :: MayDeliver(out, r) == MayDeliver(c, r);
    assert MayBringToken(out) <==> MayBringToken(c);
    if MayBringToken(c) {
      var events := MayBringStores(out, "");
    } else {
      forall events | AllEnabled(out, events) ensures Continue(out, events).token == None {
        QuietRunKeepsToken(out, events);
      }
    }
  }
}
