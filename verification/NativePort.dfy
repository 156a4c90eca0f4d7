/**
 The extension worker's link to the native host: one port, a reconnect timer with
 exponential backoff, a keepalive alarm, and the requests waiting for an answer.
 Callbacks run one at a time; everything the browser decides (whether connecting
 throws, which timer fires, what arrives) is part of the event.
 */
module NativePort {
  import opened Prelude
  import opened Numbers

  const RECONNECT_BASE_MS := 1000
  const RECONNECT_MAX_MS := 30000

  /** What opening a port does: works, throws at once, or throws when the hello is posted on the new port. */
  datatype Opening = Connects | ConnectThrows | HelloThrows

  datatype Timer = Reconnect(attempt: nat, delay: nat) | Timeout(request: nat)

  datatype How = Resolved | RejectedByHost | TimedOut | Disconnected | PostThrew

  /** One call of a request's resolve or reject. */
  datatype Settlement = Settlement(request: nat, how: How)

  /**
   `timers` are the timers set and neither fired nor cleared, `open` the ports
   whose listeners can still be called, `pending` maps a request to its timer.
   */
  datatype Link = Link(port: Option<nat>, connected: bool, timer: Option<nat>, attempts: nat,
                       pending: map<nat, nat>, timers: map<nat, Timer>, open: set<nat>,
                       requests: nat, timersSet: nat, portsOpened: nat, settled: multiset<Settlement>)

  const INITIAL := Link(None, false, None, 0, map[], map[], {}, 0, 0, 0, multiset{})

  datatype Event =
    | Ensure(opening: Opening)                        // install, browser start
    | Alarm(opening: Opening)
    | Fire(timer: nat, opening: Opening)              // `opening` matters to the reconnect timer only
    | Message(port: nat, reply: Option<(nat, bool)>)  // a reply names a request and whether it is ok
    | Disconnect(port: nat)
    | Send(opening: Opening, postThrows: bool)

  function Pow2(n: nat): nat {
    if n == 0 then 1 else 2 * Pow2(n - 1)
  }

  function Delay(attempts: nat): nat {
    Min(RECONNECT_MAX_MS, RECONNECT_BASE_MS * Pow2(Min(attempts, 10)))
  }

  function Scheduled(l: Link): Link {
    if l.timer.Some? || l.port.Some? then l
    else
      l.(timer := Some(l.timersSet), attempts := l.attempts + 1, timersSet := l.timersSet + 1,
         timers := l.timers[l.timersSet := Reconnect(l.attempts, Delay(l.attempts))])
  }

  /** `ensureNativePort`; `false` means it threw. */
  function Ensured(l: Link, opening: Opening): (Link, bool) {
    if l.port.Some? then (l, true)
    else
      match opening
      case Connects =>
        (l.(port := Some(l.portsOpened), connected := true, portsOpened := l.portsOpened + 1,
            open := l.open + {l.portsOpened}), true)
      case ConnectThrows => (l.(connected := false), false)
      case HelloThrows =>
        (l.(connected := false, portsOpened := l.portsOpened + 1, open := l.open + {l.portsOpened}), false)
  }

  function Settle(l: Link, request: nat, how: How): Link
    requires request in l.pending
  {
    l.(pending := l.pending - {request}, timers := l.timers - {l.pending[request]},
       settled := l.settled + multiset{Settlement(request, how)})
  }

  /** Any message proves the host alive: the backoff starts over and a running retry is called off. */
  function Awake(l: Link): Link {
    l.(attempts := 0, timer := None, timers := if l.timer.Some? then l.timers - {l.timer.value} else l.timers)
  }

  function Received(l: Link, reply: Option<(nat, bool)>): Link {
    var awake := Awake(l);
    match reply
    case Some((request, ok)) =>
      if request in awake.pending then Settle(awake, request, if ok then Resolved else RejectedByHost) else awake
    case None => awake
  }

  /** The settlements of a disconnect that rejects `requests`. */
  function Rejections(requests: set<nat>): multiset<Settlement> {
    multiset(set r | r in requests :: Settlement(r, Disconnected))
  }

  function TimersOf(pending: map<nat, nat>, requests: set<nat>): set<nat>
    requires requests <= pending.Keys
  {
    set r | r in requests :: pending[r]
  }

  /** The loop over the pending map. */
  function Rejected(l: Link): Link {
    l.(pending := map[], timers := l.timers - TimersOf(l.pending, l.pending.Keys),
       settled := l.settled + Rejections(l.pending.Keys))
  }

  /** The disconnect callback up to its call of `scheduleReconnect`. */
  function Cut(l: Link, port: nat): Link {
    Rejected(l.(open := l.open - {port}, port := None, connected := false))
  }

  function Dropped(l: Link, port: nat): Link {
    Scheduled(Cut(l, port))
  }

  function Fired(l: Link, t: nat, opening: Opening): Link
    requires t in l.timers
  {
    match l.timers[t]
    case Reconnect(_, _) =>
      var (next, ok) := Ensured(l.(timers := l.timers - {t}, timer := None), opening);
      if ok then next else Scheduled(next)
    case Timeout(request) =>
      l.(timers := l.timers - {t}, pending := l.pending - {request},
         settled := l.settled + multiset{Settlement(request, TimedOut)})
  }

  function Sent(l: Link, opening: Opening, postThrows: bool): Link {
    var (next, ok) := Ensured(l, opening);
    if !ok then next
    else
      next.(requests := next.requests + 1, timersSet := next.timersSet + 1,
            pending := next.pending[next.requests := next.timersSet],
            timers := next.timers[next.timersSet := Timeout(next.requests)],
            settled := next.settled + if postThrows then multiset{Settlement(next.requests, PostThrew)} else multiset{})
  }

  predicate Enabled(l: Link, e: Event) {
    match e
    case Fire(t, _) => t in l.timers
    case Message(p, _) => p in l.open
    case Disconnect(p) => p in l.open
    case _ => true
  }

  function Next(l: Link, e: Event): Link
    requires Enabled(l, e)
  {
    match e
    case Ensure(opening) => Ensured(l, opening).0
    case Alarm(opening) => if l.connected && l.port.Some? then l else Ensured(l, opening).0
    case Fire(t, opening) => Fired(l, t, opening)
    case Message(_, reply) => Received(l, reply)
    case Disconnect(p) => Dropped(l, p)
    case Send(opening, postThrows) => Sent(l, opening, postThrows)
  }

  predicate Possible(l: Link, run: seq<Event>)
    decreases |run|
  {
    run == [] || (Enabled(l, run[0]) && Possible(Next(l, run[0]), run[1..]))
  }

  function After(l: Link, run: seq<Event>): Link
    requires Possible(l, run)
    decreases |run|
  {
    if run == [] then l else After(Next(l, run[0]), run[1..])
  }

  /** Posting the hello on a port just opened does not throw in this event. */
  predicate HelloSucceeds(e: Event) {
    match e
    case Ensure(opening) => !opening.HelloThrows?
    case Alarm(opening) => !opening.HelloThrows?
    case Fire(_, opening) => !opening.HelloThrows?
    case Send(opening, _) => !opening.HelloThrows?
    case _ => true
  }

  /** Posting the request itself does not throw in this event. */
  predicate PostSucceeds(e: Event) {
    e.Send? ==> !e.postThrows
  }

  // ---------------------------------------------------------------- backoff

  lemma {:induction false} Pow2Saturates(n: nat)
    requires n >= 10
    ensures Pow2(n) >= 1024
  {
    if n == 10 {
      assert Pow2(5) == 32 && Pow2(10) == 32 * Pow2(5);
    } else {
      Pow2Saturates(n - 1);
    }
  }

  /** Capping the exponent never changes the delay. */
  lemma DelayIsCappedDoubling(n: nat)
    ensures Delay(n) == Min(30000, 1000 * Pow2(n))
  {
    if n > 10 {
      Pow2Saturates(n);
      Pow2Saturates(10);
    }
  }

  // -------------------------------------------------- invariant of every run

  ghost predicate Inv(l: Link) {
    && (l.connected <==> l.port.Some?)
    && (forall t :: t in l.timers && l.timers[t].Reconnect? <==> l.timer == Some(t))
    && (forall t :: t in l.timers && l.timers[t].Reconnect? ==> l.timers[t].delay == Delay(l.timers[t].attempt))
    && (forall r :: r in l.pending ==> l.pending[r] in l.timers && l.timers[l.pending[r]] == Timeout(r))
    && (forall t :: t in l.timers && l.timers[t].Timeout? ==>
          l.timers[t].request in l.pending && l.pending[l.timers[t].request] == t)
    && (forall t :: t in l.timers ==> t < l.timersSet)
    && (forall r :: r in l.pending ==> r < l.requests)
    && (forall p :: p in l.open ==> p < l.portsOpened)
    && (l.port.Some? ==> l.port.value in l.open)
  }

  lemma EnsuredKeepsInv(l: Link, opening: Opening)
    requires Inv(l)
    ensures Inv(Ensured(l, opening).0)
  {
  }

  lemma ScheduledKeepsInv(l: Link)
    requires Inv(l)
    ensures Inv(Scheduled(l))
  {
  }

  lemma ReceivedKeepsInv(l: Link, reply: Option<(nat, bool)>)
    requires Inv(l)
    ensures Inv(Received(l, reply))
  {
  }

  lemma CutKeepsInv(l: Link, port: nat)
    requires Inv(l)
    ensures Inv(Cut(l, port))
  {
    forall t | t in l.timers && l.timers[t].Timeout?
      ensures t in TimersOf(l.pending, l.pending.Keys)
    {
      assert l.pending[l.timers[t].request] == t;
    }
  }

  lemma FiredKeepsInv(l: Link, t: nat, opening: Opening)
    requires Inv(l) && t in l.timers
    ensures Inv(Fired(l, t, opening))
  {
    if l.timers[t].Reconnect? {
      var rung := l.(timers := l.timers - {t}, timer := None);
      EnsuredKeepsInv(rung, opening);
      ScheduledKeepsInv(Ensured(rung, opening).0);
    }
  }

  lemma SentKeepsInv(l: Link, opening: Opening, postThrows: bool)
    requires Inv(l)
    ensures Inv(Sent(l, opening, postThrows))
  {
    EnsuredKeepsInv(l, opening);
  }

  lemma NextKeepsInv(l: Link, e: Event)
    requires Enabled(l, e) && Inv(l)
    ensures Inv(Next(l, e))
  {
    match e
    case Ensure(opening) => EnsuredKeepsInv(l, opening);
    case Alarm(opening) => EnsuredKeepsInv(l, opening);
    case Fire(t, opening) => FiredKeepsInv(l, t, opening);
    case Message(_, reply) => ReceivedKeepsInv(l, reply);
    case Disconnect(p) => CutKeepsInv(l, p); ScheduledKeepsInv(Cut(l, p));
    case Send(opening, postThrows) => SentKeepsInv(l, opening, postThrows);
  }

  lemma {:induction false} RunKeepsInv(l: Link, run: seq<Event>)
    requires Inv(l) && Possible(l, run)
    ensures Inv(After(l, run))
    decreases |run|
  {
    if run != [] {
      NextKeepsInv(l, run[0]);
      RunKeepsInv(Next(l, run[0]), run[1..]);
    }
  }

  /**
   In every run whatsoever: the connected flag says exactly whether a port is
   held, and at most one reconnect timer is ever running, with the right delay.
   */
  lemma FlagAndTimerAreHonest(run: seq<Event>)
    requires Possible(INITIAL, run)
    ensures var l := After(INITIAL, run);
            && (l.connected <==> l.port.Some?)
            && (forall t, u :: t in l.timers && u in l.timers && l.timers[t].Reconnect? && l.timers[u].Reconnect? ==> t == u)
            && (forall t :: t in l.timers && l.timers[t].Reconnect? ==>
                  l.timers[t].delay == Min(30000, 1000 * Pow2(l.timers[t].attempt)))
  {
    RunKeepsInv(INITIAL, run);
    var l := After(INITIAL, run);
    forall t | t in l.timers && l.timers[t].Reconnect?
      ensures l.timers[t].delay == Min(30000, 1000 * Pow2(l.timers[t].attempt))
    {
      DelayIsCappedDoubling(l.timers[t].attempt);
    }
  }

  // ---------------------------------------------------- requests, in all runs

  /** How often a request has been settled together with taking its entry from the pending map. */
  function TakenOut(settled: multiset<Settlement>, r: nat): nat {
    settled[Settlement(r, Resolved)] + settled[Settlement(r, RejectedByHost)] + settled[Settlement(r, TimedOut)]
    + settled[Settlement(r, Disconnected)]
  }

  function Threw(settled: multiset<Settlement>, r: nat): nat {
    settled[Settlement(r, PostThrew)]
  }

  /** Every request issued has been taken out once, unless it is pending; none is before it is issued. */
  ghost predicate Accounted(l: Link) {
    forall r: nat :: TakenOut(l.settled, r) == if r < l.requests && r !in l.pending then 1 else 0
  }

  ghost predicate Ledger(l: Link) {
    && Inv(l) && Accounted(l)
    && (l.port.None? ==> l.pending == map[])
    && (forall r: nat :: Threw(l.settled, r) <= if r < l.requests then 1 else 0)
  }

  lemma EnsuredKeepsLedger(l: Link, opening: Opening)
    requires Ledger(l)
    ensures var (m, ok) := Ensured(l, opening);
            Ledger(m) && (ok <==> m.port.Some?) && m.settled == l.settled
  {
    EnsuredKeepsInv(l, opening);
  }

  lemma ScheduledKeepsLedger(l: Link)
    requires Ledger(l)
    ensures Ledger(Scheduled(l)) && Scheduled(l).settled == l.settled
  {
    ScheduledKeepsInv(l);
  }

  lemma OneMoreSettled(settled: multiset<Settlement>, request: nat, how: How, r: nat)
    requires !how.PostThrew?
    ensures var more := settled + multiset{Settlement(request, how)};
            && TakenOut(more, r) == TakenOut(settled, r) + (if r == request then 1 else 0)
            && Threw(more, r) == Threw(settled, r)
  {
  }

  /** Taking one request out and settling it. */
  lemma SettleAccounts(l: Link, request: nat, how: How, m: Link)
    requires Ledger(l) && request in l.pending && !how.PostThrew?
    requires m.requests == l.requests && m.pending == l.pending - {request} && m.port == l.port
    requires m.settled == l.settled + multiset{Settlement(request, how)} && Inv(m)
    ensures Ledger(m) && forall r: nat :: Threw(m.settled, r) == Threw(l.settled, r)
  {
    forall r: nat
      ensures TakenOut(m.settled, r) == TakenOut(l.settled, r) + if r == request then 1 else 0
      ensures Threw(m.settled, r) == Threw(l.settled, r)
    {
      OneMoreSettled(l.settled, request, how, r);
    }
  }

  lemma ReceivedKeepsLedger(l: Link, reply: Option<(nat, bool)>)
    requires Ledger(l)
    ensures Ledger(Received(l, reply)) && forall r: nat :: Threw(Received(l, reply).settled, r) == Threw(l.settled, r)
  {
    ReceivedKeepsInv(l, reply);
    if reply.Some? && reply.value.0 in l.pending {
      SettleAccounts(l, reply.value.0, if reply.value.1 then Resolved else RejectedByHost, Received(l, reply));
    }
  }

  lemma CutKeepsLedger(l: Link, p: nat)
    requires Ledger(l)
    ensures Ledger(Cut(l, p)) && forall r: nat :: Threw(Cut(l, p).settled, r) == Threw(l.settled, r)
  {
    CutKeepsInv(l, p);
    var m := Cut(l, p);
    forall r: nat
      ensures TakenOut(m.settled, r) == TakenOut(l.settled, r) + if r in l.pending then 1 else 0
      ensures Threw(m.settled, r) == Threw(l.settled, r)
    {
      assert Settlement(r, Disconnected) in (set q | q in l.pending.Keys :: Settlement(q, Disconnected)) <==> r in l.pending;
    }
  }

  lemma FiredKeepsLedger(l: Link, t: nat, opening: Opening)
    requires Ledger(l) && t in l.timers
    ensures Ledger(Fired(l, t, opening))
    ensures forall r: nat :: Threw(Fired(l, t, opening).settled, r) == Threw(l.settled, r)
  {
    FiredKeepsInv(l, t, opening);
    match l.timers[t] {
      case Reconnect(_, _) =>
        var rung := l.(timers := l.timers - {t}, timer := None);
        EnsuredKeepsLedger(rung, opening);
        ScheduledKeepsLedger(Ensured(rung, opening).0);
      case Timeout(request) =>
        assert l.pending[request] == t;
        SettleAccounts(l, request, TimedOut, Fired(l, t, opening));
    }
  }

  /** Issuing one request; `threw` when posting it throws. */
  lemma IssueAccounts(l: Link, timer: nat, threw: bool, m: Link)
    requires Ledger(l) && l.port.Some?
    requires m.requests == l.requests + 1 && m.pending == l.pending[l.requests := timer] && m.port == l.port
    requires m.settled == l.settled + if threw then multiset{Settlement(l.requests, PostThrew)} else multiset{}
    requires Inv(m)
    ensures Ledger(m)
    ensures forall r: nat :: Threw(m.settled, r) == Threw(l.settled, r) + if threw && r == l.requests then 1 else 0
  {
    forall r: nat
      ensures TakenOut(m.settled, r) == if r < m.requests && r !in m.pending then 1 else 0
      ensures Threw(m.settled, r) == Threw(l.settled, r) + if threw && r == l.requests then 1 else 0
    {
      assert TakenOut(l.settled, r) == if r < l.requests && r !in l.pending then 1 else 0;
      assert r in m.pending <==> r in l.pending || r == l.requests;
      assert TakenOut(m.settled, r) == TakenOut(l.settled, r);
    }
  }

  lemma SentKeepsLedger(l: Link, opening: Opening, postThrows: bool)
    requires Ledger(l)
    ensures Ledger(Sent(l, opening, postThrows))
    ensures !postThrows ==> forall r: nat :: Threw(Sent(l, opening, postThrows).settled, r) == Threw(l.settled, r)
  {
    EnsuredKeepsLedger(l, opening);
    SentKeepsInv(l, opening, postThrows);
    var (next, ok) := Ensured(l, opening);
    if ok {
      IssueAccounts(next, next.timersSet, postThrows, Sent(l, opening, postThrows));
    }
  }

  lemma NextKeepsLedger(l: Link, e: Event)
    requires Enabled(l, e) && Ledger(l)
    ensures Ledger(Next(l, e))
    ensures PostSucceeds(e) ==> forall r: nat :: Threw(Next(l, e).settled, r) == Threw(l.settled, r)
  {
    match e
    case Ensure(opening) => EnsuredKeepsLedger(l, opening);
    case Alarm(opening) => EnsuredKeepsLedger(l, opening);
    case Fire(t, opening) => FiredKeepsLedger(l, t, opening);
    case Message(_, reply) => ReceivedKeepsLedger(l, reply);
    case Disconnect(p) => CutKeepsLedger(l, p); ScheduledKeepsLedger(Cut(l, p));
    case Send(opening, postThrows) => SentKeepsLedger(l, opening, postThrows);
  }

  lemma {:induction false} RunKeepsLedger(l: Link, run: seq<Event>)
    requires Ledger(l) && Possible(l, run)
    ensures Ledger(After(l, run))
    ensures (forall k :: 0 <= k < |run| ==> PostSucceeds(run[k])) ==>
              forall r: nat :: Threw(After(l, run).settled, r) == Threw(l.settled, r)
    decreases |run|
  {
    if run != [] {
      NextKeepsLedger(l, run[0]);
      RunKeepsLedger(Next(l, run[0]), run[1..]);
    }
  }

  /**
   In every run, over any order of responses, timeouts, disconnects and failing
   posts: a request is in the pending map with its own running timer, or has been
   taken out and settled at that moment, exactly once; without a port none is
   pending. The only other call of its reject comes from a post that throws, at
   most once, and never where posting succeeds.
   */
  lemma RequestsSettleExactlyOnce(run: seq<Event>)
    requires Possible(INITIAL, run)
    ensures var l := After(INITIAL, run);
            && (forall r :: 0 <= r < l.requests ==> TakenOut(l.settled, r) == if r in l.pending then 0 else 1)
            && (forall r :: r in l.pending ==> l.pending[r] in l.timers && l.timers[l.pending[r]] == Timeout(r))
            && (l.port.None? ==> l.pending == map[])
            && (forall r: nat :: Threw(l.settled, r) <= 1)
            && ((forall k :: 0 <= k < |run| ==> PostSucceeds(run[k])) ==> forall r: nat :: Threw(l.settled, r) == 0)
  {
    RunKeepsLedger(INITIAL, run);
  }

  // ---------------------------------------------- which way a request settles

  /** The event that settles a request in the given way, told from the event and what is pending. */
  predicate Settles(l: Link, e: Event, r: nat, how: How)
    requires Enabled(l, e)
  {
    match how
    case Resolved => r in l.pending && e.Message? && e.reply == Some((r, true))
    case RejectedByHost => r in l.pending && e.Message? && e.reply == Some((r, false))
    case TimedOut => r in l.pending && e.Fire? && e.timer == l.pending[r]
    case Disconnected => r in l.pending && e.Disconnect?
    case PostThrew => e.Send? && e.postThrows && r == l.requests && (l.port.Some? || e.opening.Connects?)
  }

  lemma RejectionsMean(requests: set<nat>, r: nat, how: How)
    ensures Rejections(requests)[Settlement(r, how)] == if how.Disconnected? && r in requests then 1 else 0
  {
    assert Settlement(r, how) in (set q | q in requests :: Settlement(q, Disconnected)) <==> how.Disconnected? && r in requests;
  }

  lemma StepSettles(l: Link, e: Event, r: nat, how: How)
    requires Inv(l) && Enabled(l, e)
    ensures Next(l, e).settled[Settlement(r, how)] == l.settled[Settlement(r, how)] + if Settles(l, e, r, how) then 1 else 0
  {
    match e
    case Ensure(_) =>
    case Alarm(_) =>
    case Fire(t, opening) => FiringSettles(l, t, opening, r, how);
    case Message(_, reply) => AnswerSettles(l, reply, r, how);
    case Disconnect(_) => RejectionsMean(l.pending.Keys, r, how);
    case Send(_, _) =>
  }

  lemma FiringSettles(l: Link, t: nat, opening: Opening, r: nat, how: How)
    requires Inv(l) && t in l.timers
    ensures Fired(l, t, opening).settled[Settlement(r, how)]
         == l.settled[Settlement(r, how)] + if how.TimedOut? && r in l.pending && t == l.pending[r] then 1 else 0
  {
  }

  lemma AnswerSettles(l: Link, reply: Option<(nat, bool)>, r: nat, how: How)
    ensures Received(l, reply).settled[Settlement(r, how)]
         == l.settled[Settlement(r, how)]
            + if r in l.pending && ((how.Resolved? && reply == Some((r, true))) || (how.RejectedByHost? && reply == Some((r, false))))
              then 1 else 0
  {
  }

  /** At some event of the run the request settled in the given way. */
  ghost predicate SettledIn(l: Link, run: seq<Event>, r: nat, how: How)
    requires Possible(l, run)
    decreases |run|
  {
    run != [] && (Settles(l, run[0], r, how) || SettledIn(Next(l, run[0]), run[1..], r, how))
  }

  lemma {:induction false} RunSettles(l: Link, run: seq<Event>, r: nat, how: How)
    requires Inv(l) && Possible(l, run)
    ensures After(l, run).settled[Settlement(r, how)] > l.settled[Settlement(r, how)] <==> SettledIn(l, run, r, how)
    ensures After(l, run).settled[Settlement(r, how)] >= l.settled[Settlement(r, how)]
    decreases |run|
  {
    if run != [] {
      StepSettles(l, run[0], r, how);
      NextKeepsInv(l, run[0]);
      RunSettles(Next(l, run[0]), run[1..], r, how);
    }
  }

  /** Event number `k`, counted from zero, settled the request in the given way. */
  ghost predicate SettledBy(l: Link, run: seq<Event>, k: nat, r: nat, how: How) {
    k < |run| && Possible(l, run[..k]) && Enabled(After(l, run[..k]), run[k]) && Settles(After(l, run[..k]), run[k], r, how)
  }

  lemma SettledInTail(l: Link, run: seq<Event>, k: nat, r: nat, how: How)
    requires run != [] && Possible(l, run)
    ensures SettledBy(l, run, k + 1, r, how) <==> SettledBy(Next(l, run[0]), run[1..], k, r, how)
  {
    if k + 1 < |run| {
      assert run[..k + 1][0] == run[0] && run[..k + 1][1..] == run[1..][..k];
    }
  }

  lemma {:induction false} SettledAt(l: Link, run: seq<Event>, r: nat, how: How)
    requires Possible(l, run)
    ensures SettledIn(l, run, r, how) <==> exists k: nat :: SettledBy(l, run, k, r, how)
    decreases |run|
  {
    if run != [] {
      var m, rest := Next(l, run[0]), run[1..];
      SettledAt(m, rest, r, how);
      assert run[..0] == [];
      assert SettledBy(l, run, 0, r, how) <==> Settles(l, run[0], r, how);
      if k: nat :| SettledBy(m, rest, k, r, how) {
        SettledInTail(l, run, k, r, how);
        assert SettledBy(l, run, k + 1, r, how);
      }
      if k: nat :| SettledBy(l, run, k, r, how) && k > 0 {
        SettledInTail(l, run, k - 1, r, how);
        assert SettledBy(m, rest, k - 1, r, how);
      }
    }
  }

  /**
   Which way, in every run: a request is resolved exactly if a message answered it with
   success while it was pending, rejected by the host exactly if one answered it with
   failure, timed out exactly if its own timer fired, disconnected exactly if a port
   disconnected, each while it was pending, and rejected at once exactly if its own
   post threw.
   */
  lemma RequestsSettleTheRightWay(run: seq<Event>, r: nat, how: How)
    requires Possible(INITIAL, run)
    ensures Settlement(r, how) in After(INITIAL, run).settled <==>
              exists k: nat :: SettledBy(INITIAL, run, k, r, how)
  {
    RunSettles(INITIAL, run, r, how);
    SettledAt(INITIAL, run, r, how);
  }

  // -------------------------------------------------- how often it has retried

  /** The event arms a retry: a port is lost, or a retry fails, and none is coming yet. */
  predicate ArmsRetry(l: Link, e: Event)
    requires Enabled(l, e)
  {
    match e
    case Disconnect(_) => l.timer.None?
    case Fire(t, opening) => l.timer == Some(t) && l.port.None? && !opening.Connects?
    case _ => false
  }

  /** Retries armed since the last message, on top of `before`. */
  function RetriesSinceMessage(l: Link, run: seq<Event>, before: nat): nat
    requires Possible(l, run)
    decreases |run|
  {
    if run == [] then before
    else RetriesSinceMessage(Next(l, run[0]), run[1..],
                             if run[0].Message? then 0 else if ArmsRetry(l, run[0]) then before + 1 else before)
  }

  /** The retry that is coming is the latest one counted. */
  predicate RetryCounted(l: Link) {
    l.timer.Some? ==>
      l.timer.value in l.timers && l.timers[l.timer.value].Reconnect? && l.timers[l.timer.value].attempt + 1 == l.attempts
  }

  lemma {:induction false} AttemptsCountRetries(l: Link, run: seq<Event>)
    requires Inv(l) && Possible(l, run) && RetryCounted(l)
    ensures After(l, run).attempts == RetriesSinceMessage(l, run, l.attempts)
    ensures RetryCounted(After(l, run))
    decreases |run|
  {
    if run != [] {
      NextKeepsInv(l, run[0]);
      RetryStep(l, run[0]);
      AttemptsCountRetries(Next(l, run[0]), run[1..]);
    }
  }

  lemma RetryStep(l: Link, e: Event)
    requires Inv(l) && Enabled(l, e) && RetryCounted(l)
    ensures Next(l, e).attempts == if e.Message? then 0 else if ArmsRetry(l, e) then l.attempts + 1 else l.attempts
    ensures RetryCounted(Next(l, e))
  {
    match e
    case Ensure(_) =>
    case Alarm(_) =>
    case Fire(t, opening) => RetryFires(l, t, opening);
    case Message(_, reply) => RetryCalledOff(l, reply);
    case Disconnect(p) => RetryAfterDisconnect(l, p);
    case Send(_, _) =>
  }

  lemma RetryFires(l: Link, t: nat, opening: Opening)
    requires Inv(l) && RetryCounted(l) && t in l.timers
    ensures Fired(l, t, opening).attempts
         == if l.timer == Some(t) && l.port.None? && !opening.Connects? then l.attempts + 1 else l.attempts
    ensures RetryCounted(Fired(l, t, opening))
  {
  }

  lemma RetryCalledOff(l: Link, reply: Option<(nat, bool)>)
    ensures Received(l, reply).attempts == 0 && RetryCounted(Received(l, reply))
  {
  }

  lemma RetryAfterDisconnect(l: Link, p: nat)
    requires Inv(l) && RetryCounted(l)
    ensures Dropped(l, p).attempts == if l.timer.None? then l.attempts + 1 else l.attempts
    ensures RetryCounted(Dropped(l, p))
  {
    CutKeepsInv(l, p);
  }

  /** So in every run a retry that is coming waits min(30000, 1000 * 2^n) for the n retries armed before it since the last message. */
  lemma RetryWaitsByHistory(run: seq<Event>)
    requires Possible(INITIAL, run) && After(INITIAL, run).timer.Some?
    ensures var l := After(INITIAL, run);
            var n := RetriesSinceMessage(INITIAL, run, 0);
            n > 0 && l.timer.value in l.timers
            && l.timers[l.timer.value] == Reconnect(n - 1, Min(30000, 1000 * Pow2(n - 1)))
  {
    RunKeepsInv(INITIAL, run);
    AttemptsCountRetries(INITIAL, run);
    DelayIsCappedDoubling(RetriesSinceMessage(INITIAL, run, 0) - 1);
  }

  // ------------------------------------------------------ the way back to a port

  /** There is a port, or a retry is coming, or the listeners of some earlier port can still start one. */
  ghost predicate WayBack(l: Link) {
    l.portsOpened > 0 ==> l.port.Some? || l.timer.Some? || l.open != {}
  }

  /** Only the port held, if any, can call back. */
  ghost predicate NoStrays(l: Link) {
    forall p :: p in l.open <==> l.port == Some(p)
  }

  lemma NextKeepsWayBack(l: Link, e: Event)
    requires Enabled(l, e) && Inv(l) && WayBack(l)
    ensures WayBack(Next(l, e))
    ensures NoStrays(l) && HelloSucceeds(e) ==> NoStrays(Next(l, e))
  {
    if e.Fire? && l.timers[e.timer].Reconnect? {
      assert l.timer == Some(e.timer);
    }
    if e.Message? {
      assert e.port in Next(l, e).open;
    }
  }

  lemma {:induction false} RunKeepsWayBack(l: Link, run: seq<Event>)
    requires Inv(l) && WayBack(l) && Possible(l, run)
    ensures WayBack(After(l, run))
    ensures NoStrays(l) && (forall k :: 0 <= k < |run| ==> HelloSucceeds(run[k])) ==> NoStrays(After(l, run))
    decreases |run|
  {
    if run != [] {
      NextKeepsInv(l, run[0]);
      NextKeepsWayBack(l, run[0]);
      RunKeepsWayBack(Next(l, run[0]), run[1..]);
    }
  }

  /**
   Once a port has been opened there is always a port or a running reconnect timer,
   or else some dropped port whose disconnect will start one. Dropped ports arise
   only from a hello that throws: without that, port or timer it is.
   */
  lemma AlwaysOnTheWayBack(run: seq<Event>)
    requires Possible(INITIAL, run)
    ensures var l := After(INITIAL, run);
            && (l.portsOpened > 0 ==> l.port.Some? || (l.timer.Some? && l.timer.value in l.timers) || l.open != {})
            && (forall p :: p in l.open && l.port.None? ==> Next(l, Disconnect(p)).timer.Some?)
            && ((forall k :: 0 <= k < |run| ==> HelloSucceeds(run[k])) && l.portsOpened > 0 ==>
                  l.port.Some? || (l.timer.Some? && l.timer.value in l.timers))
  {
    RunKeepsInv(INITIAL, run);
    RunKeepsWayBack(INITIAL, run);
  }

  // ------------------------------------------------- when neither is left

  /** No port is held and no retry is coming. */
  predicate Adrift(l: Link) {
    l.port.None? && l.timer.None?
  }

  /** A message arrives although no port is held: it comes from a dropped port, and calls the retry off. */
  predicate Silences(l: Link, e: Event) {
    e.Message? && l.port.None? && l.timer.Some?
  }

  /** A port is opened for good, or a port's disconnect starts a retry. */
  predicate Rescues(e: Event) {
    match e
    case Ensure(opening) => opening.Connects?
    case Alarm(opening) => opening.Connects?
    case Send(opening, _) => opening.Connects?
    case Disconnect(_) => true
    case _ => false
  }

  /** Exactly one kind of event casts the worker adrift, and exactly these events bring it back. */
  lemma AdriftStepByStep(l: Link, e: Event)
    requires Inv(l) && Enabled(l, e)
    ensures Adrift(Next(l, e)) <==> if Adrift(l) then !Rescues(e) else Silences(l, e)
  {
    if e.Fire? && l.timers[e.timer].Reconnect? {
      assert l.timer == Some(e.timer);
    }
  }

  ghost predicate NoRescue(run: seq<Event>) {
    forall j :: 0 <= j < |run| ==> !Rescues(run[j])
  }

  /** Event number `k`, counted from one, silenced the retry, and nothing came to the rescue after it. */
  ghost predicate SilencedAt(l: Link, run: seq<Event>, k: nat) {
    && 0 < k <= |run| && NoRescue(run[k..])
    && Possible(l, run[..k - 1]) && Silences(After(l, run[..k - 1]), run[k - 1])
  }

  lemma SilencedInTail(l: Link, run: seq<Event>, k: nat)
    requires Possible(l, run) && run != [] && 0 < k < |run|
    ensures SilencedAt(l, run, k + 1) <==> SilencedAt(Next(l, run[0]), run[1..], k)
  {
    assert run[1..][k..] == run[k + 1..];
    assert run[..k][0] == run[0] && run[..k][1..] == run[1..][..k - 1];
  }

  lemma NoRescueUnfolds(run: seq<Event>)
    requires run != []
    ensures NoRescue(run) <==> !Rescues(run[0]) && NoRescue(run[1..])
  {
    assert forall j :: 0 < j < |run| ==> run[j] == run[1..][j - 1];
  }

  lemma {:induction false} AdriftInRun(l: Link, run: seq<Event>)
    requires Inv(l) && Possible(l, run)
    ensures Adrift(After(l, run)) <==>
              (Adrift(l) && NoRescue(run)) || exists k: nat :: SilencedAt(l, run, k)
    decreases |run|
  {
    if run != [] {
      var m, rest := Next(l, run[0]), run[1..];
      NextKeepsInv(l, run[0]);
      AdriftStepByStep(l, run[0]);
      AdriftInRun(m, rest);
      NoRescueUnfolds(run);
      assert SilencedAt(l, run, 1) <==> Silences(l, run[0]) && NoRescue(rest) by {
        assert run[..0] == [] && run[1..] == rest;
      }
      if k: nat :| SilencedAt(m, rest, k) {
        SilencedInTail(l, run, k);
        assert SilencedAt(l, run, k + 1);
      }
      if k: nat :| SilencedAt(l, run, k) && k > 1 {
        SilencedInTail(l, run, k - 1);
        assert SilencedAt(m, rest, k - 1);
      }
    }
  }

  /** Nothing has ever worked: no port, timer, request or way to get one by itself. */
  ghost predicate NeverConnected(l: Link) {
    Adrift(l) && l.pending == map[] && l.timers == map[]
  }

  /** Some attempt to open a port got as far as its hello and threw there. */
  predicate HelloThrew(run: seq<Event>) {
    exists j :: 0 <= j < |run| && !HelloSucceeds(run[j])
  }

  lemma {:induction false} OpenedByThrowingHello(l: Link, run: seq<Event>)
    requires Inv(l) && NeverConnected(l) && Possible(l, run) && NoRescue(run)
    ensures NeverConnected(After(l, run))
    ensures After(l, run).portsOpened > 0 <==> l.portsOpened > 0 || HelloThrew(run)
    decreases |run|
  {
    if run != [] {
      var rest := run[1..];
      NoRescueUnfolds(run);
      NextKeepsInv(l, run[0]);
      AdriftStepByStep(l, run[0]);
      OpenedByThrowingHello(Next(l, run[0]), rest);
      assert HelloThrew(run) <==> !HelloSucceeds(run[0]) || HelloThrew(rest) by {
        if j :| 0 <= j < |run| && !HelloSucceeds(run[j]) && j > 0 { assert !HelloSucceeds(rest[j - 1]); }
        if j :| 0 <= j < |rest| && !HelloSucceeds(rest[j]) { assert !HelloSucceeds(run[j + 1]); }
      }
    }
  }

  lemma {:induction false} PortsOnlyGrow(l: Link, run: seq<Event>)
    requires Possible(l, run)
    ensures l.portsOpened <= After(l, run).portsOpened
    decreases |run|
  {
    if run != [] {
      PortsOnlyGrow(Next(l, run[0]), run[1..]);
    }
  }

  lemma SilencingNeedsAPort(run: seq<Event>, k: nat)
    requires Possible(INITIAL, run) && SilencedAt(INITIAL, run, k)
    ensures After(INITIAL, run).portsOpened > 0
  {
    var before, after := run[..k - 1], run[k - 1..];
    RunSplits(INITIAL, run, k - 1);
    RunKeepsInv(INITIAL, before);
    var l := After(INITIAL, before);
    assert after[0] == run[k - 1];
    PortsOnlyGrow(l, after);
  }

  lemma {:induction false} RunSplits(l: Link, run: seq<Event>, k: nat)
    requires Possible(l, run) && k <= |run|
    ensures Possible(l, run[..k]) && Possible(After(l, run[..k]), run[k..])
    ensures After(l, run) == After(After(l, run[..k]), run[k..])
    decreases |run|
  {
    if k == 0 {
      assert run[k..] == run && run[..k] == [];
    } else {
      RunSplits(Next(l, run[0]), run[1..], k - 1);
      assert run[..k][1..] == run[1..][..k - 1] && run[k..] == run[1..][k - 1..];
    }
  }

  /**
   After which runs a worker that has opened a port has neither a port nor a retry to
   come: exactly those in which, with no rescue since, either a message from a dropped
   port called the retry off, or every attempt so far failed and one of them did so
   by throwing in its hello.
   */
  lemma AdriftExactlyWhen(run: seq<Event>)
    requires Possible(INITIAL, run)
    ensures After(INITIAL, run).portsOpened > 0 && Adrift(After(INITIAL, run)) <==>
              (exists k: nat :: SilencedAt(INITIAL, run, k)) || (NoRescue(run) && HelloThrew(run))
  {
    AdriftInRun(INITIAL, run);
    if NoRescue(run) {
      OpenedByThrowingHello(INITIAL, run);
    }
    if k: nat :| SilencedAt(INITIAL, run, k) {
      SilencingNeedsAPort(run, k);
    }
  }

  /** A hello that throws can leave neither: a message on the dropped port silences the retry. */
  lemma HalfOpenPortCanStrandTheWorker()
    ensures exists run :: Possible(INITIAL, run)
                          && var l := After(INITIAL, run);
                             l.portsOpened > 0 && l.port.None? && l.timer.None? && l.timers == map[]
  {
    var e0, e1, e2, e3 := Ensure(Connects), Disconnect(0), Fire(0, HelloThrows), Message(1, None);
    LosingTheFirstPort();
    SilencedByTheDroppedPort();
    RunOfOne(RETRYING, e2, [e3]);
    RunOfOne(Next(INITIAL, e0), e1, [e2] + [e3]);
    RunOfOne(INITIAL, e0, [e1] + ([e2] + [e3]));
  }

  const RETRYING := Link(None, false, Some(0), 1, map[], map[0 := Reconnect(0, 1000)], {}, 0, 1, 1, multiset{})

  lemma LosingTheFirstPort()
    ensures Next(INITIAL, Ensure(Connects)).open == {0}
    ensures Next(Next(INITIAL, Ensure(Connects)), Disconnect(0)) == RETRYING
  {
    assert Pow2(0) == 1;
    assert Rejections({}) == multiset{};
  }

  lemma SilencedByTheDroppedPort()
    ensures var dropped := Next(RETRYING, Fire(0, HelloThrows));
            && dropped.open == {1}
            && var l := Next(dropped, Message(1, None));
               l.portsOpened > 0 && l.port.None? && l.timer.None? && l.timers == map[]
  {
  }

  lemma RunOfOne(l: Link, e: Event, rest: seq<Event>)
    requires Enabled(l, e) && Possible(Next(l, e), rest)
    ensures Possible(l, [e] + rest) && After(l, [e] + rest) == After(Next(l, e), rest)
  {
    assert ([e] + rest)[1..] == rest;
  }

  // ------------------------------------------------------------ the program

  /** The worker's module-level variables and its callbacks. */
  class Worker {
    var nativePort: Option<nat>
    var nativeConnected: bool
    var reconnectTimer: Option<nat>
    var reconnectAttempts: nat
    var pendingNative: map<nat, nat>
    var nextMessageId: nat
    // The browser's side: running timers, ports that can still call back, promises already settled.
    var timers: map<nat, Timer>
    var open: set<nat>
    var timersSet: nat
    var portsOpened: nat
    var settled: multiset<Settlement>

    constructor ()
      ensures View() == INITIAL
    {
      nativePort, nativeConnected, reconnectTimer, reconnectAttempts := None, false, None, 0;
      pendingNative, nextMessageId, timers, open := map[], 0, map[], {};
      timersSet, portsOpened, settled := 0, 0, multiset{};
    }

    function View(): Link
      reads this
    {
      Link(nativePort, nativeConnected, reconnectTimer, reconnectAttempts, pendingNative, timers, open,
           nextMessageId, timersSet, portsOpened, settled)
    }

    method SetTimeout(t: Timer) returns (id: nat)
      modifies this`timers, this`timersSet
      ensures id == old(timersSet) && timersSet == old(timersSet) + 1 && timers == old(timers)[id := t]
    {
      id := timersSet;
      timers := timers[id := t];
      timersSet := timersSet + 1;
    }

    method ScheduleReconnect()
      modifies this
      ensures View() == Scheduled(old(View()))
    {
      if reconnectTimer.Some? || nativePort.Some? {
        return;
      }
      var delay := Min(RECONNECT_MAX_MS, RECONNECT_BASE_MS * Pow2(Min(reconnectAttempts, 10)));
      var id := SetTimeout(Reconnect(reconnectAttempts, delay));
      reconnectAttempts := reconnectAttempts + 1;
      reconnectTimer := Some(id);
    }

    method EnsureNativePort(opening: Opening) returns (ok: bool)
      modifies this
      ensures (View(), ok) == Ensured(old(View()), opening)
    {
      if nativePort.Some? {
        return true;
      }
      if opening.ConnectThrows? {
        nativeConnected := false;
        nativePort := None;
        return false;
      }
      nativePort := Some(portsOpened);
      portsOpened := portsOpened + 1;
      nativeConnected := true;
      open := open + {nativePort.value};
      if opening.HelloThrows? {
        nativeConnected := false;
        nativePort := None;
        return false;
      }
      ok := true;
    }

    method OnAlarm(opening: Opening)
      modifies this
      ensures View() == Next(old(View()), Alarm(opening))
    {
      if nativeConnected && nativePort.Some? {
        return;
      }
      var _ := EnsureNativePort(opening);
    }

    method OnReconnectTimer(opening: Opening)
      requires reconnectTimer.Some? && reconnectTimer.value in timers && timers[reconnectTimer.value].Reconnect?
      modifies this
      ensures View() == Next(old(View()), Fire(old(reconnectTimer.value), opening))
    {
      timers := timers - {reconnectTimer.value};
      reconnectTimer := None;
      var ok := EnsureNativePort(opening);
      if !ok {
        ScheduleReconnect();
      }
    }

    method OnRequestTimeout(id: nat)
      requires id in timers && timers[id].Timeout?
      modifies this
      ensures View() == Next(old(View()), Fire(id, Connects))
    {
      var request := timers[id].request;
      timers := timers - {id};
      pendingNative := pendingNative - {request};
      settled := settled + multiset{Settlement(request, TimedOut)};
    }

    method OnMessage(reply: Option<(nat, bool)>)
      modifies this
      ensures View() == Received(old(View()), reply)
    {
      ghost var before := View();
      reconnectAttempts := 0;
      if reconnectTimer.Some? {
        timers := timers - {reconnectTimer.value};
        reconnectTimer := None;
      }
      assert View() == Awake(before);
      if reply.Some? && reply.value.0 in pendingNative {
        var request := reply.value.0;
        var timer := pendingNative[request];
        pendingNative := pendingNative - {request};
        timers := timers - {timer};
        settled := settled + multiset{Settlement(request, if reply.value.1 then Resolved else RejectedByHost)};
      }
    }

    method OnDisconnect(port: nat)
      modifies this
      ensures View() == Dropped(old(View()), port)
    {
      ghost var before := View();
      open := open - {port};
      nativeConnected := false;
      nativePort := None;
      assert View() == before.(open := before.open - {port}, port := None, connected := false);
      RejectAll();
      ScheduleReconnect();
    }

    /** The loop over the pending map: clear each timer, reject, delete the entry. */
    method RejectAll()
      modifies this`timers, this`settled, this`pendingNative
      ensures View() == Rejected(old(View()))
    {
      ghost var before := pendingNative;
      ghost var firstTimers, firstSettled := timers, settled;
      ghost var done: set<nat> := {};
      assert firstTimers - TimersOf(before, done) == firstTimers;
      while pendingNative != map[]
        invariant done <= before.Keys && pendingNative == before - done
        invariant timers == firstTimers - TimersOf(before, done)
        invariant settled == firstSettled + Rejections(done)
        decreases pendingNative.Keys
      {
        var request :| request in pendingNative;
        RejectionsGrow(before, done, request);
        RemovedTwice(timers, firstTimers, TimersOf(before, done), before[request]);
        timers := timers - {pendingNative[request]};
        settled := settled + multiset{Settlement(request, Disconnected)};
        pendingNative := pendingNative - {request};
        done := done + {request};
      }
      NothingLeft(before, done);
    }

    method SendNative(opening: Opening, postThrows: bool) returns (sent: bool)
      modifies this
      ensures View() == Sent(old(View()), opening, postThrows)
      ensures sent <==> Ensured(old(View()), opening).1
    {
      sent := EnsureNativePort(opening);
      if !sent {
        return;
      }
      var request := nextMessageId;
      nextMessageId := nextMessageId + 1;
      var timer := SetTimeout(Timeout(request));
      pendingNative := pendingNative[request := timer];
      if postThrows {
        settled := settled + multiset{Settlement(request, PostThrew)};
      }
    }
  }

  lemma NothingLeft(before: map<nat, nat>, done: set<nat>)
    requires done <= before.Keys && before - done == map[]
    ensures done == before.Keys
  {
    assert (before - done).Keys == before.Keys - done;
    assert before.Keys == done + (before.Keys - done);
  }

  lemma RemovedTwice(timers: map<nat, Timer>, first: map<nat, Timer>, gone: set<nat>, t: nat)
    requires timers == first - gone
    ensures timers - {t} == first - (gone + {t})
  {
  }

  lemma RejectionsGrow(before: map<nat, nat>, done: set<nat>, request: nat)
    requires done <= before.Keys && request in before && request !in done
    ensures Rejections(done + {request}) == Rejections(done) + multiset{Settlement(request, Disconnected)}
    ensures TimersOf(before, done + {request}) == TimersOf(before, done) + {before[request]}
  {
    var small := set r | r in done :: Settlement(r, Disconnected);
    var large := set r | r in done + {request} :: Settlement(r, Disconnected);
    assert large == small + {Settlement(request, Disconnected)};
    assert Settlement(request, Disconnected) !in small;
  }
}
