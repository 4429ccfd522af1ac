/**
 The identification and heartbeat protocol between a proxy table and the daemons of its servers,
 as a transition system over unordered datagrams, with what every step keeps.
 */
module HeartbeatProtocol {
  import opened Options
  import opened HeartbeatProxy
  import D = HeartbeatDaemons

  /** Who is configured where: daemon k sends from sockets[k] and announces pairs[k]. */
  datatype Config = Config(variant: Variant, pairs: seq<Pair>, sockets: seq<Address>)

  datatype Request = Request(from: Address, message: Message)

  datatype Delivery = Delivery(to: Address, reply: Reply)

  /**
   One proxy socket with its table, the daemons of its servers (true: sending OK, false: sending
   the address pair), the datagrams in flight both ways, the clock, and the time of the last sweep.
   */
  datatype System = System(
    table: seq<Server>,
    daemons: seq<bool>,
    requests: multiset<Request>,
    replies: multiset<Delivery>,
    clock: int,
    sweptAt: int)

  datatype Action =
    | Tick(k: nat)
    | Receive(request: Request)
    | Notify(delivery: Delivery)
    | SweepTable
    | Wait(until: int)
    | Stranger(request: Request)
    | LoseRequest(request: Request)
    | LoseReply(delivery: Delivery)
    | RepeatRequest(request: Request)
    | RepeatReply(delivery: Delivery)
    | Reboot(k: nat, sendingOk: bool)
    | Restart

  ghost predicate ValidConfig(c: Config) {
    |c.sockets| == |c.pairs|
    && (forall i, j :: 0 <= i < j < |c.pairs| ==> c.pairs[i] != c.pairs[j])
    && (forall i, j :: 0 <= i < j < |c.sockets| ==> c.sockets[i] != c.sockets[j])
  }

  ghost predicate Shaped(c: Config, s: System) {
    |s.table| == |s.daemons| == |c.pairs|
    && forall i :: 0 <= i < |s.table| ==> s.table[i].pair == c.pairs[i]
  }

  function FreshTable(pairs: seq<Pair>): (t: seq<Server>)
    ensures |t| == |pairs|
  {
    seq(|pairs|, i requires 0 <= i < |pairs| => Server(pairs[i], None, None, false))
  }

  /**
   A fresh proxy and daemons in any state: a logic server starts announcing, a data server with
   whatever its flag happens to hold.
   */
  function Start(c: Config, clock: int, daemons: seq<bool>): (s: System)
    requires |daemons| == |c.pairs|
    ensures Shaped(c, s)
  {
    System(FreshTable(c.pairs), daemons, multiset{}, multiset{}, clock, clock)
  }

  function Announcement(c: Config, k: nat): Request
    requires k < |c.sockets| == |c.pairs|
  {
    Request(c.sockets[k], Announce(c.pairs[k]))
  }

  function OkRequest(c: Config, k: nat): Request
    requires k < |c.sockets|
  {
    Request(c.sockets[k], OkMessage)
  }

  function OkDelivery(c: Config, k: nat): Delivery
    requires k < |c.sockets|
  {
    Delivery(c.sockets[k], OkReply)
  }

  function AuthDelivery(c: Config, k: nat): Delivery
    requires k < |c.sockets|
  {
    Delivery(c.sockets[k], AuthReply)
  }

  /** What a daemon sends in its state. */
  function Outgoing(c: Config, daemons: seq<bool>, k: nat): Request
    requires k < |daemons| == |c.sockets| == |c.pairs|
  {
    Request(c.sockets[k], D.ReportMessage(daemons[k], c.pairs[k]))
  }

  /** Every daemon compares the address of the sender; only the one addressed changes its state. */
  function Notified(c: Config, daemons: seq<bool>, d: Delivery): (after: seq<bool>)
    requires |daemons| == |c.sockets|
    ensures |after| == |daemons|
  {
    seq(|daemons|, k requires 0 <= k < |daemons| =>
      if c.sockets[k] == d.to then D.Heard(daemons[k], D.TextOf(d.reply)) else daemons[k])
  }

  /** Another process may send anything but a configured pair to the proxy. */
  ghost predicate IsStranger(c: Config, r: Request) {
    r.from !in c.sockets && (r.message.Announce? ==> r.message.pair !in c.pairs)
  }

  ghost predicate Enabled(c: Config, s: System, a: Action) {
    match a
    case Tick(k) => k < |c.pairs|
    case Receive(r) => r in s.requests
    case Notify(d) => d in s.replies
    case SweepTable => true
    case Wait(until) => s.clock <= until
    case Stranger(r) => IsStranger(c, r)
    case LoseRequest(r) => r in s.requests
    case LoseReply(d) => d in s.replies
    case RepeatRequest(r) => r in s.requests
    case RepeatReply(d) => d in s.replies
    case Reboot(k, _) => k < |c.pairs|
    case Restart => true
  }

  function ReplyTo(r: Request, reply: Option<Reply>): multiset<Delivery> {
    match reply
    case None => multiset{}
    case Some(x) => multiset{Delivery(r.from, x)}
  }

  function Next(c: Config, s: System, a: Action): (t: System)
    requires |s.daemons| == |c.sockets| == |c.pairs|
    ensures Shaped(c, s) ==> Shaped(c, t)
  {
    match a
    case Tick(k) => if k < |c.pairs| then s.(requests := s.requests + multiset{Outgoing(c, s.daemons, k)}) else s
    case Receive(r) =>
      s.(table := HandleTable(c.variant, s.table, s.clock, r.from, r.message),
         requests := s.requests - multiset{r},
         replies := s.replies + ReplyTo(r, HandleReply(s.table, r.from, r.message)))
    case Notify(d) => s.(daemons := Notified(c, s.daemons, d), replies := s.replies - multiset{d})
    case SweepTable => s.(table := Sweep(s.table, s.clock), sweptAt := s.clock)
    case Wait(until) => s.(clock := until)
    case Stranger(r) => s.(requests := s.requests + multiset{r})
    case LoseRequest(r) => s.(requests := s.requests - multiset{r})
    case LoseReply(d) => s.(replies := s.replies - multiset{d})
    case RepeatRequest(r) => s.(requests := s.requests + multiset{r})
    case RepeatReply(d) => s.(replies := s.replies + multiset{d})
    case Reboot(k, sendingOk) => if k < |c.pairs| then s.(daemons := s.daemons[k := sendingOk]) else s
    case Restart => s.(table := FreshTable(c.pairs))
  }

  /** A finite run: the actions in order, each enabled where it happens. */
  ghost predicate Runs(c: Config, s: System, actions: seq<Action>)
    requires ValidConfig(c) && Shaped(c, s)
    decreases |actions|
  {
    actions == [] ||
    (Enabled(c, s, actions[0]) && Runs(c, Next(c, s, actions[0]), actions[1..]))
  }

  ghost function After(c: Config, s: System, actions: seq<Action>): (after: System)
    requires ValidConfig(c) && Shaped(c, s)
    ensures Shaped(c, after)
    decreases |actions|
  {
    if actions == [] then s else After(c, Next(c, s, actions[0]), actions[1..])
  }

  lemma FirstStep(c: Config, s: System, actions: seq<Action>)
    requires ValidConfig(c) && Shaped(c, s) && actions != []
    ensures After(c, s, actions) == After(c, Next(c, s, actions[0]), actions[1..])
    ensures Runs(c, s, actions) <==> Enabled(c, s, actions[0]) && Runs(c, Next(c, s, actions[0]), actions[1..])
  {
  }

  lemma NoStep(c: Config, s: System)
    requires ValidConfig(c) && Shaped(c, s)
    ensures After(c, s, []) == s && Runs(c, s, [])
  {
  }

  // ----- identification safety -----

  ghost predicate Identified(c: Config, s: System, k: nat)
    requires Shaped(c, s) && k < |c.pairs| == |c.sockets|
  {
    s.table[k].identifier == Some(c.sockets[k])
  }

  /** Announcements of configured pairs come from their own sockets. */
  ghost predicate HonestRequests(c: Config, requests: multiset<Request>)
    requires |c.pairs| == |c.sockets|
  {
    forall r, k :: r in requests && 0 <= k < |c.pairs| && r.message == Announce(c.pairs[k]) ==> r.from == c.sockets[k]
  }

  /** Every entry is unidentified or identified by its own socket. */
  ghost predicate AllHonest(c: Config, s: System)
    requires ValidConfig(c) && Shaped(c, s)
  {
    HonestRequests(c, s.requests)
    && forall i :: 0 <= i < |c.pairs| ==> s.table[i].identifier == None || Identified(c, s, i)
  }

  /** Server k sends OK, or has an OK under way in either direction, only when it is identified. */
  ghost predicate SafeServer(c: Config, s: System, k: nat)
    requires ValidConfig(c) && Shaped(c, s) && k < |c.pairs|
  {
    (s.daemons[k] || OkRequest(c, k) in s.requests || OkDelivery(c, k) in s.replies ==> Identified(c, s, k))
    && AuthDelivery(c, k) !in s.replies
  }

  ghost predicate Safe(c: Config, s: System, k: nat)
    requires ValidConfig(c) && Shaped(c, s) && k < |c.pairs|
  {
    AllHonest(c, s) && SafeServer(c, s, k)
  }

  /** No entry is identified by a socket that is not its own, so an OK finds its own entry. */
  lemma OkFindsOwnEntry(c: Config, s: System, k: nat)
    requires ValidConfig(c) && Shaped(c, s) && k < |c.pairs| && Identified(c, s, k)
    requires forall i :: 0 <= i < |c.pairs| && i != k ==> s.table[i].identifier != Some(c.sockets[k])
    ensures FindIdentifier(s.table, c.sockets[k]) == k
  {
    FindIdentifierIs(s.table, c.sockets[k], k);
  }

  lemma HonestOkFindsOwnEntry(c: Config, s: System, k: nat)
    requires ValidConfig(c) && Shaped(c, s) && k < |c.pairs| && AllHonest(c, s) && Identified(c, s, k)
    ensures FindIdentifier(s.table, c.sockets[k]) == k
  {
    forall i | 0 <= i < |c.pairs| && i != k ensures s.table[i].identifier != Some(c.sockets[k]) {
      assert s.table[i].identifier == None || Identified(c, s, i);
    }
    OkFindsOwnEntry(c, s, k);
  }

  lemma AnnounceFindsOwnEntry(c: Config, s: System, k: nat)
    requires ValidConfig(c) && Shaped(c, s) && k < |c.pairs|
    ensures FindPair(s.table, c.pairs[k]) == k
  {
    FindPairIs(s.table, c.pairs[k], k);
  }

  lemma NextRequestsHonest(c: Config, s: System, a: Action)
    requires ValidConfig(c) && Shaped(c, s) && HonestRequests(c, s.requests) && Enabled(c, s, a)
    ensures HonestRequests(c, Next(c, s, a).requests)
  {
    hide HandleTable, HandleReply;
    var t := Next(c, s, a);
    forall r, k | r in t.requests && 0 <= k < |c.pairs| && r.message == Announce(c.pairs[k])
      ensures r.from == c.sockets[k]
    {
      if r !in s.requests && a.Tick? { assert r == Outgoing(c, s.daemons, a.k); }
    }
  }

  /** An announcement that finds an entry comes from that entry's own socket. */
  lemma AnnounceIsOwn(c: Config, s: System, r: Request)
    requires ValidConfig(c) && Shaped(c, s) && HonestRequests(c, s.requests) && r in s.requests && r.message.Announce?
    ensures var i := FindPair(s.table, r.message.pair); i < |s.table| ==> r.from == c.sockets[i]
  {
    var i := FindPair(s.table, r.message.pair);
    if i < |s.table| { assert r.message == Announce(c.pairs[i]); }
  }

  /** The table stays honest in every step, restarts on both sides included. */
  lemma NextIsAllHonest(c: Config, s: System, a: Action)
    requires ValidConfig(c) && Shaped(c, s) && AllHonest(c, s) && Enabled(c, s, a)
    ensures AllHonest(c, Next(c, s, a))
  {
    hide HandleTable, HandleReply, HonestRequests;
    NextRequestsHonest(c, s, a);
    if a.Receive? {
      TableStaysHonest(c, s, a.request);
    }
  }

  lemma TableStaysHonest(c: Config, s: System, r: Request)
    requires ValidConfig(c) && Shaped(c, s) && AllHonest(c, s) && r in s.requests
    ensures var after := HandleTable(c.variant, s.table, s.clock, r.from, r.message);
            forall i :: 0 <= i < |c.pairs| ==> after[i].identifier == None || after[i].identifier == Some(c.sockets[i])
  {
    hide HonestRequests, FindPair, FindIdentifier;
    if r.message.Announce? { AnnounceIsOwn(c, s, r); }
  }

  /**
   Of all steps but a proxy restart exactly one kind is unsafe: that daemon k restarts in the OK state
   while it is not identified.
   */
  lemma NextIsSafe(c: Config, s: System, a: Action, k: nat)
    requires ValidConfig(c) && Shaped(c, s) && k < |c.pairs| && Safe(c, s, k) && Enabled(c, s, a) && a != Restart
    ensures Safe(c, Next(c, s, a), k) <==> (a == Reboot(k, true) ==> Identified(c, s, k))
  {
    hide Next, SafeServer, AllHonest, HandleTable, HandleReply;
    NextIsAllHonest(c, s, a);
    if a == Reboot(k, true) {
      RebootKeeps(c, s, k);
    } else if a.Receive? {
      ReceiveKeeps(c, s, a.request, k);
    } else {
      QuietStepKeeps(c, s, a, k);
    }
  }

  lemma RebootKeeps(c: Config, s: System, k: nat)
    requires ValidConfig(c) && Shaped(c, s) && k < |c.pairs| && SafeServer(c, s, k)
    ensures SafeServer(c, Next(c, s, Reboot(k, true)), k) <==> Identified(c, s, k)
  {
  }

  /** Steps in which the proxy handles no datagram. */
  lemma QuietStepKeeps(c: Config, s: System, a: Action, k: nat)
    requires ValidConfig(c) && Shaped(c, s) && k < |c.pairs| && SafeServer(c, s, k)
    requires Enabled(c, s, a) && !a.Receive? && !a.Restart? && a != Reboot(k, true)
    ensures SafeServer(c, Next(c, s, a), k)
  {
    hide HandleTable, HandleReply, SafeServer, ValidConfig, Shaped;
    Sizes(c, s);
    if a.Tick? {
      TickKeeps(c, s, a.k, k);
    } else if a.Notify? {
      NotifyKeeps(c, s, a.delivery, k);
    } else {
      NothingGained(c, s, Next(c, s, a), k);
    }
  }

  lemma Sizes(c: Config, s: System)
    requires ValidConfig(c) && Shaped(c, s)
    ensures |s.table| == |s.daemons| == |c.pairs| == |c.sockets|
  {
  }

  lemma NothingGained(c: Config, s: System, t: System, k: nat)
    requires ValidConfig(c) && Shaped(c, s) && Shaped(c, t) && k < |c.pairs| && SafeServer(c, s, k)
    requires t.table[k].identifier == s.table[k].identifier && (t.daemons[k] ==> s.daemons[k])
    requires forall r :: r in t.requests && r.from == c.sockets[k] ==> r in s.requests
    requires forall d :: d in t.replies ==> d in s.replies
    ensures SafeServer(c, t, k)
  {
  }

  lemma TickKeeps(c: Config, s: System, i: nat, k: nat)
    requires ValidConfig(c) && Shaped(c, s) && k < |c.pairs| && SafeServer(c, s, k) && i < |c.pairs|
    ensures SafeServer(c, Next(c, s, Tick(i)), k)
  {
    hide HandleTable, HandleReply, FindPair, FindIdentifier;
    assert Outgoing(c, s.daemons, i) == OkRequest(c, k) ==> i == k && s.daemons[k];
  }

  lemma NotifyKeeps(c: Config, s: System, d: Delivery, k: nat)
    requires ValidConfig(c) && Shaped(c, s) && k < |c.pairs| && SafeServer(c, s, k) && d in s.replies
    ensures SafeServer(c, Next(c, s, Notify(d)), k)
  {
    hide HandleTable, HandleReply, FindPair, FindIdentifier;
  }

  lemma ReceiveKeeps(c: Config, s: System, r: Request, k: nat)
    requires ValidConfig(c) && Shaped(c, s) && k < |c.pairs| && Safe(c, s, k) && r in s.requests
    ensures SafeServer(c, Next(c, s, Receive(r)), k)
  {
    hide HandleTable, HandleReply, SafeServer, Next;
    match r.message
    case OkMessage =>
      if r.from == c.sockets[k] {
        OwnOkKeeps(c, s, k);
      } else {
        ForeignKeeps(c, s, r, k);
      }
    case Announce(pair) =>
      AnnounceIsOwn(c, s, r);
      if pair == c.pairs[k] {
        AnnounceFindsOwnEntry(c, s, k);
        OwnAnnouncementKeeps(c, s, r, k);
      } else {
        ForeignKeeps(c, s, r, k);
      }
    case Unrecognised =>
      ForeignKeeps(c, s, r, k);
  }

  lemma OwnOkKeeps(c: Config, s: System, k: nat)
    requires ValidConfig(c) && Shaped(c, s) && k < |c.pairs| && Safe(c, s, k) && OkRequest(c, k) in s.requests
    ensures SafeServer(c, Next(c, s, Receive(OkRequest(c, k))), k)
  {
    hide AllHonest;
    HonestOkFindsOwnEntry(c, s, k);
  }

  lemma OwnAnnouncementKeeps(c: Config, s: System, r: Request, k: nat)
    requires ValidConfig(c) && Shaped(c, s) && k < |c.pairs| && SafeServer(c, s, k)
    requires r in s.requests && r == Request(c.sockets[k], Announce(c.pairs[k])) && FindPair(s.table, c.pairs[k]) == k
    ensures SafeServer(c, Next(c, s, Receive(r)), k)
  {
    hide FindPair, FindIdentifier;
  }

  /** A datagram that is neither an OK nor an announcement of the server. */
  lemma ForeignKeeps(c: Config, s: System, r: Request, k: nat)
    requires ValidConfig(c) && Shaped(c, s) && k < |c.pairs| && SafeServer(c, s, k) && r in s.requests
    requires r.message == OkMessage ==> r.from != c.sockets[k]
    requires r.message.Announce? ==>
               r.message.pair != c.pairs[k]
               && var i := FindPair(s.table, r.message.pair); i < |s.table| ==> r.from == c.sockets[i]
    ensures SafeServer(c, Next(c, s, Receive(r)), k)
  {
  }

  /** Safe in every run: whatever is lost, repeated or reordered. */
  lemma {:induction false} RunsAreSafe(c: Config, s: System, actions: seq<Action>, k: nat)
    requires ValidConfig(c) && Shaped(c, s) && k < |c.pairs| && Safe(c, s, k) && Runs(c, s, actions)
    requires Restart !in actions && Reboot(k, true) !in actions
    ensures Safe(c, After(c, s, actions), k)
    decreases |actions|
  {
    hide Next, Safe, Enabled;
    if actions != [] {
      NextIsSafe(c, s, actions[0], k);
      RunsAreSafe(c, Next(c, s, actions[0]), actions[1..], k);
    }
  }

  /**
   Identification safety, for a server whose daemon starts and restarts announcing, in every run from
   the start without a proxy restart: if it sends OK, or has an OK under way in either direction, it is
   identified; AUTH is never sent to it; and an OK of its own that arrives refreshes its entry and no
   other. The other daemons may start and restart in any state.
   */
  lemma IdentificationSafety(c: Config, clock: int, daemons: seq<bool>, actions: seq<Action>, k: nat)
    requires ValidConfig(c) && k < |c.pairs| == |daemons| && !daemons[k]
    requires Runs(c, Start(c, clock, daemons), actions) && Restart !in actions && Reboot(k, true) !in actions
    ensures var s := After(c, Start(c, clock, daemons), actions);
            && (s.daemons[k] || OkDelivery(c, k) in s.replies || OkRequest(c, k) in s.requests ==> Identified(c, s, k))
            && AuthDelivery(c, k) !in s.replies
            && (OkRequest(c, k) in s.requests ==>
                  Next(c, s, Receive(OkRequest(c, k))).table == s.table[k := Beat(s.table[k], s.clock)])
  {
    hide Runs, After;
    RunsAreSafe(c, Start(c, clock, daemons), actions, k);
    var s := After(c, Start(c, clock, daemons), actions);
    if Identified(c, s, k) {
      HonestOkFindsOwnEntry(c, s, k);
    }
  }

  /**
   No run without a proxy restart, from a fresh table with these daemons, has an AUTH under way to
   server k; `announces` says that daemon k only ever restarts announcing.
   */
  ghost predicate NeverRefused(c: Config, daemons: seq<bool>, announces: bool, k: nat)
    requires ValidConfig(c) && k < |c.pairs| == |daemons|
  {
    forall clock, actions ::
      Runs(c, Start(c, clock, daemons), actions) && Restart !in actions && (announces ==> Reboot(k, true) !in actions)
      ==> AuthDelivery(c, k) !in After(c, Start(c, clock, daemons), actions).replies
  }

  /** AUTH is never sent to a server exactly if its daemon starts announcing, and restarts announcing. */
  lemma NeverRefusedExactly(c: Config, daemons: seq<bool>, announces: bool, k: nat)
    requires ValidConfig(c) && k < |c.pairs| == |daemons|
    ensures NeverRefused(c, daemons, announces, k) <==> !daemons[k] && announces
  {
    hide Runs, After, Next;
    if !daemons[k] && announces {
      forall clock, actions |
        Runs(c, Start(c, clock, daemons), actions) && Restart !in actions && Reboot(k, true) !in actions
        ensures AuthDelivery(c, k) !in After(c, Start(c, clock, daemons), actions).replies
      {
        IdentificationSafety(c, clock, daemons, actions, k);
      }
    } else if daemons[k] {
      BoldIsRefused(c, Start(c, 0, daemons), k);
      var actions := [Tick(k), Receive(OkRequest(c, k))];
      assert Runs(c, Start(c, 0, daemons), actions) && Restart !in actions && Reboot(k, true) !in actions;
    } else {
      RebootIsRefused(c, Start(c, 0, daemons), k);
      var actions := [Reboot(k, true), Tick(k), Receive(OkRequest(c, k))];
      assert Runs(c, Start(c, 0, daemons), actions) && Restart !in actions;
    }
  }

  /** A daemon in the OK state that the table does not know is refused, as a data server may be. */
  lemma BoldIsRefused(c: Config, s: System, k: nat)
    requires ValidConfig(c) && Shaped(c, s) && k < |c.pairs| && s.daemons[k]
    requires forall i :: 0 <= i < |c.pairs| ==> s.table[i].identifier == None
    ensures var actions := [Tick(k), Receive(OkRequest(c, k))];
            Runs(c, s, actions) && AuthDelivery(c, k) in After(c, s, actions).replies
  {
    hide Runs, After;
    var actions := [Tick(k), Receive(OkRequest(c, k))];
    var s1 := Next(c, s, actions[0]);
    FindIdentifierIs(s.table, c.sockets[k], |s.table|);
    FirstStep(c, s, actions);
    FirstStep(c, s1, actions[1..]);
    assert actions[1..][0] == actions[1] && actions[1..][1..] == [];
    NoStep(c, Next(c, s1, actions[1]));
  }

  lemma RebootIsRefused(c: Config, s: System, k: nat)
    requires ValidConfig(c) && Shaped(c, s) && k < |c.pairs|
    requires forall i :: 0 <= i < |c.pairs| ==> s.table[i].identifier == None
    ensures var actions := [Reboot(k, true), Tick(k), Receive(OkRequest(c, k))];
            Runs(c, s, actions) && AuthDelivery(c, k) in After(c, s, actions).replies
  {
    hide Runs, After;
    var actions := [Reboot(k, true), Tick(k), Receive(OkRequest(c, k))];
    FirstStep(c, s, actions);
    assert actions[1..] == [Tick(k), Receive(OkRequest(c, k))];
    BoldIsRefused(c, Next(c, s, actions[0]), k);
  }

  // ----- staleness of the Ld table -----

  /** An up server of an Ld table is identified and had a heartbeat within TIMEOUT of the last sweep. */
  ghost predicate FreshServer(s: System, server: Server) {
    server.isUp ==>
      server.identifier.Some? && server.lastHeartbeat.Some?
      && server.lastHeartbeat.value <= s.clock && s.sweptAt - server.lastHeartbeat.value <= TIMEOUT
  }

  ghost predicate FreshUps(s: System) {
    s.sweptAt <= s.clock
    && (forall server :: server in s.table ==> FreshServer(s, server))
    && forall server :: server in s.table && server.lastHeartbeat.Some? ==> server.lastHeartbeat.value <= s.clock
  }

  /** What one datagram can do to one entry. */
  lemma HandledEntry(c: Config, s: System, r: Request, i: nat)
    requires i < |s.table|
    ensures var after := HandleTable(c.variant, s.table, s.clock, r.from, r.message)[i];
            || after == s.table[i]
            || (s.table[i].identifier == Some(r.from) && after == Beat(s.table[i], s.clock))
            || after == Identify(c.variant, s.table[i], r.from)
  {
  }

  lemma NextIsFresh(c: Config, s: System, a: Action)
    requires ValidConfig(c) && Shaped(c, s) && c.variant.Ld? && FreshUps(s) && Enabled(c, s, a)
    ensures FreshUps(Next(c, s, a))
  {
    var t := Next(c, s, a);
    forall server | server in t.table
      ensures FreshServer(t, server)
      ensures server.lastHeartbeat.Some? ==> server.lastHeartbeat.value <= t.clock
    {
      var i :| 0 <= i < |t.table| && t.table[i] == server;
      assert s.table[i] in s.table;
      if a.Receive? { HandledEntry(c, s, a.request, i); }
    }
  }

  lemma {:induction false} RunsAreFresh(c: Config, s: System, actions: seq<Action>)
    requires ValidConfig(c) && Shaped(c, s) && c.variant.Ld? && FreshUps(s) && Runs(c, s, actions)
    ensures FreshUps(After(c, s, actions))
    decreases |actions|
  {
    if actions != [] {
      NextIsFresh(c, s, actions[0]);
      RunsAreFresh(c, Next(c, s, actions[0]), actions[1..]);
    }
  }

  /** If server k is up, it is identified and its last heartbeat is recent, as of the last sweep. */
  ghost predicate Bounded(s: System, k: nat)
    requires k < |s.table|
  {
    s.table[k].isUp ==>
      s.table[k].identifier.Some? && s.table[k].lastHeartbeat.Some?
      && s.clock - s.table[k].lastHeartbeat.value <= TIMEOUT + (s.clock - s.sweptAt)
  }

  /**
   Staleness bound of Ld, in every run, restarts and lost datagrams included: an up server is
   identified, and its last heartbeat is no older than TIMEOUT plus the time since the last sweep.
   */
  lemma StalenessBound(c: Config, clock: int, daemons: seq<bool>, actions: seq<Action>, k: nat)
    requires ValidConfig(c) && c.variant.Ld? && k < |c.pairs| == |daemons|
    requires Runs(c, Start(c, clock, daemons), actions)
    ensures Bounded(After(c, Start(c, clock, daemons), actions), k)
  {
    RunsAreFresh(c, Start(c, clock, daemons), actions);
    var s := After(c, Start(c, clock, daemons), actions);
    assert s.table[k] in s.table;
  }

  // ----- staying up -----

  /** An honest table stays honest in every run, restarts on both sides included. */
  lemma {:induction false} RunsAreHonest(c: Config, s: System, actions: seq<Action>)
    requires ValidConfig(c) && Shaped(c, s) && AllHonest(c, s) && Runs(c, s, actions)
    ensures AllHonest(c, After(c, s, actions))
    decreases |actions|
  {
    hide Next, Enabled, AllHonest;
    if actions != [] {
      NextIsAllHonest(c, s, actions[0]);
      RunsAreHonest(c, Next(c, s, actions[0]), actions[1..]);
    }
  }

  /**
   At every sweep of the run the last OK of server k was handled at most TIMEOUT ago: `last` is the time
   of that OK, if there was one. Only the events count: the handled OKs, the sweeps and the time.
   */
  ghost predicate OksInTime(c: Config, clock: int, last: Option<int>, actions: seq<Action>, k: nat)
    requires k < |c.sockets|
    decreases |actions|
  {
    actions == [] ||
    match actions[0]
    case Receive(r) => OksInTime(c, clock, if r == OkRequest(c, k) then Some(clock) else last, actions[1..], k)
    case SweepTable => (last.Some? ==> clock - last.value <= TIMEOUT) && OksInTime(c, clock, last, actions[1..], k)
    case Wait(until) => OksInTime(c, until, last, actions[1..], k)
    case _ => OksInTime(c, clock, last, actions[1..], k)
  }

  /** What one step does to the entry of an identified server. */
  lemma KnownStep(c: Config, s: System, a: Action, k: nat)
    requires ValidConfig(c) && Shaped(c, s) && k < |c.pairs| && AllHonest(c, s) && Identified(c, s, k)
    requires Enabled(c, s, a) && a != Restart
    ensures var t := Next(c, s, a);
            && AllHonest(c, t) && Identified(c, t, k)
            && t.table[k].lastHeartbeat
               == (if a == Receive(OkRequest(c, k)) then Some(s.clock) else s.table[k].lastHeartbeat)
            && (s.table[k].isUp ==> (t.table[k].isUp <==> !(a == SweepTable && Expired(s.table[k], s.clock))))
  {
    hide AllHonest, HandleReply, FindIdentifier, FindPair;
    NextIsAllHonest(c, s, a);
    HonestOkFindsOwnEntry(c, s, k);
    if a.Receive? {
      if a.request.message.Announce? { KnownAnnounces(c, s, a.request, k); }
      if a.request.message.OkMessage? && a.request.from != c.sockets[k] {
        assert FindIdentifier(s.table, a.request.from) != k;
      }
    }
  }

  lemma KnownAnnounces(c: Config, s: System, r: Request, k: nat)
    requires ValidConfig(c) && Shaped(c, s) && k < |c.pairs| && AllHonest(c, s) && Identified(c, s, k)
    requires r in s.requests && r.message.Announce?
    ensures FindPair(s.table, r.message.pair) == k ==> r.from == c.sockets[k]
  {
    AnnounceIsOwn(c, s, r);
  }

  /** Server k is up at the start of the run and after every step of it. */
  ghost predicate UpThroughout(c: Config, s: System, actions: seq<Action>, k: nat)
    requires ValidConfig(c) && Shaped(c, s) && k < |c.pairs|
    decreases |actions|
  {
    s.table[k].isUp && (actions == [] || UpThroughout(c, Next(c, s, actions[0]), actions[1..], k))
  }

  /**
   A server that is up stays up throughout a run without a proxy restart exactly if its OKs are handled
   in time, in either proxy, whatever the other servers do.
   */
  lemma {:induction false} TimelyServerStaysUp(c: Config, s: System, actions: seq<Action>, k: nat)
    requires ValidConfig(c) && Shaped(c, s) && k < |c.pairs| && AllHonest(c, s) && Identified(c, s, k)
    requires Runs(c, s, actions) && Restart !in actions && s.table[k].isUp
    ensures UpThroughout(c, s, actions, k) <==> OksInTime(c, s.clock, s.table[k].lastHeartbeat, actions, k)
    decreases |actions|
  {
    hide Next, AllHonest, Enabled;
    if actions != [] {
      var t := Next(c, s, actions[0]);
      KnownStep(c, s, actions[0], k);
      ClockStep(c, s, actions[0]);
      if t.table[k].isUp {
        TimelyServerStaysUp(c, t, actions[1..], k);
      }
    }
  }

  lemma ClockStep(c: Config, s: System, a: Action)
    requires ValidConfig(c) && Shaped(c, s)
    ensures Next(c, s, a).clock == if a.Wait? then a.until else s.clock
  {
  }

  /** Whoever is up in a run from the start is such a server, restarts on both sides included. */
  lemma UpIsKnown(c: Config, clock: int, daemons: seq<bool>, actions: seq<Action>, k: nat)
    requires ValidConfig(c) && k < |c.pairs| == |daemons| && Runs(c, Start(c, clock, daemons), actions)
    ensures var s := After(c, Start(c, clock, daemons), actions);
            AllHonest(c, s) && (s.table[k].isUp ==> Identified(c, s, k))
  {
    var start := Start(c, clock, daemons);
    assert UpsAreIdentified(start);
    RunsAreHonest(c, start, actions);
    RunsIdentifyUps(c, start, actions);
    var s := After(c, start, actions);
    assert s.table[k] in s.table;
  }

  lemma SilentStep(c: Config, s: System, a: Action, k: nat)
    requires ValidConfig(c) && Shaped(c, s) && AllHonest(c, s) && Enabled(c, s, a) && k < |c.pairs|
    requires s.table[k].isUp && s.table[k].lastHeartbeat == None
    requires a != Restart && a != Receive(OkRequest(c, k))
    ensures Next(c, s, a).table[k].isUp && Next(c, s, a).table[k].lastHeartbeat == None
  {
    if a.Receive? && a.request.message.OkMessage? {
      assert FindIdentifier(s.table, a.request.from) != k;
    }
  }

  /** An Fl table has no staleness bound: a server that identified itself and then fell silent stays up. */
  lemma {:induction false} SilentFlServerStaysUp(c: Config, s: System, actions: seq<Action>, k: nat)
    requires ValidConfig(c) && Shaped(c, s) && AllHonest(c, s) && Runs(c, s, actions) && k < |c.pairs|
    requires s.table[k].isUp && s.table[k].lastHeartbeat == None
    requires Restart !in actions && Receive(OkRequest(c, k)) !in actions
    ensures After(c, s, actions).table[k].isUp && After(c, s, actions).table[k].lastHeartbeat == None
    decreases |actions|
  {
    hide Next, AllHonest, Enabled;
    if actions != [] {
      assert actions[0] in actions;
      NextIsAllHonest(c, s, actions[0]);
      SilentStep(c, s, actions[0], k);
      SilentFlServerStaysUp(c, Next(c, s, actions[0]), actions[1..], k);
    }
  }

  // ----- what Fl promises instead -----

  /** A server that announces itself and then never sends an OK: up, without a heartbeat. */
  lemma SilentServerIsUp(c: Config, clock: int, daemons: seq<bool>, k: nat, until: int)
    requires ValidConfig(c) && c.variant.Fl? && k < |c.pairs| == |daemons| && !daemons[k] && clock <= until
    ensures var actions := [Tick(k), Receive(Announcement(c, k)), Wait(until), SweepTable];
            && Runs(c, Start(c, clock, daemons), actions)
            && After(c, Start(c, clock, daemons), actions).table[k].isUp
            && After(c, Start(c, clock, daemons), actions).table[k].lastHeartbeat == None
  {
    hide HandleReply, FindPair;
    var actions := [Tick(k), Receive(Announcement(c, k)), Wait(until), SweepTable];
    var s0 := Start(c, clock, daemons);
    var s1 := Next(c, s0, actions[0]);
    assert s1.requests == multiset{Announcement(c, k)};
    AnnounceFindsOwnEntry(c, s1, k);
    var s2 := Next(c, s1, actions[1]);
    var s3 := Next(c, s2, actions[2]);
    var s4 := Next(c, s3, actions[3]);
    FourSteps(c, s0, actions);
    assert s4.table[k].isUp && s4.table[k].lastHeartbeat == None;
  }

  /** A run of four steps, step by step. */
  lemma FourSteps(c: Config, s: System, actions: seq<Action>)
    requires ValidConfig(c) && Shaped(c, s) && |actions| == 4
    ensures var s1 := Next(c, s, actions[0]);
            var s2 := Next(c, s1, actions[1]);
            var s3 := Next(c, s2, actions[2]);
            var enabled := Enabled(c, s, actions[0]) && Enabled(c, s1, actions[1])
                           && Enabled(c, s2, actions[2]) && Enabled(c, s3, actions[3]);
            After(c, s, actions) == Next(c, s3, actions[3]) && (enabled ==> Runs(c, s, actions))
  {
    hide Next, Enabled, Runs, After;
    var r1, r2, r3 := actions[1..], actions[1..][1..], actions[1..][1..][1..];
    assert r1[0] == actions[1] && r2[0] == actions[2] && r3[0] == actions[3] && r3[1..] == [];
    var s1 := Next(c, s, actions[0]);
    var s2 := Next(c, s1, actions[1]);
    var s3 := Next(c, s2, actions[2]);
    FirstStep(c, s, actions);
    FirstStep(c, s1, r1);
    FirstStep(c, s2, r2);
    FirstStep(c, s3, r3);
    NoStep(c, Next(c, s3, actions[3]));
  }

  /** The bound of StalenessBound, in every run from the start. */
  ghost predicate AlwaysBounded(c: Config)
    requires ValidConfig(c)
  {
    forall clock, daemons, actions, k: nat ::
      k < |c.pairs| == |daemons| && Runs(c, Start(c, clock, daemons), actions) ==>
        Bounded(After(c, Start(c, clock, daemons), actions), k)
  }

  /** The bound is a matter of the variant: of all configurations with a server, exactly Ld keeps it. */
  lemma BoundedExactly(c: Config)
    requires ValidConfig(c)
    ensures AlwaysBounded(c) <==> c.variant.Ld? || c.pairs == []
  {
    hide Runs, After, Bounded;
    if c.variant.Ld? {
      forall clock, daemons, actions, k: nat | k < |c.pairs| == |daemons| && Runs(c, Start(c, clock, daemons), actions)
        ensures Bounded(After(c, Start(c, clock, daemons), actions), k)
      {
        StalenessBound(c, clock, daemons, actions, k);
      }
    } else if c.pairs != [] {
      var daemons := seq(|c.pairs|, _ => false);
      SilentServerIsUp(c, 0, daemons, 0, 0);
      SilentIsUnbounded(c, After(c, Start(c, 0, daemons), [Tick(0), Receive(Announcement(c, 0)), Wait(0), SweepTable]), 0);
    }
  }

  lemma SilentIsUnbounded(c: Config, s: System, k: nat)
    requires k < |s.table| && s.table[k].isUp && s.table[k].lastHeartbeat == None
    ensures !Bounded(s, k)
  {
  }

  ghost predicate UpsAreIdentified(s: System) {
    forall server :: server in s.table && server.isUp ==> server.identifier.Some?
  }

  lemma NextUpsAreIdentified(c: Config, s: System, a: Action)
    requires ValidConfig(c) && Shaped(c, s) && UpsAreIdentified(s) && Enabled(c, s, a)
    ensures UpsAreIdentified(Next(c, s, a))
  {
    hide HandleTable, HandleReply;
    var t := Next(c, s, a);
    forall server | server in t.table && server.isUp ensures server.identifier.Some? {
      var i :| 0 <= i < |t.table| && t.table[i] == server;
      assert s.table[i] in s.table;
      if a.Receive? { HandledEntry(c, s, a.request, i); }
    }
  }

  lemma {:induction false} RunsIdentifyUps(c: Config, s: System, actions: seq<Action>)
    requires ValidConfig(c) && Shaped(c, s) && UpsAreIdentified(s) && Runs(c, s, actions)
    ensures UpsAreIdentified(After(c, s, actions))
    decreases |actions|
  {
    hide Next, Enabled, UpsAreIdentified;
    if actions != [] {
      NextUpsAreIdentified(c, s, actions[0]);
      RunsIdentifyUps(c, Next(c, s, actions[0]), actions[1..]);
    }
  }

  /**
   What both variants promise, in every run: an up server is identified, and right after a sweep it
   meets the bound exactly if it had a heartbeat since the proxy started.
   */
  lemma SweptBound(c: Config, clock: int, daemons: seq<bool>, actions: seq<Action>, k: nat)
    requires ValidConfig(c) && k < |c.pairs| == |daemons| && Runs(c, Start(c, clock, daemons), actions)
    ensures var s := After(c, Start(c, clock, daemons), actions);
            var swept := Next(c, s, SweepTable);
            && (s.table[k].isUp ==> s.table[k].identifier.Some?)
            && (swept.table[k].isUp ==> (Bounded(swept, k) <==> swept.table[k].lastHeartbeat.Some?))
  {
    assert UpsAreIdentified(Start(c, clock, daemons));
    RunsIdentifyUps(c, Start(c, clock, daemons), actions);
    var s := After(c, Start(c, clock, daemons), actions);
    assert s.table[k] in s.table;
  }
}
