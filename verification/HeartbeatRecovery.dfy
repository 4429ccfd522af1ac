/**
 Self-stabilisation when every daemon keeps sending: a server fails to recover in some fair run
 exactly if it is in a ring of stuck servers whose entries claim each other's sockets.
 */
module HeartbeatRecovery {
  import opened Options
  import opened HeartbeatProxy
  import opened HeartbeatProtocol
  import opened HeartbeatLiveness

  ghost predicate FairToAll(c: Config, states: nat -> System, actions: nat -> Action)
    requires ValidConfig(c)
  {
    forall k: nat :: k < |c.pairs| ==> FairFor(c, states, actions, k)
  }

  ghost predicate Claims(c: Config, s: System, j: nat, k: nat)
    requires Shaped(c, s) && j < |c.pairs| && k < |c.sockets|
  {
    j != k && s.table[j].identifier == Some(c.sockets[k])
  }

  /** Every member is stuck on its own and claimed by another member. */
  ghost predicate Locked(c: Config, s: System, ring: set<nat>)
    requires ValidConfig(c) && Shaped(c, s)
  {
    (forall k :: k in ring ==> k < |c.pairs|)
    && forall k {:trigger ClaimedIn(c, s, k, ring)} :: k in ring ==> !Curable(c, s, k) && ClaimedIn(c, s, k, ring)
  }

  ghost predicate ClaimedIn(c: Config, s: System, k: nat, ring: set<nat>)
    requires ValidConfig(c) && Shaped(c, s) && k < |c.pairs|
  {
    exists j :: j in ring && j < |c.pairs| && Claims(c, s, j, k)
  }

  /** Every run from `s` that is fair to all servers, without loss and repetition, settles server k. */
  ghost predicate HealsWithAll(c: Config, s: System, k: nat)
    requires ValidConfig(c) && k < |c.pairs|
  {
    forall states: nat -> System, actions: nat -> Action ::
      ReliableRun(c, states, actions) && FairToAll(c, states, actions) && states(0) == s ==>
        exists n: nat :: SettledFrom(c, states, k, n)
  }

  // ----- a ring claims around: everyone in it claims a member -----

  ghost function Image(f: map<nat, nat>, a: set<nat>): set<nat>
    requires a <= f.Keys
  {
    set x | x in a :: f[x]
  }

  lemma {:induction false} ImageSize(f: map<nat, nat>, a: set<nat>)
    requires a <= f.Keys && forall x, y :: x in a && y in a && x != y ==> f[x] != f[y]
    ensures |Image(f, a)| == |a|
    decreases |a|
  {
    assert (forall x :: x !in a) ==> a == {};
    if a != {} {
      var x :| x in a;
      var rest := a - {x};
      ImageSize(f, rest);
      assert f[x] !in Image(f, rest);
      assert Image(f, a) == Image(f, rest) + {f[x]};
    }
  }

  /** Different members mapped to different members: every member is hit. */
  lemma MapsOnto(f: map<nat, nat>, a: set<nat>, j: nat)
    requires a <= f.Keys && Image(f, a) <= a && j in a
    requires forall x, y :: x in a && y in a && x != y ==> f[x] != f[y]
    ensures j in Image(f, a)
  {
    hide Image;
    ImageSize(f, a);
    var image := Image(f, a);
    assert a == image + (a - image);
    assert |a| == |image| + |a - image|;
    assert a - image == {};
  }

  ghost function ClaimantOf(c: Config, s: System, k: nat, ring: set<nat>): (j: nat)
    requires ValidConfig(c) && Shaped(c, s) && Locked(c, s, ring) && k in ring
    ensures j in ring && j < |c.pairs| && k < |c.pairs| && Claims(c, s, j, k)
  {
    assert ClaimedIn(c, s, k, ring);
    var j :| j in ring && j < |c.pairs| && Claims(c, s, j, k);
    j
  }

  lemma InRing(c: Config, s: System, ring: set<nat>, k: nat)
    requires ValidConfig(c) && Shaped(c, s) && Locked(c, s, ring) && k in ring
    ensures k < |c.pairs| && !Curable(c, s, k)
  {
    hide Curable;
    assert ClaimedIn(c, s, k, ring);
  }

  /** The claims in a ring are a permutation of it: each member is claimed by one and claims one. */
  lemma RingIsCyclic(c: Config, s: System, ring: set<nat>, j: nat)
    requires ValidConfig(c) && Shaped(c, s) && Locked(c, s, ring) && j in ring
    ensures exists k :: k in ring && k < |c.pairs| && Claims(c, s, j, k)
  {
    hide Curable, Locked, ClaimedIn, Claims, ClaimantOf, Shaped;
    ghost var f := map k | k in ring :: ClaimantOf(c, s, k, ring);
    forall x, y | x in ring && y in ring && x != y ensures f[x] != f[y] {
      assert f[x] == ClaimantOf(c, s, x, ring) && f[y] == ClaimantOf(c, s, y, ring);
      OneClaim(c, s, f[x], x, y);
    }
    assert Image(f, ring) <= ring;
    MapsOnto(f, ring, j);
    ghost var k :| k in ring && f[k] == j;
    assert Claims(c, s, j, k);
  }

  lemma OneClaim(c: Config, s: System, j: nat, x: nat, y: nat)
    requires ValidConfig(c) && Shaped(c, s) && j < |c.pairs| && x < |c.pairs| && y < |c.pairs| && x != y
    requires Claims(c, s, j, x)
    ensures !Claims(c, s, j, y)
  {
    assert c.sockets[x] != c.sockets[y];
  }

  // ----- a fair run that keeps a ring locked -----

  /** The next action for server i: its replies first, then its requests, then a new one. */
  ghost function Serve(c: Config, s: System, i: nat): Action
    requires i < |c.sockets| == |c.pairs|
  {
    if AuthDelivery(c, i) in s.replies then Notify(AuthDelivery(c, i))
    else if OkDelivery(c, i) in s.replies then Notify(OkDelivery(c, i))
    else if OkRequest(c, i) in s.requests then Receive(OkRequest(c, i))
    else if Announcement(c, i) in s.requests then Receive(Announcement(c, i))
    else Tick(i)
  }

  /** The servers in turn. */
  ghost function Round(c: Config, s: System, n: nat): (t: System)
    requires ValidConfig(c) && Shaped(c, s) && c.pairs != []
    ensures Shaped(c, t)
  {
    if n == 0 then s else Next(c, Round(c, s, n - 1), Serve(c, Round(c, s, n - 1), (n - 1) % |c.pairs|))
  }

  ghost function Turn(c: Config, s: System, n: nat): Action
    requires ValidConfig(c) && Shaped(c, s) && c.pairs != []
  {
    Serve(c, Round(c, s, n), n % |c.pairs|)
  }

  /** What is still to be done for server i; an answer counts half of a request. */
  ghost function Work(c: Config, s: System, i: nat): nat
    requires i < |c.sockets| == |c.pairs|
  {
    s.replies[AuthDelivery(c, i)] + s.replies[OkDelivery(c, i)]
    + 2 * s.requests[OkRequest(c, i)] + 2 * s.requests[Announcement(c, i)]
  }

  /** What fairness owes to server i. */
  ghost predicate OwedTo(c: Config, s: System, i: nat, a: Action)
    requires i < |c.sockets| == |c.pairs|
  {
    match a
    case Tick(j) => j == i
    case Notify(d) => d in s.replies && d.to == c.sockets[i]
    case Receive(r) => r in s.requests && (r == OkRequest(c, i) || r == Announcement(c, i))
    case _ => false
  }

  lemma ServeIsPossible(c: Config, s: System, i: nat)
    requires ValidConfig(c) && Shaped(c, s) && i < |c.pairs|
    ensures Enabled(c, s, Serve(c, s, i)) && Reliable(Serve(c, s, i))
  {
  }

  /** Serving another server leaves what is owed to i, and its work, alone. */
  lemma ServeOther(c: Config, s: System, i: nat, j: nat, a: Action)
    requires ValidConfig(c) && Shaped(c, s) && i < |c.pairs| && j < |c.pairs| && i != j
    requires HonestRequests(c, s.requests) && OwedTo(c, s, i, a)
    ensures var t := Next(c, s, Serve(c, s, j)); OwedTo(c, t, i, a) && Work(c, t, i) == Work(c, s, i)
  {
    hide HandleTable, HonestRequests, HandleReply, Next;
    var t := Next(c, s, Serve(c, s, j));
    SameViewAfterOther(c, s, i, j);
    if a.Notify? { KindsOfDelivery(c, a.delivery, i); }
  }

  /** What is under way to and from server i. */
  ghost predicate SameTraffic(c: Config, s: System, t: System, i: nat)
    requires i < |c.sockets| == |c.pairs|
  {
    t.requests[Announcement(c, i)] == s.requests[Announcement(c, i)]
    && t.requests[OkRequest(c, i)] == s.requests[OkRequest(c, i)]
    && t.replies[OkDelivery(c, i)] == s.replies[OkDelivery(c, i)]
    && t.replies[AuthDelivery(c, i)] == s.replies[AuthDelivery(c, i)]
  }

  lemma SameViewAfterOther(c: Config, s: System, i: nat, j: nat)
    requires ValidConfig(c) && Shaped(c, s) && i < |c.pairs| && j < |c.pairs| && i != j
    requires HonestRequests(c, s.requests)
    ensures var t := Next(c, s, Serve(c, s, j));
            && SameTraffic(c, s, t, i) && t.daemons[i] == s.daemons[i] && (Identified(c, t, i) <==> Identified(c, s, i))
  {
    hide HonestRequests, Next;
    var served := Serve(c, s, j);
    assert c.sockets[i] != c.sockets[j];
    if served.Receive? {
      OthersRequest(c, s, served.request, i);
    } else if served.Notify? {
      OtherHears(c, s, served.delivery, i);
    } else {
      OtherTicks(c, s, j, i);
    }
  }

  lemma OtherHears(c: Config, s: System, d: Delivery, i: nat)
    requires ValidConfig(c) && Shaped(c, s) && i < |c.pairs| && d.to != c.sockets[i]
    ensures var t := Next(c, s, Notify(d));
            SameTraffic(c, s, t, i) && t.daemons[i] == s.daemons[i] && t.table == s.table
  {
  }

  lemma OtherTicks(c: Config, s: System, j: nat, i: nat)
    requires ValidConfig(c) && Shaped(c, s) && i < |c.pairs| && j < |c.pairs| && i != j
    ensures var t := Next(c, s, Tick(j));
            SameTraffic(c, s, t, i) && t.daemons[i] == s.daemons[i] && t.table == s.table
  {
  }

  /** Serving server i does what was asked or lowers its work and leaves the rest owed. */
  lemma ServeOwn(c: Config, s: System, i: nat, a: Action)
    requires ValidConfig(c) && Shaped(c, s) && i < |c.pairs|
    requires HonestRequests(c, s.requests) && OwedTo(c, s, i, a) && Serve(c, s, i) != a
    ensures var t := Next(c, s, Serve(c, s, i)); OwedTo(c, t, i, a) && Work(c, t, i) < Work(c, s, i)
  {
    if a.Notify? { KindsOfDelivery(c, a.delivery, i); }
    if Serve(c, s, i).Receive? {
      ReceiveOwn(c, s, i, a);
    } else {
      NotifyOwn(c, s, i, a);
    }
  }

  lemma ReceiveOwn(c: Config, s: System, i: nat, a: Action)
    requires ValidConfig(c) && Shaped(c, s) && i < |c.pairs|
    requires HonestRequests(c, s.requests) && OwedTo(c, s, i, a) && Serve(c, s, i) != a && Serve(c, s, i).Receive?
    ensures var t := Next(c, s, Serve(c, s, i)); OwedTo(c, t, i, a) && Work(c, t, i) < Work(c, s, i)
  {
    hide Next, HonestRequests, Unclaimed;
    if a.Notify? { KindsOfDelivery(c, a.delivery, i); }
    OwnRequest(c, s, Serve(c, s, i).request, i);
  }

  lemma NotifyOwn(c: Config, s: System, i: nat, a: Action)
    requires ValidConfig(c) && Shaped(c, s) && i < |c.pairs|
    requires OwedTo(c, s, i, a) && Serve(c, s, i) != a && Serve(c, s, i).Notify?
    ensures var t := Next(c, s, Serve(c, s, i)); OwedTo(c, t, i, a) && Work(c, t, i) < Work(c, s, i)
  {
    hide Next, ValidConfig, Shaped;
    Sizes(c, s);
    if a.Notify? { KindsOfDelivery(c, a.delivery, i); }
    NotifyTakes(c, s, Serve(c, s, i).delivery);
  }

  lemma NotifyTakes(c: Config, s: System, d: Delivery)
    requires ValidConfig(c) && Shaped(c, s)
    ensures var t := Next(c, s, Notify(d)); t.requests == s.requests && t.replies == s.replies - multiset{d}
  {
  }

  lemma {:induction false} RoundIsHonest(c: Config, s: System, n: nat)
    requires ValidConfig(c) && Shaped(c, s) && c.pairs != [] && HonestRequests(c, s.requests)
    ensures HonestRequests(c, Round(c, s, n).requests)
  {
    hide HonestRequests, Next, Serve;
    if n > 0 {
      RoundIsHonest(c, s, n - 1);
      ServeIsPossible(c, Round(c, s, n - 1), (n - 1) % |c.pairs|);
      NextRequestsHonest(c, Round(c, s, n - 1), Turn(c, s, n - 1));
    }
  }

  /** How many turns until server i's. */
  function Turns(n: nat, i: nat, servers: nat): nat
    requires i < servers
  {
    if n % servers <= i then i - n % servers else i + servers - n % servers
  }

  /** Whatever is owed to server i comes. */
  lemma {:induction false} TurnComes(c: Config, s: System, i: nat, n: nat, a: Action) returns (m: nat)
    requires ValidConfig(c) && Shaped(c, s) && i < |c.pairs| && HonestRequests(c, s.requests)
    requires OwedTo(c, Round(c, s, n), i, a)
    ensures m >= n && Turn(c, s, m) == a
    decreases Work(c, Round(c, s, n), i), Turns(n, i, |c.pairs|)
  {
    hide Next, Serve, OwedTo, Work, HonestRequests;
    m := n;
    if Turn(c, s, n) != a {
      RoundIsHonest(c, s, n);
      if n % |c.pairs| == i {
        ServeOwn(c, Round(c, s, n), i, a);
      } else {
        ServeOther(c, Round(c, s, n), i, n % |c.pairs|, a);
        NextRemainder(n, |c.pairs|);
      }
      m := TurnComes(c, s, i, n + 1, a);
    }
  }

  /** Nothing but its own announcement changes whom an entry is identified as. */
  lemma IdentifierKept(c: Config, s: System, a: Action, j: nat)
    requires ValidConfig(c) && Shaped(c, s) && HonestRequests(c, s.requests) && j < |c.pairs|
    requires Enabled(c, s, a) && Reliable(a)
    ensures Next(c, s, a).table[j].identifier
         == if a == Receive(Announcement(c, j)) then Some(c.sockets[j]) else s.table[j].identifier
  {
    hide HonestRequests, HandleReply;
    if a.Receive? && a.request.message.Announce? {
      AnnounceIsOwn(c, s, a.request);
      AnnounceFindsOwnEntry(c, s, j);
    }
  }

  /** Serving any server in turn keeps a ring locked. */
  lemma StaysLocked(c: Config, s: System, ring: set<nat>, i: nat)
    requires ValidConfig(c) && Shaped(c, s) && HonestRequests(c, s.requests) && i < |c.pairs|
    requires Locked(c, s, ring)
    ensures Locked(c, Next(c, s, Serve(c, s, i)), ring)
  {
    hide Next, HonestRequests, Curable, Serve, ClaimedIn;
    forall k | k in ring
      ensures k < |c.pairs| && !Curable(c, Next(c, s, Serve(c, s, i)), k)
      ensures ClaimedIn(c, Next(c, s, Serve(c, s, i)), k, ring)
    {
      MemberStaysLocked(c, s, ring, i, k);
    }
  }

  lemma MemberStaysLocked(c: Config, s: System, ring: set<nat>, i: nat, k: nat)
    requires ValidConfig(c) && Shaped(c, s) && HonestRequests(c, s.requests) && i < |c.pairs|
    requires Locked(c, s, ring) && k in ring
    ensures var t := Next(c, s, Serve(c, s, i)); !Curable(c, t, k) && ClaimedIn(c, t, k, ring)
  {
    hide Next, HonestRequests, Curable, Serve, Locked, ClaimantOf;
    var t := Next(c, s, Serve(c, s, i));
    var j := ClaimantOf(c, s, k, ring);
    InRing(c, s, ring, j);
    InRing(c, s, ring, k);
    assert Claims(c, t, j, k) by {
      ServeIsPossible(c, s, i);
      NotServed(c, s, i, j);
      IdentifierKept(c, s, Serve(c, s, i), j);
    }
    if i == k {
      StuckServed(c, s, k);
    } else {
      SameViewAfterOther(c, s, k, i);
      StuckOther(c, s, t, k, j);
    }
  }

  /** A stuck server has no announcement under way. */
  lemma NotServed(c: Config, s: System, i: nat, j: nat)
    requires ValidConfig(c) && Shaped(c, s) && i < |c.pairs| && j < |c.pairs| && !Curable(c, s, j)
    ensures Serve(c, s, i) != Receive(Announcement(c, j))
  {
    if i != j { assert c.sockets[i] != c.sockets[j]; }
  }

  lemma StuckServed(c: Config, s: System, k: nat)
    requires ValidConfig(c) && Shaped(c, s) && HonestRequests(c, s.requests) && k < |c.pairs| && !Curable(c, s, k)
    ensures !Curable(c, Next(c, s, Serve(c, s, k)), k)
  {
    hide Next, HonestRequests;
    assert Serve(c, s, k) == Unhelpful(c, s, k);
    UnhelpfulStep(c, s, k);
  }

  lemma StuckOther(c: Config, s: System, t: System, k: nat, j: nat)
    requires ValidConfig(c) && Shaped(c, s) && Shaped(c, t) && k < |c.pairs| && j < |c.pairs| && !Curable(c, s, k)
    requires SameTraffic(c, s, t, k) && t.daemons[k] == s.daemons[k] && (Identified(c, t, k) <==> Identified(c, s, k))
    requires Claims(c, t, j, k)
    ensures !Curable(c, t, k)
  {
  }

  lemma {:induction false} RoundIsLocked(c: Config, s: System, ring: set<nat>, n: nat)
    requires ValidConfig(c) && Shaped(c, s) && HonestRequests(c, s.requests) && c.pairs != [] && Locked(c, s, ring)
    ensures Locked(c, Round(c, s, n), ring)
  {
    hide Locked, Next, Serve, HonestRequests;
    if n > 0 {
      RoundIsLocked(c, s, ring, n - 1);
      RoundIsHonest(c, s, n - 1);
      StaysLocked(c, Round(c, s, n - 1), ring, (n - 1) % |c.pairs|);
    }
  }

  /** A run, fair to all, in which a ring stays locked for ever: the servers are served in turn. */
  lemma LockedRun(c: Config, s: System, ring: set<nat>) returns (states: nat -> System, actions: nat -> Action)
    requires ValidConfig(c) && Shaped(c, s) && HonestRequests(c, s.requests) && Locked(c, s, ring) && c.pairs != []
    ensures ReliableRun(c, states, actions) && FairToAll(c, states, actions) && states(0) == s
    ensures forall n: nat :: Shaped(c, states(n)) && Locked(c, states(n), ring)
  {
    hide Locked, Next, Serve, Enabled, OwedTo, FairFor, StepAt, Round, HonestRequests;
    states := (n: nat) => Round(c, s, n);
    actions := (n: nat) => Turn(c, s, n);
    forall n: nat ensures StepAt(c, states, actions, n) {
      RoundSteps(c, s, states, actions, n);
    }
    forall n: nat ensures Shaped(c, states(n)) && Locked(c, states(n), ring) {
      RoundIsLocked(c, s, ring, n);
    }
    forall i: nat | i < |c.pairs| ensures FairFor(c, states, actions, i) {
      forall n: nat, a | OwedTo(c, states(n), i, a) ensures HappensFrom(actions, a, n) {
        var m := TurnComes(c, s, i, n, a);
        assert actions(m) == a;
      }
      TakesTurns(c, states, actions, i);
    }
    FirstRound(c, s);
  }

  /** In it no member of the ring is ever settled. */
  lemma LockedNeverHeals(c: Config, s: System, ring: set<nat>, k: nat)
    requires ValidConfig(c) && Shaped(c, s) && HonestRequests(c, s.requests) && Locked(c, s, ring) && k in ring
    ensures k < |c.pairs| && !HealsWithAll(c, s, k)
  {
    hide Locked, FairToAll, ReliableRun, Stable, HonestRequests;
    InRing(c, s, ring, k);
    var states, actions := LockedRun(c, s, ring);
    forall n: nat ensures !SettledFrom(c, states, k, n) {
      InRing(c, states(n), ring, k);
      StuckIsUnsettled(c, states(n), k);
    }
  }

  lemma FirstRound(c: Config, s: System)
    requires ValidConfig(c) && Shaped(c, s) && c.pairs != []
    ensures Round(c, s, 0) == s
  {
  }

  lemma StuckIsUnsettled(c: Config, s: System, k: nat)
    requires ValidConfig(c) && Shaped(c, s) && k < |c.pairs| && !Curable(c, s, k)
    ensures !Stable(c, s, k)
  {
  }

  lemma RoundSteps(c: Config, s: System, states: nat -> System, actions: nat -> Action, n: nat)
    requires ValidConfig(c) && Shaped(c, s) && c.pairs != []
    requires states(n) == Round(c, s, n) && states(n + 1) == Round(c, s, n + 1) && actions(n) == Turn(c, s, n)
    ensures StepAt(c, states, actions, n)
  {
    hide Next, Serve, Enabled;
    ServeIsPossible(c, Round(c, s, n), n % |c.pairs|);
  }

  lemma TakesTurns(c: Config, states: nat -> System, actions: nat -> Action, i: nat)
    requires ValidConfig(c) && i < |c.pairs|
    requires forall n: nat, a :: OwedTo(c, states(n), i, a) ==> HappensFrom(actions, a, n)
    ensures FairFor(c, states, actions, i)
  {
    hide HappensFrom;
    forall n: nat ensures HappensFrom(actions, Tick(i), n) {
      assert OwedTo(c, states(n), i, Tick(i));
    }
    forall n: nat | OkRequest(c, i) in states(n).requests ensures HappensFrom(actions, Receive(OkRequest(c, i)), n) {
      assert OwedTo(c, states(n), i, Receive(OkRequest(c, i)));
    }
    forall n: nat | Announcement(c, i) in states(n).requests
      ensures HappensFrom(actions, Receive(Announcement(c, i)), n)
    {
      assert OwedTo(c, states(n), i, Receive(Announcement(c, i)));
    }
    forall n: nat, d | d in states(n).replies && d.to == c.sockets[i] ensures HappensFrom(actions, Notify(d), n) {
      assert OwedTo(c, states(n), i, Notify(d));
    }
  }

  // ----- a run that does not settle a server has a locked ring -----

  /** From any point of a fair run at which server k is curable it is settled in the end. */
  lemma SettlesOnceCurable(c: Config, states: nat -> System, actions: nat -> Action, k: nat, n: nat) returns (m: nat)
    requires ValidConfig(c) && k < |c.pairs| && ReliableRun(c, states, actions) && FairFor(c, states, actions, k)
    requires Shaped(c, states(n)) && OnCourse(c, states(n), k)
    ensures SettledFrom(c, states, k, m)
  {
    hide OnCourse, SettledFrom, ReliableRun, FairFor;
    var later := (i: nat) => states(n + i);
    var acts := (i: nat) => actions(n + i);
    LaterIsRun(c, states, actions, later, acts, n);
    LaterIsFair(c, states, actions, later, acts, k, n);
    SelfStabilisation(c, later, acts, k);
    var i: nat :| SettledFrom(c, later, k, i);
    m := n + i;
    LaterSettled(c, states, later, k, n, i);
  }

  lemma LaterIsRun(c: Config, states: nat -> System, actions: nat -> Action,
                   later: nat -> System, acts: nat -> Action, n: nat)
    requires ValidConfig(c) && ReliableRun(c, states, actions)
    requires forall i: nat :: later(i) == states(n + i) && acts(i) == actions(n + i)
    ensures ReliableRun(c, later, acts)
  {
    hide StepAt;
    forall i: nat ensures StepAt(c, later, acts, i) {
      assert StepAt(c, states, actions, n + i);
      LaterStep(c, states, actions, later, acts, n, i);
    }
  }

  lemma LaterStep(c: Config, states: nat -> System, actions: nat -> Action,
                  later: nat -> System, acts: nat -> Action, n: nat, i: nat)
    requires ValidConfig(c) && StepAt(c, states, actions, n + i)
    requires later(i) == states(n + i) && later(i + 1) == states(n + i + 1) && acts(i) == actions(n + i)
    ensures StepAt(c, later, acts, i)
  {
    hide Next, Enabled;
  }

  lemma LaterHappens(actions: nat -> Action, acts: nat -> Action, n: nat, i: nat, a: Action)
    requires forall i: nat :: acts(i) == actions(n + i)
    requires HappensFrom(actions, a, n + i)
    ensures HappensFrom(acts, a, i)
  {
    var m: nat :| m >= n + i && actions(m) == a;
    assert acts(m - n) == a;
  }

  lemma LaterIsFair(c: Config, states: nat -> System, actions: nat -> Action,
                    later: nat -> System, acts: nat -> Action, k: nat, n: nat)
    requires ValidConfig(c) && k < |c.pairs| && FairFor(c, states, actions, k)
    requires forall i: nat :: later(i) == states(n + i) && acts(i) == actions(n + i)
    ensures FairFor(c, later, acts, k)
  {
    hide HappensFrom;
    forall i: nat, a | HappensFrom(actions, a, n + i) ensures HappensFrom(acts, a, i) {
      LaterHappens(actions, acts, n, i, a);
    }
    forall i: nat ensures HappensFrom(acts, Tick(k), i) {
      assert HappensFrom(actions, Tick(k), n + i);
    }
  }

  lemma LaterSettled(c: Config, states: nat -> System, later: nat -> System, k: nat, n: nat, i: nat)
    requires ValidConfig(c) && k < |c.pairs| && SettledFrom(c, later, k, i)
    requires forall i: nat :: later(i) == states(n + i)
    ensures SettledFrom(c, states, k, n + i)
  {
    hide Stable;
    forall m: nat | m >= n + i ensures Shaped(c, states(m)) && Stable(c, states(m), k) {
      assert later(m - n) == states(m);
    }
  }

  /** Server i is stuck at every point of the run. */
  ghost predicate AlwaysStuck(c: Config, states: nat -> System, i: nat)
    requires ValidConfig(c) && i < |c.pairs|
  {
    forall n: nat :: Shaped(c, states(n)) && !Curable(c, states(n), i)
  }

  lemma {:induction false} RunKeepsShape(c: Config, states: nat -> System, actions: nat -> Action, n: nat)
    requires ValidConfig(c) && ReliableRun(c, states, actions)
    requires Shaped(c, states(0)) && HonestRequests(c, states(0).requests)
    ensures Shaped(c, states(n)) && HonestRequests(c, states(n).requests)
  {
    hide Next, HonestRequests, Enabled;
    if n > 0 {
      RunKeepsShape(c, states, actions, n - 1);
      assert StepAt(c, states, actions, n - 1);
      NextRequestsHonest(c, states(n - 1), actions(n - 1));
    }
  }

  /** An entry keeps its identifier until its own server announces itself. */
  lemma {:induction false} IdentifierHistory(c: Config, states: nat -> System, actions: nat -> Action, j: nat, n: nat)
    requires ValidConfig(c) && ReliableRun(c, states, actions) && j < |c.pairs|
    requires Shaped(c, states(0)) && HonestRequests(c, states(0).requests)
    ensures Shaped(c, states(n))
    ensures states(n).table[j].identifier == states(0).table[j].identifier || Identified(c, states(n), j)
  {
    hide Next, HonestRequests, Enabled;
    RunKeepsShape(c, states, actions, n);
    if n > 0 {
      IdentifierHistory(c, states, actions, j, n - 1);
      RunKeepsShape(c, states, actions, n - 1);
      assert StepAt(c, states, actions, n - 1);
      IdentifierKept(c, states(n - 1), actions(n - 1), j);
    }
  }

  /** One point from which all of the first `m` servers that are not always stuck are settled. */
  lemma {:induction false} SettledTogether(c: Config, states: nat -> System, actions: nat -> Action, m: nat)
    returns (n: nat)
    requires ValidConfig(c) && ReliableRun(c, states, actions) && FairToAll(c, states, actions) && m <= |c.pairs|
    requires Shaped(c, states(0)) && HonestRequests(c, states(0).requests)
    ensures forall j: nat :: j < m && !AlwaysStuck(c, states, j) ==> SettledFrom(c, states, j, n)
  {
    hide AlwaysStuck, SettledFrom, FairFor, ReliableRun, HonestRequests;
    n := 0;
    if m > 0 {
      n := SettledTogether(c, states, actions, m - 1);
      if !AlwaysStuck(c, states, m - 1) {
        var at := CuredAt(c, states, actions, m - 1);
        var settled := SettlesOnceCurable(c, states, actions, m - 1, at);
        var before := n;
        n := if before <= settled then settled else before;
        SettledLater(c, states, m - 1, settled, n);
        forall j: nat | j < m - 1 && !AlwaysStuck(c, states, j) ensures SettledFrom(c, states, j, n) {
          SettledLater(c, states, j, before, n);
        }
      }
    }
  }

  lemma CuredAt(c: Config, states: nat -> System, actions: nat -> Action, j: nat) returns (n: nat)
    requires ValidConfig(c) && ReliableRun(c, states, actions) && j < |c.pairs| && !AlwaysStuck(c, states, j)
    requires Shaped(c, states(0)) && HonestRequests(c, states(0).requests)
    ensures Shaped(c, states(n)) && OnCourse(c, states(n), j)
  {
    hide Curable, ReliableRun, HonestRequests;
    n :| !(Shaped(c, states(n)) && !Curable(c, states(n), j));
    RunKeepsShape(c, states, actions, n);
  }

  lemma SettledLater(c: Config, states: nat -> System, j: nat, n: nat, m: nat)
    requires ValidConfig(c) && j < |c.pairs| && SettledFrom(c, states, j, n) && n <= m
    ensures SettledFrom(c, states, j, m)
  {
    hide Stable;
  }

  /** The servers that are always stuck in a fair run form a locked ring at its start. */
  lemma StuckAreLocked(c: Config, states: nat -> System, actions: nat -> Action) returns (ring: set<nat>)
    requires ValidConfig(c) && ReliableRun(c, states, actions) && FairToAll(c, states, actions)
    requires Shaped(c, states(0)) && HonestRequests(c, states(0).requests)
    ensures Locked(c, states(0), ring)
    ensures forall k: nat :: k < |c.pairs| && AlwaysStuck(c, states, k) ==> k in ring
  {
    hide AlwaysStuck, Curable, ReliableRun, FairToAll, HonestRequests, SettledFrom;
    var n := SettledTogether(c, states, actions, |c.pairs|);
    ring := set k: nat | k < |c.pairs| && AlwaysStuck(c, states, k);
    forall k | k in ring ensures k < |c.pairs| && !Curable(c, states(0), k) && ClaimedIn(c, states(0), k, ring) {
      StuckAt(c, states, k, 0);
      StuckAt(c, states, k, n);
      var j := ClaimantAt(c, states(n), k);
      IdentifierHistory(c, states, actions, j, n);
      assert c.sockets[j] != c.sockets[k];
      if !AlwaysStuck(c, states, j) { SettledIsIdentified(c, states, j, n); }
      assert j in ring && Claims(c, states(0), j, k);
    }
  }

  lemma StuckAt(c: Config, states: nat -> System, k: nat, n: nat)
    requires ValidConfig(c) && k < |c.pairs| && AlwaysStuck(c, states, k)
    ensures Shaped(c, states(n)) && !Curable(c, states(n), k)
  {
  }

  lemma ClaimantAt(c: Config, s: System, k: nat) returns (j: nat)
    requires ValidConfig(c) && Shaped(c, s) && k < |c.pairs| && !Curable(c, s, k)
    ensures j < |c.pairs| && Claims(c, s, j, k)
  {
    assert !Unclaimed(c, s, k);
    j :| 0 <= j < |c.pairs| && j != k && s.table[j].identifier == Some(c.sockets[k]);
  }

  lemma SettledIsIdentified(c: Config, states: nat -> System, j: nat, n: nat)
    requires ValidConfig(c) && j < |c.pairs| && SettledFrom(c, states, j, n)
    ensures Shaped(c, states(n)) && Identified(c, states(n), j)
  {
  }

  /**
   Exactly the servers outside every locked ring recover: as long as announcements come from their
   own sockets, every run that is fair to all servers settles server k if and only if k is in no set of
   stuck servers that claim each other's sockets around.
   */
  lemma HealsWithAllExactly(c: Config, s: System, k: nat)
    requires ValidConfig(c) && Shaped(c, s) && k < |c.pairs| && HonestRequests(c, s.requests)
    ensures HealsWithAll(c, s, k) <==> !exists ring: set<nat> :: k in ring && Locked(c, s, ring)
  {
    hide Locked, FairToAll, ReliableRun, SettledFrom, HonestRequests;
    if ring: set<nat> :| k in ring && Locked(c, s, ring) {
      LockedNeverHeals(c, s, ring, k);
    } else {
      forall states: nat -> System, actions: nat -> Action |
        ReliableRun(c, states, actions) && FairToAll(c, states, actions) && states(0) == s
        ensures exists n: nat :: SettledFrom(c, states, k, n)
      {
        OutsideSettles(c, states, actions, k);
      }
    }
  }

  lemma OutsideSettles(c: Config, states: nat -> System, actions: nat -> Action, k: nat)
    requires ValidConfig(c) && k < |c.pairs| && ReliableRun(c, states, actions) && FairToAll(c, states, actions)
    requires Shaped(c, states(0)) && HonestRequests(c, states(0).requests)
    requires !exists ring: set<nat> :: k in ring && Locked(c, states(0), ring)
    ensures exists n: nat :: SettledFrom(c, states, k, n)
  {
    hide AlwaysStuck, Locked, FairFor, ReliableRun, SettledFrom, HonestRequests;
    var ring := StuckAreLocked(c, states, actions);
    var at := CuredAt(c, states, actions, k);
    var n := SettlesOnceCurable(c, states, actions, k, at);
  }

  /** Two servers known under each other's socket, both sending OK, are such a ring. */
  lemma SwappedIsLocked(c: Config, s: System)
    requires ValidConfig(c) && Shaped(c, s) && Swapped(c, s)
    ensures Locked(c, s, {0, 1})
  {
    assert c.sockets[0] in c.sockets && c.sockets[1] in c.sockets && c.sockets[0] != c.sockets[1];
    assert c.pairs[0] in c.pairs && c.pairs[1] in c.pairs;
    assert Claims(c, s, 1, 0) && Claims(c, s, 0, 1);
    var ring: set<nat> := {0, 1};
    assert ClaimedIn(c, s, 0, ring) && ClaimedIn(c, s, 1, ring);
  }
}
