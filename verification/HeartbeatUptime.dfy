/**
 Who is kept up: in which runs and from which states a server's OKs go on refreshing its own entry.
 An OK refreshes the first entry that its socket identifies, so another entry may take it away.
 */
module HeartbeatUptime {
  import opened Options
  import opened HeartbeatProxy
  import opened HeartbeatProtocol
  import opened HeartbeatLiveness
  import opened HeartbeatRecovery

  /** No entry in front of k's own is identified by k's socket. */
  ghost predicate NoEarlierClaim(c: Config, s: System, k: nat)
    requires ValidConfig(c) && Shaped(c, s) && k < |c.pairs|
  {
    forall i :: 0 <= i < k ==> s.table[i].identifier != Some(c.sockets[k])
  }

  /** Step m of the run hands an OK of server k to server k's own entry. */
  ghost predicate RefreshedAt(c: Config, states: nat -> System, actions: nat -> Action, k: nat, m: nat)
    requires k < |c.sockets|
  {
    actions(m) == Receive(OkRequest(c, k)) && FindIdentifier(states(m).table, c.sockets[k]) == k
  }

  ghost predicate RefreshedFrom(c: Config, states: nat -> System, actions: nat -> Action, k: nat, n: nat)
    requires k < |c.sockets|
  {
    exists m: nat :: m >= n && RefreshedAt(c, states, actions, k, m)
  }

  /** That happens again and again. */
  ghost predicate KeptFresh(c: Config, states: nat -> System, actions: nat -> Action, k: nat)
    requires k < |c.sockets|
  {
    forall n: nat :: RefreshedFrom(c, states, actions, k, n)
  }

  lemma OkIsOwn(c: Config, s: System, k: nat)
    requires ValidConfig(c) && Shaped(c, s) && k < |c.pairs|
    ensures FindIdentifier(s.table, c.sockets[k]) == k <==> Identified(c, s, k) && NoEarlierClaim(c, s, k)
  {
    if Identified(c, s, k) && NoEarlierClaim(c, s, k) { FindIdentifierIs(s.table, c.sockets[k], k); }
  }

  /** A server that is kept fresh is up after every point of the run, with a heartbeat of that moment. */
  lemma FreshIsUp(c: Config, states: nat -> System, actions: nat -> Action, k: nat, n: nat)
    requires ValidConfig(c) && k < |c.pairs| && ReliableRun(c, states, actions) && KeptFresh(c, states, actions, k)
    ensures exists m: nat ::
              m > n && Shaped(c, states(m)) && states(m).table[k].isUp
              && states(m).table[k].lastHeartbeat == Some(states(m).clock)
  {
    assert RefreshedFrom(c, states, actions, k, n);
    var m: nat :| m >= n && RefreshedAt(c, states, actions, k, m);
    assert StepAt(c, states, actions, m);
    assert states(m + 1).table[k] == Beat(states(m).table[k], states(m).clock);
  }

  lemma NeverFresh(c: Config, states: nat -> System, actions: nat -> Action, k: nat)
    requires k < |c.sockets| && forall m: nat :: !RefreshedAt(c, states, actions, k, m)
    ensures !KeptFresh(c, states, actions, k)
  {
    hide RefreshedAt;
    assert !RefreshedFrom(c, states, actions, k, 0);
  }

  // ----- within one run -----

  /** A claim in front of k's entry goes when its owner announces itself, and none is made. */
  lemma {:induction false} ClaimsFade(c: Config, states: nat -> System, actions: nat -> Action, k: nat, n: nat, m: nat)
    requires ValidConfig(c) && k < |c.pairs| && ReliableRun(c, states, actions) && n <= m
    requires Shaped(c, states(0)) && HonestRequests(c, states(0).requests)
    requires Shaped(c, states(n)) && NoEarlierClaim(c, states(n), k)
    ensures Shaped(c, states(m)) && NoEarlierClaim(c, states(m), k)
    decreases m - n
  {
    hide Next, HonestRequests, Enabled;
    if n < m {
      assert StepAt(c, states, actions, n) && StepAt(c, states, actions, n + 1);
      RunKeepsShape(c, states, actions, n);
      var t := states(n + 1);
      forall i | 0 <= i < k ensures t.table[i].identifier != Some(c.sockets[k]) {
        IdentifierKept(c, states(n), actions(n), i);
        assert c.sockets[i] != c.sockets[k];
      }
      ClaimsFade(c, states, actions, k, n + 1, m);
    }
  }

  /**
   A settled server is kept fresh, and so up after every point, exactly if the claims in front of its
   entry are gone at some point, in either variant.
   */
  lemma SettledServerComesUp(c: Config, states: nat -> System, actions: nat -> Action, k: nat, n: nat)
    requires ValidConfig(c) && k < |c.pairs| && ReliableRun(c, states, actions) && FairFor(c, states, actions, k)
    requires Shaped(c, states(0)) && HonestRequests(c, states(0).requests) && SettledFrom(c, states, k, n)
    ensures KeptFresh(c, states, actions, k)
       <==> exists m: nat :: m >= n && Shaped(c, states(m)) && NoEarlierClaim(c, states(m), k)
  {
    hide ReliableRun, FairFor, NoEarlierClaim, HonestRequests, Stable;
    if KeptFresh(c, states, actions, k) {
      assert RefreshedFrom(c, states, actions, k, n);
      var m: nat :| m >= n && RefreshedAt(c, states, actions, k, m);
      assert Shaped(c, states(m));
      OkIsOwn(c, states(m), k);
    }
    if m: nat :| m >= n && Shaped(c, states(m)) && NoEarlierClaim(c, states(m), k) {
      forall i: nat ensures RefreshedFrom(c, states, actions, k, i) {
        var j := NextRefresh(c, states, actions, k, n, m, if i >= m then i else m);
      }
    }
  }

  /** The next OK of a server that is settled from `n` and that no earlier entry claims from `m`. */
  lemma NextRefresh(c: Config, states: nat -> System, actions: nat -> Action, k: nat, n: nat, m: nat, i: nat)
    returns (j: nat)
    requires ValidConfig(c) && k < |c.pairs| && ReliableRun(c, states, actions) && FairFor(c, states, actions, k)
    requires Shaped(c, states(0)) && HonestRequests(c, states(0).requests) && SettledFrom(c, states, k, n)
    requires n <= m <= i && Shaped(c, states(m)) && NoEarlierClaim(c, states(m), k)
    ensures j >= i && RefreshedAt(c, states, actions, k, j)
  {
    hide Enabled, HonestRequests, NoEarlierClaim;
    assert HappensFrom(actions, Tick(k), i);
    var t: nat :| t >= i && actions(t) == Tick(k);
    assert StepAt(c, states, actions, t) && Stable(c, states(t), k);
    assert OkRequest(c, k) in states(t + 1).requests;
    assert HappensFrom(actions, Receive(OkRequest(c, k)), t + 1);
    j :| j >= t + 1 && actions(j) == Receive(OkRequest(c, k));
    assert StepAt(c, states, actions, j) && Stable(c, states(j), k);
    ClaimsFade(c, states, actions, k, m, j);
    OkIsOwn(c, states(j), k);
  }

  // ----- over all runs fair to the server -----

  /** Every run from `s` that is fair to server k, without loss and repetition, keeps it fresh. */
  ghost predicate StaysFresh(c: Config, s: System, k: nat)
    requires ValidConfig(c) && k < |c.pairs|
  {
    forall states: nat -> System, actions: nat -> Action ::
      ReliableRun(c, states, actions) && FairFor(c, states, actions, k) && states(0) == s ==>
        KeptFresh(c, states, actions, k)
  }

  /** Server k is served again and again, and nobody else. */
  ghost function Alone(c: Config, s: System, k: nat, n: nat): (t: System)
    requires ValidConfig(c) && Shaped(c, s) && k < |c.pairs|
    ensures Shaped(c, t)
  {
    if n == 0 then s else Next(c, Alone(c, s, k, n - 1), Serve(c, Alone(c, s, k, n - 1), k))
  }

  /** What keeps k's OKs from its entry while everybody else is silent. */
  ghost predicate Robbed(c: Config, s: System, k: nat)
    requires ValidConfig(c) && Shaped(c, s) && k < |c.pairs|
  {
    HonestRequests(c, s.requests) && (!Curable(c, s, k) || !NoEarlierClaim(c, s, k))
  }

  lemma StaysRobbed(c: Config, s: System, k: nat)
    requires ValidConfig(c) && Shaped(c, s) && k < |c.pairs| && Robbed(c, s, k)
    ensures Robbed(c, Next(c, s, Serve(c, s, k)), k)
  {
    hide Next, HonestRequests, Curable, Serve;
    ServeIsPossible(c, s, k);
    NextRequestsHonest(c, s, Serve(c, s, k));
    if !Curable(c, s, k) {
      StuckServed(c, s, k);
    } else {
      var i :| 0 <= i < k && s.table[i].identifier == Some(c.sockets[k]);
      IdentifierKept(c, s, Serve(c, s, k), i);
      ServesOwn(c, s, k, i);
    }
  }

  lemma ServesOwn(c: Config, s: System, k: nat, i: nat)
    requires ValidConfig(c) && Shaped(c, s) && i < k < |c.pairs|
    ensures Serve(c, s, k) != Receive(Announcement(c, i))
  {
    assert c.sockets[i] != c.sockets[k];
  }

  lemma RobbedIsNotRefreshed(c: Config, s: System, k: nat)
    requires ValidConfig(c) && Shaped(c, s) && k < |c.pairs| && Robbed(c, s, k)
    ensures FindIdentifier(s.table, c.sockets[k]) != k
  {
    hide HonestRequests;
    OkIsOwn(c, s, k);
  }

  lemma {:induction false} AloneIsRobbed(c: Config, s: System, k: nat, n: nat)
    requires ValidConfig(c) && Shaped(c, s) && k < |c.pairs| && Robbed(c, s, k)
    ensures Robbed(c, Alone(c, s, k, n), k)
  {
    hide Robbed, Next, Serve;
    if n > 0 {
      AloneIsRobbed(c, s, k, n - 1);
      StaysRobbed(c, Alone(c, s, k, n - 1), k);
    }
  }

  /** Whatever is owed to server k comes. */
  lemma {:induction false} AloneComes(c: Config, s: System, k: nat, n: nat, a: Action) returns (m: nat)
    requires ValidConfig(c) && Shaped(c, s) && k < |c.pairs| && Robbed(c, s, k)
    requires OwedTo(c, Alone(c, s, k, n), k, a)
    ensures m >= n && Serve(c, Alone(c, s, k, m), k) == a
    decreases Work(c, Alone(c, s, k, n), k)
  {
    hide Next, Serve, OwedTo, Work, HonestRequests, Curable;
    m := n;
    if Serve(c, Alone(c, s, k, n), k) != a {
      AloneIsRobbed(c, s, k, n);
      ServeOwn(c, Alone(c, s, k, n), k, a);
      m := AloneComes(c, s, k, n + 1, a);
    }
  }

  lemma AloneSteps(c: Config, s: System, k: nat, states: nat -> System, actions: nat -> Action, n: nat)
    requires ValidConfig(c) && Shaped(c, s) && k < |c.pairs|
    requires states(n) == Alone(c, s, k, n) && states(n + 1) == Alone(c, s, k, n + 1)
    requires actions(n) == Serve(c, Alone(c, s, k, n), k)
    ensures StepAt(c, states, actions, n)
  {
    hide Next, Serve, Enabled;
    ServeIsPossible(c, Alone(c, s, k, n), k);
  }

  /** A robbed server has a run, fair to it, in which none of its OKs reaches its entry. */
  lemma RobbedRun(c: Config, s: System, k: nat)
    requires ValidConfig(c) && Shaped(c, s) && k < |c.pairs| && Robbed(c, s, k)
    ensures !StaysFresh(c, s, k)
  {
    hide Robbed, Next, Serve, Enabled, OwedTo, FairFor, StepAt;
    var states := (n: nat) => Alone(c, s, k, n);
    var actions := (n: nat) => Serve(c, Alone(c, s, k, n), k);
    forall n: nat ensures StepAt(c, states, actions, n) {
      AloneSteps(c, s, k, states, actions, n);
    }
    forall n: nat ensures !RefreshedAt(c, states, actions, k, n) {
      AloneIsRobbed(c, s, k, n);
      RobbedIsNotRefreshed(c, states(n), k);
    }
    forall n: nat, a | OwedTo(c, states(n), k, a) ensures HappensFrom(actions, a, n) {
      var m := AloneComes(c, s, k, n, a);
      assert actions(m) == a;
    }
    TakesTurns(c, states, actions, k);
    assert states(0) == s;
    NeverFresh(c, states, actions, k);
    assert ReliableRun(c, states, actions);
  }

  /**
   Exactly the curable states without a claim in front of k's entry keep it fresh: as long as
   announcements come from their own sockets, in every run that is fair to server k, all others being
   free to stay silent.
   */
  lemma StaysFreshExactly(c: Config, s: System, k: nat)
    requires ValidConfig(c) && Shaped(c, s) && k < |c.pairs| && HonestRequests(c, s.requests)
    ensures StaysFresh(c, s, k) <==> Curable(c, s, k) && NoEarlierClaim(c, s, k)
  {
    hide Curable, NoEarlierClaim, FairFor, ReliableRun, SettledFrom, KeptFresh, HonestRequests;
    if Curable(c, s, k) && NoEarlierClaim(c, s, k) {
      forall states: nat -> System, actions: nat -> Action |
        ReliableRun(c, states, actions) && FairFor(c, states, actions, k) && states(0) == s
        ensures KeptFresh(c, states, actions, k)
      {
        SelfStabilisation(c, states, actions, k);
        var n: nat :| SettledFrom(c, states, k, n);
        ClaimsFade(c, states, actions, k, 0, n);
        SettledServerComesUp(c, states, actions, k, n);
      }
    } else {
      RobbedRun(c, s, k);
    }
  }

  // ----- a settled server that never comes up -----

  const CLAIMED: Config := Config(Ld, [Pair(1, 2), Pair(3, 4)], [10, 20])

  /** Entry 0 took over the socket of server 1, and its own server is silent. */
  function ClaimedState(requests: multiset<Request>): System {
    System([Server(Pair(1, 2), Some(20), Some(0), true), Server(Pair(3, 4), Some(20), None, false)],
           [true, true], requests, multiset{}, 0, 0)
  }

  /** An OK of server 1 goes out and comes in, and nothing has changed. */
  lemma ClaimedTurn()
    ensures var idle, busy := ClaimedState(multiset{}), ClaimedState(multiset{OkRequest(CLAIMED, 1)});
            && Next(CLAIMED, idle, Tick(1)) == busy
            && Next(CLAIMED, busy, Receive(OkRequest(CLAIMED, 1))) == idle
  {
    var busy := ClaimedState(multiset{OkRequest(CLAIMED, 1)});
    FindIdentifierIs(busy.table, 20, 0);
    assert busy.requests - multiset{OkRequest(CLAIMED, 1)} == multiset{};
  }

  lemma ClaimedShape()
    ensures ValidConfig(CLAIMED) && |CLAIMED.pairs| == 2
    ensures forall requests :: Shaped(CLAIMED, ClaimedState(requests)) && Stable(CLAIMED, ClaimedState(requests), 1)
    ensures HonestRequests(CLAIMED, multiset{})
  {
  }

  /** In Ld, server 1 is settled and its OKs all refresh entry 0: a run fair to it in which it is never up. */
  lemma ClaimedServerStaysDown() returns (states: nat -> System, actions: nat -> Action)
    ensures ValidConfig(CLAIMED) && |CLAIMED.pairs| == 2
    ensures ReliableRun(CLAIMED, states, actions) && FairFor(CLAIMED, states, actions, 1)
    ensures Shaped(CLAIMED, states(0)) && HonestRequests(CLAIMED, states(0).requests)
    ensures SettledFrom(CLAIMED, states, 1, 0) && forall n: nat :: |states(n).table| == 2 && !states(n).table[1].isUp
  {
    hide Next, ValidConfig, Shaped, HonestRequests, Stable;
    ClaimedShape();
    ClaimedTurn();
    states := (n: nat) => ClaimedState(if n % 2 == 0 then multiset{} else multiset{OkRequest(CLAIMED, 1)});
    actions := (n: nat) => if n % 2 == 0 then Tick(1) else Receive(OkRequest(CLAIMED, 1));
    forall n: nat ensures HappensFrom(actions, Tick(1), n) && HappensFrom(actions, Receive(OkRequest(CLAIMED, 1)), n) {
      var m := 2 * n;
      assert actions(m) == Tick(1) && actions(m + 1) == Receive(OkRequest(CLAIMED, 1));
    }
    assert ReliableRun(CLAIMED, states, actions) by {
      forall n: nat ensures StepAt(CLAIMED, states, actions, n) {
        assert (n + 1) % 2 == if n % 2 == 0 then 1 else 0;
      }
    }
  }

  // ----- over all runs fair to every server -----

  ghost predicate StaysFreshWithAll(c: Config, s: System, k: nat)
    requires ValidConfig(c) && k < |c.pairs|
  {
    forall states: nat -> System, actions: nat -> Action ::
      ReliableRun(c, states, actions) && FairToAll(c, states, actions) && states(0) == s ==>
        KeptFresh(c, states, actions, k)
  }

  /** When all daemons keep sending, a server in no locked ring loses every claim on its socket. */
  lemma OutsideStaysFresh(c: Config, states: nat -> System, actions: nat -> Action, k: nat)
    requires ValidConfig(c) && k < |c.pairs| && ReliableRun(c, states, actions) && FairToAll(c, states, actions)
    requires Shaped(c, states(0)) && HonestRequests(c, states(0).requests)
    requires !exists ring: set<nat> :: k in ring && Locked(c, states(0), ring)
    ensures KeptFresh(c, states, actions, k)
  {
    hide AlwaysStuck, Locked, FairFor, ReliableRun, SettledFrom, HonestRequests, KeptFresh, Claims;
    var ring := StuckAreLocked(c, states, actions);
    var n := SettledTogether(c, states, actions, |c.pairs|);
    SettledIsIdentified(c, states, k, n);
    forall i | 0 <= i < k ensures states(n).table[i].identifier != Some(c.sockets[k]) {
      if states(n).table[i].identifier == Some(c.sockets[k]) {
        OldClaim(c, states, actions, i, k, n);
        if !AlwaysStuck(c, states, i) { SettledIsIdentified(c, states, i, n); }
        RingIsCyclic(c, states(0), ring, i);
        var j :| j in ring && j < |c.pairs| && Claims(c, states(0), i, j);
        if j != k { OneClaim(c, states(0), i, j, k); }
        assert false;
      }
    }
    SettledServerComesUp(c, states, actions, k, n);
  }

  /** A claim that stands was there from the start, and its owner is not identified. */
  lemma OldClaim(c: Config, states: nat -> System, actions: nat -> Action, i: nat, k: nat, n: nat)
    requires ValidConfig(c) && i < |c.pairs| && k < |c.pairs| && i != k && ReliableRun(c, states, actions)
    requires Shaped(c, states(0)) && HonestRequests(c, states(0).requests)
    requires Shaped(c, states(n)) && states(n).table[i].identifier == Some(c.sockets[k])
    ensures Claims(c, states(0), i, k) && !Identified(c, states(n), i)
  {
    hide HonestRequests, ReliableRun;
    IdentifierHistory(c, states, actions, i, n);
    assert c.sockets[i] != c.sockets[k];
  }

  /**
   When all daemons keep sending, exactly the servers outside every locked ring are kept fresh: each is
   up after every point of every such run.
   */
  lemma StaysFreshWithAllExactly(c: Config, s: System, k: nat)
    requires ValidConfig(c) && Shaped(c, s) && k < |c.pairs| && HonestRequests(c, s.requests)
    ensures StaysFreshWithAll(c, s, k) <==> !exists ring: set<nat> :: k in ring && Locked(c, s, ring)
  {
    hide Locked, FairToAll, ReliableRun, HonestRequests, KeptFresh;
    if ring: set<nat> :| k in ring && Locked(c, s, ring) {
      var states, actions := LockedRun(c, s, ring);
      forall n: nat ensures !RefreshedAt(c, states, actions, k, n) {
        InRing(c, states(n), ring, k);
        StuckIsNotRefreshed(c, states(n), k);
      }
      NeverFresh(c, states, actions, k);
    } else {
      forall states: nat -> System, actions: nat -> Action |
        ReliableRun(c, states, actions) && FairToAll(c, states, actions) && states(0) == s
        ensures KeptFresh(c, states, actions, k)
      {
        OutsideStaysFresh(c, states, actions, k);
      }
    }
  }

  lemma StuckIsNotRefreshed(c: Config, s: System, k: nat)
    requires ValidConfig(c) && Shaped(c, s) && k < |c.pairs| && !Curable(c, s, k)
    ensures FindIdentifier(s.table, c.sockets[k]) != k
  {
    OkIsOwn(c, s, k);
  }
}
