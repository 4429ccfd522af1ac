/**
 Self-stabilisation: once datagrams are neither lost nor repeated, every fair run identifies the
 server and keeps it sending OK, from exactly the states in which nothing can mislead it for good.
 */
module HeartbeatLiveness {
  import opened Options
  import opened HeartbeatProxy
  import opened HeartbeatProtocol

  // ----- one server's view of the system -----

  /** No other entry is identified by k's socket. */
  ghost predicate Unclaimed(c: Config, s: System, k: nat)
    requires ValidConfig(c) && Shaped(c, s) && k < |c.pairs|
  {
    forall i :: 0 <= i < |c.pairs| && i != k ==> s.table[i].identifier != Some(c.sockets[k])
  }

  ghost predicate Honest(c: Config, s: System, k: nat)
    requires ValidConfig(c) && Shaped(c, s) && k < |c.pairs|
  {
    HonestRequests(c, s.requests) && Unclaimed(c, s, k)
  }

  /**
   An entry that claims k's socket takes its OKs and keeps it from ever being told to announce
   itself, unless it is bound to do so anyway: it is identified already, its announcement is under
   way, or it is or will be in the announcing state and no stale OK reply can take it out again.
   */
  ghost predicate Curable(c: Config, s: System, k: nat)
    requires ValidConfig(c) && Shaped(c, s) && k < |c.pairs|
  {
    Identified(c, s, k) || Unclaimed(c, s, k) || Announcement(c, k) in s.requests
    || (OkDelivery(c, k) !in s.replies && (!s.daemons[k] || AuthDelivery(c, k) in s.replies))
  }

  /** Curable, with announcements under way only from their own sockets. */
  ghost predicate OnCourse(c: Config, s: System, k: nat)
    requires ValidConfig(c) && Shaped(c, s) && k < |c.pairs|
  {
    HonestRequests(c, s.requests) && Curable(c, s, k)
  }

  /** Nothing is lost or repeated, and neither side restarts. */
  predicate Reliable(a: Action) {
    a.Tick? || a.Receive? || a.Notify? || a.SweepTable? || a.Wait? || a.Stranger?
  }

  /** Identified, sending OK, and no AUTH under way that could undo it. */
  ghost predicate Stable(c: Config, s: System, k: nat)
    requires ValidConfig(c) && Shaped(c, s) && k < |c.pairs|
  {
    Identified(c, s, k) && s.daemons[k] && AuthDelivery(c, k) !in s.replies
  }

  /** What the next useful event for server k is. */
  datatype Phase = Announced | MustAnnounce | AuthUnderWay | OkUnderWay | MustSendOk | ConfirmUnderWay | Done

  ghost function PhaseOf(c: Config, s: System, k: nat): Phase
    requires ValidConfig(c) && Shaped(c, s) && k < |c.pairs|
  {
    if !Identified(c, s, k) then
      if Announcement(c, k) in s.requests then Announced
      else if !s.daemons[k] then MustAnnounce
      else if AuthDelivery(c, k) in s.replies then AuthUnderWay
      else if OkRequest(c, k) in s.requests then OkUnderWay
      else MustSendOk
    else
      if AuthDelivery(c, k) in s.replies then AuthUnderWay
      else if s.daemons[k] then Done
      else if OkDelivery(c, k) in s.replies then ConfirmUnderWay
      else if Announcement(c, k) in s.requests then Announced
      else MustAnnounce
  }

  ghost function Helpful(c: Config, s: System, k: nat): Action
    requires ValidConfig(c) && Shaped(c, s) && k < |c.pairs|
  {
    match PhaseOf(c, s, k)
    case Announced => Receive(Announcement(c, k))
    case AuthUnderWay => Notify(AuthDelivery(c, k))
    case OkUnderWay => Receive(OkRequest(c, k))
    case ConfirmUnderWay => Notify(OkDelivery(c, k))
    case _ => Tick(k)
  }

  ghost function PhaseRank(c: Config, s: System, k: nat): nat
    requires ValidConfig(c) && Shaped(c, s) && k < |c.pairs|
  {
    match PhaseOf(c, s, k)
    case Done => 0
    case ConfirmUnderWay => 1
    case Announced => if Identified(c, s, k) then 2 else 0
    case MustAnnounce => if Identified(c, s, k) then 3 else 1
    case AuthUnderWay => if Identified(c, s, k) then 3 + s.replies[AuthDelivery(c, k)] else 2
    case OkUnderWay => 3
    case MustSendOk => 4
  }

  /**
   The ranking measure: first whether the server is still to be identified, then how many stale
   OK replies can still mislead it, or how many AUTH replies can still unsettle it, and its phase.
   */
  ghost function Rank(c: Config, s: System, k: nat): (nat, nat)
    requires ValidConfig(c) && Shaped(c, s) && k < |c.pairs|
  {
    if Identified(c, s, k) then (0, PhaseRank(c, s, k))
    else (1, 5 * s.replies[OkDelivery(c, k)] + PhaseRank(c, s, k))
  }

  ghost predicate Below(a: (nat, nat), b: (nat, nat)) {
    a.0 < b.0 || (a.0 == b.0 && a.1 < b.1)
  }

  // ----- single steps -----

  lemma NextIsHonest(c: Config, s: System, a: Action, k: nat)
    requires ValidConfig(c) && Shaped(c, s) && k < |c.pairs| && Honest(c, s, k)
    requires Enabled(c, s, a) && Reliable(a)
    ensures Honest(c, Next(c, s, a), k)
  {
    hide HandleReply, HonestRequests;
    NextRequestsHonest(c, s, a);
    if a.Receive? && a.request.message.Announce? {
      AnnounceIsOwn(c, s, a.request);
    }
  }

  lemma NextIsOnCourse(c: Config, s: System, a: Action, k: nat)
    requires ValidConfig(c) && Shaped(c, s) && k < |c.pairs| && OnCourse(c, s, k)
    requires Enabled(c, s, a) && Reliable(a)
    ensures OnCourse(c, Next(c, s, a), k)
  {
    hide HandleTable, HandleReply, HonestRequests, Unclaimed, ReplyTo;
    if a.Receive? {
      ReceiveOnCourse(c, s, a.request, k);
    } else {
      NextRequestsHonest(c, s, a);
      if Unclaimed(c, s, k) {
        NextIsHonest(c, s, a, k);
      }
    }
  }

  lemma ReceiveOnCourse(c: Config, s: System, r: Request, k: nat)
    requires ValidConfig(c) && Shaped(c, s) && k < |c.pairs| && OnCourse(c, s, k) && r in s.requests
    ensures OnCourse(c, Next(c, s, Receive(r)), k)
  {
    hide Next, HonestRequests, Unclaimed;
    NextRequestsHonest(c, s, Receive(r));
    if Unclaimed(c, s, k) {
      NextIsHonest(c, s, Receive(r), k);
    }
    if r.from == c.sockets[k] {
      OwnRequest(c, s, r, k);
    } else {
      OthersRequest(c, s, r, k);
    }
  }

  /** A datagram from another socket leaves server k's view alone. */
  lemma OthersRequest(c: Config, s: System, r: Request, k: nat)
    requires ValidConfig(c) && Shaped(c, s) && k < |c.pairs| && HonestRequests(c, s.requests)
    requires r in s.requests && r.from != c.sockets[k]
    ensures var t := Next(c, s, Receive(r));
            && (Identified(c, t, k) <==> Identified(c, s, k)) && t.daemons[k] == s.daemons[k]
            && t.requests[Announcement(c, k)] == s.requests[Announcement(c, k)]
            && t.requests[OkRequest(c, k)] == s.requests[OkRequest(c, k)]
            && t.replies[OkDelivery(c, k)] == s.replies[OkDelivery(c, k)]
            && t.replies[AuthDelivery(c, k)] == s.replies[AuthDelivery(c, k)]
  {
    hide FindPair, FindIdentifier;
    if r.message.Announce? {
      AnnounceIsOwn(c, s, r);
    }
  }

  lemma OwnAnnouncement(c: Config, s: System, k: nat)
    requires ValidConfig(c) && Shaped(c, s) && k < |c.pairs| && Announcement(c, k) in s.requests
    ensures var t := Next(c, s, Receive(Announcement(c, k)));
            && t.daemons == s.daemons && t.requests == s.requests - multiset{Announcement(c, k)}
            && Identified(c, t, k) && t.replies == s.replies + multiset{OkDelivery(c, k)}
  {
    hide FindPair;
    AnnounceFindsOwnEntry(c, s, k);
  }

  lemma OwnOk(c: Config, s: System, k: nat)
    requires ValidConfig(c) && Shaped(c, s) && k < |c.pairs| && OkRequest(c, k) in s.requests
    ensures var t := Next(c, s, Receive(OkRequest(c, k)));
            && t.daemons == s.daemons && t.requests == s.requests - multiset{OkRequest(c, k)}
            && (Identified(c, t, k) <==> Identified(c, s, k))
            && t.replies == if Identified(c, s, k) || !Unclaimed(c, s, k) then s.replies
                            else s.replies + multiset{AuthDelivery(c, k)}
  {
  }

  /** Nothing else from k's socket can be an announcement of a configured pair. */
  lemma OwnStray(c: Config, s: System, r: Request, k: nat)
    requires ValidConfig(c) && Shaped(c, s) && k < |c.pairs| && HonestRequests(c, s.requests)
    requires r in s.requests && r.from == c.sockets[k] && r != Announcement(c, k) && r != OkRequest(c, k)
    ensures var t := Next(c, s, Receive(r));
            && t.daemons == s.daemons && t.requests == s.requests - multiset{r}
            && t.table == s.table && t.replies == s.replies
  {
    hide HonestRequests;
    if r.message.Announce? { AnnounceIsOwn(c, s, r); }
  }

  /** k's own datagrams: an announcement identifies it, an OK is only answered if it is unknown. */
  lemma OwnRequest(c: Config, s: System, r: Request, k: nat)
    requires ValidConfig(c) && Shaped(c, s) && k < |c.pairs| && HonestRequests(c, s.requests)
    requires r in s.requests && r.from == c.sockets[k]
    ensures var t := Next(c, s, Receive(r));
            && t.daemons[k] == s.daemons[k] && t.requests == s.requests - multiset{r}
            && (r == Announcement(c, k) ==>
                  Identified(c, t, k) && t.replies == s.replies + multiset{OkDelivery(c, k)})
            && (r == OkRequest(c, k) ==>
                  (Identified(c, t, k) <==> Identified(c, s, k))
                  && t.replies == if Identified(c, s, k) || !Unclaimed(c, s, k) then s.replies
                                  else s.replies + multiset{AuthDelivery(c, k)})
            && (r != Announcement(c, k) && r != OkRequest(c, k) ==>
                  (Identified(c, t, k) <==> Identified(c, s, k)) && t.replies == s.replies)
  {
    hide Next, HonestRequests, Unclaimed;
    if r == Announcement(c, k) {
      OwnAnnouncement(c, s, k);
    } else if r == OkRequest(c, k) {
      OwnOk(c, s, k);
    } else {
      OwnStray(c, s, r, k);
    }
  }

  /** The rank never rises, and falls whenever the helpful action happens. */
  lemma RankStep(c: Config, s: System, a: Action, k: nat)
    requires ValidConfig(c) && Shaped(c, s) && k < |c.pairs| && OnCourse(c, s, k)
    requires Enabled(c, s, a) && Reliable(a)
    ensures Rank(c, Next(c, s, a), k) == Rank(c, s, k) || Below(Rank(c, Next(c, s, a), k), Rank(c, s, k))
    ensures !Stable(c, s, k) && a == Helpful(c, s, k) ==> Below(Rank(c, Next(c, s, a), k), Rank(c, s, k))
  {
    hide Next, Rank, Helpful, Stable, Below, OnCourse;
    if a.Receive? {
      ReceiveStep(c, s, a.request, k);
    } else if a.Notify? {
      NotifyStep(c, s, a.delivery, k);
    } else if a.Tick? {
      TickStep(c, s, a.k, k);
    } else {
      OutsideStep(c, s, a, k);
    }
  }

  /** Sweeps, time and other processes do not touch what the rank counts. */
  lemma OutsideStep(c: Config, s: System, a: Action, k: nat)
    requires ValidConfig(c) && Shaped(c, s) && k < |c.pairs|
    requires Enabled(c, s, a) && (a.SweepTable? || a.Wait? || a.Stranger?)
    ensures Rank(c, Next(c, s, a), k) == Rank(c, s, k) && a != Helpful(c, s, k)
  {
    hide HandleTable, HandleReply, ValidConfig, Shaped, Unclaimed;
    Sizes(c, s);
    SameClaims(c, s, a, k);
  }

  lemma SameClaims(c: Config, s: System, a: Action, k: nat)
    requires ValidConfig(c) && Shaped(c, s) && k < |c.pairs| && (a.SweepTable? || a.Wait? || a.Stranger?)
    ensures Unclaimed(c, Next(c, s, a), k) <==> Unclaimed(c, s, k)
  {
  }

  lemma ReceiveStep(c: Config, s: System, r: Request, k: nat)
    requires ValidConfig(c) && Shaped(c, s) && k < |c.pairs| && OnCourse(c, s, k) && r in s.requests
    ensures var t := Next(c, s, Receive(r));
            (Rank(c, t, k) == Rank(c, s, k) || Below(Rank(c, t, k), Rank(c, s, k)))
            && (!Stable(c, s, k) && Receive(r) == Helpful(c, s, k) ==> Below(Rank(c, t, k), Rank(c, s, k)))
  {
    hide Next, Rank, Helpful, Stable, Below, HonestRequests, Curable;
    if r.from != c.sockets[k] {
      OthersStep(c, s, r, k);
    } else if r == Announcement(c, k) {
      AnnouncementStep(c, s, k);
    } else if r == OkRequest(c, k) {
      OkStep(c, s, k);
    } else {
      StrayStep(c, s, r, k);
    }
  }

  lemma AnnouncementStep(c: Config, s: System, k: nat)
    requires ValidConfig(c) && Shaped(c, s) && k < |c.pairs| && HonestRequests(c, s.requests)
    requires Announcement(c, k) in s.requests
    ensures var t := Next(c, s, Receive(Announcement(c, k)));
            (Rank(c, t, k) == Rank(c, s, k) || Below(Rank(c, t, k), Rank(c, s, k)))
            && (!Stable(c, s, k) && Receive(Announcement(c, k)) == Helpful(c, s, k) ==>
                  Below(Rank(c, t, k), Rank(c, s, k)))
  {
    hide Next, HonestRequests;
    OwnRequest(c, s, Announcement(c, k), k);
  }

  lemma OkStep(c: Config, s: System, k: nat)
    requires ValidConfig(c) && Shaped(c, s) && k < |c.pairs| && OnCourse(c, s, k) && OkRequest(c, k) in s.requests
    ensures var t := Next(c, s, Receive(OkRequest(c, k)));
            (Rank(c, t, k) == Rank(c, s, k) || Below(Rank(c, t, k), Rank(c, s, k)))
            && (!Stable(c, s, k) && Receive(OkRequest(c, k)) == Helpful(c, s, k) ==>
                  Below(Rank(c, t, k), Rank(c, s, k)))
  {
    hide Next, HonestRequests, Unclaimed, ValidConfig, Shaped;
    Sizes(c, s);
    OwnRequest(c, s, OkRequest(c, k), k);
  }

  lemma StrayStep(c: Config, s: System, r: Request, k: nat)
    requires ValidConfig(c) && Shaped(c, s) && k < |c.pairs| && HonestRequests(c, s.requests) && r in s.requests
    requires r.from == c.sockets[k] && r != Announcement(c, k) && r != OkRequest(c, k)
    ensures Rank(c, Next(c, s, Receive(r)), k) == Rank(c, s, k) && Receive(r) != Helpful(c, s, k)
  {
    hide Next, HonestRequests;
    OwnRequest(c, s, r, k);
  }

  lemma OthersStep(c: Config, s: System, r: Request, k: nat)
    requires ValidConfig(c) && Shaped(c, s) && k < |c.pairs| && HonestRequests(c, s.requests)
    requires r in s.requests && r.from != c.sockets[k]
    ensures Rank(c, Next(c, s, Receive(r)), k) == Rank(c, s, k) && Receive(r) != Helpful(c, s, k)
  {
    hide Next, HonestRequests;
    OthersRequest(c, s, r, k);
  }

  lemma NotifyStep(c: Config, s: System, d: Delivery, k: nat)
    requires ValidConfig(c) && Shaped(c, s) && k < |c.pairs| && OnCourse(c, s, k) && d in s.replies
    ensures var t := Next(c, s, Notify(d));
            (Rank(c, t, k) == Rank(c, s, k) || Below(Rank(c, t, k), Rank(c, s, k)))
            && (!Stable(c, s, k) && Notify(d) == Helpful(c, s, k) ==> Below(Rank(c, t, k), Rank(c, s, k)))
  {
  }

  lemma TickStep(c: Config, s: System, j: nat, k: nat)
    requires ValidConfig(c) && Shaped(c, s) && k < |c.pairs| && j < |c.pairs|
    ensures var t := Next(c, s, Tick(j));
            (Rank(c, t, k) == Rank(c, s, k) || Below(Rank(c, t, k), Rank(c, s, k)))
            && (!Stable(c, s, k) && Tick(j) == Helpful(c, s, k) ==> Below(Rank(c, t, k), Rank(c, s, k)))
  {
  }

  /** Equal ranks wait for the same event. */
  lemma SameRankSameHelp(c: Config, s: System, t: System, k: nat)
    requires ValidConfig(c) && Shaped(c, s) && Shaped(c, t) && k < |c.pairs|
    requires Rank(c, s, k) == Rank(c, t, k)
    ensures Helpful(c, s, k) == Helpful(c, t, k)
  {
  }

  // ----- infinite runs -----

  ghost predicate StepAt(c: Config, states: nat -> System, actions: nat -> Action, n: nat)
    requires ValidConfig(c)
  {
    Shaped(c, states(n)) && Enabled(c, states(n), actions(n)) && Reliable(actions(n))
    && states(n + 1) == Next(c, states(n), actions(n))
  }

  /** A run in which nothing is lost or repeated. */
  ghost predicate ReliableRun(c: Config, states: nat -> System, actions: nat -> Action)
    requires ValidConfig(c)
  {
    forall n: nat :: StepAt(c, states, actions, n)
  }

  ghost predicate HappensFrom(actions: nat -> Action, a: Action, n: nat) {
    exists m: nat :: m >= n && actions(m) == a
  }

  /** Daemon k keeps sending, and its datagrams arrive in the end, in any order. */
  ghost predicate FairFor(c: Config, states: nat -> System, actions: nat -> Action, k: nat)
    requires ValidConfig(c) && k < |c.pairs|
  {
    && (forall n: nat :: HappensFrom(actions, Tick(k), n))
    && (forall n: nat :: OkRequest(c, k) in states(n).requests ==> HappensFrom(actions, Receive(OkRequest(c, k)), n))
    && (forall n: nat :: Announcement(c, k) in states(n).requests ==>
          HappensFrom(actions, Receive(Announcement(c, k)), n))
    && (forall n: nat, d :: d in states(n).replies && d.to == c.sockets[k] ==> HappensFrom(actions, Notify(d), n))
  }

  ghost predicate SettledFrom(c: Config, states: nat -> System, k: nat, n: nat)
    requires ValidConfig(c) && k < |c.pairs|
  {
    forall m: nat :: m >= n ==> Shaped(c, states(m)) && Stable(c, states(m), k)
  }

  lemma {:induction false} RunIsOnCourse(c: Config, states: nat -> System, actions: nat -> Action, k: nat, n: nat)
    requires ValidConfig(c) && k < |c.pairs| && ReliableRun(c, states, actions)
    requires Shaped(c, states(0)) && OnCourse(c, states(0), k)
    ensures Shaped(c, states(n)) && OnCourse(c, states(n), k)
  {
    hide Next, OnCourse, Enabled;
    if n > 0 {
      RunIsOnCourse(c, states, actions, k, n - 1);
      assert StepAt(c, states, actions, n - 1);
      NextIsOnCourse(c, states(n - 1), actions(n - 1), k);
    }
  }

  /** Later ranks are no higher. */
  lemma {:induction false} RankFalls(c: Config, states: nat -> System, actions: nat -> Action, k: nat, n: nat, m: nat)
    requires ValidConfig(c) && k < |c.pairs| && ReliableRun(c, states, actions) && n <= m
    requires Shaped(c, states(0)) && OnCourse(c, states(0), k)
    ensures Shaped(c, states(n)) && Shaped(c, states(m))
    ensures Rank(c, states(m), k) == Rank(c, states(n), k) || Below(Rank(c, states(m), k), Rank(c, states(n), k))
    decreases m - n
  {
    hide Next, OnCourse, Enabled, Rank, Helpful;
    RunIsOnCourse(c, states, actions, k, n);
    RunIsOnCourse(c, states, actions, k, m);
    if n < m {
      assert StepAt(c, states, actions, n);
      RankStep(c, states(n), actions(n), k);
      RankFalls(c, states, actions, k, n + 1, m);
    }
  }

  /** The helpful event of a state that is not settled yet does happen. */
  lemma HelpComes(c: Config, states: nat -> System, actions: nat -> Action, k: nat, n: nat)
    requires ValidConfig(c) && k < |c.pairs| && FairFor(c, states, actions, k)
    requires Shaped(c, states(n)) && !Stable(c, states(n), k)
    ensures HappensFrom(actions, Helpful(c, states(n), k), n)
  {
    hide HappensFrom;
    assert HappensFrom(actions, Tick(k), n);
  }

  lemma {:induction false} Converges(c: Config, states: nat -> System, actions: nat -> Action, k: nat, n: nat) returns (m: nat)
    requires ValidConfig(c) && k < |c.pairs| && ReliableRun(c, states, actions) && FairFor(c, states, actions, k)
    requires Shaped(c, states(0)) && OnCourse(c, states(0), k) && Shaped(c, states(n))
    ensures m >= n && Shaped(c, states(m)) && Stable(c, states(m), k)
    decreases Rank(c, states(n), k).0, Rank(c, states(n), k).1
  {
    hide Next, OnCourse, Enabled, Rank, Helpful, FairFor, Stable;
    if Stable(c, states(n), k) {
      return n;
    }
    HelpComes(c, states, actions, k, n);
    var h: nat :| h >= n && actions(h) == Helpful(c, states(n), k);
    RankFalls(c, states, actions, k, n, h);
    if Rank(c, states(h), k) != Rank(c, states(n), k) {
      m := Converges(c, states, actions, k, h);
    } else {
      RunIsOnCourse(c, states, actions, k, h);
      assert StepAt(c, states, actions, h);
      SameRankSameHelp(c, states(n), states(h), k);
      if Stable(c, states(h), k) {
        return h;
      }
      RankStep(c, states(h), actions(h), k);
      m := Converges(c, states, actions, k, h + 1);
    }
  }

  lemma StableIsBottom(c: Config, s: System, k: nat)
    requires ValidConfig(c) && Shaped(c, s) && k < |c.pairs|
    ensures Stable(c, s, k) <==> Rank(c, s, k) == (0, 0)
  {
  }

  /**
   Self-stabilisation: from any curable table, states of the daemons and datagrams in flight, a fair
   run without loss and repetition reaches a point from which server k is identified, sends OK, and
   can no longer be unsettled.
   */
  lemma SelfStabilisation(c: Config, states: nat -> System, actions: nat -> Action, k: nat)
    requires ValidConfig(c) && k < |c.pairs| && ReliableRun(c, states, actions) && FairFor(c, states, actions, k)
    requires Shaped(c, states(0)) && OnCourse(c, states(0), k)
    ensures exists n: nat :: SettledFrom(c, states, k, n)
  {
    hide Rank, Stable, OnCourse, ReliableRun, FairFor;
    var n := Converges(c, states, actions, k, 0);
    StableIsBottom(c, states(n), k);
    forall m: nat | m >= n ensures Shaped(c, states(m)) && Stable(c, states(m), k) {
      RankFalls(c, states, actions, k, n, m);
      StableIsBottom(c, states(m), k);
    }
    assert SettledFrom(c, states, k, n);
  }

  // ----- a misled server need not recover -----

  /** A schedule that serves server k in turn and nobody else: AUTH first, then OK, then k's own OKs. */
  ghost function Unhelpful(c: Config, s: System, k: nat): Action
    requires k < |c.sockets|
  {
    if AuthDelivery(c, k) in s.replies then Notify(AuthDelivery(c, k))
    else if OkDelivery(c, k) in s.replies then Notify(OkDelivery(c, k))
    else if OkRequest(c, k) in s.requests then Receive(OkRequest(c, k))
    else Tick(k)
  }

  ghost function Misrun(c: Config, s: System, k: nat, n: nat): (t: System)
    requires ValidConfig(c) && Shaped(c, s) && k < |c.pairs|
    ensures Shaped(c, t)
  {
    if n == 0 then s else Next(c, Misrun(c, s, k, n - 1), Unhelpful(c, Misrun(c, s, k, n - 1), k))
  }

  ghost predicate Misled(c: Config, s: System, k: nat)
    requires ValidConfig(c) && Shaped(c, s) && k < |c.pairs|
  {
    HonestRequests(c, s.requests) && !Curable(c, s, k)
  }

  ghost function Backlog(c: Config, s: System, k: nat): nat
    requires k < |c.sockets|
  {
    s.replies[AuthDelivery(c, k)] + s.replies[OkDelivery(c, k)] + s.requests[OkRequest(c, k)]
  }

  /** The schedule never lets a misled server announce itself, and uses up what it waits for. */
  lemma UnhelpfulStep(c: Config, s: System, k: nat)
    requires ValidConfig(c) && Shaped(c, s) && k < |c.pairs| && Misled(c, s, k)
    ensures var t := Next(c, s, Unhelpful(c, s, k));
            && Enabled(c, s, Unhelpful(c, s, k)) && Reliable(Unhelpful(c, s, k)) && Misled(c, t, k)
            && (Unhelpful(c, s, k) != Tick(k) ==> Backlog(c, t, k) + 1 == Backlog(c, s, k))
  {
    hide Next, HonestRequests, Curable, Backlog;
    NextRequestsHonest(c, s, Unhelpful(c, s, k));
    if AuthDelivery(c, k) in s.replies {
      MisledHears(c, s, AuthDelivery(c, k), k);
    } else if OkDelivery(c, k) in s.replies {
      MisledHears(c, s, OkDelivery(c, k), k);
    } else if OkRequest(c, k) in s.requests {
      MisledIsReceived(c, s, k);
    } else {
      MisledSends(c, s, k);
    }
  }

  lemma MisledHears(c: Config, s: System, d: Delivery, k: nat)
    requires ValidConfig(c) && Shaped(c, s) && k < |c.pairs| && !Curable(c, s, k) && d in s.replies
    requires d == AuthDelivery(c, k) || (d == OkDelivery(c, k) && AuthDelivery(c, k) !in s.replies)
    ensures !Curable(c, Next(c, s, Notify(d)), k)
    ensures Backlog(c, Next(c, s, Notify(d)), k) + 1 == Backlog(c, s, k)
  {
  }

  lemma MisledIsReceived(c: Config, s: System, k: nat)
    requires ValidConfig(c) && Shaped(c, s) && k < |c.pairs| && Misled(c, s, k) && OkRequest(c, k) in s.requests
    ensures !Curable(c, Next(c, s, Receive(OkRequest(c, k))), k)
    ensures Backlog(c, Next(c, s, Receive(OkRequest(c, k))), k) + 1 == Backlog(c, s, k)
  {
    hide HonestRequests, HandleReply;
    OwnRequest(c, s, OkRequest(c, k), k);
  }

  lemma MisledSends(c: Config, s: System, k: nat)
    requires ValidConfig(c) && Shaped(c, s) && k < |c.pairs| && !Curable(c, s, k)
    requires AuthDelivery(c, k) !in s.replies && OkDelivery(c, k) !in s.replies
    ensures !Curable(c, Next(c, s, Tick(k)), k)
  {
  }

  lemma {:induction false} StaysMisled(c: Config, s: System, k: nat, n: nat)
    requires ValidConfig(c) && Shaped(c, s) && k < |c.pairs| && Misled(c, s, k)
    ensures Misled(c, Misrun(c, s, k, n), k)
  {
    hide Misled, Next, Unhelpful;
    if n > 0 {
      StaysMisled(c, s, k, n - 1);
      UnhelpfulStep(c, Misrun(c, s, k, n - 1), k);
    }
  }

  /** What fairness owes to server k. */
  ghost predicate Owed(c: Config, s: System, k: nat, a: Action)
    requires k < |c.sockets|
  {
    match a
    case Tick(j) => j == k
    case Notify(d) => d in s.replies && d.to == c.sockets[k]
    case Receive(r) => r in s.requests && r == OkRequest(c, k)
    case _ => false
  }

  lemma KindsOfDelivery(c: Config, d: Delivery, k: nat)
    requires k < |c.sockets| && d.to == c.sockets[k]
    ensures d == AuthDelivery(c, k) || d == OkDelivery(c, k)
  {
    match d.reply
    case OkReply => assert d == Delivery(c.sockets[k], OkReply);
    case AuthReply => assert d == Delivery(c.sockets[k], AuthReply);
  }

  lemma OwedStep(c: Config, s: System, k: nat, a: Action)
    requires ValidConfig(c) && Shaped(c, s) && k < |c.pairs| && Misled(c, s, k)
    requires Owed(c, s, k, a) && Unhelpful(c, s, k) != a
    ensures Unhelpful(c, s, k) != Tick(k) && Owed(c, Next(c, s, Unhelpful(c, s, k)), k, a)
  {
    hide HandleTable, Misled, HandleReply, ReplyTo;
    if a.Notify? { KindsOfDelivery(c, a.delivery, k); }
  }

  /** Whatever is owed comes, within the backlog. */
  lemma {:induction false} OwedComes(c: Config, s: System, k: nat, n: nat, a: Action) returns (m: nat)
    requires ValidConfig(c) && Shaped(c, s) && k < |c.pairs| && Misled(c, s, k)
    requires Owed(c, Misrun(c, s, k, n), k, a)
    ensures m >= n && Unhelpful(c, Misrun(c, s, k, m), k) == a
    decreases Backlog(c, Misrun(c, s, k, n), k)
  {
    hide Misled, Next, Unhelpful, Owed, Backlog;
    m := n;
    if Unhelpful(c, Misrun(c, s, k, n), k) != a {
      StaysMisled(c, s, k, n);
      OwedStep(c, Misrun(c, s, k, n), k, a);
      UnhelpfulStep(c, Misrun(c, s, k, n), k);
      m := OwedComes(c, s, k, n + 1, a);
    }
  }

  /** Every fair run from `s` in which nothing is lost or repeated settles server k. */
  ghost predicate Heals(c: Config, s: System, k: nat)
    requires ValidConfig(c) && k < |c.pairs|
  {
    forall states: nat -> System, actions: nat -> Action ::
      ReliableRun(c, states, actions) && FairFor(c, states, actions, k) && states(0) == s ==>
        exists n: nat :: SettledFrom(c, states, k, n)
  }

  /** A misled server has a fair run that never identifies it. */
  lemma MisledRuns(c: Config, s: System, k: nat)
    requires ValidConfig(c) && Shaped(c, s) && k < |c.pairs| && Misled(c, s, k)
    ensures !Heals(c, s, k)
  {
    hide Misled, Next, Unhelpful, Enabled, Owed, Stable, FairFor, StepAt;
    var states := (n: nat) => Misrun(c, s, k, n);
    var actions := (n: nat) => Unhelpful(c, Misrun(c, s, k, n), k);
    forall n: nat ensures StepAt(c, states, actions, n) {
      MisrunSteps(c, s, k, states, actions, n);
    }
    forall n: nat ensures Announcement(c, k) !in states(n).requests && !SettledFrom(c, states, k, n) {
      StaysMisled(c, s, k, n);
      MisledIsUnsettled(c, states(n), k);
    }
    forall n: nat, a | Owed(c, states(n), k, a) ensures HappensFrom(actions, a, n) {
      var m := OwedComes(c, s, k, n, a);
      assert actions(m) == a;
    }
    PaysWhatIsOwed(c, states, actions, k);
    NeverSettles(c, s, k, states, actions);
  }

  lemma NeverSettles(c: Config, s: System, k: nat, states: nat -> System, actions: nat -> Action)
    requires ValidConfig(c) && k < |c.pairs| && states(0) == s
    requires (forall n: nat :: StepAt(c, states, actions, n)) && FairFor(c, states, actions, k)
    requires forall n: nat :: !SettledFrom(c, states, k, n)
    ensures !Heals(c, s, k)
  {
    hide StepAt, FairFor, SettledFrom;
    assert ReliableRun(c, states, actions);
  }

  lemma MisrunSteps(c: Config, s: System, k: nat, states: nat -> System, actions: nat -> Action, n: nat)
    requires ValidConfig(c) && Shaped(c, s) && k < |c.pairs| && Misled(c, s, k)
    requires states(n) == Misrun(c, s, k, n) && states(n + 1) == Misrun(c, s, k, n + 1)
    requires actions(n) == Unhelpful(c, Misrun(c, s, k, n), k)
    ensures StepAt(c, states, actions, n)
  {
    hide Misled, Next, Unhelpful, Enabled;
    StaysMisled(c, s, k, n);
    UnhelpfulStep(c, states(n), k);
  }

  lemma PaysWhatIsOwed(c: Config, states: nat -> System, actions: nat -> Action, k: nat)
    requires ValidConfig(c) && k < |c.pairs|
    requires forall n: nat, a :: Owed(c, states(n), k, a) ==> HappensFrom(actions, a, n)
    requires forall n: nat :: Announcement(c, k) !in states(n).requests
    ensures FairFor(c, states, actions, k)
  {
    hide HappensFrom;
    forall n: nat ensures HappensFrom(actions, Tick(k), n) {
      assert Owed(c, states(n), k, Tick(k));
    }
    forall n: nat | OkRequest(c, k) in states(n).requests ensures HappensFrom(actions, Receive(OkRequest(c, k)), n) {
      assert Owed(c, states(n), k, Receive(OkRequest(c, k)));
    }
    forall n: nat, d | d in states(n).replies && d.to == c.sockets[k] ensures HappensFrom(actions, Notify(d), n) {
      assert Owed(c, states(n), k, Notify(d));
    }
  }

  lemma MisledIsUnsettled(c: Config, s: System, k: nat)
    requires ValidConfig(c) && Shaped(c, s) && k < |c.pairs| && Misled(c, s, k)
    ensures Announcement(c, k) !in s.requests && !Stable(c, s, k)
  {
  }

  /**
   Exactly the curable states heal: as long as announcements come from their own sockets, every fair
   run settles server k if and only if no other entry can keep its OKs for good.
   */
  lemma HealsExactly(c: Config, s: System, k: nat)
    requires ValidConfig(c) && Shaped(c, s) && k < |c.pairs| && HonestRequests(c, s.requests)
    ensures Heals(c, s, k) <==> Curable(c, s, k)
  {
    hide Curable, FairFor, ReliableRun, SettledFrom;
    if Curable(c, s, k) {
      forall states: nat -> System, actions: nat -> Action |
        ReliableRun(c, states, actions) && FairFor(c, states, actions, k) && states(0) == s
        ensures exists n: nat :: SettledFrom(c, states, k, n)
      {
        SelfStabilisation(c, states, actions, k);
      }
    } else {
      MisledRuns(c, s, k);
    }
  }

  /** In particular every state heals after a restart of the proxy. */
  lemma RestartHeals(c: Config, s: System, k: nat)
    requires ValidConfig(c) && Shaped(c, s) && k < |c.pairs| && HonestRequests(c, s.requests)
    ensures Heals(c, Next(c, s, Restart), k)
  {
    hide Heals, HonestRequests;
    assert Unclaimed(c, Next(c, s, Restart), k);
    HealsExactly(c, Next(c, s, Restart), k);
  }

  // ----- when the table is honest -----

  /** Whatever happened before, losses, repetitions and restarts included, the table is honest. */
  lemma AnyRunIsHonest(c: Config, s: System, actions: seq<Action>, k: nat)
    requires ValidConfig(c) && Shaped(c, s) && AllHonest(c, s) && Runs(c, s, actions) && k < |c.pairs|
    ensures AllHonest(c, After(c, s, actions)) && Honest(c, After(c, s, actions), k)
  {
    RunsAreHonest(c, s, actions);
    HonestForAll(c, After(c, s, actions), k);
  }

  lemma HonestForAll(c: Config, s: System, k: nat)
    requires ValidConfig(c) && Shaped(c, s) && AllHonest(c, s) && k < |c.pairs|
    ensures Honest(c, s, k)
  {
    forall i | 0 <= i < |c.pairs| && i != k ensures s.table[i].identifier != Some(c.sockets[k]) {
      assert s.table[i].identifier == None || Identified(c, s, i);
    }
  }

  /** Two servers known under each other's socket, both sending OK. */
  ghost predicate Swapped(c: Config, s: System)
    requires ValidConfig(c) && Shaped(c, s)
  {
    |c.pairs| == 2 && s.daemons[0] && s.daemons[1]
    && s.table[0].identifier == Some(c.sockets[1]) && s.table[1].identifier == Some(c.sockets[0])
    && (forall r :: r in s.requests && r.message.Announce? ==> r.message.pair !in c.pairs)
    && (forall d :: d in s.replies && d.to in c.sockets ==> d.reply == OkReply)
  }

  lemma NextIsSwapped(c: Config, s: System, a: Action)
    requires ValidConfig(c) && Shaped(c, s) && Swapped(c, s) && Enabled(c, s, a) && Reliable(a)
    ensures Swapped(c, Next(c, s, a))
  {
    hide HandleTable, HandleReply;
    if a.Receive? {
      SwappedReceives(c, s, a.request);
    } else if a.Notify? {
      SwappedIsNotified(c, s, a.delivery);
    }
  }

  lemma SwappedIsNotified(c: Config, s: System, d: Delivery)
    requires ValidConfig(c) && Shaped(c, s) && Swapped(c, s) && d in s.replies
    ensures Swapped(c, Next(c, s, Notify(d)))
  {
  }

  /** A swapped table takes every OK of its servers for the other's, and answers none. */
  lemma SwappedReceives(c: Config, s: System, r: Request)
    requires ValidConfig(c) && Shaped(c, s) && Swapped(c, s) && r in s.requests
    ensures var after := HandleTable(c.variant, s.table, s.clock, r.from, r.message);
            after[0].identifier == Some(c.sockets[1]) && after[1].identifier == Some(c.sockets[0])
    ensures r.from in c.sockets || r.message.Announce? ==> HandleReply(s.table, r.from, r.message) == None
  {
    match r.message
    case Announce(pair) =>
      assert FindPair(s.table, pair) == |s.table|;
    case OkMessage =>
      assert r.from == c.sockets[0] ==> FindIdentifier(s.table, r.from) == 1;
      assert r.from == c.sockets[1] ==> FindIdentifier(s.table, r.from) == 0;
    case Unrecognised =>
  }

  /** The condition on the table matters: a swapped table is never repaired, in any run. */
  lemma {:induction false} SwappedNeverHeals(c: Config, states: nat -> System, actions: nat -> Action, n: nat)
    requires ValidConfig(c) && ReliableRun(c, states, actions)
    requires Shaped(c, states(0)) && Swapped(c, states(0))
    ensures Shaped(c, states(n)) && Swapped(c, states(n))
    ensures !Identified(c, states(n), 0) && !Identified(c, states(n), 1)
  {
    hide Next, Enabled;
    if n > 0 {
      SwappedNeverHeals(c, states, actions, n - 1);
      assert StepAt(c, states, actions, n - 1);
      NextIsSwapped(c, states(n - 1), actions(n - 1));
    }
  }
}
