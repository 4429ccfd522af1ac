/**
 The load balancer's table of servers: identification, heartbeats, expiry and round-robin
 selection, for the client-to-logic (Fl) and the logic-to-data (Ld) proxy.
 */
module HeartbeatProxy {
  import opened Options

  type Address = nat

  /** The TCP and UDP address a server is configured with and announces. */
  datatype Pair = Pair(tcp: Address, udp: Address)

  datatype Server = Server(pair: Pair, identifier: Option<Address>, lastHeartbeat: Option<int>, isUp: bool)

  datatype Message = OkMessage | Announce(pair: Pair) | Unrecognised

  datatype Reply = OkReply | AuthReply

  /** Fl marks a server up when it identifies itself, Ld only when it sends a heartbeat. */
  datatype Variant = Fl | Ld

  /** Two seconds, in nanoseconds. */
  const TIMEOUT: int := 2_000_000_000

  /** The wrap-around of the atomic counter. */
  const COUNTER_SIZE: nat := 0x1_0000_0000_0000_0000

  // ----- one datagram, one sweep, one selection, as functions of the table -----

  /** The first entry identified by `from`, or the length of the table. */
  function FindIdentifier(servers: seq<Server>, from: Address): (i: nat)
    ensures i <= |servers|
    ensures i < |servers| ==> servers[i].identifier == Some(from)
    ensures forall k :: 0 <= k < i ==> servers[k].identifier != Some(from)
  {
    if servers == [] || servers[0].identifier == Some(from) then 0
    else 1 + FindIdentifier(servers[1..], from)
  }

  /** The first entry configured with the pair, or the length of the table. */
  function FindPair(servers: seq<Server>, pair: Pair): (i: nat)
    ensures i <= |servers|
    ensures i < |servers| ==> servers[i].pair == pair
    ensures forall k :: 0 <= k < i ==> servers[k].pair != pair
  {
    if servers == [] || servers[0].pair == pair then 0 else 1 + FindPair(servers[1..], pair)
  }

  function Beat(server: Server, now: int): Server {
    server.(lastHeartbeat := Some(now), isUp := true)
  }

  function Identify(v: Variant, server: Server, from: Address): Server {
    server.(identifier := Some(from), isUp := v.Fl? || server.isUp)
  }

  function HandleTable(v: Variant, servers: seq<Server>, now: int, from: Address, message: Message): (after: seq<Server>)
    ensures |after| == |servers|
  {
    match message
    case OkMessage =>
      var i := FindIdentifier(servers, from);
      if i < |servers| then servers[i := Beat(servers[i], now)] else servers
    case Announce(pair) =>
      var i := FindPair(servers, pair);
      if i < |servers| then servers[i := Identify(v, servers[i], from)] else servers
    case Unrecognised => servers
  }

  function HandleReply(servers: seq<Server>, from: Address, message: Message): Option<Reply> {
    match message
    case OkMessage => if FindIdentifier(servers, from) < |servers| then None else Some(AuthReply)
    case Announce(pair) => if FindPair(servers, pair) < |servers| then Some(OkReply) else None
    case Unrecognised => None
  }

  predicate Expired(server: Server, now: int) {
    server.lastHeartbeat.Some? && now - server.lastHeartbeat.value > TIMEOUT
  }

  function SweepOne(server: Server, now: int): Server {
    if Expired(server, now) then server.(isUp := false) else server
  }

  function Sweep(servers: seq<Server>, now: int): (after: seq<Server>)
    ensures |after| == |servers|
    ensures forall i :: 0 <= i < |servers| ==> after[i] == SweepOne(servers[i], now)
  {
    seq(|servers|, i requires 0 <= i < |servers| => SweepOne(servers[i], now))
  }

  /** The positions of the servers that are up, in table order. */
  function Available(servers: seq<Server>): (up: seq<nat>)
    ensures |up| <= |servers|
    ensures forall k :: 0 <= k < |up| ==> up[k] < |servers| && servers[up[k]].isUp
    ensures forall j, k :: 0 <= j < k < |up| ==> up[j] < up[k]
    ensures forall i :: 0 <= i < |servers| && servers[i].isUp ==> i in up
  {
    if servers == [] then []
    else
      var last := |servers| - 1;
      Available(servers[..last]) + if servers[last].isUp then [last] else []
  }

  /** The chosen position; none when nothing is up. */
  function Choose(servers: seq<Server>, counter: nat): Option<nat> {
    var up := Available(servers);
    if up == [] then None else Some(up[counter % |up|])
  }

  function NextCounter(servers: seq<Server>, counter: nat): nat {
    if Available(servers) == [] then counter else (counter + 1) % COUNTER_SIZE
  }

  // ----- the proxy -----

  class ReverseProxy {
    const variant: Variant
    var servers: seq<Server>
    var nextIndex: nat

    constructor (variant: Variant, pairs: seq<Pair>)
      ensures this.variant == variant && nextIndex == 0 && |servers| == |pairs|
      ensures forall i :: 0 <= i < |pairs| ==> servers[i] == Server(pairs[i], None, None, false)
    {
      this.variant := variant;
      servers := seq(|pairs|, i requires 0 <= i < |pairs| => Server(pairs[i], None, None, false));
      nextIndex := 0;
    }

    /** One turn of listen_for_heartbeats, under the lock. */
    method HandleDatagram(now: int, from: Address, message: Message) returns (reply: Option<Reply>)
      modifies this`servers
      ensures servers == HandleTable(variant, old(servers), now, from, message)
      ensures reply == HandleReply(old(servers), from, message)
    {
      reply := None;
      match message {
        case OkMessage =>
          var i := 0;
          while i < |servers| && servers[i].identifier != Some(from)
            invariant 0 <= i <= |servers| && servers == old(servers)
            invariant forall k :: 0 <= k < i ==> servers[k].identifier != Some(from)
          {
            i := i + 1;
          }
          FindIdentifierIs(servers, from, i);
          if i < |servers| {
            servers := servers[i := servers[i].(lastHeartbeat := Some(now), isUp := true)];
          } else {
            reply := Some(AuthReply);
          }
        case Announce(pair) =>
          var i := 0;
          while i < |servers| && servers[i].pair != pair
            invariant 0 <= i <= |servers| && servers == old(servers)
            invariant forall k :: 0 <= k < i ==> servers[k].pair != pair
          {
            i := i + 1;
          }
          FindPairIs(servers, pair, i);
          if i < |servers| {
            servers := servers[i := servers[i].(identifier := Some(from))];
            if variant.Fl? {
              servers := servers[i := servers[i].(isUp := true)];
            }
            reply := Some(OkReply);
          }
        case Unrecognised =>
      }
    }

    /** One turn of check_heartbeat_expiry, under the lock. */
    method CheckHeartbeatExpiry(now: int)
      modifies this`servers
      ensures servers == Sweep(old(servers), now)
      ensures forall i :: 0 <= i < |servers| ==>
                var last := old(servers[i]).lastHeartbeat;
                servers[i] == if last.Some? && now - last.value > 2_000_000_000 then old(servers[i]).(isUp := false)
                              else old(servers[i])
    {
      var i := 0;
      while i < |servers|
        invariant 0 <= i <= |servers| == old(|servers|)
        invariant forall k :: 0 <= k < i ==> servers[k] == SweepOne(old(servers)[k], now)
        invariant forall k :: i <= k < |servers| ==> servers[k] == old(servers)[k]
      {
        var last := servers[i].lastHeartbeat;
        if last.Some? {
          if now - last.value > TIMEOUT {
            servers := servers[i := servers[i].(isUp := false)];
          }
        }
        i := i + 1;
      }
    }

    /** get_available_backend: the counter is only bumped when some server is up. */
    method GetAvailableBackend() returns (tcp: Option<Address>)
      modifies this`nextIndex
      ensures nextIndex == NextCounter(servers, old(nextIndex))
      ensures tcp == None <==> forall i :: 0 <= i < |servers| ==> !servers[i].isUp
      ensures tcp.Some? ==> exists i :: 0 <= i < |servers| && servers[i].isUp && tcp == Some(servers[i].pair.tcp)
      ensures nextIndex == if tcp == None then old(nextIndex) else (old(nextIndex) + 1) % 0x1_0000_0000_0000_0000
      ensures tcp == match Choose(servers, old(nextIndex)) case None => None case Some(i) => Some(servers[i].pair.tcp)
    {
      var available := Available(servers);
      if available == [] {
        return None;
      }
      var index := nextIndex % |available|;
      nextIndex := (nextIndex + 1) % COUNTER_SIZE;
      tcp := Some(servers[available[index]].pair.tcp);
    }
  }

  lemma FindIdentifierIs(servers: seq<Server>, from: Address, i: nat)
    requires i <= |servers| && (forall k :: 0 <= k < i ==> servers[k].identifier != Some(from))
    requires i < |servers| ==> servers[i].identifier == Some(from)
    ensures FindIdentifier(servers, from) == i
  {
    var j := FindIdentifier(servers, from);
  }

  lemma FindPairIs(servers: seq<Server>, pair: Pair, i: nat)
    requires i <= |servers| && (forall k :: 0 <= k < i ==> servers[k].pair != pair)
    requires i < |servers| ==> servers[i].pair == pair
    ensures FindPair(servers, pair) == i
  {
    var j := FindPair(servers, pair);
  }

  // ----- fairness of the selection -----

  /** The positions chosen by m consecutive selections on an unchanged table. */
  function Choices(servers: seq<Server>, counter: nat, m: nat): (picks: seq<Option<nat>>)
    ensures |picks| == m
    decreases m
  {
    if m == 0 then [] else [Choose(servers, counter)] + Choices(servers, NextCounter(servers, counter), m - 1)
  }

  /** How many numbers below x leave the remainder r. */
  function Hits(x: nat, n: nat, r: nat): nat
    requires r < n
  {
    if x == 0 then 0 else Hits(x - 1, n, r) + if (x - 1) % n == r then 1 else 0
  }

  lemma {:induction false} HitsInPeriod(x: nat, q: nat, k: nat, n: nat, r: nat)
    requires r < n && k <= n && x == q * n + k
    ensures Hits(x, n, r) == q + if k > r then 1 else 0
    decreases q, k
  {
    if k > 0 {
      HitsInPeriod(x - 1, q, k - 1, n, r);
      Remainder(q, k - 1, n);
    } else if q > 0 {
      Periods(q - 1, 1, n);
      HitsInPeriod(x, q - 1, n, n, r);
    }
  }

  lemma Periods(q: nat, p: nat, n: nat)
    ensures (q + p) * n == q * n + p * n
  {
  }

  lemma Remainder(q: nat, k: nat, n: nat)
    requires k < n
    ensures (q * n + k) % n == k && (q * n + k) / n == q
  {
    var a := q * n + k;
    Quotient(a / n, q, n, a % n, k);
  }

  lemma NextRemainder(x: nat, n: nat)
    requires n > 0
    ensures (x + 1) % n == if x % n + 1 == n then 0 else x % n + 1
  {
    OneOn(x, x / n, x % n, n);
  }

  lemma OneOn(x: nat, q: nat, k: nat, n: nat)
    requires k < n && x == q * n + k
    ensures (x + 1) % n == if k + 1 == n then 0 else k + 1
  {
    if k + 1 < n {
      Remainder(q, k + 1, n);
    } else {
      Periods(q, 1, n);
      Remainder(q + 1, 0, n);
    }
  }

  lemma Quotient(a: int, b: int, n: nat, r: nat, k: nat)
    requires r < n && k < n && a * n + r == b * n + k
    ensures a == b && r == k
  {
    if a < b {
      Apart(a, b, n);
    } else if b < a {
      Apart(b, a, n);
    }
  }

  lemma Apart(a: int, b: int, n: nat)
    requires a < b
    ensures a * n + n <= b * n
  {
    assert b * n == a * n + n + (b - a - 1) * n;
  }

  /** A window of p whole periods and j more numbers, started k numbers into a period. */
  lemma WindowCount(x: nat, q: nat, k: nat, m: nat, p: nat, j: nat, n: nat, r: nat)
    requires r < n && k < n && j < n && x == q * n + k && m == p * n + j
    ensures p <= Hits(x + m, n, r) - Hits(x, n, r) <= p + (if j == 0 then 0 else 1)
  {
    hide Hits;
    HitsInPeriod(x, q, k, n, r);
    Periods(q, p, n);
    Periods(q + p, 1, n);
    var over := k + j >= n;
    HitsInPeriod(x + m, if over then q + p + 1 else q + p, if over then k + j - n else k + j, n, r);
  }

  /** In any window of m numbers each remainder occurs the rounded-down or rounded-up m/n times. */
  lemma WindowHits(c: nat, m: nat, n: nat, r: nat)
    requires r < n
    ensures m / n <= Hits(c + m, n, r) - Hits(c, n, r) <= (m + n - 1) / n
  {
    hide Hits;
    WindowCount(c, c / n, c % n, m, m / n, m % n, n, r);
    Rounded(m, m / n, m % n, n);
  }

  /** Division rounded up. */
  lemma Rounded(m: nat, p: nat, j: nat, n: nat)
    requires j < n && m == p * n + j
    ensures (m + n - 1) / n == p + if j == 0 then 0 else 1
  {
    if j == 0 {
      Remainder(p, n - 1, n);
    } else {
      Periods(p, 1, n);
      Remainder(p + 1, j - 1, n);
    }
  }

  function CountOf(picks: seq<Option<nat>>, i: nat): nat {
    if picks == [] then 0 else (if picks[0] == Some(i) then 1 else 0) + CountOf(picks[1..], i)
  }

  lemma {:induction false} ChoicesHit(servers: seq<Server>, counter: nat, m: nat, k: nat)
    requires k < |Available(servers)| && counter + m <= COUNTER_SIZE
    ensures var n := |Available(servers)|;
            CountOf(Choices(servers, counter, m), Available(servers)[k]) == Hits(counter + m, n, k) - Hits(counter, n, k)
    decreases m
  {
    hide Available, Hits, Choose, NextCounter;
    if m > 0 {
      var n := |Available(servers)|;
      var picks := Choices(servers, counter, m);
      ChoiceIs(servers, counter, k);
      HitsStep(counter, n, k);
      assert picks[0] == Choose(servers, counter);
      assert picks[1..] == Choices(servers, NextCounter(servers, counter), m - 1);
      if m > 1 {
        ChoicesHit(servers, counter + 1, m - 1, k);
      }
    }
  }

  /** One selection takes the k-th server that is up exactly when the counter says so. */
  lemma ChoiceIs(servers: seq<Server>, counter: nat, k: nat)
    requires k < |Available(servers)|
    ensures Choose(servers, counter) == Some(Available(servers)[k]) <==> counter % |Available(servers)| == k
    ensures counter + 1 < COUNTER_SIZE ==> NextCounter(servers, counter) == counter + 1
  {
    hide Available;
    var up := Available(servers);
    assert up[counter % |up|] == up[k] <==> counter % |up| == k;
  }

  lemma HitsStep(x: nat, n: nat, r: nat)
    requires r < n
    ensures Hits(x + 1, n, r) == Hits(x, n, r) + if x % n == r then 1 else 0
  {
  }

  lemma {:induction false} ChoicesAreUp(servers: seq<Server>, counter: nat, m: nat, i: nat)
    requires i >= |servers| || !servers[i].isUp
    ensures CountOf(Choices(servers, counter, m), i) == 0
    decreases m
  {
    if m > 0 {
      ChoicesAreUp(servers, NextCounter(servers, counter), m - 1, i);
      var picks := Choices(servers, counter, m);
      assert picks[1..] == Choices(servers, NextCounter(servers, counter), m - 1);
      assert picks[0] == Choose(servers, counter);
    }
  }

  /**
   Round robin is fair: over m selections with an unchanged table and no wrap of the counter, each
   of the n servers that are up is chosen m/n times, rounded down or up, and no other server ever.
   */
  lemma RoundRobinFair(servers: seq<Server>, counter: nat, m: nat, i: nat)
    requires counter + m <= COUNTER_SIZE
    ensures var n, count := |Available(servers)|, CountOf(Choices(servers, counter, m), i);
            if i < |servers| && servers[i].isUp then n > 0 && m / n <= count <= (m + n - 1) / n else count == 0
  {
    hide CountOf, Choices, Hits, Choose, Available;
    if i < |servers| && servers[i].isUp {
      var up := Available(servers);
      assert i in up;
      var k :| 0 <= k < |up| && up[k] == i;
      ChoicesHit(servers, counter, m, k);
      WindowHits(counter, m, |up|, k);
    } else {
      ChoicesAreUp(servers, counter, m, i);
    }
  }

  // ----- the wrap of the counter -----

  /** In this window each server that is up is chosen m/n times, rounded down or up. */
  ghost predicate FairWindow(servers: seq<Server>, counter: nat, m: nat) {
    forall i: nat {:trigger servers[i]} :: i < |servers| && servers[i].isUp ==>
      var n, count := |Available(servers)|, CountOf(Choices(servers, counter, m), i);
      n > 0 && m / n <= count <= (m + n - 1) / n
  }

  ghost predicate AlwaysFair(servers: seq<Server>) {
    forall counter: nat, m: nat :: counter < COUNTER_SIZE ==> FairWindow(servers, counter, m)
  }

  /** Where the period divides the counter's range, the wrap does not disturb the turn. */
  lemma {:induction false} ChoicesHitOverWrap(servers: seq<Server>, counter: nat, x: nat, m: nat, k: nat)
    requires k < |Available(servers)| && counter < COUNTER_SIZE && COUNTER_SIZE % |Available(servers)| == 0
    requires counter % |Available(servers)| == x % |Available(servers)|
    ensures var n := |Available(servers)|;
            CountOf(Choices(servers, counter, m), Available(servers)[k]) == Hits(x + m, n, k) - Hits(x, n, k)
    decreases m
  {
    hide Available, Hits, Choose, NextCounter;
    if m > 0 {
      var n := |Available(servers)|;
      var next := NextCounter(servers, counter);
      var picks := Choices(servers, counter, m);
      ChoiceIs(servers, counter, k);
      HitsStep(x, n, k);
      NextRemainder(x, n);
      NextRemainder(counter, n);
      CounterWraps(servers, counter);
      assert picks[0] == Choose(servers, counter);
      assert picks[1..] == Choices(servers, next, m - 1);
      ChoicesHitOverWrap(servers, next, x + 1, m - 1, k);
    }
  }

  lemma CounterWraps(servers: seq<Server>, counter: nat)
    requires Available(servers) != [] && counter < COUNTER_SIZE
    ensures NextCounter(servers, counter) == if counter + 1 == COUNTER_SIZE then 0 else counter + 1
  {
    hide Available;
  }

  /** The m selections up to the wrap and the first one behind it, which takes position 0 whatever was due. */
  lemma {:induction false} WrapTakesFirst(servers: seq<Server>, counter: nat, m: nat)
    requires Available(servers) != [] && m > 0 && counter + m == COUNTER_SIZE
    ensures var n := |Available(servers)|;
            CountOf(Choices(servers, counter, m + 1), Available(servers)[0])
            == Hits(COUNTER_SIZE, n, 0) - Hits(counter, n, 0) + 1
    decreases m
  {
    hide Available, Hits, Choose, NextCounter;
    var n := |Available(servers)|;
    var next := NextCounter(servers, counter);
    var picks := Choices(servers, counter, m + 1);
    ChoiceIs(servers, counter, 0);
    HitsStep(counter, n, 0);
    CounterWraps(servers, counter);
    assert picks[0] == Choose(servers, counter);
    assert picks[1..] == Choices(servers, next, m);
    if m > 1 {
      WrapTakesFirst(servers, next, m - 1);
    } else {
      var last := Choices(servers, 0, 1);
      ChoiceIs(servers, 0, 0);
      assert last[0] == Choose(servers, 0) && last[1..] == [];
    }
  }

  /** With r numbers left over, the r + 1 selections around the wrap take position 0 twice. */
  lemma UnfairWindow(servers: seq<Server>)
    requires Available(servers) != [] && COUNTER_SIZE % |Available(servers)| != 0
    ensures var r := COUNTER_SIZE % |Available(servers)|; !FairWindow(servers, COUNTER_SIZE - r, r + 1)
  {
    hide Available, Hits, Choices, CountOf;
    var n := |Available(servers)|;
    var q, r := COUNTER_SIZE / n, COUNTER_SIZE % n;
    WrapTakesFirst(servers, COUNTER_SIZE - r, r);
    HitsInPeriod(COUNTER_SIZE, q, r, n, 0);
    HitsInPeriod(COUNTER_SIZE - r, q, 0, n, 0);
    Rounded(r + 1, if r + 1 == n then 1 else 0, if r + 1 == n then 0 else r + 1, n);
    var i := Available(servers)[0];
    assert servers[i].isUp;
  }

  /**
   Round robin stays fair over every window, wraps included, exactly if the number of servers that are
   up divides the range of the counter.
   */
  lemma AlwaysFairExactly(servers: seq<Server>)
    ensures AlwaysFair(servers) <==> Available(servers) == [] || COUNTER_SIZE % |Available(servers)| == 0
  {
    hide Available, Hits, Choices, CountOf, FairWindow;
    var n := |Available(servers)|;
    if n > 0 && COUNTER_SIZE % n != 0 {
      UnfairWindow(servers);
      assert !FairWindow(servers, COUNTER_SIZE - COUNTER_SIZE % n, COUNTER_SIZE % n + 1);
    } else {
      forall counter: nat, m: nat | counter < COUNTER_SIZE ensures FairWindow(servers, counter, m) {
        WindowIsFair(servers, counter, m);
      }
    }
  }

  lemma WindowIsFair(servers: seq<Server>, counter: nat, m: nat)
    requires Available(servers) == [] || COUNTER_SIZE % |Available(servers)| == 0
    requires counter < COUNTER_SIZE
    ensures FairWindow(servers, counter, m)
  {
    hide Available, Hits, Choices, CountOf;
    var up := Available(servers);
    forall i: nat | i < |servers| && servers[i].isUp
      ensures |up| > 0
      ensures m / |up| <= CountOf(Choices(servers, counter, m), i) <= (m + |up| - 1) / |up|
    {
      assert i in up;
      var k :| 0 <= k < |up| && up[k] == i;
      ChoicesHitOverWrap(servers, counter, counter, m, k);
      WindowHits(counter, m, |up|, k);
    }
  }
}
