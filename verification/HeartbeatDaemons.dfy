/**
 The server side of the protocol: the logic server's daemon with two load balancers per kind, and
 the data server's daemon with a configured list. Both follow one rule per load balancer.
 */
module HeartbeatDaemons {
  import opened HeartbeatProxy

  /** A load balancer a server reports to; `sendingOk` is SENDING_OK, or auth_done. */
  datatype LoadBalancer = LoadBalancer(address: Address, sendingOk: bool)

  /** The text of a datagram from a load balancer. */
  datatype Text = OkText | AuthText | OtherText

  datatype Sent = Sent(to: Address, message: Message)

  const MESSAGE_INTERVAL: int := 1

  function Heard(sendingOk: bool, text: Text): bool {
    match text
    case OkText => true
    case AuthText => false
    case OtherText => sendingOk
  }

  /** What one load balancer's entry becomes when `from` sends `text`. */
  function Hear(lb: LoadBalancer, from: Address, text: Text): LoadBalancer {
    if lb.address == from then lb.(sendingOk := Heard(lb.sendingOk, text)) else lb
  }

  function ReportMessage(sendingOk: bool, pair: Pair): Message {
    if sendingOk then OkMessage else Announce(pair)
  }

  function Report(lb: LoadBalancer, pair: Pair): Sent {
    Sent(lb.address, ReportMessage(lb.sendingOk, pair))
  }

  function TextOf(reply: Reply): Text {
    match reply
    case OkReply => OkText
    case AuthReply => AuthText
  }

  /** The reports of both kinds of load balancers, in the order of the nested loops. */
  function Reports(clients: seq<LoadBalancer>, dbs: seq<LoadBalancer>, pair: Pair): seq<Sent>
    requires |clients| == |dbs|
  {
    if clients == [] then []
    else Reports(clients[..|clients| - 1], dbs[..|dbs| - 1], pair)
         + [Report(clients[|clients| - 1], pair), Report(dbs[|dbs| - 1], pair)]
  }

  /** The datagram tells the load balancer, by its state, that the server is there or which pair it has. */
  predicate Tells(sent: Sent, lb: LoadBalancer, pair: Pair) {
    sent.to == lb.address && sent.message == if lb.sendingOk then OkMessage else Announce(pair)
  }

  /** Every load balancer of both kinds is told once, in turn. */
  lemma {:induction false} ReportsReachAll(clients: seq<LoadBalancer>, dbs: seq<LoadBalancer>, pair: Pair)
    requires |clients| == |dbs|
    ensures var sent := Reports(clients, dbs, pair);
            |sent| == 2 * |clients|
            && forall i :: 0 <= i < |clients| ==> Tells(sent[2 * i], clients[i], pair) && Tells(sent[2 * i + 1], dbs[i], pair)
  {
    if clients != [] {
      var last := |clients| - 1;
      var before := Reports(clients[..last], dbs[..last], pair);
      ReportsReachAll(clients[..last], dbs[..last], pair);
      var sent := Reports(clients, dbs, pair);
      forall i | 0 <= i < last ensures Tells(sent[2 * i], clients[i], pair) && Tells(sent[2 * i + 1], dbs[i], pair) {
        assert sent[2 * i] == before[2 * i] && sent[2 * i + 1] == before[2 * i + 1];
      }
    }
  }

  /** What an entry holds after a datagram: OK and AUTH from its own address set its state, nothing else does. */
  lemma HearExactly(lb: LoadBalancer, from: Address, text: Text)
    ensures Hear(lb, from, text).address == lb.address
    ensures Hear(lb, from, text).sendingOk <==> if lb.address == from && !text.OtherText? then text.OkText? else lb.sendingOk
  {
  }

  /** udp_lb_daemon of the logic server. */
  class LogicDaemon {
    const pair: Pair
    const clientLbs: array<LoadBalancer>
    const dbLbs: array<LoadBalancer>
    var lastSent: int

    ghost predicate Valid()
      reads this
    {
      clientLbs != dbLbs && clientLbs.Length == dbLbs.Length
    }

    constructor (pair: Pair, clients: seq<Address>, dbs: seq<Address>)
      requires |clients| == |dbs|
      ensures Valid() && lastSent == 0 && this.pair == pair
      ensures fresh(clientLbs) && fresh(dbLbs) && clientLbs.Length == |clients|
      ensures forall i :: 0 <= i < |clients| ==> clientLbs[i] == LoadBalancer(clients[i], false)
      ensures forall i :: 0 <= i < |dbs| ==> dbLbs[i] == LoadBalancer(dbs[i], false)
    {
      this.pair := pair;
      clientLbs := new LoadBalancer[|clients|](i requires 0 <= i < |clients| => LoadBalancer(clients[i], false));
      dbLbs := new LoadBalancer[|dbs|](i requires 0 <= i < |dbs| => LoadBalancer(dbs[i], false));
      lastSent := 0;
    }

    /** The sending half of a turn: at most once per interval, to every load balancer. */
    method SendReports(now: int) returns (sent: seq<Sent>)
      requires Valid()
      modifies this`lastSent
      ensures Valid()
      ensures now - old(lastSent) >= MESSAGE_INTERVAL ==> sent == Reports(clientLbs[..], dbLbs[..], pair) && lastSent == now
      ensures now - old(lastSent) >= 1 ==>
                |sent| == 2 * clientLbs.Length == 2 * dbLbs.Length
                && forall i :: 0 <= i < clientLbs.Length ==>
                     Tells(sent[2 * i], clientLbs[i], pair) && Tells(sent[2 * i + 1], dbLbs[i], pair)
      ensures now - old(lastSent) < 1 ==> sent == [] && lastSent == old(lastSent)
    {
      sent := [];
      if now - lastSent >= MESSAGE_INTERVAL {
        var i := 0;
        while i < clientLbs.Length
          invariant 0 <= i <= clientLbs.Length == dbLbs.Length
          invariant sent == Reports(clientLbs[..i], dbLbs[..i], pair)
        {
          sent := sent + [Report(clientLbs[i], pair), Report(dbLbs[i], pair)];
          assert clientLbs[..i + 1][..i] == clientLbs[..i] && dbLbs[..i + 1][..i] == dbLbs[..i];
          i := i + 1;
        }
        assert clientLbs[..i] == clientLbs[..] && dbLbs[..i] == dbLbs[..];
        ReportsReachAll(clientLbs[..], dbLbs[..], pair);
        lastSent := now;
      }
    }

    /** The receiving half: every entry with the sender's address hears the text. */
    method OnDatagram(from: Address, text: Text)
      requires Valid()
      modifies clientLbs, dbLbs
      ensures forall i :: 0 <= i < clientLbs.Length ==> clientLbs[i] == Hear(old(clientLbs[i]), from, text)
      ensures forall i :: 0 <= i < dbLbs.Length ==> dbLbs[i] == Hear(old(dbLbs[i]), from, text)
    {
      var i := 0;
      while i < clientLbs.Length
        invariant 0 <= i <= clientLbs.Length
        invariant forall k :: 0 <= k < i ==> clientLbs[k] == Hear(old(clientLbs[k]), from, text)
        invariant forall k :: 0 <= k < i ==> dbLbs[k] == Hear(old(dbLbs[k]), from, text)
        invariant forall k :: i <= k < clientLbs.Length ==> clientLbs[k] == old(clientLbs[k]) && dbLbs[k] == old(dbLbs[k])
      {
        if from == clientLbs[i].address {
          if text == OkText {
            clientLbs[i] := clientLbs[i].(sendingOk := true);
          } else if text == AuthText {
            clientLbs[i] := clientLbs[i].(sendingOk := false);
          }
        }
        if from == dbLbs[i].address {
          if text == OkText {
            dbLbs[i] := dbLbs[i].(sendingOk := true);
          } else if text == AuthText {
            dbLbs[i] := dbLbs[i].(sendingOk := false);
          }
        }
        i := i + 1;
      }
    }
  }

  /** udp_daemon of the data server; auth_done starts with whatever the memory held. */
  class DataDaemon {
    const pair: Pair
    const lbs: array<LoadBalancer>

    constructor (pair: Pair, lbs: array<LoadBalancer>)
      ensures this.pair == pair && this.lbs == lbs
    {
      this.pair, this.lbs := pair, lbs;
    }

    method SendReports() returns (sent: seq<Sent>)
      ensures |sent| == lbs.Length && forall i :: 0 <= i < lbs.Length ==> Tells(sent[i], lbs[i], pair)
    {
      sent := [];
      for i := 0 to lbs.Length
        invariant |sent| == i && forall k :: 0 <= k < i ==> Tells(sent[k], lbs[k], pair)
      {
        sent := sent + [if lbs[i].sendingOk then Sent(lbs[i].address, OkMessage) else Sent(lbs[i].address, Announce(pair))];
      }
    }

    /** The scan stops at the first entry of the sender. */
    method OnDatagram(from: Address, text: Text)
      modifies lbs
      ensures forall i :: 0 <= i < lbs.Length ==>
                lbs[i] == if i == old(FirstWith(lbs[..], from)) then Hear(old(lbs[i]), from, text) else old(lbs[i])
    {
      var j := 0;
      while j < lbs.Length
        invariant 0 <= j <= lbs.Length
        invariant forall k :: 0 <= k < lbs.Length ==> lbs[k] == old(lbs[k])
        invariant forall k :: 0 <= k < j ==> lbs[k].address != from
      {
        if lbs[j].address == from {
          FirstWithIs(lbs[..], from, j);
          if text == OkText {
            lbs[j] := lbs[j].(sendingOk := true);
          } else if text == AuthText {
            lbs[j] := lbs[j].(sendingOk := false);
          }
          return;
        }
        j := j + 1;
      }
      FirstWithIs(lbs[..], from, j);
    }
  }

  /** The first entry with the address, or the length of the list. */
  function FirstWith(lbs: seq<LoadBalancer>, from: Address): (i: nat)
    ensures i <= |lbs| && (i < |lbs| ==> lbs[i].address == from)
    ensures forall k :: 0 <= k < i ==> lbs[k].address != from
  {
    if lbs == [] || lbs[0].address == from then 0 else 1 + FirstWith(lbs[1..], from)
  }

  lemma FirstWithIs(lbs: seq<LoadBalancer>, from: Address, i: nat)
    requires i <= |lbs| && (forall k :: 0 <= k < i ==> lbs[k].address != from)
    requires i < |lbs| ==> lbs[i].address == from
    ensures FirstWith(lbs, from) == i
  {
    var j := FirstWith(lbs, from);
  }

  /** With distinct addresses that is what every entry hears, as in the logic server. */
  lemma DistinctHear(lbs: seq<LoadBalancer>, from: Address, text: Text, i: nat)
    requires forall j, k :: 0 <= j < k < |lbs| ==> lbs[j].address != lbs[k].address
    requires i < |lbs|
    ensures (if i == FirstWith(lbs, from) then Hear(lbs[i], from, text) else lbs[i]) == Hear(lbs[i], from, text)
  {
    var first := FirstWith(lbs, from);
  }
}
