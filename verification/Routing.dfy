/** processEvent of route/route.go: an event is sent upstream, forwarded to the peer that owns
    its trace, or handed to the local collector; and what that means for a whole cluster. */
module Routing {
  import opened Events
  import opened Order
  import opened Sharder

  /** Which listener the event came in on. */
  datatype Kind = Peer | Incoming

  datatype Event = Event(apiHost: string, data: Data)

  /** The trace ID of an event; "" when it has none. A traceTraceID that is not a string hides
      a traceId. */
  function TraceIdOf(data: Data): string {
    if "traceTraceID" in data then
      if data["traceTraceID"].StrVal? then data["traceTraceID"].s else ""
    else if "traceId" in data then
      if data["traceId"].StrVal? then data["traceId"].s else ""
    else ""
  }

  /** Where an event goes. */
  datatype Target = Upstream | Forward(address: string) | Collect

  function Route(kind: Kind, my: Shard, owner: Shard, data: Data): Target {
    if TraceIdOf(data) == "" then Upstream
    else if kind.Incoming? && owner != my then Forward(owner.Address())
    else Collect
  }

  /** The text in a field, if it holds one. */
  predicate HasText(data: Data, field: string, text: string) {
    field in data && data[field] == StrVal(text)
  }

  /** The trace ID: the text of traceTraceID, or of traceId if there is no traceTraceID at all. */
  predicate NamesTrace(data: Data, id: string) {
    || HasText(data, "traceTraceID", id)
    || ("traceTraceID" !in data && HasText(data, "traceId", id))
  }

  lemma TraceIdIs(data: Data)
    ensures forall id :: id != "" ==> (TraceIdOf(data) == id <==> NamesTrace(data, id))
  {
  }

  lemma AddressIs(d: Shard)
    ensures d.Address() == d.scheme + "://" + d.ipOrHost + ":" + d.port
  {
  }

  /** What becomes of an event: with no trace ID it goes upstream; one that came in from outside for
      another owner goes to that owner's address; any other is offered to the collector, on the
      queue of the listener it came in on, and refused if there is no room. */
  ghost predicate Handles(kind: Kind, my: Shard, whichShard: string -> Shard, ev: Event, room: bool, sent: Sent, ok: bool) {
    if forall id :: id != "" ==> !NamesTrace(ev.data, id) then sent == Sent([ev], [], []) && ok
    else exists id :: id != "" && NamesTrace(ev.data, id) && HandlesTrace(kind, my, whichShard(id), id, ev, room, sent, ok)
  }

  ghost predicate HandlesTrace(kind: Kind, my: Shard, owner: Shard, id: string, ev: Event, room: bool, sent: Sent, ok: bool) {
    if kind == Incoming && owner != my then
      sent == Sent([], [ev.(apiHost := owner.scheme + "://" + owner.ipOrHost + ":" + owner.port)], []) && ok
    else sent == Sent([], [], if room then [Accepted(id, ev, kind == Peer)] else []) && ok == room
  }

  /** What one event added to each destination. */
  datatype Sent = Sent(upstream: seq<Event>, toPeers: seq<Event>, collected: seq<Accepted>)

  function SentBy(target: Target, id: string, ev: Event, room: bool, kind: Kind): Sent {
    Sent(if target.Upstream? then [ev] else [],
         if target.Forward? then [ev.(apiHost := target.address)] else [],
         if target.Collect? && room then [Accepted(id, ev, kind.Peer?)] else [])
  }

  lemma RouteHandles(kind: Kind, my: Shard, whichShard: string -> Shard, ev: Event, room: bool)
    ensures var id := TraceIdOf(ev.data);
            var target := Route(kind, my, whichShard(id), ev.data);
            Handles(kind, my, whichShard, ev, room, SentBy(target, id, ev, room, kind), target.Collect? ==> room)
  {
    var id := TraceIdOf(ev.data);
    TraceIdIs(ev.data);
    AddressIs(whichShard(id));
    if id != "" { assert NamesTrace(ev.data, id); }
  }

  datatype Accepted = Accepted(traceID: string, ev: Event, fromPeer: bool)

  class Router {
    const kind: Kind
    const my: Shard
    const whichShard: string -> Shard
    var upstream: seq<Event>
    var toPeers: seq<Event>
    var collected: seq<Accepted>

    constructor (kind: Kind, my: Shard, whichShard: string -> Shard)
      ensures this.kind == kind && this.my == my && this.whichShard == whichShard
      ensures upstream == [] && toPeers == [] && collected == []
    {
      this.kind, this.my, this.whichShard := kind, my, whichShard;
      upstream, toPeers, collected := [], [], [];
    }

    /** `room` says whether the collector's queue takes the span; if not the event is dropped
        and the caller is told. The event reaches exactly one destination otherwise. */
    method ProcessEvent(ev: Event, room: bool) returns (ok: bool)
      modifies this
      ensures var target := Route(kind, my, whichShard(TraceIdOf(ev.data)), ev.data);
              && upstream == old(upstream) + (if target.Upstream? then [ev] else [])
              && toPeers == old(toPeers) + (if target.Forward? then [ev.(apiHost := target.address)] else [])
              && collected == old(collected)
                   + (if target.Collect? && room then [Accepted(TraceIdOf(ev.data), ev, kind.Peer?)] else [])
              && ok == (target.Collect? ==> room)
      ensures exists sent ::
                && Handles(kind, my, whichShard, ev, room, sent, ok)
                && upstream == old(upstream) + sent.upstream && toPeers == old(toPeers) + sent.toPeers
                && collected == old(collected) + sent.collected
    {
      RouteHandles(kind, my, whichShard, ev, room);
      ghost var sent := SentBy(Route(kind, my, whichShard(TraceIdOf(ev.data)), ev.data), TraceIdOf(ev.data), ev, room, kind);
      hide Handles;
      ok := true;
      var traceID := "";
      if "traceTraceID" in ev.data {
        if ev.data["traceTraceID"].StrVal? {
          traceID := ev.data["traceTraceID"].s;
        }
      } else if "traceId" in ev.data {
        if ev.data["traceId"].StrVal? {
          traceID := ev.data["traceId"].s;
        }
      }
      if traceID == "" {
        upstream := upstream + [ev];
        return;
      }
      var target := whichShard(traceID);
      if kind.Incoming? && target != my {
        toPeers := toPeers + [ev.(apiHost := target.Address())];
        return;
      }
      if room {
        collected := collected + [Accepted(traceID, ev, kind.Peer?)];
      } else {
        ok := false;
      }
    }
  }

  /******* A cluster *******/

  /** How a node picks the owner: legacy buckets over sha1, or the rendezvous hash. */
  datatype Strategy = Legacy(sha: string -> nat) | Hashed

  /** A table as loadPeerList leaves it: peers to choose from, and partitions that name them. */
  ghost predicate Usable(t: Table) {
    0 < |t.peers| <= MAX_UINT32 && forall i :: 0 <= i < |t.hashes| ==> t.hashes[i].shardIndex < |t.peers|
  }

  lemma {:induction false} BestNamesPeer(hash: Hash, id: string, hashes: seq<HashShard>, n: nat)
    requires n > 0 && forall i :: 0 <= i < |hashes| ==> hashes[i].shardIndex < n
    ensures Best(hash, id, hashes).0 < n
  {
    if hashes != [] { BestNamesPeer(hash, id, hashes[..|hashes| - 1], n); }
  }

  ghost function Which(st: Strategy, hash: Hash, t: Table, id: string): (owner: Shard)
    requires Usable(t)
    ensures owner in t.peers
  {
    match st
    case Legacy(sha) => t.peers[LegacyIndex(sha(id) % (MAX_UINT32 + 1), |t.peers|)]
    case Hashed =>
      BestNamesPeer(hash, id, t.hashes, |t.peers|);
      t.peers[Best(hash, id, t.hashes).0]
  }

  /** A node: its own shard and the table it has loaded. */
  datatype Node = Node(my: Shard, table: Table)

  /** What became of an event: collected, sent upstream or sent to an address nobody answers at,
      after so many hops between nodes. */
  datatype Fate =
    | CollectedAt(node: nat, hops: nat)
    | UpstreamFrom(node: nat, hops: nat)
    | NobodyThere(hops: nat)

  function NodeAt(nodes: seq<Node>, address: string): (r: Option<nat>)
    ensures r.Some? ==> r.value < |nodes| && nodes[r.value].my.Address() == address
    ensures r.None? ==> forall i :: 0 <= i < |nodes| ==> nodes[i].my.Address() != address
  {
    if nodes == [] then None
    else if nodes[|nodes| - 1].my.Address() == address then Some(|nodes| - 1)
    else NodeAt(nodes[..|nodes| - 1], address)
  }

  ghost predicate Loaded(nodes: seq<Node>) {
    forall i :: 0 <= i < |nodes| ==> Usable(nodes[i].table)
  }

  /** An event arriving at a node; a forwarded event arrives on the other node's peer listener,
      with its trace ID. */
  ghost function Deliver(st: Strategy, hash: Hash, nodes: seq<Node>, at: nat, kind: Kind, data: Data, hops: nat): Fate
    requires Loaded(nodes) && at < |nodes|
    decreases kind.Incoming?
  {
    var owner := Which(st, hash, nodes[at].table, TraceIdOf(data));
    match Route(kind, nodes[at].my, owner, data)
    case Upstream => UpstreamFrom(at, hops)
    case Collect => CollectedAt(at, hops)
    case Forward(address) =>
      var next := NodeAt(nodes, address);
      if next.None? then NobodyThere(hops + 1)
      else Deliver(st, hash, nodes, next.value, Peer, data, hops + 1)
  }

  /** With any views at all, however different, an event crosses between nodes at most once, and
      an event with a trace ID that reaches a node is collected there or nowhere. */
  lemma AtMostOneHop(st: Strategy, hash: Hash, nodes: seq<Node>, at: nat, kind: Kind, data: Data)
    requires Loaded(nodes) && at < |nodes|
    ensures var fate := Deliver(st, hash, nodes, at, kind, data, 0);
            && fate.hops <= 1
            && (fate.UpstreamFrom? <==> TraceIdOf(data) == "")
            && (fate.CollectedAt? && fate.hops == 0 ==> fate.node == at)
  {
    var owner := Which(st, hash, nodes[at].table, TraceIdOf(data));
    var target := Route(kind, nodes[at].my, owner, data);
    if target.Forward? {
      var next := NodeAt(nodes, target.address);
      if next.Some? {
        assert Route(Peer, nodes[next.value].my, Which(st, hash, nodes[next.value].table, TraceIdOf(data)), data) == Collect;
      }
    }
  }

  /** Every node has loaded some order of the same peers, every peer is a node, and the nodes are
      different shards. */
  ghost predicate SameView(hash: Hash, sortHashes: HashSort, nodes: seq<Node>, peers: seq<Shard>) {
    && (forall i :: 0 <= i < |nodes| ==> Shows(hash, sortHashes, nodes[i].table, peers))
    && (forall d :: d in peers ==> exists i :: 0 <= i < |nodes| && nodes[i].my == d)
    && (forall i, j :: 0 <= i < j < |nodes| ==> nodes[i].my != nodes[j].my)
    && (forall i :: 0 <= i < |nodes| ==> WellFormed(nodes[i].my))
  }

  /** The table comes from a list that is `peers` up to order. */
  ghost predicate Shows(hash: Hash, sortHashes: HashSort, t: Table, peers: seq<Shard>) {
    exists sort: PeerSort, list :: Sorts(sort, ShardLess) && multiset(list) == multiset(peers)
      && t == Build(hash, sortHashes, sort(list))
  }

  lemma ShownAlike(hash: Hash, sortHashes: HashSort, t: Table, u: Table, peers: seq<Shard>)
    requires Shows(hash, sortHashes, t, peers) && Shows(hash, sortHashes, u, peers)
    ensures t == u && multiset(t.peers) == multiset(peers)
  {
    var sort: PeerSort, list :| Sorts(sort, ShardLess) && multiset(list) == multiset(peers) && t == Build(hash, sortHashes, sort(list));
    var sort': PeerSort, list' :| Sorts(sort', ShardLess) && multiset(list') == multiset(peers) && u == Build(hash, sortHashes, sort'(list'));
    SamePeersSameTable(hash, sortHashes, sort, sort', list, list');
  }

  /** When the nodes' peer lists are equal up to order, all events of a trace are collected at
      one node, whichever node each came in at and under either strategy. */
  lemma OneCollectorPerTrace(st: Strategy, hash: Hash, sortHashes: HashSort, nodes: seq<Node>, peers: seq<Shard>,
                             a: nat, b: nat, d: Data, e: Data) returns (home: nat)
    requires Loaded(nodes) && a < |nodes| && b < |nodes| && SameView(hash, sortHashes, nodes, peers)
    requires TraceIdOf(d) == TraceIdOf(e) != ""
    ensures home < |nodes| && nodes[home].my == Which(st, hash, nodes[a].table, TraceIdOf(d))
    ensures exists h :: Deliver(st, hash, nodes, a, Incoming, d, 0) == CollectedAt(home, h)
    ensures exists h :: Deliver(st, hash, nodes, b, Incoming, e, 0) == CollectedAt(home, h)
  {
    hide Which, Deliver, Build, Sorts, Shows;
    var id := TraceIdOf(d);
    ShownAlike(hash, sortHashes, nodes[a].table, nodes[b].table, peers);
    var owner := Which(st, hash, nodes[a].table, id);
    assert owner in multiset(nodes[a].table.peers);
    assert owner in peers;
    home :| 0 <= home < |nodes| && nodes[home].my == owner;
    forall i, j | 0 <= i < j < |nodes| ensures nodes[i].my.Address() != nodes[j].my.Address() {
      if nodes[i].my.Address() == nodes[j].my.Address() { AddressDetermines(nodes[i].my, nodes[j].my); }
    }
    var ha := ReachesOwner(st, hash, nodes, a, d, owner, home);
    var hb := ReachesOwner(st, hash, nodes, b, e, owner, home);
  }

  lemma ReachesOwner(st: Strategy, hash: Hash, nodes: seq<Node>, at: nat, d: Data, owner: Shard, home: nat) returns (h: nat)
    requires Loaded(nodes) && at < |nodes| && home < |nodes| && nodes[home].my == owner
    requires TraceIdOf(d) != "" && Which(st, hash, nodes[at].table, TraceIdOf(d)) == owner
    requires forall i, j :: 0 <= i < j < |nodes| ==> nodes[i].my.Address() != nodes[j].my.Address()
    ensures Deliver(st, hash, nodes, at, Incoming, d, 0) == CollectedAt(home, h)
  {
    if nodes[at].my == owner {
      h := 0;
      assert at == home;
    } else {
      h := 1;
      var next := NodeAt(nodes, owner.Address());
      assert next == Some(home);
      assert Route(Peer, nodes[home].my, Which(st, hash, nodes[home].table, TraceIdOf(d)), d) == Collect;
    }
  }
}
