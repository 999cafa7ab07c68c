/** The deterministic sharder of sharder/deterministic.go. The two hash functions and the two
    sorts are parameters: any hash, and any deterministic sort. */
module Sharder {
  import opened Events
  import opened Order

  datatype Shard = Shard(scheme: string, ipOrHost: string, port: string) {
    function Address(): string {
      scheme + "://" + ipOrHost + ":" + port
    }
  }

  predicate ShardLess(a: Shard, b: Shard) {
    if a.ipOrHost != b.ipOrHost then LexLess(a.ipOrHost, b.ipOrHost)
    else if a.scheme != b.scheme then LexLess(a.scheme, b.scheme)
    else LexLess(a.port, b.port)
  }

  /** By host, then by scheme, then by port. */
  lemma ShardOrderIs(a: Shard, b: Shard)
    ensures ShardLess(a, b) <==>
              || LexLess(a.ipOrHost, b.ipOrHost)
              || (a.ipOrHost == b.ipOrHost && LexLess(a.scheme, b.scheme))
              || (a.ipOrHost == b.ipOrHost && a.scheme == b.scheme && LexLess(a.port, b.port))
  {
    LexTotal(a.ipOrHost, b.ipOrHost);
    LexTotal(a.scheme, b.scheme);
  }

  /** Schemes and ports of URLs hold no colon; hosts may. */
  predicate WellFormed(d: Shard) {
    ':' !in d.scheme && ':' !in d.port
  }

  function FirstColon(s: string): (i: nat)
    ensures i <= |s| && ':' !in s[..i] && (i < |s| ==> s[i] == ':')
  {
    if s == "" || s[0] == ':' then 0
    else
      assert s[..1 + FirstColon(s[1..])] == [s[0]] + s[1..][..FirstColon(s[1..])];
      1 + FirstColon(s[1..])
  }

  function LastColon(s: string): (i: nat)
    ensures i <= |s| && ':' !in s[i..] && (i > 0 ==> s[i - 1] == ':')
  {
    if s == "" || s[|s| - 1] == ':' then |s|
    else
      assert s[LastColon(s[..|s| - 1])..] == s[..|s| - 1][LastColon(s[..|s| - 1])..] + [s[|s| - 1]];
      LastColon(s[..|s| - 1])
  }

  /** The shard an address names: up to the first colon, and after the last one. */
  function ParseAddress(s: string): Option<Shard> {
    var i, j := FirstColon(s), LastColon(s);
    if i + 3 <= j - 1 <= |s| then Some(Shard(s[..i], s[i + 3..j - 1], s[j..])) else None
  }

  /** Reading an address back gives the shard. */
  lemma AddressRoundTrip(d: Shard)
    requires WellFormed(d)
    ensures d.Address() == d.scheme + "://" + d.ipOrHost + ":" + d.port
    ensures ParseAddress(d.Address()) == Some(d)
  {
    var s, n := d.Address(), |d.scheme|;
    var m := n + 3 + |d.ipOrHost| + 1;
    assert s[..n] == d.scheme && s[n] == ':' && s[m..] == d.port && s[m - 1] == ':';
    assert s[n + 3..m - 1] == d.ipOrHost;
    FirstColonIs(s, n);
    LastColonIs(s, m);
  }

  lemma {:induction false} FirstColonIs(s: string, n: nat)
    requires n < |s| && ':' !in s[..n] && s[n] == ':'
    ensures FirstColon(s) == n
  {
    if n > 0 {
      assert s[..n] == [s[0]] + s[1..][..n - 1];
      FirstColonIs(s[1..], n - 1);
    }
  }

  lemma {:induction false} LastColonIs(s: string, m: nat)
    requires 0 < m <= |s| && ':' !in s[m..] && s[m - 1] == ':'
    ensures LastColon(s) == m
  {
    if m < |s| {
      assert s[m..] == s[..|s| - 1][m..] + [s[|s| - 1]];
      LastColonIs(s[..|s| - 1], m);
    }
  }

  lemma AddressDetermines(a: Shard, b: Shard)
    requires WellFormed(a) && WellFormed(b) && a.Address() == b.Address()
    ensures a == b
  {
    AddressRoundTrip(a);
    AddressRoundTrip(b);
  }

  lemma ShardOrderConnected()
    ensures Connected(ShardLess)
  {
    forall x, y ensures ShardLess(x, y) || ShardLess(y, x) || x == y {
      LexTotal(x.ipOrHost, y.ipOrHost);
      LexTotal(x.scheme, y.scheme);
      LexTotal(x.port, y.port);
    }
  }

  /** One partition of the hash space and the position of the peer that owns it. */
  datatype HashShard = HashShard(uhash: nat, shardIndex: nat)

  predicate HashLess(a: HashShard, b: HashShard) {
    a.uhash < b.uhash
  }

  /** wyhash(bytes, seed), uninterpreted. */
  type Hash = (string, nat) -> nat

  const PEER_SEED: nat := 6789531204236
  const PARTITION_COUNT := 50

  function Seed(hash: Hash, i: nat): nat {
    if i == 0 then PEER_SEED else hash("anything", Seed(hash, i - 1))
  }

  function PartitionHash(hash: Hash, d: Shard, i: nat): nat {
    hash(d.Address(), Seed(hash, i))
  }

  function Partitions(hash: Hash, d: Shard, index: nat, n: nat): (r: seq<HashShard>)
    ensures |r| == n
    ensures forall i :: 0 <= i < n ==> r[i] == HashShard(PartitionHash(hash, d, i), index)
  {
    seq(n, i requires 0 <= i => HashShard(PartitionHash(hash, d, i), index))
  }

  /** GetHashesFor: the address of the peer is hashed with a chain of seeds that is the same for
      every peer, each one the hash of the one before. */
  method GetHashesFor(hash: Hash, d: Shard, index: nat, n: nat) returns (hashes: seq<HashShard>, ghost seeds: seq<nat>)
    ensures hashes == Partitions(hash, d, index, n)
    ensures |hashes| == |seeds| == n && (n > 0 ==> seeds[0] == 6789531204236)
    ensures forall i :: 0 < i < n ==> seeds[i] == hash("anything", seeds[i - 1])
    ensures forall i :: 0 <= i < n ==>
              hashes[i] == HashShard(hash(d.scheme + "://" + d.ipOrHost + ":" + d.port, seeds[i]), index)
  {
    hashes := [];
    seeds := seq(n, i requires 0 <= i => Seed(hash, i));
    var seed := PEER_SEED;
    for i := 0 to n
      invariant seed == Seed(hash, i) && |hashes| == i
      invariant forall k :: 0 <= k < i ==> hashes[k] == HashShard(PartitionHash(hash, d, k), index)
    {
      hashes := hashes + [HashShard(hash(d.Address(), seed), index)];
      seed := hash("anything", seed);
    }
  }

  /** A peer's partitions at a smaller count are a prefix of those at a larger one. */
  lemma PartitionsArePrefixes(hash: Hash, d: Shard, index: nat, n: nat, m: nat)
    requires n <= m
    ensures Partitions(hash, d, index, n) <= Partitions(hash, d, index, m)
  {
    assert Partitions(hash, d, index, n) == Partitions(hash, d, index, m)[..n];
  }

  function PerPeer(peers: nat): nat
    requires peers > 0
  {
    PARTITION_COUNT / peers + 1
  }

  /** The unsorted hash list of the first `upTo` peers. */
  function HashList(hash: Hash, peers: seq<Shard>, n: nat, upTo: nat): seq<HashShard>
    requires upTo <= |peers|
  {
    if upTo == 0 then []
    else HashList(hash, peers, n, upTo - 1) + Partitions(hash, peers[upTo - 1], upTo - 1, n)
  }

  type PeerSort = seq<Shard> -> seq<Shard>
  type HashSort = seq<HashShard> -> seq<HashShard>

  /** What loadPeerList installs for a non-empty peer list: peers and hashes together. */
  datatype Table = Table(peers: seq<Shard>, hashes: seq<HashShard>)

  function BuildAt(hash: Hash, sortHashes: HashSort, sorted: seq<Shard>, n: nat): Table {
    Table(sorted, sortHashes(HashList(hash, sorted, n, |sorted|)))
  }

  function Build(hash: Hash, sortHashes: HashSort, sorted: seq<Shard>): Table {
    if sorted == [] then Table([], []) else BuildAt(hash, sortHashes, sorted, PerPeer(|sorted|))
  }

  /******* Choosing a shard *******/

  /** The loop of WhichShardHashed: position of the first strict maximum, and the maximum. */
  function Best(hash: Hash, id: string, hashes: seq<HashShard>): (nat, nat) {
    if hashes == [] then (0, 0)
    else
      var (ix, max) := Best(hash, id, hashes[..|hashes| - 1]);
      var last := hashes[|hashes| - 1];
      var h := hash(id, last.uhash);
      if h > max then (last.shardIndex, h) else (ix, max)
  }

  method WhichShardHashed(hash: Hash, t: Table, id: string) returns (d: Shard)
    requires t.peers != [] && forall i :: 0 <= i < |t.hashes| ==> t.hashes[i].shardIndex < |t.peers|
    ensures Best(hash, id, t.hashes).0 < |t.peers| && d == t.peers[Best(hash, id, t.hashes).0]
  {
    var bestix, maxHash := 0, 0;
    for i := 0 to |t.hashes|
      invariant (bestix, maxHash) == Best(hash, id, t.hashes[..i]) && bestix < |t.peers|
    {
      assert t.hashes[..i + 1][..i] == t.hashes[..i];
      var h := hash(id, t.hashes[i].uhash);
      if h > maxHash {
        maxHash := h;
        bestix := t.hashes[i].shardIndex;
      }
    }
    assert t.hashes[..|t.hashes|] == t.hashes;
    d := t.peers[bestix];
  }

  /** What the loop finds, said without the loop. */
  ghost predicate FirstMax(hash: Hash, id: string, hashes: seq<HashShard>, k: nat) {
    && k < |hashes| && hash(id, hashes[k].uhash) > 0
    && (forall i :: 0 <= i < |hashes| ==> hash(id, hashes[i].uhash) <= hash(id, hashes[k].uhash))
    && (forall i :: 0 <= i < k ==> hash(id, hashes[i].uhash) < hash(id, hashes[k].uhash))
  }

  ghost predicate AllZero(hash: Hash, id: string, hashes: seq<HashShard>) {
    forall i :: 0 <= i < |hashes| ==> hash(id, hashes[i].uhash) == 0
  }

  lemma {:induction false} BestIsFirstMax(hash: Hash, id: string, hashes: seq<HashShard>) returns (k: nat)
    ensures if AllZero(hash, id, hashes) then Best(hash, id, hashes) == (0, 0)
            else FirstMax(hash, id, hashes, k)
                 && Best(hash, id, hashes) == (hashes[k].shardIndex, hash(id, hashes[k].uhash))
  {
    k := 0;
    if hashes != [] {
      var n := |hashes| - 1;
      var front := hashes[..n];
      k := BestIsFirstMax(hash, id, front);
      assert forall i :: 0 <= i < n ==> front[i] == hashes[i];
      if hash(id, hashes[n].uhash) > Best(hash, id, front).1 {
        k := n;
      } else if AllZero(hash, id, front) {
        assert AllZero(hash, id, hashes);
      }
    }
  }

  /******* The rendezvous winner *******/

  lemma {:induction false} HashListMembers(hash: Hash, peers: seq<Shard>, n: nat, upTo: nat, h: HashShard)
    requires upTo <= |peers|
    ensures h in HashList(hash, peers, n, upTo)
            <==> h.shardIndex < upTo && exists i :: 0 <= i < n && h.uhash == PartitionHash(hash, peers[h.shardIndex], i)
  {
    if upTo > 0 {
      HashListMembers(hash, peers, n, upTo - 1, h);
      var last := Partitions(hash, peers[upTo - 1], upTo - 1, n);
      if h.shardIndex == upTo - 1 {
        if i :| 0 <= i < n && h.uhash == PartitionHash(hash, peers[h.shardIndex], i) {
          assert last[i] == h;
        }
      }
    }
  }

  lemma BuiltMembers(hash: Hash, sortHashes: HashSort, peers: seq<Shard>, n: nat, h: HashShard)
    requires Sorts(sortHashes, HashLess)
    ensures h in BuildAt(hash, sortHashes, peers, n).hashes
            <==> h.shardIndex < |peers|
                 && exists i :: 0 <= i < n && h.uhash == PartitionHash(hash, peers[h.shardIndex], i)
  {
    var list := HashList(hash, peers, n, |peers|);
    HashListMembers(hash, peers, n, |peers|, h);
    assert h in multiset(sortHashes(list)) <==> h in multiset(list);
  }

  /** The table of a peer list: with 50 / n + 1 partitions for each of n peers. */
  lemma TableIs(hash: Hash, sortHashes: HashSort, peers: seq<Shard>, h: HashShard)
    requires Sorts(sortHashes, HashLess) && peers != []
    ensures var t := Build(hash, sortHashes, peers);
            && t.peers == peers && SortedBy(t.hashes, HashLess)
            && (h in t.hashes <==> h.shardIndex < |peers|
                                   && exists i :: 0 <= i < 50 / |peers| + 1 && h.uhash == PartitionHash(hash, peers[h.shardIndex], i))
  {
    BuiltMembers(hash, sortHashes, peers, PerPeer(|peers|), h);
  }

  /** The index is in range whatever table is installed. */
  lemma BestInRange(hash: Hash, sortHashes: HashSort, peers: seq<Shard>, n: nat, id: string)
    requires Sorts(sortHashes, HashLess) && peers != []
    ensures var t := BuildAt(hash, sortHashes, peers, n);
            && (forall i :: 0 <= i < |t.hashes| ==> t.hashes[i].shardIndex < |peers|)
            && Best(hash, id, t.hashes).0 < |peers|
  {
    var t := BuildAt(hash, sortHashes, peers, n);
    forall i | 0 <= i < |t.hashes| ensures t.hashes[i].shardIndex < |peers| {
      BuiltMembers(hash, sortHashes, peers, n, t.hashes[i]);
    }
    var k := BestIsFirstMax(hash, id, t.hashes);
  }

  /** The shard that WhichShardHashed returns if every peer has `n` partitions. */
  ghost function OwnerAt(hash: Hash, sortHashes: HashSort, peers: seq<Shard>, n: nat, id: string): Shard
    requires Sorts(sortHashes, HashLess) && peers != []
  {
    BestInRange(hash, sortHashes, peers, n, id);
    peers[Best(hash, id, BuildAt(hash, sortHashes, peers, n).hashes).0]
  }

  /** The shard that WhichShardHashed returns with the table built for `peers`. */
  ghost function Owner(hash: Hash, sortHashes: HashSort, peers: seq<Shard>, id: string): Shard
    requires Sorts(sortHashes, HashLess) && peers != []
  {
    OwnerAt(hash, sortHashes, peers, PerPeer(|peers|), id)
  }

  /** Partition u scores no worse for this trace than v, ties going to the smaller hash. */
  ghost predicate Beats(hash: Hash, id: string, u: nat, v: nat) {
    hash(id, v) < hash(id, u) || (hash(id, v) == hash(id, u) && u <= v)
  }

  /** `w` owns, by partition i, the best partition of all peers: no order of peers involved. */
  ghost predicate WinsBy(hash: Hash, id: string, peers: seq<Shard>, n: nat, w: Shard, i: nat) {
    var u := PartitionHash(hash, w, i);
    && w in peers && i < n && hash(id, u) > 0
    && forall d, j :: d in peers && 0 <= j < n ==> Beats(hash, id, u, PartitionHash(hash, d, j))
  }

  ghost predicate NobodyScores(hash: Hash, id: string, peers: seq<Shard>, n: nat) {
    forall d, j :: d in peers && 0 <= j < n ==> hash(id, PartitionHash(hash, d, j)) == 0
  }

  lemma PartitionListed(hash: Hash, sortHashes: HashSort, peers: seq<Shard>, n: nat, d: Shard, j: nat) returns (m: nat)
    requires Sorts(sortHashes, HashLess) && d in peers && j < n
    ensures var hashes := BuildAt(hash, sortHashes, peers, n).hashes;
            m < |hashes| && hashes[m].uhash == PartitionHash(hash, d, j)
  {
    var q :| 0 <= q < |peers| && peers[q] == d;
    BuiltMembers(hash, sortHashes, peers, n, HashShard(PartitionHash(hash, d, j), q));
    var hashes := BuildAt(hash, sortHashes, peers, n).hashes;
    m :| 0 <= m < |hashes| && hashes[m] == HashShard(PartitionHash(hash, d, j), q);
  }

  /** The owner is the rendezvous winner; if every score is 0 it is the least peer. */
  lemma OwnerWins(hash: Hash, sortHashes: HashSort, peers: seq<Shard>, n: nat, id: string) returns (i: nat)
    requires Sorts(sortHashes, HashLess) && peers != []
    ensures if NobodyScores(hash, id, peers, n) then OwnerAt(hash, sortHashes, peers, n, id) == peers[0]
            else WinsBy(hash, id, peers, n, OwnerAt(hash, sortHashes, peers, n, id), i)
  {
    var hashes := BuildAt(hash, sortHashes, peers, n).hashes;
    BestInRange(hash, sortHashes, peers, n, id);
    var k := BestIsFirstMax(hash, id, hashes);
    i := 0;
    if AllZero(hash, id, hashes) {
      forall d, j | d in peers && 0 <= j < n ensures hash(id, PartitionHash(hash, d, j)) == 0 {
        var m := PartitionListed(hash, sortHashes, peers, n, d, j);
      }
    } else {
      BuiltMembers(hash, sortHashes, peers, n, hashes[k]);
      i :| 0 <= i < n && hashes[k].uhash == PartitionHash(hash, peers[hashes[k].shardIndex], i);
      forall d, j | d in peers && 0 <= j < n ensures Beats(hash, id, hashes[k].uhash, PartitionHash(hash, d, j)) {
        var m := PartitionListed(hash, sortHashes, peers, n, d, j);
        assert SortedBy(hashes, HashLess);
        assert k < m ==> !HashLess(hashes[m], hashes[k]);
      }
      assert peers[hashes[k].shardIndex] in peers;
    }
  }

  /** Partitions of different peers hash differently. */
  ghost predicate DistinctParts(hash: Hash, peers: seq<Shard>, n: nat) {
    forall d, e, i, j |
      d in peers && e in peers && 0 <= i < n && 0 <= j < n && PartitionHash(hash, d, i) == PartitionHash(hash, e, j) ::
      d == e
  }

  lemma LeastPeerStays(p: seq<Shard>, q: seq<Shard>)
    requires SortedBy(p, ShardLess) && SortedBy(q, ShardLess) && p != [] && q != []
    requires p[0] in q && q[0] in p
    ensures p[0] == q[0]
  {
    ShardOrderConnected();
    HeadIsLeast(p, ShardLess, q[0]);
    HeadIsLeast(q, ShardLess, p[0]);
  }

  /** Two winners of the same contest are one. */
  lemma WinnerIsUnique(hash: Hash, id: string, peers: seq<Shard>, n: nat, w: Shard, i: nat, v: Shard, j: nat)
    requires WinsBy(hash, id, peers, n, w, i) && WinsBy(hash, id, peers, n, v, j) && DistinctParts(hash, peers, n)
    ensures w == v
  {
    var a, b := PartitionHash(hash, w, i), PartitionHash(hash, v, j);
    assert Beats(hash, id, a, b) && Beats(hash, id, b, a);
  }

  /** `p` is `q` with `x` joined, both in order. */
  ghost predicate Joins(p: seq<Shard>, q: seq<Shard>, x: Shard) {
    SortedBy(p, ShardLess) && SortedBy(q, ShardLess) && q != [] && multiset(p) == multiset(q) + multiset{x}
  }

  lemma JoinMembers(p: seq<Shard>, q: seq<Shard>, x: Shard)
    requires Joins(p, q, x)
    ensures p != [] && |p| == |q| + 1 && forall d :: d in p <==> d in q || d == x
  {
    forall d ensures d in p <==> d in q || d == x { assert d in multiset(p) <==> d in multiset(q) || d == x; }
    assert |multiset(p)| == |p| && |multiset(q)| == |q|;
  }

  /** Minimal disruption at any number `n` of partitions per peer: with x joined a trace is owned
      as before or by x, whatever that does to indices, ties and the all-zero default. */
  lemma OnlyXTakes(hash: Hash, sortHashes: HashSort, p: seq<Shard>, q: seq<Shard>, x: Shard, n: nat, id: string)
    requires Sorts(sortHashes, HashLess) && Joins(p, q, x) && DistinctParts(hash, p, n)
    ensures p != []
    ensures OwnerAt(hash, sortHashes, p, n, id) == OwnerAt(hash, sortHashes, q, n, id)
            || OwnerAt(hash, sortHashes, p, n, id) == x
  {
    hide OwnerAt, SortedBy, PartitionHash;
    JoinMembers(p, q, x);
    var w, v := OwnerAt(hash, sortHashes, p, n, id), OwnerAt(hash, sortHashes, q, n, id);
    var i := OwnerWins(hash, sortHashes, p, n, id);
    var j := OwnerWins(hash, sortHashes, q, n, id);
    if w != x {
      if NobodyScores(hash, id, p, n) {
        assert NobodyScores(hash, id, q, n);
        LeastPeerStays(p, q);
      } else {
        assert WinsBy(hash, id, q, n, w, i);
        assert !NobodyScores(hash, id, q, n);
        WinnerIsUnique(hash, id, q, n, w, i, v, j);
      }
    }
  }

  /** Partitions beyond the first n decide nothing for a trace that is won within them: fewer
      partitions are a prefix of more. */
  lemma FewerPartitionsKeep(hash: Hash, sortHashes: HashSort, peers: seq<Shard>, n: nat, m: nat, id: string, j: nat)
    requires Sorts(sortHashes, HashLess) && peers != [] && n <= m && DistinctParts(hash, peers, n)
    requires NobodyScores(hash, id, peers, m)
             || (j < n && WinsBy(hash, id, peers, m, OwnerAt(hash, sortHashes, peers, m, id), j))
    ensures OwnerAt(hash, sortHashes, peers, n, id) == OwnerAt(hash, sortHashes, peers, m, id)
  {
    hide OwnerAt, PartitionHash;
    var i := OwnerWins(hash, sortHashes, peers, n, id);
    var k := OwnerWins(hash, sortHashes, peers, m, id);
    if !NobodyScores(hash, id, peers, m) {
      var v := OwnerAt(hash, sortHashes, peers, m, id);
      assert WinsBy(hash, id, peers, n, v, j);
      assert !NobodyScores(hash, id, peers, n);
      WinnerIsUnique(hash, id, peers, n, OwnerAt(hash, sortHashes, peers, n, id), i, v, j);
    }
  }

  /** `w` is the best of the peers at n partitions each: by the scores, and by the order of peers
      only if nobody scores. */
  ghost predicate Prevails(hash: Hash, id: string, peers: seq<Shard>, n: nat, w: Shard)
    requires peers != []
  {
    if NobodyScores(hash, id, peers, n) then w == peers[0] else exists i: nat :: WinsBy(hash, id, peers, n, w, i)
  }

  /** The owner is the peer that prevails. */
  lemma OwnerPrevails(hash: Hash, sortHashes: HashSort, peers: seq<Shard>, n: nat, id: string, w: Shard)
    requires Sorts(sortHashes, HashLess) && peers != [] && DistinctParts(hash, peers, n)
    ensures OwnerAt(hash, sortHashes, peers, n, id) == w <==> Prevails(hash, id, peers, n, w)
  {
    hide OwnerAt, PartitionHash, WinsBy, NobodyScores;
    var i := OwnerWins(hash, sortHashes, peers, n, id);
    if !NobodyScores(hash, id, peers, n) {
      if j: nat :| WinsBy(hash, id, peers, n, w, j) {
        WinnerIsUnique(hash, id, peers, n, OwnerAt(hash, sortHashes, peers, n, id), i, w, j);
      }
    }
  }

  /** A trace that x does not take stays with its owner if and only if that owner still has the
      best score among the old peers at the number of partitions that goes with one more peer. */
  lemma MovesElsewhereIff(hash: Hash, sortHashes: HashSort, p: seq<Shard>, q: seq<Shard>, x: Shard, id: string)
    requires Sorts(sortHashes, HashLess) && Joins(p, q, x) && p != [] && DistinctParts(hash, p, PerPeer(|p|))
    ensures Owner(hash, sortHashes, p, id) == x
            || (Owner(hash, sortHashes, p, id) == Owner(hash, sortHashes, q, id)
                <==> Prevails(hash, id, q, PerPeer(|p|), Owner(hash, sortHashes, q, id)))
  {
    hide OwnerAt, Prevails, PartitionHash, SortedBy;
    var n := PerPeer(|p|);
    JoinMembers(p, q, x);
    assert DistinctParts(hash, q, n);
    OnlyXTakes(hash, sortHashes, p, q, x, n, id);
    OwnerPrevails(hash, sortHashes, q, n, id, Owner(hash, sortHashes, q, id));
  }

  lemma MorePeersFewerPartitions(p: nat, q: nat)
    requires p > q > 0
    ensures PerPeer(p) <= PerPeer(q)
  {
    var a, b := PARTITION_COUNT / p, PARTITION_COUNT / q;
    if a > b {
      MulMonotone(b + 1, a, q);
      MulMonotone(q, p, a);
      assert (b + 1) * q <= a * q && q * a <= p * a;
    }
  }

  /** Minimal disruption between a peer list and the same list without x: a trace whose owner
      among the old peers wins by one of the partitions that remain is owned as before or by x.
      At an equal number of partitions that is every trace. */
  lemma OnlyTracesOfXMove(hash: Hash, sortHashes: HashSort, p: seq<Shard>, q: seq<Shard>, x: Shard, id: string, j: nat)
    requires Sorts(sortHashes, HashLess) && Joins(p, q, x) && p != [] && DistinctParts(hash, p, PerPeer(|q|))
    requires
      || NobodyScores(hash, id, q, PerPeer(|q|))
      || PerPeer(|p|) == PerPeer(|q|)
      || (j < PerPeer(|p|) && WinsBy(hash, id, q, PerPeer(|q|), Owner(hash, sortHashes, q, id), j))
    ensures Owner(hash, sortHashes, p, id) == Owner(hash, sortHashes, q, id)
            || Owner(hash, sortHashes, p, id) == x
  {
    hide OwnerAt, WinsBy, NobodyScores, PartitionHash, SortedBy;
    var n, m := PerPeer(|p|), PerPeer(|q|);
    JoinMembers(p, q, x);
    MorePeersFewerPartitions(|p|, |q|);
    assert DistinctParts(hash, p, n) && DistinctParts(hash, q, n);
    if n != m {
      FewerPartitionsKeep(hash, sortHashes, q, n, m, id, j);
    }
    OnlyXTakes(hash, sortHashes, p, q, x, n, id);
  }

  /******* A trace that moves between two old peers *******/

  const ALPHA := Shard("http", "a", "80")
  const BETA := Shard("http", "b", "80")
  const GAMMA := Shard("http", "c", "80")

  /** Hashes that are all distinct, and a trace that scores only with the last of the 26
      partitions ALPHA has among two peers and, lower, with the first of BETA. */
  function Skewed(text: string, seed: nat): nat {
    if text == "anything" then seed + 1
    else if text == "t" then if seed == 3 * (PEER_SEED + 25) then 2 else if seed == 3 * PEER_SEED + 1 then 1 else 0
    else if text == ALPHA.Address() then 3 * seed
    else if text == BETA.Address() then 3 * seed + 1
    else if text == GAMMA.Address() then 3 * seed + 2
    else 0
  }

  lemma {:induction false} SkewedSeed(i: nat)
    ensures Seed(Skewed, i) == PEER_SEED + i
  {
    if i > 0 { SkewedSeed(i - 1); }
  }

  lemma SkewedParts(i: nat)
    ensures PartitionHash(Skewed, ALPHA, i) == 3 * (PEER_SEED + i)
    ensures PartitionHash(Skewed, BETA, i) == 3 * (PEER_SEED + i) + 1
    ensures PartitionHash(Skewed, GAMMA, i) == 3 * (PEER_SEED + i) + 2
  {
    SkewedSeed(i);
    assert ALPHA.Address() == "http://a:80" && BETA.Address() == "http://b:80" && GAMMA.Address() == "http://c:80";
    assert ALPHA.Address()[7] == 'a' && BETA.Address()[7] == 'b' && GAMMA.Address()[7] == 'c';
    assert |ALPHA.Address()| == |BETA.Address()| == |GAMMA.Address()| == 11;
  }

  /** When GAMMA joins ALPHA and BETA, 26 partitions per peer become 17, and this trace moves
      from ALPHA to BETA. */
  lemma MovesBetweenOthers(sortHashes: HashSort)
    requires Sorts(sortHashes, HashLess)
    ensures var p, q := [ALPHA, BETA, GAMMA], [ALPHA, BETA];
            && Joins(p, q, GAMMA) && DistinctParts(Skewed, p, PerPeer(|q|))
            && Owner(Skewed, sortHashes, q, "t") == ALPHA
            && Owner(Skewed, sortHashes, p, "t") == BETA
  {
    var p, q := [ALPHA, BETA, GAMMA], [ALPHA, BETA];
    SkewedJoins();
    SkewedDistinct(p, 26);
    var i := OwnerWins(Skewed, sortHashes, q, 26, "t");
    var k := OwnerWins(Skewed, sortHashes, p, 17, "t");
    SkewedParts(25);
    SkewedParts(0);
    SkewedParts(i);
    SkewedParts(k);
    assert ALPHA in q && Skewed("t", PartitionHash(Skewed, ALPHA, 25)) == 2;
    assert BETA in p && Skewed("t", PartitionHash(Skewed, BETA, 0)) == 1;
    assert !NobodyScores(Skewed, "t", q, 26) && !NobodyScores(Skewed, "t", p, 17);
  }

  lemma SkewedJoins()
    ensures Joins([ALPHA, BETA, GAMMA], [ALPHA, BETA], GAMMA)
  {
    assert LexLess("a", "b") && LexLess("a", "c") && LexLess("b", "c");
    assert !LexLess("b", "a") && !LexLess("c", "a") && !LexLess("c", "b");
    assert [ALPHA, BETA, GAMMA] == [ALPHA, BETA] + [GAMMA];
  }

  lemma SkewedDistinct(p: seq<Shard>, n: nat)
    requires p == [ALPHA, BETA, GAMMA]
    ensures DistinctParts(Skewed, p, n)
  {
    hide PartitionHash;
    forall d, e, i, j |
      d in p && e in p && 0 <= i < n && 0 <= j < n && PartitionHash(Skewed, d, i) == PartitionHash(Skewed, e, j)
      ensures d == e
    {
      SkewedParts(i);
      SkewedParts(j);
    }
  }

  /******* Agreement between nodes *******/

  /** Nodes whose peer lists are equal up to order build the same table, even if they sort peers
      by different algorithms, so they name the same owner for every trace. */
  lemma SamePeersSameTable(hash: Hash, sortHashes: HashSort, sortA: PeerSort, sortB: PeerSort, a: seq<Shard>, b: seq<Shard>)
    requires Sorts(sortA, ShardLess) && Sorts(sortB, ShardLess) && multiset(a) == multiset(b)
    ensures Build(hash, sortHashes, sortA(a)) == Build(hash, sortHashes, sortB(b))
  {
    ShardOrderConnected();
    assert multiset(sortA(a)) == multiset(sortB(b));
    SortedUnique(sortA(a), sortB(b), ShardLess);
  }

  /******* Legacy buckets *******/

  const MAX_UINT32: nat := 0xFFFF_FFFF

  /** WhichShardLegacy on the first four bytes of the salted sha1, for n peers. */
  function LegacyIndex(v: nat, n: nat): (index: nat)
    requires v <= MAX_UINT32 && 0 < n <= MAX_UINT32
    ensures index < n
  {
    var portion := MAX_UINT32 / n;
    assert portion >= 1;
    var index := v / portion;
    if index >= n then 0 else index
  }

  /** The hash values that land on peer i. */
  ghost function Share(n: nat, i: nat): set<nat>
    requires 0 < n <= MAX_UINT32
  {
    set v: nat | 0 <= v <= MAX_UINT32 && LegacyIndex(v, n) == i
  }

  predicate Within(lo: nat, v: nat, hi: nat) {
    lo <= v < hi
  }

  ghost function Interval(lo: nat, hi: nat): set<nat> {
    set v: nat | lo <= v < hi && Within(lo, v, hi)
  }

  lemma {:induction false} IntervalCount(lo: nat, hi: nat)
    requires lo <= hi
    ensures |Interval(lo, hi)| == hi - lo
    decreases hi - lo
  {
    if lo == hi {
      assert Interval(lo, hi) == {};
    } else {
      IntervalCount(lo, hi - 1);
      assert Interval(lo, hi) == Interval(lo, hi - 1) + {hi - 1};
    }
  }

  lemma QuotientIs(v: nat, portion: nat, i: nat)
    requires portion > 0
    ensures v / portion == i <==> i * portion <= v < (i + 1) * portion
  {
    var q, r := v / portion, v % portion;
    assert v == q * portion + r && 0 <= r < portion;
    if q < i {
      assert i * portion >= (q + 1) * portion by { MulMonotone(q + 1, i, portion); }
    } else if q > i {
      assert q * portion >= (i + 1) * portion by { MulMonotone(i + 1, q, portion); }
    }
  }

  lemma MulMonotone(a: nat, b: nat, c: nat)
    requires a <= b
    ensures a * c <= b * c
  {
    assert b * c == a * c + (b - a) * c;
  }

  /** Every peer but the first owns exactly floor((2^32 - 1) / n) consecutive hash values, in the
      order of the peers; the first owns as many at the beginning, and the between 1 and n left
      at the end. */
  lemma LegacyShares(n: nat, i: nat)
    requires 0 < n <= MAX_UINT32 && i < n
    ensures var portion := MAX_UINT32 / n;
            if i > 0 then |Share(n, i)| == portion && Share(n, i) == Interval(i * portion, (i + 1) * portion)
            else portion + 1 <= |Share(n, 0)| <= portion + n
                 && Share(n, 0) == Interval(0, portion) + Interval(n * portion, 0x1_0000_0000)
  {
    var portion := MAX_UINT32 / n;
    assert portion >= 1 && n * portion <= MAX_UINT32 < n * portion + n by {
      assert MAX_UINT32 == n * portion + MAX_UINT32 % n;
    }
    if i > 0 {
      assert (i + 1) * portion <= n * portion by { MulMonotone(i + 1, n, portion); }
      forall v: nat ensures v in Share(n, i) <==> v in Interval(i * portion, (i + 1) * portion) {
        QuotientIs(v, portion, i);
      }
      assert Share(n, i) == Interval(i * portion, (i + 1) * portion);
      IntervalCount(i * portion, (i + 1) * portion);
    } else {
      var low, high := Interval(0, portion), Interval(n * portion, MAX_UINT32 + 1);
      forall v: nat ensures v in Share(n, 0) <==> v in low + high {
        QuotientIs(v, portion, 0);
        Past(v, portion, n);
      }
      assert Share(n, 0) == low + high;
      assert portion <= n * portion by { MulMonotone(1, n, portion); }
      assert low !! high;
      IntervalCount(0, portion);
      IntervalCount(n * portion, MAX_UINT32 + 1);
    }
  }

  lemma Past(v: nat, portion: nat, n: nat)
    requires portion > 0
    ensures v / portion >= n <==> v >= n * portion
  {
    var q, r := v / portion, v % portion;
    assert v == q * portion + r && 0 <= r < portion;
    if q >= n { MulMonotone(n, q, portion); } else { MulMonotone(q + 1, n, portion); }
  }

  /******* Loading the peer list *******/

  /** What the peer source gave: nothing, or one parsed URL (or a parse error) per peer. */
  type PeerList = Option<seq<Option<Shard>>>

  function Parsed(list: seq<Option<Shard>>): (r: Option<seq<Shard>>)
    ensures r.Some? <==> forall i :: 0 <= i < |list| ==> list[i].Some?
    ensures r.Some? ==> |r.value| == |list| && forall i :: 0 <= i < |list| ==> r.value[i] == list[i].value
  {
    if list == [] then Some([])
    else
      var front := Parsed(list[..|list| - 1]);
      if front.Some? && list[|list| - 1].Some? then Some(front.value + [list[|list| - 1].value]) else None
  }

  /** The table loadPeerList computes, or its refusal. */
  function Loaded(hash: Hash, sortPeers: PeerSort, sortHashes: HashSort, list: PeerList): Option<Table> {
    if list.None? || list.value == [] then None
    else
      var parsed := Parsed(list.value);
      if parsed.None? then None else Some(Build(hash, sortHashes, sortPeers(parsed.value)))
  }

  class DeterministicSharder {
    const hash: Hash
    const sortPeers: PeerSort
    const sortHashes: HashSort
    var table: Table

    ghost predicate Valid()
      reads this
    {
      && Sorts(sortPeers, ShardLess) && Sorts(sortHashes, HashLess)
      && table == Build(hash, sortHashes, table.peers)
    }

    constructor (hash: Hash, sortPeers: PeerSort, sortHashes: HashSort)
      requires Sorts(sortPeers, ShardLess) && Sorts(sortHashes, HashLess)
      ensures Valid() && table.peers == []
      ensures this.hash == hash && this.sortPeers == sortPeers && this.sortHashes == sortHashes
    {
      this.hash, this.sortPeers, this.sortHashes := hash, sortPeers, sortHashes;
      table := Table([], []);
    }

    /** The table is replaced only if the peers changed, and then both halves of it at once; an
        error leaves it alone. Either way it ends as the table computed from the list. */
    method LoadPeerList(list: PeerList) returns (ok: bool)
      requires Valid()
      modifies this
      ensures Valid()
      ensures ok <==> list.Some? && list.value != [] && forall i :: 0 <= i < |list.value| ==> list.value[i].Some?
      ensures ok ==> SortedBy(table.peers, ShardLess) && multiset(table.peers) == multiset(Parsed(list.value).value)
      ensures ok <==> Loaded(hash, sortPeers, sortHashes, list).Some?
      ensures table == if ok then Loaded(hash, sortPeers, sortHashes, list).value else old(table)
    {
      ok := false;
      if list.None? || |list.value| == 0 {
        return;
      }
      var parsed := ParsePeers(list.value);
      if parsed.None? {
        return;
      }
      var newPeers := sortPeers(parsed.value);
      SortKeepsLength(sortPeers, parsed.value);
      var hashes := HashPeers(hash, newPeers);
      hashes := sortHashes(hashes);
      if table.peers != newPeers {
        table := Table(newPeers, hashes);
      }
      ok := true;
    }
  }

  method ParsePeers(list: seq<Option<Shard>>) returns (r: Option<seq<Shard>>)
    ensures r == Parsed(list)
  {
    var peers: seq<Shard> := [];
    for i := 0 to |list|
      invariant |peers| == i && forall k :: 0 <= k < i ==> list[k] == Some(peers[k])
    {
      if list[i].None? {
        return None;
      }
      peers := peers + [list[i].value];
    }
    assert peers == Parsed(list).value;
    return Some(peers);
  }

  method HashPeers(hash: Hash, peers: seq<Shard>) returns (hashes: seq<HashShard>)
    requires peers != []
    ensures hashes == HashList(hash, peers, PerPeer(|peers|), |peers|)
  {
    hashes := [];
    for ix := 0 to |peers|
      invariant hashes == HashList(hash, peers, PerPeer(|peers|), ix)
    {
      var part, _ := GetHashesFor(hash, peers[ix], ix, PerPeer(|peers|));
      hashes := hashes + part;
    }
  }

  lemma SortKeepsLength(sort: PeerSort, xs: seq<Shard>)
    requires Sorts(sort, ShardLess)
    ensures |sort(xs)| == |xs|
  {
    assert |multiset(sort(xs))| == |multiset(xs)|;
  }

  /******* Concurrent reloads *******/

  /** One call of loadPeerList between its lock operations. */
  datatype Loader = Idle | Computed(t: Table) | Deciding(t: Table)

  /** The shared table under the lock, and any number of loaders. */
  datatype Shared = Shared(table: Table, loaders: seq<Loader>)

  datatype Act = Compute(who: nat, list: PeerList) | Compare(who: nat) | Write(who: nat)

  /** One critical section of one loader. Compare and Write are separate: the read lock is
      given up before the write lock is taken, so others may load in between. */
  ghost function Take(hash: Hash, sortPeers: PeerSort, sortHashes: HashSort, s: Shared, a: Act): Shared {
    if a.who >= |s.loaders| then s
    else
      match (a, s.loaders[a.who])
      case (Compute(i, list), Idle) =>
        var t := Loaded(hash, sortPeers, sortHashes, list);
        if t.Some? then s.(loaders := s.loaders[i := Computed(t.value)]) else s
      case (Compare(i), Computed(t)) =>
        s.(loaders := s.loaders[i := if s.table.peers == t.peers then Idle else Deciding(t)])
      case (Write(i), Deciding(t)) => Shared(t, s.loaders[i := Idle])
      case _ => s
  }

  ghost function TakeAll(hash: Hash, sortPeers: PeerSort, sortHashes: HashSort, s: Shared, acts: seq<Act>): Shared {
    if acts == [] then s
    else Take(hash, sortPeers, sortHashes, TakeAll(hash, sortPeers, sortHashes, s, acts[..|acts| - 1]), acts[|acts| - 1])
  }

  ghost predicate Whole(hash: Hash, sortHashes: HashSort, t: Table) {
    t.peers != [] && t == Build(hash, sortHashes, t.peers)
  }

  ghost predicate AllWhole(hash: Hash, sortHashes: HashSort, s: Shared) {
    && Whole(hash, sortHashes, s.table)
    && forall i :: 0 <= i < |s.loaders| && !s.loaders[i].Idle? ==> Whole(hash, sortHashes, s.loaders[i].t)
  }

  /** At every interleaving of any number of reloads, a reader sees peers and hashes that belong
      together, so the index it computes is in range. */
  lemma {:induction false} ReadersSeeWholeTables(hash: Hash, sortPeers: PeerSort, sortHashes: HashSort, s: Shared, acts: seq<Act>, id: string)
    requires Sorts(sortPeers, ShardLess) && Sorts(sortHashes, HashLess) && AllWhole(hash, sortHashes, s)
    ensures AllWhole(hash, sortHashes, TakeAll(hash, sortPeers, sortHashes, s, acts))
    ensures var t := TakeAll(hash, sortPeers, sortHashes, s, acts).table;
            Best(hash, id, t.hashes).0 < |t.peers|
  {
    var s' := TakeAll(hash, sortPeers, sortHashes, s, acts);
    if acts != [] {
      var front := acts[..|acts| - 1];
      ReadersSeeWholeTables(hash, sortPeers, sortHashes, s, front, id);
      TakeWhole(hash, sortPeers, sortHashes, TakeAll(hash, sortPeers, sortHashes, s, front), acts[|acts| - 1]);
    }
    BestInRange(hash, sortHashes, s'.table.peers, PerPeer(|s'.table.peers|), id);
  }

  lemma TakeWhole(hash: Hash, sortPeers: PeerSort, sortHashes: HashSort, s: Shared, a: Act)
    requires Sorts(sortPeers, ShardLess) && Sorts(sortHashes, HashLess) && AllWhole(hash, sortHashes, s)
    ensures AllWhole(hash, sortHashes, Take(hash, sortPeers, sortHashes, s, a))
  {
    if a.Compute? && a.list.Some? {
      var parsed := Parsed(a.list.value);
      if parsed.Some? { SortKeepsLength(sortPeers, parsed.value); }
    }
  }
}
