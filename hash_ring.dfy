/** The consistent-hashing ring of index.js: virtual nodes at 32-bit
    positions, a map from position to node name, and the positions kept in
    ascending order for the successor lookup. */
module HashRing {
  import opened Wrappers
  import opened RingMath

  datatype RingError = EmptyRing

  /** Ring-wide configuration fixed at construction: the number of virtual
      nodes per node, and the digest of the configured algorithm in hex
      encoding (md5 unless the caller names another). The digest is a
      library call and is taken as given: any deterministic function. */
  datatype Config = Config(replicas: nat, digest: string -> HexDigest)

  const DefaultReplicas: nat := 3

  /** `options.replicas || 3`: a missing or zero replica count means 3. */
  function ReplicasOrDefault(replicas: Option<nat>): (r: nat)
    ensures r > 0
    ensures replicas.Some? && replicas.value > 0 ==> r == replicas.value
    ensures replicas.None? || replicas.value == 0 ==> r == DefaultReplicas
  {
    match replicas
    case Some(n) => if n > 0 then n else DefaultReplicas
    case None => DefaultReplicas
  }

  function DigitChar(d: nat): (c: char)
    requires d < 10
    ensures '0' <= c <= '9'
  {
    ('0' as nat + d) as char
  }

  predicate AllDigits(s: string) {
    forall i :: 0 <= i < |s| ==> '0' <= s[i] <= '9'
  }

  /** The decimal form of n, as a template literal prints it. */
  function DecimalString(n: nat): (s: string)
    ensures 0 < |s| && AllDigits(s)
  {
    if n < 10 then [DigitChar(n)]
    else
      var init := DecimalString(n / 10);
      var s := init + [DigitChar(n % 10)];
      assert forall i :: 0 <= i < |init| ==> s[i] == init[i];
      s
  }

  /** The decimal form has no leading zero, except for 0 itself. */
  lemma {:induction false} DecimalNoLeadingZero(n: nat)
    ensures DecimalString(n)[0] != '0' || n == 0
  {
    if n >= 10 {
      DecimalNoLeadingZero(n / 10);
      assert DecimalString(n)[0] == DecimalString(n / 10)[0];
    }
  }

  /** The number a run of decimal digits stands for, most significant
      digit first. */
  function DecimalValue(s: string): nat
    requires AllDigits(s)
  {
    if s == [] then 0
    else DecimalValue(s[..|s| - 1]) * 10 + (s[|s| - 1] as nat - '0' as nat)
  }

  /** Reading back the decimal form of n gives n: distinct replica indices
      are printed differently. */
  lemma {:induction false} DecimalRoundTrip(n: nat)
    ensures DecimalValue(DecimalString(n)) == n
  {
    if n >= 10 {
      DecimalRoundTrip(n / 10);
      var s := DecimalString(n);
      assert s[..|s| - 1] == DecimalString(n / 10);
    }
  }

  /** The name of virtual node i of a node: `${node}:${i}`. */
  function VirtualNode(node: string, i: nat): string {
    node + ":" + DecimalString(i)
  }

  /** A virtual node's name is the node's name, a colon, and digits that
      read back as the replica index; so the virtual nodes of one node have
      pairwise different names. */
  lemma VirtualNamesDistinct(node: string, i: nat, j: nat)
    ensures var v := VirtualNode(node, i);
            && |v| > |node| + 1 && v[..|node|] == node && v[|node|] == ':'
            && AllDigits(v[|node| + 1..]) && DecimalValue(v[|node| + 1..]) == i
    ensures i != j ==> VirtualNode(node, i) != VirtualNode(node, j)
  {
    var a, b := VirtualNode(node, i), VirtualNode(node, j);
    assert a[|node| + 1..] == DecimalString(i);
    assert b[|node| + 1..] == DecimalString(j);
    DecimalRoundTrip(i);
    DecimalRoundTrip(j);
  }

  /** hashToLong(hash(s)): where the string s lands on the ring. */
  function Position(cfg: Config, s: string): (p: nat)
    ensures p < RingSize
  {
    HashToLong(cfg.digest(s))
  }

  function VirtualPosition(cfg: Config, node: string, i: nat): (p: nat)
    ensures p < RingSize
  {
    Position(cfg, VirtualNode(node, i))
  }

  /** The positions of the first n virtual nodes of a node. */
  ghost function PositionsBelow(cfg: Config, node: string, n: nat): set<nat> {
    set i | 0 <= i < n :: VirtualPosition(cfg, node, i)
  }

  /** All the positions a node is placed at. */
  ghost function Positions(cfg: Config, node: string): set<nat> {
    PositionsBelow(cfg, node, cfg.replicas)
  }

  /** The given positions, each mapped to node. */
  ghost function Placed(node: string, ps: set<nat>): (m: map<nat, string>)
    ensures m.Keys == ps
    ensures forall p :: p in m ==> m[p] == node
  {
    map p | p in ps :: node
  }

  /** The ring after addNode(node): each virtual position of node now maps
      to node, overwriting whatever sat there (last write wins), and every
      other position keeps its owner. */
  ghost function AddedRing(cfg: Config, ring: map<nat, string>, node: string): (r: map<nat, string>)
    ensures r.Keys == ring.Keys + Positions(cfg, node)
    ensures forall i :: 0 <= i < cfg.replicas ==> r[VirtualPosition(cfg, node, i)] == node
    ensures forall p :: p in ring && p !in Positions(cfg, node) ==> r[p] == ring[p]
  {
    ring + Placed(node, Positions(cfg, node))
  }

  /** The ring after removeNode(node): none of node's virtual positions is
      left, whoever owned it, and every other position keeps its owner. */
  ghost function RemovedRing(cfg: Config, ring: map<nat, string>, node: string): (r: map<nat, string>)
    ensures r.Keys == ring.Keys - Positions(cfg, node)
    ensures forall i :: 0 <= i < cfg.replicas ==> VirtualPosition(cfg, node, i) !in r
    ensures forall p :: p in r ==> r[p] == ring[p]
  {
    ring - Positions(cfg, node)
  }

  /** The ring after adding the given nodes one after the other. */
  ghost function AddedAll(cfg: Config, ring: map<nat, string>, nodes: seq<string>): map<nat, string> {
    if nodes == [] then ring
    else AddedRing(cfg, AddedAll(cfg, ring, nodes[..|nodes| - 1]), nodes[|nodes| - 1])
  }

  /** Every entry of the ring sits at one of its own node's positions: the
      only writes to the ring are addNode's. */
  ghost predicate AtOwnPositions(cfg: Config, ring: map<nat, string>) {
    forall p :: p in ring ==> p in Positions(cfg, ring[p])
  }

  /** The distinct node names the ring holds. */
  ghost function Nodes(ring: map<nat, string>): set<string> {
    ring.Values
  }

  /** Adding a node twice leaves the ring as adding it once. */
  lemma AddIsIdempotent(cfg: Config, ring: map<nat, string>, node: string)
    ensures AddedRing(cfg, AddedRing(cfg, ring, node), node) == AddedRing(cfg, ring, node)
  {
  }

  /** Removing a node after adding it leaves the ring as removing it alone;
      on a ring that held none of its positions, that is the ring before. */
  lemma RemoveUndoesAdd(cfg: Config, ring: map<nat, string>, node: string)
    ensures RemovedRing(cfg, AddedRing(cfg, ring, node), node) == RemovedRing(cfg, ring, node)
    ensures ring.Keys !! Positions(cfg, node) ==>
              RemovedRing(cfg, AddedRing(cfg, ring, node), node) == ring
  {
  }

  /** Adding keeps every entry at its own node's positions, and the node
      set grows by the added node and by nothing else. */
  lemma {:induction false} AddKeepsOwnPositions(cfg: Config, ring: map<nat, string>, node: string)
    requires AtOwnPositions(cfg, ring)
    ensures AtOwnPositions(cfg, AddedRing(cfg, ring, node))
    ensures Nodes(AddedRing(cfg, ring, node)) <= Nodes(ring) + {node}
    ensures cfg.replicas > 0 ==> node in Nodes(AddedRing(cfg, ring, node))
  {
    var r := AddedRing(cfg, ring, node);
    forall n | n in Nodes(r) ensures n in Nodes(ring) + {node} {
      var p :| p in r && r[p] == n;
      if p !in Positions(cfg, node) {
        assert ring[p] == n;
      }
    }
    if cfg.replicas > 0 {
      assert r[VirtualPosition(cfg, node, 0)] == node;
    }
  }

  /** Removing keeps every entry at its own node's positions and takes the
      removed node off the ring entirely, since all of its entries sit at
      the positions that are deleted. */
  lemma {:induction false} RemoveDropsNode(cfg: Config, ring: map<nat, string>, node: string)
    requires AtOwnPositions(cfg, ring)
    ensures AtOwnPositions(cfg, RemovedRing(cfg, ring, node))
    ensures Nodes(RemovedRing(cfg, ring, node)) <= Nodes(ring) - {node}
  {
    var r := RemovedRing(cfg, ring, node);
    forall n | n in Nodes(r) ensures n in Nodes(ring) && n != node {
      var p :| p in r && r[p] == n;
      assert ring[p] == n && p in Positions(cfg, n);
    }
  }

  lemma BelowNext(cfg: Config, node: string, i: nat)
    ensures PositionsBelow(cfg, node, i + 1) == PositionsBelow(cfg, node, i) + {VirtualPosition(cfg, node, i)}
  {
  }

  /** The positions that map to the node. */
  ghost function OwnedBy(ring: map<nat, string>, node: string): set<nat> {
    set p | p in ring && ring[p] == node
  }

  /** When the first n virtual nodes of a node land on pairwise different
      positions, the node has n positions among them. */
  lemma {:induction false} PositionsBelowCount(cfg: Config, node: string, n: nat)
    requires forall i, j :: 0 <= i < j < n ==> VirtualPosition(cfg, node, i) != VirtualPosition(cfg, node, j)
    ensures |PositionsBelow(cfg, node, n)| == n
  {
    if n > 0 {
      PositionsBelowCount(cfg, node, n - 1);
      BelowNext(cfg, node, n - 1);
      var q := VirtualPosition(cfg, node, n - 1);
      assert q !in PositionsBelow(cfg, node, n - 1);
    }
  }

  /** After addNode the node owns exactly its own virtual positions, even
      those another node owned before. */
  lemma {:induction false} AddOwnsItsPositions(cfg: Config, ring: map<nat, string>, node: string)
    requires AtOwnPositions(cfg, ring)
    ensures OwnedBy(AddedRing(cfg, ring, node), node) == Positions(cfg, node)
  {
    var r := AddedRing(cfg, ring, node);
    forall p | p in Positions(cfg, node) ensures p in OwnedBy(r, node) {
      var i :| 0 <= i < cfg.replicas && VirtualPosition(cfg, node, i) == p;
    }
    assert forall p :: p in ring && p !in Positions(cfg, node) ==> r[p] == ring[p];
  }

  /** Barring collisions among its own virtual nodes, addNode leaves the
      node owning one position per replica. */
  lemma AddPlacesEveryReplica(cfg: Config, ring: map<nat, string>, node: string)
    requires AtOwnPositions(cfg, ring)
    requires forall i, j :: 0 <= i < j < cfg.replicas ==>
               VirtualPosition(cfg, node, i) != VirtualPosition(cfg, node, j)
    ensures |OwnedBy(AddedRing(cfg, ring, node), node)| == cfg.replicas
  {
    AddOwnsItsPositions(cfg, ring, node);
    PositionsBelowCount(cfg, node, cfg.replicas);
  }

  /** Adding a node moves a key, if at all, to the added node: every other
      key keeps the owner it had, whatever the digest. */
  lemma {:induction false} AddMovesKeysOnlyToNewNode(cfg: Config, ring: map<nat, string>, node: string, h: nat)
    requires ring != map[]
    ensures var r := AddedRing(cfg, ring, node);
            var owner := r[Successor(r.Keys, h)];
            owner == node || owner == ring[Successor(ring.Keys, h)]
  {
    var r := AddedRing(cfg, ring, node);
    var p' := Successor(r.Keys, h);
    var p := Successor(ring.Keys, h);
    if p' !in Positions(cfg, node) {
      assert p' in ring.Keys;
      if exists q :: q in ring.Keys && h <= q {
        assert p in r.Keys && h <= p;
        assert h <= p' <= p;
        assert p <= p';
      } else {
        assert p' < h;
        assert forall q :: q in r.Keys ==> q < h;
        assert Min(r.Keys) <= Min(ring.Keys);
        assert p == Min(ring.Keys) <= p';
      }
    }
  }

  /** A digest that sends every string to position 0, so that all virtual
      nodes of all nodes collide. */
  function CollidingDigest(s: string): HexDigest {
    "00000000"
  }

  lemma {:induction false} ZerosReadAsZero(s: string)
    requires forall i :: 0 <= i < |s| ==> s[i] == '0'
    ensures AllHex(s) && HexValue(s) == 0
  {
    if s != [] {
      ZerosReadAsZero(s[..|s| - 1]);
    }
  }

  /** Collisions are not resolved: when every virtual node of two nodes
      lands on the same position, the node added last owns it and the node
      added first is no longer on the ring, although nothing removed it. */
  lemma {:induction false} CollisionLastWriteWins(a: string, b: string)
    ensures var cfg := Config(DefaultReplicas, CollidingDigest);
            && Nodes(AddedRing(cfg, AddedRing(cfg, map[], a), b)) == {b}
            && Nodes(RemovedRing(cfg, AddedRing(cfg, AddedRing(cfg, map[], a), b), a)) == {}
  {
    var cfg := Config(DefaultReplicas, CollidingDigest);
    var zeros: string := "00000000";
    ZerosReadAsZero(zeros);
    assert zeros[..8] == zeros;
    forall n: string, i: nat ensures VirtualPosition(cfg, n, i) == 0 {
      assert CollidingDigest(VirtualNode(n, i)) == zeros;
    }
    forall n: string ensures Positions(cfg, n) == {0} {
      assert VirtualPosition(cfg, n, 0) == 0;
    }
    var ring := AddedRing(cfg, AddedRing(cfg, map[], a), b);
    assert ring == map[0 := b];
  }

  /** Placing one more position extends the ring that had the others
      placed. */
  lemma PlaceOne(ring: map<nat, string>, node: string, ps: set<nat>, q: nat)
    ensures (ring + Placed(node, ps))[q := node] == ring + Placed(node, ps + {q})
  {
    var lhs := (ring + Placed(node, ps))[q := node];
    var rhs := ring + Placed(node, ps + {q});
    assert lhs.Keys == rhs.Keys;
    forall p | p in lhs ensures lhs[p] == rhs[p] {
      if p == q || p in ps {
        assert rhs[p] == node;
      }
    }
  }

  /** The nodes of a ring built from a list of nodes all come from the list. */
  lemma {:induction false} AddedAllNodes(cfg: Config, ring: map<nat, string>, nodes: seq<string>)
    requires AtOwnPositions(cfg, ring)
    ensures AtOwnPositions(cfg, AddedAll(cfg, ring, nodes))
    ensures forall n :: n in Nodes(AddedAll(cfg, ring, nodes)) ==> n in Nodes(ring) || n in nodes
  {
    if nodes != [] {
      var init := nodes[..|nodes| - 1];
      AddedAllNodes(cfg, ring, init);
      AddKeepsOwnPositions(cfg, AddedAll(cfg, ring, init), nodes[|nodes| - 1]);
      assert forall n :: n in init ==> n in nodes;
    }
  }

  /** The ring's invariant: sortedKeys lists exactly the positions of the
      ring, ascending, and every entry sits at its own node's positions. */
  ghost predicate WellFormed(cfg: Config, ring: map<nat, string>, sortedKeys: seq<nat>) {
    && cfg.replicas > 0
    && StrictlyAscending(sortedKeys)
    && (forall p :: p in ring <==> p in sortedKeys)
    && AtOwnPositions(cfg, ring)
  }

  /** Listing the positions again after a change restores the invariant. */
  lemma Relisted(cfg: Config, ring: map<nat, string>)
    requires cfg.replicas > 0 && AtOwnPositions(cfg, ring)
    ensures WellFormed(cfg, ring, SortedKeys(ring.Keys))
  {
  }

  class ConsistentHashing {
    const cfg: Config
    var ring: map<nat, string>
    var sortedKeys: seq<nat>

    ghost predicate Valid()
      reads this
    {
      WellFormed(cfg, ring, sortedKeys)
    }

    /** The node a key is routed to on a non-empty ring. */
    ghost function Owner(key: string): (n: string)
      reads this
      requires ring != map[]
      ensures n in Nodes(ring)
    {
      ring[Successor(ring.Keys, Position(cfg, key))]
    }

    constructor (nodes: seq<string>, replicas: Option<nat>, digest: string -> HexDigest)
      ensures Valid()
      ensures cfg == Config(ReplicasOrDefault(replicas), digest)
      ensures ring == AddedAll(cfg, map[], nodes)
      ensures sortedKeys == SortedKeys(ring.Keys)
    {
      cfg := Config(ReplicasOrDefault(replicas), digest);
      ring := map[];
      sortedKeys := [];
      new;
      var i := 0;
      while i < |nodes|
        invariant 0 <= i <= |nodes|
        invariant Valid()
        invariant ring == AddedAll(cfg, map[], nodes[..i])
        invariant sortedKeys == SortedKeys(ring.Keys)
      {
        assert nodes[..i + 1][..i] == nodes[..i];
        AddNode(nodes[i]);
        i := i + 1;
      }
      assert nodes[..i] == nodes;
    }

    /** Places the node's virtual nodes on the ring, then lists the ring's
        positions again in ascending order. */
    method AddNode(node: string)
      requires Valid()
      modifies this
      ensures Valid()
      ensures ring == AddedRing(cfg, old(ring), node)
      ensures sortedKeys == SortedKeys(ring.Keys)
    {
      var i := 0;
      while i < cfg.replicas
        invariant 0 <= i <= cfg.replicas
        invariant ring == old(ring) + Placed(node, PositionsBelow(cfg, node, i))
        invariant sortedKeys == old(sortedKeys)
      {
        BelowNext(cfg, node, i);
        PlaceOne(old(ring), node, PositionsBelow(cfg, node, i), VirtualPosition(cfg, node, i));
        ring := ring[VirtualPosition(cfg, node, i) := node];
        i := i + 1;
      }
      AddKeepsOwnPositions(cfg, old(ring), node);
      Relisted(cfg, ring);
      sortedKeys := SortedKeys(ring.Keys);
    }

    /** Deletes the node's virtual positions from the ring, whoever owns
        them now, then lists the ring's positions again. */
    method RemoveNode(node: string)
      requires Valid()
      modifies this
      ensures Valid()
      ensures ring == RemovedRing(cfg, old(ring), node)
      ensures sortedKeys == SortedKeys(ring.Keys)
      ensures node !in Nodes(ring)
    {
      var i := 0;
      while i < cfg.replicas
        invariant 0 <= i <= cfg.replicas
        invariant ring == old(ring) - PositionsBelow(cfg, node, i)
        invariant sortedKeys == old(sortedKeys)
      {
        var p := VirtualPosition(cfg, node, i);
        BelowNext(cfg, node, i);
        ring := ring - {p};
        i := i + 1;
      }
      RemoveDropsNode(cfg, old(ring), node);
      Relisted(cfg, ring);
      sortedKeys := SortedKeys(ring.Keys);
    }

    /** The successor lookup: the node at the first ring position at or
        after the key's position, wrapping to the smallest position; an
        error on an empty ring. */
    method GetNode(key: string) returns (r: Result<string, RingError>)
      requires Valid()
      ensures r.Err? <==> ring == map[]
      ensures r.Ok? ==> r.value == ring[Successor(ring.Keys, Position(cfg, key))]
      ensures r.Ok? && (forall p :: p in ring ==> p < Position(cfg, key)) ==>
                r.value == ring[Min(ring.Keys)]
      ensures r.Ok? ==> r.value in Nodes(ring)
    {
      if |ring| == 0 {
        return Err(EmptyRing);
      }
      var h := Position(cfg, key);
      var i := 0;
      while i < |sortedKeys|
        invariant 0 <= i <= |sortedKeys|
        invariant forall j :: 0 <= j < i ==> sortedKeys[j] < h
      {
        if h <= sortedKeys[i] {
          LeastAtOrAfter(h, i);
          return Ok(ring[sortedKeys[i]]);
        }
        i := i + 1;
      }
      SmallestPosition(h);
      return Ok(ring[sortedKeys[0]]);
    }

    /** The first listed position at or after h is the successor of h. */
    lemma LeastAtOrAfter(h: nat, i: nat)
      requires Valid()
      requires i < |sortedKeys| && h <= sortedKeys[i]
      requires forall j :: 0 <= j < i ==> sortedKeys[j] < h
      ensures ring.Keys != {}
      ensures sortedKeys[i] == Successor(ring.Keys, h)
    {
      assert sortedKeys[i] in ring;
      var p := Successor(ring.Keys, h);
      assert p in sortedKeys;
      var k :| 0 <= k < |sortedKeys| && sortedKeys[k] == p;
      assert h <= p;
      assert i <= k;
      assert sortedKeys[i] <= p;
    }

    /** When h lies beyond every listed position, the successor is the
        first position in the list, the smallest on the ring. */
    lemma SmallestPosition(h: nat)
      requires Valid() && ring != map[]
      requires forall j :: 0 <= j < |sortedKeys| ==> sortedKeys[j] < h
      ensures |sortedKeys| > 0
      ensures sortedKeys[0] == Min(ring.Keys) == Successor(ring.Keys, h)
    {
      var q :| q in ring;
      assert q in sortedKeys;
      var m := Min(ring.Keys);
      assert m in sortedKeys;
      var k :| 0 <= k < |sortedKeys| && sortedKeys[k] == m;
      assert sortedKeys[0] in ring;
      assert sortedKeys[0] <= m;
      assert forall p :: p in ring ==> p < h;
    }

    /** The distinct nodes on the ring, without repeats. */
    method GetAllNodes() returns (nodes: seq<string>)
      requires Valid()
      ensures forall i, j :: 0 <= i < j < |nodes| ==> nodes[i] != nodes[j]
      ensures forall n :: n in nodes <==> n in Nodes(ring)
    {
      nodes := [];
      var i := 0;
      while i < |sortedKeys|
        invariant 0 <= i <= |sortedKeys|
        invariant forall a, b :: 0 <= a < b < |nodes| ==> nodes[a] != nodes[b]
        invariant forall n :: n in nodes <==> exists j :: 0 <= j < i && ring[sortedKeys[j]] == n
      {
        var n := ring[sortedKeys[i]];
        if n !in nodes {
          nodes := nodes + [n];
        }
        i := i + 1;
      }
      forall n | n in Nodes(ring) ensures n in nodes {
        var p :| p in ring && ring[p] == n;
        var j :| 0 <= j < |sortedKeys| && sortedKeys[j] == p;
        assert ring[sortedKeys[j]] == n;
      }
    }
  }
}
