/** The sharded expiring cache of distributedCache.js: one key-value table
    per node, each key stored in the table of the node the ring routes it
    to, entries expiring lazily when they are read. */
module Cache {
  import opened Wrappers
  import HashRing
  import RingMath

  /** A stored value and the instant (in milliseconds) after which it is
      stale. */
  datatype Entry<V> = Entry(value: V, expires: int)

  datatype CacheError = EmptyRing | NodeUnavailable(node: string)

  /** What set reports back: the node the key went to, the key, the value. */
  datatype SetReply<V> = SetReply(node: string, key: string, value: V)

  /** Entry count per node table, and their sum. */
  datatype Stats = Stats(nodes: map<string, nat>, totalKeys: nat)

  type Table<V> = map<string, Entry<V>>

  const DefaultTtl: int := 3600
  const MillisPerSecond: int := 1000

  /** `Date.now() + ttl * 1000`, the ttl in seconds defaulting to an hour. */
  function ExpiresAt(now: int, ttl: Option<int>): (t: int)
    ensures ttl.Some? ==> t - now == ttl.value * MillisPerSecond
    ensures ttl.None? ==> t - now == DefaultTtl * MillisPerSecond
    ensures now <= t <==> ttl.None? || ttl.value >= 0
  {
    match ttl
    case Some(seconds) => now + seconds * MillisPerSecond
    case None => now + DefaultTtl * MillisPerSecond
  }

  /** An entry is stale strictly after its expiry instant. */
  predicate Expired<V>(e: Entry<V>, now: int) {
    now > e.expires
  }

  /** An entry stored at `now` can be read at that same instant exactly
      when its ttl is missing or not negative; with a negative ttl it is
      already stale. */
  lemma FreshWhenStored<V>(value: V, now: int, ttl: Option<int>)
    ensures !Expired(Entry(value, ExpiresAt(now, ttl)), now) <==> ttl.None? || ttl.value >= 0
  {
  }

  /** A node named `__proto__` gets no count of its own in the stats: the
      counts are properties of a plain object, and assigning a number to
      its `__proto__` property is ignored. */
  const ProtoKey: string := "__proto__"

  /** Recording one more count, then leaving out `__proto__`, is leaving it
      out first and recording the count unless it is for `__proto__`. */
  lemma CountWithoutProto(counts: map<string, nat>, n: string, c: nat)
    ensures counts[n := c] - {ProtoKey} ==
              if n == ProtoKey then counts - {ProtoKey} else (counts - {ProtoKey})[n := c]
  {
  }

  /** The sum of a map of counts. */
  ghost function Total(counts: map<string, nat>): nat
    decreases |counts|
  {
    if counts == map[] then 0
    else
      var n :| n in counts;
      assert |counts - {n}| < |counts| by {
        assert (counts - {n}).Keys == counts.Keys - {n};
      }
      counts[n] + Total(counts - {n})
  }

  /** Total may take the entries in any order: taking out any one of them
      leaves its count to add to the sum of the rest. */
  lemma {:induction false} TotalWithout(counts: map<string, nat>, n: string)
    requires n in counts
    ensures Total(counts) == counts[n] + Total(counts - {n})
    decreases |counts|
  {
    var m :| m in counts && Total(counts) == counts[m] + Total(counts - {m});
    if m != n {
      var rest := counts - {m};
      assert |rest| < |counts| by { assert rest.Keys == counts.Keys - {m}; }
      TotalWithout(rest, n);
      assert rest - {n} == counts - {n} - {m};
      var without := counts - {n};
      assert |without| < |counts| by { assert without.Keys == counts.Keys - {n}; }
      TotalWithout(without, m);
    }
  }

  /** Changing one count changes the sum by the difference; adding a fresh
      count adds it to the sum. */
  lemma TotalUpdate(counts: map<string, nat>, n: string, c: nat)
    ensures n in counts ==> Total(counts[n := c]) == Total(counts) - counts[n] + c
    ensures n !in counts ==> Total(counts[n := c]) == Total(counts) + c
  {
    TotalWithout(counts[n := c], n);
    assert counts[n := c] - {n} == counts - {n};
    if n in counts {
      TotalWithout(counts, n);
    } else {
      assert counts - {n} == counts;
    }
  }

  /** The entry count of every table, as stats reports it. */
  ghost function TableSizes<V>(caches: map<string, Table<V>>): (sizes: map<string, nat>)
    ensures sizes.Keys == caches.Keys
    ensures forall n :: n in caches ==> sizes[n] == |caches[n]|
  {
    map n | n in caches :: |caches[n]|
  }

  /** One step of the stats loop: counting the table of one more node
      keeps the loop's invariant. */
  lemma CountOneTable<V>(caches: map<string, Table<V>>, counted: map<string, nat>,
                         nodes: map<string, nat>, n: string)
    requires n in caches && n !in counted
    requires nodes == counted - {ProtoKey}
    ensures (if n == ProtoKey then nodes else nodes[n := |caches[n]|]) ==
              counted[n := |caches[n]|] - {ProtoKey}
    ensures Total(counted[n := |caches[n]|]) == Total(counted) + |caches[n]|
  {
    var after := counted[n := |caches[n]|];
    assert Total(after) == Total(counted) + |caches[n]| by {
      TotalUpdate(counted, n, |caches[n]|);
    }
    assert (if n == ProtoKey then nodes else nodes[n := |caches[n]|]) == after - {ProtoKey} by {
      CountWithoutProto(counted, n, |caches[n]|);
    }
  }

  /** Taking one key out of the hidden ones uncovers its entry. */
  lemma UncoverOne(counts: map<string, nat>, hidden: set<string>, n: string)
    requires n in counts
    ensures (counts - hidden)[n := counts[n]] == counts - (hidden - {n})
  {
  }

  /** Storing a key grows the reported total by one when the key is new to
      its table and leaves it as it was when the key is overwritten. */
  lemma StoreCounts<V>(caches: map<string, Table<V>>, node: string, key: string, e: Entry<V>)
    requires node in caches
    ensures Total(TableSizes(caches[node := caches[node][key := e]])) ==
              Total(TableSizes(caches)) + (if key in caches[node] then 0 else 1)
  {
    var table := caches[node][key := e];
    assert TableSizes(caches[node := table]) == TableSizes(caches)[node := |table|];
    TotalUpdate(TableSizes(caches), node, |table|);
  }

  /** Evicting a stale entry on read takes it out of the reported total. */
  lemma EvictCounts<V>(caches: map<string, Table<V>>, node: string, key: string)
    requires node in caches && key in caches[node]
    ensures Total(TableSizes(caches[node := caches[node] - {key}])) == Total(TableSizes(caches)) - 1
  {
    var table := caches[node] - {key};
    assert table.Keys == caches[node].Keys - {key};
    assert TableSizes(caches[node := table]) == TableSizes(caches)[node := |table|];
    TotalUpdate(TableSizes(caches), node, |table|);
  }

  /** A table for each listed node covers every node of the ring built
      from the list. */
  lemma TablesCoverRing<V>(cfg: HashRing.Config, nodes: seq<string>, tables: map<string, Table<V>>)
    requires forall n :: n in tables <==> n in nodes
    ensures HashRing.Nodes(HashRing.AddedAll(cfg, map[], nodes)) <= tables.Keys
  {
    HashRing.AddedAllNodes(cfg, map[], nodes);
  }

  class DistributedCache<V> {
    const hasher: HashRing.ConsistentHashing
    var caches: map<string, Table<V>>

    ghost predicate Valid()
      reads this, hasher
    {
      hasher.Valid()
    }

    /** Every node the ring can route to has a table. Every operation keeps
        this, so the "not available" error of set and get never occurs. */
    ghost predicate Consistent()
      reads this, hasher
    {
      HashRing.Nodes(hasher.ring) <= caches.Keys
    }

    /** A ring of the given nodes with the default replica count, and an
        empty table for each of them. */
    constructor (nodes: seq<string>, md5: string -> RingMath.HexDigest)
      ensures Valid() && Consistent() && fresh(hasher)
      ensures hasher.cfg == HashRing.Config(HashRing.DefaultReplicas, md5)
      ensures hasher.ring == HashRing.AddedAll(hasher.cfg, map[], nodes)
      ensures forall n :: n in caches <==> n in nodes
      ensures forall n :: n in caches ==> caches[n] == map[]
    {
      var tables: map<string, Table<V>> := map[];
      var i := 0;
      while i < |nodes|
        invariant 0 <= i <= |nodes|
        invariant forall n :: n in tables <==> n in nodes[..i]
        invariant forall n :: n in tables ==> tables[n] == map[]
      {
        assert nodes[..i + 1] == nodes[..i] + [nodes[i]];
        tables := tables[nodes[i] := map[]];
        i := i + 1;
      }
      assert nodes[..i] == nodes;
      var ring := new HashRing.ConsistentHashing(nodes, None, md5);
      hasher := ring;
      TablesCoverRing(ring.cfg, nodes, tables);
      caches := tables;
    }

    /** Stores the value, expiring ttl seconds from now, in the table of the
        node the ring routes the key to. */
    method Set(key: string, value: V, ttl: Option<int>, now: int) returns (r: Result<SetReply<V>, CacheError>)
      requires Valid()
      modifies this
      ensures Valid()
      ensures hasher.ring == map[] ==> r == Err(EmptyRing) && caches == old(caches)
      ensures hasher.ring != map[] ==>
                var node := hasher.Owner(key);
                if node in old(caches) then
                  && r == Ok(SetReply(node, key, value))
                  && caches == old(caches)[node := old(caches)[node][key := Entry(value, ExpiresAt(now, ttl))]]
                else
                  r == Err(NodeUnavailable(node)) && caches == old(caches)
      ensures old(Consistent()) ==> Consistent() && (r.Err? ==> r.error == EmptyRing)
    {
      var owner := hasher.GetNode(key);
      if owner.Err? {
        return Err(EmptyRing);
      }
      var node := owner.value;
      if node !in caches {
        return Err(NodeUnavailable(node));
      }
      caches := caches[node := caches[node][key := Entry(value, ExpiresAt(now, ttl))]];
      return Ok(SetReply(node, key, value));
    }

    /** Reads the value stored for the key in the table of the node the
        ring routes the key to; a stale entry is deleted and reads as
        absent. */
    method Get(key: string, now: int) returns (r: Result<Option<V>, CacheError>)
      requires Valid()
      modifies this
      ensures Valid()
      ensures hasher.ring == map[] ==> r == Err(EmptyRing) && caches == old(caches)
      ensures hasher.ring != map[] ==>
                var node := hasher.Owner(key);
                if node !in old(caches) then
                  r == Err(NodeUnavailable(node)) && caches == old(caches)
                else if key !in old(caches)[node] then
                  r == Ok(None) && caches == old(caches)
                else if Expired(old(caches)[node][key], now) then
                  r == Ok(None) && caches == old(caches)[node := old(caches)[node] - {key}]
                else
                  r == Ok(Some(old(caches)[node][key].value)) && caches == old(caches)
      ensures old(Consistent()) ==> Consistent() && (r.Err? ==> r.error == EmptyRing)
    {
      var owner := hasher.GetNode(key);
      if owner.Err? {
        return Err(EmptyRing);
      }
      var node := owner.value;
      if node !in caches {
        return Err(NodeUnavailable(node));
      }
      var table := caches[node];
      if key !in table {
        return Ok(None);
      }
      var data := table[key];
      if Expired(data, now) {
        caches := caches[node := table - {key}];
        return Ok(None);
      }
      return Ok(Some(data.value));
    }

    /** Puts the node on the ring and gives it a fresh, empty table (an
        existing table of that name is replaced); no key moves. Returns the
        nodes now on the ring. */
    method AddNode(node: string) returns (nodes: seq<string>)
      requires Valid()
      modifies this, hasher
      ensures Valid()
      ensures hasher.ring == HashRing.AddedRing(hasher.cfg, old(hasher.ring), node)
      ensures caches == old(caches)[node := map[]]
      ensures forall i, j :: 0 <= i < j < |nodes| ==> nodes[i] != nodes[j]
      ensures forall n :: n in nodes <==> n in HashRing.Nodes(hasher.ring)
      ensures node in nodes
      ensures old(Consistent()) ==> Consistent()
    {
      HashRing.AddKeepsOwnPositions(hasher.cfg, hasher.ring, node);
      hasher.AddNode(node);
      caches := caches[node := map[]];
      nodes := hasher.GetAllNodes();
    }

    /** Takes the node off the ring and discards its table with every entry
        in it; no key moves. Returns the nodes now on the ring. */
    method RemoveNode(node: string) returns (nodes: seq<string>)
      requires Valid()
      modifies this, hasher
      ensures Valid()
      ensures hasher.ring == HashRing.RemovedRing(hasher.cfg, old(hasher.ring), node)
      ensures caches == old(caches) - {node}
      ensures forall i, j :: 0 <= i < j < |nodes| ==> nodes[i] != nodes[j]
      ensures forall n :: n in nodes <==> n in HashRing.Nodes(hasher.ring)
      ensures node !in nodes
      ensures old(Consistent()) ==> Consistent()
    {
      HashRing.RemoveDropsNode(hasher.cfg, hasher.ring, node);
      hasher.RemoveNode(node);
      caches := caches - {node};
      nodes := hasher.GetAllNodes();
    }

    /** The entry count of every table, stale entries not yet read included,
        and their sum. The table of a node named `__proto__` is counted in
        the sum but gets no entry of its own. */
    method GetStats() returns (stats: Stats)
      ensures stats.nodes == TableSizes(caches) - {ProtoKey}
      ensures stats.totalKeys == Total(TableSizes(caches))
    {
      var nodes: map<string, nat> := map[];
      ghost var counted: map<string, nat> := map[];
      var totalKeys: nat := 0;
      var rest := caches.Keys;
      while rest != {}
        invariant rest <= caches.Keys
        invariant counted == TableSizes(caches) - rest
        invariant nodes == counted - {ProtoKey}
        invariant totalKeys == Total(counted)
        decreases rest
      {
        var n :| n in rest;
        CountOneTable(caches, counted, nodes, n);
        UncoverOne(TableSizes(caches), rest, n);
        counted := counted[n := |caches[n]|];
        if n != ProtoKey {
          nodes := nodes[n := |caches[n]|];
        }
        totalKeys := totalKeys + |caches[n]|;
        rest := rest - {n};
      }
      assert TableSizes(caches) - {} == TableSizes(caches);
      stats := Stats(nodes, totalKeys);
    }
  }

  /** With the ring left as it is, a value set with a missing or
      non-negative ttl is read back at the same instant, and one set with a
      negative ttl is already stale: the read evicts it and finds nothing. */
  method SetThenGet<V>(c: DistributedCache<V>, key: string, value: V, ttl: Option<int>, now: int)
    returns (r: Result<Option<V>, CacheError>)
    requires c.Valid() && c.Consistent()
    modifies c
    ensures c.hasher.ring == map[] <==> r == Err(EmptyRing)
    ensures c.hasher.ring != map[] && (ttl.None? || ttl.value >= 0) ==> r == Ok(Some(value))
    ensures c.hasher.ring != map[] && ttl.Some? && ttl.value < 0 ==> r == Ok(None)
  {
    var s := c.Set(key, value, ttl, now);
    r := c.Get(key, now);
  }
}
