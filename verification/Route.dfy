/** The consistent hasher and the route that rebuilds it on every change. */
module Routes {
  import opened Options
  import opened Sorting
  import opened HashRings

  class ConsistentHasher {
    const c: Config
    var ring: seq<Entry>
    var destinations: seq<Destination>

    /** The ring is some sorted arrangement of the entries of its destinations. */
    ghost predicate Valid() reads this {
      Ring(ring) && multiset(ring) == multiset(Entries(c, destinations))
    }

    constructor (c: Config, destinations: seq<Destination>)
      requires HasRoom(c, destinations)
      ensures Valid() && this.c == c && this.destinations == destinations
    {
      this.c := c;
      ring, this.destinations := [], [];
      new;
      for i := 0 to |destinations|
        invariant Valid() && this.destinations == destinations[..i]
      {
        HasRoomPrefix(c, destinations, i);
        SamePositions(ring, Entries(c, this.destinations));
        AddDestination(destinations[i]);
      }
    }

    method AddDestination(d: Destination)
      requires Valid() && (c.withFix ==> |Positions(ring)| < SLOTS)
      modifies this
      ensures Valid() && destinations == old(destinations) + [d]
    {
      var index := |destinations|;
      SamePositions(ring, Entries(c, destinations));
      EntriesSnoc(c, destinations, d);
      var added := NewEntries(d, index);
      EntryOrder();
      hide Entries, Replicas, Positions;
      destinations := destinations + [d];
      ring := Sort(ring + added, NotAfter());
    }

    /** One entry a replica. Probing looks at the ring as it was before this destination. */
    method NewEntries(d: Destination, index: nat) returns (added: seq<Entry>)
      requires c.withFix ==> |Positions(ring)| < SLOTS
      ensures added == Replicas(c, Positions(ring), d, index)
    {
      added := [];
      var i := 0;
      while i < c.replicaCount
        invariant i <= c.replicaCount && |added| == i
        invariant forall j: nat :: j < i ==> added[j] == Replica(c, Positions(ring), d, index, j)
      {
        hide FirstFree, Positions;
        var position := c.hash(ReplicaKey(d, i));
        if c.withFix {
          position := Probe(ring, position);
        }
        added := added + [Entry(position, Server(d.addr), d.instance, index)];
        i := i + 1;
      }
    }

    /** Binary search for the successor, wrapping around at the end. */
    method GetDestinationIndex(key: string) returns (index: nat)
      requires Valid() && ring != []
      ensures index == Lookup(ring, c.hash(key))
      ensures Owns(ring, c.hash(key), index)
    {
      var position := c.hash(key);
      var lo, hi := 0, |ring|;
      while lo < hi
        invariant 0 <= lo <= hi <= |ring|
        invariant forall k :: 0 <= k < lo ==> ring[k].position < position
        invariant forall k :: hi <= k < |ring| ==> ring[k].position >= position
      {
        var mid := (lo + hi) / 2;
        if ring[mid].position < position {
          forall k | 0 <= k <= mid
            ensures ring[k].position < position
          {
            RingPositions(ring, k, mid);
          }
          lo := mid + 1;
        } else {
          forall k | mid <= k < |ring|
            ensures ring[k].position >= position
          {
            RingPositions(ring, mid, k);
          }
          hi := mid;
        }
      }
      ScanFinds(ring, position, 0, lo);
      ScanIsNearest(ring, position);
      index := ring[lo % |ring|].index;
    }
  }

  class Route {
    const c: Config
    var dests: seq<Destination>
    var hasher: ConsistentHasher

    ghost predicate Valid() reads this, hasher {
      hasher.Valid() && hasher.c == c && hasher.destinations == dests && HasRoom(c, dests)
    }

    constructor (c: Config, dests: seq<Destination>)
      requires HasRoom(c, dests)
      ensures Valid() && this.c == c && this.dests == dests && fresh(hasher)
    {
      this.c, this.dests := c, dests;
      hasher := new ConsistentHasher(c, dests);
    }

    /** The configuration is replaced by one with a ring built from scratch. */
    method Add(d: Destination)
      requires Valid() && HasRoom(c, dests + [d])
      modifies this
      ensures Valid() && dests == old(dests) + [d] && fresh(hasher)
    {
      dests := dests + [d];
      hasher := new ConsistentHasher(c, dests);
    }

    method DelDestination(index: nat) returns (ok: bool)
      requires Valid() && (index < |dests| ==> HasRoom(c, dests[..index] + dests[index + 1..]))
      modifies this
      ensures Valid() && ok == (index < |old(dests)|)
      ensures dests == if ok then old(dests)[..index] + old(dests)[index + 1..] else old(dests)
      ensures hasher == old(hasher) || fresh(hasher)
    {
      if index >= |dests| {
        return false;
      }
      dests := dests[..index] + dests[index + 1..];
      hasher := new ConsistentHasher(c, dests);
      ok := true;
    }

    /** The destination for a metric line: the owner of the name before the first space. A line
        without a name is not dispatched. */
    method Dispatch(buf: string) returns (target: Option<nat>)
      requires Valid() && hasher.ring != []
      ensures (' ' !in buf || buf[0] == ' ') <==> target.None?
      ensures forall n :: 0 < n < |buf| && buf[n] == ' ' && ' ' !in buf[..n] ==>
                target == Some(Lookup(hasher.ring, c.hash(buf[..n]))) &&
                Owns(hasher.ring, c.hash(buf[..n]), target.value)
    {
      var pos := 0;
      while pos < |buf| && buf[pos] != ' '
        invariant 0 <= pos <= |buf| && ' ' !in buf[..pos]
      {
        pos := pos + 1;
      }
      if pos < |buf| && pos > 0 {
        forall n | 0 < n < |buf| && buf[n] == ' ' && ' ' !in buf[..n]
          ensures n == pos
        {
        }
        var index := hasher.GetDestinationIndex(buf[..pos]);
        return Some(index);
      }
      return None;
    }
  }

  /** Growing a route by one destination sends every key where it went before, or to the new one. */
  method AddKeepsOwners(r: Route, d: Destination, key: string) returns (before: nat, after: nat)
    requires r.Valid() && r.hasher.ring != [] && HasRoom(r.c, r.dests + [d])
    requires Determined(Entries(r.c, r.dests))
    modifies r
    ensures r.Valid() && r.dests == old(r.dests) + [d]
    ensures after == before || after == |old(r.dests)|
  {
    before := r.hasher.GetDestinationIndex(key);
    ghost var was := r.hasher.ring;
    EntriesSnoc(r.c, r.dests, d);
    hide Determined, Ring;
    r.Add(d);
    SameEntries(was, Entries(r.c, old(r.dests)));
    SameEntries(r.hasher.ring, Entries(r.c, r.dests));
    after := r.hasher.GetDestinationIndex(key);
    MinimalDisruption(r.c, old(r.dests), d, was, r.hasher.ring, r.c.hash(key));
  }

  /** Adding a destination and removing it again restores every lookup. */
  method AddThenDelete(r: Route, d: Destination, key: string) returns (before: nat, after: nat)
    requires r.Valid() && r.hasher.ring != [] && HasRoom(r.c, r.dests + [d])
    requires Determined(Entries(r.c, r.dests))
    modifies r
    ensures r.Valid() && r.dests == old(r.dests) && after == before
  {
    before := r.hasher.GetDestinationIndex(key);
    ghost var was := r.hasher.ring;
    hide Determined, Entries, Owns, Ring;
    r.Add(d);
    var n := |r.dests| - 1;
    assert r.dests[..n] + r.dests[n + 1..] == old(r.dests);
    var ok := r.DelDestination(n);
    SameEntries(was, Entries(r.c, r.dests));
    SameEntries(r.hasher.ring, Entries(r.c, r.dests));
    after := r.hasher.GetDestinationIndex(key);
    LookupDetermined(Entries(r.c, r.dests), was, r.hasher.ring, r.c.hash(key));
  }
}
