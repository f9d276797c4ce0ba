/** The consistent-hash ring. The hash of a key is an uninterpreted 16-bit value. */
module HashRings {
  import opened Decimals
  import opened Sorting

  type Position = x: int | 0 <= x < 65536

  const SLOTS := 65536

  datatype Destination = Destination(addr: string, instance: string)

  datatype Entry = Entry(position: Position, hostname: string, instance: string, index: nat)

  // ---------------------------------------------------------------- the order

  predicate StringLess(a: string, b: string) {
    b != [] && (a == [] || a[0] < b[0] || (a[0] == b[0] && StringLess(a[1..], b[1..])))
  }

  predicate Less(a: Entry, b: Entry) {
    a.position < b.position ||
    (a.position == b.position && StringLess(a.hostname, b.hostname)) ||
    (a.position == b.position && a.hostname == b.hostname && StringLess(a.instance, b.instance))
  }

  function NotAfter(): (Entry, Entry) -> bool { (a, b) => !Less(b, a) }

  lemma {:induction false} StringOrder(a: string, b: string)
    ensures !(StringLess(a, b) && StringLess(b, a))
    ensures StringLess(a, b) || StringLess(b, a) || a == b
    decreases |a|
  {
    if a != [] && b != [] {
      StringOrder(a[1..], b[1..]);
      assert a == [a[0]] + a[1..] && b == [b[0]] + b[1..];
    }
  }

  lemma {:induction false} StringTransitive(a: string, b: string, c: string)
    requires StringLess(a, b) && StringLess(b, c)
    ensures StringLess(a, c)
  {
    if a != [] && a[0] == b[0] && b[0] == c[0] {
      StringTransitive(a[1..], b[1..], c[1..]);
    }
  }

  /** `a` is before `b` where they first differ, or ends there. */
  ghost predicate FirstDifference(a: string, b: string, k: nat) {
    k <= |a| && k < |b| && a[..k] == b[..k] && (k == |a| || a[k] < b[k])
  }

  lemma {:induction false} StringLessIff(a: string, b: string)
    ensures StringLess(a, b) <==> exists k: nat :: FirstDifference(a, b, k)
    decreases |a|
  {
    if StringLess(a, b) {
      if a == [] || a[0] < b[0] {
        assert FirstDifference(a, b, 0);
      } else {
        StringLessIff(a[1..], b[1..]);
        var k: nat :| FirstDifference(a[1..], b[1..], k);
        assert a[..k + 1] == [a[0]] + a[1..][..k] && b[..k + 1] == [b[0]] + b[1..][..k];
        assert FirstDifference(a, b, k + 1);
      }
    } else if exists k: nat :: FirstDifference(a, b, k) {
      var k: nat :| FirstDifference(a, b, k);
      NotLess(a, b, k);
      assert false;
    }
  }

  lemma {:induction false} NotLess(a: string, b: string, k: nat)
    requires FirstDifference(a, b, k)
    ensures StringLess(a, b)
    decreases k
  {
    if k > 0 {
      assert a[..k][0] == b[..k][0] && a[1..][..k - 1] == a[..k][1..] && b[1..][..k - 1] == b[..k][1..];
      NotLess(a[1..], b[1..], k - 1);
    }
  }

  /** Not being after is transitive, so entries can be sorted by it. */
  lemma EntryOrder()
    ensures TotalPreorder(NotAfter())
  {
    forall a: Entry, b: Entry
      ensures !Less(a, b) || !Less(b, a)
    {
      StringOrder(a.hostname, b.hostname);
      StringOrder(a.instance, b.instance);
    }
    forall a: Entry, b: Entry, c: Entry | !Less(b, a) && !Less(c, b)
      ensures !Less(c, a)
    {
      EntryTransitive(a, b, c);
    }
  }

  lemma EntryTransitive(a: Entry, b: Entry, c: Entry)
    requires !Less(b, a) && !Less(c, b)
    ensures !Less(c, a)
  {
    StringOrder(a.hostname, b.hostname);
    StringOrder(b.hostname, c.hostname);
    StringOrder(a.hostname, c.hostname);
    StringOrder(a.instance, b.instance);
    StringOrder(b.instance, c.instance);
    StringOrder(a.instance, c.instance);
    if StringLess(a.hostname, b.hostname) && StringLess(b.hostname, c.hostname) {
      StringTransitive(a.hostname, b.hostname, c.hostname);
    }
    if StringLess(a.instance, b.instance) && StringLess(b.instance, c.instance) {
      StringTransitive(a.instance, b.instance, c.instance);
    }
  }

  ghost predicate Ring(ring: seq<Entry>) { SortedBy(ring, NotAfter()) }

  lemma RingPositions(ring: seq<Entry>, i: nat, j: nat)
    requires Ring(ring) && i <= j < |ring|
    ensures ring[i].position <= ring[j].position
  {
    assert i < j ==> NotAfter()(ring[i], ring[j]);
  }

  // ---------------------------------------------------------------- probing

  function Positions(ring: seq<Entry>): set<Position> {
    set i | 0 <= i < |ring| :: ring[i].position
  }

  function After(p: Position, k: nat): Position { (p + k) % SLOTS }

  /** The first position at or after `p`, cyclically, that is not taken. */
  function FirstFree(taken: set<Position>, p: Position, fuel: nat): Position
    decreases fuel
  {
    if fuel == 0 || p !in taken then p else FirstFree(taken, After(p, 1), fuel - 1)
  }

  /** `q` is free, and everything from `p` up to it is taken. */
  ghost predicate IsFirstFree(taken: set<Position>, p: Position, q: Position) {
    q !in taken &&
    exists k: nat :: k < SLOTS && q == After(p, k) && forall j: nat :: j < k ==> After(p, j) in taken
  }

  function FirstSlots(n: nat): (slots: set<Position>)
    requires n <= SLOTS
    ensures |slots| == n && forall p: Position :: p in slots <==> p < n
  {
    if n == 0 then {} else FirstSlots(n - 1) + {n - 1}
  }

  /** Not every slot is taken, so going round once meets a free one. */
  lemma NotAllTaken(taken: set<Position>, p: Position)
    requires |taken| < SLOTS
    ensures exists k: nat :: k < SLOTS && After(p, k) !in taken
  {
    hide FirstSlots;
    var q := Outside(FirstSlots(SLOTS), taken);
    var k := (q - p) % SLOTS;
    assert After(p, k) == q;
  }

  lemma {:induction false} Outside<T>(a: set<T>, b: set<T>) returns (x: T)
    requires |b| < |a|
    ensures x in a && x !in b
  {
    x :| x in a;
    if x in b {
      x := Outside(a - {x}, b - {x});
    }
  }

  lemma {:induction false} FirstFreeSteps(taken: set<Position>, p: Position, k: nat, fuel: nat)
    requires k <= fuel && After(p, k) !in taken && forall j: nat :: j < k ==> After(p, j) in taken
    ensures FirstFree(taken, p, fuel) == After(p, k)
    decreases k
  {
    assert After(p, 0) == p;
    if k > 0 {
      var p1 := After(p, 1);
      forall j: nat | j < k
        ensures After(p1, j) == After(p, j + 1)
      {
      }
      assert After(p1, k - 1) == After(p, k);
      FirstFreeSteps(taken, p1, k - 1, fuel - 1);
    }
  }

  /** The probe, defined by walking, meets its specification whenever a slot is free. */
  lemma FirstFreeIsFirstFree(taken: set<Position>, p: Position)
    requires |taken| < SLOTS
    ensures IsFirstFree(taken, p, FirstFree(taken, p, SLOTS))
  {
    NotAllTaken(taken, p);
    hide FirstFree;
    var k: nat :| k < SLOTS && After(p, k) !in taken;
    var least := LeastFree(taken, p, k);
    FirstFreeSteps(taken, p, least, SLOTS);
  }

  lemma {:induction false} LeastFree(taken: set<Position>, p: Position, k: nat) returns (least: nat)
    requires After(p, k) !in taken
    ensures least <= k && After(p, least) !in taken && forall j: nat :: j < least ==> After(p, j) in taken
  {
    if exists j: nat :: j < k && After(p, j) !in taken {
      var j: nat :| j < k && After(p, j) !in taken;
      least := LeastFree(taken, p, j);
    } else {
      least := k;
    }
  }

  lemma AfterSucc(p: Position, k: nat)
    ensures After(p, k + 1) == After(After(p, k), 1)
  {
  }

  /** The scan of the ring inside the probing loop. */
  method Occupied(ring: seq<Entry>, position: Position) returns (hit: bool)
    ensures hit <==> position in Positions(ring)
  {
    for i := 0 to |ring|
      invariant forall j :: 0 <= j < i ==> ring[j].position != position
    {
      if position == ring[i].position {
        return true;
      }
    }
    return false;
  }

  /** The probing loop: every time a ring entry sits on the position, move on and start over. */
  method Probe(ring: seq<Entry>, start: Position) returns (position: Position)
    requires |Positions(ring)| < SLOTS
    ensures position == FirstFree(Positions(ring), start, SLOTS)
    ensures IsFirstFree(Positions(ring), start, position)
  {
    FirstFreeIsFirstFree(Positions(ring), start);
    ghost var taken := Positions(ring);
    assert After(start, 0) == start;
    hide FirstFree, Positions, After;
    ghost var k: nat :| k < SLOTS && FirstFree(taken, start, SLOTS) == After(start, k) &&
                        (forall j: nat :: j < k ==> After(start, j) in taken);
    ghost var n: nat := 0;
    position := start;
    var hit := Occupied(ring, position);
    while hit
      invariant n <= k && position == After(start, n)
      invariant hit <==> position in taken
      decreases k - n
    {
      AfterSucc(start, n);
      position := Increment(position);
      n := n + 1;
      hit := Occupied(ring, position);
    }
  }

  /** Addition on uint16. */
  function Increment(p: Position): (r: Position)
    ensures r == After(p, 1)
  {
    if p == SLOTS - 1 then 0 else p + 1
  }

  // ---------------------------------------------------------------- building a ring

  datatype Config = Config(replicaCount: nat, withFix: bool, hash: string -> Position)

  /** The host part of an address. */
  function Server(addr: string): (host: string)
    ensures host <= addr && ':' !in host && (|host| < |addr| ==> addr[|host|] == ':')
  {
    if addr == [] || addr[0] == ':' then [] else [addr[0]] + Server(addr[1..])
  }

  function ReplicaKey(d: Destination, i: nat): string {
    "('" + Server(d.addr) + "', " +
    (if d.instance != "" then "'" + d.instance + "'" else "None") + "):" + Itoa(i)
  }

  /** The key of a replica, for one instance and for none. */
  lemma ReplicaKeyFormat()
    ensures ReplicaKey(Destination("h:2003", "a"), 0) == "('h', 'a'):0"
    ensures ReplicaKey(Destination("h:2003", ""), 12) == "('h', None):12"
  {
    assert Server("h:2003") == "h" by {
      assert "h:2003"[1..] == ":2003";
    }
    assert Itoa(12) == Itoa(1) + "2";
  }

  /** Where a string is split at the last colon, the parts are determined. */
  lemma LastColon(a: string, x: string, b: string, y: string)
    requires ':' !in x && ':' !in y && a + ":" + x == b + ":" + y
    ensures a == b && x == y
  {
    var s, t := a + ":" + x, b + ":" + y;
    assert s[|a|] == ':' && forall k :: |a| < k < |s| ==> s[k] == x[k - |a| - 1];
    assert t[|b|] == ':' && forall k :: |b| < k < |t| ==> t[k] == y[k - |b| - 1];
    assert |a| == |b|;
    assert s[..|a|] == a && t[..|b|] == b && s[|a| + 1..] == x && t[|b| + 1..] == y;
  }

  /** The same for the first quote. */
  lemma FirstQuote(a: string, x: string, b: string, y: string)
    requires '\'' !in a && '\'' !in b && a + "'" + x == b + "'" + y
    ensures a == b && x == y
  {
    var s, t := a + "'" + x, b + "'" + y;
    assert s[|a|] == '\'' && forall k :: 0 <= k < |a| ==> s[k] == a[k];
    assert t[|b|] == '\'' && forall k :: 0 <= k < |b| ==> t[k] == b[k];
    assert |a| == |b|;
    assert s[..|a|] == a && t[..|b|] == b && s[|a| + 1..] == x && t[|b| + 1..] == y;
  }

  function InstanceText(d: Destination): string { if d.instance != "" then "'" + d.instance + "'" else "None" }

  lemma ReplicaKeyParts(d: Destination, i: nat)
    ensures ReplicaKey(d, i) == "('" + (Server(d.addr) + "'" + (", " + InstanceText(d) + ")")) + ":" + Itoa(i)
    ensures ':' !in Itoa(i)
  {
    ItoaParses(i);
    hide Itoa, Server;
    assert ReplicaKey(d, i) ==
           "('" + Server(d.addr) + "', " + InstanceText(d) + "):" + Itoa(i);
  }

  /** Keys of different replicas differ. Keys of different servers do, too, unless a quote is in them. */
  lemma ReplicaKeyInjective(d: Destination, i: nat, e: Destination, j: nat)
    requires ReplicaKey(d, i) == ReplicaKey(e, j)
    ensures i == j
    ensures '\'' !in Server(d.addr) + d.instance && '\'' !in Server(e.addr) + e.instance ==> SameServer(d, e)
  {
    var a, b := Server(d.addr) + "'" + (", " + InstanceText(d) + ")"), Server(e.addr) + "'" + (", " + InstanceText(e) + ")");
    ReplicaKeyParts(d, i);
    ReplicaKeyParts(e, j);
    ItoaParses(i);
    ItoaParses(j);
    hide Itoa, Server, ReplicaKey, InstanceText;
    LastColon("('" + a, Itoa(i), "('" + b, Itoa(j));
    assert ("('" + a)[2..] == a && ("('" + b)[2..] == b;
    if '\'' !in Server(d.addr) + d.instance && '\'' !in Server(e.addr) + e.instance {
      FirstQuote(Server(d.addr), ", " + InstanceText(d) + ")", Server(e.addr), ", " + InstanceText(e) + ")");
      SameInstance(d, e);
    }
  }

  lemma SameInstance(d: Destination, e: Destination)
    requires ", " + InstanceText(d) + ")" == ", " + InstanceText(e) + ")"
    ensures d.instance == e.instance
  {
    var s, t := ", " + InstanceText(d) + ")", ", " + InstanceText(e) + ")";
    assert s[2..|s| - 1] == InstanceText(d) && t[2..|t| - 1] == InstanceText(e);
    if d.instance != "" && e.instance != "" {
      assert InstanceText(d)[1..|d.instance| + 1] == d.instance;
      assert InstanceText(e)[1..|e.instance| + 1] == e.instance;
    } else {
      assert InstanceText(d)[0] == InstanceText(e)[0];
    }
  }

  /** The key depends on host and instance alone. */
  lemma ReplicaKeyOfServer(d: Destination, e: Destination, i: nat)
    requires SameServer(d, e)
    ensures ReplicaKey(d, i) == ReplicaKey(e, i)
  {
  }

  function Replica(c: Config, taken: set<Position>, d: Destination, index: nat, i: nat): Entry {
    var p := c.hash(ReplicaKey(d, i));
    Entry(if c.withFix then FirstFree(taken, p, SLOTS) else p, Server(d.addr), d.instance, index)
  }

  function Replicas(c: Config, taken: set<Position>, d: Destination, index: nat): seq<Entry> {
    seq(c.replicaCount, i requires 0 <= i => Replica(c, taken, d, index, i))
  }

  /** The hash tells the keys of a destination's replicas apart. */
  ghost predicate Separates(c: Config, d: Destination) {
    forall i, j :: 0 <= i < j < c.replicaCount && ReplicaKey(d, i) != ReplicaKey(d, j) ==>
                     c.hash(ReplicaKey(d, i)) != c.hash(ReplicaKey(d, j))
  }

  /** Without the fix, a destination takes as many positions as it has replicas, if the hash separates
      their keys. */
  lemma ReplicasSpread(c: Config, taken: set<Position>, d: Destination, index: nat)
    requires !c.withFix && Separates(c, d)
    ensures |Positions(Replicas(c, taken, d, index))| == c.replicaCount
  {
    var rs := Replicas(c, taken, d, index);
    forall i, j | 0 <= i < j < |rs|
      ensures rs[i].position != rs[j].position
    {
      if ReplicaKey(d, i) == ReplicaKey(d, j) {
        ReplicaKeyInjective(d, i, d, j);
      }
    }
    DistinctPositions(rs);
  }

  lemma {:induction false} DistinctPositions(ring: seq<Entry>)
    requires forall i, j :: 0 <= i < j < |ring| ==> ring[i].position != ring[j].position
    ensures |Positions(ring)| == |ring|
  {
    if ring != [] {
      var n := |ring| - 1;
      DistinctPositions(ring[..n]);
      assert Positions(ring) == Positions(ring[..n]) + {ring[n].position};
    }
  }

  /** The entries of a list of destinations. They depend on the list alone, not on how the ring
      happened to be sorted between additions. */
  function Entries(c: Config, ds: seq<Destination>): seq<Entry> {
    if ds == [] then []
    else
      var n := |ds| - 1;
      var before := Entries(c, ds[..n]);
      before + Replicas(c, Positions(before), ds[n], n)
  }

  lemma EntriesSnoc(c: Config, ds: seq<Destination>, d: Destination)
    ensures Entries(c, ds + [d]) ==
            Entries(c, ds) + Replicas(c, Positions(Entries(c, ds)), d, |ds|)
  {
    assert (ds + [d])[..|ds|] == ds;
  }

  lemma SamePositions(a: seq<Entry>, b: seq<Entry>)
    requires multiset(a) == multiset(b)
    ensures Positions(a) == Positions(b)
  {
    forall i | 0 <= i < |a|
      ensures a[i].position in Positions(b)
    {
      assert a[i] in multiset(b);
      var j :| 0 <= j < |b| && b[j] == a[i];
    }
    forall i | 0 <= i < |b|
      ensures b[i].position in Positions(a)
    {
      assert b[i] in multiset(a);
      var j :| 0 <= j < |a| && a[j] == b[i];
    }
  }

  /** Entries on the same position belong to the same destination. */
  ghost predicate OneOwner(ring: seq<Entry>) {
    forall e, f :: e in ring && f in ring && e.position == f.position ==> e.index == f.index
  }

  /** Probing terminates at every addition: the ring never occupies all slots beforehand. */
  ghost predicate HasRoom(c: Config, ds: seq<Destination>) {
    c.withFix ==> forall k :: 0 <= k < |ds| ==> |Positions(Entries(c, ds[..k]))| < SLOTS
  }

  lemma HasRoomPrefix(c: Config, ds: seq<Destination>, n: nat)
    requires HasRoom(c, ds) && n <= |ds|
    ensures HasRoom(c, ds[..n])
    ensures c.withFix && n < |ds| ==> |Positions(Entries(c, ds[..n]))| < SLOTS
  {
    forall k | 0 <= k < n
      ensures ds[..n][..k] == ds[..k]
    {
    }
  }

  lemma {:induction false} EntriesLength(c: Config, ds: seq<Destination>)
    ensures |Entries(c, ds)| == c.replicaCount * |ds|
  {
    if ds != [] {
      EntriesLength(c, ds[..|ds| - 1]);
      assert c.replicaCount * |ds| == c.replicaCount * (|ds| - 1) + c.replicaCount;
    }
  }

  lemma {:induction false} PositionsSize(ring: seq<Entry>)
    ensures |Positions(ring)| <= |ring|
  {
    if ring != [] {
      var n := |ring| - 1;
      PositionsSize(ring[..n]);
      assert Positions(ring) == Positions(ring[..n]) + {ring[n].position};
    }
  }

  lemma Scale(n: nat, k: nat, m: nat)
    requires k <= m
    ensures n * k <= n * m
  {
  }

  /** Counting replicas is enough to see that there is room. */
  lemma RoomByCount(c: Config, ds: seq<Destination>)
    requires c.replicaCount * (|ds| - 1) < SLOTS
    ensures HasRoom(c, ds)
  {
    hide Entries, Positions;
    forall k | 0 <= k < |ds|
      ensures |Positions(Entries(c, ds[..k]))| < SLOTS
    {
      EntriesLength(c, ds[..k]);
      PositionsSize(Entries(c, ds[..k]));
      Scale(c.replicaCount, k, |ds| - 1);
    }
  }

  /** With the fix, no two destinations ever share a position, however many are added. */
  lemma {:induction false} EntriesOneOwner(c: Config, ds: seq<Destination>)
    requires c.withFix && HasRoom(c, ds)
    ensures OneOwner(Entries(c, ds))
  {
    if ds != [] {
      var n := |ds| - 1;
      HasRoomPrefix(c, ds, n);
      EntriesOneOwner(c, ds[..n]);
      var before := Entries(c, ds[..n]);
      var added := Replicas(c, Positions(before), ds[n], n);
      forall e | e in added
        ensures e.index == n && e.position !in Positions(before)
      {
        var i :| 0 <= i < |added| && added[i] == e;
        FirstFreeIsFirstFree(Positions(before), c.hash(ReplicaKey(ds[n], i)));
      }
      forall e | e in before
        ensures e.position in Positions(before)
      {
      }
      hide FirstFree, Replicas, Positions;
    }
  }

  // ---------------------------------------------------------------- lookup

  /** How far round the ring `q` lies from `p`. */
  function Distance(p: Position, q: Position): nat { (q - p) % SLOTS }

  /** Destination `d` has an entry that no other entry comes before, going round from `p`. */
  ghost predicate Owns(ring: seq<Entry>, p: Position, d: nat) {
    exists e :: e in ring && e.index == d && forall f :: f in ring ==> Distance(p, e.position) <= Distance(p, f.position)
  }

  /** The linear scan for the successor. */
  function Scan(ring: seq<Entry>, p: Position, from: nat): (i: nat)
    requires from <= |ring|
    ensures from <= i <= |ring|
    ensures forall j :: from <= j < i ==> ring[j].position < p
    ensures i < |ring| ==> ring[i].position >= p
    decreases |ring| - from
  {
    if from == |ring| || ring[from].position >= p then from else Scan(ring, p, from + 1)
  }

  lemma {:induction false} ScanFinds(ring: seq<Entry>, p: Position, from: nat, i: nat)
    requires from <= i <= |ring| && (i < |ring| ==> ring[i].position >= p)
    requires forall j :: from <= j < i ==> ring[j].position < p
    ensures Scan(ring, p, from) == i
    decreases i - from
  {
    if from < i {
      ScanFinds(ring, p, from + 1, i);
    }
  }

  lemma DistanceIs(p: Position, q: Position)
    ensures Distance(p, q) == if q >= p then q - p else q - p + SLOTS
  {
  }

  lemma WrappedIndex(i: nat, n: nat)
    requires 0 < n && i <= n
    ensures i % n == if i == n then 0 else i
  {
  }

  /** The destination of a key at `p`. */
  function Lookup(ring: seq<Entry>, p: Position): nat
    requires ring != []
  {
    ring[Scan(ring, p, 0) % |ring|].index
  }

  /** Nothing in the ring is closer to `p`, going round, than position `q`. */
  ghost predicate Nearest(ring: seq<Entry>, p: Position, q: Position) {
    forall f :: f in ring ==> Distance(p, q) <= Distance(p, f.position)
  }

  /** Among the entries on its position, nothing comes before `e`. */
  ghost predicate Leads(ring: seq<Entry>, e: Entry) {
    e in ring && forall f :: f in ring && f.position == e.position ==> !Less(f, e)
  }

  /** In a sorted ring the successor, wrapped around, is on the nearest position, and first there. */
  lemma ScanIsNearest(ring: seq<Entry>, p: Position)
    requires Ring(ring) && ring != []
    ensures var e := ring[Scan(ring, p, 0) % |ring|]; Nearest(ring, p, e.position) && Leads(ring, e)
    ensures Owns(ring, p, Lookup(ring, p))
  {
    var i := Scan(ring, p, 0);
    WrappedIndex(i, |ring|);
    var w := i % |ring|;
    hide Distance;
    forall f | f in ring
      ensures Distance(p, ring[w].position) <= Distance(p, f.position)
      ensures f.position == ring[w].position ==> !Less(f, ring[w])
    {
      var j: nat :| j < |ring| && ring[j] == f;
      StringOrder(f.hostname, f.hostname);
      StringOrder(f.instance, f.instance);
      if w <= j {
        RingPositions(ring, w, j);
        assert w < j ==> NotAfter()(ring[w], ring[j]);
      }
      DistanceIs(p, ring[w].position);
      DistanceIs(p, f.position);
    }
    assert ring[w] in ring;
  }

  /** What leads a position has the first host there, and among entries of that host the first
      instance. */
  lemma LeaderIsFirst(ring: seq<Entry>, e: Entry, f: Entry)
    requires Leads(ring, e) && f in ring && f.position == e.position
    ensures e.hostname == f.hostname || StringLess(e.hostname, f.hostname)
    ensures e.hostname == f.hostname ==> e.instance == f.instance || StringLess(e.instance, f.instance)
  {
    StringOrder(e.hostname, f.hostname);
    StringOrder(e.instance, f.instance);
  }

  lemma SameDistance(p: Position, q: Position, r: Position)
    requires Distance(p, q) == Distance(p, r)
    ensures q == r
  {
  }

  // ---------------------------------------------------------------- ties

  /** A ring that sorting a list of entries may give. */
  ghost predicate Arrangement(ring: seq<Entry>, entries: seq<Entry>) {
    Ring(ring) && multiset(ring) == multiset(entries)
  }

  lemma SameEntries(ring: seq<Entry>, entries: seq<Entry>)
    requires multiset(ring) == multiset(entries)
    ensures |ring| == |entries| && forall e :: e in ring <==> e in entries
  {
    assert |ring| == |multiset(ring)| == |entries|;
    assert forall e :: e in ring <==> e in multiset(ring);
    assert forall e :: e in entries <==> e in multiset(entries);
  }

  /** All entries that may come first on a position belong to one destination. */
  ghost predicate Determined(entries: seq<Entry>) {
    forall e, f :: Leads(entries, e) && Leads(entries, f) && e.position == f.position ==> e.index == f.index
  }

  /** No lookup depends on how ties were sorted. */
  ghost predicate LookupsAgree(entries: seq<Entry>)
    requires entries != []
  {
    forall a, b, p :: Arrangement(a, entries) && Arrangement(b, entries) && a != [] && b != [] ==>
                        Lookup(a, p) == Lookup(b, p)
  }

  /** Two entries that a lookup from `p` may end on belong to the same destination. */
  lemma SameLookup(entries: seq<Entry>, e: Entry, f: Entry, p: Position)
    requires Determined(entries) && Leads(entries, e) && Leads(entries, f)
    requires Nearest(entries, p, e.position) && Nearest(entries, p, f.position)
    ensures e.index == f.index
  {
    SameDistance(p, e.position, f.position);
  }

  lemma LookupDetermined(entries: seq<Entry>, a: seq<Entry>, b: seq<Entry>, p: Position)
    requires Arrangement(a, entries) && Arrangement(b, entries) && a != [] && b != [] && Determined(entries)
    ensures Lookup(a, p) == Lookup(b, p)
  {
    SameEntries(a, entries);
    SameEntries(b, entries);
    ScanIsNearest(a, p);
    ScanIsNearest(b, p);
    SameLookup(entries, a[Scan(a, p, 0) % |a|], b[Scan(b, p, 0) % |b|], p);
  }

  /** Whatever leads the position nearest to `p` is what some arrangement finds there. */
  lemma LeaderIsFound(entries: seq<Entry>, e: Entry, p: Position) returns (ring: seq<Entry>)
    requires Leads(entries, e) && Nearest(entries, p, e.position)
    ensures Arrangement(ring, entries) && ring != [] && Lookup(ring, p) == e.index
  {
    var k;
    ring, k := LeaderFirst(entries, e);
    SameEntries(ring, entries);
    ScanIsNearest(ring, p);
    var i := Scan(ring, p, 0);
    WrappedIndex(i, |ring|);
    var f := ring[i % |ring|];
    SameDistance(p, e.position, f.position);
    DistanceIs(p, e.position);
    hide Less, Distance;
    if i < |ring| {
      RingPositions(ring, k, if k < i then i else k);
    }
  }

  /** Whatever leads its position comes first there in some arrangement. */
  lemma LeaderFirst(entries: seq<Entry>, e: Entry) returns (ring: seq<Entry>, k: nat)
    requires Leads(entries, e)
    ensures Arrangement(ring, entries) && k < |ring| && ring[k] == e
    ensures forall i :: 0 <= i < k ==> ring[i].position < e.position
  {
    var n: nat :| n < |entries| && entries[n] == e;
    var rest := entries[..n] + entries[n + 1..];
    assert entries == entries[..n] + [e] + entries[n + 1..];
    EntryOrder();
    SortedIsSorted(rest, NotAfter());
    var s := Sorted(rest, NotAfter());
    InsertSorted(e, s, NotAfter());
    ring := Insert(e, s, NotAfter());
    var lower, upper := InsertPlace(e, s, NotAfter());
    k := |lower|;
    SameEntries(ring, entries);
    forall i | 0 <= i < k
      ensures ring[i].position < e.position
    {
      assert ring[i] == lower[i] && ring[i] in ring && !NotAfter()(e, lower[i]);
    }
  }

  /** Lookups are determined exactly when, on every position, the entries that may come first belong
      to one destination. */
  lemma LookupsAgreeIff(entries: seq<Entry>)
    requires entries != []
    ensures LookupsAgree(entries) <==> Determined(entries)
  {
    if Determined(entries) {
      forall a, b, p | Arrangement(a, entries) && Arrangement(b, entries) && a != [] && b != []
        ensures Lookup(a, p) == Lookup(b, p)
      {
        LookupDetermined(entries, a, b, p);
      }
    } else {
      var e, f :| Leads(entries, e) && Leads(entries, f) && e.position == f.position && e.index != f.index;
      var p := e.position;
      DistanceIs(p, p);
      var a := LeaderIsFound(entries, e, p);
      var b := LeaderIsFound(entries, f, p);
      assert Lookup(a, p) != Lookup(b, p);
    }
  }

  /** With the fix lookups are determined, for any destinations. */
  lemma FixDetermines(c: Config, ds: seq<Destination>)
    requires c.withFix && HasRoom(c, ds)
    ensures Determined(Entries(c, ds))
  {
    EntriesOneOwner(c, ds);
  }

  /** The ring tells destinations apart by host and instance only. */
  predicate SameServer(d: Destination, e: Destination) {
    Server(d.addr) == Server(e.addr) && d.instance == e.instance
  }

  ghost predicate EntryOf(ds: seq<Destination>, e: Entry) {
    e.index < |ds| && e.hostname == Server(ds[e.index].addr) && e.instance == ds[e.index].instance
  }

  lemma {:induction false} EntriesBelong(c: Config, ds: seq<Destination>, e: Entry)
    requires e in Entries(c, ds)
    ensures EntryOf(ds, e)
  {
    var n := |ds| - 1;
    if e in Entries(c, ds[..n]) {
      EntriesBelong(c, ds[..n], e);
    }
  }

  /** Ties are between destinations on one host with one instance. */
  lemma TiesShareServer(c: Config, ds: seq<Destination>, e: Entry, f: Entry)
    requires Leads(Entries(c, ds), e) && Leads(Entries(c, ds), f) && e.position == f.position
    ensures e.index < |ds| && f.index < |ds| && SameServer(ds[e.index], ds[f.index])
  {
    EntriesBelong(c, ds, e);
    EntriesBelong(c, ds, f);
    StringOrder(e.hostname, f.hostname);
    StringOrder(e.instance, f.instance);
  }

  /** With or without the fix, it is enough that no two destinations share host and instance. */
  lemma DistinctServersDetermine(c: Config, ds: seq<Destination>)
    requires forall i, j :: 0 <= i < j < |ds| ==> !SameServer(ds[i], ds[j])
    ensures Determined(Entries(c, ds))
  {
    hide Entries, SameServer;
    forall e, f | Leads(Entries(c, ds), e) && Leads(Entries(c, ds), f) && e.position == f.position
      ensures e.index == f.index
    {
      TiesShareServer(c, ds, e, f);
      TiesShareServer(c, ds, f, e);
    }
  }

  /** Without the fix, destinations that share host and instance share every position. */
  lemma {:induction false} Twin(c: Config, ds: seq<Destination>, e: Entry, j: nat)
    requires !c.withFix && e in Entries(c, ds) && j < |ds|
    requires e.index < |ds| ==> SameServer(ds[e.index], ds[j])
    ensures e.(index := j) in Entries(c, ds)
  {
    EntriesBelong(c, ds, e);
    var i := ReplicaOf(c, ds, e);
    ReplicaIn(c, ds, j, i);
  }

  /** Without probing, an entry is some replica of its destination. */
  lemma {:induction false} ReplicaOf(c: Config, ds: seq<Destination>, e: Entry) returns (i: nat)
    requires !c.withFix && e in Entries(c, ds)
    ensures i < c.replicaCount && e.index < |ds| && e == Replica(c, {}, ds[e.index], e.index, i)
  {
    var n := |ds| - 1;
    var before := Entries(c, ds[..n]);
    if e in before {
      i := ReplicaOf(c, ds[..n], e);
    } else {
      var added := Replicas(c, Positions(before), ds[n], n);
      i :| 0 <= i < |added| && added[i] == e;
    }
  }

  lemma {:induction false} ReplicaIn(c: Config, ds: seq<Destination>, j: nat, i: nat)
    requires !c.withFix && j < |ds| && i < c.replicaCount
    ensures Replica(c, {}, ds[j], j, i) in Entries(c, ds)
    decreases |ds|
  {
    var n := |ds| - 1;
    if j < n {
      ReplicaIn(c, ds[..n], j, i);
    } else {
      var added := Replicas(c, Positions(Entries(c, ds[..n])), ds[n], n);
      assert added[i] == Replica(c, {}, ds[j], j, i);
    }
  }

  /** Without the fix, lookups are determined exactly when no destination that leads some position
      shares its host and instance with another one. */
  lemma UnfixedDeterminedIff(c: Config, ds: seq<Destination>)
    requires !c.withFix
    ensures Determined(Entries(c, ds)) <==>
            forall e, j :: Leads(Entries(c, ds), e) && 0 <= j < |ds| && e.index < |ds| && j != e.index ==>
                             !SameServer(ds[e.index], ds[j])
  {
    var es := Entries(c, ds);
    hide Entries, SameServer;
    forall e, j | Leads(es, e) && 0 <= j < |ds| && e.index < |ds| && j != e.index && SameServer(ds[e.index], ds[j])
      ensures !Determined(es)
    {
      Twin(c, ds, e, j);
      TwinLeads(es, e, e.(index := j));
    }
    forall e, f | Leads(es, e) && Leads(es, f) && e.position == f.position
      ensures e.index < |ds| && f.index < |ds| && SameServer(ds[e.index], ds[f.index])
    {
      TiesShareServer(c, ds, e, f);
    }
  }

  /** Of two destinations that share host and instance, without the fix, either can be what a lookup
      from anywhere finds, depending on how the ring was sorted. */
  lemma TwinsTie(c: Config, ds: seq<Destination>, p: Position) returns (a: seq<Entry>, b: seq<Entry>)
    requires !c.withFix && c.replicaCount > 0 && |ds| == 2 && SameServer(ds[0], ds[1])
    ensures var es := Entries(c, ds);
            Arrangement(a, es) && Arrangement(b, es) && a != [] && b != [] && Lookup(a, p) != Lookup(b, p)
  {
    var es := Entries(c, ds);
    ReplicaIn(c, ds, 0, 0);
    var e := SomeLeader(es, p);
    EntriesBelong(c, ds, e);
    var f := e.(index := 1 - e.index);
    Twin(c, ds, e, 1 - e.index);
    TwinLeads(es, e, f);
    hide Entries, Leads, Nearest, Arrangement, Lookup;
    a := LeaderIsFound(es, e, p);
    b := LeaderIsFound(es, f, p);
  }

  /** On the position nearest to `p`, something leads. */
  lemma SomeLeader(entries: seq<Entry>, p: Position) returns (e: Entry)
    requires entries != []
    ensures Leads(entries, e) && Nearest(entries, p, e.position)
  {
    EntryOrder();
    SortedIsSorted(entries, NotAfter());
    var ring := Sorted(entries, NotAfter());
    SameEntries(ring, entries);
    ScanIsNearest(ring, p);
    e := ring[Scan(ring, p, 0) % |ring|];
    hide Less, Distance, Sorted;
  }

  lemma TwinLeads(entries: seq<Entry>, e: Entry, f: Entry)
    requires Leads(entries, e) && f in entries && f == e.(index := f.index)
    ensures Leads(entries, f)
  {
  }

  /** Two destinations on one host, told apart by their ports alone, are such a case: without the fix
      every lookup depends on how the ring was sorted. */
  lemma TieOrderMatters(c: Config, h: string, p: Position) returns (a: seq<Entry>, b: seq<Entry>)
    requires !c.withFix && c.replicaCount > 0 && ':' !in h
    ensures var es := Entries(c, [Destination(h + ":1", ""), Destination(h + ":2", "")]);
            Arrangement(a, es) && Arrangement(b, es) && a != [] && b != [] && Lookup(a, p) != Lookup(b, p)
  {
    ServerOf(h, ":1");
    ServerOf(h, ":2");
    hide Entries, Server;
    a, b := TwinsTie(c, [Destination(h + ":1", ""), Destination(h + ":2", "")], p);
  }

  lemma {:induction false} ServerOf(h: string, port: string)
    requires ':' !in h && port != "" && port[0] == ':'
    ensures Server(h + port) == h
  {
    if h != "" {
      assert (h + port)[1..] == h[1..] + port;
      ServerOf(h[1..], port);
      assert h == [h[0]] + h[1..];
    } else {
      assert h + port == port;
    }
  }

  /** Minimal disruption: when a destination is added last and the ring is rebuilt, every position
      keeps its destination or goes to the new one, provided lookups were determined before. */
  lemma MinimalDisruption(c: Config, ds: seq<Destination>, d: Destination, before: seq<Entry>, after: seq<Entry>,
                          p: Position)
    requires Determined(Entries(c, ds)) && before != [] && after != []
    requires Arrangement(before, Entries(c, ds)) && Arrangement(after, Entries(c, ds + [d]))
    ensures Lookup(after, p) == Lookup(before, p) || Lookup(after, p) == |ds|
  {
    EntriesSnoc(c, ds, d);
    var kept, added := Entries(c, ds), Replicas(c, Positions(Entries(c, ds)), d, |ds|);
    assert forall e :: e in added ==> e.index == |ds|;
    SameEntries(before, kept);
    SameEntries(after, kept + added);
    ScanIsNearest(before, p);
    ScanIsNearest(after, p);
    hide Entries, Replicas, Less, Distance;
    var e := after[Scan(after, p, 0) % |after|];
    assert e in kept + added;
    if e in kept {
      SameLookup(kept, e, before[Scan(before, p, 0) % |before|], p);
    }
  }
}
