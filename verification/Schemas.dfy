/** Storage schemas: packed priorities, sorting, and the choice of a schema for a metric. */
module Schemas {
  import opened Options
  import opened Sorting

  const TWO_32 := 0x1_0000_0000
  const TWO_63 := 0x8000_0000_0000_0000
  const TWO_64 := 0x1_0000_0000_0000_0000

  /** Two's-complement reading of the low 64 bits. */
  function Wrap64(x: int): (r: int)
    ensures -TWO_63 <= r < TWO_63
  {
    (x + TWO_63) % TWO_64 - TWO_63
  }

  /** The priority as stored: shifted up, with the position in the file taken off, on int64. */
  function Pack(p: int, i: nat): int { Wrap64(Wrap64(p * 0x1_0000_0000) - i) }

  lemma WrapTwice(a: int, b: int)
    ensures Wrap64(Wrap64(a) - b) == Wrap64(a - b)
  {
    var k := (a + 0x8000_0000_0000_0000) / 0x1_0000_0000_0000_0000;
    assert Wrap64(a) == a - k * 0x1_0000_0000_0000_0000;
    assert Wrap64(a - b - k * 0x1_0000_0000_0000_0000) == Wrap64(a - b);
  }

  predicate Representable(p: int, i: nat) { -TWO_63 <= p * 0x1_0000_0000 - i < TWO_63 }

  /** Packing is exact exactly when the difference fits into 64 bits. */
  lemma PackExactIff(p: int, i: nat)
    ensures Pack(p, i) == p * 0x1_0000_0000 - i <==> Representable(p, i)
  {
    WrapTwice(p * 0x1_0000_0000, i);
  }

  /** Priorities that pack exactly, in files of at most 2^32 sections: everything from -2^31 + 1 to
      2^31 - 1, and -2^31 for the first section. */
  predicate InRange(p: int, i: nat) { Representable(p, i) && i < TWO_32 }

  /** For priorities in range, packed values order like priority first, position second. */
  lemma PackOrders(p: int, i: nat, q: int, j: nat)
    requires InRange(p, i) && InRange(q, j)
    ensures Pack(p, i) >= Pack(q, j) <==> p > q || (p == q && i <= j)
  {
    PackExactIff(p, i);
    PackExactIff(q, j);
  }

  /** Just outside the range, the second section already outranks everything. */
  lemma PackWraps()
    ensures Pack(-0x8000_0000, 1) == TWO_63 - 1
    ensures Pack(-0x8000_0000, 1) > Pack(0x7FFF_FFFF, 0)
  {
    PackExactIff(0x7FFF_FFFF, 0);
  }

  // ---------------------------------------------------------------- reading

  /** A section of the configuration file; absent keys read as the empty string. */
  datatype Section = Section(name: string, pattern: string, retentions: string, priority: string)

  datatype Schema = Schema(name: string, pattern: string, retentions: string, priority: int)

  datatype Error = EmptyPattern | BadPattern | BadRetentions | BadPriority

  datatype Result = Success(schemas: seq<Schema>) | Failure(section: nat, error: Error)

  /** The libraries behind the reader. */
  datatype Parsers = Parsers(
    compiles: string -> bool,               // regular expressions
    retentionsOk: string -> bool,           // retention definitions
    parseInt: string -> Option<int>)        // decimal numbers

  function PriorityOf(ps: Parsers, s: Section): Option<int> {
    if s.priority == "" then Some(0) else ps.parseInt(s.priority)
  }

  /** The first thing wrong with a section, if any. */
  function Problem(ps: Parsers, s: Section): Option<Error> {
    if s.pattern == "" then Some(EmptyPattern)
    else if !ps.compiles(s.pattern) then Some(BadPattern)
    else if !ps.retentionsOk(s.retentions) then Some(BadRetentions)
    else if PriorityOf(ps, s).None? then Some(BadPriority)
    else None
  }

  function SchemaOf(ps: Parsers, s: Section, i: nat): Schema
    requires PriorityOf(ps, s).Some?
  {
    Schema(s.name, s.pattern, s.retentions, Pack(PriorityOf(ps, s).value, i))
  }

  function HigherFirst(): (Schema, Schema) -> bool { (a: Schema, b: Schema) => a.priority >= b.priority }

  /** One schema per section, in the order of the file. A section that states no priority has 0. */
  ghost predicate InFileOrder(ps: Parsers, config: seq<Section>, all: seq<Schema>) {
    |all| == |config| &&
    forall i :: 0 <= i < |config| ==>
      all[i].name == config[i].name && all[i].pattern == config[i].pattern && all[i].retentions == config[i].retentions &&
      (config[i].priority == "" ==> all[i].priority == Pack(0, i)) &&
      (config[i].priority != "" ==>
         ps.parseInt(config[i].priority).Some? && all[i].priority == Pack(ps.parseInt(config[i].priority).value, i))
  }

  /** `schemas` is the file's sections, in some order that never puts a lower priority first. */
  ghost predicate IsReading(ps: Parsers, config: seq<Section>, schemas: seq<Schema>) {
    (forall i :: 0 <= i < |config| ==> Problem(ps, config[i]).None?) &&
    SortedBy(schemas, HigherFirst()) &&
    exists all :: InFileOrder(ps, config, all) && multiset(schemas) == multiset(all)
  }

  lemma FileOrderIs(ps: Parsers, config: seq<Section>, all: seq<Schema>, i: nat)
    requires i < |config| && Problem(ps, config[i]).None? && InFileOrder(ps, config, all)
    ensures all[i] == SchemaOf(ps, config[i], i)
  {
    hide Pack;
  }

  method ReadWhisperSchemas(ps: Parsers, config: seq<Section>) returns (r: Result)
    ensures r.Success? ==> IsReading(ps, config, r.schemas)
    ensures r.Failure? ==> r.section < |config| && Problem(ps, config[r.section]) == Some(r.error) &&
                           forall i :: 0 <= i < r.section ==> Problem(ps, config[i]).None?
  {
    var schemas: seq<Schema> := [];
    for i := 0 to |config|
      invariant forall k :: 0 <= k < i ==> Problem(ps, config[k]).None?
      invariant InFileOrder(ps, config[..i], schemas)
    {
      hide Pack;
      var section := config[i];
      if section.pattern == "" {
        return Failure(i, EmptyPattern);
      }
      if !ps.compiles(section.pattern) {
        return Failure(i, BadPattern);
      }
      if !ps.retentionsOk(section.retentions) {
        return Failure(i, BadRetentions);
      }
      var p := 0;
      if section.priority != "" {
        var parsed := ps.parseInt(section.priority);
        if parsed.None? {
          return Failure(i, BadPriority);
        }
        p := parsed.value;
      }
      schemas := schemas + [Schema(section.name, section.pattern, section.retentions, Pack(p, i))];
    }
    assert config[..|config|] == config;
    hide Pack, InFileOrder;
    var sorted := Sort(schemas, HigherFirst());
    assert multiset(sorted) == multiset(schemas);
    r := Success(sorted);
  }

  // ---------------------------------------------------------------- matching

  /** The first schema whose pattern matches. */
  method Match(schemas: seq<Schema>, matches: (string, string) -> bool, metric: string) returns (r: Option<Schema>)
    ensures r.None? ==> forall k :: 0 <= k < |schemas| ==> !matches(schemas[k].pattern, metric)
    ensures r.Some? ==> exists k :: 0 <= k < |schemas| && r.value == schemas[k] && matches(schemas[k].pattern, metric) &&
                                    forall j :: 0 <= j < k ==> !matches(schemas[j].pattern, metric)
  {
    for k := 0 to |schemas|
      invariant forall j :: 0 <= j < k ==> !matches(schemas[j].pattern, metric)
    {
      if matches(schemas[k].pattern, metric) {
        return Some(schemas[k]);
      }
    }
    return None;
  }

  /** Section `i` comes before section `j`: higher priority, or the same and earlier in the file. */
  ghost predicate Precedes(ps: Parsers, config: seq<Section>, i: nat, j: nat)
    requires i < |config| && j < |config|
    requires PriorityOf(ps, config[i]).Some? && PriorityOf(ps, config[j]).Some?
  {
    var p, q := PriorityOf(ps, config[i]).value, PriorityOf(ps, config[j]).value;
    p > q || (p == q && i <= j)
  }

  /** Every section has an entry among the schemas, and every entry comes from a section. */
  lemma Membership(ps: Parsers, config: seq<Section>, schemas: seq<Schema>)
    requires IsReading(ps, config, schemas)
    ensures forall i :: 0 <= i < |config| ==> SchemaOf(ps, config[i], i) in schemas
    ensures forall s :: s in schemas ==> exists i :: 0 <= i < |config| && s == SchemaOf(ps, config[i], i)
  {
    var all :| InFileOrder(ps, config, all) && multiset(schemas) == multiset(all);
    forall i | 0 <= i < |config|
      ensures all[i] == SchemaOf(ps, config[i], i)
    {
      FileOrderIs(ps, config, all, i);
    }
    hide Pack;
    forall i | 0 <= i < |config|
      ensures SchemaOf(ps, config[i], i) in schemas
    {
      assert all[i] in multiset(schemas);
    }
    forall s | s in schemas
      ensures exists i :: 0 <= i < |config| && s == SchemaOf(ps, config[i], i)
    {
      assert s in multiset(all);
      var i :| 0 <= i < |all| && all[i] == s;
    }
  }

  /** The schema chosen for a metric is that of the highest-priority matching section, and among
      equals of the earliest; there is none only if no section matches. */
  method Choose(ps: Parsers, config: seq<Section>, schemas: seq<Schema>, matches: (string, string) -> bool, metric: string)
    returns (r: Option<Schema>)
    requires IsReading(ps, config, schemas)
    requires forall i :: 0 <= i < |config| ==> InRange(PriorityOf(ps, config[i]).value, i)
    ensures r.None? <==> forall i :: 0 <= i < |config| ==> !matches(config[i].pattern, metric)
    ensures r.Some? ==> exists i :: 0 <= i < |config| && r.value == SchemaOf(ps, config[i], i) &&
                          r.value.name == config[i].name && r.value.retentions == config[i].retentions &&
                          matches(config[i].pattern, metric) &&
                          forall j :: 0 <= j < |config| && matches(config[j].pattern, metric) ==> Precedes(ps, config, i, j)
  {
    r := Match(schemas, matches, metric);
    Membership(ps, config, schemas);
    hide Pack;
    if r.None? {
      forall i | 0 <= i < |config|
        ensures !matches(config[i].pattern, metric)
      {
        var s := SchemaOf(ps, config[i], i);
        assert s in schemas;
      }
    } else {
      var k :| 0 <= k < |schemas| && r.value == schemas[k] && matches(schemas[k].pattern, metric) &&
               forall j :: 0 <= j < k ==> !matches(schemas[j].pattern, metric);
      assert schemas[k] in schemas;
      ghost var i :| 0 <= i < |config| && schemas[k] == SchemaOf(ps, config[i], i);
      forall j | 0 <= j < |config| && matches(config[j].pattern, metric)
        ensures Precedes(ps, config, i, j)
      {
        FirstPrecedes(ps, config, schemas, matches, metric, k, i, j);
      }
    }
  }

  /** The first matching schema belongs to a section that precedes every other matching one. */
  lemma FirstPrecedes(ps: Parsers, config: seq<Section>, schemas: seq<Schema>, matches: (string, string) -> bool,
                      metric: string, k: nat, i: nat, j: nat)
    requires IsReading(ps, config, schemas) && k < |schemas| && i < |config| && j < |config|
    requires InRange(PriorityOf(ps, config[i]).value, i) && InRange(PriorityOf(ps, config[j]).value, j)
    requires schemas[k] == SchemaOf(ps, config[i], i) && SchemaOf(ps, config[j], j) in schemas
    requires forall x :: 0 <= x < k ==> !matches(schemas[x].pattern, metric)
    requires matches(config[j].pattern, metric)
    ensures Precedes(ps, config, i, j)
  {
    var s := SchemaOf(ps, config[j], j);
    var x :| 0 <= x < |schemas| && schemas[x] == s;
    assert k < x ==> HigherFirst()(schemas[k], schemas[x]);
    PackOrders(PriorityOf(ps, config[i]).value, i, PriorityOf(ps, config[j]).value, j);
    hide Pack, IsReading, Problem;
  }
}
