/** Metric matchers, and the static prefix they extract from a regular expression.

    A pattern is modelled as its text together with its meaning. The part of the syntax that the
    extraction looks at (the anchor, literals, escaped dots, quantifiers, top-level alternation) is
    spelled out; every other construct is a piece of text with an arbitrary language. */
module Matchers {
  import opened Decimals
  import opened Options

  // ---------------------------------------------------------------- patterns

  datatype Atom =
    | Literal(c: char)                  // a word character or '-', or an escaped dot
    | Other(text: string, meaning: int) // one other construct: a class, a group, an assertion, ...

  /** How often an atom is repeated. */
  datatype Quantifier =
    | Once
    | Star
    | Plus
    | Question
    | Exactly(n: nat)
    | AtLeast(n: nat)
    | Between(m: nat, n: nat)
  {
    predicate Valid() { Between? ==> m <= n }

    function Min(): nat {
      match this
      case Once | Plus => 1
      case Star | Question => 0
      case Exactly(n) => n
      case AtLeast(n) => n
      case Between(m, _) => m
    }

    /** The largest number of repetitions, if there is one. */
    function Max(): Option<nat> {
      match this
      case Once | Question => Some(1)
      case Star | Plus | AtLeast(_) => None
      case Exactly(n) => Some(n)
      case Between(_, n) => Some(n)
    }

    predicate Admits(k: nat) { Min() <= k && (Max().Some? ==> k <= Max().value) }

    function Text(): string {
      match this
      case Once => ""
      case Star => "*"
      case Plus => "+"
      case Question => "?"
      case Exactly(n) => "{" + Itoa(n) + "}"
      case AtLeast(n) => "{" + Itoa(n) + ",}"
      case Between(m, n) => "{" + Itoa(m) + "," + Itoa(n) + "}"
    }
  }

  /** An atom with its quantifier, greedy or not. */
  datatype Item = Item(atom: Atom, q: Quantifier, lazy: bool)
  {
    function QuantifierText(): string { q.Text() + if lazy then "?" else "" }
  }

  /** One top-level alternative. */
  datatype Branch = Branch(anchored: bool, items: seq<Item>)

  type Pattern = seq<Branch>

  /** What the `Other` constructs mean: where in a whole input each of them matches. */
  type Meanings = (int, string, nat, nat) -> bool

  predicate IsWordChar(c: char) {
    'a' <= c <= 'z' || 'A' <= c <= 'Z' || '0' <= c <= '9' || c == '_' || c == '-'
  }

  /** `text` closes exactly the `depth` groups that are open before it, the last one at its end. */
  predicate Closes(text: string, depth: nat) {
    if depth == 0 || text == "" then depth == 0 && text == ""
    else if text[0] == '\\' then |text| > 1 && Closes(text[2..], depth)
    else if text[0] == '(' then Closes(text[1..], depth + 1)
    else if text[0] == ')' then Closes(text[1..], depth - 1)
    else Closes(text[1..], depth)
  }

  /** A text that is one construct by itself: a character that is no word character and has no
      structural meaning, an escape other than that of a dot, a class, or a group that sets no flags. */
  predicate Construct(text: string) {
    (|text| == 1 && !IsWordChar(text[0]) && text[0] !in "\\^|*+?{()[") ||
    (|text| == 2 && text[0] == '\\' && text[1] !in ".QE") ||
    (|text| > 2 && text[0] == '[' && text[|text| - 1] == ']' && '[' !in text[1..] && ']' !in text[..|text| - 1]) ||
    (|text| > 1 && text[0] == '(' && Closes(text[1..], 1) &&
     (text[1] == '?' ==> "(?:" <= text || "(?P<" <= text))
  }

  predicate WellFormedItem(it: Item) {
    it.q.Valid() && (it.q.Once? ==> !it.lazy) &&
    match it.atom
    case Literal(c) => IsWordChar(c) || c == '.'
    case Other(text, _) => Construct(text)
  }

  predicate WellFormedItems(items: seq<Item>) {
    forall i :: 0 <= i < |items| ==> WellFormedItem(items[i])
  }

  predicate WellFormed(p: Pattern) {
    p != [] && forall i :: 0 <= i < |p| ==> WellFormedItems(p[i].items)
  }

  function PrintAtom(a: Atom): string {
    match a
    case Literal(c) => if c == '.' then "\\." else [c]
    case Other(text, _) => text
  }

  function PrintItems(items: seq<Item>): string {
    if items == [] then "" else PrintAtom(items[0].atom) + items[0].QuantifierText() + PrintItems(items[1..])
  }

  function PrintBranch(b: Branch): string { (if b.anchored then "^" else "") + PrintItems(b.items) }

  function Print(p: Pattern): string
    requires p != []
  {
    if |p| == 1 then PrintBranch(p[0]) else PrintBranch(p[0]) + "|" + Print(p[1..])
  }

  // ---------------------------------------------------------------- meaning

  /** Everything below says that a piece of a pattern matches `s[i..j]`. */
  ghost predicate MatchAtom(ms: Meanings, a: Atom, s: string, i: nat, j: nat)
    requires i <= j <= |s|
  {
    match a
    case Literal(c) => s[i..j] == [c]
    case Other(_, meaning) => ms(meaning, s, i, j)
  }

  ghost predicate MatchTimes(ms: Meanings, a: Atom, n: nat, s: string, i: nat, j: nat)
    requires i <= j <= |s|
  {
    if n == 0 then i == j
    else exists k: nat :: i <= k <= j && MatchAtom(ms, a, s, i, k) && MatchTimes(ms, a, n - 1, s, k, j)
  }

  ghost predicate MatchItem(ms: Meanings, it: Item, s: string, i: nat, j: nat)
    requires i <= j <= |s|
  {
    exists n: nat :: it.q.Admits(n) && MatchTimes(ms, it.atom, n, s, i, j)
  }

  ghost predicate MatchItems(ms: Meanings, items: seq<Item>, s: string, i: nat, j: nat)
    requires i <= j <= |s|
  {
    if items == [] then i == j
    else exists k: nat :: i <= k <= j && MatchItem(ms, items[0], s, i, k) && MatchItems(ms, items[1..], s, k, j)
  }

  /** The branch matches somewhere in `s`; at the start if it is anchored. */
  ghost predicate MatchBranch(ms: Meanings, b: Branch, s: string) {
    exists i: nat, j: nat :: i <= j <= |s| && (b.anchored ==> i == 0) && MatchItems(ms, b.items, s, i, j)
  }

  ghost predicate Matches(ms: Meanings, p: Pattern, s: string) {
    exists b :: b in p && MatchBranch(ms, b, s)
  }

  // ---------------------------------------------------------------- the extraction

  /** What the scan adds from position `i` on, past the anchor. */
  function PrefixFrom(text: string, i: nat): string
    requires i <= |text|
    decreases |text| - i
  {
    if i == |text| then ""
    else if IsWordChar(text[i]) then [text[i]] + PrefixFrom(text, i + 1)
    else if text[i] == '\\' && i + 1 < |text| && text[i + 1] == '.' then "." + PrefixFrom(text, i + 2)
    else ""
  }

  function PrefixOf(text: string): string {
    if text != "" && text[0] == '^' then PrefixFrom(text, 1) else ""
  }

  method RegexToPrefix(regex: string) returns (substr: string)
    ensures substr == PrefixOf(regex)
  {
    substr := "";
    var i := 0;
    while i < |regex|
      invariant 0 <= i <= |regex|
      invariant i == 0 ==> substr == ""
      invariant i > 0 ==> regex[0] == '^' && PrefixOf(regex) == substr + PrefixFrom(regex, i)
    {
      var ch := regex[i];
      if i == 0 {
        if ch == '^' {
          i := i + 1;
          continue;
        }
        break;
      }
      if IsWordChar(ch) {
        substr := substr + [ch];
      } else if ch == '\\' && i + 1 < |regex| && regex[i + 1] == '.' {
        substr := substr + ".";
        i := i + 1;
      } else {
        break;
      }
      i := i + 1;
    }
  }

  /** The prefix in terms of items: literals up to the first item that is not a plain literal, and
      that item's own literal if it has one, since the scan sees it before its quantifier. */
  function RunPrefix(items: seq<Item>): string {
    if items == [] || !items[0].atom.Literal? then ""
    else if !items[0].q.Once? then [items[0].atom.c]
    else [items[0].atom.c] + RunPrefix(items[1..])
  }

  /** The rest of a text: nothing, or the next alternative. */
  predicate Ends(tail: string) { tail == "" || tail[0] == '|' }

  lemma {:induction false} PrefixSuffix(a: string, b: string, i: nat)
    requires i <= |b|
    ensures PrefixFrom(a + b, |a| + i) == PrefixFrom(b, i)
    decreases |b| - i
  {
    if i < |b| {
      assert (a + b)[|a| + i] == b[i];
      if i + 1 < |b| {
        assert (a + b)[|a| + i + 1] == b[i + 1];
        PrefixSuffix(a, b, i + 2);
      }
      PrefixSuffix(a, b, i + 1);
    }
  }

  /** The scan takes in a printed literal and goes on after it. */
  lemma {:induction false} LiteralScanned(a: Atom, rest: string)
    requires a.Literal? && (IsWordChar(a.c) || a.c == '.')
    ensures var text := PrintAtom(a) + rest;
            PrefixFrom(text, 0) == [a.c] + PrefixFrom(text, |PrintAtom(a)|)
  {
  }

  /** Everything else stops it: a quantifier, another construct, the end or the next alternative. */
  lemma {:induction false} Stops(text: string)
    requires text == "" || (!IsWordChar(text[0]) && !(text[0] == '\\' && |text| > 1 && text[1] == '.'))
    ensures PrefixFrom(text, 0) == ""
  {
  }

  lemma StopsAtQuantifier(it: Item, rest: string)
    requires !it.q.Once?
    ensures PrefixFrom(it.QuantifierText() + rest, 0) == ""
  {
    var text := it.QuantifierText() + rest;
    assert it.q.Text() != "" && text[0] == it.q.Text()[0] && text[0] in "*+?{";
    Stops(text);
  }

  lemma StopsAtConstruct(text: string, after: string)
    requires Construct(text)
    ensures PrefixFrom(text + after, 0) == ""
  {
    assert (text + after)[0] == text[0];
    assert |text| > 1 ==> (text + after)[1] == text[1];
    Stops(text + after);
  }

  lemma {:induction false} PrefixOfItems(items: seq<Item>, tail: string)
    requires WellFormedItems(items) && Ends(tail)
    ensures PrefixFrom(PrintItems(items) + tail, 0) == RunPrefix(items)
  {
    hide PrefixFrom;
    if items == [] {
      assert PrintItems(items) + tail == tail;
      Stops(tail);
    } else {
      var it := items[0];
      assert WellFormedItem(it);
      var atom, rest := PrintAtom(it.atom), PrintItems(items[1..]) + tail;
      var after := it.QuantifierText() + rest;
      assert PrintItems(items) + tail == atom + after;
      hide PrintItems, Construct;
      if it.atom.Literal? {
        LiteralScanned(it.atom, after);
        PrefixSuffix(atom, after, 0);
        if it.q.Once? {
          assert after == rest;
          PrefixOfItems(items[1..], tail);
        } else {
          StopsAtQuantifier(it, rest);
        }
      } else {
        StopsAtConstruct(it.atom.text, after);
      }
    }
  }

  // ---------------------------------------------------------------- when the prefix is right

  /** How far `p` consists of `c` alone. */
  function Leading(c: char, p: string): (r: nat)
    ensures r <= |p| && (forall i :: 0 <= i < r ==> p[i] == c) && (r < |p| ==> p[r] != c)
  {
    if p != "" && p[0] == c then 1 + Leading(c, p[1..]) else 0
  }

  /** Reads off the items whether they force the prefix `p`. A construct other than a literal forces
      nothing unless it is repeated zero times. A literal has to be where `p` has it, for every
      number of repetitions that its quantifier admits, and what follows has to force the rest. */
  predicate Forces(items: seq<Item>, p: string)
    decreases |items|
  {
    p == "" ||
    (items != [] &&
     match items[0].atom
     case Other(_, _) => items[0].q.Max() == Some(0) && Forces(items[1..], p)
     case Literal(c) =>
       var q, r := items[0].q, Leading(c, p);
       (forall n: nat :: n <= r && q.Admits(n) ==> Forces(items[1..], p[n..])) &&
       (r == |p| || (q.Max().Some? && q.Max().value <= r)))
  }

  /** The condition on a pattern under which the extracted prefix can be relied upon. */
  predicate Exact(p: Pattern)
    requires p != []
  {
    !p[0].anchored || RunPrefix(p[0].items) == "" ||
    forall b :: b in p ==> b.anchored && Forces(b.items, RunPrefix(p[0].items))
  }

  /** Past items that may be left out, the next one is `c`. */
  predicate Recovers(items: seq<Item>, c: char) {
    items != [] &&
    if items[0].atom == Literal(c) then items[0].q.Min() > 0 || Recovers(items[1..], c)
    else items[0].q.Max() == Some(0) && Recovers(items[1..], c)
  }

  /** The literal at which the scan stops cannot be left out, or what follows has it again. */
  predicate SafeRun(items: seq<Item>) {
    items == [] || !items[0].atom.Literal? ||
    if items[0].q.Once? then SafeRun(items[1..])
    else items[0].q.Min() > 0 || Recovers(items[1..], items[0].atom.c)
  }

  lemma {:induction false} ForcesOne(items: seq<Item>, c: char)
    requires WellFormedItems(items)
    ensures Forces(items, [c]) <==> Recovers(items, c)
  {
    if items != [] {
      ForcesOne(items[1..], c);
      assert [c][0..] == [c] && [c][1..] == "";
      if items[0].atom.Literal? {
        var d, q := items[0].atom.c, items[0].q;
        assert WellFormedItem(items[0]) && Leading(d, [c]) == if d == c then 1 else 0;
        assert q.Admits(0) <==> q.Min() == 0;
      }
    }
  }

  /** For the alternative that the prefix is taken from, the condition comes down to the literal at
      which the scan stops. */
  lemma {:induction false} ForcesOwnRun(items: seq<Item>)
    requires WellFormedItems(items)
    ensures Forces(items, RunPrefix(items)) <==> SafeRun(items)
  {
    if items != [] && items[0].atom.Literal? {
      var c, q, run := items[0].atom.c, items[0].q, RunPrefix(items);
      assert WellFormedItem(items[0]) && run[0..] == run;
      if q.Once? {
        ForcesOwnRun(items[1..]);
        assert run[1..] == RunPrefix(items[1..]);
        assert q.Admits(1) && !q.Admits(0);
        assert forall n: nat :: q.Admits(n) ==> n == 1;
        assert Leading(c, run) >= 1;
      } else {
        ForcesOne(items, c);
      }
    }
  }

  /** With a single alternative that is the whole condition. */
  lemma OneAlternativeExactIff(items: seq<Item>)
    requires WellFormedItems(items)
    ensures Exact([Branch(true, items)]) <==> SafeRun(items)
  {
    ForcesOwnRun(items);
    var b := Branch(true, items);
    assert b in [b];
    hide Forces;
    assert items != [] && items[0].atom.Literal? ==> RunPrefix(items) != "";
  }

  /** All inputs that the pattern matches start with the prefix. */
  ghost predicate PrefixSound(ms: Meanings, p: Pattern)
    requires p != []
  {
    forall s :: Matches(ms, p, s) ==> PrefixOf(Print(p)) <= s
  }

  lemma PrintParts(p: Pattern) returns (tail: string)
    requires p != []
    ensures Ends(tail) && Print(p) == (if p[0].anchored then "^" else "") + (PrintItems(p[0].items) + tail)
  {
    tail := if |p| == 1 then "" else "|" + Print(p[1..]);
  }

  lemma NoAnchorInside(items: seq<Item>, tail: string)
    requires WellFormedItems(items) && Ends(tail)
    ensures var text := PrintItems(items) + tail; text == "" || text[0] != '^'
  {
    if items == [] {
      assert PrintItems(items) + tail == tail;
    } else {
      assert WellFormedItem(items[0]);
      assert (PrintItems(items) + tail)[0] == PrintAtom(items[0].atom)[0];
    }
  }

  lemma {:induction false} PrintPrefix(p: Pattern)
    requires WellFormed(p)
    ensures PrefixOf(Print(p)) == if p[0].anchored then RunPrefix(p[0].items) else ""
  {
    var tail := PrintParts(p);
    var text := PrintItems(p[0].items) + tail;
    assert WellFormedItems(p[0].items);
    hide WellFormedItems, PrintItems, Print;
    if p[0].anchored {
      PrefixSuffix("^", text, 0);
      PrefixOfItems(p[0].items, tail);
    } else {
      NoAnchorInside(p[0].items, tail);
      assert Print(p) == text;
    }
  }

  lemma {:induction false} LiteralTimes(ms: Meanings, c: char, n: nat, s: string, i: nat, j: nat)
    requires i <= j <= |s|
    ensures MatchTimes(ms, Literal(c), n, s, i, j) <==> j == i + n && forall x :: i <= x < j ==> s[x] == c
    decreases n
  {
    if n > 0 {
      if MatchTimes(ms, Literal(c), n, s, i, j) {
        var k: nat :| i <= k <= j && MatchAtom(ms, Literal(c), s, i, k) && MatchTimes(ms, Literal(c), n - 1, s, k, j);
        assert |s[i..k]| == 1 && s[i..k][0] == s[i];
        LiteralTimes(ms, c, n - 1, s, k, j);
      } else if j == i + n {
        LiteralTimes(ms, c, n - 1, s, i + 1, j);
        assert s[i..i + 1] == [s[i]];
        assert MatchAtom(ms, Literal(s[i]), s, i, i + 1);
      }
    }
  }

  /** After `n` copies of a literal, of which `p` has as many, comes the rest of `p`. */
  lemma LiteralForced(c: char, p: string, n: nat, s: string, i: nat)
    requires i + n <= |s| && forall x :: i <= x < i + n ==> s[x] == c
    requires if n <= Leading(c, p) then p[n..] <= s[i + n..] else Leading(c, p) == |p|
    ensures p <= s[i..]
  {
    var r := Leading(c, p);
    if n <= r {
      assert s[i..i + n] == p[..n];
      assert s[i..] == s[i..i + n] + s[i + n..] && p == p[..n] + p[n..];
    } else {
      assert s[i..][..r] == p;
    }
  }

  /** What the items force is there, whatever the other constructs mean. */
  lemma {:induction false} ForcedIsMatched(ms: Meanings, items: seq<Item>, p: string, s: string, i: nat, j: nat)
    requires Forces(items, p) && i <= j <= |s| && MatchItems(ms, items, s, i, j)
    ensures p <= s[i..]
    decreases |items|
  {
    if p != "" {
      var it := items[0];
      var k: nat :| i <= k <= j && MatchItem(ms, it, s, i, k) && MatchItems(ms, items[1..], s, k, j);
      var n: nat :| it.q.Admits(n) && MatchTimes(ms, it.atom, n, s, i, k);
      if it.atom.Other? {
        ForcedIsMatched(ms, items[1..], p, s, k, j);
      } else {
        LiteralTimes(ms, it.atom.c, n, s, i, k);
        if n <= Leading(it.atom.c, p) {
          ForcedIsMatched(ms, items[1..], p[n..], s, k, j);
        }
        LiteralForced(it.atom.c, p, n, s, i);
      }
    }
  }

  /** The condition is sufficient: every matching input has the prefix, whatever the other
      constructs mean. */
  lemma ExactIsSound(ms: Meanings, p: Pattern)
    requires WellFormed(p) && Exact(p)
    ensures PrefixSound(ms, p)
  {
    PrintPrefix(p);
    forall s | Matches(ms, p, s)
      ensures PrefixOf(Print(p)) <= s
    {
      if p[0].anchored && RunPrefix(p[0].items) != "" {
        var b :| b in p && MatchBranch(ms, b, s);
        var i: nat, j: nat :| i <= j <= |s| && (b.anchored ==> i == 0) && MatchItems(ms, b.items, s, i, j);
        ForcedIsMatched(ms, b.items, RunPrefix(p[0].items), s, i, j);
        assert s[0..] == s;
      }
    }
  }

  // ---------------------------------------------------------------- and when it is not

  /** The other constructs match everything. A pattern of literals has no others. */
  ghost predicate Permissive(ms: Meanings, items: seq<Item>) {
    forall it :: it in items && it.atom.Other? ==>
      forall s: string, i: nat, j: nat :: i <= j <= |s| ==> ms(it.atom.meaning, s, i, j)
  }

  /** `w` is matched wherever it stands. */
  ghost predicate Derives(ms: Meanings, items: seq<Item>, w: string) {
    forall s: string, i: nat, j: nat :: i <= j <= |s| && s[i..j] == w ==> MatchItems(ms, items, s, i, j)
  }

  ghost predicate DerivesTimes(ms: Meanings, a: Atom, n: nat, w: string) {
    forall s: string, i: nat, j: nat :: i <= j <= |s| && s[i..j] == w ==> MatchTimes(ms, a, n, s, i, j)
  }

  lemma DerivesCons(ms: Meanings, items: seq<Item>, n: nat, v: string, w: string)
    requires items != [] && items[0].q.Admits(n) && DerivesTimes(ms, items[0].atom, n, v) && Derives(ms, items[1..], w)
    ensures Derives(ms, items, v + w)
  {
    forall s: string, i: nat, j: nat | i <= j <= |s| && s[i..j] == v + w
      ensures MatchItems(ms, items, s, i, j)
    {
      var k := i + |v|;
      assert s[i..k] == s[i..j][..|v|] == v && s[k..j] == s[i..j][|v|..] == w;
      assert MatchItem(ms, items[0], s, i, k);
    }
  }

  function Copies(c: char, n: nat): string { seq(n, _ => c) }

  lemma CopiesDerived(ms: Meanings, c: char, n: nat)
    ensures DerivesTimes(ms, Literal(c), n, Copies(c, n))
  {
    forall s: string, i: nat, j: nat | i <= j <= |s| && s[i..j] == Copies(c, n)
      ensures MatchTimes(ms, Literal(c), n, s, i, j)
    {
      assert |s[i..j]| == n;
      assert forall x :: i <= x < j ==> s[x] == s[i..j][x - i];
      LiteralTimes(ms, c, n, s, i, j);
    }
  }

  /** Any number of repetitions can be empty, and one or more can be anything. */
  lemma {:induction false} AnythingDerived(ms: Meanings, a: Atom, n: nat, w: string)
    requires a.Other? && (n == 0 ==> w == "")
    requires forall s: string, i: nat, j: nat :: i <= j <= |s| ==> ms(a.meaning, s, i, j)
    ensures DerivesTimes(ms, a, n, w)
    decreases n
  {
    if n > 0 {
      AnythingDerived(ms, a, n - 1, "");
      forall s: string, i: nat, j: nat | i <= j <= |s| && s[i..j] == w
        ensures MatchTimes(ms, a, n, s, i, j)
      {
        assert s[j..j] == "";
        assert MatchAtom(ms, a, s, i, j) && MatchTimes(ms, a, n - 1, s, j, j);
      }
    }
  }

  lemma {:induction false} SomeWord(ms: Meanings, items: seq<Item>) returns (w: string)
    requires WellFormedItems(items) && Permissive(ms, items)
    ensures Derives(ms, items, w)
  {
    w := "";
    if items != [] {
      var it := items[0];
      assert it in items && WellFormedItem(it) && it.q.Admits(it.q.Min());
      w := SomeWord(ms, items[1..]);
      if it.atom.Literal? {
        CopiesDerived(ms, it.atom.c, it.q.Min());
        DerivesCons(ms, items, it.q.Min(), Copies(it.atom.c, it.q.Min()), w);
        w := Copies(it.atom.c, it.q.Min()) + w;
      } else {
        AnythingDerived(ms, it.atom, it.q.Min(), "");
        DerivesCons(ms, items, it.q.Min(), "", w);
        assert "" + w == w;
      }
    }
  }

  function OtherThan(c: char): (d: char)
    ensures d != c
  {
    if c == 'a' then 'b' else 'a'
  }

  /** Items that do not force a prefix match something without it. */
  lemma {:induction false} Escapes(ms: Meanings, items: seq<Item>, p: string) returns (w: string)
    requires WellFormedItems(items) && Permissive(ms, items) && !Forces(items, p)
    ensures Derives(ms, items, w) && !(p <= w)
    decreases |items|
  {
    w := "";
    if items != [] {
      var it := items[0];
      assert it in items && WellFormedItem(it);
      if it.atom.Literal? {
        w := EscapesLiteral(ms, items, p);
      } else if it.q.Max() == Some(0) {
        w := Escapes(ms, items[1..], p);
        AnythingDerived(ms, it.atom, 0, "");
        DerivesCons(ms, items, 0, "", w);
        assert "" + w == w;
      } else {
        var n := if it.q.Min() > 0 then it.q.Min() else 1;
        var v := [OtherThan(p[0])];
        w := SomeWord(ms, items[1..]);
        AnythingDerived(ms, it.atom, n, v);
        DerivesCons(ms, items, n, v, w);
        w := v + w;
      }
    }
  }

  lemma {:induction false} EscapesLiteral(ms: Meanings, items: seq<Item>, p: string) returns (w: string)
    requires WellFormedItems(items) && Permissive(ms, items) && !Forces(items, p)
    requires items != [] && items[0].atom.Literal?
    ensures Derives(ms, items, w) && !(p <= w)
    decreases |items|, 0
  {
    var c, q := items[0].atom.c, items[0].q;
    var r := Leading(c, p);
    assert WellFormedItem(items[0]);
    var n: nat;
    if n0: nat :| n0 <= r && q.Admits(n0) && !Forces(items[1..], p[n0..]) {
      n := n0;
      w := Escapes(ms, items[1..], p[n..]);
    } else {
      n := if q.Min() > r then q.Min() else r + 1;
      w := SomeWord(ms, items[1..]);
    }
    CopiesDerived(ms, c, n);
    DerivesCons(ms, items, n, Copies(c, n), w);
    var v := Copies(c, n) + w;
    assert v[n..] == w;
    assert n > r ==> v[r] == c;
    if n <= r {
      NotPrefix(p, v, n);
    }
    w := v;
  }

  lemma NotPrefix(p: string, v: string, n: nat)
    requires n <= |p| && n <= |v| && !(p[n..] <= v[n..])
    ensures !(p <= v)
  {
  }

  /** The condition is necessary, too: where it fails, some input is matched and lacks the prefix,
      unless the other constructs keep it from being matched. */
  lemma InexactIsUnsound(ms: Meanings, p: Pattern) returns (s: string)
    requires WellFormed(p) && !Exact(p) && forall b :: b in p ==> Permissive(ms, b.items)
    ensures Matches(ms, p, s) && !(PrefixOf(Print(p)) <= s)
  {
    PrintPrefix(p);
    var prefix := RunPrefix(p[0].items);
    var b :| b in p && !(b.anchored && Forces(b.items, prefix));
    assert WellFormedItems(b.items);
    if b.anchored {
      s := Escapes(ms, b.items, prefix);
      assert s[0..|s|] == s;
      assert MatchItems(ms, b.items, s, 0, |s|);
    } else {
      var w := SomeWord(ms, b.items);
      s := [OtherThan(prefix[0])] + w;
      assert s[1..|s|] == w;
      assert MatchItems(ms, b.items, s, 1, |s|);
    }
    assert MatchBranch(ms, b, s);
  }

  /** For patterns of literals, and wherever the other constructs match everything, the prefix can be
      relied upon exactly under the condition. */
  lemma SoundIffExact(ms: Meanings, p: Pattern)
    requires WellFormed(p) && forall b :: b in p ==> Permissive(ms, b.items)
    ensures PrefixSound(ms, p) <==> Exact(p)
  {
    if Exact(p) {
      ExactIsSound(ms, p);
    } else {
      var s := InexactIsUnsound(ms, p);
    }
  }

  /** In general: the prefix can be relied upon whatever the other constructs mean, if and only if the
      pattern meets the condition. */
  lemma AlwaysSoundIffExact(p: Pattern)
    requires WellFormed(p)
    ensures (forall ms :: PrefixSound(ms, p)) <==> Exact(p)
  {
    if Exact(p) {
      forall ms
        ensures PrefixSound(ms, p)
      {
        ExactIsSound(ms, p);
      }
    } else {
      var all: Meanings := (_, _, _, _) => true;
      SoundIffExact(all, p);
    }
  }

  // ---------------------------------------------------------------- two failing families

  function Plain(run: string): seq<Item> {
    seq(|run|, i requires 0 <= i < |run| => Item(Literal(run[i]), Once, false))
  }

  lemma {:induction false} PlainMatches(ms: Meanings, run: string, more: seq<Item>, s: string, i: nat, j: nat)
    requires i + |run| <= j <= |s| && s[i..i + |run|] == run
    requires MatchItems(ms, more, s, i + |run|, j)
    ensures MatchItems(ms, Plain(run) + more, s, i, j)
    decreases |run|
  {
    var items := Plain(run) + more;
    if run == "" {
      assert items == more;
    } else {
      assert items[1..] == Plain(run[1..]) + more;
      assert s[i + 1..i + 1 + |run[1..]|] == s[i..i + |run|][1..] == run[1..];
      PlainMatches(ms, run[1..], more, s, i + 1, j);
      assert s[i..i + 1] == [s[i..i + |run|][0]];
      assert MatchAtom(ms, items[0].atom, s, i, i + 1);
      assert MatchTimes(ms, items[0].atom, 0, s, i + 1, i + 1);
      assert MatchTimes(ms, items[0].atom, 1, s, i, i + 1);
      assert MatchItem(ms, items[0], s, i, i + 1);
    }
  }

  lemma {:induction false} PlainPrefix(run: string, it: Item)
    requires it.atom.Literal? && !it.q.Once?
    ensures RunPrefix(Plain(run) + [it]) == run + [it.atom.c]
  {
    var items := Plain(run) + [it];
    if run == "" {
      assert items == [it];
    } else {
      assert items[1..] == Plain(run[1..]) + [it];
      PlainPrefix(run[1..], it);
    }
  }

  /** A literal run that ends in an optional literal: the pattern matches the run without it, and
      the prefix filter rejects that input. */
  lemma OptionalLiteralIsUnsound(ms: Meanings, run: string, it: Item)
    requires it.atom.Literal? && it.q.Min() == 0
    requires WellFormed([Branch(true, Plain(run) + [it])])
    ensures var p := [Branch(true, Plain(run) + [it])];
            Matches(ms, p, run) && !(PrefixOf(Print(p)) <= run) && !PrefixSound(ms, p)
  {
    var b := Branch(true, Plain(run) + [it]);
    PrintPrefix([b]);
    PlainPrefix(run, it);
    assert MatchTimes(ms, it.atom, 0, run, |run|, |run|);
    assert MatchItem(ms, it, run, |run|, |run|);
    assert [it][1..] == [];
    assert MatchItems(ms, [it][1..], run, |run|, |run|);
    assert MatchItems(ms, [it], run, |run|, |run|);
    assert run[0..0 + |run|] == run;
    PlainMatches(ms, run, [it], run, 0, |run|);
    assert MatchBranch(ms, b, run);
    assert b in [b];
  }

  /** With a second alternative, the prefix of the first is imposed on both. */
  lemma AlternationIsUnsound(ms: Meanings, run: string, other: string)
    requires run != "" && !(run <= other) && WellFormed([Branch(true, Plain(run)), Branch(true, Plain(other))])
    ensures var p := [Branch(true, Plain(run)), Branch(true, Plain(other))];
            Matches(ms, p, other) && !(PrefixOf(Print(p)) <= other) && !PrefixSound(ms, p)
  {
    var p := [Branch(true, Plain(run)), Branch(true, Plain(other))];
    PrintPrefix(p);
    PlainOnlyPrefix(run);
    assert PrefixOf(Print(p)) == run;
    hide PrefixOf, Print;
    assert other[0..0 + |other|] == other;
    PlainMatches(ms, other, [], other, 0, |other|);
    assert Plain(other) + [] == Plain(other);
    hide MatchItems;
    assert MatchBranch(ms, p[1], other) && p[1] in p;
    assert Matches(ms, p, other);
  }

  lemma {:induction false} PlainOnlyPrefix(run: string)
    ensures RunPrefix(Plain(run)) == run
  {
    if run != "" {
      assert Plain(run)[1..] == Plain(run[1..]);
      PlainOnlyPrefix(run[1..]);
    }
  }

  // ---------------------------------------------------------------- matchers

  /** Empty strings and absent patterns are conditions that are not set. */
  datatype Matcher = Matcher(prefix: string, notPrefix: string, sub: string, notSub: string,
                             regex: Option<Pattern>, notRegex: Option<Pattern>)
  {
    ghost predicate Valid() {
      (regex.Some? ==> WellFormed(regex.value)) && (notRegex.Some? ==> WellFormed(notRegex.value))
    }

    predicate Cheap(s: string) {
      (prefix != "" ==> prefix <= s) &&
      !(notPrefix != "" && notPrefix <= s) &&
      (sub != "" ==> Contains(s, sub)) &&
      !(notSub != "" && Contains(s, notSub))
    }

    function PrefixFromRegex(): string
      requires Valid()
    {
      if regex.Some? then PrefixOf(Print(regex.value)) else ""
    }

    function PrefixFromNotRegex(): string
      requires Valid()
    {
      if notRegex.Some? then PrefixOf(Print(notRegex.value)) else ""
    }

    /** All conditions, with the extracted prefixes used as filters. */
    ghost predicate Match(ms: Meanings, s: string)
      requires Valid()
    {
      Cheap(s) &&
      (regex.Some? ==>
         !((PrefixFromRegex() != "" && !(PrefixFromRegex() <= s)) || !Matches(ms, regex.value, s))) &&
      (notRegex.Some? ==>
         !((PrefixFromNotRegex() == "" || PrefixFromNotRegex() <= s) && Matches(ms, notRegex.value, s)))
    }

    /** All conditions, without filters. */
    ghost predicate Meant(ms: Meanings, s: string) {
      prefix <= s && (notPrefix == "" || !(notPrefix <= s)) &&
      Within(s, sub) && (notSub == "" || !Within(s, notSub)) &&
      (regex.Some? ==> Matches(ms, regex.value, s)) &&
      (notRegex.Some? ==> !Matches(ms, notRegex.value, s))
    }

    /** The conditions that are quick to evaluate. */
    predicate PreMatch(s: string)
      requires Valid()
    {
      Cheap(s) && (PrefixFromRegex() != "" ==> PrefixFromRegex() <= s)
    }
  }

  predicate Contains(s: string, sub: string) {
    exists i :: 0 <= i <= |s| && sub <= s[i..]
  }

  /** `sub` occurs in `s`: something precedes it and something follows it. */
  ghost predicate Within(s: string, sub: string) { exists a, b :: s == a + sub + b }

  lemma OccursAt(s: string, sub: string, i: nat)
    requires i <= |s| && sub <= s[i..]
    ensures Within(s, sub)
  {
    var before, after := s[..i], s[i..][|sub|..];
    assert s[i..] == sub + after;
    assert s == before + s[i..];
    assert before + (sub + after) == before + sub + after;
  }

  lemma OccursAfter(s: string, sub: string, before: string, after: string)
    requires s == before + sub + after
    ensures Contains(s, sub)
  {
    assert s[|before|..] == sub + after;
  }

  lemma ContainsIff(s: string, sub: string)
    ensures Contains(s, sub) <==> Within(s, sub)
    ensures Within(s, "")
  {
    OccursAt(s, "", 0);
    if Contains(s, sub) {
      var i :| 0 <= i <= |s| && sub <= s[i..];
      OccursAt(s, sub, i);
    } else if Within(s, sub) {
      var before, after :| s == before + sub + after;
      OccursAfter(s, sub, before, after);
      assert false;
    }
  }

  /** The four conditions on fixed strings, one by one. */
  lemma CheapIff(m: Matcher, ms: Meanings, s: string)
    ensures m.Cheap(s) <==> m.(regex := None, notRegex := None).Meant(ms, s)
  {
    ContainsIff(s, m.sub);
    ContainsIff(s, m.notSub);
    hide Contains, Within;
  }

  /** The quick check decides the conditions on fixed strings, and the prefix of the regex. */
  lemma PreMatchIff(m: Matcher, ms: Meanings, s: string)
    requires m.Valid()
    ensures m.PreMatch(s) <==> m.(regex := None, notRegex := None).Meant(ms, s) &&
                               (m.regex.Some? ==> PrefixOf(Print(m.regex.value)) <= s)
  {
    CheapIff(m, ms, s);
    hide Within, Contains, PrefixOf, Print;
  }

  /** With safe patterns the filters change nothing. */
  lemma MatchIsMeant(m: Matcher, ms: Meanings, s: string)
    requires m.Valid()
    requires (m.regex.Some? ==> Exact(m.regex.value)) && (m.notRegex.Some? ==> Exact(m.notRegex.value))
    ensures m.Match(ms, s) <==> m.Meant(ms, s)
  {
    CheapIff(m, ms, s);
    hide Within, Contains;
    if m.regex.Some? {
      ExactIsSound(ms, m.regex.value);
    }
    if m.notRegex.Some? {
      ExactIsSound(ms, m.notRegex.value);
    }
  }

  /** A metric that the quick check discards is one that the full check would not accept; under
      safe patterns it is one that the conditions do not admit. */
  lemma PreMatchIsNecessary(m: Matcher, ms: Meanings, s: string)
    requires m.Valid() && !m.PreMatch(s)
    ensures !m.Match(ms, s)
    ensures (m.regex.Some? ==> Exact(m.regex.value)) ==> !m.Meant(ms, s)
  {
    CheapIff(m, ms, s);
    hide Within, Contains;
    if m.regex.Some? && Exact(m.regex.value) {
      ExactIsSound(ms, m.regex.value);
    }
  }

  /** A matcher with nothing but a regex, or nothing but a negated one, evaluates it as meant on every
      input and for every meaning if and only if the pattern meets the condition. */
  lemma FilterExactIff(p: Pattern)
    requires WellFormed(p)
    ensures var m := Matcher("", "", "", "", Some(p), None);
            (forall ms, s :: m.Match(ms, s) <==> m.Meant(ms, s)) <==> Exact(p)
    ensures var m := Matcher("", "", "", "", None, Some(p));
            (forall ms, s :: m.Match(ms, s) <==> m.Meant(ms, s)) <==> Exact(p)
  {
    var m, m' := Matcher("", "", "", "", Some(p), None), Matcher("", "", "", "", None, Some(p));
    if Exact(p) {
      forall ms, s
        ensures m.Match(ms, s) <==> m.Meant(ms, s)
        ensures m'.Match(ms, s) <==> m'.Meant(ms, s)
      {
        CheapIff(m, ms, s);
        CheapIff(m', ms, s);
        ExactIsSound(ms, p);
      }
    } else {
      var all: Meanings := (_, _, _, _) => true;
      var s := InexactIsUnsound(all, p);
      ContainsIff(s, "");
      CheapIff(m, all, s);
      CheapIff(m', all, s);
      assert m.Meant(all, s) && !m.Match(all, s);
      assert !m'.Meant(all, s) && m'.Match(all, s);
    }
  }
}
