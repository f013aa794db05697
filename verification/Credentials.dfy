/** Composition of call credentials and the metadata a composed credential generates. */
module Credentials {
  import opened Options
  import opened CallMetadata

  /** A generator is known by a number; what it calls back with is given separately. */
  datatype Credentials = Empty | Single(generator: nat) | Composed(creds: seq<Credentials>)

  function Compose(c: Credentials, other: Credentials): (r: Credentials)
  {
    match c
    case Empty => other
    case Single(_) => Composed([c, other])
    case Composed(creds) => Composed(creds + [other])
  }

  /** The metadata each generator supplies; None if it calls back without any. */
  type Supply = nat -> Option<Entries>

  /** Merging into the accumulated metadata, which may throw. */
  function MergeInto(base: Option<Entries>, gen: Option<Entries>): (r: Option<Entries>)
  {
    if base.Some? && gen.Some? && CanMerge(base.value, gen.value) then Some(Merged(base.value, gen.value)) else None
  }

  /** What generateMetadata's promise settles to; None stands for a rejection. */
  function Generate(c: Credentials, supply: Supply): (r: Option<Entries>)
    decreases c, 0
  {
    match c
    case Empty => Some(map[])
    case Single(g) => supply(g)
    case Composed(creds) => GenerateAll(creds, supply)
  }

  function GenerateAll(creds: seq<Credentials>, supply: Supply): (r: Option<Entries>)
    decreases creds, 1
  {
    if creds == [] then Some(map[])
    else MergeInto(GenerateAll(creds[..|creds| - 1], supply), Generate(creds[|creds| - 1], supply))
  }

  // ---- the meaning: leaves from left to right ----

  function Leaves(c: Credentials): (r: seq<nat>)
    decreases c, 0
  {
    match c
    case Empty => []
    case Single(g) => [g]
    case Composed(creds) => AllLeaves(creds)
  }

  function AllLeaves(creds: seq<Credentials>): (r: seq<nat>)
    decreases creds, 1
  {
    if creds == [] then [] else AllLeaves(creds[..|creds| - 1]) + Leaves(creds[|creds| - 1])
  }

  /** Every leaf supplies metadata that can be merged into a fresh object. */
  ghost predicate Mergeable(leaves: seq<nat>, supply: Supply)
  {
    forall i :: 0 <= i < |leaves| ==>
      supply(leaves[i]).Some? && "constructor" !in supply(leaves[i]).value
  }

  /** The leaves' metadata merged from left to right. */
  function Union(leaves: seq<nat>, supply: Supply): (r: Entries)
    requires Mergeable(leaves, supply)
    ensures "constructor" !in r
  {
    if leaves == [] then map[]
    else Merged(Union(leaves[..|leaves| - 1], supply), supply(leaves[|leaves| - 1]).value)
  }

  /** The same, key by key. */
  function ValuesOf(leaves: seq<nat>, supply: Supply, k: string): (r: seq<Value>)
    requires Mergeable(leaves, supply)
  {
    if leaves == [] then []
    else ValuesOf(leaves[..|leaves| - 1], supply, k) + Values(supply(leaves[|leaves| - 1]).value, k)
  }

  lemma {:induction false} UnionValues(leaves: seq<nat>, supply: Supply, k: string)
    requires Mergeable(leaves, supply)
    ensures Values(Union(leaves, supply), k) == ValuesOf(leaves, supply, k)
    ensures k in Union(leaves, supply) <==> exists i :: 0 <= i < |leaves| && k in supply(leaves[i]).value
  {
    if leaves == [] {
    } else {
      var n := |leaves| - 1;
      UnionValues(leaves[..n], supply, k);
      if k in Union(leaves[..n], supply) {
        var i :| 0 <= i < n && k in supply(leaves[..n][i]).value;
        assert k in supply(leaves[i]).value;
      } else if k in supply(leaves[n]).value {
        assert k in supply(leaves[n]).value;
      } else {
        forall i | 0 <= i < |leaves| ensures k !in supply(leaves[i]).value {
          if i < n { assert leaves[..n][i] == leaves[i]; }
        }
      }
    }
  }

  lemma MergedValues(a: Entries, b: Entries, k: string)
    ensures Values(Merged(a, b), k) == Values(a, k) + Values(b, k)
  {}

  lemma MergedAssociative(a: Entries, b: Entries, c: Entries)
    ensures Merged(Merged(a, b), c) == Merged(a, Merged(b, c))
  {
    hide Merged, Values;
    var l, r := Merged(Merged(a, b), c), Merged(a, Merged(b, c));
    assert l.Keys == r.Keys;
    forall k | k in l ensures l[k] == r[k] {
      MergedValues(a, b, k);
      MergedValues(b, c, k);
      assert l[k] == Values(Merged(a, b), k) + Values(c, k);
      assert r[k] == Values(a, k) + Values(Merged(b, c), k);
    }
  }

  lemma UnionOne(g: nat, supply: Supply)
    ensures Mergeable([g], supply) <==> supply(g).Some? && "constructor" !in supply(g).value
    ensures Mergeable([g], supply) ==> Union([g], supply) == supply(g).value
  {
    assert [g][0] == g;
    if Mergeable([g], supply) {
      assert [g][..0] == [];
      assert Union([g], supply) == Merged(Union([], supply), supply(g).value);
      MergedNeutral(supply(g).value);
    }
  }

  lemma {:induction false} UnionAppend(a: seq<nat>, b: seq<nat>, supply: Supply)
    requires Mergeable(a, supply) && Mergeable(b, supply)
    ensures Mergeable(a + b, supply) && Union(a + b, supply) == Merged(Union(a, supply), Union(b, supply))
    decreases |b|
  {
    if b == [] {
      assert a + b == a;
      MergedNeutral(Union(a, supply));
    } else {
      var n := |b| - 1;
      assert (a + b)[..|a + b| - 1] == a + b[..n];
      UnionAppend(a, b[..n], supply);
      MergedAssociative(Union(a, supply), Union(b[..n], supply), supply(b[n]).value);
    }
  }

  /** What merging a list of leaves settles to. */
  ghost function Settled(leaves: seq<nat>, supply: Supply): (r: Option<Entries>)
  {
    if Mergeable(leaves, supply) then Some(Union(leaves, supply)) else None
  }

  lemma SettledAppend(a: seq<nat>, b: seq<nat>, supply: Supply)
    ensures Settled(a + b, supply) == MergeInto(Settled(a, supply), Settled(b, supply))
  {
    if Mergeable(a, supply) && Mergeable(b, supply) {
      UnionAppend(a, b, supply);
    } else if Mergeable(a + b, supply) {
      assert forall i :: 0 <= i < |a| ==> a[i] == (a + b)[i];
      assert forall i :: 0 <= i < |b| ==> b[i] == (a + b)[|a| + i];
    }
  }

  lemma SettledLeaf(base: Option<Entries>, g: nat, supply: Supply)
    requires base.Some? ==> "constructor" !in base.value
    ensures MergeInto(base, supply(g)) == MergeInto(base, Settled([g], supply))
  {
    UnionOne(g, supply);
  }

  /** A composed credential settles to the union of its leaves, whatever the shape of the
      tree, if every leaf supplies metadata without a `constructor` key, and rejects
      otherwise. A single generator's metadata is handed on unmerged. */
  lemma {:induction false} GenerateMeans(c: Credentials, supply: Supply)
    ensures Generate(c, supply) == if c.Single? then supply(c.generator) else Settled(Leaves(c), supply)
    decreases c, 0
  {
    match c
    case Empty =>
    case Single(g) =>
    case Composed(creds) => GenerateAllMeans(creds, supply);
  }

  lemma {:induction false} GenerateAllMeans(creds: seq<Credentials>, supply: Supply)
    ensures GenerateAll(creds, supply) == Settled(AllLeaves(creds), supply)
    decreases creds, 1
  {
    if creds == [] {
    } else {
      var n := |creds| - 1;
      var before := AllLeaves(creds[..n]);
      GenerateAllMeans(creds[..n], supply);
      GenerateMeans(creds[n], supply);
      SettledAppend(before, Leaves(creds[n]), supply);
      if creds[n].Single? {
        SettledLeaf(Settled(before, supply), creds[n].generator, supply);
      }
    }
  }

  lemma ComposeLeaves(a: Credentials, b: Credentials)
    ensures Leaves(Compose(a, b)) == Leaves(a) + Leaves(b)
  {
    match a
    case Empty =>
    case Single(g) =>
      assert [a, b][..1] == [a] && [a][..0] == [];
      assert AllLeaves([a]) == [g] && AllLeaves([a, b]) == AllLeaves([a]) + Leaves(b);
    case Composed(creds) =>
      assert (creds + [b])[..|creds|] == creds;
  }

  /** The first generator's values come first, whichever way the two are put together. */
  lemma TwoGenerators(g: nat, h: nat, supply: Supply, k: string)
    requires supply(g).Some? && "constructor" !in supply(g).value
    requires supply(h).Some? && "constructor" !in supply(h).value
    ensures var r := Generate(Compose(Single(g), Single(h)), supply);
      && r.Some? && Values(r.value, k) == Values(supply(g).value, k) + Values(supply(h).value, k)
      && (k in r.value <==> k in supply(g).value || k in supply(h).value)
  {
    hide Generate, Union, Merged;
    var c := Compose(Single(g), Single(h));
    ComposeLeaves(Single(g), Single(h));
    GenerateMeans(c, supply);
    assert Leaves(c) == [g, h];
    UnionAppend([g], [h], supply);
    UnionOne(g, supply);
    UnionOne(h, supply);
    assert [g] + [h] == [g, h];
    MergedValues(supply(g).value, supply(h).value, k);
  }

  /** Composition is associative in what it generates. */
  lemma ComposeAssociative(a: Credentials, b: Credentials, c: Credentials, supply: Supply)
    ensures Generate(Compose(Compose(a, b), c), supply) == Generate(Compose(a, Compose(b, c)), supply)
  {
    var l, r := Compose(Compose(a, b), c), Compose(a, Compose(b, c));
    ComposeLeaves(a, b);
    ComposeLeaves(Compose(a, b), c);
    ComposeLeaves(b, c);
    ComposeLeaves(a, Compose(b, c));
    assert Leaves(l) == Leaves(r);
    GenerateMeans(l, supply);
    GenerateMeans(r, supply);
  }

  /** Empty credentials are neutral on the left; on the right they are, if and only if the
      other side is not a lone generator that supplies a `constructor` key. */
  lemma ComposeEmpty(c: Credentials, supply: Supply)
    ensures Generate(Compose(Empty, c), supply) == Generate(c, supply)
    ensures Generate(Compose(c, Empty), supply) == Generate(c, supply) <==>
      !(c.Single? && supply(c.generator).Some? && "constructor" in supply(c.generator).value)
  {
    ComposeLeaves(c, Empty);
    assert Leaves(c) + [] == Leaves(c);
    GenerateMeans(c, supply);
    GenerateMeans(Compose(c, Empty), supply);
    if c.Single? { UnionOne(c.generator, supply); }
  }

  // ---- the code ----

  /** The order names every position below n and nothing else. */
  ghost predicate Covers(order: seq<nat>, n: nat)
  {
    (forall i :: 0 <= i < n ==> i in order) && forall j :: 0 <= j < |order| ==> order[j] < n
  }

  /** Promise.all over already started generators, settling in the given order: a
      rejection settles it at once, otherwise the results come back by position. */
  method PromiseAll<T>(outcomes: seq<Option<T>>, order: seq<nat>) returns (r: Option<seq<T>>)
    requires Covers(order, |outcomes|)
    ensures r.Some? <==> forall i :: 0 <= i < |outcomes| ==> outcomes[i].Some?
    ensures r.Some? ==> |r.value| == |outcomes| && forall i :: 0 <= i < |outcomes| ==> r.value[i] == outcomes[i].value
  {
    var slots: seq<Option<T>> := seq(|outcomes|, _ => None);
    for j := 0 to |order|
      invariant |slots| == |outcomes|
      invariant forall i :: 0 <= i < j ==> outcomes[order[i]].Some? && slots[order[i]] == outcomes[order[i]]
    {
      if outcomes[order[j]].None? { return None; }
      slots := slots[order[j] := outcomes[order[j]]];
    }
    forall i | 0 <= i < |outcomes| ensures slots[i].Some? && slots[i] == outcomes[i] {
      assert i in order;
    }
    return Some(seq(|slots|, i requires 0 <= i < |slots| && slots[i].Some? => slots[i].value));
  }

  function MergeAll(base: Option<Entries>, generated: seq<Entries>): (r: Option<Entries>)
  {
    if generated == [] then base
    else MergeInto(MergeAll(base, generated[..|generated| - 1]), Some(generated[|generated| - 1]))
  }

  /** ComposedCallCredentials.generateMetadata after Promise.all: merge into a fresh
      object, leaving the generated ones alone. */
  method MergeGenerated(generated: seq<Metadata>) returns (ok: bool, base: Metadata)
    requires forall i :: 0 <= i < |generated| ==> generated[i].Valid()
    ensures fresh(base) && base.Valid()
    ensures var maps := Snapshot(generated);
      MergeAll(Some(map[]), maps) == if ok then Some(base.internalRepr) else None
  {
    base := new Metadata();
    ghost var maps := Snapshot(generated);
    assert MergeAll(Some(map[]), maps[..0]) == Some(map[]);
    hide Merged, CanMerge, Snapshot, Legal, MergeAll;
    for i := 0 to |generated|
      invariant fresh(base) && base.Valid()
      invariant forall j :: 0 <= j < |generated| ==> generated[j].Valid()
      invariant Snapshot(generated) == maps
      invariant MergeAll(Some(map[]), maps[..i]) == Some(base.internalRepr)
    {
      MergeAllStep(maps, i);
      var thrown, _ := base.Merge(generated[i]);
      if thrown.Some? {
        MergeAllFails(Some(map[]), maps, i + 1);
        return false, base;
      }
    }
    assert maps[..|maps|] == maps;
    ok := true;
  }

  lemma MergeAllStep(maps: seq<Entries>, i: nat)
    requires i < |maps|
    ensures MergeAll(Some(map[]), maps[..i + 1]) == MergeInto(MergeAll(Some(map[]), maps[..i]), Some(maps[i]))
  {
    assert maps[..i + 1][..i] == maps[..i];
  }

  ghost function Snapshot(generated: seq<Metadata>): (r: seq<Entries>)
    reads generated
    ensures |r| == |generated|
    ensures forall i :: 0 <= i < |r| ==> r[i] == generated[i].internalRepr
  {
    seq(|generated|, i requires 0 <= i < |generated| reads generated => generated[i].internalRepr)
  }

  lemma {:induction false} MergeAllFails(base: Option<Entries>, maps: seq<Entries>, n: nat)
    requires n <= |maps| && MergeAll(base, maps[..n]) == None
    ensures MergeAll(base, maps) == None
    decreases |maps|
  {
    if n == |maps| {
      assert maps[..n] == maps;
    } else {
      assert maps[..|maps| - 1][..n] == maps[..n];
      MergeAllFails(base, maps[..|maps| - 1], n);
    }
  }

  /** With all parts settled the whole is their merge, in the order of composition. */
  lemma {:induction false} GenerateAllByParts(creds: seq<Credentials>, supply: Supply, generated: seq<Entries>)
    requires |generated| == |creds|
    requires forall i :: 0 <= i < |creds| ==> Generate(creds[i], supply) == Some(generated[i])
    ensures GenerateAll(creds, supply) == MergeAll(Some(map[]), generated)
    decreases |creds|
  {
    if creds == [] {
    } else {
      var n := |creds| - 1;
      GenerateAllByParts(creds[..n], supply, generated[..n]);
      assert Generate(creds[n], supply) == Some(generated[n]);
    }
  }

  /** And a part that rejects makes the whole reject. */
  lemma {:induction false} GenerateAllRejects(creds: seq<Credentials>, supply: Supply, i: nat)
    requires i < |creds| && Generate(creds[i], supply) == None
    ensures GenerateAll(creds, supply) == None
    decreases |creds|
  {
    if i == |creds| - 1 {
    } else {
      GenerateAllRejects(creds[..|creds| - 1], supply, i);
    }
  }

  /** The order in which the parts of each composed credential settle, at every node. */
  datatype Settling = Settling(order: seq<nat>, parts: seq<Settling>)

  ghost predicate Fits(s: Settling, c: Credentials)
    decreases c
  {
    c.Composed? ==>
      && |s.parts| == |c.creds| && Covers(s.order, |c.creds|)
      && forall i :: 0 <= i < |c.creds| ==> Fits(s.parts[i], c.creds[i])
  }

  ghost function Content(m: Option<Metadata>): (r: Option<Entries>)
    reads if m.Some? then {m.value} else {}
  {
    if m.Some? then Some(m.value.internalRepr) else None
  }

  /** generateMetadata on a whole tree: whatever order the promises settle in, at every
      node, it comes to what Generate says, and so to the union of the leaves. A new object
      stands for the one that a generator hands over. */
  method GenerateMetadata(c: Credentials, supply: Supply, s: Settling) returns (r: Option<Metadata>)
    requires forall g :: supply(g).Some? ==> Legal(supply(g).value)
    requires Fits(s, c)
    ensures r.Some? ==> fresh(r.value) && r.value.Valid()
    ensures Content(r) == Generate(c, supply)
    ensures !c.Single? ==> Content(r) == Settled(Leaves(c), supply)
    decreases c
  {
    GenerateMeans(c, supply);
    hide Legal, Settled, Leaves;
    match c
    case Empty =>
      var m := new Metadata();
      return Some(m);
    case Single(g) =>
      if supply(g).None? { return None; }
      var m := new Metadata();
      m.internalRepr := supply(g).value;
      return Some(m);
    case Composed(creds) =>
      var outcomes: seq<Option<Metadata>> := [];
      for i := 0 to |creds|
        invariant |outcomes| == i
        invariant forall j :: 0 <= j < i && outcomes[j].Some? ==> fresh(outcomes[j].value) && outcomes[j].value.Valid()
        invariant forall j :: 0 <= j < i ==> Content(outcomes[j]) == Generate(creds[j], supply)
      {
        var outcome := GenerateMetadata(creds[i], supply, s.parts[i]);
        outcomes := outcomes + [outcome];
      }
      var generated := PromiseAll(outcomes, s.order);
      if generated.None? {
        ghost var i :| 0 <= i < |creds| && outcomes[i].None?;
        GenerateAllRejects(creds, supply, i);
        return None;
      }
      GenerateAllByParts(creds, supply, Snapshot(generated.value));
      var ok, base := MergeGenerated(generated.value);
      r := if ok then Some(base) else None;
  }
}
