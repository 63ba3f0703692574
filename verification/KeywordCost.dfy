/** Why fillOut sorts siblings by weight: the order it picks minimises the weighted number of
    comparisons the emitted code performs. */
module KeywordCost {
  import opened KeywordTrie
  import opened CompareMacros
  import opened KeywordMatcher

  function WeightOf(weights: map<Word, real>, w: Word): real {
    if w in weights then weights[w] else 0.0
  }

  function TotalWeight(keys: seq<Node>): real {
    if keys == [] then 0.0 else keys[0].weight + TotalWeight(keys[1..])
  }

  ghost predicate Weighed(weights: map<Word, real>, f: Node)
    decreases f
  {
    && f.selfWeight == WeightOf(weights, f.fullPrefix)
    && f.weight == f.selfWeight + TotalWeight(f.keys)
    && forall i :: 0 <= i < |f.keys| ==> Weighed(weights, f.keys[i])
  }

  ghost predicate Descending(keys: seq<Node>) {
    forall i, j :: 0 <= i < j < |keys| ==> keys[i].weight >= keys[j].weight
  }

  ghost predicate Sorted(f: Node)
    decreases f
  {
    Descending(f.keys) && forall i :: 0 <= i < |f.keys| ==> Sorted(f.keys[i])
  }

  // ----- comparisons performed -----

  // How many comparisons a run of the emitted block evaluates.
  function Tests(m: Machine, b: Block, code: Word): (n: nat)
    requires Compiles(b)
    decreases b, 1
  {
    if b.accept.Some? && (b.accept.value.index >= |code| || !m.isIdentPart(code[b.accept.value.index])) then 0
    else ChainTests(m, b.chain, code)
  }

  function ChainTests(m: Machine, c: seq<Branch>, code: Word): (n: nat)
    requires ChainCompiles(c)
    decreases c, 0
  {
    if c == [] || c[0].base + |c[0].chars| > |code| then 0
    else if Compare(m.target, m.ct, code, c[0].base, c[0].chars) then 1 + Tests(m, c[0].body, code)
    else 1 + ChainTests(m, c[1..], code)
  }

  // w * d, kept out of the solver's nonlinear arithmetic.
  function Times(w: real, d: nat): (r: real) {
    if d == 0 then 0.0 else Times(w, d - 1) + w
  }

  lemma {:induction false} TimesIsProduct(w: real, d: nat)
    ensures Times(w, d) == w * d as real
  {
    if d != 0 {
      TimesIsProduct(w, d - 1);
      assert d as real == (d - 1) as real + 1.0;
    }
  }

  lemma {:induction false} TimesAdds(v: real, w: real, d: nat)
    ensures Times(v + w, d) == Times(v, d) + Times(w, d)
  {
    if d != 0 { TimesAdds(v, w, d - 1); }
  }

  // The listed weight of every word below f, each times the comparisons needed to reach it,
  // when d of them were spent on reaching f.
  function Cost(f: Node, d: nat): real
    decreases f, 1
  {
    Times(f.selfWeight, d) + ChainCost(f.keys, d)
  }

  function ChainCost(keys: seq<Node>, d: nat): real
    decreases keys, 0
  {
    if keys == [] then 0.0 else Cost(keys[0], d + 1) + ChainCost(keys[1..], d + 1)
  }

  // ----- the order chosen is best -----

  lemma {:induction false} CostSplits(weights: map<Word, real>, f: Node, d: nat)
    requires Weighed(weights, f)
    ensures Cost(f, d) == Times(f.weight, d) + Cost(f, 0)
    decreases f, 1
  {
    ChainCostSplits(weights, f.keys, d);
    TimesAdds(f.selfWeight, TotalWeight(f.keys), d);
  }

  lemma {:induction false} ChainCostSplits(weights: map<Word, real>, keys: seq<Node>, d: nat)
    requires forall i :: 0 <= i < |keys| ==> Weighed(weights, keys[i])
    ensures ChainCost(keys, d) == Times(TotalWeight(keys), d) + ChainCost(keys, 0)
    decreases keys, 0
  {
    if keys == [] {
      TimesAdds(0.0, 0.0, d);
    } else {
      CostSplits(weights, keys[0], d + 1);
      CostSplits(weights, keys[0], 1);
      ChainCostSplits(weights, keys[1..], d + 1);
      ChainCostSplits(weights, keys[1..], 1);
      TimesAdds(keys[0].weight, TotalWeight(keys[1..]), d);
    }
  }

  function Drop(keys: seq<Node>, j: nat): seq<Node>
    requires j < |keys|
  {
    keys[..j] + keys[j + 1..]
  }

  // Swapping a heavier sibling ahead of a lighter one does not cost more.
  lemma SwapCheaper(weights: map<Word, real>, a: Node, b: Node, d: nat)
    requires Weighed(weights, a) && Weighed(weights, b) && a.weight <= b.weight
    ensures Cost(b, d) + Cost(a, d + 1) <= Cost(a, d) + Cost(b, d + 1)
  {
    CostSplits(weights, a, d);
    CostSplits(weights, a, d + 1);
    CostSplits(weights, b, d);
    CostSplits(weights, b, d + 1);
  }

  lemma {:induction false} MoveToFront(weights: map<Word, real>, keys: seq<Node>, j: nat, d: nat)
    requires j < |keys| && forall i :: 0 <= i < |keys| ==> Weighed(weights, keys[i])
    requires forall i :: 0 <= i < j ==> keys[i].weight <= keys[j].weight
    ensures ChainCost([keys[j]] + Drop(keys, j), d) <= ChainCost(keys, d)
    ensures TotalWeight(keys) == keys[j].weight + TotalWeight(Drop(keys, j))
    decreases j
  {
    var a, b, rest := keys[0], keys[j], keys[1..];
    if j == 0 {
      assert [b] + Drop(keys, j) == keys;
      assert Drop(keys, j) == rest;
    } else {
      MoveToFront(weights, rest, j - 1, d + 1);
      var tail := Drop(rest, j - 1);
      assert ([b] + tail)[1..] == tail;
      assert Drop(keys, j) == [a] + tail;
      assert ([a] + tail)[1..] == tail;
      assert ([b] + ([a] + tail))[1..] == [a] + tail;
      SwapCheaper(weights, a, b, d + 1);
    }
  }

  ghost predicate Distinct(keys: seq<Node>) {
    forall i, j :: 0 <= i < j < |keys| ==> keys[i].prefix != keys[j].prefix
  }

  ghost function Prefixes(keys: seq<Node>): set<Word> {
    set i | 0 <= i < |keys| :: keys[i].prefix
  }

  ghost predicate NotDearer(a: Node, b: Node) {
    a.prefix == b.prefix ==> a.weight == b.weight && Cost(a, 0) <= Cost(b, 0)
  }

  // No child in g is cheaper than its namesake in f.
  ghost predicate NoDearer(f: seq<Node>, g: seq<Node>) {
    forall a, b {:trigger NotDearer(a, b)} :: a in f && b in g ==> NotDearer(a, b)
  }

  lemma DropLeaves(keys: seq<Node>, j: nat)
    requires j < |keys| && Distinct(keys)
    ensures Distinct(Drop(keys, j)) && Prefixes(Drop(keys, j)) == Prefixes(keys) - {keys[j].prefix}
    ensures forall a :: a in Drop(keys, j) ==> a in keys
  {
    var rest := Drop(keys, j);
    forall i | 0 <= i < |keys| && i != j ensures keys[i] in rest {
      assert rest[if i < j then i else i - 1] == keys[i];
    }
    forall i | 0 <= i < |rest| ensures rest[i] == keys[if i < j then i else i + 1] { }
  }

  lemma DropFirst(keys: seq<Node>)
    requires keys != [] && Distinct(keys)
    ensures Distinct(keys[1..]) && Prefixes(keys[1..]) == Prefixes(keys) - {keys[0].prefix}
  {
    DropLeaves(keys, 0);
    assert Drop(keys, 0) == keys[1..];
  }

  lemma {:induction false} SortedChainCheapest(weights: map<Word, real>, f: seq<Node>, g: seq<Node>, d: nat)
    requires forall a :: a in f ==> Weighed(weights, a)
    requires forall a :: a in g ==> Weighed(weights, a)
    requires Distinct(f) && Distinct(g) && Prefixes(f) == Prefixes(g) && NoDearer(f, g) && Descending(f)
    ensures ChainCost(f, d) <= ChainCost(g, d) && TotalWeight(f) == TotalWeight(g)
    decreases |f|
  {
    assert forall i :: 0 <= i < |g| ==> g[i].prefix in Prefixes(f);
    if f != [] {
      assert f[0].prefix in Prefixes(g);
      var j :| 0 <= j < |g| && g[j].prefix == f[0].prefix;
      assert NotDearer(f[0], g[j]);
      Heaviest(f, g, j);
      MoveToFront(weights, g, j, d);
      DropFirst(f);
      DropLeaves(g, j);
      var rest := Drop(g, j);
      assert NoDearer(f[1..], rest);
      SortedChainCheapest(weights, f[1..], rest, d + 1);
      HeadCheaper(weights, f[0], g[j], d + 1);
      ChainCostHead(g[j], rest, d);
    }
  }

  lemma ChainCostHead(a: Node, rest: seq<Node>, d: nat)
    ensures ChainCost([a] + rest, d) == Cost(a, d + 1) + ChainCost(rest, d + 1)
  {
    assert ([a] + rest)[1..] == rest;
  }

  lemma HeadCheaper(weights: map<Word, real>, a: Node, b: Node, d: nat)
    requires Weighed(weights, a) && Weighed(weights, b) && a.weight == b.weight && Cost(a, 0) <= Cost(b, 0)
    ensures Cost(a, d) <= Cost(b, d)
  {
    CostSplits(weights, a, d);
    CostSplits(weights, b, d);
  }

  lemma Heaviest(f: seq<Node>, g: seq<Node>, j: nat)
    requires f != [] && j < |g| && g[j].prefix == f[0].prefix
    requires Prefixes(f) == Prefixes(g) && NoDearer(f, g) && Descending(f)
    ensures forall i :: 0 <= i < |g| ==> g[i].weight <= g[j].weight
  {
    forall i | 0 <= i < |g| ensures g[i].weight <= g[j].weight {
      assert g[i].prefix in Prefixes(f);
      var h :| 0 <= h < |f| && f[h].prefix == g[i].prefix;
      assert NotDearer(f[0], g[j]) && NotDearer(f[h], g[i]);
    }
  }

  // Of all sibling orders of a trie, the one sorted by descending weight costs least.
  lemma {:induction false} SortedCheapest(weights: map<Word, real>, t: Trie, above: Word, f: Node, g: Node, d: nat)
    requires Arranged(t, above, f) && Weighed(weights, f) && Sorted(f)
    requires Arranged(t, above, g) && Weighed(weights, g)
    ensures f.weight == g.weight && Cost(f, d) <= Cost(g, d)
    decreases f, 1
  {
    ChildrenCheapest(weights, t, above, f, g);
    ArrangedPrefixes(t, above, f);
    ArrangedPrefixes(t, above, g);
    SortedChainCheapest(weights, f.keys, g.keys, d);
    CostFromChain(f, g, d);
  }

  lemma {:induction false} ChildrenCheapest(weights: map<Word, real>, t: Trie, above: Word, f: Node, g: Node)
    requires Arranged(t, above, f) && Weighed(weights, f) && Sorted(f)
    requires Arranged(t, above, g) && Weighed(weights, g)
    ensures NoDearer(f.keys, g.keys)
    decreases f, 0
  {
    forall a, b | a in f.keys && b in g.keys ensures NotDearer(a, b) {
      if a.prefix == b.prefix { SortedCheapest(weights, t.keys[a.prefix], f.fullPrefix, a, b, 0); }
    }
  }

  lemma CostFromChain(f: Node, g: Node, d: nat)
    requires f.selfWeight == g.selfWeight && ChainCost(f.keys, d) <= ChainCost(g.keys, d)
    ensures Cost(f, d) <= Cost(g, d)
  {
  }

  lemma ArrangedPrefixes(t: Trie, above: Word, f: Node)
    requires Arranged(t, above, f)
    ensures Distinct(f.keys) && Prefixes(f.keys) == t.keys.Keys
  {
    forall k | k in t.keys ensures k in Prefixes(f.keys) { }
  }

  // ----- Cost counts what the emitted code does -----

  // A node below f, given by the position of each child on the way down.
  ghost predicate IsPath(f: Node, path: seq<nat>)
    decreases |path|
  {
    path == [] || (path[0] < |f.keys| && IsPath(f.keys[path[0]], path[1..]))
  }

  ghost function Descend(f: Node, path: seq<nat>): (u: Node)
    requires IsPath(f, path)
    decreases |path|
  {
    if path == [] then f else Descend(f.keys[path[0]], path[1..])
  }

  // The comparisons Cost charges for reaching that node.
  ghost function Spent(path: seq<nat>): (n: nat) {
    if path == [] then 0 else path[0] + 1 + Spent(path[1..])
  }

  lemma ChainTestsStep(m: Machine, f: Node, i: nat, code: Word)
    requires i < |f.keys| && ChainCompiles(EmitChain(|f.fullPrefix|, f.keys[i..])) && Reaches(m, f, code)
    ensures Compiles(Emit(f.keys[i])) && ChainCompiles(EmitChain(|f.fullPrefix|, f.keys[i + 1..]))
    ensures ChainTests(m, EmitChain(|f.fullPrefix|, f.keys[i..]), code) == 1 +
      if f.keys[i].prefix <= code[|f.fullPrefix|..] then Tests(m, Emit(f.keys[i]), code)
      else ChainTests(m, EmitChain(|f.fullPrefix|, f.keys[i + 1..]), code)
  {
    var child, c := f.keys[i], EmitChain(|f.fullPrefix|, f.keys[i..]);
    assert f.keys[i..][0] == child && f.keys[i..][1..] == f.keys[i + 1..];
    assert c[1..] == EmitChain(|f.fullPrefix|, f.keys[i + 1..]);
    assert MaxLength(child) < |code|;
    BranchDecides(m, f.fullPrefix, child, Emit(child), code);
  }

  lemma {:induction false} ChainTestsTaken(m: Machine, f: Node, i: nat, code: Word)
    requires i <= |f.keys| && ChainCompiles(EmitChain(|f.fullPrefix|, f.keys[i..])) && Reaches(m, f, code)
    ensures var j := Taken(f.keys, code[|f.fullPrefix|..], i); j < |f.keys| ==>
      && Compiles(Emit(f.keys[j]))
      && ChainTests(m, EmitChain(|f.fullPrefix|, f.keys[i..]), code) == j - i + 1 + Tests(m, Emit(f.keys[j]), code)
    decreases |f.keys| - i
  {
    if i < |f.keys| {
      ChainTestsStep(m, f, i, code);
      if !(f.keys[i].prefix <= code[|f.fullPrefix|..]) { ChainTestsTaken(m, f, i + 1, code); }
    }
  }

  lemma {:induction false} PathPrefix(t: Trie, above: Word, f: Node, path: seq<nat>)
    requires Arranged(t, above, f) && IsPath(f, path)
    ensures f.fullPrefix <= Descend(f, path).fullPrefix
    decreases |path|
  {
    if path != [] {
      var child := f.keys[path[0]];
      PathPrefix(t.keys[child.prefix], f.fullPrefix, child, path[1..]);
    }
  }

  // code starts with the keyword of u, made of identifier parts, and ends it there.
  ghost predicate Spells(m: Machine, u: Node, code: Word) {
    && u.value.Some? && u.fullPrefix <= code && |u.fullPrefix| < |code|
    && !m.isIdentPart(code[|u.fullPrefix|])
    && forall i :: 0 <= i < |u.fullPrefix| ==> m.isIdentPart(u.fullPrefix[i])
  }

  lemma PrefixParts(p: Word, k: Word, code: Word)
    requires p + k <= code
    ensures p <= code && k <= code[|p|..]
  {
    assert p == (p + k)[..|p|] && k == (p + k)[|p|..];
  }

  lemma TestsBelow(m: Machine, t: Trie, above: Word, f: Node, i: nat, code: Word)
    requires WellFormed(t) && Arranged(t, above, f) && Compiles(Emit(f))
    requires MaxLength(f) < |code| && Fits(m.ct, code) && FitsTrie(m.ct, t) && Fits(m.ct, f.fullPrefix)
    requires i < |f.keys| && f.keys[i].fullPrefix <= code && m.isIdentPart(code[|f.fullPrefix|])
    ensures Compiles(Emit(f.keys[i])) && Tests(m, Emit(f), code) == i + 1 + Tests(m, Emit(f.keys[i]), code)
  {
    ChildrenFit(m, t, above, f);
    PrefixParts(f.fullPrefix, f.keys[i].prefix, code);
    TakenIs(t, above, f, code[|f.fullPrefix|..], i);
    assert f.keys[0..] == f.keys;
    ChainTestsTaken(m, f, 0, code);
  }

  // On a buffer that spells a keyword, the emitted code performs exactly the comparisons charged to it.
  lemma {:induction false} TestsAreSpent(m: Machine, t: Trie, above: Word, f: Node, path: seq<nat>, code: Word)
    requires WellFormed(t) && Arranged(t, above, f) && Compiles(Emit(f))
    requires MaxLength(f) < |code| && Fits(m.ct, code) && FitsTrie(m.ct, t) && Fits(m.ct, f.fullPrefix)
    requires IsPath(f, path) && Spells(m, Descend(f, path), code)
    ensures Tests(m, Emit(f), code) == Spent(path)
    decreases |path|
  {
    if path != [] {
      var child := f.keys[path[0]];
      var c := t.keys[child.prefix];
      ChildrenFit(m, t, above, f);
      PathPrefix(c, f.fullPrefix, child, path[1..]);
      assert code[|f.fullPrefix|] == Descend(f, path).fullPrefix[|f.fullPrefix|];
      TestsBelow(m, t, above, f, path[0], code);
      TestsAreSpent(m, c, f.fullPrefix, child, path[1..], code);
    }
  }

  lemma TakenIs(t: Trie, above: Word, f: Node, rest: Word, i: nat)
    requires WellFormed(t) && Arranged(t, above, f) && i < |f.keys| && f.keys[i].prefix <= rest
    ensures Taken(f.keys, rest, 0) == i
  {
    var j := Taken(f.keys, rest, 0);
    assert f.keys[i].prefix[0] == rest[0] == f.keys[j].prefix[0];
  }
}
