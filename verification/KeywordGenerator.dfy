/** The generator script: objects in, emitted matcher out. */
module KeywordGenerator {
  import opened Maybe
  import opened KeywordTrie
  import opened CompareMacros
  import opened KeywordMatcher
  import opened KeywordCost
  import opened KeywordComparisons
  import opened KeywordObjects

  // ----- fillOut -----

  // Into a list sorted by descending weight, behind its equals.
  function Placed(keys: seq<Node>, f: Node): (r: seq<Node>)
    ensures |r| == |keys| + 1 && (forall a :: a in r <==> a in keys || a == f)
  {
    if keys == [] then [f]
    else if keys[0].weight >= f.weight then [keys[0]] + Placed(keys[1..], f)
    else [f] + keys
  }

  lemma {:induction false} PlacedSorted(keys: seq<Node>, f: Node)
    requires Descending(keys)
    ensures Descending(Placed(keys, f))
    ensures TotalWeight(Placed(keys, f)) == TotalWeight(keys) + f.weight
    decreases |keys|
  {
    if keys != [] {
      if keys[0].weight >= f.weight {
        var rest := Placed(keys[1..], f);
        PlacedSorted(keys[1..], f);
        assert ([keys[0]] + rest)[1..] == rest;
        forall i | 0 <= i < |rest| ensures keys[0].weight >= rest[i].weight { assert rest[i] in rest; }
      } else {
        assert ([f] + keys)[1..] == keys;
      }
    } else {
      assert [f][1..] == [];
    }
  }

  lemma {:induction false} PlacedDistinct(keys: seq<Node>, f: Node)
    requires Distinct(keys) && forall a :: a in keys ==> a.prefix != f.prefix
    ensures Distinct(Placed(keys, f))
    decreases |keys|
  {
    if keys != [] && keys[0].weight >= f.weight {
      var rest := Placed(keys[1..], f);
      PlacedDistinct(keys[1..], f);
      forall i | 0 <= i < |rest| ensures keys[0].prefix != rest[i].prefix { assert rest[i] in rest; }
    }
  }

  // A filled-out child of t.
  ghost predicate Filled(weights: map<Word, real>, t: Trie, above: Word, f: Node) {
    f.prefix in t.keys && Arranged(t.keys[f.prefix], above, f) && Weighed(weights, f) && Sorted(f)
  }

  // The list holds the children of t other than those in todo, filled out and sorted.
  ghost predicate FilledOver(weights: map<Word, real>, t: Trie, above: Word, todo: set<Word>, list: seq<Node>) {
    && Descending(list) && Distinct(list) && Prefixes(list) == t.keys.Keys - todo
    && (forall f {:trigger Filled(weights, t, above, f)} :: f in list ==> Filled(weights, t, above, f))
  }

  lemma PrefixesIn(list: seq<Node>, f: Node)
    ensures Prefixes(Placed(list, f)) == Prefixes(list) + {f.prefix}
  {
    var r := Placed(list, f);
    forall a | a in list ensures a.prefix in Prefixes(list) { }
    forall i | 0 <= i < |r| ensures r[i].prefix in Prefixes(list) + {f.prefix} { assert r[i] in r; }
    forall a | a in r ensures a.prefix in Prefixes(r) { }
    forall i | 0 <= i < |list| ensures list[i].prefix in Prefixes(r) { assert list[i] in r; }
  }

  lemma FilledStep(weights: map<Word, real>, t: Trie, above: Word, todo: set<Word>, list: seq<Node>, f: Node)
    requires FilledOver(weights, t, above, todo, list) && Filled(weights, t, above, f) && f.prefix in todo
    ensures FilledOver(weights, t, above, todo - {f.prefix}, Placed(list, f))
    ensures TotalWeight(Placed(list, f)) == TotalWeight(list) + f.weight
  {
    forall a | a in list ensures a.prefix != f.prefix { assert a.prefix in Prefixes(list); }
    PlacedSorted(list, f);
    PlacedDistinct(list, f);
    PrefixesIn(list, f);
    forall a | a in Placed(list, f) ensures Filled(weights, t, above, a) { assert a != f ==> Filled(weights, t, above, a); }
  }

  lemma FilledWhole(weights: map<Word, real>, t: Trie, above: Word, f: Node)
    requires f.prefix == t.prefix && f.fullPrefix == above + t.prefix && f.value == t.value
    requires f.selfWeight == WeightOf(weights, f.fullPrefix) && f.weight == f.selfWeight + TotalWeight(f.keys)
    requires FilledOver(weights, t, f.fullPrefix, {}, f.keys)
    ensures Arranged(t, above, f) && Weighed(weights, f) && Sorted(f)
  {
    forall i | 0 <= i < |f.keys| ensures Filled(weights, t, f.fullPrefix, f.keys[i]) { }
    forall k | k in t.keys ensures exists i :: 0 <= i < |f.keys| && f.keys[i].prefix == k { assert k in Prefixes(f.keys); }
  }

  /** fillOut: full prefixes, weights from the leaves up, and siblings by descending weight. */
  method FillOut(node: TrieNode, weights: map<Word, real>, above: Word) returns (f: Node)
    requires node.Valid() && WellFormed(node.model)
    ensures Arranged(node.model, above, f) && Weighed(weights, f) && Sorted(f) && Totalled(weights, f)
    decreases node.repr
  {
    var fullPrefix := above + node.prefix;
    var selfWeight := if fullPrefix in weights then weights[fullPrefix] else 0.0;
    var weight := selfWeight;
    var list: seq<Node> := [];
    var todo := node.keys.Keys;
    while todo != {}
      invariant todo <= node.keys.Keys
      invariant FilledOver(weights, node.model, fullPrefix, todo, list)
      invariant weight == selfWeight + TotalWeight(list)
      decreases todo
    {
      var k :| k in todo;
      node.ValidChild(k);
      var child := FillOut(node.keys[k], weights, fullPrefix);
      weight := weight + child.weight;
      FilledStep(weights, node.model, fullPrefix, todo, list, child);
      list := Placed(list, child);
      todo := todo - {k};
    }
    f := Node(node.prefix, fullPrefix, node.value, selfWeight, weight, list);
    FilledWhole(weights, node.model, above, f);
    WeightsTotal(weights, node.model, above, f);
  }

  // ----- printSubTreeAsC and maxLength -----

  lemma ChainSplits(root: nat, keys: seq<Node>, i: nat, before: seq<Branch>)
    requires i < |keys|
    ensures before + EmitChain(root, keys[i..]) == before + [EmitBranch(root, keys[i], Emit(keys[i]))] + EmitChain(root, keys[i + 1..])
  {
    assert keys[i..][1..] == keys[i + 1..];
  }

  method PrintSubTree(f: Node) returns (b: Block)
    ensures b == Emit(f)
    decreases f
  {
    var rootIndex := |f.fullPrefix|;
    var accept := None;
    if f.value.Some? { accept := Some(Accept(rootIndex, rootIndex, f.fullPrefix, f.value.value)); }
    var chain := [];
    var item := 0;
    while item < |f.keys|
      invariant 0 <= item <= |f.keys| && EmitChain(rootIndex, f.keys) == chain + EmitChain(rootIndex, f.keys[item..])
    {
      var body := PrintSubTree(f.keys[item]);
      ChainSplits(rootIndex, f.keys, item, chain);
      chain := chain + [EmitBranch(rootIndex, f.keys[item], body)];
      item := item + 1;
    }
    b := Block(accept, chain);
  }

  method LongestPrefix(f: Node) returns (max: nat)
    ensures max == MaxLength(f)
    decreases f
  {
    max := |f.fullPrefix|;
    var i := 0;
    while i < |f.keys|
      invariant 0 <= i <= |f.keys| && MaxLength(f) == Max(max, MaxLengthOf(f.keys[i..]))
    {
      var l := LongestPrefix(f.keys[i]);
      if l > max { max := l; }
      assert f.keys[i..][1..] == f.keys[i + 1..];
      i := i + 1;
    }
  }

  // ----- the script -----

  // Every buffer the printed code may be given is answered as the table asks.
  ghost predicate Correct(table: seq<(Word, string)>, code: Block, maxTokenLength: nat) {
    forall m: Machine, buffer: Word {:trigger Answers(table, m, buffer, Exec(m, code, buffer))} ::
      Compiles(code) && Units(m.ct, table) && Fits(m.ct, buffer) && |buffer| >= maxTokenLength ==>
        Answers(table, m, buffer, Exec(m, code, buffer))
  }

  lemma GeneratedCorrect(table: seq<(Word, string)>, f: Node)
    requires Generated(table, f)
    ensures Correct(table, Emit(f), MaxLength(f) + 1)
  {
    forall m: Machine, buffer: Word | Compiles(Emit(f)) && Units(m.ct, table) && Fits(m.ct, buffer) && |buffer| >= MaxLength(f) + 1
      ensures Answers(table, m, buffer, Exec(m, Emit(f), buffer))
    {
      MatcherIsDictionary(table, f, m, buffer);
    }
  }

  method InsertAll(table: seq<(Word, string)>) returns (trie: TrieNode)
    ensures trie.Valid() && trie.model == Build(table) && fresh(trie.repr)
  {
    trie := new TrieNode([]);
    var i := 0;
    while i < |table|
      invariant 0 <= i <= |table| && trie.Valid() && fresh(trie.repr) && trie.model == Build(table[..i])
    {
      assert table[..i + 1][..i] == table[..i];
      trie.AddKeyword(table[i].0, table[i].1);
      i := i + 1;
    }
    assert table[..i] == table;
  }

  method Generate(table: seq<(Word, string)>, weights: map<Word, real>)
    returns (code: Block, maxTokenLength: nat, ghost f: Node)
    ensures Generated(table, f) && Weighed(weights, f) && Sorted(f) && Totalled(weights, f)
    ensures code == Emit(f) && maxTokenLength == MaxLength(f) + 1
    ensures Compiles(code) <==> ShortEdges(Compact(table))
    ensures Correct(table, code, maxTokenLength)
  {
    var trie := InsertAll(table);
    CompactShape(table);
    var dropped := trie.CoalesceNode();
    var filled := FillOut(trie, weights, []);
    code := PrintSubTree(filled);
    maxTokenLength := LongestPrefix(filled);
    maxTokenLength := maxTokenLength + 1;
    f := filled;
    GeneratedCompiles(table, f);
    GeneratedCorrect(table, f);
  }

  lemma CompactShape(table: seq<(Word, string)>)
    ensures WellFormed(Build(table)) && Compact(table) == CoalesceKeys(Build(table)) && WellFormed(CoalesceKeys(Build(table)))
  {
    CompactIsDictionary(table, []);
    BuildIsDictionary(table, []);
    RawWellFormed(Build(table));
  }

  lemma GeneratedCompiles(table: seq<(Word, string)>, f: Node)
    requires Generated(table, f)
    ensures Compiles(Emit(f)) <==> ShortEdges(Compact(table))
  {
    CompactShape(table);
    CompilesIff(Compact(table), [], f);
  }
}
