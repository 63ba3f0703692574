/** The weighted number of comparisons that running the emitted code takes, and that the order
    chosen by fillOut makes it the least possible. */
module KeywordComparisons {
  import opened KeywordTrie
  import opened CompareMacros
  import opened KeywordMatcher
  import opened KeywordCost

  // ----- sums over a set of words -----

  ghost function Sum(s: set<Word>, h: Word -> real): real
    decreases |s|
  {
    if s == {} then 0.0 else var w :| w in s; h(w) + Sum(s - {w}, h)
  }

  lemma {:induction false} SumPick(s: set<Word>, h: Word -> real, w: Word)
    requires w in s
    ensures Sum(s, h) == h(w) + Sum(s - {w}, h)
    decreases |s|
  {
    var v :| v in s && Sum(s, h) == h(v) + Sum(s - {v}, h);
    if v != w {
      SumPick(s - {v}, h, w);
      SumPick(s - {w}, h, v);
      assert s - {v} - {w} == s - {w} - {v};
    }
  }

  lemma {:induction false} SumUnion(a: set<Word>, b: set<Word>, h: Word -> real)
    requires a !! b
    ensures Sum(a + b, h) == Sum(a, h) + Sum(b, h)
    decreases |a|
  {
    if a == {} {
      assert a + b == b;
    } else {
      var w :| w in a;
      SumPick(a, h, w);
      SumPick(a + b, h, w);
      SumUnion(a - {w}, b, h);
      assert a + b - {w} == (a - {w}) + b;
    }
  }

  lemma {:induction false} SumZero(s: set<Word>, h: Word -> real)
    requires forall w :: w in s ==> h(w) == 0.0
    ensures Sum(s, h) == 0.0
    decreases |s|
  {
    if s != {} {
      var w :| w in s;
      SumPick(s, h, w);
      SumZero(s - {w}, h);
    }
  }

  lemma {:induction false} SumSame(s: set<Word>, g: Word -> real, h: Word -> real)
    requires forall w :: w in s ==> g(w) == h(w)
    ensures Sum(s, g) == Sum(s, h)
    decreases |s|
  {
    if s != {} {
      var w :| w in s;
      SumPick(s, g, w);
      SumPick(s, h, w);
      SumSame(s - {w}, g, h);
    }
  }

  // ----- Cost is a sum over the words of the tree -----

  ghost function Under(f: Node): (s: set<Word>)
    decreases f, 1
  {
    {f.fullPrefix} + UnderAll(f.keys)
  }

  ghost function UnderAll(keys: seq<Node>): (s: set<Word>)
    decreases keys, 0
  {
    if keys == [] then {} else Under(keys[0]) + UnderAll(keys[1..])
  }

  lemma {:induction false} UnderOne(keys: seq<Node>, w: Word) returns (i: nat)
    requires w in UnderAll(keys)
    ensures i < |keys| && w in Under(keys[i])
    decreases |keys|
  {
    if w in Under(keys[0]) { return 0; }
    i := UnderOne(keys[1..], w);
    i := i + 1;
  }

  lemma {:induction false} UnderEach(keys: seq<Node>, i: nat, w: Word)
    requires i < |keys| && w in Under(keys[i])
    ensures w in UnderAll(keys)
    decreases |keys|
  {
    if i > 0 { UnderEach(keys[1..], i - 1, w); }
  }

  lemma {:induction false} UnderExtends(t: Trie, above: Word, f: Node, w: Word)
    requires Arranged(t, above, f) && w in Under(f)
    ensures f.fullPrefix <= w
    decreases f
  {
    if w != f.fullPrefix {
      var i := UnderOne(f.keys, w);
      UnderExtends(t.keys[f.keys[i].prefix], f.fullPrefix, f.keys[i], w);
    }
  }

  lemma UnderChild(t: Trie, above: Word, f: Node, i: nat, w: Word)
    requires WellFormed(t) && Arranged(t, above, f) && i < |f.keys| && w in Under(f.keys[i])
    ensures |w| > |f.fullPrefix| && w[|f.fullPrefix|] == f.keys[i].prefix[0]
  {
    UnderExtends(t.keys[f.keys[i].prefix], f.fullPrefix, f.keys[i], w);
    assert w[|f.fullPrefix|] == f.keys[i].fullPrefix[|f.fullPrefix|];
  }

  ghost predicate Apart(a: Node, b: Node) { Under(a) !! Under(b) }

  // Words below different children differ, and all of them differ from the word of their parent.
  lemma ChildrenApart(t: Trie, above: Word, f: Node, i: nat, j: nat)
    requires WellFormed(t) && Arranged(t, above, f) && i < j < |f.keys|
    ensures Apart(f.keys[i], f.keys[j])
  {
    forall w | w in Under(f.keys[i]) ensures w !in Under(f.keys[j]) {
      UnderChild(t, above, f, i, w);
      if w in Under(f.keys[j]) { UnderChild(t, above, f, j, w); }
    }
  }

  lemma ParentApart(t: Trie, above: Word, f: Node)
    requires WellFormed(t) && Arranged(t, above, f)
    ensures f.fullPrefix !in UnderAll(f.keys)
  {
    if f.fullPrefix in UnderAll(f.keys) {
      var i := UnderOne(f.keys, f.fullPrefix);
      UnderChild(t, above, f, i, f.fullPrefix);
    }
  }

  // ----- weights are totals -----

  // The weights that the map gives to the words.
  ghost function Total(weights: map<Word, real>, words: set<Word>): real {
    Sum(weights.Keys * words, Given(weights))
  }

  function Given(weights: map<Word, real>): Word -> real {
    w => if w in weights then weights[w] else 0.0
  }

  // The weight of every node is the sum of the listed weights of the words of its subtree.
  ghost predicate Totalled(weights: map<Word, real>, f: Node)
    decreases f
  {
    && f.weight == Total(weights, Under(f))
    && forall i :: 0 <= i < |f.keys| ==> Totalled(weights, f.keys[i])
  }

  lemma {:induction false} WeightsTotal(weights: map<Word, real>, t: Trie, above: Word, f: Node)
    requires WellFormed(t) && Arranged(t, above, f) && Weighed(weights, f)
    ensures Totalled(weights, f)
    decreases f
  {
    forall i | 0 <= i < |f.keys| ensures Totalled(weights, f.keys[i]) {
      WeightsTotal(weights, t.keys[f.keys[i].prefix], f.fullPrefix, f.keys[i]);
    }
    forall i, j | 0 <= i < j < |f.keys| ensures Apart(f.keys[i], f.keys[j]) { ChildrenApart(t, above, f, i, j); }
    ParentApart(t, above, f);
    ChildrenTotal(weights, f.keys);
    NodeTotal(weights, f);
  }

  lemma TotalUnion(weights: map<Word, real>, a: set<Word>, b: set<Word>)
    requires a !! b
    ensures Total(weights, a + b) == Total(weights, a) + Total(weights, b)
  {
    SumUnion(weights.Keys * a, weights.Keys * b, Given(weights));
    assert weights.Keys * (a + b) == weights.Keys * a + weights.Keys * b;
  }

  lemma TotalOne(weights: map<Word, real>, w: Word)
    ensures Total(weights, {w}) == if w in weights then weights[w] else 0.0
  {
    if w in weights {
      assert weights.Keys * {w} == {w} && {w} - {w} == {};
      SumPick({w}, Given(weights), w);
    } else {
      assert weights.Keys * {w} == {};
    }
  }

  lemma NodeTotal(weights: map<Word, real>, f: Node)
    requires f.selfWeight == WeightOf(weights, f.fullPrefix) && f.weight == f.selfWeight + TotalWeight(f.keys)
    requires f.fullPrefix !in UnderAll(f.keys) && TotalWeight(f.keys) == Total(weights, UnderAll(f.keys))
    ensures f.weight == Total(weights, Under(f))
  {
    TotalOne(weights, f.fullPrefix);
    TotalUnion(weights, {f.fullPrefix}, UnderAll(f.keys));
  }

  lemma {:induction false} ChildrenTotal(weights: map<Word, real>, keys: seq<Node>)
    requires forall i :: 0 <= i < |keys| ==> Totalled(weights, keys[i])
    requires forall i, j :: 0 <= i < j < |keys| ==> Apart(keys[i], keys[j])
    ensures TotalWeight(keys) == Total(weights, UnderAll(keys))
    decreases |keys|
  {
    if keys == [] {
      assert weights.Keys * {} == {};
    } else {
      ChildrenTotal(weights, keys[1..]);
      FirstApart(keys);
      TotalUnion(weights, Under(keys[0]), UnderAll(keys[1..]));
    }
  }

  lemma FirstApart(keys: seq<Node>)
    requires keys != [] && forall i, j :: 0 <= i < j < |keys| ==> Apart(keys[i], keys[j])
    ensures Under(keys[0]) !! UnderAll(keys[1..])
  {
    forall w | w in UnderAll(keys[1..]) ensures w !in Under(keys[0]) {
      var i := UnderOne(keys[1..], w);
      assert Apart(keys[0], keys[i + 1]);
    }
  }

  // ----- what the words of a tree are charged -----

  // h charges every word of the tree as Cost does when d comparisons were spent on reaching f.
  ghost predicate Charges(h: Word -> real, f: Node, d: nat)
    decreases f
  {
    h(f.fullPrefix) == Times(f.selfWeight, d) && forall i :: 0 <= i < |f.keys| ==> Charges(h, f.keys[i], d + i + 1)
  }

  ghost predicate Priced(h: Word -> real, f: Node, d: nat) { Cost(f, d) == Sum(Under(f), h) }

  lemma {:induction false} CostIsSum(t: Trie, above: Word, f: Node, h: Word -> real, d: nat)
    requires WellFormed(t) && Arranged(t, above, f) && Charges(h, f, d)
    ensures Priced(h, f, d)
    decreases f
  {
    forall i | 0 <= i < |f.keys| ensures Priced(h, f.keys[i], d + i + 1) {
      CostIsSum(t.keys[f.keys[i].prefix], f.fullPrefix, f.keys[i], h, d + i + 1);
    }
    forall i, j | 0 <= i < j < |f.keys| ensures Apart(f.keys[i], f.keys[j]) { ChildrenApart(t, above, f, i, j); }
    ParentApart(t, above, f);
    ChainIsSum(f.keys, h, d);
    NodeIsSum(f, h, d);
  }

  lemma NodeIsSum(f: Node, h: Word -> real, d: nat)
    requires h(f.fullPrefix) == Times(f.selfWeight, d) && f.fullPrefix !in UnderAll(f.keys)
    requires ChainCost(f.keys, d) == Sum(UnderAll(f.keys), h)
    ensures Priced(h, f, d)
  {
    SumUnion({f.fullPrefix}, UnderAll(f.keys), h);
    SumPick({f.fullPrefix}, h, f.fullPrefix);
    assert {f.fullPrefix} - {f.fullPrefix} == {};
  }

  lemma {:induction false} ChainIsSum(keys: seq<Node>, h: Word -> real, d: nat)
    requires forall i :: 0 <= i < |keys| ==> Priced(h, keys[i], d + i + 1)
    requires forall i, j :: 0 <= i < j < |keys| ==> Apart(keys[i], keys[j])
    ensures ChainCost(keys, d) == Sum(UnderAll(keys), h)
    decreases |keys|
  {
    if keys != [] {
      var rest := keys[1..];
      forall i | 0 <= i < |rest| ensures Priced(h, rest[i], d + 1 + i + 1) { assert rest[i] == keys[i + 1]; }
      ChainIsSum(rest, h, d + 1);
      FirstApart(keys);
      SumUnion(Under(keys[0]), UnderAll(rest), h);
      assert Priced(h, keys[0], d + 0 + 1);
    }
  }

  // ----- running the code takes what Cost charges -----

  function Comparisons(m: Machine, b: Block, code: Word): (n: nat) {
    if Compiles(b) then Tests(m, b, code) else 0
  }

  // The weight of a word times the comparisons taken on its sample buffer.
  function Charge(weights: map<Word, real>, m: Machine, b: Block, buffer: Word -> Word): Word -> real {
    w => Times(WeightOf(weights, w), Comparisons(m, b, buffer(w)))
  }

  // code holds the keyword w, made of identifier parts and ended there, with room for a longer one.
  ghost predicate Sample(m: Machine, w: Word, code: Word, longest: nat) {
    && w <= code && |w| < |code| && !m.isIdentPart(code[|w|]) && (forall i :: 0 <= i < |w| ==> m.isIdentPart(w[i]))
    && Fits(m.ct, code) && longest < |code|
  }

  // Every weighted word is a keyword with a sample buffer.
  ghost predicate Sampled(weights: map<Word, real>, m: Machine, t: Trie, buffer: Word -> Word, longest: nat) {
    forall w :: w in weights ==> Lookup(t, w).Some? && Sample(m, w, buffer(w), longest)
  }

  lemma {:induction false} PathLookup(t: Trie, above: Word, f: Node, path: seq<nat>)
    requires WellFormed(t) && Arranged(t, above, f) && IsPath(f, path)
    ensures f.fullPrefix <= Descend(f, path).fullPrefix
    ensures Lookup(t, Descend(f, path).fullPrefix[|f.fullPrefix|..]) == Descend(f, path).value
    decreases |path|
  {
    PathPrefix(t, above, f, path);
    var w, n := Descend(f, path).fullPrefix, |f.fullPrefix|;
    if path == [] {
      assert w[n..] == [];
    } else {
      var child := f.keys[path[0]];
      var k := child.prefix;
      PathLookup(t.keys[k], f.fullPrefix, child, path[1..]);
      SliceDown(f.fullPrefix, k, w);
      assert Edge(t, k, w[n..]);
      LookupDown(t, k, w[n..]);
    }
  }

  lemma SliceDown(p: Word, k: Word, w: Word)
    requires p + k <= w
    ensures k <= w[|p|..] && w[|p|..][|k|..] == w[|p + k|..]
  {
    assert w[|p|..][..|k|] == (p + k)[|p|..];
  }

  lemma {:induction false} PathWeighed(weights: map<Word, real>, f: Node, path: seq<nat>)
    requires Weighed(weights, f) && IsPath(f, path)
    ensures Weighed(weights, Descend(f, path))
    decreases |path|
  {
    if path != [] { PathWeighed(weights, f.keys[path[0]], path[1..]); }
  }

  lemma {:induction false} PathSnoc(f: Node, path: seq<nat>, i: nat)
    requires IsPath(f, path) && i < |Descend(f, path).keys|
    ensures IsPath(f, path + [i]) && Descend(f, path + [i]) == Descend(f, path).keys[i] && Spent(path + [i]) == Spent(path) + i + 1
    decreases |path|
  {
    if path == [] {
      assert [] + [i] == [i] && [i][1..] == [];
    } else {
      PathSnoc(f.keys[path[0]], path[1..], i);
      assert (path + [i])[1..] == path[1..] + [i];
    }
  }

  lemma {:induction false} TimesZero(n: nat)
    ensures Times(0.0, n) == 0.0
  {
    if n > 0 { TimesZero(n - 1); }
  }

  // What a whole tree and its weights must meet for its code to be measured.
  ghost predicate Measurable(weights: map<Word, real>, m: Machine, t: Trie, f: Node, buffer: Word -> Word) {
    && WellFormed(t) && t.prefix == [] && Arranged(t, [], f) && Compiles(Emit(f)) && FitsTrie(m.ct, t)
    && Weighed(weights, f) && Sampled(weights, m, t, buffer, MaxLength(f))
  }

  // h charges the node at the end of the path what was spent on reaching it.
  ghost predicate Charged(h: Word -> real, f: Node, path: seq<nat>) {
    IsPath(f, path) ==> h(Descend(f, path).fullPrefix) == Times(Descend(f, path).selfWeight, Spent(path))
  }

  lemma NodeCharged(weights: map<Word, real>, m: Machine, t: Trie, f: Node, buffer: Word -> Word, path: seq<nat>)
    requires Measurable(weights, m, t, f, buffer)
    ensures Charged(Charge(weights, m, Emit(f), buffer), f, path)
  {
    if IsPath(f, path) {
      PathWeighed(weights, f, path);
      var u := Descend(f, path);
      if u.fullPrefix in weights {
        PathLookup(t, [], f, path);
        assert u.fullPrefix[0..] == u.fullPrefix;
        TestsAreSpent(m, t, [], f, path, buffer(u.fullPrefix));
      } else {
        TimesZero(Spent(path));
        TimesZero(Comparisons(m, Emit(f), buffer(u.fullPrefix)));
      }
    }
  }

  lemma {:induction false} TreeCharged(h: Word -> real, f: Node, path: seq<nat>, u: Node)
    requires forall p {:trigger Charged(h, f, p)} :: Charged(h, f, p)
    requires IsPath(f, path) && u == Descend(f, path)
    ensures Charges(h, u, Spent(path))
    decreases u
  {
    assert Charged(h, f, path);
    forall i | 0 <= i < |u.keys| ensures Charges(h, u.keys[i], Spent(path) + i + 1) {
      PathSnoc(f, path, i);
      TreeCharged(h, f, path + [i], u.keys[i]);
    }
  }

  lemma {:induction false} KeywordUnder(t: Trie, above: Word, f: Node, w: Word)
    requires WellFormed(t) && Arranged(t, above, f) && Lookup(t, w).Some?
    ensures f.fullPrefix + w in Under(f)
    decreases f
  {
    if w == [] {
      assert f.fullPrefix + w == f.fullPrefix;
    } else {
      var k := EdgeFor(t, w);
      var i :| 0 <= i < |f.keys| && f.keys[i].prefix == k;
      KeywordUnder(t.keys[k], f.fullPrefix, f.keys[i], w[|k|..]);
      Joined(f.fullPrefix, k, w);
      UnderEach(f.keys, i, f.fullPrefix + w);
    }
  }

  lemma Joined(p: Word, k: Word, w: Word)
    requires k <= w
    ensures p + k + w[|k|..] == p + w
  {
  }

  // The words of the tree without a weight add nothing.
  lemma OnlyWeighted(keys: set<Word>, all: set<Word>, h: Word -> real)
    requires keys <= all && forall w :: w in all && w !in keys ==> h(w) == 0.0
    ensures Sum(keys, h) == Sum(all, h)
  {
    SumZero(all - keys, h);
    SumUnion(keys, all - keys, h);
    assert keys + (all - keys) == all;
  }

  lemma WeightedUnder(weights: map<Word, real>, m: Machine, t: Trie, f: Node, buffer: Word -> Word)
    requires Measurable(weights, m, t, f, buffer)
    ensures weights.Keys <= Under(f)
  {
    forall w | w in weights ensures w in Under(f) {
      KeywordUnder(t, [], f, w);
      assert f.fullPrefix + w == w;
    }
  }

  // The weighted number of comparisons that the emitted code performs is Cost.
  lemma PerformedIsCost(weights: map<Word, real>, m: Machine, t: Trie, f: Node, buffer: Word -> Word)
    requires Measurable(weights, m, t, f, buffer)
    ensures Sum(weights.Keys, Charge(weights, m, Emit(f), buffer)) == Cost(f, 0)
  {
    var h := Charge(weights, m, Emit(f), buffer);
    forall p ensures Charged(h, f, p) { NodeCharged(weights, m, t, f, buffer, p); }
    TreeCharged(h, f, [], f);
    CostIsSum(t, [], f, h, 0);
    WeightedUnder(weights, m, t, f, buffer);
    forall w | w in Under(f) && w !in weights.Keys ensures h(w) == 0.0 { TimesZero(Comparisons(m, Emit(f), buffer(w))); }
    OnlyWeighted(weights.Keys, Under(f), h);
    assert Priced(h, f, 0);
  }

  lemma SameLongest(t: Trie, f: Node, g: Node, some: Word)
    requires WellFormed(t) && Compressed(t) && t.prefix == [] && Arranged(t, [], f) && Arranged(t, [], g) && Lookup(t, some).Some?
    ensures MaxLength(f) == MaxLength(g)
  {
    var v := LongestOverall(t, f, some);
    var w := LongestOverall(t, g, some);
  }

  lemma CodeMeasurable(table: seq<(Word, string)>, weights: map<Word, real>, m: Machine, f: Node, buffer: Word -> Word)
    requires Generated(table, f) && Weighed(weights, f) && Units(m.ct, table) && Compiles(Emit(f))
    requires Sampled(weights, m, Compact(table), buffer, MaxLength(f))
    ensures Measurable(weights, m, Compact(table), f, buffer)
  {
    CompactIsDictionary(table, []);
    CompactFits(m.ct, table);
  }

  lemma TableSampled(table: seq<(Word, string)>, weights: map<Word, real>, m: Machine, buffer: Word -> Word, longest: nat)
    requires forall w :: w in weights ==> Listed(table, w).Some? && Sample(m, w, buffer(w), longest)
    ensures Sampled(weights, m, Compact(table), buffer, longest)
  {
    forall w ensures Lookup(Compact(table), w) == Listed(table, w) { CompactIsDictionary(table, w); }
  }

  lemma SameSamples(table: seq<(Word, string)>, weights: map<Word, real>, m: Machine, f: Node, g: Node, buffer: Word -> Word)
    requires Generated(table, f) && Generated(table, g) && Sampled(weights, m, Compact(table), buffer, MaxLength(f))
    ensures Sampled(weights, m, Compact(table), buffer, MaxLength(g)) && (Compiles(Emit(f)) <==> Compiles(Emit(g)))
  {
    var t := Compact(table);
    CompactIsDictionary(table, []);
    CompilesIff(t, [], f);
    CompilesIff(t, [], g);
    if w :| w in weights { SameLongest(t, f, g, w); }
  }

  // ----- weights of words that the table does not list -----

  function Relevant(table: seq<(Word, string)>, weights: map<Word, real>): (r: map<Word, real>) {
    map w | w in weights && Listed(table, w).Some? :: weights[w]
  }

  // A weighted word is a keyword or no keyword starts with it, so that its weight reaches no node.
  ghost predicate Harmless(table: seq<(Word, string)>, weights: map<Word, real>) {
    forall w, v :: w in weights && Listed(table, w).None? ==> w != [] && (Listed(table, v).Some? ==> !(w <= v))
  }

  ghost predicate ListedAt(table: seq<(Word, string)>, t: Trie, prefix: Word, v: Word) {
    Lookup(t, v).Some? ==> Listed(table, prefix + v).Some?
  }

  // The words of t are listed behind prefix.
  ghost predicate ListedBelow(table: seq<(Word, string)>, t: Trie, prefix: Word) {
    forall v {:trigger ListedAt(table, t, prefix, v)} :: ListedAt(table, t, prefix, v)
  }

  lemma ListedFurther(table: seq<(Word, string)>, t: Trie, prefix: Word, k: Word)
    requires WellFormed(t) && ListedBelow(table, t, prefix) && k in t.keys
    ensures ListedBelow(table, t.keys[k], prefix + k)
  {
    forall v ensures ListedAt(table, t.keys[k], prefix + k, v) {
      assert ListedAt(table, t, prefix, k + v);
      assert Edge(t, k, k + v) && (k + v)[|k|..] == v;
      LookupDown(t, k, k + v);
      assert prefix + (k + v) == prefix + k + v;
    }
  }

  lemma SameWeight(table: seq<(Word, string)>, weights: map<Word, real>, t: Trie, above: Word, f: Node)
    requires WellFormed(t) && Compressed(t) && Arranged(t, above, f) && Harmless(table, weights)
    requires ListedBelow(table, t, f.fullPrefix) && (f.fullPrefix == [] || t.value.Some? || f.keys != [])
    ensures WeightOf(weights, f.fullPrefix) == WeightOf(Relevant(table, weights), f.fullPrefix)
  {
    if f.fullPrefix != [] {
      var v := LongestWord(t, above, f);
      assert ListedAt(table, t, f.fullPrefix, v) && f.fullPrefix <= f.fullPrefix + v;
    }
  }

  lemma {:induction false} Reweighed(table: seq<(Word, string)>, weights: map<Word, real>, t: Trie, above: Word, f: Node)
    requires WellFormed(t) && Compressed(t) && Arranged(t, above, f) && Harmless(table, weights)
    requires ListedBelow(table, t, f.fullPrefix) && (f.fullPrefix == [] || t.value.Some? || f.keys != [])
    requires Weighed(weights, f)
    ensures Weighed(Relevant(table, weights), f)
    decreases f
  {
    SameWeight(table, weights, t, above, f);
    forall i | 0 <= i < |f.keys| ensures Weighed(Relevant(table, weights), f.keys[i]) {
      var child := f.keys[i];
      ListedFurther(table, t, f.fullPrefix, child.prefix);
      if child.keys == [] { assert t.keys[child.prefix].keys.Keys == {}; }
      Reweighed(table, weights, t.keys[child.prefix], f.fullPrefix, child);
    }
  }

  lemma BelowRoot(table: seq<(Word, string)>, t: Trie, v: Word)
    requires Lookup(t, v) == Listed(table, v)
    ensures ListedAt(table, t, [], v)
  {
    assert [] + v == v;
  }

  lemma RootReweighed(table: seq<(Word, string)>, weights: map<Word, real>, t: Trie, f: Node)
    requires WellFormed(t) && Compressed(t) && t.prefix == [] && Arranged(t, [], f) && Harmless(table, weights)
    requires Weighed(weights, f) && ListedBelow(table, t, [])
    ensures Weighed(Relevant(table, weights), f)
  {
    assert f.fullPrefix == [];
    Reweighed(table, weights, t, [], f);
  }

  lemma TableReweighed(table: seq<(Word, string)>, weights: map<Word, real>, f: Node)
    requires Generated(table, f) && Weighed(weights, f) && Harmless(table, weights)
    ensures Weighed(Relevant(table, weights), f)
  {
    var t := Compact(table);
    CompactIsDictionary(table, []);
    forall v ensures ListedAt(table, t, [], v) {
      CompactIsDictionary(table, v);
      BelowRoot(table, t, v);
    }
    RootReweighed(table, weights, t, f);
  }

  // ----- the result -----

  // The weight of every weighted keyword times the comparisons that the code takes to find it.
  ghost function Performed(table: seq<(Word, string)>, weights: map<Word, real>, m: Machine, f: Node, buffer: Word -> Word): real {
    Sum(WeightedKeywords(table, weights), TimesComparisons(weights, m, Emit(f), buffer))
  }

  function WeightedKeywords(table: seq<(Word, string)>, weights: map<Word, real>): set<Word> {
    set w | w in weights && Listed(table, w).Some?
  }

  function TimesComparisons(weights: map<Word, real>, m: Machine, b: Block, buffer: Word -> Word): Word -> real {
    w => if w in weights then Scaled(weights[w], Comparisons(m, b, buffer(w))) else 0.0
  }

  function Scaled(w: real, n: nat): real { w * n as real }

  lemma TimesIsScaled(w: real, n: nat)
    ensures Times(w, n) == Scaled(w, n)
  {
    TimesIsProduct(w, n);
  }

  lemma WordCharged(table: seq<(Word, string)>, weights: map<Word, real>, m: Machine, b: Block, buffer: Word -> Word, w: Word)
    requires w in Relevant(table, weights)
    ensures TimesComparisons(weights, m, b, buffer)(w) == Charge(Relevant(table, weights), m, b, buffer)(w)
  {
    TimesIsScaled(weights[w], Comparisons(m, b, buffer(w)));
  }

  lemma PerformedIsCharge(table: seq<(Word, string)>, weights: map<Word, real>, m: Machine, b: Block, buffer: Word -> Word,
                          g: Word -> real, h: Word -> real)
    requires g == TimesComparisons(weights, m, b, buffer) && h == Charge(Relevant(table, weights), m, b, buffer)
    ensures Sum(WeightedKeywords(table, weights), g) == Sum(Relevant(table, weights).Keys, h)
  {
    assert Relevant(table, weights).Keys == WeightedKeywords(table, weights);
    forall w | w in WeightedKeywords(table, weights) ensures g(w) == h(w) { WordCharged(table, weights, m, b, buffer, w); }
    SumSame(WeightedKeywords(table, weights), g, h);
  }

  // The code of the sorted tree performs the least weighted number of comparisons of all sibling orders.
  lemma FewestComparisons(table: seq<(Word, string)>, weights: map<Word, real>, m: Machine, buffer: Word -> Word, f: Node, g: Node)
    requires Generated(table, f) && Weighed(weights, f) && Sorted(f) && Compiles(Emit(f))
    requires Generated(table, g) && Weighed(weights, g)
    requires Units(m.ct, table) && Harmless(table, weights)
    requires forall w :: w in weights && Listed(table, w).Some? ==> Sample(m, w, buffer(w), MaxLength(f))
    ensures Compiles(Emit(g)) && Performed(table, weights, m, f, buffer) <= Performed(table, weights, m, g, buffer)
  {
    var relevant := Relevant(table, weights);
    TableReweighed(table, weights, f);
    TableReweighed(table, weights, g);
    TableSampled(table, relevant, m, buffer, MaxLength(f));
    SameSamples(table, relevant, m, f, g, buffer);
    CodeMeasurable(table, relevant, m, f, buffer);
    CodeMeasurable(table, relevant, m, g, buffer);
    PerformedIsCost(relevant, m, Compact(table), f, buffer);
    PerformedIsCost(relevant, m, Compact(table), g, buffer);
    PerformedIsCharge(table, weights, m, Emit(f), buffer,
      TimesComparisons(weights, m, Emit(f), buffer), Charge(relevant, m, Emit(f), buffer));
    PerformedIsCharge(table, weights, m, Emit(g), buffer,
      TimesComparisons(weights, m, Emit(g), buffer), Charge(relevant, m, Emit(g), buffer));
    SortedCheapest(relevant, Compact(table), [], f, g, 0);
  }
}
