/** The generator's trie as the mutable objects it is made of. */
module KeywordObjects {
  import opened Maybe
  import opened KeywordTrie

  class TrieNode {
    var prefix: Word
    var keys: map<Word, TrieNode>
    var value: Option<string>
    ghost var repr: set<TrieNode>
    ghost var model: Trie   // the trie these objects stand for

    // The child under k hangs below this node and stands for the subtree under k.
    ghost predicate Child(k: Word)
      reads this, repr
      decreases repr, 0
    {
      && k in keys && k in model.keys && this in repr
      && keys[k] in repr && keys[k] in keys[k].repr && keys[k].repr <= repr && this !in keys[k].repr
      && keys[k].Valid() && keys[k].model == model.keys[k]
    }

    ghost predicate Apart(j: Word, k: Word)
      reads this, repr
    {
      j in keys && k in keys && keys[j] in repr && keys[k] in repr ==> keys[j].repr !! keys[k].repr
    }

    // A tree as far as the keys in good are concerned.
    ghost predicate Almost(good: set<Word>)
      reads this, repr
      decreases repr, 1
    {
      && this in repr && prefix == model.prefix && value == model.value && keys.Keys == model.keys.Keys
      && (forall k {:trigger Child(k)} :: k in good ==> Child(k))
      && (forall j, k {:trigger Apart(j, k)} :: j != k && j in good && k in good ==> Apart(j, k))
    }

    ghost predicate Valid()
      reads this, repr
      decreases repr, 2
    {
      Almost(keys.Keys)
    }

    lemma ValidChild(k: Word)
      requires Valid() && WellFormed(model) && k in keys
      ensures keys[k].Valid() && keys[k].repr < repr
      ensures k in model.keys && keys[k].model == model.keys[k] && WellFormed(keys[k].model)
    {
      assert Child(k);
    }

    constructor (prefix: Word)
      ensures Valid() && fresh(repr) && repr == {this} && model == Trie(prefix, map[], None)
    {
      this.prefix := prefix;
      keys := map[];
      value := None;
      repr := {this};
      model := Trie(prefix, map[], None);
    }

    // Files a child under a key, new or not.
    method SetKey(k: Word, child: TrieNode)
      requires Almost(keys.Keys - {k}) && child.Valid() && child in child.repr && this !in child.repr
      requires forall j :: j in keys && j != k ==> keys[j].repr !! child.repr
      modifies this
      ensures Valid() && keys == old(keys)[k := child] && repr == old(repr) + child.repr
      ensures model == old(model).(keys := old(model).keys[k := child.model])
    {
      forall j | j in keys && j != k ensures Child(j) && keys[j].repr !! child.repr { assert Child(j); }
      forall i, j | i != j && i in keys.Keys - {k} && j in keys.Keys - {k} ensures Apart(i, j) { }
      label before:
      keys, repr, model := keys[k := child], repr + child.repr, model.(keys := model.keys[k := child.model]);
      forall j | j in keys ensures Child(j) { assert j != k ==> old@before(Child(j)); }
      forall i, j | i != j && i in keys && j in keys ensures Apart(i, j) { assert i != k && j != k ==> old@before(Apart(i, j)); }
    }

    method SetValue(v: string)
      requires Valid()
      modifies this
      ensures Valid() && repr == old(repr) && model == old(model).(value := Some(v))
    {
      label before:
      value, model := Some(v), model.(value := Some(v));
      forall j | j in keys ensures Child(j) { assert old@before(Child(j)); }
      forall i, j | i != j && i in keys && j in keys ensures Apart(i, j) { assert old@before(Apart(i, j)); }
    }

    method AddKeyword(key: Word, v: string)
      requires Valid()
      modifies repr
      ensures Valid() && fresh(repr - old(repr))
      ensures model == Insert(old(model), key, v)
      decreases |key|
    {
      if key == [] {
        SetValue(v);
        return;
      }
      var k := key[..1];
      var child;
      if k in keys {
        assert Child(k);
        child := keys[k];
      } else {
        child := new TrieNode(k);
      }
      forall j | j in keys && j != k ensures Child(j) && keys[j].repr !! child.repr { assert Child(j) && Apart(j, k); }
      label before:
      child.AddKeyword(key[1..], v);
      forall j | j in keys && j != k ensures Child(j) && keys[j].repr !! child.repr { assert old@before(Child(j)); }
      forall i, j | i != j && i in keys.Keys - {k} && j in keys.Keys - {k} ensures Apart(i, j) { assert old@before(Apart(i, j)); }
      SetKey(k, child);
    }

    // ----- path compression -----

    // A child returned by its own compression, ready to be filed under p.
    ghost predicate Ready(entries: map<Word, TrieNode>, models: map<Word, Trie>, p: Word, space: set<TrieNode>)
      reads this, space
    {
      && p in entries && p in models && entries[p] in space && entries[p] in entries[p].repr
      && entries[p].repr <= space && this !in entries[p].repr && entries[p].Valid() && entries[p].model == models[p]
    }

    // The results under p and q share nothing.
    ghost predicate Distinct(entries: map<Word, TrieNode>, p: Word, q: Word, space: set<TrieNode>)
      reads space
    {
      p in entries && q in entries && entries[p] in space && entries[q] in space ==> entries[p].repr !! entries[q].repr
    }

    // The result under p shares nothing with the child still waiting under k.
    ghost predicate Clear(entries: map<Word, TrieNode>, p: Word, k: Word, space: set<TrieNode>)
      reads this, repr, space
    {
      p in entries && k in keys && entries[p] in space && keys[k] in repr ==> entries[p].repr !! keys[k].repr
    }

    // In the middle of the loop over the children: those in todo are untouched, the others have
    // been replaced by the entries.
    ghost predicate Rekeying(todo: set<Word>, entries: map<Word, TrieNode>, models: map<Word, Trie>, space: set<TrieNode>)
      reads this, repr, space
    {
      && todo <= keys.Keys && repr <= space && entries.Keys == models.Keys
      && Almost(todo)
      && (forall p {:trigger Ready(entries, models, p, space)} :: p in entries ==> Ready(entries, models, p, space))
      && (forall p, q {:trigger Distinct(entries, p, q, space)} :: p != q ==> Distinct(entries, p, q, space))
      && (forall p, k {:trigger Clear(entries, p, k, space)} :: k in todo ==> Clear(entries, p, k, space))
    }

    lemma EntryAdded(todo: set<Word>, entries: map<Word, TrieNode>, models: map<Word, Trie>, space: set<TrieNode>,
                     t: TrieNode, more: set<TrieNode>)
      requires Rekeying(todo, entries, models, space) && space <= more
      requires t in t.repr && t.repr <= more && this !in t.repr && t.Valid()
      requires forall j :: j in todo ==> keys[j].repr !! t.repr
      requires forall p :: p in entries ==> entries[p].repr !! t.repr
      ensures Rekeying(todo, entries[t.prefix := t], models[t.prefix := t.model], more)
    {
      var entries', models' := entries[t.prefix := t], models[t.prefix := t.model];
      forall p | p in entries' ensures Ready(entries', models', p, more) { assert p != t.prefix ==> Ready(entries, models, p, space); }
      forall p | p in entries ensures Ready(entries, models, p, space) { }
      forall p, q | p != q ensures Distinct(entries', p, q, more) { assert Distinct(entries, p, q, space); }
      forall p, j | j in todo ensures Clear(entries', p, j, more) { assert Child(j) && Clear(entries, p, j, space); }
    }

    // One turn of the loop: the child under k compresses itself and is filed under its new prefix.
    method RekeyOne(k: Word, entries: map<Word, TrieNode>, ghost todo: set<Word>, ghost models: map<Word, Trie>,
                    ghost space: set<TrieNode>)
      returns (entries': map<Word, TrieNode>, ghost models': map<Word, Trie>, ghost space': set<TrieNode>)
      requires Rekeying(todo, entries, models, space) && k in todo && WellFormed(keys[k].model)
      modifies keys[k].repr
      ensures Rekeying(todo - {k}, entries', models', space') && space <= space' && fresh(space' - space)
      ensures models' == models[Coalesce(old(keys[k].model)).prefix := Coalesce(old(keys[k].model))]
      decreases repr, 0
    {
      assert Child(k);
      forall j | j in todo && j != k ensures Child(j) && keys[j].repr !! keys[k].repr { assert Child(j) && Apart(j, k); }
      forall p | p in entries ensures Ready(entries, models, p, space) && entries[p].repr !! keys[k].repr { assert Clear(entries, p, k, space); }
      label before:
      var t := keys[k].CoalesceNode();
      forall j | j in todo && j != k ensures Child(j) { assert old@before(Child(j)); }
      forall i, j | i != j && i in todo - {k} && j in todo - {k} ensures Apart(i, j) { assert old@before(Apart(i, j)); }
      forall p | p in entries ensures Ready(entries, models, p, space) { assert old@before(Ready(entries, models, p, space)); }
      forall p, q | p != q ensures Distinct(entries, p, q, space) { assert old@before(Distinct(entries, p, q, space)); }
      forall p, j | j in todo - {k} ensures Clear(entries, p, j, space) { assert old@before(Clear(entries, p, j, space)); }
      entries', models', space' := entries[t.prefix := t], models[t.prefix := t.model], space + t.repr;
      EntryAdded(todo - {k}, entries, models, space, t, space');
    }

    // The loop over the children, in whatever order the dictionary yields them.
    method RekeyAll() returns (entries: map<Word, TrieNode>, ghost models: map<Word, Trie>, ghost space: set<TrieNode>)
      requires Valid() && WellFormed(model)
      modifies repr - {this}
      ensures Rekeying({}, entries, models, space) && old(repr) <= space && fresh(space - old(repr))
      ensures models == CoalesceKeys(model).keys
      decreases repr, 1
    {
      var todo := keys.Keys;
      entries, models, space := map[], map[], repr;
      while todo != {}
        invariant Rekeying(todo, entries, models, space) && repr <= space && fresh(space - repr)
        invariant PartCoalesced(model, keys.Keys - todo, models)
        decreases todo
      {
        var k :| k in todo;
        assert Child(k);
        PartNext(model, keys.Keys, todo, models, k);
        entries, models, space := RekeyOne(k, entries, todo, models, space);
        todo := todo - {k};
      }
      PartWhole(model, models) by { assert keys.Keys - todo == keys.Keys; }
    }

    method InstallKeys(entries: map<Word, TrieNode>, ghost models: map<Word, Trie>, ghost space: set<TrieNode>)
      requires Rekeying({}, entries, models, space)
      modifies this
      ensures Valid() && repr == space && keys == entries && model == old(model).(keys := models)
      ensures value == old(value) && prefix == old(prefix)
    {
      label before:
      keys, repr, model := entries, space, model.(keys := models);
      forall p | p in keys ensures Child(p) { assert old@before(Ready(entries, models, p, space)); }
      forall p, q | p != q && p in keys && q in keys ensures Apart(p, q) { assert old@before(Distinct(entries, p, q, space)); }
    }

    // A new node that takes over the value and the children of a node.
    static method Merge(prefix: Word, suffix: TrieNode) returns (res: TrieNode)
      requires suffix.Valid() && suffix in suffix.repr
      ensures res.Valid() && res in res.repr && fresh(res.repr - suffix.repr)
      ensures res.model == Trie(prefix, suffix.model.keys, suffix.model.value)
    {
      forall k | k in suffix.keys ensures suffix.Child(k) { }
      forall i, j | i != j && i in suffix.keys && j in suffix.keys ensures suffix.Apart(i, j) { }
      label before:
      res := new TrieNode(prefix);
      res.value, res.keys := suffix.value, suffix.keys;
      res.repr, res.model := {res} + suffix.repr, Trie(prefix, suffix.model.keys, suffix.model.value);
      forall k | k in res.keys ensures res.Child(k) { assert old@before(suffix.Child(k)); }
      forall i, j | i != j && i in res.keys && j in res.keys ensures res.Apart(i, j) { assert old@before(suffix.Apart(i, j)); }
    }

    // The second half of coalesce: this node, or a new one in place of it and its only child.
    method CollapseNode() returns (res: TrieNode)
      requires Valid()
      ensures res.Valid() && res in res.repr && res.model == Collapse(model) && fresh(res.repr - repr)
    {
      if value.Some? || |keys| != 1 { return this; }
      var p :| p in keys;
      assert Child(p);
      assert |model.keys.Keys| == |keys.Keys|;
      CollapseTo(model, p);
      res := Merge(prefix + p, keys[p]);
    }

    method CoalesceNode() returns (res: TrieNode)
      requires Valid() && WellFormed(model)
      modifies repr
      ensures Valid() && model == CoalesceKeys(old(model)) && fresh(repr - old(repr))
      ensures res.Valid() && res in res.repr && res.model == Coalesce(old(model)) && fresh(res.repr - old(repr))
      decreases repr, 2
    {
      var entries, models, space := RekeyAll();
      InstallKeys(entries, models, space);
      res := CollapseNode();
    }
  }

  // The compressed subtree of the child under k is in models, under its new prefix.
  ghost predicate Filed(t: Trie, k: Word, models: map<Word, Trie>)
    requires WellFormed(t) && k in t.keys
  {
    Coalesce(t.keys[k]).prefix in models && models[Coalesce(t.keys[k]).prefix] == Coalesce(t.keys[k])
  }

  ghost predicate FromChild(t: Trie, done: set<Word>, p: Word)
    requires WellFormed(t) && done <= t.keys.Keys
  {
    exists k :: k in done && Coalesce(t.keys[k]).prefix == p
  }

  ghost predicate PartCoalesced(t: Trie, done: set<Word>, models: map<Word, Trie>)
    requires WellFormed(t) && done <= t.keys.Keys
  {
    && (forall k {:trigger Filed(t, k, models)} :: k in done ==> Filed(t, k, models))
    && (forall p {:trigger FromChild(t, done, p)} :: p in models ==> FromChild(t, done, p))
  }

  lemma PrefixesDiffer(t: Trie, j: Word, k: Word)
    requires WellFormed(t) && j in t.keys && k in t.keys && Coalesce(t.keys[j]).prefix == Coalesce(t.keys[k]).prefix
    ensures j == k
  {
    assert j[0] == Coalesce(t.keys[j]).prefix[0] == k[0];
  }

  lemma PartStep(t: Trie, done: set<Word>, models: map<Word, Trie>, k: Word)
    requires WellFormed(t) && done <= t.keys.Keys && k in t.keys && PartCoalesced(t, done, models)
    ensures PartCoalesced(t, done + {k}, models[Coalesce(t.keys[k]).prefix := Coalesce(t.keys[k])])
  {
    var more := models[Coalesce(t.keys[k]).prefix := Coalesce(t.keys[k])];
    forall j | j in done + {k} ensures Filed(t, j, more) {
      if j != k {
        assert Filed(t, j, models);
        if Coalesce(t.keys[j]).prefix == Coalesce(t.keys[k]).prefix { PrefixesDiffer(t, j, k); }
      }
    }
    forall p | p in more ensures FromChild(t, done + {k}, p) {
      if p in models { assert FromChild(t, done, p); } else { assert k in done + {k}; }
    }
  }

  lemma PartNext(t: Trie, all: set<Word>, todo: set<Word>, models: map<Word, Trie>, k: Word)
    requires WellFormed(t) && all == t.keys.Keys && k in todo && todo <= all && PartCoalesced(t, all - todo, models)
    ensures PartCoalesced(t, all - (todo - {k}), models[Coalesce(t.keys[k]).prefix := Coalesce(t.keys[k])])
  {
    PartStep(t, all - todo, models, k);
    assert all - (todo - {k}) == all - todo + {k};
  }

  lemma PartWhole(t: Trie, models: map<Word, Trie>)
    requires WellFormed(t) && PartCoalesced(t, t.keys.Keys, models)
    ensures models == CoalesceKeys(t).keys
  {
    var u := CoalesceKeys(t);
    forall p | p in models ensures p in u.keys && u.keys[p] == models[p] {
      assert FromChild(t, t.keys.Keys, p);
      var k :| k in t.keys && Coalesce(t.keys[k]).prefix == p;
      assert Filed(t, k, models);
      CoalescedChild(t, k);
    }
    forall p | p in u.keys ensures p in models {
      var k := CoalescedOrigin(t, p);
      assert Filed(t, k, models);
    }
  }
}
