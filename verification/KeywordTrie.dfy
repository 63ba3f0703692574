module Maybe {
  datatype Option<+T> = None | Some(value: T)
}

module KeywordTrie {
  import opened Maybe

  // One code unit of the scanned buffer; a keyword is a word of such units.
  type Unit = u: int | 0 <= u < 0x1_0000
  type Word = seq<Unit>

  datatype Trie = Trie(prefix: Word, keys: map<Word, Trie>, value: Option<string>)

  const ROOT := Trie([], map[], None)

  ghost predicate Edge(t: Trie, k: Word, s: Word) {
    k in t.keys && k != [] && k <= s
  }

  // Children are filed under their own prefix, and no two of them start with the same unit.
  ghost predicate WellFormed(t: Trie)
    decreases t
  {
    && (forall k :: k in t.keys ==> k != [] && t.keys[k].prefix == k && WellFormed(t.keys[k]))
    && (forall j, k :: j in t.keys && k in t.keys && j != [] && k != [] && j[0] == k[0] ==> j == k)
  }

  ghost predicate Raw(t: Trie)
    decreases t
  {
    forall k :: k in t.keys ==> |k| == 1 && t.keys[k].prefix == k && Raw(t.keys[k])
  }

  ghost predicate Live(t: Trie)
    decreases t
  {
    forall k :: k in t.keys ==> (t.keys[k].value.Some? || t.keys[k].keys != map[]) && Live(t.keys[k])
  }

  ghost function EdgeFor(t: Trie, s: Word): (k: Word)
    requires exists k :: Edge(t, k, s)
    ensures Edge(t, k, s)
  {
    var k :| Edge(t, k, s);
    k
  }

  ghost function Lookup(t: Trie, s: Word): Option<string>
    decreases |s|
  {
    if s == [] then t.value
    else if exists k :: Edge(t, k, s) then Lookup(t.keys[EdgeFor(t, s)], s[|EdgeFor(t, s)|..])
    else None
  }

  function Insert(t: Trie, key: Word, v: string): (r: Trie)
    ensures r.prefix == t.prefix
    decreases |key|
  {
    if key == [] then t.(value := Some(v))
    else
      var k := key[..1];
      var child := if k in t.keys then t.keys[k] else Trie(k, map[], None);
      t.(keys := t.keys[k := Insert(child, key[1..], v)])
  }

  lemma RawWellFormed(t: Trie)
    requires Raw(t)
    ensures WellFormed(t)
    decreases t
  {
    forall k | k in t.keys ensures WellFormed(t.keys[k]) { RawWellFormed(t.keys[k]); }
  }

  // A node without a value is merged with its only child.
  ghost function Collapse(u: Trie): (r: Trie)
    ensures u.prefix <= r.prefix
  {
    if u.value.Some? || |u.keys| != 1 then u
    else
      var p :| p in u.keys;
      Trie(u.prefix + p, u.keys[p].keys, u.keys[p].value)
  }

  // The given subtries, each filed under its own prefix.
  ghost function Refile(image: map<Word, Trie>): (r: map<Word, Trie>)
    requires forall j, k :: j in image && k in image && image[j].prefix == image[k].prefix ==> j == k
    ensures forall k :: k in image ==> image[k].prefix in r && r[image[k].prefix] == image[k]
    ensures forall p :: p in r ==> exists k :: k in image && image[k].prefix == p
  {
    map k | k in image :: image[k].prefix := image[k]
  }

  lemma StillApart(t: Trie, image: map<Word, Trie>)
    requires WellFormed(t) && image.Keys == t.keys.Keys && forall k :: k in image ==> k <= image[k].prefix
    ensures forall j, k :: j in image && k in image && image[j].prefix == image[k].prefix ==> j == k
  {
    forall j, k | j in image && k in image && image[j].prefix == image[k].prefix ensures j == k {
      assert j[0] == image[j].prefix[0] == k[0];
    }
  }

  // What coalesce returns; the node itself is left as CoalesceKeys(t).
  ghost function Coalesce(t: Trie): (r: Trie)
    requires WellFormed(t)
    ensures t.prefix <= r.prefix
    decreases t, 2
  {
    Collapse(CoalesceKeys(t))
  }

  ghost function Images(t: Trie): (image: map<Word, Trie>)
    requires WellFormed(t)
    ensures image.Keys == t.keys.Keys
    ensures forall k :: k in image ==> k <= image[k].prefix && image[k] == Coalesce(t.keys[k])
    decreases t, 0
  {
    map k | k in t.keys :: Coalesce(t.keys[k])
  }

  ghost function CoalesceKeys(t: Trie): (r: Trie)
    requires WellFormed(t)
    ensures r.prefix == t.prefix && r.value == t.value
    decreases t, 1
  {
    StillApart(t, Images(t));
    t.(keys := Refile(Images(t)))
  }

  lemma LookupDown(t: Trie, k: Word, s: Word)
    requires WellFormed(t) && Edge(t, k, s)
    ensures Lookup(t, s) == Lookup(t.keys[k], s[|k|..])
  {
    assert EdgeFor(t, s)[0] == s[0] == k[0];
  }

  lemma {:induction false} InsertKeepsShape(t: Trie, key: Word, v: string)
    requires Raw(t) && Live(t)
    ensures Raw(Insert(t, key, v)) && Live(Insert(t, key, v))
    ensures key != [] ==> Insert(t, key, v).keys != map[]
    decreases |key|
  {
    if key != [] {
      var k := key[..1];
      var child := if k in t.keys then t.keys[k] else Trie(k, map[], None);
      InsertKeepsShape(child, key[1..], v);
      assert k in Insert(t, key, v).keys;
    }
  }

  // Two tries with the same value and the same edge for s agree on s.
  lemma LookupSameEdge(t: Trie, r: Trie, s: Word)
    requires WellFormed(t) && WellFormed(r) && s != []
    requires forall k :: Edge(t, k, s) <==> Edge(r, k, s)
    requires forall k :: Edge(t, k, s) && Edge(r, k, s) ==> t.keys[k] == r.keys[k]
    ensures Lookup(t, s) == Lookup(r, s)
  {
    if exists k :: Edge(t, k, s) {
      var k := EdgeFor(t, s);
      LookupDown(t, k, s);
      LookupDown(r, k, s);
    }
  }

  lemma RawEdge(t: Trie, k: Word, s: Word)
    requires Raw(t) && Edge(t, k, s)
    ensures k == s[..1]
  {
  }

  // One insertion updates the dictionary at that key and nowhere else.
  lemma {:induction false} InsertUpdates(t: Trie, key: Word, v: string, s: Word)
    requires Raw(t) && Live(t)
    ensures Lookup(Insert(t, key, v), s) == if s == key then Some(v) else Lookup(t, s)
    decreases |key|
  {
    var r := Insert(t, key, v);
    InsertKeepsShape(t, key, v);
    RawWellFormed(t);
    RawWellFormed(r);
    if s == [] {
    } else if key != [] && key[0] == s[0] {
      InsertUpdatesBelow(t, key, v, s);
    } else {
      forall k | k in r.keys || k in t.keys ensures Edge(t, k, s) <==> Edge(r, k, s) {
        if k <= s { if |k| == 1 { assert k[0] == s[0]; } }
      }
      LookupSameEdge(t, r, s);
    }
  }

  lemma {:induction false} InsertUpdatesBelow(t: Trie, key: Word, v: string, s: Word)
    requires Raw(t) && Live(t) && key != [] && s != [] && key[0] == s[0]
    requires WellFormed(t) && WellFormed(Insert(t, key, v))
    ensures Lookup(Insert(t, key, v), s) == if s == key then Some(v) else Lookup(t, s)
    decreases |key|, 0
  {
    var r, k := Insert(t, key, v), key[..1];
    var child := if k in t.keys then t.keys[k] else Trie(k, map[], None);
    assert k == s[..1] && s == k + s[1..] && key == k + key[1..];
    assert Edge(r, k, s);
    LookupDown(r, k, s);
    InsertUpdates(child, key[1..], v, s[1..]);
    if k in t.keys {
      assert Edge(t, k, s);
      LookupDown(t, k, s);
    } else {
      forall j | Edge(t, j, s) ensures false { RawEdge(t, j, s); }
      forall j | Edge(child, j, s[1..]) ensures false { }
    }
  }

  function Build(table: seq<(Word, string)>): (t: Trie) {
    if table == [] then ROOT
    else var last := table[|table| - 1]; Insert(Build(table[..|table| - 1]), last.0, last.1)
  }

  function Listed(table: seq<(Word, string)>, w: Word): (r: Option<string>) {
    if table == [] then None
    else if table[|table| - 1].0 == w then Some(table[|table| - 1].1)
    else Listed(table[..|table| - 1], w)
  }

  lemma {:induction false} BuildIsDictionary(table: seq<(Word, string)>, w: Word)
    ensures Raw(Build(table)) && Live(Build(table)) && Build(table).prefix == []
    ensures Lookup(Build(table), w) == Listed(table, w)
  {
    if table == [] {
      assert forall j :: !Edge(ROOT, j, w);
    } else {
      var n := |table| - 1;
      BuildIsDictionary(table[..n], w);
      InsertKeepsShape(Build(table[..n]), table[n].0, table[n].1);
      InsertUpdates(Build(table[..n]), table[n].0, table[n].1, w);
    }
  }

  // ----- path compression -----

  // What a subtree says about a word that still includes the subtree's own prefix.
  ghost function LookupFrom(t: Trie, s: Word): Option<string> {
    if t.prefix <= s then Lookup(t, s[|t.prefix|..]) else None
  }

  ghost predicate Compressed(t: Trie)
    decreases t
  {
    forall k :: k in t.keys ==> (t.keys[k].value.Some? || |t.keys[k].keys| >= 2) && Compressed(t.keys[k])
  }

  lemma CoalescedOrigin(t: Trie, p: Word) returns (k: Word)
    requires WellFormed(t) && p in CoalesceKeys(t).keys
    ensures k in t.keys && Coalesce(t.keys[k]).prefix == p && CoalesceKeys(t).keys[p] == Coalesce(t.keys[k])
  {
    StillApart(t, Images(t));
    k :| k in Images(t) && Images(t)[k].prefix == p;
  }

  lemma CoalescedChild(t: Trie, k: Word)
    requires WellFormed(t) && k in t.keys
    ensures var c := Coalesce(t.keys[k]); c.prefix in CoalesceKeys(t).keys && CoalesceKeys(t).keys[c.prefix] == c
  {
    StillApart(t, Images(t));
    assert Images(t)[k] == Coalesce(t.keys[k]);
  }

  lemma {:induction false} CoalesceKeysShape(t: Trie)
    requires WellFormed(t)
    ensures WellFormed(CoalesceKeys(t))
    decreases t, 0
  {
    var u := CoalesceKeys(t);
    forall p | p in u.keys ensures p != [] && u.keys[p].prefix == p && WellFormed(u.keys[p]) {
      var k := CoalescedOrigin(t, p);
      CoalesceShape(t.keys[k]);
    }
    forall p, q | p in u.keys && q in u.keys && p != [] && q != [] && p[0] == q[0] ensures p == q {
      var j := CoalescedOrigin(t, p);
      var k := CoalescedOrigin(t, q);
      assert j[0] == p[0] && k[0] == q[0];
    }
  }

  lemma {:induction false} CoalesceShape(t: Trie)
    requires WellFormed(t)
    ensures WellFormed(Coalesce(t))
    decreases t, 1
  {
    CoalesceKeysShape(t);
  }

  // An edge replaced by one to an equivalent child with a longer prefix.
  lemma RekeyedEdge(t: Trie, u: Trie, k: Word, c: Trie, s: Word)
    requires WellFormed(t) && WellFormed(u) && Edge(t, k, s)
    requires k <= c.prefix && c.prefix in u.keys && u.keys[c.prefix] == c && LookupFrom(c, s) == LookupFrom(t.keys[k], s)
    ensures Lookup(u, s) == Lookup(t, s)
  {
    LookupDown(t, k, s);
    var p := c.prefix;
    if p <= s {
      assert Edge(u, p, s);
      LookupDown(u, p, s);
    } else {
      forall q | q in u.keys && q[0] == s[0] ensures q == p { assert k[0] == p[0]; }
    }
  }

  // Replacing every child by an equivalent one with a longer prefix keeps the dictionary.
  lemma RekeyedLookup(t: Trie, u: Trie, image: map<Word, Trie>, s: Word)
    requires WellFormed(t) && WellFormed(u) && u.value == t.value && image.Keys == t.keys.Keys
    requires forall k :: k in image ==> k <= image[k].prefix && image[k].prefix in u.keys && u.keys[image[k].prefix] == image[k]
    requires forall q :: q in u.keys ==> exists k :: k in image && image[k].prefix == q
    requires forall k :: k in image ==> LookupFrom(image[k], s) == LookupFrom(t.keys[k], s)
    ensures Lookup(u, s) == Lookup(t, s)
  {
    if s != [] {
      if exists k :: Edge(t, k, s) {
        var k := EdgeFor(t, s);
        RekeyedEdge(t, u, k, image[k], s);
      } else {
        forall q | Edge(u, q, s) ensures false {
          var k :| k in image && image[k].prefix == q;
          assert Edge(t, k, s);
        }
      }
    }
  }

  lemma {:induction false} CoalesceKeysPreserves(t: Trie, s: Word)
    requires WellFormed(t)
    ensures Lookup(CoalesceKeys(t), s) == Lookup(t, s)
    decreases t, 0
  {
    CoalesceKeysShape(t);
    var image := Images(t);
    StillApart(t, image);
    forall k | k in image ensures LookupFrom(image[k], s) == LookupFrom(t.keys[k], s) {
      CoalescePreserves(t.keys[k], s);
    }
    RekeyedLookup(t, CoalesceKeys(t), image, s);
  }

  lemma {:induction false} CoalescePreserves(t: Trie, s: Word)
    requires WellFormed(t)
    ensures LookupFrom(Coalesce(t), s) == LookupFrom(t, s)
    decreases t, 1
  {
    var u := CoalesceKeys(t);
    CoalesceKeysShape(t);
    assert LookupFrom(u, s) == LookupFrom(t, s) by {
      if t.prefix <= s { CoalesceKeysPreserves(t, s[|t.prefix|..]); }
    }
    CollapsePreserves(u, s);
  }

  lemma CollapsePreserves(u: Trie, s: Word)
    requires WellFormed(u)
    ensures LookupFrom(Collapse(u), s) == LookupFrom(u, s)
  {
    if u.value == None && |u.keys| == 1 {
      var p :| p in u.keys;
      CollapseTo(u, p);
      MergedLookup(u, p, s);
    }
  }

  lemma CollapseTo(u: Trie, p: Word)
    requires u.value == None && |u.keys| == 1 && p in u.keys
    ensures Collapse(u) == Trie(u.prefix + p, u.keys[p].keys, u.keys[p].value)
  {
    OnlyKey(u, p);
  }

  lemma MergedLookup(u: Trie, p: Word, s: Word)
    requires WellFormed(u) && u.value == None && p in u.keys && |u.keys| == 1
    ensures LookupFrom(Trie(u.prefix + p, u.keys[p].keys, u.keys[p].value), s) == LookupFrom(u, s)
  {
    PrefixSplits(u.prefix, p, s);
    if u.prefix <= s {
      var rest := s[|u.prefix|..];
      if p <= rest { MergedBelow(u, p, rest); } else { MergedAside(u, p, rest); }
    }
  }

  lemma PrefixSplits(a: Word, b: Word, s: Word)
    ensures a + b <= s <==> a <= s && b <= s[|a|..]
    ensures a + b <= s ==> s[|a + b|..] == s[|a|..][|b|..]
  {
    if a <= s && b <= s[|a|..] { assert s == a + s[|a|..] == a + (b + s[|a|..][|b|..]); }
    if a + b <= s { assert s[..|a + b|] == a + b && s[|a|..][..|b|] == s[|a|..|a + b|]; }
  }

  lemma MergedBelow(u: Trie, p: Word, rest: Word)
    requires WellFormed(u) && p in u.keys && p <= rest
    ensures Lookup(u, rest) == Lookup(Trie(u.prefix + p, u.keys[p].keys, u.keys[p].value), rest[|p|..])
  {
    assert Edge(u, p, rest);
    LookupDown(u, p, rest);
    if rest[|p|..] != [] { LookupSameEdge(u.keys[p], Trie(u.prefix + p, u.keys[p].keys, u.keys[p].value), rest[|p|..]); }
  }

  lemma MergedAside(u: Trie, p: Word, rest: Word)
    requires u.value == None && p in u.keys && |u.keys| == 1 && !(p <= rest)
    ensures Lookup(u, rest) == None
  {
    OnlyKey(u, p);
    forall q ensures !Edge(u, q, rest) { }
  }

  lemma OnlyKey(u: Trie, p: Word)
    requires |u.keys| == 1 && p in u.keys
    ensures u.keys.Keys == {p}
  {
    assert |u.keys.Keys - {p}| == 0;
    assert u.keys.Keys == {p} + (u.keys.Keys - {p});
  }

  lemma {:induction false} CoalesceKeysCompresses(t: Trie)
    requires WellFormed(t) && Live(t)
    ensures Compressed(CoalesceKeys(t))
    decreases t, 0
  {
    var u := CoalesceKeys(t);
    forall p | p in u.keys ensures (u.keys[p].value.Some? || |u.keys[p].keys| >= 2) && Compressed(u.keys[p]) {
      var k := CoalescedOrigin(t, p);
      CoalesceCompresses(t.keys[k]);
    }
  }

  lemma {:induction false} CoalesceCompresses(t: Trie)
    requires WellFormed(t) && Live(t) && (t.value.Some? || t.keys != map[])
    ensures Compressed(Coalesce(t)) && (Coalesce(t).value.Some? || |Coalesce(t).keys| >= 2)
    decreases t, 1
  {
    var u := CoalesceKeys(t);
    CoalesceKeysCompresses(t);
    if t.value == None {
      var k :| k in t.keys;
      CoalescedChild(t, k);
      if |u.keys| == 1 {
        var p :| p in u.keys;
        CollapseTo(u, p);
      }
    }
  }
}
