/** What the combined module's attribute and metadata tables mean, apart from how they are built. */
module LinkTables {
  import opened Maybe
  import opened References

  // The lines after one definition, already told apart by their patterns.
  datatype Line =
    | Declare(text: string)
    | RootMeta(index: nat, name: string)
    | ChildMeta(index: nat, name: string, parent: nat)
    | Attributes(number: nat, body: string)
    | Other

  datatype Input = Input(body: string, lines: seq<Line>)

  datatype MetaData = MetaData(index: nat, name: string, parent: Option<nat>)

  datatype Tables = Tables(attributes: seq<string>, meta: seq<MetaData>)

  // Indices are dense and follow insertion order, no parent comes later, and nothing is listed twice.
  ghost predicate WellFormed(t: Tables) {
    && (forall i, j :: 0 <= i < j < |t.attributes| ==> t.attributes[i] != t.attributes[j])
    && (forall i, j :: 0 <= i < j < |t.meta| ==> t.meta[i].name != t.meta[j].name)
    && (forall i :: 0 <= i < |t.meta| ==> t.meta[i].index == i)
    && (forall i :: 0 <= i < |t.meta| && t.meta[i].parent.Some? ==> t.meta[i].parent.value <= i)
  }

  // Every parent index is smaller than its child's.
  ghost predicate Rooted(t: Tables) {
    && WellFormed(t)
    && forall i :: 0 <= i < |t.meta| && t.meta[i].parent.Some? ==> t.meta[i].parent.value < i
  }

  ghost predicate Extends(t: Tables, u: Tables) {
    t.attributes <= u.attributes && t.meta <= u.meta
  }

  ghost function NamesOf(t: Tables): set<string> {
    set i | 0 <= i < |t.meta| :: t.meta[i].name
  }

  // ----- what an input says -----

  predicate IsMeta(l: Line) { l.RootMeta? || l.ChildMeta? }

  ghost predicate Names(lines: seq<Line>, i: nat, name: string) {
    exists k :: 0 <= k < |lines| && IsMeta(lines[k]) && lines[k].index == i && lines[k].name == name
  }

  function LastAttribute(lines: seq<Line>, n: nat): (r: Option<string>) {
    if lines == [] then None
    else
      var l := lines[|lines| - 1];
      if l.Attributes? && l.number == n then Some(l.body) else LastAttribute(lines[..|lines| - 1], n)
  }

  // The bodies of the attribute lines, in order.
  function Bodies(lines: seq<Line>): (r: seq<string>) {
    if lines == [] then []
    else Bodies(lines[..|lines| - 1]) + if lines[|lines| - 1].Attributes? then [lines[|lines| - 1].body] else []
  }

  function AllBodies(inputs: seq<Input>): (r: seq<string>) {
    if inputs == [] then [] else AllBodies(inputs[..|inputs| - 1]) + Bodies(inputs[|inputs| - 1].lines)
  }

  ghost function LocalNames(lines: seq<Line>): set<string> {
    set k | 0 <= k < |lines| && IsMeta(lines[k]) :: lines[k].name
  }

  ghost function AllNames(inputs: seq<Input>): set<string> {
    if inputs == [] then {} else AllNames(inputs[..|inputs| - 1]) + LocalNames(inputs[|inputs| - 1].lines)
  }

  ghost function RootNames(lines: seq<Line>): set<string> {
    set k | 0 <= k < |lines| && lines[k].RootMeta? :: lines[k].name
  }

  ghost function RootIndices(lines: seq<Line>): set<nat> {
    set k | 0 <= k < |lines| && lines[k].RootMeta? :: lines[k].index
  }

  // ----- meaning of a printed reference -----

  // out, read against the final tables, stands for what p stood for in its own module.
  ghost predicate Denotes(lines: seq<Line>, t: Tables, p: Piece, out: Piece) {
    match p
    case Text(_) => out == p
    case Ref(Hash, n) =>
      out.Ref? && out.kind == Hash && out.number < |t.attributes| && LastAttribute(lines, n) == Some(t.attributes[out.number])
    case Ref(Bang, n) =>
      out.Ref? && out.kind == Bang && out.number < |t.meta| && Names(lines, n, t.meta[out.number].name)
  }

  ghost predicate Faithful(lines: seq<Line>, t: Tables, ps: seq<Piece>, out: seq<Piece>) {
    |ps| == |out| && forall i :: 0 <= i < |ps| ==> Denotes(lines, t, ps[i], out[i])
  }

  // Later modules only append to the tables, so what was printed keeps its meaning.
  lemma FaithfulExtends(lines: seq<Line>, t: Tables, u: Tables, ps: seq<Piece>, out: seq<Piece>)
    requires Extends(t, u) && Faithful(lines, t, ps, out)
    ensures Faithful(lines, u, ps, out)
  {
    forall i | 0 <= i < |ps| ensures Denotes(lines, u, ps[i], out[i]) {
      assert Denotes(lines, t, ps[i], out[i]);
    }
  }

  // A printed list has the shape of the parsed one and so is read back unchanged.
  lemma {:induction false} FaithfulAlternates(lines: seq<Line>, t: Tables, ps: seq<Piece>, out: seq<Piece>, afterRef: bool)
    requires Faithful(lines, t, ps, out) && Alternating(ps, afterRef)
    ensures Alternating(out, afterRef)
    decreases |ps|
  {
    if ps != [] {
      assert Denotes(lines, t, ps[0], out[0]) && Denotes(lines, t, ps[1], out[1]);
      if ps[1].Ref? {
        forall i | 0 <= i < |ps[2..]| ensures Denotes(lines, t, ps[2..][i], out[2..][i]) {
          assert Denotes(lines, t, ps[i + 2], out[i + 2]);
        }
        FaithfulAlternates(lines, t, ps[2..], out[2..], true);
      }
    }
  }

  lemma FaithfulReads(lines: seq<Line>, t: Tables, s: string, out: seq<Piece>)
    requires Faithful(lines, t, Pieces(s), out)
    ensures Pieces(Print(out)) == out
  {
    PiecesAlternate(s, false);
    FaithfulAlternates(lines, t, Pieces(s), out, false);
    AlternatingReparses(out, false);
  }

  // ----- where global entries come from -----

  // A metadata node that names itself as its parent.
  predicate SelfParented(l: Line) { l.ChildMeta? && l.parent == l.index }

  // The module has the number of l for another name too.
  ghost predicate SharesIndex(lines: seq<Line>, l: Line)
    requires IsMeta(l)
  {
    exists j :: 0 <= j < |lines| && IsMeta(lines[j]) && lines[j].name != l.name && lines[j].index == l.index
  }

  // Some line of the module added entry i: a root line, or a child line of a name without a root
  // line. The parent's index is smaller unless the line is self-parented, and such a line got its
  // turn because another line had mapped its number.
  ghost predicate From(lines: seq<Line>, t: Tables, i: nat)
    requires i < |t.meta|
  {
    exists k :: 0 <= k < |lines| && IsMeta(lines[k]) && lines[k].name == t.meta[i].name &&
      match t.meta[i].parent
      case None => lines[k].RootMeta?
      case Some(q) =>
        && lines[k].ChildMeta? && q < |t.meta| && Names(lines, lines[k].parent, t.meta[q].name)
        && lines[k].name !in RootNames(lines)
        && (q < i <==> !SelfParented(lines[k])) && (SelfParented(lines[k]) ==> SharesIndex(lines, lines[k]))
  }

  // Entry i was added by the first module that has its name.
  ghost predicate FromSome(inputs: seq<Input>, t: Tables, i: nat)
    requires i < |t.meta|
  {
    exists k :: 0 <= k < |inputs| && t.meta[i].name !in AllNames(inputs[..k]) && From(inputs[k].lines, t, i)
  }

  ghost predicate Provenance(inputs: seq<Input>, t: Tables) {
    && (forall i :: 0 <= i < |t.meta| ==> FromSome(inputs, t, i))
    && (inputs != [] ==> AllNames(inputs[..|inputs| - 1]) <= NamesOf(t))
  }

  lemma FromExtends(lines: seq<Line>, t: Tables, u: Tables, i: nat)
    requires Extends(t, u) && i < |t.meta| && From(lines, t, i)
    ensures From(lines, u, i)
  {
  }

  lemma NamesExtend(t: Tables, u: Tables)
    requires Extends(t, u)
    ensures NamesOf(t) <= NamesOf(u)
  {
    forall i | 0 <= i < |t.meta| ensures t.meta[i].name in NamesOf(u) { assert u.meta[i] == t.meta[i]; }
  }

  lemma ProvenanceExtends(inputs: seq<Input>, t: Tables, u: Tables)
    requires Extends(t, u) && Provenance(inputs, t)
    requires forall i :: |t.meta| <= i < |u.meta| ==> FromSome(inputs, u, i)
    ensures Provenance(inputs, u)
  {
    NamesExtend(t, u);
    forall i | 0 <= i < |t.meta| ensures FromSome(inputs, u, i) {
      assert FromSome(inputs, t, i);
      var k :| 0 <= k < |inputs| && t.meta[i].name !in AllNames(inputs[..k]) && From(inputs[k].lines, t, i);
      FromExtends(inputs[k].lines, t, u, i);
    }
  }

  // ----- parents before children -----

  // When module k is read, the name is new to the tables and has no root line.
  ghost predicate Fresh(inputs: seq<Input>, k: nat, n: string)
    requires k < |inputs|
  {
    n !in AllNames(inputs[..k]) && n !in RootNames(inputs[k].lines)
  }

  // A self-parented line of module k that can add an entry.
  ghost predicate Risky(inputs: seq<Input>, k: nat, l: Line)
    requires k < |inputs|
  {
    l in inputs[k].lines && SelfParented(l) && SharesIndex(inputs[k].lines, l) && Fresh(inputs, k, l.name)
  }

  lemma ParentsPrecede(inputs: seq<Input>, t: Tables)
    requires WellFormed(t) && Provenance(inputs, t)
    requires forall k, l :: 0 <= k < |inputs| ==> !Risky(inputs, k, l)
    ensures Rooted(t)
  {
    forall i | 0 <= i < |t.meta| && t.meta[i].parent.Some? ensures t.meta[i].parent.value < i {
      assert FromSome(inputs, t, i);
      var k :| 0 <= k < |inputs| && t.meta[i].name !in AllNames(inputs[..k]) && From(inputs[k].lines, t, i);
      assert forall l :: 0 <= l < |inputs[k].lines| ==> !Risky(inputs, k, inputs[k].lines[l]);
    }
  }

  // In particular when no module gives one number to two names.
  lemma UniqueNumbersPrecede(inputs: seq<Input>, t: Tables)
    requires WellFormed(t) && Provenance(inputs, t)
    requires forall k, l :: 0 <= k < |inputs| && l in inputs[k].lines && IsMeta(l) ==> !SharesIndex(inputs[k].lines, l)
    ensures Rooted(t)
  {
    ParentsPrecede(inputs, t);
  }

  // A self-parented line of a name that is new as module k is read.
  ghost predicate NewSelfParented(inputs: seq<Input>, k: nat, l: Line)
    requires k < |inputs|
  {
    l in inputs[k].lines && SelfParented(l) && Fresh(inputs, k, l.name)
  }

  // Every child line of the name is self-parented.
  ghost predicate AllSelfParented(lines: seq<Line>, n: string) {
    forall a :: a in lines && a.ChildMeta? && a.name == n ==> SelfParented(a)
  }

  // Every parent precedes its child exactly when no self-parented line has a name that is new to
  // the tables as its module is read. Other child lines of such a name must be self-parented too, as
  // they are when the names of a module are distinct.
  lemma RootedIff(inputs: seq<Input>, t: Tables)
    requires WellFormed(t) && Provenance(inputs, t) && NamesOf(t) == AllNames(inputs)
    requires forall k, l :: 0 <= k < |inputs| && NewSelfParented(inputs, k, l) ==> AllSelfParented(inputs[k].lines, l.name)
    ensures Rooted(t) <==> forall k, l :: 0 <= k < |inputs| ==> !NewSelfParented(inputs, k, l)
  {
    if k, l :| 0 <= k < |inputs| && NewSelfParented(inputs, k, l) {
      SelfParentAdded(inputs, t, k, l);
    } else {
      forall k, l | 0 <= k < |inputs| ensures !Risky(inputs, k, l) { assert !NewSelfParented(inputs, k, l); }
      ParentsPrecede(inputs, t);
    }
  }

  // A new name whose child lines are all self-parented becomes its own global parent.
  lemma SelfParentAdded(inputs: seq<Input>, t: Tables, k: nat, l: Line)
    requires Provenance(inputs, t) && NamesOf(t) == AllNames(inputs)
    requires k < |inputs| && NewSelfParented(inputs, k, l) && AllSelfParented(inputs[k].lines, l.name)
    ensures !Rooted(t)
  {
    assert l.name in LocalNames(inputs[k].lines);
    AllNamesHas(inputs, k, l.name);
    var i :| 0 <= i < |t.meta| && t.meta[i].name == l.name;
    assert FromSome(inputs, t, i);
    var m :| 0 <= m < |inputs| && l.name !in AllNames(inputs[..m]) && From(inputs[m].lines, t, i);
    assert l.name in LocalNames(inputs[m].lines);
    if k < m { AllNamesHas(inputs[..m], k, l.name); }
    if m < k { AllNamesHas(inputs[..k], m, l.name); }
    assert t.meta[i].parent.Some? && !(t.meta[i].parent.value < i);
  }

  lemma {:induction false} AllNamesHas(inputs: seq<Input>, k: nat, n: string)
    requires k < |inputs| && n in LocalNames(inputs[k].lines)
    ensures n in AllNames(inputs)
    decreases |inputs|
  {
    if k < |inputs| - 1 { AllNamesHas(inputs[..|inputs| - 1], k, n); }
  }

  // ----- parent chains -----

  ghost function GlobalChain(t: Tables, i: nat): (c: seq<string>)
    requires Rooted(t) && i < |t.meta|
    ensures c != [] && c[0] == t.meta[i].name
    decreases i
  {
    [t.meta[i].name] + if t.meta[i].parent.Some? then GlobalChain(t, t.meta[i].parent.value) else []
  }

  // c is a chain of names that the module itself gives for its node i, up to a root if it is whole.
  ghost predicate LocalChain(lines: seq<Line>, i: nat, c: seq<string>, whole: bool)
    decreases |c|
  {
    c != [] && exists k :: 0 <= k < |lines| && ChainVia(lines, k, i, c, whole)
  }

  // The first link of the chain is line k.
  ghost predicate ChainVia(lines: seq<Line>, k: nat, i: nat, c: seq<string>, whole: bool)
    requires k < |lines| && c != []
    decreases |c|, 0
  {
    && IsMeta(lines[k]) && lines[k].index == i && lines[k].name == c[0]
    && if |c| == 1 then whole ==> lines[k].RootMeta? else lines[k].ChildMeta? && LocalChain(lines, lines[k].parent, c[1..], whole)
  }

  lemma ChainNames(lines: seq<Line>, i: nat, c: seq<string>, whole: bool)
    requires LocalChain(lines, i, c, whole)
    ensures Names(lines, i, c[0])
  {
    var k :| 0 <= k < |lines| && ChainVia(lines, k, i, c, whole);
  }

  // A metadata name has the same parent name wherever it is defined.
  ghost predicate Consistent(lines: seq<Line>, parentName: string -> Option<string>) {
    && (forall k :: 0 <= k < |lines| && lines[k].RootMeta? ==> parentName(lines[k].name) == None)
    && (forall k, n :: 0 <= k < |lines| && lines[k].ChildMeta? && Names(lines, lines[k].parent, n) ==>
          parentName(lines[k].name) == Some(n))
  }

  ghost predicate AllConsistent(inputs: seq<Input>, parentName: string -> Option<string>) {
    forall k :: 0 <= k < |inputs| ==> Consistent(inputs[k].lines, parentName)
  }

  // A self-parented line that can add an entry has two parent names: its own and the other name of
  // its number.
  lemma ConsistentRooted(inputs: seq<Input>, t: Tables, parentName: string -> Option<string>)
    requires WellFormed(t) && Provenance(inputs, t) && AllConsistent(inputs, parentName)
    ensures Rooted(t)
  {
    forall k, l | 0 <= k < |inputs| ensures !Risky(inputs, k, l) {
      if Risky(inputs, k, l) { TwoParents(inputs[k].lines, l, parentName); }
    }
    ParentsPrecede(inputs, t);
  }

  lemma TwoParents(lines: seq<Line>, l: Line, parentName: string -> Option<string>)
    requires l in lines && SelfParented(l) && SharesIndex(lines, l)
    ensures !Consistent(lines, parentName)
  {
    var k :| 0 <= k < |lines| && lines[k] == l;
    var j :| 0 <= j < |lines| && IsMeta(lines[j]) && lines[j].name != l.name && lines[j].index == l.index;
    assert Names(lines, l.parent, l.name) && Names(lines, l.parent, lines[j].name);
    if Consistent(lines, parentName) {
      OneParent(lines, k, l.name, parentName);
      OneParent(lines, k, lines[j].name, parentName);
    }
  }

  lemma OneParent(lines: seq<Line>, k: nat, n: string, parentName: string -> Option<string>)
    requires Consistent(lines, parentName) && k < |lines| && lines[k].ChildMeta? && Names(lines, lines[k].parent, n)
    ensures parentName(lines[k].name) == Some(n)
  {
  }

  lemma GlobalParent(inputs: seq<Input>, t: Tables, parentName: string -> Option<string>, i: nat)
    requires Rooted(t) && Provenance(inputs, t) && AllConsistent(inputs, parentName) && i < |t.meta|
    ensures parentName(t.meta[i].name) ==
      if t.meta[i].parent.Some? then Some(t.meta[t.meta[i].parent.value].name) else None
  {
    assert FromSome(inputs, t, i);
    var k :| 0 <= k < |inputs| && t.meta[i].name !in AllNames(inputs[..k]) && From(inputs[k].lines, t, i);
  }

  // What the global chain of an entry keeps of a local one: all of it, and nothing more if it is whole.
  ghost predicate Keeps(t: Tables, g: nat, c: seq<string>, whole: bool)
    requires Rooted(t) && g < |t.meta|
  {
    c <= GlobalChain(t, g) && (whole ==> c == GlobalChain(t, g))
  }

  // Renumbering is a homomorphism: a local parent chain is the global chain of the same name.
  lemma ChainsPreserved(inputs: seq<Input>, t: Tables, parentName: string -> Option<string>, k: nat, i: nat,
                        c: seq<string>, whole: bool, g: nat)
    requires WellFormed(t) && Provenance(inputs, t) && AllConsistent(inputs, parentName)
    requires k < |inputs| && LocalChain(inputs[k].lines, i, c, whole) && g < |t.meta| && t.meta[g].name == c[0]
    ensures Rooted(t) && Keeps(t, g, c, whole)
  {
    ConsistentRooted(inputs, t, parentName);
    ChainKept(inputs, t, parentName, k, i, c, whole, g);
  }

  lemma {:induction false} ChainKept(inputs: seq<Input>, t: Tables, parentName: string -> Option<string>, k: nat,
                                     i: nat, c: seq<string>, whole: bool, g: nat)
    requires Rooted(t) && Provenance(inputs, t) && AllConsistent(inputs, parentName)
    requires k < |inputs| && LocalChain(inputs[k].lines, i, c, whole) && g < |t.meta| && t.meta[g].name == c[0]
    ensures Keeps(t, g, c, whole)
    decreases |c|
  {
    var lines := inputs[k].lines;
    var l :| 0 <= l < |lines| && ChainVia(lines, l, i, c, whole);
    GlobalParent(inputs, t, parentName, g);
    assert Consistent(lines, parentName) && c == [c[0]] + c[1..];
    if |c| > 1 {
      ChainNames(lines, lines[l].parent, c[1..], whole);
      assert Names(lines, lines[l].parent, c[1]);
      assert parentName(lines[l].name) == Some(c[1]);
      ChainKept(inputs, t, parentName, k, lines[l].parent, c[1..], whole, t.meta[g].parent.value);
    }
  }

  ghost predicate Preserved(inputs: seq<Input>, t: Tables)
    requires Rooted(t)
  {
    forall k, i, c, whole, g :: 0 <= k < |inputs| && LocalChain(inputs[k].lines, i, c, whole) && 0 <= g < |t.meta| && t.meta[g].name == c[0] ==>
      Keeps(t, g, c, whole)
  }

  ghost function GlobalParentName(t: Tables, n: string): Option<string>
    requires Rooted(t)
  {
    if g :| 0 <= g < |t.meta| && t.meta[g].name == n && t.meta[g].parent.Some? then Some(t.meta[t.meta[g].parent.value].name) else None
  }

  // Parents precede their children and all chains are preserved exactly when no name is given two
  // different parent names.
  lemma PreservedIffConsistent(inputs: seq<Input>, t: Tables)
    requires WellFormed(t) && Provenance(inputs, t) && NamesOf(t) == AllNames(inputs)
    ensures (Rooted(t) && Preserved(inputs, t)) <==> exists parentName :: AllConsistent(inputs, parentName)
  {
    if exists parentName :: AllConsistent(inputs, parentName) {
      var parentName :| AllConsistent(inputs, parentName);
      ConsistentPreserves(inputs, t, parentName);
    }
    if Rooted(t) && Preserved(inputs, t) {
      var parentName := ConsistentParents(inputs, t);
    }
  }

  lemma ConsistentPreserves(inputs: seq<Input>, t: Tables, parentName: string -> Option<string>)
    requires WellFormed(t) && Provenance(inputs, t) && AllConsistent(inputs, parentName)
    ensures Rooted(t) && Preserved(inputs, t)
  {
    ConsistentRooted(inputs, t, parentName);
    forall k, i, c, whole, g | 0 <= k < |inputs| && LocalChain(inputs[k].lines, i, c, whole) && 0 <= g < |t.meta| && t.meta[g].name == c[0]
      ensures Keeps(t, g, c, whole)
    {
      ChainKept(inputs, t, parentName, k, i, c, whole, g);
    }
  }

  lemma ConsistentParents(inputs: seq<Input>, t: Tables) returns (parentName: string -> Option<string>)
    requires Rooted(t) && NamesOf(t) == AllNames(inputs) && Preserved(inputs, t)
    ensures AllConsistent(inputs, parentName)
  {
    parentName := n => GlobalParentName(t, n);
    forall k | 0 <= k < |inputs| ensures Consistent(inputs[k].lines, parentName) {
      PreservedConsistent(inputs, t, k, parentName);
    }
  }

  lemma PreservedConsistent(inputs: seq<Input>, t: Tables, k: nat, parentName: string -> Option<string>)
    requires Rooted(t) && NamesOf(t) == AllNames(inputs) && Preserved(inputs, t)
    requires k < |inputs| && forall n :: parentName(n) == GlobalParentName(t, n)
    ensures Consistent(inputs[k].lines, parentName)
  {
    var lines := inputs[k].lines;
    forall l | 0 <= l < |lines| && lines[l].RootMeta? ensures parentName(lines[l].name) == None {
      assert ChainVia(lines, l, lines[l].index, [lines[l].name], true);
      ChainGivesParent(inputs, t, k, lines[l].index, [lines[l].name], true);
    }
    forall l, n | 0 <= l < |lines| && lines[l].ChildMeta? && Names(lines, lines[l].parent, n)
      ensures parentName(lines[l].name) == Some(n)
    {
      LinkIsChain(lines, l, n);
      ChainGivesParent(inputs, t, k, lines[l].index, [lines[l].name, n], false);
    }
  }

  lemma LinkIsChain(lines: seq<Line>, l: nat, n: string)
    requires l < |lines| && lines[l].ChildMeta? && Names(lines, lines[l].parent, n)
    ensures LocalChain(lines, lines[l].index, [lines[l].name, n], false)
  {
    var c := [lines[l].name, n];
    var j :| 0 <= j < |lines| && IsMeta(lines[j]) && lines[j].index == lines[l].parent && lines[j].name == n;
    assert ChainVia(lines, j, lines[l].parent, [n], false) && c[1..] == [n];
    assert ChainVia(lines, l, lines[l].index, c, false);
  }

  lemma ChainGivesParent(inputs: seq<Input>, t: Tables, k: nat, i: nat, c: seq<string>, whole: bool)
    requires Rooted(t) && NamesOf(t) == AllNames(inputs) && Preserved(inputs, t)
    requires k < |inputs| && LocalChain(inputs[k].lines, i, c, whole) && (whole || |c| > 1)
    ensures GlobalParentName(t, c[0]) == if |c| > 1 then Some(c[1]) else None
  {
    ChainNames(inputs[k].lines, i, c, whole);
    AllNamesHas(inputs, k, c[0]);
    var g :| 0 <= g < |t.meta| && t.meta[g].name == c[0];
    assert Keeps(t, g, c, whole);
    assert forall h :: 0 <= h < |t.meta| && t.meta[h].name == c[0] ==> h == g;
    if |c| > 1 { assert GlobalChain(t, g)[1] == c[1]; }
  }

  // ----- the resolution worklist -----

  // One entry of the worklist: reuse the global entry of that name, or add one below the mapped
  // parent. The new index is stored before the parent's is read.
  function Settle(t: Tables, mapped: map<nat, nat>, e: Line): (r: Option<(Tables, map<nat, nat>)>)
    requires e.ChildMeta?
  {
    if exists g :: 0 <= g < |t.meta| && t.meta[g].name == e.name then
      var g := Position(t.meta, e.name);
      Some((t, mapped[e.index := g]))
    else if e.parent in mapped then
      var updated: map<nat, nat> := mapped[e.index := |t.meta|];
      Some((t.(meta := t.meta + [MetaData(|t.meta|, e.name, Some(updated[e.parent]))]), updated))
    else None
  }

  function Position(meta: seq<MetaData>, name: string): (g: nat)
    requires exists g :: 0 <= g < |meta| && meta[g].name == name
    ensures g < |meta| && meta[g].name == name
  {
    if meta[0].name == name then 0
    else
      assert exists g :: 0 <= g < |meta[1..]| && meta[1..][g].name == name by {
        var g :| 0 <= g < |meta| && meta[g].name == name;
        assert meta[1..][g - 1].name == name;
      }
      1 + Position(meta[1..], name)
  }

  // Settling an entry keeps every parent before its child exactly when the entry is not a new
  // self-parented one.
  lemma StaysRooted(t: Tables, mapped: map<nat, nat>, e: Line)
    requires Rooted(t) && e.ChildMeta? && Settle(t, mapped, e).Some? && forall i :: i in mapped ==> mapped[i] < |t.meta|
    ensures Rooted(Settle(t, mapped, e).value.0) <==> e.name in NamesOf(t) || !SelfParented(e)
  {
    var u := Settle(t, mapped, e).value.0;
    if e.name !in NamesOf(t) {
      assert forall g :: 0 <= g < |t.meta| ==> t.meta[g].name != e.name;
      assert forall i :: 0 <= i < |t.meta| ==> u.meta[i] == t.meta[i];
      assert u.meta[|t.meta|].parent.value < |t.meta| <==> e.parent != e.index;
    }
  }

  // No entry of r can be resolved before some other entry of r is.
  ghost predicate Blocks(r: set<Line>, entries: seq<Line>, known: set<string>, mapped: set<nat>) {
    r != {} && forall e :: e in r ==>
      && e in entries && e.ChildMeta? && e.name !in known && e.parent !in mapped
      && forall d :: d in entries && IsMeta(d) && d !in r ==> d.name != e.name && d.index != e.parent
  }

  ghost predicate Blocked(entries: seq<Line>, known: set<string>, mapped: set<nat>) {
    exists r :: Blocks(r, entries, known, mapped)
  }

  // Entry k was resolvable when its turn came.
  ghost predicate Grounded(trace: seq<Line>, k: nat, known: set<string>, mapped: set<nat>)
    requires k < |trace| && forall e :: e in trace ==> e.ChildMeta?
  {
    || trace[k].name in known || trace[k].parent in mapped
    || exists j :: 0 <= j < k && (trace[j].name == trace[k].name || trace[j].index == trace[k].parent)
  }

  ghost predicate Justified(trace: seq<Line>, known: set<string>, mapped: set<nat>) {
    && (forall e :: e in trace ==> e.ChildMeta?)
    && forall k :: 0 <= k < |trace| ==> Grounded(trace, k, known, mapped)
  }

  lemma {:induction false} TraceAvoids(trace: seq<Line>, n: nat, r: set<Line>, entries: seq<Line>, known: set<string>,
                                       mapped: set<nat>)
    requires n <= |trace| && Justified(trace, known, mapped) && Blocks(r, entries, known, mapped)
    requires forall e :: e in trace ==> e in entries
    ensures forall k :: 0 <= k < n ==> trace[k] !in r
  {
    if n > 0 {
      TraceAvoids(trace, n - 1, r, entries, known, mapped);
      assert Grounded(trace, n - 1, known, mapped);
    }
  }

  // If everything was resolved in a justified order then nothing was blocked.
  lemma ResolvedNotBlocked(trace: seq<Line>, entries: seq<Line>, known: set<string>, mapped: set<nat>)
    requires Justified(trace, known, mapped) && forall e :: e in trace <==> e in entries
    ensures !Blocked(entries, known, mapped)
  {
    forall r | Blocks(r, entries, known, mapped) ensures false {
      TraceAvoids(trace, |trace|, r, entries, known, mapped);
    }
  }

  // A chain of entries from e up to one that is resolvable at once.
  ghost predicate Anchored(entries: seq<Line>, known: set<string>, mapped: set<nat>, e: Line, chain: seq<Line>)
    decreases |chain|
  {
    e.ChildMeta? && e in entries &&
    if chain == [] then e.name in known || e.parent in mapped
    else chain[0].ChildMeta? && chain[0].index == e.parent && Anchored(entries, known, mapped, chain[0], chain[1..])
  }

  lemma {:induction false} AnchoredNotBlocked(entries: seq<Line>, known: set<string>, mapped: set<nat>, e: Line,
                                              chain: seq<Line>, r: set<Line>)
    requires Anchored(entries, known, mapped, e, chain) && Blocks(r, entries, known, mapped)
    ensures e !in r
    decreases |chain|
  {
    if chain != [] { AnchoredNotBlocked(entries, known, mapped, chain[0], chain[1..], r); }
  }

  // Resolution ends when every parent chain reaches a root or a known name.
  lemma AnchoredResolves(entries: seq<Line>, known: set<string>, mapped: set<nat>)
    requires forall e :: e in entries ==> exists chain :: Anchored(entries, known, mapped, e, chain)
    ensures !Blocked(entries, known, mapped)
  {
    forall r, e | Blocks(r, entries, known, mapped) && e in entries ensures e !in r {
      var chain :| Anchored(entries, known, mapped, e, chain);
      AnchoredNotBlocked(entries, known, mapped, e, chain, r);
    }
  }
}
