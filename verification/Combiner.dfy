/** The combiner itself: tables grown in place while modules are read one after the other. */
module Combiner {
  import opened Maybe
  import opened Collections
  import opened References
  import opened LinkTables

  // Diverges is the resolution loop that never empties its worklist; Raises is an unresolved reference.
  datatype Status = Done | Diverges | Raises

  datatype Output = Output(bodies: seq<seq<Piece>>, declarations: seq<string>, tables: Tables)

  function Children(lines: seq<Line>): (c: seq<Line>)
    ensures forall e :: e in c <==> e in lines && e.ChildMeta?
  {
    if lines == [] then []
    else Children(lines[..|lines| - 1]) + if lines[|lines| - 1].ChildMeta? then [lines[|lines| - 1]] else []
  }

  function Declared(lines: seq<Line>): (d: seq<seq<Piece>>) {
    if lines == [] then []
    else Declared(lines[..|lines| - 1]) + if lines[|lines| - 1].Declare? then [Pieces(lines[|lines| - 1].text)] else []
  }

  ghost predicate AttributesMapped(lines: seq<Line>, t: Tables, am: map<nat, nat>) {
    forall n :: (n in am <==> LastAttribute(lines, n).Some?)
      && (n in am ==> am[n] < |t.attributes| && t.attributes[am[n]] == LastAttribute(lines, n).value)
  }

  ghost predicate MetaMapped(lines: seq<Line>, t: Tables, mm: map<nat, nat>) {
    forall i :: i in mm ==> mm[i] < |t.meta| && Names(lines, i, t.meta[mm[i]].name)
  }

  lemma PrefixStep(lines: seq<Line>, k: nat)
    requires k < |lines|
    ensures lines[..k + 1] == lines[..k] + [lines[k]]
    ensures RootNames(lines[..k + 1]) == RootNames(lines[..k]) + if lines[k].RootMeta? then {lines[k].name} else {}
    ensures RootIndices(lines[..k + 1]) == RootIndices(lines[..k]) + if lines[k].RootMeta? then {lines[k].index} else {}
    ensures Children(lines[..k + 1]) == Children(lines[..k]) + if lines[k].ChildMeta? then [lines[k]] else []
    ensures Bodies(lines[..k + 1]) == Bodies(lines[..k]) + if lines[k].Attributes? then [lines[k].body] else []
    ensures Declared(lines[..k + 1]) == Declared(lines[..k]) + if lines[k].Declare? then [Pieces(lines[k].text)] else []
  {
    var a, b := lines[..k], lines[..k + 1];
    assert forall i :: 0 <= i < k ==> a[i] == b[i];
    assert b[k] == lines[k] && b[..k] == a;
  }

  lemma AttributesStep(lines: seq<Line>, k: nat, t: Tables, u: Tables, am: map<nat, nat>, am': map<nat, nat>)
    requires k < |lines| && AttributesMapped(lines[..k], t, am) && Extends(t, u)
    requires if lines[k].Attributes? then
        exists g :: 0 <= g < |u.attributes| && u.attributes[g] == lines[k].body && am' == am[lines[k].number := g]
      else am' == am
    ensures AttributesMapped(lines[..k + 1], u, am')
  {
    PrefixStep(lines, k);
    var b := lines[..k + 1];
    assert b[|b| - 1] == lines[k] && b[..|b| - 1] == lines[..k];
    forall n ensures (n in am' <==> LastAttribute(b, n).Some?)
      && (n in am' ==> am'[n] < |u.attributes| && u.attributes[am'[n]] == LastAttribute(b, n).value)
    {
      assert n in am <==> LastAttribute(lines[..k], n).Some?;
    }
  }

  lemma MetaStep(lines: seq<Line>, t: Tables, u: Tables, mm: map<nat, nat>, i: nat, g: nat)
    requires MetaMapped(lines, t, mm) && Extends(t, u) && g < |u.meta|
    requires exists k :: 0 <= k < |lines| && IsMeta(lines[k]) && lines[k].index == i && lines[k].name == u.meta[g].name
    ensures MetaMapped(lines, u, mm[i := g])
  {
    assert Names(lines, i, u.meta[g].name);
  }

  lemma MetaExtends(lines: seq<Line>, t: Tables, u: Tables, mm: map<nat, nat>)
    requires MetaMapped(lines, t, mm) && Extends(t, u)
    ensures MetaMapped(lines, u, mm)
  {
  }

  // ----- printing with new numbers -----

  ghost predicate RefDefined(lines: seq<Line>, p: Piece) {
    match p
    case Text(_) => true
    case Ref(Hash, n) => LastAttribute(lines, n).Some?
    case Ref(Bang, n) => exists name :: Names(lines, n, name)
  }

  ghost predicate RefsDefined(lines: seq<Line>, ps: seq<Piece>) {
    forall i :: 0 <= i < |ps| ==> RefDefined(lines, ps[i])
  }

  ghost predicate Complete(lines: seq<Line>, mm: map<nat, nat>) {
    forall k :: 0 <= k < |lines| && IsMeta(lines[k]) ==> lines[k].index in mm
  }

  /** Maps every reference through the module's maps; a reference with no entry raises. */
  method Relink(ps: seq<Piece>, am: map<nat, nat>, mm: map<nat, nat>, ghost lines: seq<Line>,
                ghost t: Tables) returns (r: Option<seq<Piece>>)
    requires AttributesMapped(lines, t, am) && MetaMapped(lines, t, mm) && Complete(lines, mm)
    ensures r.Some? <==> RefsDefined(lines, ps)
    ensures r.Some? ==> Faithful(lines, t, ps, r.value)
  {
    var out := [];
    for i := 0 to |ps|
      invariant |out| == i && forall j :: 0 <= j < i ==> RefDefined(lines, ps[j]) && Denotes(lines, t, ps[j], out[j])
    {
      var piece := ps[i];
      if piece.Ref? {
        var table := if piece.kind.Hash? then am else mm;
        if piece.number !in table {
          assert !RefDefined(lines, ps[i]);
          return None;
        }
        piece := Ref(piece.kind, table[piece.number]);
      }
      assert RefDefined(lines, ps[i]) && Denotes(lines, t, ps[i], piece);
      out := out + [piece];
    }
    r := Some(out);
  }

  // ----- what a finished link promises -----

  ghost predicate Covered(lines: seq<Line>, t: Tables, ps: seq<Piece>, declarations: seq<string>) {
    exists out {:trigger Faithful(lines, t, ps, out)} :: Faithful(lines, t, ps, out) && Print(out) in declarations
  }

  ghost predicate BodiesFaithful(inputs: seq<Input>, t: Tables, bodies: seq<seq<Piece>>) {
    |bodies| == |inputs| && forall k :: 0 <= k < |inputs| ==> Faithful(inputs[k].lines, t, Pieces(inputs[k].body), bodies[k])
  }

  ghost predicate AllCovered(lines: seq<Line>, t: Tables, decls: seq<seq<Piece>>, declarations: seq<string>) {
    forall d :: d in decls ==> Covered(lines, t, d, declarations)
  }

  // s is one of the given declarations in renumbered form.
  ghost predicate MadeBy(lines: seq<Line>, t: Tables, decls: seq<seq<Piece>>, s: string) {
    exists d :: d in decls && RenderOf(lines, t, d, s)
  }

  ghost predicate Made(inputs: seq<Input>, t: Tables, s: string) {
    exists k :: 0 <= k < |inputs| && MadeBy(inputs[k].lines, t, Declared(inputs[k].lines), s)
  }

  // s is the declaration in renumbered form.
  ghost predicate RenderOf(lines: seq<Line>, t: Tables, d: seq<Piece>, s: string) {
    exists out {:trigger Faithful(lines, t, d, out)} :: Faithful(lines, t, d, out) && s == Print(out)
  }

  ghost predicate Renders(lines: seq<Line>, t: Tables, decls: seq<seq<Piece>>, texts: seq<string>) {
    |texts| == |decls| && forall i {:trigger RenderOf(lines, t, decls[i], texts[i])} :: 0 <= i < |decls| ==> RenderOf(lines, t, decls[i], texts[i])
  }

  ghost predicate RendersAll(inputs: seq<Input>, t: Tables, texts: seq<seq<string>>) {
    |texts| == |inputs| && forall k :: 0 <= k < |inputs| ==> Renders(inputs[k].lines, t, Declared(inputs[k].lines), texts[k])
  }

  function Flatten(texts: seq<seq<string>>): (r: seq<string>) {
    if texts == [] then [] else Flatten(texts[..|texts| - 1]) + texts[|texts| - 1]
  }

  // The declarations are those of all modules in renumbered form, each where it stands first.
  ghost predicate DeclarationsFaithful(inputs: seq<Input>, t: Tables, declarations: seq<string>) {
    exists texts {:trigger RendersAll(inputs, t, texts)} ::
      RendersAll(inputs, t, texts) && declarations == FirstOccurrences(Flatten(texts))
  }

  // The attributes are those of all modules, each where it stands first.
  ghost predicate Interned(inputs: seq<Input>, t: Tables) {
    t.attributes == FirstOccurrences(AllBodies(inputs))
  }

  // The tables of the given modules.
  ghost predicate TablesOf(inputs: seq<Input>, t: Tables) {
    WellFormed(t) && Provenance(inputs, t) && NamesOf(t) == AllNames(inputs) && Interned(inputs, t)
  }

  // The output reads against its own tables as every input reads against its own lines.
  ghost predicate Linked(inputs: seq<Input>, t: Tables, bodies: seq<seq<Piece>>, declarations: seq<string>) {
    && TablesOf(inputs, t)
    && BodiesFaithful(inputs, t, bodies) && DeclarationsFaithful(inputs, t, declarations)
  }

  // In particular every declaration of every module is there, once, and no other.
  lemma DeclarationsComplete(inputs: seq<Input>, t: Tables, declarations: seq<string>)
    requires DeclarationsFaithful(inputs, t, declarations)
    ensures Unrepeated(declarations)
    ensures forall k :: 0 <= k < |inputs| ==> AllCovered(inputs[k].lines, t, Declared(inputs[k].lines), declarations)
    ensures forall s :: s in declarations ==> Made(inputs, t, s)
  {
    var texts :| RendersAll(inputs, t, texts) && declarations == FirstOccurrences(Flatten(texts));
    FirstDistinct(Flatten(texts));
    forall k, d | 0 <= k < |inputs| && d in Declared(inputs[k].lines) ensures Covered(inputs[k].lines, t, d, declarations) {
      var i :| 0 <= i < |texts[k]| && Declared(inputs[k].lines)[i] == d;
      assert RenderOf(inputs[k].lines, t, Declared(inputs[k].lines)[i], texts[k][i]);
      FlattenHas(texts, k, texts[k][i]);
      FirstSame(Flatten(texts), texts[k][i]);
    }
    forall s | s in declarations ensures Made(inputs, t, s) {
      FirstSame(Flatten(texts), s);
      var k := FlattenFrom(texts, s);
      var i :| 0 <= i < |texts[k]| && texts[k][i] == s;
      assert RenderOf(inputs[k].lines, t, Declared(inputs[k].lines)[i], texts[k][i]);
    }
  }

  lemma {:induction false} FlattenHas(texts: seq<seq<string>>, k: nat, s: string)
    requires k < |texts| && s in texts[k]
    ensures s in Flatten(texts)
    decreases |texts|
  {
    if k < |texts| - 1 { FlattenHas(texts[..|texts| - 1], k, s); }
  }

  lemma {:induction false} FlattenFrom(texts: seq<seq<string>>, s: string) returns (k: nat)
    requires s in Flatten(texts)
    ensures k < |texts| && s in texts[k]
    decreases |texts|
  {
    if s in texts[|texts| - 1] { return |texts| - 1; }
    k := FlattenFrom(texts[..|texts| - 1], s);
  }

  // The metadata of the k-th input cannot all be resolved after the inputs before it.
  ghost predicate BlockedAt(inputs: seq<Input>, k: nat)
    requires k < |inputs|
  {
    var lines := inputs[k].lines;
    Blocked(Children(lines), AllNames(inputs[..k]) + RootNames(lines), RootIndices(lines))
  }

  // The k-th input can be processed after the ones before it.
  ghost predicate Accepts(inputs: seq<Input>, k: nat)
    requires k < |inputs|
  {
    var lines := inputs[k].lines;
    && !BlockedAt(inputs, k)
    && RefsDefined(lines, Pieces(inputs[k].body))
    && forall d :: d in Declared(lines) ==> RefsDefined(lines, d)
  }

  class Linker {
    var attributes: seq<string>
    var attributesBackMap: map<string, nat>
    // The hash of metadata, by name and in its insertion order.
    var metaData: map<string, MetaData>
    var metaOrder: seq<MetaData>
    var declarations: seq<string>
    var bodies: seq<seq<Piece>>

    ghost function Now(): Tables
      reads this
    {
      Tables(attributes, metaOrder)
    }

    ghost predicate Valid()
      reads this
    {
      && WellFormed(Now())
      && (forall b :: b in attributesBackMap ==> attributesBackMap[b] < |attributes| && attributes[attributesBackMap[b]] == b)
      && (forall i :: 0 <= i < |attributes| ==> attributes[i] in attributesBackMap)
      && (forall n :: n in metaData ==> metaData[n].name == n && metaData[n].index < |metaOrder| && metaOrder[metaData[n].index] == metaData[n])
      && (forall i :: 0 <= i < |metaOrder| ==> metaOrder[i].name in metaData && metaData[metaOrder[i].name] == metaOrder[i])
    }

    constructor ()
      ensures Holds([])
    {
      attributes, attributesBackMap := [], map[];
      metaData, metaOrder := map[], [];
      declarations, bodies := [], [];
      new;
      assert RendersAll([], Now(), []);
    }

    method InternAttribute(body: string) returns (g: nat)
      requires Valid()
      modifies `attributes, `attributesBackMap
      ensures Valid() && Extends(old(Now()), Now())
      ensures g < |attributes| && attributes[g] == body
      ensures attributes == if body in old(attributes) then old(attributes) else old(attributes) + [body]
    {
      if body in attributesBackMap {
        g := attributesBackMap[body];
      } else {
        g := |attributes|;
        attributesBackMap := attributesBackMap[body := |attributes|];
        attributes := attributes + [body];
      }
    }

    method AddMeta(name: string, parent: Option<nat>) returns (g: nat)
      requires Valid() && name !in metaData && (parent.Some? ==> parent.value <= |metaOrder|)
      modifies `metaData, `metaOrder
      ensures Valid() && Extends(old(Now()), Now())
      ensures g == old(|metaOrder|) && metaOrder == old(metaOrder) + [MetaData(g, name, parent)]
      ensures metaData.Keys == old(metaData.Keys) + {name}
    {
      g := |metaOrder|;
      metaData := metaData[name := MetaData(g, name, parent)];
      metaOrder := metaOrder + [MetaData(g, name, parent)];
    }

    lemma KnownNames()
      requires Valid()
      ensures NamesOf(Now()) == metaData.Keys
    {
    }

    method InternRoot(name: string, ghost inputs: seq<Input>, ghost k: nat) returns (g: nat)
      requires Valid() && Provenance(inputs, Now()) && RootAt(inputs, k, name)
      modifies `metaData, `metaOrder
      ensures Valid() && Provenance(inputs, Now()) && Extends(old(Now()), Now())
      ensures g < |metaOrder| && metaOrder[g].name == name && metaData.Keys == old(metaData.Keys) + {name}
    {
      if name in metaData {
        g := metaData[name].index;
      } else {
        ghost var before := Now();
        KnownNames();
        g := AddMeta(name, None);
        NewRoot(inputs, before, Now(), k);
      }
    }

    // The maps built from the first k lines of the module being read agree with the tables.
    ghost predicate Reading(inputs: seq<Input>, k: nat, mm: map<nat, nat>, am: map<nat, nat>)
      reads this
    {
      && Valid() && Provenance(inputs, Now()) && inputs != []
      && var lines := inputs[|inputs| - 1].lines;
      && k <= |lines| && AttributesMapped(lines[..k], Now(), am) && MetaMapped(lines, Now(), mm)
      && mm.Keys == RootIndices(lines[..k])
      && attributes == FirstOccurrences(AllBodies(inputs[..|inputs| - 1]) + Bodies(lines[..k]))
    }

    ghost predicate AtLine(inputs: seq<Input>, k: nat, line: Line) {
      inputs != [] && k < |inputs[|inputs| - 1].lines| && inputs[|inputs| - 1].lines[k] == line
    }

    method ReadAttributes(line: Line, mm: map<nat, nat>, am0: map<nat, nat>, ghost inputs: seq<Input>, ghost k: nat)
      returns (am: map<nat, nat>)
      requires Reading(inputs, k, mm, am0) && AtLine(inputs, k, line) && line.Attributes?
      modifies `attributes, `attributesBackMap
      ensures Reading(inputs, k + 1, mm, am) && Extends(old(Now()), Now())
    {
      ghost var before := Now();
      BodiesStep(AllBodies(inputs[..|inputs| - 1]), inputs[|inputs| - 1].lines, k);
      var g := InternAttribute(line.body);
      am := am0[line.number := g];
      AttributeMapped(inputs[|inputs| - 1].lines, k, before, Now(), mm, am0, g);
      ProvenanceExtends(inputs, before, Now());
    }

    method ReadRoot(line: Line, mm0: map<nat, nat>, am: map<nat, nat>, ghost inputs: seq<Input>, ghost k: nat)
      returns (mm: map<nat, nat>)
      requires Reading(inputs, k, mm0, am) && AtLine(inputs, k, line) && line.RootMeta?
      modifies `metaData, `metaOrder
      ensures Reading(inputs, k + 1, mm, am) && Extends(old(Now()), Now()) && metaData.Keys == old(metaData.Keys) + {line.name}
    {
      ghost var before := Now();
      var g := InternRoot(line.name, inputs, k);
      mm := mm0[line.index := g];
      RootMapped(inputs[|inputs| - 1].lines, k, before, Now(), mm0, am, g);
      BodiesStep(AllBodies(inputs[..|inputs| - 1]), inputs[|inputs| - 1].lines, k);
    }

    lemma OtherwiseRead(line: Line, mm: map<nat, nat>, am: map<nat, nat>, inputs: seq<Input>, k: nat)
      requires Reading(inputs, k, mm, am) && AtLine(inputs, k, line) && !line.Attributes? && !line.RootMeta?
      ensures Reading(inputs, k + 1, mm, am)
    {
      PrefixStep(inputs[|inputs| - 1].lines, k);
      AttributesStep(inputs[|inputs| - 1].lines, k, Now(), Now(), am, am);
      BodiesStep(AllBodies(inputs[..|inputs| - 1]), inputs[|inputs| - 1].lines, k);
    }

    /** One attribute or metadata line. */
    method ReadLine(line: Line, mm0: map<nat, nat>, am0: map<nat, nat>, ghost inputs: seq<Input>, ghost k: nat)
      returns (mm: map<nat, nat>, am: map<nat, nat>)
      requires Reading(inputs, k, mm0, am0) && AtLine(inputs, k, line)
      modifies `attributes, `attributesBackMap, `metaData, `metaOrder
      ensures Reading(inputs, k + 1, mm, am) && Extends(old(Now()), Now())
      ensures metaData.Keys == old(metaData.Keys) + if line.RootMeta? then {line.name} else {}
    {
      mm, am := mm0, am0;
      if line.RootMeta? {
        mm := ReadRoot(line, mm, am, inputs, k);
      } else if line.Attributes? {
        am := ReadAttributes(line, mm, am, inputs, k);
      } else {
        OtherwiseRead(line, mm, am, inputs, k);
      }
    }

    /** Reads the lines up to the next definition: interns attributes and root metadata at once,
        keeps child metadata for later. */
    method ReadLines(lines: seq<Line>, ghost inputs: seq<Input>)
      returns (decls: seq<seq<Piece>>, mm: map<nat, nat>, am: map<nat, nat>, unresolved: seq<Line>)
      requires Valid() && Provenance(inputs, Now())
      requires inputs != [] && inputs[|inputs| - 1].lines == lines && Interned(inputs[..|inputs| - 1], Now())
      modifies `attributes, `attributesBackMap, `metaData, `metaOrder
      ensures Reading(inputs, |lines|, mm, am) && Extends(old(Now()), Now())
      ensures decls == Declared(lines) && unresolved == Children(lines)
      ensures metaData.Keys == old(metaData.Keys) + RootNames(lines)
    {
      decls, mm, am, unresolved := [], map[], map[], [];
      assert AllBodies(inputs[..|inputs| - 1]) + [] == AllBodies(inputs[..|inputs| - 1]);
      for k := 0 to |lines|
        invariant Reading(inputs, k, mm, am) && Extends(old(Now()), Now())
        invariant decls == Declared(lines[..k]) && unresolved == Children(lines[..k])
        invariant metaData.Keys == old(metaData.Keys) + RootNames(lines[..k])
      {
        var line := lines[k];
        PrefixStep(lines, k);
        if line.Declare? {
          var d := Parse(line.text);
          decls := decls + [d];
        }
        if line.ChildMeta? { unresolved := unresolved + [line]; }
        mm, am := ReadLine(line, mm, am, inputs, k);
        UnionAssociates(old(metaData.Keys), RootNames(lines[..k]), if line.RootMeta? then {line.name} else {});
      }
      assert lines[..|lines|] == lines;
    }

    // The module being read, its roots known, with the map of its metadata so far.
    ghost predicate Mapping(inputs: seq<Input>, mm: map<nat, nat>)
      reads this
    {
      && Valid() && Provenance(inputs, Now()) && inputs != []
      && MetaMapped(inputs[|inputs| - 1].lines, Now(), mm) && RootNames(inputs[|inputs| - 1].lines) <= NamesOf(Now())
    }

    /** A new global entry below the mapped parent; the new index is stored before the parent's is read. */
    method Adopt(e: Line, mm0: map<nat, nat>, ghost inputs: seq<Input>) returns (mm: map<nat, nat>)
      requires Mapping(inputs, mm0) && e in inputs[|inputs| - 1].lines && e.ChildMeta?
      requires e.name !in metaData && e.parent in mm0
      modifies `metaData, `metaOrder
      ensures Mapping(inputs, mm) && Settle(old(Now()), mm0, e) == Some((Now(), mm))
      ensures metaData.Keys == old(metaData.Keys) + {e.name} && mm == mm0[e.index := |old(metaOrder)|]
    {
      KnownNames();
      Adopted(inputs, Now(), mm0, e);
      mm := mm0[e.index := |metaOrder|];
      var g := AddMeta(e.name, Some(mm[e.parent]));
    }

    lemma Reuse(e: Line, mm: map<nat, nat>, inputs: seq<Input>)
      requires Mapping(inputs, mm) && e in inputs[|inputs| - 1].lines && e.ChildMeta? && e.name in metaData
      ensures Mapping(inputs, mm[e.index := metaData[e.name].index])
      ensures Settle(Now(), mm, e) == Some((Now(), mm[e.index := metaData[e.name].index]))
      ensures metaData.Keys == metaData.Keys + {e.name}
    {
      Reused(inputs[|inputs| - 1].lines, Now(), mm, e, metaData[e.name].index);
    }

    lemma CannotSettle(e: Line, mm: map<nat, nat>)
      requires Valid() && e.ChildMeta? && e.name !in metaData && e.parent !in mm
      ensures Settle(Now(), mm, e) == None
    {
      SettleNew(Now(), mm, e);
    }

    /** One look at one worklist entry: done when its name is known or its parent is mapped. */
    method SettleEntry(e: Line, mm0: map<nat, nat>, ghost inputs: seq<Input>) returns (mm: map<nat, nat>, ok: bool)
      requires Mapping(inputs, mm0) && e in inputs[|inputs| - 1].lines && e.ChildMeta?
      modifies `metaData, `metaOrder
      ensures Mapping(inputs, mm)
      ensures ok <==> e.name in old(metaData) || e.parent in mm0
      ensures ok ==> metaData.Keys == old(metaData.Keys) + {e.name} && mm.Keys == mm0.Keys + {e.index}
      ensures if ok then Settle(old(Now()), mm0, e) == Some((Now(), mm)) else Settle(old(Now()), mm0, e) == None && mm == mm0
      ensures !ok ==> metaData == old(metaData) && metaOrder == old(metaOrder)
    {
      mm, ok := mm0, true;
      if e.name in metaData {
        Reuse(e, mm0, inputs);
        mm := mm[e.index := metaData[e.name].index];
      } else if e.parent in mm {
        mm := Adopt(e, mm, inputs);
      } else {
        CannotSettle(e, mm0);
        ok := false;
      }
    }

    // Where resolution stands: the entries in trace are settled, those in unresolved are not.
    ghost predicate Resolving(inputs: seq<Input>, mm: map<nat, nat>, known: set<string>, mapped: set<nat>,
                              trace: seq<Line>, unresolved: seq<Line>)
      reads this
    {
      && Mapping(inputs, mm) && Justified(trace, known, mapped)
      && metaData.Keys == known + TraceNames(trace) && mm.Keys == mapped + TraceIndices(trace)
      && Partition(Children(inputs[|inputs| - 1].lines), trace, unresolved)
    }

    /** Settles the entry at index if it can, replacing it by the last entry. */
    method Step(unresolved0: seq<Line>, index: nat, mm0: map<nat, nat>, ghost inputs: seq<Input>,
                ghost known: set<string>, ghost mapped: set<nat>, ghost trace0: seq<Line>)
      returns (unresolved: seq<Line>, mm: map<nat, nat>, ghost trace: seq<Line>, settled: bool)
      requires Resolving(inputs, mm0, known, mapped, trace0, unresolved0) && index < |unresolved0|
      modifies `metaData, `metaOrder
      ensures Resolving(inputs, mm, known, mapped, trace, unresolved) && Extends(old(Now()), Now())
      ensures settled ==> unresolved == unresolved0[index := unresolved0[|unresolved0| - 1]][..|unresolved0| - 1]
      ensures !settled ==> unresolved == unresolved0 && mm == mm0 && metaData == old(metaData) && Waits(unresolved0[index], metaData.Keys, mm.Keys)
    {
      unresolved, trace := unresolved0, trace0;
      var e := unresolved[index];
      ghost var before, names := Now(), metaData.Keys;
      assert e in Children(inputs[|inputs| - 1].lines);
      mm, settled := SettleEntry(e, mm0, inputs);
      if settled {
        SettleExtends(before, mm0, e);
        TraceStep(trace0, e, known, mapped, names, mm0.Keys);
        PartitionStep(Children(inputs[|inputs| - 1].lines), trace0, unresolved0, index);
        unresolved := unresolved[index := unresolved[|unresolved| - 1]][..|unresolved| - 1];
        trace := trace + [e];
      }
    }

    /** One pass over the worklist; after a removal the same position is looked at again. */
    method Sweep(unresolved0: seq<Line>, mm0: map<nat, nat>, ghost inputs: seq<Input>, ghost known: set<string>,
                 ghost mapped: set<nat>, ghost trace0: seq<Line>)
      returns (unresolved: seq<Line>, mm: map<nat, nat>, ghost trace: seq<Line>)
      requires Resolving(inputs, mm0, known, mapped, trace0, unresolved0)
      modifies `metaData, `metaOrder
      ensures Resolving(inputs, mm, known, mapped, trace, unresolved) && Extends(old(Now()), Now())
      ensures |unresolved| <= |unresolved0|
      ensures |unresolved| == |unresolved0| ==> forall e :: e in unresolved ==> Waits(e, metaData.Keys, mm.Keys)
    {
      unresolved, mm, trace := unresolved0, mm0, trace0;
      var index := 0;
      while index < |unresolved|
        invariant 0 <= index <= |unresolved| <= |unresolved0|
        invariant Resolving(inputs, mm, known, mapped, trace, unresolved) && Extends(old(Now()), Now())
        invariant |unresolved| == |unresolved0| ==> unresolved == unresolved0 && mm == mm0 && metaData == old(metaData)
        invariant |unresolved| == |unresolved0| ==> FirstWait(unresolved0, index, old(metaData.Keys), mm0.Keys)
        decreases |unresolved| - index
      {
        var settled: bool;
        unresolved, mm, trace, settled := Step(unresolved, index, mm, inputs, known, mapped, trace);
        if !settled {
          if |unresolved| == |unresolved0| { FirstWaitStep(unresolved0, index, old(metaData.Keys), mm0.Keys); }
          index := index + 1;
        }
      }
    }

    /** Sweeps until the worklist is empty. A sweep that settles nothing would be repeated for ever. */
    method Resolve(mm0: map<nat, nat>, entries: seq<Line>, ghost inputs: seq<Input>) returns (mm: map<nat, nat>, ok: bool)
      requires Mapping(inputs, mm0) && entries == Children(inputs[|inputs| - 1].lines)
      modifies `metaData, `metaOrder
      ensures Mapping(inputs, mm)
      ensures Extends(old(Now()), Now())
      ensures ok <==> !Blocked(entries, old(metaData.Keys), mm0.Keys)
      ensures ok ==> forall e :: e in entries ==> e.name in metaData && e.index in mm
      ensures ok ==> forall n :: n in metaData ==> n in old(metaData.Keys) || exists e :: e in entries && e.name == n
      ensures forall n :: n in old(metaData.Keys) ==> n in metaData
      ensures forall i :: i in mm0 ==> i in mm
    {
      ghost var known, mapped := metaData.Keys, mm0.Keys;
      ghost var trace := [];
      var unresolved := entries;
      mm := mm0;
      while unresolved != []
        invariant Resolving(inputs, mm, known, mapped, trace, unresolved) && Extends(old(Now()), Now())
        decreases |unresolved|
      {
        var size := |unresolved|;
        unresolved, mm, trace := Sweep(unresolved, mm, inputs, known, mapped, trace);
        if |unresolved| == size {
          StuckBlocks(entries, known, mapped, trace, unresolved);
          return mm, false;
        }
      }
      ResolvedNotBlocked(trace, entries, known, mapped);
      ok := true;
    }

    ghost predicate Holds(inputs: seq<Input>)
      reads this
    {
      Valid() && Linked(inputs, Now(), bodies, declarations)
    }

    /** Reads the lines of one module and settles its metadata. */
    method ReadModule(input: Input, ghost inputs: seq<Input>)
      returns (decls: seq<seq<Piece>>, mm: map<nat, nat>, am: map<nat, nat>, ok: bool)
      requires Holds(inputs)
      modifies `attributes, `attributesBackMap, `metaData, `metaOrder
      ensures Valid() && Extends(old(Now()), Now())
      ensures ok <==> !Blocked(Children(input.lines), AllNames(inputs) + RootNames(input.lines), RootIndices(input.lines))
      ensures ok ==> Mapped(input.lines, Now(), am, mm) && TablesOf(inputs + [input], Now())
      ensures decls == Declared(input.lines)
    {
      ghost var all, lines := inputs + [input], input.lines;
      KnownNames();
      ProvenanceGrows(inputs, input, Now());
      assert all[|all| - 1] == input && all[..|all| - 1] == inputs;
      var unresolved;
      decls, mm, am, unresolved := ReadLines(input.lines, all);
      assert lines[..|lines|] == lines;
      ghost var t1, mm1 := Now(), mm;
      KnownNames();
      mm, ok := Resolve(mm, unresolved, all);
      AttributesExtend(lines, t1, Now(), am);
      if ok {
        ResolvedComplete(lines, mm1, mm);
        ResolvedNames(inputs, input, metaData.Keys);
      }
      KnownNames();
    }

    /** One definition with the lines that follow it. */
    method AddModule(input: Input, ghost inputs: seq<Input>) returns (status: Status)
      requires Holds(inputs)
      modifies this
      ensures status == Done <==> Accepts(inputs + [input], |inputs|)
      ensures status == Diverges <==> BlockedAt(inputs + [input], |inputs|)
      ensures status == Done ==> Holds(inputs + [input])
    {
      ghost var t0 := Now();
      AcceptsLast(inputs, input);
      var decls, mm, am, ok := ReadModule(input, inputs);
      if !ok { return Diverges; }
      var printed := PrintModule(input, decls, am, mm, bodies, declarations, inputs, t0, Now());
      if printed == None { return Raises; }
      Keep(printed.value.0, printed.value.1, inputs + [input]);
      status := Done;
    }

    method Keep(printed: seq<seq<Piece>>, declared: seq<string>, ghost inputs: seq<Input>)
      requires Valid() && Linked(inputs, Now(), printed, declared)
      modifies `bodies, `declarations
      ensures Holds(inputs) && bodies == printed && declarations == declared
    {
      bodies, declarations := printed, declared;
    }
  }

  /** Prints the body and the declarations with the numbers known at this point. */
  method PrintModule(input: Input, decls: seq<seq<Piece>>, am: map<nat, nat>, mm: map<nat, nat>,
                     bodies: seq<seq<Piece>>, declarations: seq<string>,
                     ghost inputs: seq<Input>, ghost t: Tables, ghost u: Tables)
    returns (r: Option<(seq<seq<Piece>>, seq<string>)>)
    requires Linked(inputs, t, bodies, declarations) && Extends(t, u) && Mapped(input.lines, u, am, mm)
    requires decls == Declared(input.lines)
    requires TablesOf(inputs + [input], u)
    ensures r.Some? <==> RefsDefined(input.lines, Pieces(input.body)) && forall d :: d in Declared(input.lines) ==> RefsDefined(input.lines, d)
    ensures r.Some? ==> Linked(inputs + [input], u, r.value.0, r.value.1)
  {
    var body := Parse(input.body);
    var printed := Relink(body, am, mm, input.lines, u);
    if printed == None { return None; }
    ghost var texts :| RendersAll(inputs, t, texts) && declarations == FirstOccurrences(Flatten(texts));
    var declared, more := AddDeclarations(decls, am, mm, declarations, input.lines, u, Flatten(texts));
    if declared == None { return None; }
    LinkedGrows(inputs, input, t, u, bodies, printed.value, texts, more, declared.value);
    r := Some((bodies + [printed.value], declared.value));
  }

  ghost predicate Mapped(lines: seq<Line>, t: Tables, am: map<nat, nat>, mm: map<nat, nat>) {
    AttributesMapped(lines, t, am) && MetaMapped(lines, t, mm) && Complete(lines, mm)
  }

  lemma AcceptsLast(inputs: seq<Input>, input: Input)
    ensures BlockedAt(inputs + [input], |inputs|) <==>
      Blocked(Children(input.lines), AllNames(inputs) + RootNames(input.lines), RootIndices(input.lines))
    ensures Accepts(inputs + [input], |inputs|) <==>
      && !Blocked(Children(input.lines), AllNames(inputs) + RootNames(input.lines), RootIndices(input.lines))
      && RefsDefined(input.lines, Pieces(input.body))
      && forall d :: d in Declared(input.lines) ==> RefsDefined(input.lines, d)
  {
    assert (inputs + [input])[|inputs|] == input && (inputs + [input])[..|inputs|] == inputs;
  }

  lemma ResolvedComplete(lines: seq<Line>, mm1: map<nat, nat>, mm: map<nat, nat>)
    requires mm1.Keys == RootIndices(lines) && forall i :: i in mm1 ==> i in mm
    requires forall e :: e in Children(lines) ==> e.index in mm
    ensures Complete(lines, mm)
  {
    forall k | 0 <= k < |lines| && IsMeta(lines[k]) ensures lines[k].index in mm {
      if lines[k].RootMeta? { assert lines[k].index in RootIndices(lines); }
      else { assert lines[k] in Children(lines); }
    }
  }

  lemma ResolvedNames(inputs: seq<Input>, input: Input, names: set<string>)
    requires forall n :: n in AllNames(inputs) || n in RootNames(input.lines) ==> n in names
    requires forall e :: e in Children(input.lines) ==> e.name in names
    requires forall n :: n in names ==>
      n in AllNames(inputs) + RootNames(input.lines) || exists e :: e in Children(input.lines) && e.name == n
    ensures names == AllNames(inputs + [input])
  {
    var lines := input.lines;
    assert (inputs + [input])[..|inputs|] == inputs;
    forall n | n in LocalNames(lines) ensures n in names {
      var k :| 0 <= k < |lines| && IsMeta(lines[k]) && lines[k].name == n;
      if lines[k].ChildMeta? { assert lines[k] in Children(lines); } else { assert n in RootNames(lines); }
    }
  }

  ghost predicate Unrepeated(declarations: seq<string>) {
    forall i, j :: 0 <= i < j < |declarations| ==> declarations[i] != declarations[j]
  }

  /** Adds each renumbered declaration unless it is there already; printed is all that was offered before. */
  method AddDeclarations(decls: seq<seq<Piece>>, am: map<nat, nat>, mm: map<nat, nat>, before: seq<string>,
                         ghost lines: seq<Line>, ghost t: Tables, ghost printed: seq<string>)
    returns (r: Option<seq<string>>, ghost texts: seq<string>)
    requires Mapped(lines, t, am, mm) && before == FirstOccurrences(printed)
    ensures r.Some? <==> forall d :: d in decls ==> RefsDefined(lines, d)
    ensures r.Some? ==> Renders(lines, t, decls, texts) && r.value == FirstOccurrences(printed + texts)
  {
    var declarations := before;
    texts := [];
    assert printed + [] == printed;
    for k := 0 to |decls|
      invariant Offered(lines, t, decls, k, printed, texts, declarations)
      invariant forall i :: 0 <= i < k ==> RefsDefined(lines, decls[i])
    {
      r, texts := AddDeclaration(decls, k, am, mm, declarations, lines, t, printed, texts);
      if r == None { return; }
      declarations := r.value;
    }
    assert decls[..|decls|] == decls;
    r := Some(declarations);
  }

  method AddDeclaration(decls: seq<seq<Piece>>, k: nat, am: map<nat, nat>, mm: map<nat, nat>, declarations: seq<string>,
                        ghost lines: seq<Line>, ghost t: Tables, ghost printed: seq<string>, ghost texts0: seq<string>)
    returns (r: Option<seq<string>>, ghost texts: seq<string>)
    requires Mapped(lines, t, am, mm) && k < |decls| && Offered(lines, t, decls, k, printed, texts0, declarations)
    ensures r.Some? <==> RefsDefined(lines, decls[k])
    ensures r.Some? ==> Offered(lines, t, decls, k + 1, printed, texts, r.value)
  {
    texts := texts0;
    var d := Relink(decls[k], am, mm, lines, t);
    if d == None { return None, texts; }
    var s := Print(d.value);
    RendersNext(lines, t, decls, k, texts, d.value, printed);
    texts := texts + [s];
    r := Some(declarations + if s in declarations then [] else [s]);
  }

  // The first k of decls have been offered after what was printed before.
  ghost predicate Offered(lines: seq<Line>, t: Tables, decls: seq<seq<Piece>>, k: nat, printed: seq<string>,
                          texts: seq<string>, declarations: seq<string>) {
    k <= |decls| && Renders(lines, t, decls[..k], texts) && declarations == FirstOccurrences(printed + texts)
  }

  lemma RendersNext(lines: seq<Line>, t: Tables, decls: seq<seq<Piece>>, k: nat, texts: seq<string>, d: seq<Piece>,
                    printed: seq<string>)
    requires k < |decls| && Offered(lines, t, decls, k, printed, texts, FirstOccurrences(printed + texts))
    requires Faithful(lines, t, decls[k], d)
    ensures var done, s := FirstOccurrences(printed + texts), Print(d);
      Offered(lines, t, decls, k + 1, printed, texts + [s], done + if s in done then [] else [s])
  {
    var more, longer := decls[..k + 1], texts + [Print(d)];
    forall i | 0 <= i < k + 1 ensures RenderOf(lines, t, more[i], longer[i]) {
      if i < k { assert RenderOf(lines, t, decls[..k][i], texts[i]); }
    }
    Associates(printed, texts, [Print(d)]);
    FirstSnoc(printed + texts, Print(d));
  }

  lemma ProvenanceGrows(inputs: seq<Input>, input: Input, t: Tables)
    requires Provenance(inputs, t) && NamesOf(t) == AllNames(inputs)
    ensures Provenance(inputs + [input], t)
  {
    var all := inputs + [input];
    assert all[..|all| - 1] == inputs;
    forall i | 0 <= i < |t.meta| ensures FromSome(all, t, i) {
      assert FromSome(inputs, t, i);
      var k :| 0 <= k < |inputs| && t.meta[i].name !in AllNames(inputs[..k]) && From(inputs[k].lines, t, i);
      assert all[k] == inputs[k] && all[..k] == inputs[..k];
    }
  }

  lemma AttributesExtend(lines: seq<Line>, t: Tables, u: Tables, am: map<nat, nat>)
    requires AttributesMapped(lines, t, am) && Extends(t, u)
    ensures AttributesMapped(lines, u, am)
  {
  }

  lemma RendersExtends(lines: seq<Line>, t: Tables, u: Tables, decls: seq<seq<Piece>>, texts: seq<string>)
    requires Extends(t, u) && Renders(lines, t, decls, texts)
    ensures Renders(lines, u, decls, texts)
  {
    forall i | 0 <= i < |decls| ensures RenderOf(lines, u, decls[i], texts[i]) {
      assert RenderOf(lines, t, decls[i], texts[i]);
      var out :| Faithful(lines, t, decls[i], out) && texts[i] == Print(out);
      FaithfulExtends(lines, t, u, decls[i], out);
    }
  }

  lemma RendersMore(inputs: seq<Input>, input: Input, t: Tables, u: Tables, texts: seq<seq<string>>, more: seq<string>)
    requires Extends(t, u) && RendersAll(inputs, t, texts) && Renders(input.lines, u, Declared(input.lines), more)
    ensures RendersAll(inputs + [input], u, texts + [more]) && Flatten(texts + [more]) == Flatten(texts) + more
  {
    var all := inputs + [input];
    forall k | 0 <= k < |all| ensures Renders(all[k].lines, u, Declared(all[k].lines), (texts + [more])[k]) {
      if k < |inputs| { RendersExtends(inputs[k].lines, t, u, Declared(inputs[k].lines), texts[k]); }
    }
    assert (texts + [more])[..|texts|] == texts;
  }

  lemma BodiesMore(inputs: seq<Input>, input: Input, t: Tables, u: Tables, bodies: seq<seq<Piece>>, printed: seq<Piece>)
    requires Extends(t, u) && BodiesFaithful(inputs, t, bodies) && Faithful(input.lines, u, Pieces(input.body), printed)
    ensures BodiesFaithful(inputs + [input], u, bodies + [printed])
  {
    var all := inputs + [input];
    forall k | 0 <= k < |all| ensures Faithful(all[k].lines, u, Pieces(all[k].body), (bodies + [printed])[k]) {
      if k < |inputs| { FaithfulExtends(inputs[k].lines, t, u, Pieces(inputs[k].body), bodies[k]); }
    }
  }

  // Earlier bodies and declarations keep their meaning in the longer tables.
  lemma LinkedGrows(inputs: seq<Input>, input: Input, t: Tables, u: Tables, bodies: seq<seq<Piece>>, printed: seq<Piece>,
                    texts: seq<seq<string>>, more: seq<string>, after: seq<string>)
    requires Extends(t, u) && BodiesFaithful(inputs, t, bodies) && RendersAll(inputs, t, texts)
    requires TablesOf(inputs + [input], u)
    requires Faithful(input.lines, u, Pieces(input.body), printed)
    requires Renders(input.lines, u, Declared(input.lines), more) && after == FirstOccurrences(Flatten(texts) + more)
    ensures Linked(inputs + [input], u, bodies + [printed], after)
  {
    BodiesMore(inputs, input, t, u, bodies, printed);
    RendersMore(inputs, input, t, u, texts, more);
  }

  // Neither the name nor the parent of the entry is known yet.
  ghost predicate Waits(e: Line, names: set<string>, indices: set<nat>) {
    e.ChildMeta? && e.name !in names && e.parent !in indices
  }

  ghost predicate FirstWait(es: seq<Line>, n: nat, names: set<string>, indices: set<nat>) {
    n <= |es| && forall i :: 0 <= i < n ==> Waits(es[i], names, indices)
  }

  lemma FirstWaitStep(es: seq<Line>, n: nat, names: set<string>, indices: set<nat>)
    requires FirstWait(es, n, names, indices) && n < |es| && Waits(es[n], names, indices)
    ensures FirstWait(es, n + 1, names, indices)
  {
  }

  ghost function TraceNames(trace: seq<Line>): set<string> {
    set k | 0 <= k < |trace| && trace[k].ChildMeta? :: trace[k].name
  }

  ghost function TraceIndices(trace: seq<Line>): set<nat> {
    set k | 0 <= k < |trace| && trace[k].ChildMeta? :: trace[k].index
  }

  ghost predicate Partition(entries: seq<Line>, trace: seq<Line>, unresolved: seq<Line>) {
    forall e :: e in entries <==> e in trace || e in unresolved
  }

  lemma TraceStep(trace: seq<Line>, e: Line, known: set<string>, mapped: set<nat>, names: set<string>, indices: set<nat>)
    requires e.ChildMeta? && Justified(trace, known, mapped)
    requires names == known + TraceNames(trace) && indices == mapped + TraceIndices(trace)
    requires e.name in names || e.parent in indices
    ensures Justified(trace + [e], known, mapped)
    ensures names + {e.name} == known + TraceNames(trace + [e]) && indices + {e.index} == mapped + TraceIndices(trace + [e])
  {
    var next := trace + [e];
    assert forall k :: 0 <= k < |trace| ==> next[k] == trace[k];
    assert next[|trace|] == e;
    forall k | 0 <= k < |next| ensures Grounded(next, k, known, mapped) {
      if k < |trace| { assert Grounded(trace, k, known, mapped); }
    }
  }

  lemma PartitionStep(entries: seq<Line>, trace: seq<Line>, unresolved: seq<Line>, index: nat)
    requires Partition(entries, trace, unresolved) && index < |unresolved|
    ensures Partition(entries, trace + [unresolved[index]], unresolved[index := unresolved[|unresolved| - 1]][..|unresolved| - 1])
  {
    var n := |unresolved| - 1;
    var rest := unresolved[index := unresolved[n]][..n];
    forall i | 0 <= i < n && i != index ensures unresolved[i] in rest { assert rest[i] == unresolved[i]; }
    if index < n { assert rest[index] == unresolved[n]; }
    assert forall i :: 0 <= i < n ==> rest[i] == if i == index then unresolved[n] else unresolved[i];
  }

  lemma StuckBlocks(entries: seq<Line>, known: set<string>, mapped: set<nat>, trace: seq<Line>, unresolved: seq<Line>)
    requires unresolved != [] && Partition(entries, trace, unresolved) && forall e :: e in entries ==> e.ChildMeta?
    requires forall e :: e in unresolved ==> Waits(e, known + TraceNames(trace), mapped + TraceIndices(trace))
    ensures Blocked(entries, known, mapped)
  {
    var r := set e | e in unresolved;
    assert unresolved[0] in r;
    assert forall d :: d in trace && d.ChildMeta? ==> d.name in TraceNames(trace) && d.index in TraceIndices(trace);
    assert Blocks(r, entries, known, mapped);
  }

  lemma SettleExtends(t: Tables, mm: map<nat, nat>, e: Line)
    requires e.ChildMeta? && Settle(t, mm, e).Some?
    ensures Extends(t, Settle(t, mm, e).value.0)
  {
  }

  lemma SettleKnown(t: Tables, mm: map<nat, nat>, e: Line, g: nat)
    requires WellFormed(t) && e.ChildMeta? && g < |t.meta| && t.meta[g].name == e.name
    ensures Settle(t, mm, e) == Some((t, mm[e.index := g]))
  {
    var h := Position(t.meta, e.name);
    assert !(g < h) && !(h < g);
  }

  lemma Reused(lines: seq<Line>, t: Tables, mm: map<nat, nat>, e: Line, g: nat)
    requires WellFormed(t) && MetaMapped(lines, t, mm) && e in lines && e.ChildMeta? && g < |t.meta| && t.meta[g].name == e.name
    ensures MetaMapped(lines, t, mm[e.index := g]) && Settle(t, mm, e) == Some((t, mm[e.index := g]))
  {
    var k :| 0 <= k < |lines| && lines[k] == e;
    MetaStep(lines, t, t, mm, e.index, g);
    SettleKnown(t, mm, e, g);
  }

  lemma SettleNew(t: Tables, mm: map<nat, nat>, e: Line)
    requires e.ChildMeta? && forall g :: 0 <= g < |t.meta| ==> t.meta[g].name != e.name
    ensures Settle(t, mm, e) ==
      if e.parent in mm then
        Some((t.(meta := t.meta + [MetaData(|t.meta|, e.name, Some(mm[e.index := |t.meta|][e.parent]))]), mm[e.index := |t.meta|]))
      else None
  {
  }

  // A number that is mapped before its line is settled is that of another line.
  lemma OtherLine(lines: seq<Line>, t: Tables, mm: map<nat, nat>, e: Line)
    requires MetaMapped(lines, t, mm) && e.ChildMeta? && e.name !in NamesOf(t) && e.parent in mm
    ensures SelfParented(e) ==> SharesIndex(lines, e)
  {
    assert Names(lines, e.parent, t.meta[mm[e.parent]].name);
  }

  lemma BodiesStep(before: seq<string>, lines: seq<Line>, k: nat)
    requires k < |lines|
    ensures var s := before + Bodies(lines[..k]);
      FirstOccurrences(before + Bodies(lines[..k + 1])) ==
        if lines[k].Attributes? && lines[k].body !in FirstOccurrences(s) then FirstOccurrences(s) + [lines[k].body] else FirstOccurrences(s)
  {
    PrefixStep(lines, k);
    if lines[k].Attributes? {
      Associates(before, Bodies(lines[..k]), [lines[k].body]);
      FirstSnoc(before + Bodies(lines[..k]), lines[k].body);
    } else {
      assert Bodies(lines[..k]) + [] == Bodies(lines[..k]);
    }
  }

  lemma AttributeMapped(lines: seq<Line>, k: nat, t: Tables, u: Tables, mm: map<nat, nat>, am: map<nat, nat>, g: nat)
    requires k < |lines| && lines[k].Attributes? && Extends(t, u) && g < |u.attributes| && u.attributes[g] == lines[k].body
    requires MetaMapped(lines, t, mm) && mm.Keys == RootIndices(lines[..k]) && AttributesMapped(lines[..k], t, am)
    ensures MetaMapped(lines, u, mm) && AttributesMapped(lines[..k + 1], u, am[lines[k].number := g])
    ensures mm.Keys == RootIndices(lines[..k + 1])
  {
    PrefixStep(lines, k);
    MetaExtends(lines, t, u, mm);
    AttributesStep(lines, k, t, u, am, am[lines[k].number := g]);
  }

  lemma RootMapped(lines: seq<Line>, k: nat, t: Tables, u: Tables, mm: map<nat, nat>, am: map<nat, nat>, g: nat)
    requires k < |lines| && lines[k].RootMeta? && Extends(t, u) && g < |u.meta| && u.meta[g].name == lines[k].name
    requires MetaMapped(lines, t, mm) && mm.Keys == RootIndices(lines[..k]) && AttributesMapped(lines[..k], t, am)
    ensures MetaMapped(lines, u, mm[lines[k].index := g]) && AttributesMapped(lines[..k + 1], u, am)
    ensures mm[lines[k].index := g].Keys == RootIndices(lines[..k + 1])
  {
    PrefixStep(lines, k);
    MetaStep(lines, t, u, mm, lines[k].index, g);
    AttributesStep(lines, k, t, u, am, am);
  }

  // What the new entry below a mapped parent does to the tables and the module's map.
  lemma Adopted(inputs: seq<Input>, t: Tables, mm0: map<nat, nat>, e: Line)
    requires inputs != [] && Provenance(inputs, t) && e in inputs[|inputs| - 1].lines && e.ChildMeta?
    requires MetaMapped(inputs[|inputs| - 1].lines, t, mm0) && RootNames(inputs[|inputs| - 1].lines) <= NamesOf(t)
    requires e.name !in NamesOf(t) && e.parent in mm0
    ensures var mm := mm0[e.index := |t.meta|];
      var u := t.(meta := t.meta + [MetaData(|t.meta|, e.name, Some(mm[e.parent]))]);
      && Settle(t, mm0, e) == Some((u, mm)) && Provenance(inputs, u)
      && MetaMapped(inputs[|inputs| - 1].lines, u, mm) && RootNames(inputs[|inputs| - 1].lines) <= NamesOf(u)
  {
    var lines, mm := inputs[|inputs| - 1].lines, mm0[e.index := |t.meta|];
    var u := t.(meta := t.meta + [MetaData(|t.meta|, e.name, Some(mm[e.parent]))]);
    var k :| 0 <= k < |lines| && lines[k] == e;
    SettleNew(t, mm0, e);
    OtherLine(lines, t, mm0, e);
    MetaStep(lines, t, u, mm0, e.index, |t.meta|);
    NamesExtend(t, u);
    NewChild(inputs, t, u, k, mm);
  }

  lemma NewChild(inputs: seq<Input>, t: Tables, u: Tables, k: nat, mm: map<nat, nat>)
    requires inputs != [] && Provenance(inputs, t) && Extends(t, u) && |u.meta| == |t.meta| + 1
    requires k < |inputs[|inputs| - 1].lines| && MetaMapped(inputs[|inputs| - 1].lines, u, mm)
    requires RootNames(inputs[|inputs| - 1].lines) <= NamesOf(t)
    requires var e := inputs[|inputs| - 1].lines[k];
      && e.ChildMeta? && e.name == u.meta[|t.meta|].name && e.name !in NamesOf(t) && e.parent in mm
      && u.meta[|t.meta|].parent == Some(mm[e.parent])
      && (mm[e.parent] < |t.meta| <==> !SelfParented(e)) && (SelfParented(e) ==> SharesIndex(inputs[|inputs| - 1].lines, e))
    ensures Provenance(inputs, u)
  {
    assert From(inputs[|inputs| - 1].lines, u, |t.meta|);
    ProvenanceExtends(inputs, t, u);
  }

  ghost predicate RootAt(inputs: seq<Input>, k: nat, name: string) {
    inputs != [] && var lines := inputs[|inputs| - 1].lines; k < |lines| && lines[k].RootMeta? && lines[k].name == name
  }

  lemma NewRoot(inputs: seq<Input>, t: Tables, u: Tables, k: nat)
    requires inputs != [] && Provenance(inputs, t) && Extends(t, u) && |u.meta| == |t.meta| + 1
    requires RootAt(inputs, k, u.meta[|t.meta|].name) && u.meta[|t.meta|].parent == None && u.meta[|t.meta|].name !in NamesOf(t)
    ensures Provenance(inputs, u)
  {
    assert From(inputs[|inputs| - 1].lines, u, |t.meta|);
    ProvenanceExtends(inputs, t, u);
  }

  lemma AcceptsPrefix(inputs: seq<Input>, k: nat)
    requires k < |inputs|
    ensures inputs[..k] + [inputs[k]] == inputs[..k + 1]
    ensures AllAccepted(inputs, k) ==> (Accepts(inputs[..k] + [inputs[k]], k) <==> AllAccepted(inputs, k + 1))
    ensures BlockedAt(inputs[..k] + [inputs[k]], k) <==> BlockedAt(inputs, k)
  {
    assert inputs[..k + 1][..k] == inputs[..k];
    assert Accepts(inputs[..k] + [inputs[k]], k) <==> Accepts(inputs, k);
  }

  ghost predicate AllAccepted(inputs: seq<Input>, n: nat)
    requires n <= |inputs|
  {
    forall k :: 0 <= k < n ==> Accepts(inputs, k)
  }

  // The k-th input is the first that is not accepted.
  ghost predicate FirstRejected(inputs: seq<Input>, k: nat) {
    k < |inputs| && AllAccepted(inputs, k) && !Accepts(inputs, k)
  }

  lemma FirstUnique(inputs: seq<Input>, k: nat)
    requires FirstRejected(inputs, k)
    ensures !AllAccepted(inputs, |inputs|) && forall j :: FirstRejected(inputs, j) ==> j == k
  {
  }

  /** The whole program: succeeds exactly on acceptable inputs, and then the combined module means
      what its parts meant. */
  method Combine(inputs: seq<Input>) returns (status: Status, out: Output)
    ensures status == Done <==> AllAccepted(inputs, |inputs|)
    ensures status == Diverges <==> exists k :: FirstRejected(inputs, k) && BlockedAt(inputs, k)
    ensures status == Raises <==> exists k :: FirstRejected(inputs, k) && !BlockedAt(inputs, k)
    ensures status == Done ==> Linked(inputs, out.tables, out.bodies, out.declarations)
  {
    var linker := new Linker();
    out := Output([], [], Tables([], []));
    for k := 0 to |inputs|
      invariant linker.Holds(inputs[..k])
      invariant AllAccepted(inputs, k)
    {
      AcceptsPrefix(inputs, k);
      status := linker.AddModule(inputs[k], inputs[..k]);
      if status != Done {
        FirstUnique(inputs, k);
        return status, out;
      }
    }
    assert inputs[..|inputs|] == inputs;
    status := Done;
    out := Output(linker.bodies, linker.declarations, Tables(linker.attributes, linker.metaOrder));
  }
}
