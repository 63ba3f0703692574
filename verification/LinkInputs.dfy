/** Inputs that the combiner accepts and links otherwise than one might expect. */
module LinkInputs {
  import opened LinkTables
  import opened Combiner

  lemma {:induction false} DeclaresNothing(lines: seq<Line>)
    requires forall l :: l in lines ==> IsMeta(l)
    ensures Declared(lines) == []
    decreases |lines|
  {
    if lines != [] {
      assert lines[|lines| - 1] in lines;
      DeclaresNothing(lines[..|lines| - 1]);
    }
  }

  // Only metadata, every child right below a root of its own module.
  ghost predicate Flat(input: Input) {
    && input.body == ""
    && forall l :: l in input.lines ==> IsMeta(l) && (l.ChildMeta? ==> l.parent in RootIndices(input.lines))
  }

  lemma FlatAccepted(inputs: seq<Input>)
    requires forall k :: 0 <= k < |inputs| ==> Flat(inputs[k])
    ensures AllAccepted(inputs, |inputs|)
  {
    forall k | 0 <= k < |inputs| ensures Accepts(inputs, k) {
      var lines := inputs[k].lines;
      DeclaresNothing(lines);
      forall r ensures !Blocks(r, Children(lines), AllNames(inputs[..k]) + RootNames(lines), RootIndices(lines)) {
        if r != {} { var e :| e in r; }
      }
    }
  }

  const SELF_PARENTED := [Input("", [RootMeta(5, "a"), ChildMeta(5, "b", 5)])]

  // A node that names itself as its parent becomes its own global parent when a root line of its
  // module has its number.
  lemma SelfParentArises()
    ensures AllAccepted(SELF_PARENTED, 1)
    ensures forall t, bodies, declarations :: Linked(SELF_PARENTED, t, bodies, declarations) ==> !Rooted(t)
  {
    var lines := SELF_PARENTED[0].lines;
    assert lines[0].RootMeta? && lines[1] in lines;
    FlatAccepted(SELF_PARENTED);
    forall t, bodies, declarations | Linked(SELF_PARENTED, t, bodies, declarations) ensures !Rooted(t) { SelfParentIn(t); }
  }

  lemma SelfParentIn(t: Tables)
    requires TablesOf(SELF_PARENTED, t)
    ensures !Rooted(t)
  {
    var lines := SELF_PARENTED[0].lines;
    assert lines[1] in lines;
    SelfParentAdded(SELF_PARENTED, t, 0, lines[1]);
  }

  const TWO_PARENTS := [Input("", [RootMeta(0, "a"), ChildMeta(1, "x", 0)]), Input("", [RootMeta(0, "b"), ChildMeta(1, "x", 0)])]

  // A name that two modules put below different parents keeps the first one.
  lemma ChainLost()
    ensures AllAccepted(TWO_PARENTS, 2)
    ensures forall t, bodies, declarations :: Linked(TWO_PARENTS, t, bodies, declarations) ==> Rooted(t) && !Preserved(TWO_PARENTS, t)
  {
    assert TWO_PARENTS[0].lines[0].RootMeta? && TWO_PARENTS[1].lines[0].RootMeta?;
    FlatAccepted(TWO_PARENTS);
    LocalParent(0, "a");
    LocalParent(1, "b");
    forall t, bodies, declarations | Linked(TWO_PARENTS, t, bodies, declarations) ensures Rooted(t) && !Preserved(TWO_PARENTS, t) {
      LostIn(t);
    }
  }

  lemma LostIn(t: Tables)
    requires TablesOf(TWO_PARENTS, t)
    requires LocalChain(TWO_PARENTS[0].lines, 1, ["x", "a"], false) && LocalChain(TWO_PARENTS[1].lines, 1, ["x", "b"], false)
    ensures Rooted(t) && !Preserved(TWO_PARENTS, t)
  {
    NoSelfParents();
    ParentsPrecede(TWO_PARENTS, t);
    if Preserved(TWO_PARENTS, t) {
      ChainGivesParent(TWO_PARENTS, t, 0, 1, ["x", "a"], false);
      ChainGivesParent(TWO_PARENTS, t, 1, 1, ["x", "b"], false);
    }
  }

  lemma NoSelfParents()
    ensures forall k, l :: 0 <= k < |TWO_PARENTS| ==> !Risky(TWO_PARENTS, k, l)
  {
  }

  lemma LocalParent(k: nat, n: string)
    requires k < 2 && n == (if k == 0 then "a" else "b")
    ensures LocalChain(TWO_PARENTS[k].lines, 1, ["x", n], false)
  {
    var lines := TWO_PARENTS[k].lines;
    assert lines[0] == RootMeta(0, n) && lines[1] == ChildMeta(1, "x", 0);
    assert Names(lines, 0, n);
    LinkIsChain(lines, 1, n);
  }
}
