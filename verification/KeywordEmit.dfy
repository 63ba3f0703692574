/** The comparison macros of the generated file, for every target the source supports
    except the big-endian one. */
module CompareMacros {
  import opened KeywordTrie

  // LChar buffers hold bytes, UChar buffers 16-bit units.
  datatype CharType = LChar | UChar

  // Which of the three definitions of COMPARE_2 and COMPARE_4 is in force.
  datatype Target = NeedsAlignedAccess | LittleEndian | X86_64

  function Radix(ct: CharType): int {
    if ct.LChar? then 0x100 else 0x1_0000
  }

  ghost predicate Fits(ct: CharType, w: Word) {
    forall i :: 0 <= i < |w| ==> w[i] < if ct.LChar? then 256 else 65536
  }

  // A little-endian load of n adjacent units as one machine word.
  function Load(ct: CharType, code: Word, at: nat, n: nat): int
    requires at + n <= |code|
    decreases n
  {
    if n == 0 then 0 else code[at] + Radix(ct) * Load(ct, code, at + 1, n - 1)
  }

  function Pair(ct: CharType, a: Unit, b: Unit): int {
    b * Radix(ct) + a
  }

  function Quad(ct: CharType, a: Unit, b: Unit, c: Unit, d: Unit): int {
    Pair(ct, c, d) * (Radix(ct) * Radix(ct)) + Pair(ct, a, b)
  }

  predicate Compare2(m: Target, ct: CharType, code: Word, at: nat, a: Unit, b: Unit)
    requires at + 2 <= |code|
  {
    match m
    case NeedsAlignedAccess => code[at] == a && code[at + 1] == b
    case _ => Load(ct, code, at, 2) == Pair(ct, a, b)
  }

  predicate Compare4(m: Target, ct: CharType, code: Word, at: nat, a: Unit, b: Unit, c: Unit, d: Unit)
    requires at + 4 <= |code|
  {
    match m
    case X86_64 => Load(ct, code, at, 4) == Quad(ct, a, b, c, d)
    case _ => Compare2(m, ct, code, at, a, b) && Compare2(m, ct, code, at + 2, c, d)
  }

  // The test emitted for an edge of length |k|: a plain comparison for one unit, COMPARE_n above that.
  predicate Compare(m: Target, ct: CharType, code: Word, at: nat, k: Word)
    requires 1 <= |k| <= 8 && at + |k| <= |code|
  {
    match |k|
    case 1 => code[at] == k[0]
    case 2 => Compare2(m, ct, code, at, k[0], k[1])
    case 3 => Compare2(m, ct, code, at, k[0], k[1]) && code[at + 2] == k[2]
    case 4 => Compare4(m, ct, code, at, k[0], k[1], k[2], k[3])
    case 5 => Compare4(m, ct, code, at, k[0], k[1], k[2], k[3]) && code[at + 4] == k[4]
    case 6 => Compare4(m, ct, code, at, k[0], k[1], k[2], k[3]) && Compare2(m, ct, code, at + 4, k[4], k[5])
    case 7 => Compare4(m, ct, code, at, k[0], k[1], k[2], k[3]) && Compare4(m, ct, code, at + 3, k[3], k[4], k[5], k[6])
    case _ => Compare4(m, ct, code, at, k[0], k[1], k[2], k[3]) && Compare4(m, ct, code, at + 4, k[4], k[5], k[6], k[7])
  }

  lemma Separated(r: int, x: int, y: int)
    requires r > 0 && x > y
    ensures r * x >= r * y + r
    decreases x - y
  {
    assert r * x == r * (x - 1) + r;
    if x - 1 > y { Separated(r, x - 1, y); }
  }

  // The lowest digit of a number and the rest of it can be read back.
  lemma LowDigit(r: int, a: int, x: int, b: int, y: int)
    requires 0 <= a < r && 0 <= b < r
    ensures a + r * x == b + r * y <==> a == b && x == y
  {
    if x > y { Separated(r, x, y); }
    if x < y { Separated(r, y, x); }
  }

  lemma QuadNested(ct: CharType, a: Unit, b: Unit, c: Unit, d: Unit)
    ensures Quad(ct, a, b, c, d) == a + Radix(ct) * (b + Radix(ct) * (c + Radix(ct) * d))
  {
    var r := Radix(ct);
    assert (d * r + c) * (r * r) == r * (r * (c + r * d));
  }

  lemma QuadInjective(ct: CharType, a: Unit, b: Unit, c: Unit, d: Unit, e: Unit, f: Unit, g: Unit, h: Unit)
    requires Fits(ct, [a, b, c, d]) && Fits(ct, [e, f, g, h])
    ensures a + Radix(ct) * (b + Radix(ct) * (c + Radix(ct) * d)) == Quad(ct, e, f, g, h) <==> a == e && b == f && c == g && d == h
  {
    var v, w, r := [a, b, c, d], [e, f, g, h], Radix(ct);
    assert v[0] == a && v[1] == b && v[2] == c && v[3] == d;
    assert w[0] == e && w[1] == f && w[2] == g && w[3] == h;
    QuadNested(ct, e, f, g, h);
    LowDigit(r, a, b + r * (c + r * d), e, f + r * (g + r * h));
    LowDigit(r, b, c + r * d, f, g + r * h);
    LowDigit(r, c, d, g, h);
  }

  lemma Load1(ct: CharType, code: Word, at: nat)
    requires at + 1 <= |code|
    ensures Load(ct, code, at, 1) == code[at]
  {
    assert Load(ct, code, at + 1, 0) == 0;
  }

  lemma Load4(ct: CharType, code: Word, at: nat)
    requires at + 4 <= |code|
    ensures Load(ct, code, at, 2) == code[at] + Radix(ct) * code[at + 1]
    ensures Load(ct, code, at, 4) == code[at] + Radix(ct) * (code[at + 1] + Radix(ct) * (code[at + 2] + Radix(ct) * code[at + 3]))
  {
    Load1(ct, code, at + 1);
    Load1(ct, code, at + 3);
    assert Load(ct, code, at + 2, 2) == code[at + 2] + Radix(ct) * Load(ct, code, at + 3, 1);
    assert Load(ct, code, at + 1, 3) == code[at + 1] + Radix(ct) * Load(ct, code, at + 2, 2);
  }

  lemma Compare2Exact(m: Target, ct: CharType, code: Word, at: nat, a: Unit, b: Unit)
    requires at + 2 <= |code| && Fits(ct, code) && Fits(ct, [a, b])
    ensures Compare2(m, ct, code, at, a, b) <==> code[at] == a && code[at + 1] == b
  {
    Load1(ct, code, at + 1);
    assert [a, b][0] == a && [a, b][1] == b;
  }

  lemma Compare4Exact(m: Target, ct: CharType, code: Word, at: nat, a: Unit, b: Unit, c: Unit, d: Unit)
    requires at + 4 <= |code| && Fits(ct, code) && Fits(ct, [a, b, c, d])
    ensures Compare4(m, ct, code, at, a, b, c, d)
      <==> code[at] == a && code[at + 1] == b && code[at + 2] == c && code[at + 3] == d
  {
    if m.X86_64? {
      Load4(ct, code, at);
      QuadInjective(ct, code[at], code[at + 1], code[at + 2], code[at + 3], a, b, c, d);
    } else {
      var w := [a, b, c, d];
      assert w[0] == a && w[1] == b && w[2] == c && w[3] == d;
      Compare2Exact(m, ct, code, at, a, b);
      Compare2Exact(m, ct, code, at + 2, c, d);
    }
  }

  // The buffer agrees with k in the n units from position i of k.
  ghost predicate Agrees(code: Word, at: nat, k: Word, i: nat, n: nat)
    requires i + n <= |k| && at + |k| <= |code|
  {
    forall j :: i <= j < i + n ==> code[at + j] == k[j]
  }

  lemma Two(m: Target, ct: CharType, code: Word, at: nat, k: Word, i: nat)
    requires i + 2 <= |k| && at + |k| <= |code| && Fits(ct, code) && Fits(ct, k)
    ensures Compare2(m, ct, code, at + i, k[i], k[i + 1]) <==> Agrees(code, at, k, i, 2)
  {
    Compare2Exact(m, ct, code, at + i, k[i], k[i + 1]);
  }

  lemma Four(m: Target, ct: CharType, code: Word, at: nat, k: Word, i: nat)
    requires i + 4 <= |k| && at + |k| <= |code| && Fits(ct, code) && Fits(ct, k)
    ensures Compare4(m, ct, code, at + i, k[i], k[i + 1], k[i + 2], k[i + 3]) <==> Agrees(code, at, k, i, 4)
  {
    Compare4Exact(m, ct, code, at + i, k[i], k[i + 1], k[i + 2], k[i + 3]);
  }

  lemma AgreesWhole(code: Word, at: nat, k: Word)
    requires at + |k| <= |code|
    ensures Agrees(code, at, k, 0, |k|) <==> code[at..at + |k|] == k
  {
    var here := code[at..at + |k|];
    assert forall j :: 0 <= j < |k| ==> here[j] == code[at + j];
  }

  lemma AgreesSplits(code: Word, at: nat, k: Word, n: nat, i: nat)
    requires i <= n <= |k| && at + |k| <= |code|
    ensures Agrees(code, at, k, 0, |k|) <==> Agrees(code, at, k, 0, n) && Agrees(code, at, k, i, |k| - i)
  {
  }

  lemma ExactUpTo5(m: Target, ct: CharType, code: Word, at: nat, k: Word)
    requires 1 <= |k| <= 5 && at + |k| <= |code| && Fits(ct, code) && Fits(ct, k)
    ensures Compare(m, ct, code, at, k) <==> Agrees(code, at, k, 0, |k|)
  {
    if |k| == 2 || |k| == 3 { Two(m, ct, code, at, k, 0); }
    if |k| >= 4 { Four(m, ct, code, at, k, 0); }
  }

  lemma Exact6(m: Target, ct: CharType, code: Word, at: nat, k: Word)
    requires |k| == 6 && at + |k| <= |code| && Fits(ct, code) && Fits(ct, k)
    ensures Compare(m, ct, code, at, k) <==> Agrees(code, at, k, 0, 6)
  {
    Four(m, ct, code, at, k, 0);
    Two(m, ct, code, at, k, 4);
    AgreesSplits(code, at, k, 4, 4);
  }

  // The fourth unit is compared twice.
  lemma Exact7(m: Target, ct: CharType, code: Word, at: nat, k: Word)
    requires |k| == 7 && at + |k| <= |code| && Fits(ct, code) && Fits(ct, k)
    ensures Compare(m, ct, code, at, k) <==> Agrees(code, at, k, 0, 7)
  {
    Four(m, ct, code, at, k, 0);
    Four(m, ct, code, at, k, 3);
    AgreesSplits(code, at, k, 4, 3);
  }

  lemma Exact8(m: Target, ct: CharType, code: Word, at: nat, k: Word)
    requires |k| == 8 && at + |k| <= |code| && Fits(ct, code) && Fits(ct, k)
    ensures Compare(m, ct, code, at, k) <==> Agrees(code, at, k, 0, 8)
  {
    Four(m, ct, code, at, k, 0);
    Four(m, ct, code, at, k, 4);
    AgreesSplits(code, at, k, 4, 4);
  }

  // Every macro, on every target and both unit widths, is unit-by-unit equality.
  lemma CompareExact(m: Target, ct: CharType, code: Word, at: nat, k: Word)
    requires 1 <= |k| <= 8 && at + |k| <= |code| && Fits(ct, code) && Fits(ct, k)
    ensures Compare(m, ct, code, at, k) <==> code[at..at + |k|] == k
  {
    AgreesWhole(code, at, k);
    match |k| {
      case 6 => Exact6(m, ct, code, at, k);
      case 7 => Exact7(m, ct, code, at, k);
      case 8 => Exact8(m, ct, code, at, k);
      case _ => ExactUpTo5(m, ct, code, at, k);
    }
  }
}

/** The decision tree that printSubTreeAsC writes out, and what running it does. */
module KeywordMatcher {
  import opened Maybe
  import opened KeywordTrie
  import opened CompareMacros

  // A trie node after fillOut, its children now an ordered list.
  datatype Node = Node(prefix: Word, fullPrefix: Word, value: Option<string>,
                       selfWeight: real, weight: real, keys: seq<Node>)

  // f carries the nodes of t, with the siblings of every node in some order.
  ghost predicate Arranged(t: Trie, above: Word, f: Node)
    decreases f
  {
    && f.prefix == t.prefix && f.fullPrefix == above + t.prefix && f.value == t.value
    && (forall i :: 0 <= i < |f.keys| ==>
          f.keys[i].prefix in t.keys && Arranged(t.keys[f.keys[i].prefix], f.fullPrefix, f.keys[i]))
    && (forall k :: k in t.keys ==> exists i :: 0 <= i < |f.keys| && f.keys[i].prefix == k)
    && (forall i, j :: 0 <= i < j < |f.keys| ==> f.keys[i].prefix != f.keys[j].prefix)
  }

  // ----- emitted code -----

  // if (!isIdentPart(code[index])) { internalShift<shift>(); ...->identKeyword; return token; }
  datatype Accept = Accept(index: nat, shift: nat, ident: Word, token: string)
  // if (<compare chars at base>) { body }, chained with else
  datatype Branch = Branch(base: nat, chars: Word, body: Block)
  datatype Block = Block(accept: Option<Accept>, chain: seq<Branch>)

  function Emit(f: Node): (b: Block)
    decreases f, 1
  {
    var n := |f.fullPrefix|;
    Block(if f.value.Some? then Some(Accept(n, n, f.fullPrefix, f.value.value)) else None, EmitChain(n, f.keys))
  }

  function EmitChain(root: nat, keys: seq<Node>): (c: seq<Branch>)
    ensures |c| == |keys|
    decreases keys, 0
  {
    if keys == [] then []
    else [EmitBranch(root, keys[0], Emit(keys[0]))] + EmitChain(root, keys[1..])
  }

  // A three-unit edge below the root is widened backwards to a four-unit compare.
  function EmitBranch(root: nat, child: Node, body: Block): (b: Branch) {
    var k := child.prefix;
    if root > 0 && |k| == 3 && root - 1 < |child.fullPrefix| then
      Branch(root - 1, [child.fullPrefix[root - 1]] + k, body)
    else Branch(root, k, body)
  }

  // There is a macro for every test in the block.
  predicate Compiles(b: Block)
    decreases b, 1
  {
    ChainCompiles(b.chain)
  }

  predicate ChainCompiles(c: seq<Branch>)
    decreases c, 0
  {
    c == [] || (1 <= |c[0].chars| <= 8 && Compiles(c[0].body) && ChainCompiles(c[1..]))
  }

  // ----- running it -----

  datatype Machine = Machine(target: Target, ct: CharType, isIdentPart: Unit -> bool)

  // Ident is the final "return IDENT"; Fault is a read past the end of the buffer.
  datatype Outcome = Token(token: string, shift: nat, ident: Word) | Ident | Fault

  function Exec(m: Machine, b: Block, code: Word): (o: Outcome)
    requires Compiles(b)
    decreases b, 1
  {
    if b.accept.Some? && b.accept.value.index >= |code| then Fault
    else if b.accept.Some? && !m.isIdentPart(code[b.accept.value.index]) then
      Token(b.accept.value.token, b.accept.value.shift, b.accept.value.ident)
    else ExecChain(m, b.chain, code)
  }

  // Once a test succeeds the other branches are never tried.
  function ExecChain(m: Machine, c: seq<Branch>, code: Word): (o: Outcome)
    requires ChainCompiles(c)
    decreases c, 0
  {
    if c == [] then Ident
    else if c[0].base + |c[0].chars| > |code| then Fault
    else if Compare(m.target, m.ct, code, c[0].base, c[0].chars) then Exec(m, c[0].body, code)
    else ExecChain(m, c[1..], code)
  }

  function Max(a: int, b: int): int { if a > b then a else b }

  function MaxLength(f: Node): (n: nat)
    ensures n >= |f.fullPrefix|
    decreases f, 1
  {
    Max(|f.fullPrefix|, MaxLengthOf(f.keys))
  }

  function MaxLengthOf(keys: seq<Node>): (n: nat)
    ensures forall i :: 0 <= i < |keys| ==> n >= MaxLength(keys[i])
    decreases keys, 0
  {
    if keys == [] then 0 else Max(MaxLength(keys[0]), MaxLengthOf(keys[1..]))
  }

  // ----- what the dictionary asks for -----

  // The word code[from..n] is in t and code[n] ends it.
  ghost predicate Hit(m: Machine, t: Trie, from: nat, code: Word, n: nat) {
    from <= n < |code| && Lookup(t, code[from..n]).Some? && !m.isIdentPart(code[n])
  }

  // o reports the shortest hit at or after position lo, or that there is none.
  ghost predicate Reports(m: Machine, t: Trie, from: nat, lo: nat, code: Word, o: Outcome)
    requires from <= |code|
  {
    match o
    case Token(v, n, w) =>
      && lo <= n && Hit(m, t, from, code, n) && Lookup(t, code[from..n]) == Some(v) && w == code[..n]
      && forall j :: lo <= j < n ==> !Hit(m, t, from, code, j)
    case Ident => forall n :: lo <= n ==> !Hit(m, t, from, code, n)
    case Fault => false
  }

  ghost predicate FitsTrie(ct: CharType, t: Trie)
    decreases t
  {
    Fits(ct, t.prefix) && forall k :: k in t.keys ==> FitsTrie(ct, t.keys[k])
  }

  lemma EdgeHits(m: Machine, t: Trie, from: nat, k: Word, code: Word, n: nat)
    requires WellFormed(t) && from <= |code| && Edge(t, k, code[from..]) && n > from
    ensures Hit(m, t, from, code, n) <==> Hit(m, t.keys[k], from + |k|, code, n)
  {
    if n < |code| {
      var s := code[from..n];
      assert code[from..from + |k|] == k;
      if n >= from + |k| {
        assert s[..|k|] == k && s[|k|..] == code[from + |k|..n];
        assert Edge(t, k, s);
        LookupDown(t, k, s);
      } else {
        forall q | Edge(t, q, s) ensures q == k { assert q[0] == s[0] == k[0]; }
      }
    }
  }

  lemma NoEdgeNoHits(m: Machine, t: Trie, from: nat, code: Word, n: nat)
    requires from <= |code| && n > from && forall k :: !Edge(t, k, code[from..])
    ensures !Hit(m, t, from, code, n)
  {
    if n < |code| {
      forall q | Edge(t, q, code[from..n]) ensures Edge(t, q, code[from..]) {
        assert code[from..n] == code[from..][..n - from];
      }
    }
  }

  // The widened test decides the edge, given that the units before it have already matched.
  lemma BranchDecides(m: Machine, above: Word, child: Node, body: Block, code: Word)
    requires above <= code && child.fullPrefix == above + child.prefix && |child.fullPrefix| <= |code|
    requires Fits(m.ct, code) && Fits(m.ct, child.fullPrefix)
    requires var b := EmitBranch(|above|, child, body); 1 <= |b.chars| <= 8
    ensures var b := EmitBranch(|above|, child, body);
      && b.base + |b.chars| == |child.fullPrefix|
      && (Compare(m.target, m.ct, code, b.base, b.chars) <==> child.prefix <= code[|above|..])
  {
    var b := EmitBranch(|above|, child, body);
    var k, n := child.prefix, |above|;
    TestedUnits(m.ct, above, child, body);
    CompareExact(m.target, m.ct, code, b.base, b.chars);
    StartsWith(k, n, code);
    if b.base != n { Widened(above, k, code); }
  }

  // A test covers the end of the child's full prefix.
  lemma TestedUnits(ct: CharType, above: Word, child: Node, body: Block)
    requires child.fullPrefix == above + child.prefix && Fits(ct, child.fullPrefix)
    ensures var b := EmitBranch(|above|, child, body); b.base + |b.chars| == |child.fullPrefix| && Fits(ct, b.chars)
  {
    var b := EmitBranch(|above|, child, body);
    assert forall i :: 0 <= i < |b.chars| ==> b.chars[i] == child.fullPrefix[b.base + i];
  }

  lemma StartsWith(k: Word, n: nat, code: Word)
    requires n + |k| <= |code|
    ensures k <= code[n..] <==> code[n..n + |k|] == k
  {
    assert code[n..][..|k|] == code[n..n + |k|];
  }

  // Comparing the unit before the edge as well changes nothing once it has matched.
  lemma Widened(above: Word, k: Word, code: Word)
    requires above != [] && above <= code && |above + k| <= |code|
    ensures var n := |above|; code[n - 1..n + |k|] == [(above + k)[n - 1]] + k <==> code[n..n + |k|] == k
  {
    var n := |above|;
    assert code[n - 1..n + |k|] == [code[n - 1]] + code[n..n + |k|] && code[n - 1] == above[n - 1];
    assert ([code[n - 1]] + code[n..n + |k|])[1..] == code[n..n + |k|] && ([code[n - 1]] + k)[1..] == k;
  }

  lemma PrefixGrows(p: Word, k: Word, code: Word)
    requires p <= code && k <= code[|p|..]
    ensures p + k <= code
  {
  }

  // What a subtree reports is what its parent reports once the edge to it has matched.
  lemma ReportBelow(m: Machine, t: Trie, n: nat, k: Word, at: nat, code: Word, o: Outcome)
    requires WellFormed(t) && n <= |code| && Edge(t, k, code[n..]) && at == n + |k|
    requires Reports(m, t.keys[k], at, at, code, o)
    ensures Reports(m, t, n, n + 1, code, o)
  {
    forall j | n < j ensures Hit(m, t, n, code, j) <==> Hit(m, t.keys[k], n + |k|, code, j) {
      EdgeHits(m, t, n, k, code, j);
    }
    if o.Token? {
      var s := code[n..o.shift];
      assert s[..|k|] == code[n..][..|k|] && s[|k|..] == code[n + |k|..o.shift];
      assert Edge(t, k, s);
      LookupDown(t, k, s);
    }
  }

  // One test of the chain either enters the child or passes on to the next sibling.
  lemma ChainStep(m: Machine, f: Node, i: nat, code: Word)
    requires i < |f.keys| && ChainCompiles(EmitChain(|f.fullPrefix|, f.keys[i..]))
    requires f.fullPrefix <= code && MaxLength(f.keys[i]) < |code|
    requires f.keys[i].fullPrefix == f.fullPrefix + f.keys[i].prefix
    requires Fits(m.ct, code) && Fits(m.ct, f.keys[i].fullPrefix)
    ensures Compiles(Emit(f.keys[i])) && ChainCompiles(EmitChain(|f.fullPrefix|, f.keys[i + 1..]))
    ensures ExecChain(m, EmitChain(|f.fullPrefix|, f.keys[i..]), code) ==
      if f.keys[i].prefix <= code[|f.fullPrefix|..] then Exec(m, Emit(f.keys[i]), code)
      else ExecChain(m, EmitChain(|f.fullPrefix|, f.keys[i + 1..]), code)
  {
    var child, c := f.keys[i], EmitChain(|f.fullPrefix|, f.keys[i..]);
    assert f.keys[i..][0] == child && f.keys[i..][1..] == f.keys[i + 1..];
    assert c[1..] == EmitChain(|f.fullPrefix|, f.keys[i + 1..]);
    BranchDecides(m, f.fullPrefix, child, Emit(child), code);
  }

  // The first child from position i on whose edge the rest of the buffer matches.
  ghost function Taken(keys: seq<Node>, rest: Word, i: nat): (j: nat)
    requires i <= |keys|
    ensures i <= j <= |keys| && (j < |keys| ==> keys[j].prefix <= rest)
    ensures forall h :: i <= h < j ==> !(keys[h].prefix <= rest)
    decreases |keys| - i
  {
    if i == |keys| || keys[i].prefix <= rest then i else Taken(keys, rest, i + 1)
  }

  // The part of a node's surroundings that a run of its code depends on.
  ghost predicate Reaches(m: Machine, f: Node, code: Word) {
    && f.fullPrefix <= code && MaxLength(f) < |code| && Fits(m.ct, code)
    && forall i :: 0 <= i < |f.keys| ==> f.keys[i].fullPrefix == f.fullPrefix + f.keys[i].prefix && Fits(m.ct, f.keys[i].fullPrefix)
  }

  lemma {:induction false} ChainTakes(m: Machine, f: Node, i: nat, code: Word)
    requires i <= |f.keys| && ChainCompiles(EmitChain(|f.fullPrefix|, f.keys[i..])) && Reaches(m, f, code)
    ensures var j := Taken(f.keys, code[|f.fullPrefix|..], i);
      && (j < |f.keys| ==> Compiles(Emit(f.keys[j])))
      && ExecChain(m, EmitChain(|f.fullPrefix|, f.keys[i..]), code)
           == if j < |f.keys| then Exec(m, Emit(f.keys[j]), code) else Ident
    decreases |f.keys| - i
  {
    if i < |f.keys| {
      ChainStep(m, f, i, code);
      if !(f.keys[i].prefix <= code[|f.fullPrefix|..]) { ChainTakes(m, f, i + 1, code); }
    }
  }

  lemma {:induction false} ExecReports(m: Machine, t: Trie, above: Word, f: Node, code: Word)
    requires WellFormed(t) && Arranged(t, above, f) && Compiles(Emit(f))
    requires f.fullPrefix <= code && MaxLength(f) < |code|
    requires Fits(m.ct, code) && FitsTrie(m.ct, t) && Fits(m.ct, f.fullPrefix)
    ensures Reports(m, t, |f.fullPrefix|, |f.fullPrefix|, code, Exec(m, Emit(f), code))
    decreases f, 1
  {
    var n := |f.fullPrefix|;
    HitHere(m, t, n, code);
    if f.value.Some? && !m.isIdentPart(code[n]) {
      assert code[..n] == f.fullPrefix;
    } else {
      ChainReports(m, t, above, f, code);
      ReportsFrom(m, t, n, code, ExecChain(m, EmitChain(n, f.keys), code));
    }
  }

  lemma HitHere(m: Machine, t: Trie, n: nat, code: Word)
    requires n < |code|
    ensures Lookup(t, code[n..n]) == t.value
    ensures Hit(m, t, n, code, n) <==> t.value.Some? && !m.isIdentPart(code[n])
  {
    assert code[n..n] == [];
  }

  lemma ReportsFrom(m: Machine, t: Trie, n: nat, code: Word, o: Outcome)
    requires n <= |code| && Reports(m, t, n, n + 1, code, o) && !Hit(m, t, n, code, n)
    ensures Reports(m, t, n, n, code, o)
  {
  }

  lemma {:induction false} ChainReports(m: Machine, t: Trie, above: Word, f: Node, code: Word)
    requires WellFormed(t) && Arranged(t, above, f) && ChainCompiles(EmitChain(|f.fullPrefix|, f.keys))
    requires f.fullPrefix <= code && MaxLength(f) < |code|
    requires Fits(m.ct, code) && FitsTrie(m.ct, t) && Fits(m.ct, f.fullPrefix)
    ensures Reports(m, t, |f.fullPrefix|, |f.fullPrefix| + 1, code, ExecChain(m, EmitChain(|f.fullPrefix|, f.keys), code))
    decreases f, 0, 1
  {
    assert f.keys[0..] == f.keys;
    ChildrenFit(m, t, above, f);
    ChainTakes(m, f, 0, code);
    var j := Taken(f.keys, code[|f.fullPrefix|..], 0);
    if j < |f.keys| { TakenReports(m, t, above, f, j, code); } else { NoneLeft(m, t, above, f, code); }
  }

  lemma ChildrenFit(m: Machine, t: Trie, above: Word, f: Node)
    requires Arranged(t, above, f) && FitsTrie(m.ct, t) && Fits(m.ct, f.fullPrefix)
    ensures forall i :: 0 <= i < |f.keys| ==> f.keys[i].fullPrefix == f.fullPrefix + f.keys[i].prefix && Fits(m.ct, f.keys[i].fullPrefix)
  {
    forall i | 0 <= i < |f.keys| ensures Fits(m.ct, f.keys[i].fullPrefix) {
      assert FitsTrie(m.ct, t.keys[f.keys[i].prefix]);
    }
  }

  lemma NoneLeft(m: Machine, t: Trie, above: Word, f: Node, code: Word)
    requires Arranged(t, above, f) && f.fullPrefix <= code
    requires forall j :: 0 <= j < |f.keys| ==> !(f.keys[j].prefix <= code[|f.fullPrefix|..])
    ensures Reports(m, t, |f.fullPrefix|, |f.fullPrefix| + 1, code, Ident)
  {
    var n := |f.fullPrefix|;
    forall j | n < j ensures !Hit(m, t, n, code, j) { NoEdgeNoHits(m, t, n, code, j); }
  }

  lemma {:induction false} TakenReports(m: Machine, t: Trie, above: Word, f: Node, i: nat, code: Word)
    requires i < |f.keys| && Compiles(Emit(f.keys[i]))
    requires WellFormed(t) && Arranged(t, above, f)
    requires f.fullPrefix <= code && MaxLength(f.keys[i]) < |code|
    requires Fits(m.ct, code) && FitsTrie(m.ct, t) && Fits(m.ct, f.fullPrefix)
    requires f.keys[i].prefix <= code[|f.fullPrefix|..]
    ensures Reports(m, t, |f.fullPrefix|, |f.fullPrefix| + 1, code, Exec(m, Emit(f.keys[i]), code))
    decreases f, 0, 0
  {
    var n, child := |f.fullPrefix|, f.keys[i];
    var k := child.prefix;
    PrefixGrows(f.fullPrefix, k, code);
    ExecReports(m, t.keys[k], f.fullPrefix, child, code);
    ReportBelow(m, t, n, k, |child.fullPrefix|, code, Exec(m, Emit(child), code));
  }

  // ----- the whole generator -----

  ghost function Compact(table: seq<(Word, string)>): (t: Trie) {
    BuildIsDictionary(table, []);
    RawWellFormed(Build(table));
    CoalesceKeys(Build(table))
  }

  // Any value fillOut can leave behind for the keywords of a table.
  ghost predicate Generated(table: seq<(Word, string)>, f: Node) {
    Arranged(Compact(table), [], f)
  }

  ghost predicate Keyword(table: seq<(Word, string)>, m: Machine, code: Word, n: nat) {
    n < |code| && Listed(table, code[..n]).Some? && !m.isIdentPart(code[n])
  }

  // o is the shortest listed keyword at the start of code that a non-identifier unit follows,
  // with the value it was last given and its own length as the shift; IDENT when there is none.
  ghost predicate Answers(table: seq<(Word, string)>, m: Machine, code: Word, o: Outcome) {
    match o
    case Token(v, n, w) =>
      && Keyword(table, m, code, n) && w == code[..n] && Listed(table, w) == Some(v)
      && forall j: nat :: j < n ==> !Keyword(table, m, code, j)
    case Ident => forall n: nat :: !Keyword(table, m, code, n)
    case Fault => false
  }

  ghost predicate Units(ct: CharType, table: seq<(Word, string)>) {
    forall i :: 0 <= i < |table| ==> Fits(ct, table[i].0)
  }

  lemma {:induction false} InsertFits(ct: CharType, t: Trie, key: Word, v: string)
    requires FitsTrie(ct, t) && Fits(ct, key)
    ensures FitsTrie(ct, Insert(t, key, v))
    decreases |key|
  {
    if key != [] {
      var k := key[..1];
      var child := if k in t.keys then t.keys[k] else Trie(k, map[], None);
      InsertFits(ct, child, key[1..], v);
    }
  }

  lemma {:induction false} BuildFits(ct: CharType, table: seq<(Word, string)>)
    requires Units(ct, table)
    ensures FitsTrie(ct, Build(table))
  {
    if table != [] {
      var n := |table| - 1;
      BuildFits(ct, table[..n]);
      InsertFits(ct, Build(table[..n]), table[n].0, table[n].1);
    }
  }

  lemma {:induction false} CoalesceKeysFits(ct: CharType, t: Trie)
    requires WellFormed(t) && FitsTrie(ct, t)
    ensures FitsTrie(ct, CoalesceKeys(t))
    decreases t, 0
  {
    var u := CoalesceKeys(t);
    forall p | p in u.keys ensures FitsTrie(ct, u.keys[p]) {
      var k := CoalescedOrigin(t, p);
      CoalesceFits(ct, t.keys[k]);
    }
  }

  lemma {:induction false} CoalesceFits(ct: CharType, t: Trie)
    requires WellFormed(t) && FitsTrie(ct, t)
    ensures FitsTrie(ct, Coalesce(t))
    decreases t, 1
  {
    CoalesceKeysFits(ct, t);
    CoalesceKeysShape(t);
  }

  lemma CompactIsDictionary(table: seq<(Word, string)>, w: Word)
    ensures WellFormed(Compact(table)) && Compressed(Compact(table)) && Compact(table).prefix == []
    ensures Lookup(Compact(table), w) == Listed(table, w)
  {
    var t := Build(table);
    BuildIsDictionary(table, w);
    RawWellFormed(t);
    CoalesceKeysShape(t);
    CoalesceKeysCompresses(t);
    CoalesceKeysPreserves(t, w);
  }

  lemma CompactFits(ct: CharType, table: seq<(Word, string)>)
    requires Units(ct, table)
    ensures FitsTrie(ct, Compact(table))
  {
    BuildFits(ct, table);
    BuildIsDictionary(table, []);
    RawWellFormed(Build(table));
    CoalesceKeysFits(ct, Build(table));
  }

  // The generated matcher stays inside the first maxTokenLength units and answers as the table asks.
  lemma MatcherIsDictionary(table: seq<(Word, string)>, f: Node, m: Machine, code: Word)
    requires Generated(table, f) && Compiles(Emit(f)) && Units(m.ct, table)
    requires Fits(m.ct, code) && |code| >= MaxLength(f) + 1
    ensures Answers(table, m, code, Exec(m, Emit(f), code))
  {
    var u := Compact(table);
    CompactIsDictionary(table, []);
    CompactFits(m.ct, table);
    ExecReports(m, u, [], f, code);
    ReportsAnswer(table, m, code, Exec(m, Emit(f), code));
  }

  lemma ReportsAnswer(table: seq<(Word, string)>, m: Machine, code: Word, o: Outcome)
    requires Reports(m, Compact(table), 0, 0, code, o)
    ensures Answers(table, m, code, o)
  {
    var u := Compact(table);
    forall n: nat | n < |code| ensures Lookup(u, code[0..n]) == Listed(table, code[..n]) {
      assert code[0..n] == code[..n];
      CompactIsDictionary(table, code[..n]);
    }
    forall n: nat ensures Keyword(table, m, code, n) <==> Hit(m, u, 0, code, n) { }
  }

  // ----- when a macro exists for every test, and how long a token can get -----

  ghost predicate ShortEdges(t: Trie)
    decreases t
  {
    forall k :: k in t.keys ==> |k| <= 8 && ShortEdges(t.keys[k])
  }

  // The same, said of the ordered tree.
  ghost predicate ShortNode(f: Node)
    decreases f, 0
  {
    forall i :: 0 <= i < |f.keys| ==> ShortKey(f.keys[i])
  }

  ghost predicate ShortKey(f: Node)
    decreases f, 1
  {
    1 <= |f.prefix| <= 8 && ShortNode(f)
  }

  lemma {:induction false} NodeCompiles(f: Node)
    ensures Compiles(Emit(f)) <==> ShortNode(f)
    decreases f, 1
  {
    ChainCompilesIff(|f.fullPrefix|, f.keys);
  }

  lemma {:induction false} ChainCompilesIff(root: nat, keys: seq<Node>)
    ensures ChainCompiles(EmitChain(root, keys)) <==> forall i :: 0 <= i < |keys| ==> ShortKey(keys[i])
    decreases keys, 0
  {
    if keys != [] {
      var c := EmitChain(root, keys);
      NodeCompiles(keys[0]);
      ChainCompilesIff(root, keys[1..]);
      assert c[0] == EmitBranch(root, keys[0], Emit(keys[0])) && c[1..] == EmitChain(root, keys[1..]);
      assert forall i :: 0 < i < |keys| ==> keys[i] == keys[1..][i - 1];
    }
  }

  lemma {:induction false} ShortTree(t: Trie, above: Word, f: Node)
    requires WellFormed(t) && Arranged(t, above, f) && ShortEdges(t)
    ensures ShortNode(f)
    decreases f
  {
    forall i | 0 <= i < |f.keys| ensures ShortKey(f.keys[i]) {
      ShortTree(t.keys[f.keys[i].prefix], f.fullPrefix, f.keys[i]);
    }
  }

  lemma {:induction false} ShortTrie(t: Trie, above: Word, f: Node)
    requires Arranged(t, above, f) && ShortNode(f)
    ensures ShortEdges(t)
    decreases f
  {
    forall k | k in t.keys ensures |k| <= 8 && ShortEdges(t.keys[k]) {
      var i :| 0 <= i < |f.keys| && f.keys[i].prefix == k;
      assert ShortKey(f.keys[i]);
      ShortTrie(t.keys[k], f.fullPrefix, f.keys[i]);
    }
  }

  // The emitted code compiles exactly when no edge is longer than the widest compare macro.
  lemma CompilesIff(t: Trie, above: Word, f: Node)
    requires WellFormed(t) && Arranged(t, above, f)
    ensures Compiles(Emit(f)) <==> ShortEdges(t)
  {
    NodeCompiles(f);
    if ShortEdges(t) { ShortTree(t, above, f); }
    if ShortNode(f) { ShortTrie(t, above, f); }
  }

  lemma {:induction false} LongestAttained(keys: seq<Node>) returns (i: nat)
    requires keys != []
    ensures i < |keys| && MaxLength(keys[i]) == MaxLengthOf(keys)
  {
    if |keys| == 1 || MaxLength(keys[0]) >= MaxLengthOf(keys[1..]) { return 0; }
    i := LongestAttained(keys[1..]);
    i := i + 1;
  }

  lemma {:induction false} WordsBounded(t: Trie, above: Word, f: Node, w: Word)
    requires WellFormed(t) && Arranged(t, above, f) && Lookup(t, w).Some?
    ensures |f.fullPrefix| + |w| <= MaxLength(f)
    decreases f
  {
    if w != [] {
      var k := EdgeFor(t, w);
      var i :| 0 <= i < |f.keys| && f.keys[i].prefix == k;
      WordsBounded(t.keys[k], f.fullPrefix, f.keys[i], w[|k|..]);
    }
  }

  lemma {:induction false} LongestWord(t: Trie, above: Word, f: Node) returns (w: Word)
    requires WellFormed(t) && Compressed(t) && Arranged(t, above, f) && (t.value.Some? || f.keys != [])
    ensures Lookup(t, w).Some? && |f.fullPrefix| + |w| == MaxLength(f)
    decreases f
  {
    if f.keys == [] { return []; }
    var i := LongestAttained(f.keys);
    var child, k := f.keys[i], f.keys[i].prefix;
    if child.keys == [] { assert t.keys[k].keys.Keys == {}; }
    w := LongestWord(t.keys[k], f.fullPrefix, child);
    w := k + w;
    assert Edge(t, k, w);
    LookupDown(t, k, w);
  }

  lemma LongestOverall(u: Trie, f: Node, some: Word) returns (longest: Word)
    requires WellFormed(u) && Compressed(u) && u.prefix == [] && Arranged(u, [], f) && Lookup(u, some).Some?
    ensures Lookup(u, longest).Some? && |longest| == MaxLength(f)
    ensures forall w :: Lookup(u, w).Some? ==> |w| <= MaxLength(f)
  {
    AllBounded(u, f);
    HasChildren(u, f, some);
    longest := LongestWord(u, [], f);
  }

  lemma AllBounded(u: Trie, f: Node)
    requires WellFormed(u) && u.prefix == [] && Arranged(u, [], f)
    ensures forall w :: Lookup(u, w).Some? ==> |w| <= MaxLength(f)
  {
    forall w | Lookup(u, w).Some? ensures |w| <= MaxLength(f) { WordsBounded(u, [], f, w); }
  }

  lemma HasChildren(u: Trie, f: Node, some: Word)
    requires Arranged(u, [], f) && Lookup(u, some).Some?
    ensures u.value.Some? || f.keys != []
  {
    if some != [] { var k := EdgeFor(u, some); }
  }

  // maxTokenLength is one more than the longest keyword.
  lemma MaxLengthIsLongest(table: seq<(Word, string)>, f: Node) returns (longest: Word)
    requires Generated(table, f) && table != []
    ensures Listed(table, longest).Some? && |longest| == MaxLength(f)
    ensures forall w :: Listed(table, w).Some? ==> |w| <= MaxLength(f)
  {
    var u, last := Compact(table), table[|table| - 1].0;
    forall w ensures Lookup(u, w) == Listed(table, w) { CompactIsDictionary(table, w); }
    CompactIsDictionary(table, last);
    longest := LongestOverall(u, f, last);
  }

  ghost predicate IdentTable(table: seq<(Word, string)>, m: Machine) {
    forall w: Word, x: Unit :: Listed(table, w).Some? && x in w ==> m.isIdentPart(x)
  }

  lemma InsideKeyword(table: seq<(Word, string)>, m: Machine, code: Word, i: nat, j: nat)
    requires IdentTable(table, m) && Keyword(table, m, code, j) && i < j
    ensures !Keyword(table, m, code, i)
  {
    assert code[i] == code[..j][i];
  }

  // When keywords are made of identifier parts only, a keyword that fits is the one reported.
  lemma MatcherFindsKeyword(table: seq<(Word, string)>, f: Node, m: Machine, code: Word, n: nat)
    requires Generated(table, f) && Compiles(Emit(f)) && Units(m.ct, table) && IdentTable(table, m)
    requires Fits(m.ct, code) && |code| >= MaxLength(f) + 1
    requires Keyword(table, m, code, n)
    ensures Exec(m, Emit(f), code) == Token(Listed(table, code[..n]).value, n, code[..n])
  {
    MatcherIsDictionary(table, f, m, code);
    AnswerUnique(table, m, code, Exec(m, Emit(f), code), n);
  }

  lemma AnswerUnique(table: seq<(Word, string)>, m: Machine, code: Word, o: Outcome, n: nat)
    requires IdentTable(table, m) && Answers(table, m, code, o) && Keyword(table, m, code, n)
    ensures o == Token(Listed(table, code[..n]).value, n, code[..n])
  {
    if o.shift < n { InsideKeyword(table, m, code, o.shift, n); }
  }
}
