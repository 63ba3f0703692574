/** The reference scanner of the module combiner: splitting text at "#n" and "!n". */
module References {
  import opened Collections

  datatype Kind = Hash | Bang

  datatype Piece = Text(text: string) | Ref(kind: Kind, number: nat)

  predicate IsDigit(c: char) { '0' <= c <= '9' }

  function Sigil(k: Kind): char { if k.Hash? then '#' else '!' }

  function KindOf(c: char): Kind { if c == '#' then Hash else Bang }

  function DigitChar(n: nat): char
    requires n < 10
  {
    '0' + n as char
  }

  function ToString(n: nat): (s: string)
    ensures s != "" && forall c :: c in s ==> IsDigit(c)
  {
    if n < 10 then [DigitChar(n)] else ToString(n / 10) + [DigitChar(n % 10)]
  }

  ghost predicate Digits(s: string) {
    forall i :: 0 <= i < |s| ==> IsDigit(s[i])
  }

  function ToInt(s: string): nat
    requires Digits(s)
  {
    if s == "" then 0 else ToInt(s[..|s| - 1]) * 10 + (s[|s| - 1] - '0') as nat
  }

  // ----- numbers -----

  lemma {:induction false} ToIntOfToString(n: nat)
    ensures Digits(ToString(n)) && ToInt(ToString(n)) == n
  {
    var s := ToString(n);
    assert forall i :: 0 <= i < |s| ==> s[i] in s;
    if n >= 10 {
      ToIntOfToString(n / 10);
      assert s[..|s| - 1] == ToString(n / 10);
    } else {
      assert s[..|s| - 1] == "";
    }
  }

  // A number is written back as it stood exactly when it had no leading zero.
  ghost predicate NoLeadingZero(s: string) {
    s == "0" || (s != "" && s[0] != '0')
  }

  lemma {:induction false} ToStringOfToInt(s: string)
    requires Digits(s) && s != ""
    ensures ToString(ToInt(s)) == s <==> NoLeadingZero(s)
    ensures |ToString(ToInt(s))| <= |s|
    ensures s[0] != '0' ==> ToInt(s) > 0
    decreases |s|
  {
    var n := |s| - 1;
    var front := s[..n];
    var d := (s[n] - '0') as nat;
    assert s == front + [s[n]] && DigitChar(d) == s[n];
    if front == "" {
    } else {
      ToStringOfToInt(front);
      AppendsDigit(ToInt(front), d);
      SameFront(ToString(ToInt(front)), front, s[n]);
    }
  }

  lemma AppendsDigit(a: nat, d: nat)
    requires d < 10
    ensures a > 0 ==> ToString(10 * a + d) == ToString(a) + [DigitChar(d)]
  {
    assert (10 * a + d) / 10 == a && (10 * a + d) % 10 == d;
  }

  lemma SameFront(p: string, q: string, c: char)
    ensures p + [c] == q + [c] <==> p == q
  {
    assert p == (p + [c])[..|p|] && q == (q + [c])[..|q|];
  }

  // ----- scanning -----

  predicate IsRefAt(s: string, i: nat) {
    i + 1 < |s| && (s[i] == '!' || s[i] == '#') && IsDigit(s[i + 1])
  }

  // Where the leftmost reference at or after i starts, or the end of the text.
  function FindRef(s: string, i: nat): (j: nat)
    requires i <= |s|
    ensures i <= j <= |s| && (j < |s| ==> IsRefAt(s, j))
    ensures forall k :: i <= k < j ==> !IsRefAt(s, k)
    decreases |s| - i
  {
    if i == |s| || IsRefAt(s, i) then i else FindRef(s, i + 1)
  }

  // The end of the run of digits that starts at i.
  function DigitsEnd(s: string, i: nat): (j: nat)
    requires i <= |s|
    ensures i <= j <= |s| && (j < |s| ==> !IsDigit(s[j]))
    ensures forall k :: i <= k < j ==> IsDigit(s[k])
    decreases |s| - i
  {
    if i == |s| || !IsDigit(s[i]) then i else DigitsEnd(s, i + 1)
  }

  function Pieces(s: string): (ps: seq<Piece>)
    decreases |s|
  {
    if s == "" then []
    else
      var j := FindRef(s, 0);
      if j == |s| then [Text(s), Text("")]
      else
        var e := DigitsEnd(s, j + 1);
        [Text(s[..j]), Ref(KindOf(s[j]), ToInt(s[j + 1..e]))] + Pieces(s[e..])
  }

  function Render(p: Piece): string {
    match p
    case Text(t) => t
    case Ref(k, n) => [Sigil(k)] + ToString(n)
  }

  function Print(ps: seq<Piece>): string {
    if ps == [] then "" else Render(ps[0]) + Print(ps[1..])
  }

  /** parse: peel off the text before the next reference, then the reference, until nothing is left. */
  method Parse(s: string) returns (result: seq<Piece>)
    ensures result == Pieces(s)
  {
    result := [];
    var rest := s;
    while rest != ""
      invariant result + Pieces(rest) == Pieces(s)
      decreases |rest|
    {
      var j := FindRef(rest, 0);
      var before := rest[..j];
      if j == |rest| {
        assert before == rest;
        result := result + [Text(before), Text("")];
        return;
      }
      var e := DigitsEnd(rest, j + 1);
      var reference := Ref(KindOf(rest[j]), ToInt(rest[j + 1..e]));
      Associates(result, [Text(before), reference], Pieces(rest[e..]));
      result := result + [Text(before), reference];
      rest := rest[e..];
    }
  }

  // ----- renumbering commutes with parsing -----

  function Renumber(ps: seq<Piece>, f: (Kind, nat) -> nat): (r: seq<Piece>)
    ensures |r| == |ps|
  {
    if ps == [] then []
    else [if ps[0].Ref? then Ref(ps[0].kind, f(ps[0].kind, ps[0].number)) else ps[0]] + Renumber(ps[1..], f)
  }

  // The lists parse returns, seen without the numbers: text and references alternate, no text
  // contains a reference, and no text that follows a reference starts with a digit.
  ghost predicate Alternating(ps: seq<Piece>, afterRef: bool)
    decreases |ps|
  {
    ps == [] ||
    (&& |ps| >= 2 && ps[0].Text? && FindRef(ps[0].text, 0) == |ps[0].text|
     && (afterRef && ps[0].text != "" ==> !IsDigit(ps[0].text[0]))
     && if ps[1].Ref? then Alternating(ps[2..], true) else ps[0].text != "" && ps == [ps[0], Text("")])
  }

  lemma {:induction false} PiecesAlternate(s: string, afterRef: bool)
    requires afterRef && s != "" ==> !IsDigit(s[0])
    ensures Alternating(Pieces(s), afterRef)
    decreases |s|
  {
    if s != "" {
      var j := FindRef(s, 0);
      if j < |s| {
        var e := DigitsEnd(s, j + 1);
        PiecesAlternate(s[e..], true);
        assert Pieces(s)[2..] == Pieces(s[e..]);
        assert forall k :: 0 <= k < j && IsRefAt(s[..j], k) ==> IsRefAt(s, k);
      }
    }
  }

  lemma {:induction false} RenumberAlternates(ps: seq<Piece>, afterRef: bool, f: (Kind, nat) -> nat)
    requires Alternating(ps, afterRef)
    ensures Alternating(Renumber(ps, f), afterRef)
    decreases |ps|
  {
    if ps != [] {
      assert Renumber(ps, f)[1..] == Renumber(ps[1..], f);
      assert ps[1..][1..] == ps[2..] && Renumber(ps, f)[2..] == Renumber(ps[2..], f);
      if ps[1].Ref? { RenumberAlternates(ps[2..], true, f); }
    }
  }

  lemma PrintTwo(ps: seq<Piece>)
    requires |ps| >= 2
    ensures Print(ps) == Render(ps[0]) + Render(ps[1]) + Print(ps[2..])
  {
    assert ps[1..][1..] == ps[2..];
  }

  // Nothing printed after a reference can be taken for more of its number.
  lemma PrintStarts(ps: seq<Piece>)
    requires Alternating(ps, true) && Print(ps) != ""
    ensures !IsDigit(Print(ps)[0])
  {
    PrintTwo(ps);
  }

  lemma LastText(a: string)
    requires a != "" && FindRef(a, 0) == |a|
    ensures Pieces(Print([Text(a), Text("")])) == [Text(a), Text("")]
  {
    PrintTwo([Text(a), Text("")]);
    assert Print([Text(a), Text("")]) == a;
  }

  lemma TextAndRef(ps: seq<Piece>, rest: string)
    requires |ps| >= 2 && ps[0].Text? && ps[1].Ref? && FindRef(ps[0].text, 0) == |ps[0].text|
    requires rest == Print(ps[2..]) && Pieces(rest) == ps[2..] && (rest != "" ==> !IsDigit(rest[0]))
    ensures Pieces(Print(ps)) == ps
  {
    PrintTwo(ps);
    ScanReference(ps[0].text, ps[1].kind, ps[1].number, rest);
    assert ps == [ps[0], ps[1]] + ps[2..];
  }

  lemma {:induction false} AlternatingReparses(ps: seq<Piece>, afterRef: bool)
    requires Alternating(ps, afterRef)
    ensures Pieces(Print(ps)) == ps
    decreases |ps|
  {
    if ps != [] {
      if ps[1].Ref? {
        AlternatingReparses(ps[2..], true);
        if Print(ps[2..]) != "" { PrintStarts(ps[2..]); }
        TextAndRef(ps, Print(ps[2..]));
      } else {
        LastText(ps[0].text);
      }
    }
  }

  lemma FindRefAt(s: string, j: nat)
    requires j < |s| && IsRefAt(s, j) && forall i :: 0 <= i < j ==> !IsRefAt(s, i)
    ensures FindRef(s, 0) == j
  {
  }

  lemma DigitsEndAt(s: string, i: nat, e: nat)
    requires i <= e <= |s| && (forall k :: i <= k < e ==> IsDigit(s[k])) && (e < |s| ==> !IsDigit(s[e]))
    ensures DigitsEnd(s, i) == e
  {
  }

  lemma ScanReference(a: string, k: Kind, n: nat, rest: string)
    requires FindRef(a, 0) == |a| && (rest != "" ==> !IsDigit(rest[0]))
    ensures Pieces(a + Render(Ref(k, n)) + rest) == [Text(a), Ref(k, n)] + Pieces(rest)
  {
    var d := ToString(n);
    var s, e := a + ([Sigil(k)] + d) + rest, |a| + 1 + |d|;
    ToIntOfToString(n);
    Slices(a, Sigil(k), d, rest);
    forall i | 0 <= i < |a| ensures !IsRefAt(s, i) { assert !IsRefAt(a, i); }
    PiecesAt(s, |a|, e);
  }

  // What a reference looks like.
  lemma ReferenceText(n: nat)
    ensures Pieces("#" + ToString(n)) == [Text(""), Ref(Hash, n)] && Pieces("!" + ToString(n)) == [Text(""), Ref(Bang, n)]
  {
    OneReference(Hash, n, "#" + ToString(n));
    OneReference(Bang, n, "!" + ToString(n));
  }

  lemma OneReference(k: Kind, n: nat, s: string)
    requires s == Render(Ref(k, n))
    ensures Pieces(s) == [Text(""), Ref(k, n)]
  {
    ScanReference("", k, n, "");
    assert "" + s + "" == s && [Text(""), Ref(k, n)] + [] == [Text(""), Ref(k, n)];
  }

  lemma PiecesAt(s: string, j: nat, e: nat)
    requires j + 1 < e <= |s| && IsRefAt(s, j) && (forall i :: 0 <= i < j ==> !IsRefAt(s, i))
    requires (forall k :: j + 1 <= k < e ==> IsDigit(s[k])) && (e < |s| ==> !IsDigit(s[e]))
    ensures Digits(s[j + 1..e]) && Pieces(s) == [Text(s[..j]), Ref(KindOf(s[j]), ToInt(s[j + 1..e]))] + Pieces(s[e..])
  {
    FindRefAt(s, j);
    DigitsEndAt(s, j + 1, e);
  }

  lemma Slices(a: string, c: char, d: string, rest: string)
    requires Digits(d)
    ensures var s, e := a + ([c] + d) + rest, |a| + 1 + |d|;
      && |s| == e + |rest|
      && s[..|a|] == a && s[|a|] == c && s[|a| + 1..e] == d && s[e..] == rest
      && (forall i :: 0 <= i < |a| ==> s[i] == a[i])
      && (forall i :: |a| + 1 <= i < e ==> IsDigit(s[i]))
      && (rest != "" ==> s[e] == rest[0])
  {
    var s := a + ([c] + d) + rest;
    forall i | |a| + 1 <= i < |a| + 1 + |d| ensures IsDigit(s[i]) { assert s[i] == d[i - |a| - 1]; }
  }

  // Reading the renumbered text back gives exactly the renumbered list.
  lemma RenumberCommutes(s: string, f: (Kind, nat) -> nat)
    ensures Pieces(Print(Renumber(Pieces(s), f))) == Renumber(Pieces(s), f)
  {
    PiecesAlternate(s, false);
    RenumberAlternates(Pieces(s), false, f);
    AlternatingReparses(Renumber(Pieces(s), f), false);
  }

  // Every number in the text is free of leading zeros.
  ghost predicate Canonical(s: string)
    decreases |s|
  {
    s == "" ||
    var j := FindRef(s, 0);
    j == |s| || var e := DigitsEnd(s, j + 1); NoLeadingZero(s[j + 1..e]) && Canonical(s[e..])
  }

  lemma SplitText(s: string, j: nat, e: nat)
    requires j < e <= |s|
    ensures s == s[..j] + [s[j]] + s[j + 1..e] + s[e..]
  {
  }

  lemma Regroup(a: string, c: char, p: string, q: string)
    ensures a + ([c] + p) + q == a + [c] + p + q
  {
  }

  lemma Cancel(h: string, p: string, q: string, d: string, rest: string)
    requires |p| <= |d| && |q| <= |rest|
    ensures h + p + q == h + d + rest <==> p == d && q == rest
  {
    var x, y := h + p + q, h + d + rest;
    if x == y {
      assert |p| == |d|;
      assert p == x[|h|..|h| + |p|] && d == y[|h|..|h| + |d|];
      assert q == x[|h| + |p|..] && rest == y[|h| + |d|..];
    }
  }

  // Printing what parse returned restores the text exactly when no number had a leading zero.
  lemma {:induction false} PrintRestores(s: string)
    ensures Print(Pieces(s)) == s <==> Canonical(s)
    ensures |Print(Pieces(s))| <= |s|
    decreases |s|
  {
    if s != "" {
      var j := FindRef(s, 0);
      if j < |s| {
        var e := DigitsEnd(s, j + 1);
        var d, rest := s[j + 1..e], s[e..];
        PrintsAs(s, Pieces(s), j, e, Pieces(rest));
        ToStringOfToInt(d);
        PrintRestores(rest);
        SplitText(s, j, e);
        Cancel(s[..j] + [s[j]], ToString(ToInt(d)), Print(Pieces(rest)), d, rest);
      } else {
        PrintTwo(Pieces(s));
      }
    }
  }

  lemma PrintsAs(s: string, ps: seq<Piece>, j: nat, e: nat, rest: seq<Piece>)
    requires j < |s| && IsRefAt(s, j) && j < e <= |s| && Digits(s[j + 1..e])
    requires ps == [Text(s[..j]), Ref(KindOf(s[j]), ToInt(s[j + 1..e]))] + rest
    ensures Print(ps) == s[..j] + [s[j]] + ToString(ToInt(s[j + 1..e])) + Print(rest)
  {
    PrintPair(s[..j], s[j], ToInt(s[j + 1..e]), rest);
  }

  lemma PrintPair(a: string, c: char, n: nat, rest: seq<Piece>)
    requires c == '#' || c == '!'
    ensures Print([Text(a), Ref(KindOf(c), n)] + rest) == a + [c] + ToString(n) + Print(rest)
  {
    var ps := [Text(a), Ref(KindOf(c), n)] + rest;
    PrintTwo(ps);
    assert ps[2..] == rest;
    Regroup(a, c, ToString(n), Print(rest));
  }
}
