/** The quote-separated command lines a test driver sends. */
module CommandLine {
  import opened Maybe
  import opened References

  const SEPARATOR := '\''

  // The first separator at or after i, or the end of the text.
  function Find(s: string, i: nat): (j: nat)
    requires i <= |s|
    ensures i <= j <= |s| && (j < |s| ==> s[j] == SEPARATOR) && SEPARATOR !in s[i..j]
    decreases |s| - i
  {
    if i == |s| || s[i] == SEPARATOR then i else Find(s, i + 1)
  }

  // The pieces between separators from position i on.
  function Split(s: string, i: nat): (ps: seq<string>)
    requires i <= |s|
    ensures ps != []
    decreases |s| - i
  {
    var j := Find(s, i);
    [s[i..j]] + if j == |s| then [] else Split(s, j + 1)
  }

  function NonEmptyPrefix(ps: seq<string>): (r: seq<string>) {
    if ps == [] || ps[0] == "" then [] else [ps[0]] + NonEmptyPrefix(ps[1..])
  }

  // The pieces up to the first empty one.
  function TokensFrom(s: string, i: nat): (r: seq<string>)
    requires i <= |s|
  {
    NonEmptyPrefix(Split(s, i))
  }

  function Tokens(s: string): (r: seq<string>) { TokensFrom(s, 0) }

  function Join(ps: seq<string>): string
    requires ps != []
  {
    if |ps| == 1 then ps[0] else ps[0] + [SEPARATOR] + Join(ps[1..])
  }

  ghost predicate Clean(ps: seq<string>) {
    forall i :: 0 <= i < |ps| ==> ps[i] != "" && SEPARATOR !in ps[i]
  }

  lemma FindAt(s: string, i: nat, j: nat)
    requires i <= j <= |s| && SEPARATOR !in s[i..j] && (j < |s| ==> s[j] == SEPARATOR)
    ensures Find(s, i) == j
    decreases j - i
  {
    if i < j {
      assert s[i] == s[i..j][0] && s[i + 1..j] == s[i..j][1..];
      FindAt(s, i + 1, j);
    }
  }

  lemma SplitHere(s: string, i: nat, j: nat)
    requires i <= j <= |s| && SEPARATOR !in s[i..j] && (j < |s| ==> s[j] == SEPARATOR)
    ensures Split(s, i) == [s[i..j]] + if j == |s| then [] else Split(s, j + 1)
  {
    FindAt(s, i, j);
  }

  // From position i on, s spells out the pieces with a separator between them.
  ghost predicate Spells(s: string, i: nat, ps: seq<string>)
    decreases |ps|
  {
    ps != [] && var j := i + |ps[0]|;
    && j <= |s| && s[i..j] == ps[0]
    && if |ps| == 1 then j == |s| else j < |s| && s[j] == SEPARATOR && Spells(s, j + 1, ps[1..])
  }

  lemma {:induction false} JoinSpells(s: string, before: string, ps: seq<string>)
    requires ps != [] && s == before + Join(ps)
    ensures Spells(s, |before|, ps)
    decreases |ps|
  {
    if |ps| > 1 { JoinSpells(s, before + ps[0] + [SEPARATOR], ps[1..]); }
  }

  lemma {:induction false} SplitSpelled(s: string, i: nat, ps: seq<string>)
    requires i <= |s| && Clean(ps) && Spells(s, i, ps)
    ensures Split(s, i) == ps
    decreases |ps|
  {
    var j := i + |ps[0]|;
    SplitHere(s, i, j);
    if |ps| > 1 {
      SplitSpelled(s, j + 1, ps[1..]);
      HeadAndRest(ps, Split(s, j + 1));
    } else {
      HeadAndRest(ps, []);
    }
  }

  lemma HeadAndRest(ps: seq<string>, rest: seq<string>)
    requires ps != [] && rest == ps[1..]
    ensures [ps[0]] + rest == ps
  {
  }

  lemma {:induction false} CleanPrefix(ps: seq<string>)
    requires Clean(ps)
    ensures NonEmptyPrefix(ps) == ps
    decreases |ps|
  {
    if ps != [] {
      CleanPrefix(ps[1..]);
      assert ps == [ps[0]] + ps[1..];
    }
  }

  // Tokenising the quote-joined form of clean tokens gives them back.
  lemma TokensJoin(ps: seq<string>)
    requires ps != [] && Clean(ps)
    ensures Tokens(Join(ps)) == ps
  {
    JoinSpells(Join(ps), "", ps);
    SplitSpelled(Join(ps), 0, ps);
    CleanPrefix(ps);
  }

  lemma QuoteSeparates(a: string, b: string)
    requires a != "" && b != "" && '\'' !in a && '\'' !in b
    ensures Tokens(a + "'" + b) == [a, b]
  {
    TokensJoin([a, b]);
    assert [a, b][1..] == [b];
  }

  // Nothing is lost by splitting.
  lemma {:induction false} JoinSplit(s: string, i: nat)
    requires i <= |s|
    ensures Join(Split(s, i)) == s[i..]
    decreases |s| - i
  {
    var j := Find(s, i);
    if j < |s| {
      var rest := Split(s, j + 1);
      assert Split(s, i) == [s[i..j]] + rest;
      JoinSplit(s, j + 1);
      JoinCons(s[i..j], rest);
      CutAt(s, i, j);
    } else {
      assert Split(s, i) == [s[i..j]];
    }
  }

  lemma JoinCons(p: string, ps: seq<string>)
    requires ps != []
    ensures Join([p] + ps) == p + [SEPARATOR] + Join(ps)
  {
    assert ([p] + ps)[1..] == ps;
  }

  lemma CutAt(s: string, i: nat, j: nat)
    requires i <= j < |s|
    ensures s[i..] == s[i..j] + [s[j]] + s[j + 1..]
  {
  }

  // The tokens behind a separator; position 0 stands for the start of the line.
  function TokensAfter(input: string, pos: Option<nat>): (r: seq<string>) {
    if pos == None || pos.value >= |input| then [] else TokensFrom(input, Start(pos.value))
  }

  function Start(pos: nat): nat { if pos != 0 then pos + 1 else 0 }

  /** The tokenizer keeps the next token and the position of the separator after it. */
  class CommandTokenizer {
    const input: string
    var next: string
    var posNextSeparator: Option<nat>   // None stands for npos

    // Between calls: next is a piece of the input, and the separator after it is known.
    ghost predicate Valid()
      reads this
    {
      posNextSeparator.Some? ==> posNextSeparator.value <= |input| && (posNextSeparator.value == 0 || posNextSeparator.value == |input| ==> next == "")
    }

    ghost function Remaining(): seq<string>
      reads this
      requires Valid()
    {
      if next == "" then []
      else [next] + TokensAfter(input, posNextSeparator)
    }

    constructor (line: string)
      ensures input == line && Valid() && Remaining() == Tokens(line)
    {
      input := line;
      next := "";
      posNextSeparator := Some(0);
      new;
      Pump();
    }

    method Pump()
      requires Valid()
      modifies this
      ensures Valid()
      ensures Remaining() == TokensAfter(input, old(posNextSeparator))
    {
      if posNextSeparator == None || posNextSeparator.value == |input| {
        next := "";
        return;
      }
      var start := Start(posNextSeparator.value);
      var found := Find(input, start);
      NextToken(input, posNextSeparator.value);
      posNextSeparator := if found == |input| then None else Some(found);
      next := input[start..found];
    }

    method HasNext() returns (r: bool)
      requires Valid()
      ensures r == (Remaining() != [])
    {
      r := next != "";
    }

    method Next() returns (token: string)
      requires Valid() && Remaining() != []
      modifies this
      ensures Valid() && token == old(Remaining())[0] && Remaining() == old(Remaining())[1..]
    {
      token := next;
      Pump();
    }
  }

  // The text up to the next separator is the next token.
  lemma FirstToken(s: string, i: nat)
    requires i <= |s|
    ensures var j := Find(s, i);
      TokensFrom(s, i) == if j == i then [] else [s[i..j]] + if j == |s| then [] else TokensFrom(s, j + 1)
  {
    var j := Find(s, i);
    HeadToken(s[i..j], if j == |s| then [] else Split(s, j + 1));
  }

  lemma NextToken(s: string, pos: nat)
    requires pos < |s|
    ensures var i := Start(pos); var j := Find(s, i);
      TokensAfter(s, Some(pos)) == if s[i..j] == "" then [] else [s[i..j]] + TokensAfter(s, if j == |s| then None else Some(j))
  {
    FirstToken(s, Start(pos));
  }

  lemma HeadToken(p: string, ps: seq<string>)
    ensures NonEmptyPrefix([p] + ps) == if p == "" then [] else [p] + NonEmptyPrefix(ps)
  {
    assert ([p] + ps)[1..] == ps;
  }

  // ----- commands -----

  datatype TestCommand = TestCommand(pathOrURL: string, shouldDumpPixels: bool, expectedPixelHash: string, timeout: int)

  const DEFAULT_TIMEOUT := 30000

  // Died is the call of die(); AssertionFailed is next() without a token.
  datatype Outcome = Parsed(command: TestCommand) | Died | AssertionFailed

  predicate IsSpace(c: char) { c in {' ', '\t', '\n', 0x0B as char, 0x0C as char, '\r'} }

  function SkipSpaces(s: string): string {
    if s != "" && IsSpace(s[0]) then SkipSpaces(s[1..]) else s
  }

  // atoi: blanks, an optional sign, then digits up to the first other character.
  function Atoi(s: string): int {
    var t := SkipSpaces(s);
    var signed := t != "" && (t[0] == '-' || t[0] == '+');
    var d := if signed then t[1..] else t;
    var n: int := ToInt(d[..DigitsEnd(d, 0)]);
    if signed && t[0] == '-' then -n else n
  }

  function ParseOptions(c: TestCommand, tokens: seq<string>): Outcome
    decreases |tokens|
  {
    if tokens == [] then Parsed(c)
    else if tokens[0] == "--timeout" then
      if |tokens| == 1 then AssertionFailed
      else ParseOptions(c.(timeout := Atoi(tokens[1])), tokens[2..])
    else if tokens[0] == "-p" || tokens[0] == "--pixel-test" then
      if |tokens| == 1 then Parsed(c.(shouldDumpPixels := true))
      else ParseOptions(c.(shouldDumpPixels := true, expectedPixelHash := tokens[1]), tokens[2..])
    else Died
  }

  function ParseTokens(tokens: seq<string>): Outcome {
    if tokens == [] then Died
    else ParseOptions(TestCommand(tokens[0], false, "", DEFAULT_TIMEOUT), tokens[1..])
  }

  // ----- when a token list parses, dies or asserts -----

  predicate IsPixel(s: string) { s == "-p" || s == "--pixel-test" }

  // An option with its value.
  datatype Setting = Timeout(value: string) | Pixels(option: string, hash: string)

  ghost predicate Proper(settings: seq<Setting>) {
    forall i :: 0 <= i < |settings| && settings[i].Pixels? ==> IsPixel(settings[i].option)
  }

  function Written(s: Setting): (r: seq<string>)
    ensures |r| == 2
  {
    if s.Timeout? then ["--timeout", s.value] else [s.option, s.hash]
  }

  function AllWritten(settings: seq<Setting>): seq<string> {
    if settings == [] then [] else Written(settings[0]) + AllWritten(settings[1..])
  }

  // Later settings of the same kind win.
  function Applied(c: TestCommand, settings: seq<Setting>): TestCommand
    decreases |settings|
  {
    if settings == [] then c
    else
      match settings[0]
      case Timeout(value) => Applied(c.(timeout := Atoi(value)), settings[1..])
      case Pixels(_, hash) => Applied(c.(shouldDumpPixels := true, expectedPixelHash := hash), settings[1..])
  }

  // The tokens that no complete setting covers decide the outcome.
  function Ending(c: TestCommand, rest: seq<string>): Outcome {
    if rest == [] then Parsed(c)
    else if rest == ["--timeout"] then AssertionFailed
    else if |rest| == 1 && IsPixel(rest[0]) then Parsed(c.(shouldDumpPixels := true))
    else Died
  }

  // No complete setting can be read off the front.
  ghost predicate Incomplete(rest: seq<string>) {
    |rest| <= 1 || (rest[0] != "--timeout" && !IsPixel(rest[0]))
  }

  lemma {:induction false} OptionsMean(c: TestCommand, settings: seq<Setting>, rest: seq<string>)
    requires Proper(settings) && Incomplete(rest)
    ensures ParseOptions(c, AllWritten(settings) + rest) == Ending(Applied(c, settings), rest)
    decreases |settings|
  {
    var tokens := AllWritten(settings) + rest;
    if settings == [] {
      assert tokens == rest;
    } else {
      var more := settings[1..];
      assert Proper(more) by { forall i | 0 <= i < |more| ensures more[i].Pixels? ==> IsPixel(more[i].option) { assert more[i] == settings[i + 1]; } }
      assert tokens == Written(settings[0]) + (AllWritten(more) + rest) && tokens[2..] == AllWritten(more) + rest;
      match settings[0]
      case Timeout(value) => OptionsMean(c.(timeout := Atoi(value)), more, rest);
      case Pixels(_, hash) => OptionsMean(c.(shouldDumpPixels := true, expectedPixelHash := hash), more, rest);
    }
  }

  lemma {:induction false} Decomposes(tokens: seq<string>) returns (settings: seq<Setting>, rest: seq<string>)
    ensures Proper(settings) && Incomplete(rest) && tokens == AllWritten(settings) + rest
    decreases |tokens|
  {
    if Incomplete(tokens) { return [], tokens; }
    var more;
    more, rest := Decomposes(tokens[2..]);
    var first := if tokens[0] == "--timeout" then Timeout(tokens[1]) else Pixels(tokens[0], tokens[1]);
    settings := [first] + more;
    assert settings[1..] == more && tokens == Written(first) + tokens[2..];
  }

  // Every token list is a path, complete settings and a rest, and these decide what becomes of it; the
  // empty list dies.
  lemma TokensMean(tokens: seq<string>) returns (settings: seq<Setting>, rest: seq<string>)
    ensures ParseTokens([]) == Died
    ensures tokens != [] ==> Proper(settings) && Incomplete(rest) && tokens == [tokens[0]] + AllWritten(settings) + rest
    ensures tokens != [] ==> ParseTokens(tokens) == Ending(Applied(TestCommand(tokens[0], false, "", 30000), settings), rest)
  {
    settings, rest := [], [];
    if tokens != [] {
      settings, rest := Decomposes(tokens[1..]);
      OptionsMean(TestCommand(tokens[0], false, "", 30000), settings, rest);
    }
  }

  method ParseInputLine(line: string) returns (r: Outcome)
    ensures r == ParseTokens(Tokens(line))
  {
    var tokenizer := new CommandTokenizer(line);
    var more := tokenizer.HasNext();
    if !more { return Died; }
    var arg := tokenizer.Next();
    var result := TestCommand(arg, false, "", DEFAULT_TIMEOUT);
    more := tokenizer.HasNext();
    while more
      invariant tokenizer.Valid() && more == (tokenizer.Remaining() != [])
      invariant ParseTokens(Tokens(line)) == ParseOptions(result, tokenizer.Remaining())
      decreases |tokenizer.Remaining()|
    {
      ghost var tokens := tokenizer.Remaining();
      arg := tokenizer.Next();
      if arg == "--timeout" {
        more := tokenizer.HasNext();
        if !more { return AssertionFailed; }
        var timeoutToken := tokenizer.Next();
        result := result.(timeout := Atoi(timeoutToken));
        assert tokenizer.Remaining() == tokens[2..];
      } else if arg == "-p" || arg == "--pixel-test" {
        result := result.(shouldDumpPixels := true);
        more := tokenizer.HasNext();
        if more {
          var hash := tokenizer.Next();
          result := result.(expectedPixelHash := hash);
          assert tokenizer.Remaining() == tokens[2..];
        }
      } else {
        return Died;
      }
      more := tokenizer.HasNext();
    }
    r := Parsed(result);
  }

  // ----- printing commands -----

  function IntToString(n: int): string { if n < 0 then "-" + ToString(-n) else ToString(n) }

  // The choices a sender has: spelling of the pixel option, and leaving out the default timeout.
  datatype Style = Style(longOption: bool, omitDefault: bool)

  function PixelOption(style: Style): string { if style.longOption then "--pixel-test" else "-p" }

  function PixelTokens(c: TestCommand, style: Style): seq<string> {
    if !c.shouldDumpPixels then []
    else [PixelOption(style)] + if c.expectedPixelHash == "" then [] else [c.expectedPixelHash]
  }

  function TimeoutTokens(c: TestCommand, style: Style): seq<string> {
    if style.omitDefault && c.timeout == DEFAULT_TIMEOUT then [] else ["--timeout", IntToString(c.timeout)]
  }

  function PrintTokens(c: TestCommand, style: Style): (r: seq<string>)
    ensures r != []
  {
    [c.pathOrURL] + TimeoutTokens(c, style) + PixelTokens(c, style)
  }

  // The same tokens with the pixel option first.
  function PixelsFirst(c: TestCommand, style: Style): (r: seq<string>)
    ensures r != []
  {
    [c.pathOrURL] + PixelTokens(c, style) + TimeoutTokens(c, style)
  }

  ghost predicate Printable(c: TestCommand) {
    && c.pathOrURL != "" && SEPARATOR !in c.pathOrURL && SEPARATOR !in c.expectedPixelHash
    && (!c.shouldDumpPixels ==> c.expectedPixelHash == "")
  }

  lemma AtoiInverts(n: int)
    ensures Atoi(IntToString(n)) == n && IntToString(n) != "" && SEPARATOR !in IntToString(n)
  {
    var m := if n < 0 then -n else n;
    var d := ToString(m);
    DigitsRead(m);
    assert ("-" + d)[1..] == d && ("-" + d)[0] == '-';
  }

  lemma DigitsRead(m: nat)
    ensures var d := ToString(m); d != "" && d[0] != '-' && SEPARATOR !in d && DigitsEnd(d, 0) == |d| && ToInt(d[..|d|]) == m
    ensures var d := ToString(m); Atoi(d) == m
  {
    var d := ToString(m);
    ToIntOfToString(m);
    assert IsDigit(d[0]);
    DigitsEndAt(d, 0, |d|);
    assert d[..|d|] == d;
  }

  // Parsing undoes printing, in every style.
  lemma ParseInvertsPrint(c: TestCommand, style: Style)
    requires Printable(c)
    ensures ParseTokens(Tokens(Join(PrintTokens(c, style)))) == Parsed(c)
  {
    AtoiInverts(c.timeout);
    OptionsClean(c, style);
    ParseJoined(PrintTokens(c, style));
    ParsePixels(c, style);
  }

  lemma OptionsClean(c: TestCommand, style: Style)
    requires Printable(c)
    ensures Clean(PrintTokens(c, style)) && Clean(PixelsFirst(c, style))
  {
    var path, pixels, timeout := [c.pathOrURL], PixelTokens(c, style), TimeoutTokens(c, style);
    AtoiInverts(c.timeout);
    assert Clean(path) && Clean(pixels) && Clean(timeout);
    CleanBoth(path, timeout);
    CleanBoth(path, pixels);
    CleanBoth(path + timeout, pixels);
    CleanBoth(path + pixels, timeout);
  }

  lemma CleanBoth(a: seq<string>, b: seq<string>)
    requires Clean(a) && Clean(b)
    ensures Clean(a + b)
  {
  }

  lemma ParseJoined(tokens: seq<string>)
    requires tokens != [] && Clean(tokens)
    ensures ParseTokens(Tokens(Join(tokens))) == ParseTokens(tokens)
  {
    TokensJoin(tokens);
  }

  lemma ParsePixels(c: TestCommand, style: Style)
    requires Printable(c) && Atoi(IntToString(c.timeout)) == c.timeout
    ensures ParseTokens(PrintTokens(c, style)) == Parsed(c)
  {
    var tokens := PrintTokens(c, style);
    var first := TestCommand(c.pathOrURL, false, "", DEFAULT_TIMEOUT);
    var pixels := PixelTokens(c, style);
    var timed := first.(timeout := c.timeout);
    assert ParseOptions(timed, pixels) == Parsed(c) by {
      if |pixels| == 2 { assert pixels[2..] == []; }
    }
    if style.omitDefault && c.timeout == DEFAULT_TIMEOUT {
      assert tokens[1..] == pixels;
    } else {
      assert tokens[1..][2..] == pixels;
    }
  }

  lemma NumberIsNoOption(n: int)
    ensures forall c :: ParseOptions(c, [IntToString(n)]) == Died
  {
    var m := if n < 0 then -n else n;
    assert IsDigit(ToString(m)[0]) && ToString(m)[0] in ToString(m);
    if n < 0 { assert IntToString(n)[1] == ToString(m)[0]; } else { assert IntToString(n)[0] == ToString(m)[0]; }
  }

  lemma PixelStep(c: TestCommand, style: Style, tokens: seq<string>)
    requires |tokens| >= 2 && tokens[0] == PixelOption(style)
    ensures ParseOptions(c, tokens) == ParseOptions(c.(shouldDumpPixels := true, expectedPixelHash := tokens[1]), tokens[2..])
  {
    assert |PixelOption(style)| != |"--timeout"|;
  }

  // A pixel option without a hash takes a timeout option after it for the hash.
  lemma PixelSwallows(c: TestCommand, style: Style)
    requires c.shouldDumpPixels && c.expectedPixelHash == "" && TimeoutTokens(c, style) != []
    ensures ParseTokens(PixelsFirst(c, style)) == Died
  {
    var tokens := PixelsFirst(c, style)[1..];
    NumberIsNoOption(c.timeout);
    assert tokens == [PixelOption(style), "--timeout", IntToString(c.timeout)] && tokens[2..] == [IntToString(c.timeout)];
    PixelStep(TestCommand(c.pathOrURL, false, "", DEFAULT_TIMEOUT), style, tokens);
  }

  lemma HashThenTimeout(c: TestCommand, style: Style)
    requires c.shouldDumpPixels && c.expectedPixelHash != "" && TimeoutTokens(c, style) != []
    ensures ParseTokens(PixelsFirst(c, style)) == Parsed(c)
  {
    var tokens, rest := PixelsFirst(c, style)[1..], ["--timeout", IntToString(c.timeout)];
    AtoiInverts(c.timeout);
    assert tokens == [PixelOption(style), c.expectedPixelHash, "--timeout", IntToString(c.timeout)];
    assert tokens[2..] == rest && rest[2..] == [];
    PixelStep(TestCommand(c.pathOrURL, false, "", DEFAULT_TIMEOUT), style, tokens);
  }

  lemma PixelTokensFirst(c: TestCommand, style: Style)
    requires Printable(c) && Atoi(IntToString(c.timeout)) == c.timeout
    ensures ParseTokens(PixelsFirst(c, style)) == Parsed(c) <==>
      !c.shouldDumpPixels || c.expectedPixelHash != "" || TimeoutTokens(c, style) == []
  {
    if !c.shouldDumpPixels || TimeoutTokens(c, style) == [] {
      assert PixelsFirst(c, style) == PrintTokens(c, style);
      ParsePixels(c, style);
    } else if c.expectedPixelHash != "" {
      HashThenTimeout(c, style);
    } else {
      PixelSwallows(c, style);
    }
  }

  // With the pixel option first, a command parses back exactly when no timeout can be taken for a hash.
  lemma PixelsFirstIff(c: TestCommand, style: Style)
    requires Printable(c)
    ensures ParseTokens(Tokens(Join(PixelsFirst(c, style)))) == Parsed(c) <==>
      !c.shouldDumpPixels || c.expectedPixelHash != "" || TimeoutTokens(c, style) == []
  {
    AtoiInverts(c.timeout);
    OptionsClean(c, style);
    ParseJoined(PixelsFirst(c, style));
    PixelTokensFirst(c, style);
  }
}
