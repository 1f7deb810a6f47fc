/** Quoting of command-line arguments, and the rules by which the C runtime of the started process takes
    the text apart again. Text is a sequence of UTF-16 code units. */
module CommandLine {
  type Unit = x: int | 0 <= x < 0x1_0000

  type Text = seq<Unit>

  const NUL: Unit := 0
  const TAB: Unit := 9
  const SPACE: Unit := 32
  const QUOTE: Unit := 34
  const BACKSLASH: Unit := 92

  /** The white space of Unicode. */
  predicate IsWhiteSpace(c: Unit) {
    || 9 <= c <= 13 || c == 32 || c == 0x85 || c == 0xA0 || c == 0x1680 || 0x2000 <= c <= 0x200A
    || c == 0x2028 || c == 0x2029 || c == 0x202F || c == 0x205F || c == 0x3000
  }

  function Slashes(n: nat): (r: Text)
    ensures |r| == n && forall k :: 0 <= k < n ==> r[k] == BACKSLASH
  {
    seq(n, i => BACKSLASH)
  }

  // ---- quoting ----

  predicate NeedsQuotes(value: Text) {
    exists k :: 0 <= k < |value| && (IsWhiteSpace(value[k]) || value[k] == QUOTE)
  }

  /** Backslashes wait until it is known whether a quote follows them. */
  function Body(value: Text, slashes: nat): Text {
    if value == [] then Slashes(2 * slashes)
    else if value[0] == BACKSLASH then Body(value[1..], slashes + 1)
    else if value[0] == QUOTE then Slashes(2 * slashes + 1) + [QUOTE] + Body(value[1..], 0)
    else Slashes(slashes) + [value[0]] + Body(value[1..], 0)
  }

  function Quote(value: Text): Text {
    if value == [] then [QUOTE, QUOTE]
    else if !NeedsQuotes(value) then value
    else [QUOTE] + Body(value, 0) + [QUOTE]
  }

  /** The arguments, each after a space. */
  function Tail(arguments: seq<Text>): Text {
    if arguments == [] then [] else [SPACE] + Quote(arguments[0]) + Tail(arguments[1..])
  }

  lemma TailNext(arguments: seq<Text>, i: nat)
    requires i < |arguments|
    ensures Tail(arguments[i..]) == [SPACE] + Quote(arguments[i]) + Tail(arguments[i + 1..])
  {
    assert arguments[i..][1..] == arguments[i + 1..];
  }

  lemma TailNone()
    ensures Tail([]) == []
  {
  }

  // ---- the runtime's parser ----

  predicate IsBlank(c: Unit) {
    c == SPACE || c == TAB
  }

  /** One argument and what follows it. An even run of backslashes before a quote halves and the quote
      delimits; an odd run halves and the quote is literal; other backslashes are literal. In the newer
      runtimes two quotes inside quotes are one literal quote. */
  function ParseArgument(t: Text, quoted: bool, slashes: nat, pairs: bool): (r: (Text, Text))
    ensures |r.1| <= |t|
    ensures t != [] && (quoted || !IsBlank(t[0])) ==> |r.1| < |t|
    decreases |t|
  {
    if t == [] then (Slashes(slashes), [])
    else if t[0] == BACKSLASH then ParseArgument(t[1..], quoted, slashes + 1, pairs)
    else if t[0] == QUOTE then
      if slashes % 2 == 1 then
        var r := ParseArgument(t[1..], quoted, 0, pairs); (Slashes(slashes / 2) + [QUOTE] + r.0, r.1)
      else if quoted && pairs && |t| > 1 && t[1] == QUOTE then
        var r := ParseArgument(t[2..], quoted, 0, pairs); (Slashes(slashes / 2) + [QUOTE] + r.0, r.1)
      else
        var r := ParseArgument(t[1..], !quoted, 0, pairs); (Slashes(slashes / 2) + r.0, r.1)
    else if !quoted && IsBlank(t[0]) then (Slashes(slashes), t)
    else
      var r := ParseArgument(t[1..], quoted, 0, pairs); (Slashes(slashes) + [t[0]] + r.0, r.1)
  }

  function Parse(t: Text, pairs: bool): seq<Text>
    decreases |t|
  {
    if t == [] then []
    else if IsBlank(t[0]) then Parse(t[1..], pairs)
    else var r := ParseArgument(t, false, 0, pairs); [r.0] + Parse(r.1, pairs)
  }

  /** The part of the text before its first zero, where the process stops reading. */
  function Visible(t: Text): (r: Text)
    ensures r <= t && NUL !in r && (NUL !in t ==> r == t)
  {
    if t == [] || t[0] == NUL then [] else [t[0]] + Visible(t[1..])
  }

  // ---- what was quoted is parsed ----

  /** Nothing follows, or a delimiter does. */
  predicate Delimited(tail: Text) {
    tail == [] || IsBlank(tail[0])
  }

  lemma {:induction false} ReadSlashes(n: nat, t: Text, quoted: bool, slashes: nat, pairs: bool)
    ensures ParseArgument(Slashes(n) + t, quoted, slashes, pairs) == ParseArgument(t, quoted, slashes + n, pairs)
  {
    if n == 0 {
      assert Slashes(0) + t == t;
    } else {
      assert (Slashes(n) + t)[1..] == Slashes(n - 1) + t;
      ReadSlashes(n - 1, t, quoted, slashes + 1, pairs);
    }
  }

  lemma LiteralInQuotes(c: Unit, after: Text, slashes: nat, pairs: bool)
    requires c != BACKSLASH && c != QUOTE
    ensures var r := ParseArgument(after, true, 0, pairs);
      ParseArgument([c] + after, true, slashes, pairs) == (Slashes(slashes) + [c] + r.0, r.1)
  {
    assert ([c] + after)[1..] == after;
  }

  lemma EscapedQuote(after: Text, slashes: nat, pairs: bool)
    ensures var r := ParseArgument(after, true, 0, pairs);
      ParseArgument([QUOTE] + after, true, 2 * slashes + 1, pairs) == (Slashes(slashes) + [QUOTE] + r.0, r.1)
  {
    assert ([QUOTE] + after)[1..] == after;
  }

  lemma ClosingQuote(tail: Text, slashes: nat, pairs: bool)
    requires Delimited(tail)
    ensures ParseArgument([QUOTE] + tail, true, 2 * slashes, pairs) == (Slashes(slashes), tail)
  {
    assert ([QUOTE] + tail)[1..] == tail;
    assert Slashes(slashes) + Slashes(0) == Slashes(slashes);
  }

  lemma {:induction false} BodyParses(value: Text, slashes: nat, tail: Text, pairs: bool)
    requires Delimited(tail)
    ensures ParseArgument(Body(value, slashes) + [QUOTE] + tail, true, 0, pairs) == (Slashes(slashes) + value, tail)
    decreases |value|
  {
    hide ParseArgument;
    if value == [] {
      ReadSlashes(2 * slashes, [QUOTE] + tail, true, 0, pairs);
      assert Slashes(2 * slashes) + [QUOTE] + tail == Slashes(2 * slashes) + ([QUOTE] + tail);
      ClosingQuote(tail, slashes, pairs);
      assert Slashes(slashes) + value == Slashes(slashes);
    } else {
      var c, rest := value[0], value[1..];
      assert value == [c] + rest;
      if c == BACKSLASH {
        BodyParses(rest, slashes + 1, tail, pairs);
        assert Slashes(slashes + 1) + rest == Slashes(slashes) + value;
      } else {
        var n := if c == QUOTE then 2 * slashes + 1 else slashes;
        var after := Body(rest, 0) + [QUOTE] + tail;
        BodyParses(rest, 0, tail, pairs);
        BodySplit(c, rest, slashes, tail);
        ReadSlashes(n, [c] + after, true, 0, pairs);
        if c == QUOTE { EscapedQuote(after, slashes, pairs); } else { LiteralInQuotes(c, after, slashes, pairs); }
        assert Slashes(slashes) + [c] + (Slashes(0) + rest) == Slashes(slashes) + value;
      }
    }
  }

  lemma BodySplit(c: Unit, rest: Text, slashes: nat, tail: Text)
    requires c != BACKSLASH
    ensures Body([c] + rest, slashes) + [QUOTE] + tail
         == Slashes(if c == QUOTE then 2 * slashes + 1 else slashes) + ([c] + (Body(rest, 0) + [QUOTE] + tail))
  {
    assert ([c] + rest)[1..] == rest;
  }

  lemma {:induction false} PlainParses(value: Text, slashes: nat, tail: Text, pairs: bool)
    requires Delimited(tail) && !NeedsQuotes(value)
    ensures ParseArgument(value + tail, false, slashes, pairs) == (Slashes(slashes) + value, tail)
    decreases |value|
  {
    if value == [] {
      assert value + tail == tail && Slashes(slashes) + value == Slashes(slashes);
    } else {
      var c, rest := value[0], value[1..];
      assert !IsWhiteSpace(value[0]) && value[0] != QUOTE;
      assert !NeedsQuotes(rest) by {
        forall k | 0 <= k < |rest| ensures !IsWhiteSpace(rest[k]) && rest[k] != QUOTE {
          assert rest[k] == value[k + 1];
        }
      }
      assert (value + tail)[1..] == rest + tail;
      if c == BACKSLASH {
        PlainParses(rest, slashes + 1, tail, pairs);
        assert Slashes(slashes + 1) + rest == Slashes(slashes) + value;
      } else {
        PlainParses(rest, 0, tail, pairs);
        assert Slashes(slashes) + [c] + (Slashes(0) + rest) == Slashes(slashes) + value;
      }
    }
  }

  /** A quoted argument, before a delimiter, is parsed back. */
  lemma QuoteParses(value: Text, tail: Text, pairs: bool)
    requires Delimited(tail)
    ensures ParseArgument(Quote(value) + tail, false, 0, pairs) == (value, tail)
    ensures Quote(value) != [] && !IsBlank(Quote(value)[0])
  {
    hide ParseArgument, Body;
    if value == [] {
      EmptyParses(tail, pairs);
    } else if NeedsQuotes(value) {
      BodyParses(value, 0, tail, pairs);
      OpenQuote(Body(value, 0) + [QUOTE] + tail, pairs);
      assert Quote(value) + tail == [QUOTE] + (Body(value, 0) + [QUOTE] + tail);
      assert Slashes(0) + value == value;
    } else {
      PlainParses(value, 0, tail, pairs);
      assert Slashes(0) + value == value;
      assert !IsWhiteSpace(value[0]);
    }
  }

  lemma OpenQuote(t: Text, pairs: bool)
    ensures ParseArgument([QUOTE] + t, false, 0, pairs) == ParseArgument(t, true, 0, pairs)
  {
    assert ([QUOTE] + t)[1..] == t;
    assert Slashes(0) + ParseArgument(t, true, 0, pairs).0 == ParseArgument(t, true, 0, pairs).0;
  }

  lemma EmptyParses(tail: Text, pairs: bool)
    requires Delimited(tail)
    ensures ParseArgument([QUOTE, QUOTE] + tail, false, 0, pairs) == ([], tail)
  {
    OpenQuote([QUOTE] + tail, pairs);
    assert [QUOTE, QUOTE] + tail == [QUOTE] + ([QUOTE] + tail);
    assert ([QUOTE] + tail)[1..] == tail;
  }

  lemma ParseBlank(t: Text, pairs: bool)
    ensures Parse([SPACE] + t, pairs) == Parse(t, pairs)
  {
    assert ([SPACE] + t)[1..] == t;
  }

  /** The text after the program name is parsed into exactly the arguments. */
  lemma {:induction false} TailParses(arguments: seq<Text>, pairs: bool)
    ensures Parse(Tail(arguments), pairs) == arguments
    decreases |arguments|
  {
    hide ParseArgument, Quote;
    if arguments != [] {
      var rest := Tail(arguments[1..]);
      TailParses(arguments[1..], pairs);
      QuoteParses(arguments[0], rest, pairs);
      var t := Quote(arguments[0]) + rest;
      assert Tail(arguments) == [SPACE] + t;
      ParseBlank(t, pairs);
      assert t[0] == Quote(arguments[0])[0];
      assert Parse(t, pairs) == [arguments[0]] + arguments[1..];
    }
  }

  lemma {:induction false} BodyKeepsNul(value: Text, slashes: nat)
    ensures NUL in Body(value, slashes) <==> NUL in value
    decreases |value|
  {
    if value != [] {
      assert value == [value[0]] + value[1..];
      if value[0] == BACKSLASH { BodyKeepsNul(value[1..], slashes + 1); } else { BodyKeepsNul(value[1..], 0); }
    }
  }

  lemma {:induction false} TailKeepsNul(arguments: seq<Text>)
    ensures NUL in Tail(arguments) <==> exists k :: 0 <= k < |arguments| && NUL in arguments[k]
    decreases |arguments|
  {
    if arguments != [] {
      TailKeepsNul(arguments[1..]);
      BodyKeepsNul(arguments[0], 0);
      assert arguments == [arguments[0]] + arguments[1..];
    }
  }

  lemma {:induction false} ParsedArgumentHasNoNul(t: Text, quoted: bool, slashes: nat, pairs: bool)
    requires NUL !in t
    ensures NUL !in ParseArgument(t, quoted, slashes, pairs).0 && NUL !in ParseArgument(t, quoted, slashes, pairs).1
    decreases |t|
  {
    if t != [] {
      assert t == [t[0]] + t[1..];
      if t[0] == BACKSLASH {
        ParsedArgumentHasNoNul(t[1..], quoted, slashes + 1, pairs);
      } else {
        ParsedArgumentHasNoNul(t[1..], quoted, 0, pairs);
        ParsedArgumentHasNoNul(t[1..], !quoted, 0, pairs);
        if |t| > 1 { ParsedArgumentHasNoNul(t[2..], quoted, 0, pairs); }
      }
    }
  }

  lemma {:induction false} ParsedHasNoNul(t: Text, pairs: bool)
    requires NUL !in t
    ensures forall k :: 0 <= k < |Parse(t, pairs)| ==> NUL !in Parse(t, pairs)[k]
    decreases |t|
  {
    hide ParseArgument;
    if t != [] {
      assert t == [t[0]] + t[1..];
      if IsBlank(t[0]) {
        ParsedHasNoNul(t[1..], pairs);
      } else {
        ParsedArgumentHasNoNul(t, false, 0, pairs);
        ParsedHasNoNul(ParseArgument(t, false, 0, pairs).1, pairs);
      }
    }
  }

  /** An argument that is a zero does not arrive. */
  lemma ZeroIsCut(pairs: bool)
    ensures Parse(Visible(Tail([[NUL]])), pairs) != [[NUL]]
  {
    hide Parse, Visible, Tail;
    var arguments := [[NUL]];
    assert NUL in arguments[0];
    ArgumentsArriveIff(arguments, pairs);
  }

  /** The started process sees exactly the arguments, by either runtime's rules, exactly when none of them
      has a zero: it stops reading at the first zero of the command line. */
  lemma ArgumentsArriveIff(arguments: seq<Text>, pairs: bool)
    ensures Parse(Visible(Tail(arguments)), pairs) == arguments
       <==> forall k :: 0 <= k < |arguments| ==> NUL !in arguments[k]
  {
    TailParses(arguments, pairs);
    TailKeepsNul(arguments);
    ParsedHasNoNul(Visible(Tail(arguments)), pairs);
  }

  // ---- the program name ----

  /** The program name ends at the first blank outside quotes, which toggle; its backslashes are literal. */
  function ProgramName(t: Text, quoted: bool): (Text, Text) {
    if t == [] then ([], [])
    else if t[0] == QUOTE then ProgramName(t[1..], !quoted)
    else if !quoted && IsBlank(t[0]) then ([], t)
    else var r := ProgramName(t[1..], quoted); ([t[0]] + r.0, r.1)
  }

  /** How many backslashes a text ends with. */
  function Trailing(value: Text): (n: nat)
    ensures n <= |value| && (n > 0 <==> value != [] && value[|value| - 1] == BACKSLASH)
  {
    if value == [] || value[|value| - 1] != BACKSLASH then 0 else Trailing(value[..|value| - 1]) + 1
  }

  lemma {:induction false} NamePasses(value: Text, tail: Text, quoted: bool)
    requires forall k :: 0 <= k < |value| ==> value[k] != QUOTE && (quoted || !IsBlank(value[k]))
    ensures ProgramName(value + tail, quoted) == (value + ProgramName(tail, quoted).0, ProgramName(tail, quoted).1)
    decreases |value|
  {
    if value == [] {
      assert value + tail == tail;
      assert value + ProgramName(tail, quoted).0 == ProgramName(tail, quoted).0;
    } else {
      assert (value + tail)[1..] == value[1..] + tail;
      NamePasses(value[1..], tail, quoted);
      var name := ProgramName(tail, quoted).0;
      assert [value[0]] + (value[1..] + name) == value + name;
    }
  }

  /** The backslashes a quoted path gains at its end, when some were waiting. */
  function Gained(value: Text, slashes: nat): nat {
    if Trailing(value) == |value| then |value| + slashes else Trailing(value)
  }

  lemma GainedStep(value: Text, slashes: nat)
    requires value != []
    ensures Gained(value, slashes) == Gained(value[1..], if value[0] == BACKSLASH then slashes + 1 else 0)
  {
    hide Trailing;
    TrailingOfRest(value);
  }

  /** Without quotes in the path, quoting only doubles the backslashes at its end. */
  lemma {:induction false} BodyOfPath(value: Text, slashes: nat)
    requires QUOTE !in value
    ensures Body(value, slashes) == Slashes(slashes) + value + Slashes(Gained(value, slashes))
    decreases |value|
  {
    if value == [] {
    } else {
      hide Gained, Trailing;
      var c, rest := value[0], value[1..];
      assert value == [c] + rest;
      GainedStep(value, slashes);
      var more := Slashes(Gained(value, slashes));
      if c == BACKSLASH {
        BodyOfPath(rest, slashes + 1);
        assert Slashes(slashes + 1) + rest == Slashes(slashes) + value;
      } else {
        BodyOfPath(rest, 0);
        assert Slashes(slashes) + [c] + (Slashes(0) + rest + more) == Slashes(slashes) + value + more;
      }
    }
  }

  lemma {:induction false} TrailingOfRest(value: Text)
    requires value != []
    ensures Trailing(value) == if Trailing(value[1..]) == |value| - 1 && value[0] == BACKSLASH then |value|
                               else Trailing(value[1..])
    decreases |value|
  {
    if |value| > 1 && value[|value| - 1] == BACKSLASH {
      var shorter := value[..|value| - 1];
      TrailingOfRest(shorter);
      assert shorter[1..] == value[1..][..|value| - 2];
    }
  }

  /** A path of a blank and a backslash is read back with two backslashes. */
  lemma ProgramNameGains()
    ensures ProgramName(Quote([SPACE, BACKSLASH]) + [], false) != ([SPACE, BACKSLASH], [])
  {
    hide ProgramName, Quote;
    var path := [SPACE, BACKSLASH];
    assert IsWhiteSpace(path[0]) && path[|path| - 1] == BACKSLASH;
    ProgramNameArrivesIff(path, []);
  }

  /** A path without quotes is read back as the program name exactly when it needs no quotes or does not
      end in a backslash: a quoted path that does gains as many backslashes as it ends with. */
  lemma ProgramNameArrivesIff(path: Text, tail: Text)
    requires QUOTE !in path && Delimited(tail)
    ensures ProgramName(Quote(path) + tail, false) == (path, tail) <==> !NeedsQuotes(path) || Trailing(path) == 0
  {
    hide Body, ProgramName;
    NameEnds(tail);
    if path == [] {
      NamePasses([], tail, false);
      EmptyName(tail);
    } else if NeedsQuotes(path) {
      QuotedName(path, tail);
      assert |path + Slashes(Trailing(path))| == |path| + Trailing(path);
      assert path + Slashes(0) == path;
    } else {
      NamePasses(path, tail, false);
      assert path + [] == path;
    }
  }

  lemma NameEnds(tail: Text)
    requires Delimited(tail)
    ensures ProgramName(tail, false) == ([], tail) && ProgramName([QUOTE] + tail, true) == ([], tail)
  {
    assert ([QUOTE] + tail)[1..] == tail;
  }

  lemma EmptyName(tail: Text)
    requires Delimited(tail)
    ensures ProgramName([QUOTE, QUOTE] + tail, false) == ([], tail)
  {
    NameEnds(tail);
    assert ([QUOTE, QUOTE] + tail)[1..] == [QUOTE] + tail;
  }

  lemma QuotedName(path: Text, tail: Text)
    requires QUOTE !in path && Delimited(tail) && NeedsQuotes(path)
    ensures ProgramName(Quote(path) + tail, false) == (path + Slashes(Trailing(path)), tail)
  {
    hide Body;
    BodyOfPath(path, 0);
    var body := Body(path, 0);
    assert body == path + Slashes(Trailing(path)) by {
      assert Slashes(0) + path == path && Gained(path, 0) == Trailing(path);
    }
    assert (Quote(path) + tail)[1..] == body + ([QUOTE] + tail);
    NamePasses(body, [QUOTE] + tail, true);
    NameEnds(tail);
    assert body + [] == body;
  }
}

/** The launcher's copy of the quoter. */
module EmulatorProcess {
  import opened CommandLine

  method QuoteArgument(value: Text) returns (quoted: Text)
    ensures quoted == Quote(value)
  {
    if |value| == 0 { return [QUOTE, QUOTE]; }
    if !NeedsQuotes(value) { return value; }
    var builder := [QUOTE];
    var slashCount := 0;
    for i := 0 to |value|
      invariant builder + Body(value[i..], slashCount) == [QUOTE] + Body(value, 0)
    {
      var character := value[i];
      assert value[i..][1..] == value[i + 1..];
      if character == BACKSLASH {
        slashCount := slashCount + 1;
        continue;
      }
      if character == QUOTE {
        builder := builder + Slashes(slashCount * 2 + 1) + [character];
        slashCount := 0;
        continue;
      }
      if slashCount > 0 {
        builder := builder + Slashes(slashCount);
        slashCount := 0;
      }
      builder := builder + [character];
    }
    if slashCount > 0 {
      builder := builder + Slashes(slashCount * 2);
    }
    quoted := builder + [QUOTE];
  }

  method BuildCommandLine(processPath: Text, arguments: seq<Text>) returns (line: Text)
    ensures line == Quote(processPath) + Tail(arguments)
  {
    hide Quote, Tail;
    line := QuoteArgument(processPath);
    TailNone();
    assert arguments[0..] == arguments;
    for i := 0 to |arguments|
      invariant line + Tail(arguments[i..]) == Quote(processPath) + Tail(arguments)
    {
      TailNext(arguments, i);
      var quoted := QuoteArgument(arguments[i]);
      line := line + [SPACE] + quoted;
    }
    assert arguments[|arguments|..] == [];
  }
}

/** The command-line front end's copy; both are proved equal to the same text. */
module CommandLineProgram {
  import opened CommandLine

  method QuoteArgument(argument: Text) returns (quoted: Text)
    ensures quoted == Quote(argument)
  {
    if |argument| == 0 { return [QUOTE, QUOTE]; }
    var needsQuotes := false;
    for i := 0 to |argument|
      invariant !needsQuotes && forall k :: 0 <= k < i ==> !IsWhiteSpace(argument[k]) && argument[k] != QUOTE
    {
      if IsWhiteSpace(argument[i]) || argument[i] == QUOTE {
        needsQuotes := true;
        break;
      }
    }
    if !needsQuotes { return argument; }
    var builder := [QUOTE];
    var backslashCount := 0;
    for i := 0 to |argument|
      invariant builder + Body(argument[i..], backslashCount) == [QUOTE] + Body(argument, 0)
    {
      assert argument[i..][1..] == argument[i + 1..];
      if argument[i] == BACKSLASH {
        backslashCount := backslashCount + 1;
        continue;
      }
      if argument[i] == QUOTE {
        builder := builder + Slashes(backslashCount * 2 + 1) + [QUOTE];
        backslashCount := 0;
        continue;
      }
      if backslashCount > 0 {
        builder := builder + Slashes(backslashCount);
        backslashCount := 0;
      }
      builder := builder + [argument[i]];
    }
    if backslashCount > 0 {
      builder := builder + Slashes(backslashCount * 2);
    }
    quoted := builder + [QUOTE];
  }

  method BuildCommandLine(processPath: Text, arguments: seq<Text>) returns (line: Text)
    ensures line == Quote(processPath) + Tail(arguments)
  {
    hide Quote, Tail;
    line := QuoteArgument(processPath);
    TailNone();
    assert arguments[0..] == arguments;
    for i := 0 to |arguments|
      invariant line + Tail(arguments[i..]) == Quote(processPath) + Tail(arguments)
    {
      TailNext(arguments, i);
      var quoted := QuoteArgument(arguments[i]);
      line := line + [SPACE] + quoted;
    }
    assert arguments[|arguments|..] == [];
  }
}
