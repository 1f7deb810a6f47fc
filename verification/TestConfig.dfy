/** The writer of test configurations as the script runs it, and its parser of hexadecimal memory data. */
module TestConfig {
  import opened LittleEndian
  import opened TestConfigModel
  import opened Words

  // ---- writing ----

  lemma AppendSome(a: Bytes, b: Option<Bytes>, c: Option<Bytes>)
    ensures Append(Some(a), Append(b, c)) == Append(Append(Some(a), b), c)
  {
    if b.Some? && c.Some? { assert a + (b.value + c.value) == a + b.value + c.value; }
  }

  lemma AppendNothing(a: Option<Bytes>)
    ensures Append(Some([]), a) == a && Append(a, Some([])) == a
  {
    if a.Some? { assert [] + a.value == a.value && a.value + [] == a.value; }
  }

  /** Every number is packed little-endian into its width; one that does not fit ends the script. */
  method PackAll(fields: seq<Field>) returns (packed: Option<Bytes>)
    ensures packed == Pack(fields)
  {
    hide Encode;
    var bytes: Bytes := [];
    AppendNothing(Pack(fields));
    for i := 0 to |fields|
      invariant Append(Some(bytes), Pack(fields[i..])) == Pack(fields)
    {
      PackFirst(fields[i..]);
      if !FieldFits(fields[i]) { return None; }
      AppendSome(bytes, Some(Encode(fields[i].value, fields[i].width)), Pack(fields[i + 1..]));
      assert fields[i..][1..] == fields[i + 1..];
      bytes := bytes + Encode(fields[i].value, fields[i].width);
    }
    AppendNothing(Some(bytes));
    packed := Some(bytes);
  }

  lemma PackFirst(fields: seq<Field>)
    requires fields != []
    ensures Pack(fields)
        == if FieldFits(fields[0]) then Append(Some(Encode(fields[0].value, fields[0].width)), Pack(fields[1..]))
           else None
  {
    hide Encode, FieldFits;
  }

  method PackRegions(regions: seq<Region>) returns (packed: Option<Bytes>)
    ensures packed == WriteRegions(regions)
  {
    hide Pack;
    var bytes: Bytes := [];
    AppendNothing(WriteRegions(regions));
    for i := 0 to |regions|
      invariant Append(Some(bytes), WriteRegions(regions[i..])) == WriteRegions(regions)
    {
      var one := PackAll(RegionFields(regions[i]));
      assert regions[i..][1..] == regions[i + 1..];
      AppendSome(bytes, one, WriteRegions(regions[i + 1..]));
      if one.None? { return None; }
      bytes := bytes + one.value;
    }
    AppendNothing(Some(bytes));
    packed := Some(bytes);
  }

  method PackRegisters(registers: seq<Register>) returns (packed: Option<Bytes>)
    ensures packed == WriteRegisters(registers)
  {
    hide Pack;
    var bytes: Bytes := [];
    AppendNothing(WriteRegisters(registers));
    for i := 0 to |registers|
      invariant Append(Some(bytes), WriteRegisters(registers[i..])) == WriteRegisters(registers)
    {
      var one := PackAll(RegisterFields(registers[i]));
      assert registers[i..][1..] == registers[i + 1..];
      AppendSome(bytes, one, WriteRegisters(registers[i + 1..]));
      if one.None? { return None; }
      bytes := bytes + one.value;
    }
    AppendNothing(Some(bytes));
    packed := Some(bytes);
  }

  method PackBlocks(blocks: seq<Block>) returns (packed: Option<Bytes>)
    ensures packed == WriteBlocks(blocks)
  {
    hide Pack;
    var bytes: Bytes := [];
    AppendNothing(WriteBlocks(blocks));
    for i := 0 to |blocks|
      invariant Append(Some(bytes), WriteBlocks(blocks[i..])) == WriteBlocks(blocks)
    {
      var head := PackAll(BlockFields(blocks[i]));
      assert blocks[i..][1..] == blocks[i + 1..];
      AppendSome(bytes, WriteBlock(blocks[i]), WriteBlocks(blocks[i + 1..]));
      if head.None? { return None; }
      bytes := bytes + (head.value + blocks[i].data);
    }
    AppendNothing(Some(bytes));
    packed := Some(bytes);
  }

  method PackEnvironment(environment: seq<Variable>) returns (bytes: Bytes)
    ensures bytes == WriteEnvironment(environment)
  {
    hide WriteVariable;
    bytes := [];
    for i := 0 to |environment|
      invariant bytes + WriteEnvironment(environment[i..]) == WriteEnvironment(environment)
    {
      assert environment[i..][1..] == environment[i + 1..];
      assert bytes + (WriteVariable(environment[i]) + WriteEnvironment(environment[i + 1..]))
          == bytes + WriteVariable(environment[i]) + WriteEnvironment(environment[i + 1..]);
      bytes := bytes + WriteVariable(environment[i]);
    }
  }

  /** The parts first, then the header with the running offset, then the parts behind it. */
  method WriteConfig(c: Config) returns (file: Option<Bytes>)
    ensures file == Write(c)
  {
    hide Pack, WriteRegions, WriteRegisters, WriteBlocks, WriteEnvironment;
    var memRegions := PackRegions(c.regions);
    if memRegions.None? { return None; }
    var regData := PackRegisters(c.registers);
    if regData.None? { return None; }
    var memData := PackBlocks(c.blocks);
    if memData.None? { return None; }
    var envData := PackEnvironment(c.environment);
    var p := Parts(memRegions.value, regData.value, memData.value, envData);
    var offset: nat := HEADER_LENGTH;
    var pairs := [Field(4, offset), Field(4, |c.regions|)];
    offset := offset + |memRegions.value|;
    pairs := pairs + [Field(4, offset), Field(4, |c.registers|)];
    offset := offset + |regData.value|;
    pairs := pairs + [Field(4, offset), Field(4, |c.blocks|)];
    offset := offset + |memData.value|;
    pairs := pairs + [Field(4, offset), Field(4, |c.environment|)];
    var o := c.options;
    var options := [Field(8, o.match'), Field(8, o.ignore), Field(8, o.stackSize), Field(8, o.entryPoint),
                    Field(4, o.abi), Field(4, o.mode), Field(4, o.hostFeatures)];
    assert options + pairs == HeaderFields(c, p);
    var header := PackAll(options + pairs);
    if header.None? { return None; }
    file := Some(header.value + p.regions + p.registers + p.blocks + p.environment);
  }

  // ---- hexadecimal memory data ----

  predicate IsHexDigit(c: char) {
    '0' <= c <= '9' || 'a' <= c <= 'f' || 'A' <= c <= 'F'
  }

  function HexDigit(c: char): (d: nat)
    requires IsHexDigit(c)
    ensures d < 16
  {
    if c <= '9' then (c - '0') as int else if c <= 'F' then 10 + (c - 'A') as int else 10 + (c - 'a') as int
  }

  const LOWER: string := "0123456789abcdef"
  const UPPER: string := "0123456789ABCDEF"

  /** The digits are those sixteen, in either case, and a digit's value is its place. */
  lemma HexDigits(c: char)
    ensures IsHexDigit(c) <==> c in LOWER || c in UPPER
    ensures IsHexDigit(c) ==> LOWER[HexDigit(c)] == c || UPPER[HexDigit(c)] == c
  {
    if '0' <= c <= '9' {
      assert LOWER[HexDigit(c)] == c;
    } else if 'a' <= c <= 'f' {
      assert LOWER[HexDigit(c)] == c;
    } else if 'A' <= c <= 'F' {
      assert UPPER[HexDigit(c)] == c;
    }
  }

  /** The number a run of digits stands for, the highest first. */
  function HexNumber(digits: string): nat
    requires forall k :: 0 <= k < |digits| ==> IsHexDigit(digits[k])
  {
    if digits == "" then 0 else 16 * HexNumber(digits[..|digits| - 1]) + HexDigit(digits[|digits| - 1])
  }

  predicate AllHex(digits: string) {
    forall k :: 0 <= k < |digits| ==> IsHexDigit(digits[k])
  }

  /** One or two digits as a byte. */
  function HexByte(digits: string): U8
    requires 0 < |digits| <= 2 && AllHex(digits)
  {
    if |digits| == 1 then HexDigit(digits[0]) else 16 * HexDigit(digits[0]) + HexDigit(digits[1])
  }

  /** Bytes from the last two digits on; it fails on anything that is no digit. */
  function Pairs(num: string): Option<Bytes>
    decreases |num|
  {
    if num == "" then Some([])
    else
      var cut := if |num| < 2 then 0 else |num| - 2;
      if !AllHex(num[cut..]) then None else Append(Some([HexByte(num[cut..])]), Pairs(num[..cut]))
  }

  predicate Prefixed(s: string) {
    |s| >= 2 && s[0] == '0' && s[1] == 'x'
  }

  function Drop2(s: string): string {
    if |s| < 2 then "" else s[2..]
  }

  function Split(s: string): (tokens: seq<string>)
    ensures tokens != []
  {
    if s == "" then [""]
    else if s[0] == ' ' then [""] + Split(s[1..])
    else var rest := Split(s[1..]); [[s[0]] + rest[0]] + rest[1..]
  }

  /** Every token loses its first two characters when the whole text starts with the prefix, and none does
      when it does not. */
  function HexTokens(tokens: seq<string>, strip: bool): Option<Bytes> {
    if tokens == [] then Some([])
    else Append(Pairs(if strip then Drop2(tokens[0]) else tokens[0]), HexTokens(tokens[1..], strip))
  }

  method ParseHexString(s: string) returns (parsed: Option<(nat, Bytes)>)
    ensures match HexTokens(Split(s), Prefixed(s)) case None => parsed == None case Some(b) => parsed == Some((|b|, b))
  {
    hide Pairs, Split, HexTokens;
    var length, byteData: Bytes := 0, [];
    var tokens := Split(s);
    AppendNothing(HexTokens(tokens, Prefixed(s)));
    assert tokens[0..] == tokens;
    for i := 0 to |tokens|
      invariant length == |byteData|
      invariant Append(Some(byteData), HexTokens(tokens[i..], Prefixed(s))) == HexTokens(tokens, Prefixed(s))
    {
      var num := tokens[i];
      if Prefixed(s) { num := Drop2(num); }
      ghost var rest := HexTokens(tokens[i + 1..], Prefixed(s));
      HexTokensFirst(tokens, i, Prefixed(s));
      AppendSome(byteData, Pairs(num), rest);
      while |num| > 0
        invariant length == |byteData|
        invariant Append(Append(Some(byteData), Pairs(num)), rest) == HexTokens(tokens, Prefixed(s))
        decreases |num|
      {
        var cut := if |num| < 2 then 0 else |num| - 2;
        var byteNum := num[cut..];
        PairsStep(num);
        if !AllHex(byteNum) { return None; }
        AppendSome(byteData, Some([HexByte(byteNum)]), Pairs(num[..cut]));
        byteData := byteData + [HexByte(byteNum)];
        length := length + 1;
        num := num[..cut];
      }
      PairsNone();
      AppendNothing(Some(byteData));
    }
    assert tokens[|tokens|..] == [];
    HexTokensNone(Prefixed(s));
    AppendNothing(Some(byteData));
    parsed := Some((length, byteData));
  }

  lemma HexTokensFirst(tokens: seq<string>, i: nat, strip: bool)
    requires i < |tokens|
    ensures HexTokens(tokens[i..], strip)
         == Append(Pairs(if strip then Drop2(tokens[i]) else tokens[i]), HexTokens(tokens[i + 1..], strip))
  {
    assert tokens[i..][1..] == tokens[i + 1..];
  }

  lemma HexTokensNone(strip: bool)
    ensures HexTokens([], strip) == Some([])
  {
  }

  lemma PairsNone()
    ensures Pairs("") == Some([])
  {
  }

  lemma PairsStep(num: string)
    requires num != ""
    ensures var cut := if |num| < 2 then 0 else |num| - 2;
      Pairs(num) == if AllHex(num[cut..]) then Append(Some([HexByte(num[cut..])]), Pairs(num[..cut])) else None
  {
  }

  // ---- what a token says ----

  /** Digits give one byte for every two of them, rounded up, and the bytes are the number little-endian. */
  lemma {:induction false} PairsAreLittleEndian(digits: string)
    requires AllHex(digits)
    ensures Pairs(digits).Some? && |Pairs(digits).value| == (|digits| + 1) / 2
      && Decode(Pairs(digits).value) == HexNumber(digits)
    decreases |digits|
  {
    hide HexDigit, IsHexDigit, Pow2;
    if digits != "" {
      var cut := if |digits| < 2 then 0 else |digits| - 2;
      PairsAreLittleEndian(digits[..cut]);
      var rest := Pairs(digits[..cut]).value;
      var b := HexByte(digits[cut..]);
      assert ([b] + rest)[1..] == rest;
      if |digits| >= 2 {
        var shorter := digits[..|digits| - 1];
        assert shorter[..|shorter| - 1] == digits[..cut];
        assert HexNumber(shorter) == 16 * HexNumber(digits[..cut]) + HexDigit(digits[cut]);
      } else {
        assert digits[..0] == "" && digits[0..] == digits;
      }
    }
  }

  /** A token is read exactly when it has digits alone. */
  lemma {:induction false} PairsIff(num: string)
    ensures Pairs(num).Some? <==> AllHex(num)
    decreases |num|
  {
    if num != "" {
      var cut := if |num| < 2 then 0 else |num| - 2;
      PairsIff(num[..cut]);
      assert num == num[..cut] + num[cut..];
    }
  }

  lemma {:induction false} OneToken(s: string)
    requires ' ' !in s
    ensures Split(s) == [s]
  {
    if s != "" {
      assert s == [s[0]] + s[1..];
      OneToken(s[1..]);
    }
  }

  /** A single token of digits, with or without the prefix, yields half as many bytes as digits, rounded up,
      whose little-endian value is the number. */
  lemma SingleTokenValue(digits: string, prefix: bool)
    requires AllHex(digits)
    ensures var s := if prefix then "0x" + digits else digits;
      var b := HexTokens(Split(s), Prefixed(s));
      b.Some? && |b.value| == (|digits| + 1) / 2 && Decode(b.value) == HexNumber(digits)
  {
    hide Pairs, Decode, HexNumber;
    var s := if prefix then "0x" + digits else digits;
    forall k | 0 <= k < |s| ensures s[k] != ' ' { }
    OneToken(s);
    PairsAreLittleEndian(digits);
    assert !prefix ==> !Prefixed(s);
    assert prefix ==> Drop2(s) == digits;
    assert [s][1..] == [];
    AppendNothing(Pairs(digits));
  }

  // ---- several tokens ----

  datatype Token = Token(prefix: bool, digits: string)

  predicate IsToken(t: Token) {
    t.digits != "" && AllHex(t.digits)
  }

  function Text(t: Token): string {
    if t.prefix then "0x" + t.digits else t.digits
  }

  function Texts(ts: seq<Token>): (r: seq<string>)
    ensures |r| == |ts|
  {
    if ts == [] then [] else [Text(ts[0])] + Texts(ts[1..])
  }

  function Joined(ts: seq<Token>): string
    requires ts != []
  {
    if |ts| == 1 then Text(ts[0]) else Text(ts[0]) + " " + Joined(ts[1..])
  }

  /** What each token says by itself. */
  function Meant(ts: seq<Token>): Bytes
    requires forall k :: 0 <= k < |ts| ==> IsToken(ts[k])
  {
    if ts == [] then []
    else
      assert IsToken(ts[0]) && forall k :: 0 <= k < |ts[1..]| ==> ts[1..][k] == ts[k + 1];
      PairsAreLittleEndian(ts[0].digits);
      Pairs(ts[0].digits).value + Meant(ts[1..])
  }

  lemma {:induction false} SplitAtSpace(a: string, rest: string)
    requires ' ' !in a
    ensures Split(a + " " + rest) == [a] + Split(rest)
  {
    if a == "" {
      assert ("" + " " + rest)[1..] == rest;
    } else {
      SplitAtSpace(a[1..], rest);
      assert (a + " " + rest)[1..] == a[1..] + " " + rest;
      assert [a[0]] + a[1..] == a;
    }
  }

  lemma TextHasNoSpace(t: Token)
    requires IsToken(t)
    ensures ' ' !in Text(t) && Text(t) != "" && (Prefixed(Text(t)) <==> t.prefix)
  {
    forall k | 0 <= k < |Text(t)| ensures Text(t)[k] != ' ' { }
  }

  lemma {:induction false} SplitJoined(ts: seq<Token>)
    requires ts != [] && forall k :: 0 <= k < |ts| ==> IsToken(ts[k])
    ensures Split(Joined(ts)) == Texts(ts)
    decreases |ts|
  {
    hide Split, IsToken;
    TextHasNoSpace(ts[0]);
    if |ts| == 1 {
      OneToken(Text(ts[0]));
      assert Texts(ts[1..]) == [];
    } else {
      assert forall k :: 0 <= k < |ts[1..]| ==> ts[1..][k] == ts[k + 1];
      SplitJoined(ts[1..]);
      SplitAtSpace(Text(ts[0]), Joined(ts[1..]));
    }
  }

  lemma JoinedPrefix(ts: seq<Token>)
    requires ts != [] && IsToken(ts[0])
    ensures Prefixed(Joined(ts)) <==> ts[0].prefix
  {
    TextHasNoSpace(ts[0]);
  }

  /** The prefix is no digit. */
  lemma {:induction false} PrefixFails(digits: string)
    requires AllHex(digits)
    ensures Pairs("0x" + digits) == None
    decreases |digits|
  {
    var num := "0x" + digits;
    var cut := |num| - 2;
    if |digits| < 2 {
      assert num[cut..][1 - cut] == 'x';
    } else {
      assert num[..cut] == "0x" + digits[..|digits| - 2];
      PrefixFails(digits[..|digits| - 2]);
    }
  }

  /** What one token contributes, right or not. */
  lemma OneContribution(t: Token, strip: bool)
    requires IsToken(t)
    ensures var b := Pairs(if strip then Drop2(Text(t)) else Text(t));
      && (t.prefix == strip ==> b == Pairs(t.digits))
      && (t.prefix && !strip ==> b == None)
      && (!t.prefix && strip ==> b.Some? && |b.value| < (|t.digits| + 1) / 2)
  {
    hide Pairs;
    if t.prefix == strip {
      assert strip ==> Drop2(Text(t)) == t.digits;
    } else if t.prefix {
      PrefixFails(t.digits);
    } else {
      PairsAreLittleEndian(Drop2(t.digits));
    }
  }

  lemma {:induction false} Contributions(ts: seq<Token>, strip: bool)
    requires forall k :: 0 <= k < |ts| ==> IsToken(ts[k])
    ensures var b := HexTokens(Texts(ts), strip);
      && (b.Some? ==> |b.value| <= |Meant(ts)|)
      && (b == Some(Meant(ts)) <==> forall k :: 0 <= k < |ts| ==> ts[k].prefix == strip)
      && (b.Some? && |b.value| == |Meant(ts)| ==> b == Some(Meant(ts)))
    decreases |ts|
  {
    hide Pairs, Text, IsToken, Drop2;
    if ts != [] {
      var t, rest := ts[0], ts[1..];
      assert forall k :: 0 <= k < |rest| ==> rest[k] == ts[k + 1];
      Contributions(rest, strip);
      OneContribution(t, strip);
      TokenBytes(t);
      assert Texts(ts)[1..] == Texts(rest);
      var b, r := Pairs(if strip then Drop2(Text(t)) else Text(t)), HexTokens(Texts(rest), strip);
      assert HexTokens(Texts(ts), strip) == Append(b, r);
      if t.prefix == strip {
        if r.Some? && b.value + r.value == b.value + Meant(rest) { SameTail(b.value, r.value, Meant(rest)); }
        assert ts == [t] + rest;
      }
    }
  }

  lemma TokenBytes(t: Token)
    requires IsToken(t)
    ensures Pairs(t.digits).Some? && |Pairs(t.digits).value| == (|t.digits| + 1) / 2
  {
    PairsAreLittleEndian(t.digits);
  }

  lemma SameTail(a: Bytes, b: Bytes, c: Bytes)
    requires a + b == a + c
    ensures b == c
  {
    assert (a + b)[|a|..] == b && (a + c)[|a|..] == c;
  }

  /** Several tokens are read as they are meant exactly when all of them or none has the prefix: whether it is
      cut off is decided once, by the first. */
  lemma TokensReadIff(ts: seq<Token>)
    requires ts != [] && forall k :: 0 <= k < |ts| ==> IsToken(ts[k])
    ensures HexTokens(Split(Joined(ts)), Prefixed(Joined(ts))) == Some(Meant(ts))
       <==> forall k :: 0 <= k < |ts| ==> ts[k].prefix == ts[0].prefix
  {
    hide Split, HexTokens, Meant, Joined;
    SplitJoined(ts);
    JoinedPrefix(ts);
    Contributions(ts, ts[0].prefix);
  }

  /** A second token without the prefix loses its digits when the first has it. */
  lemma SecondTokenIsMisread()
    ensures var ts := [Token(true, "1"), Token(false, "22")];
      && (forall k :: 0 <= k < |ts| ==> IsToken(ts[k])) && Joined(ts) == "0x1 22"
      && HexTokens(Split(Joined(ts)), Prefixed(Joined(ts))) != Some(Meant(ts))
  {
    hide Split, HexTokens, Meant, Prefixed;
    var ts := [Token(true, "1"), Token(false, "22")];
    assert ts[1..] == [Token(false, "22")];
    TokensReadIff(ts);
    assert ts[1].prefix != ts[0].prefix;
  }
}
