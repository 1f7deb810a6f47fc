/** The binary test configuration: a packed header with four offset/count pairs, then memory regions,
    register values, memory blocks and environment strings; and a reader that follows the header. */
module TestConfigModel {
  import opened LittleEndian
  import opened Words

  datatype Option<T> = None | Some(value: T)

  type Bytes = seq<U8>

  // ---- packed fields ----

  datatype Field = Field(width: nat, value: int)

  predicate FieldFits(f: Field) {
    0 <= f.value < Pow2(8 * f.width)
  }

  /** Packing fails on a value its width cannot hold. */
  function Pack(fields: seq<Field>): Option<Bytes> {
    if fields == [] then Some([])
    else if !FieldFits(fields[0]) then None
    else
      match Pack(fields[1..])
      case None => None
      case Some(rest) => Some(Encode(fields[0].value, fields[0].width) + rest)
  }

  function Unpack(widths: seq<nat>, bytes: Bytes): Option<(seq<int>, Bytes)> {
    if widths == [] then Some(([], bytes))
    else if |bytes| < widths[0] then None
    else
      match Unpack(widths[1..], bytes[widths[0]..])
      case None => None
      case Some(r) => Some(([Decode(bytes[..widths[0]])] + r.0, r.1))
  }

  function Widths(fields: seq<Field>): (w: seq<nat>)
    ensures |w| == |fields| && forall k :: 0 <= k < |w| ==> w[k] == fields[k].width
  {
    seq(|fields|, k requires 0 <= k < |fields| => fields[k].width)
  }

  function Values(fields: seq<Field>): (v: seq<int>)
    ensures |v| == |fields| && forall k :: 0 <= k < |v| ==> v[k] == fields[k].value
  {
    seq(|fields|, k requires 0 <= k < |fields| => fields[k].value)
  }

  lemma {:induction false} PackWhen(fields: seq<Field>)
    ensures Pack(fields).Some? <==> forall k :: 0 <= k < |fields| ==> FieldFits(fields[k])
  {
    hide FieldFits, Encode;
    if fields != [] {
      PackWhen(fields[1..]);
      assert fields == [fields[0]] + fields[1..];
    }
  }

  lemma {:induction false} UnpackPack(fields: seq<Field>, tail: Bytes)
    requires Pack(fields).Some?
    ensures Unpack(Widths(fields), Pack(fields).value + tail) == Some((Values(fields), tail))
  {
    hide Encode, Decode;
    if fields == [] {
      assert [] + tail == tail && Values(fields) == [];
    } else {
      var f, rest := fields[0], Pack(fields[1..]).value;
      var bytes := Pack(fields).value + tail;
      UnpackPack(fields[1..], tail);
      DecodeEncode(f.value, f.width);
      assert bytes[..f.width] == Encode(f.value, f.width) && bytes[f.width..] == rest + tail;
      assert Widths(fields)[1..] == Widths(fields[1..]);
      assert Values(fields) == [f.value] + Values(fields[1..]);
    }
  }

  // ---- the configuration ----

  datatype Region = Region(address: int, size: int)

  datatype Register = Register(key: int, values: seq<int>)

  datatype Block = Block(address: int, data: Bytes)

  datatype Variable = Variable(name: Bytes, value: Bytes)

  datatype Options = Options(match': int, ignore: int, stackSize: int, entryPoint: int, abi: int, mode: int,
                             hostFeatures: int)

  datatype Config = Config(
    options: Options, regions: seq<Region>, registers: seq<Register>, blocks: seq<Block>, environment: seq<Variable>)

  // ---- the four parts ----

  function RegionFields(r: Region): seq<Field> {
    [Field(8, r.address), Field(8, r.size)]
  }

  function Longs(values: seq<int>): (f: seq<Field>)
    ensures |f| == |values| && forall k :: 0 <= k < |f| ==> f[k] == Field(8, values[k])
  {
    seq(|values|, k requires 0 <= k < |values| => Field(8, values[k]))
  }

  function RegisterFields(r: Register): seq<Field> {
    [Field(4, |r.values|), Field(8, r.key)] + Longs(r.values)
  }

  function BlockFields(b: Block): seq<Field> {
    [Field(8, b.address), Field(4, |b.data|)]
  }

  function Append(a: Option<Bytes>, b: Option<Bytes>): Option<Bytes> {
    if a.Some? && b.Some? then Some(a.value + b.value) else None
  }

  function WriteRegions(rs: seq<Region>): Option<Bytes> {
    if rs == [] then Some([]) else Append(Pack(RegionFields(rs[0])), WriteRegions(rs[1..]))
  }

  function WriteRegisters(rs: seq<Register>): Option<Bytes> {
    if rs == [] then Some([]) else Append(Pack(RegisterFields(rs[0])), WriteRegisters(rs[1..]))
  }

  function WriteBlock(b: Block): Option<Bytes> {
    Append(Pack(BlockFields(b)), Some(b.data))
  }

  function WriteBlocks(bs: seq<Block>): Option<Bytes> {
    if bs == [] then Some([]) else Append(WriteBlock(bs[0]), WriteBlocks(bs[1..]))
  }

  function WriteVariable(v: Variable): Bytes {
    v.name + [0] + v.value + [0]
  }

  function WriteEnvironment(vs: seq<Variable>): Bytes {
    if vs == [] then [] else WriteVariable(vs[0]) + WriteEnvironment(vs[1..])
  }

  // ---- reading the parts ----

  function ReadRegions(bytes: Bytes, count: nat): Option<seq<Region>>
    decreases count
  {
    if count == 0 then Some([])
    else
      match Unpack([8, 8], bytes)
      case None => None
      case Some(r) =>
        match ReadRegions(r.1, count - 1)
        case None => None
        case Some(rest) => if |r.0| == 2 then Some([Region(r.0[0], r.0[1])] + rest) else None
  }

  function Eights(n: nat): (w: seq<nat>)
    ensures |w| == n && forall k :: 0 <= k < n ==> w[k] == 8
  {
    seq(n, k => 8)
  }

  function ReadRegister(bytes: Bytes): Option<(Register, Bytes)> {
    match Unpack([4, 8], bytes)
    case None => None
    case Some(r) =>
      if |r.0| == 2 && r.0[0] >= 0 then
        match Unpack(Eights(r.0[0]), r.1)
        case None => None
        case Some(v) => Some((Register(r.0[1], v.0), v.1))
      else None
  }

  function ReadRegisters(bytes: Bytes, count: nat): Option<seq<Register>>
    decreases count
  {
    if count == 0 then Some([])
    else
      match ReadRegister(bytes)
      case None => None
      case Some(r) => match ReadRegisters(r.1, count - 1) case None => None case Some(rest) => Some([r.0] + rest)
  }

  function ReadBlock(bytes: Bytes): Option<(Block, Bytes)> {
    match Unpack([8, 4], bytes)
    case None => None
    case Some(r) =>
      if |r.0| == 2 && 0 <= r.0[1] <= |r.1| then Some((Block(r.0[0], r.1[..r.0[1]]), r.1[r.0[1]..])) else None
  }

  function ReadBlocks(bytes: Bytes, count: nat): Option<seq<Block>>
    decreases count
  {
    if count == 0 then Some([])
    else
      match ReadBlock(bytes)
      case None => None
      case Some(r) => match ReadBlocks(r.1, count - 1) case None => None case Some(rest) => Some([r.0] + rest)
  }

  /** A zero-terminated string and what follows its terminator. */
  function ReadString(bytes: Bytes): Option<(Bytes, Bytes)> {
    if bytes == [] then None
    else if bytes[0] == 0 then Some(([], bytes[1..]))
    else match ReadString(bytes[1..]) case None => None case Some(r) => Some(([bytes[0]] + r.0, r.1))
  }

  function ReadVariable(bytes: Bytes): Option<(Variable, Bytes)> {
    match ReadString(bytes)
    case None => None
    case Some(n) => match ReadString(n.1) case None => None case Some(v) => Some((Variable(n.0, v.0), v.1))
  }

  function ReadEnvironment(bytes: Bytes, count: nat): Option<seq<Variable>>
    decreases count
  {
    if count == 0 then Some([])
    else
      match ReadVariable(bytes)
      case None => None
      case Some(r) => match ReadEnvironment(r.1, count - 1) case None => None case Some(rest) => Some([r.0] + rest)
  }

  // ---- the parts read back ----

  lemma {:induction false} RegionsReadBack(rs: seq<Region>, tail: Bytes)
    requires WriteRegions(rs).Some?
    ensures ReadRegions(WriteRegions(rs).value + tail, |rs|) == Some(rs)
  {
    hide Pack, Unpack;
    if rs != [] {
      var first, rest := Pack(RegionFields(rs[0])).value, WriteRegions(rs[1..]).value;
      RegionsReadBack(rs[1..], tail);
      UnpackPack(RegionFields(rs[0]), rest + tail);
      assert Widths(RegionFields(rs[0])) == [8, 8];
      assert first + rest + tail == first + (rest + tail);
      assert rs == [rs[0]] + rs[1..];
    }
  }

  lemma RegisterReadsBack(r: Register, tail: Bytes)
    requires Pack(RegisterFields(r)).Some?
    ensures ReadRegister(Pack(RegisterFields(r)).value + tail) == Some((r, tail))
  {
    hide Pack, Unpack;
    var head, longs := [Field(4, |r.values|), Field(8, r.key)], Longs(r.values);
    PackAppend(head, longs);
    var h, l := Pack(head).value, Pack(longs).value;
    UnpackPack(head, l + tail);
    UnpackPack(longs, tail);
    assert Widths(head) == [4, 8] && Widths(longs) == Eights(|r.values|);
    assert Values(longs) == r.values && Values(head) == [|r.values|, r.key];
    assert h + l + tail == h + (l + tail);
  }

  lemma {:induction false} PackAppend(a: seq<Field>, b: seq<Field>)
    ensures Pack(a + b) == Append(Pack(a), Pack(b))
  {
    hide Encode;
    if a == [] {
      assert a + b == b;
      if Pack(b).Some? { assert [] + Pack(b).value == Pack(b).value; }
    } else {
      PackAppend(a[1..], b);
      assert (a + b)[1..] == a[1..] + b;
      if Pack(a[1..]).Some? && Pack(b).Some? && FieldFits(a[0]) {
        var e := Encode(a[0].value, a[0].width);
        assert e + (Pack(a[1..]).value + Pack(b).value) == e + Pack(a[1..]).value + Pack(b).value;
      }
    }
  }

  lemma {:induction false} RegistersReadBack(rs: seq<Register>, tail: Bytes)
    requires WriteRegisters(rs).Some?
    ensures ReadRegisters(WriteRegisters(rs).value + tail, |rs|) == Some(rs)
  {
    hide Pack, Unpack, ReadRegister;
    if rs != [] {
      var first, rest := Pack(RegisterFields(rs[0])).value, WriteRegisters(rs[1..]).value;
      RegistersReadBack(rs[1..], tail);
      RegisterReadsBack(rs[0], rest + tail);
      assert first + rest + tail == first + (rest + tail);
      assert rs == [rs[0]] + rs[1..];
    }
  }

  lemma BlockReadsBack(b: Block, tail: Bytes)
    requires WriteBlock(b).Some?
    ensures ReadBlock(WriteBlock(b).value + tail) == Some((b, tail))
  {
    hide Pack, Unpack;
    var head := Pack(BlockFields(b)).value;
    UnpackPack(BlockFields(b), b.data + tail);
    assert Widths(BlockFields(b)) == [8, 4];
    assert head + b.data + tail == head + (b.data + tail);
    assert (b.data + tail)[..|b.data|] == b.data && (b.data + tail)[|b.data|..] == tail;
  }

  lemma {:induction false} BlocksReadBack(bs: seq<Block>, tail: Bytes)
    requires WriteBlocks(bs).Some?
    ensures ReadBlocks(WriteBlocks(bs).value + tail, |bs|) == Some(bs)
  {
    hide WriteBlock, ReadBlock;
    if bs != [] {
      var first, rest := WriteBlock(bs[0]).value, WriteBlocks(bs[1..]).value;
      BlocksReadBack(bs[1..], tail);
      BlockReadsBack(bs[0], rest + tail);
      assert first + rest + tail == first + (rest + tail);
      assert bs == [bs[0]] + bs[1..];
    }
  }

  function BeforeZero(bytes: Bytes): (r: Bytes)
    ensures r <= bytes && 0 !in r && (r == bytes <==> 0 !in bytes)
  {
    if bytes == [] || bytes[0] == 0 then [] else [bytes[0]] + BeforeZero(bytes[1..])
  }

  /** A string with its terminator reads as the bytes before its first zero. */
  lemma {:induction false} StringReads(s: Bytes, tail: Bytes)
    ensures var r := ReadString(s + [0] + tail);
      r.Some? && r.value.0 == BeforeZero(s) && (0 !in s ==> r.value.1 == tail)
  {
    var all := s + [0] + tail;
    if s == [] || s[0] == 0 {
      assert s == [] ==> all[1..] == tail;
    } else {
      StringReads(s[1..], tail);
      assert all[1..] == s[1..] + [0] + tail;
    }
  }

  predicate Clean(v: Variable) {
    0 !in v.name && 0 !in v.value
  }

  lemma VariableReads(v: Variable, tail: Bytes)
    ensures var r := ReadVariable(WriteVariable(v) + tail);
      && (Clean(v) ==> r == Some((v, tail))) && (r.Some? && r.value.0 == v ==> Clean(v))
  {
    hide BeforeZero;
    var after := v.value + [0] + tail;
    assert WriteVariable(v) + tail == v.name + [0] + after;
    StringReads(v.name, after);
    StringReads(v.value, tail);
    if 0 !in v.name { assert ReadString(v.name + [0] + after).value == (v.name, after); }
  }

  /** The environment reads back exactly when no name and no value has a zero byte. */
  lemma {:induction false} EnvironmentReadsBackIff(vs: seq<Variable>, tail: Bytes)
    ensures ReadEnvironment(WriteEnvironment(vs) + tail, |vs|) == Some(vs)
      <==> forall k :: 0 <= k < |vs| ==> Clean(vs[k])
  {
    hide WriteVariable, ReadVariable, Clean;
    if vs != [] {
      var first, rest := WriteVariable(vs[0]), WriteEnvironment(vs[1..]);
      EnvironmentReadsBackIff(vs[1..], tail);
      VariableReads(vs[0], rest + tail);
      assert first + rest + tail == first + (rest + tail);
      assert vs == [vs[0]] + vs[1..];
      var read := ReadEnvironment(first + (rest + tail), |vs|);
      if Clean(vs[0]) {
        var inner := ReadEnvironment(rest + tail, |vs| - 1);
        assert inner.Some? ==> ([vs[0]] + inner.value)[1..] == inner.value;
        assert forall k :: 1 <= k < |vs| ==> vs[k] == vs[1..][k - 1];
      }
    }
  }

  // ---- the whole file ----

  /** The header and the parts behind it. */
  datatype Parts = Parts(regions: Bytes, registers: Bytes, blocks: Bytes, environment: Bytes)

  function PartsOf(c: Config): Option<Parts> {
    var a, b, d := WriteRegions(c.regions), WriteRegisters(c.registers), WriteBlocks(c.blocks);
    if a.Some? && b.Some? && d.Some? then Some(Parts(a.value, b.value, d.value, WriteEnvironment(c.environment)))
    else None
  }

  const HEADER_LENGTH: nat := 8 * 4 + 4 * 3 + 4 * 8

  const HEADER_WIDTHS: seq<nat> := [8, 8, 8, 8, 4, 4, 4, 4, 4, 4, 4, 4, 4, 4, 4]

  function HeaderFields(c: Config, p: Parts): seq<Field> {
    var o := c.options;
    var at := HEADER_LENGTH;
    [Field(8, o.match'), Field(8, o.ignore), Field(8, o.stackSize), Field(8, o.entryPoint),
     Field(4, o.abi), Field(4, o.mode), Field(4, o.hostFeatures),
     Field(4, at), Field(4, |c.regions|),
     Field(4, at + |p.regions|), Field(4, |c.registers|),
     Field(4, at + |p.regions| + |p.registers|), Field(4, |c.blocks|),
     Field(4, at + |p.regions| + |p.registers| + |p.blocks|), Field(4, |c.environment|)]
  }

  function Write(c: Config): Option<Bytes> {
    match PartsOf(c)
    case None => None
    case Some(p) =>
      match Pack(HeaderFields(c, p))
      case None => None
      case Some(header) => Some(header + p.regions + p.registers + p.blocks + p.environment)
  }

  /** The reader takes the header's values and follows its offsets. */
  function Read(bytes: Bytes): Option<Config> {
    match Unpack(HEADER_WIDTHS, bytes)
    case None => None
    case Some(r) => if |r.0| == 15 then ReadParts(bytes, r.0) else None
  }

  function Section(bytes: Bytes, offset: int): Bytes {
    if 0 <= offset <= |bytes| then bytes[offset..] else []
  }

  function ReadParts(bytes: Bytes, v: seq<int>): Option<Config>
    requires |v| == 15
  {
    if v[8] < 0 || v[10] < 0 || v[12] < 0 || v[14] < 0 then None
    else
      var regions := ReadRegions(Section(bytes, v[7]), v[8]);
      var registers := ReadRegisters(Section(bytes, v[9]), v[10]);
      var blocks := ReadBlocks(Section(bytes, v[11]), v[12]);
      var environment := ReadEnvironment(Section(bytes, v[13]), v[14]);
      if regions.Some? && registers.Some? && blocks.Some? && environment.Some?
      then Some(Config(Options(v[0], v[1], v[2], v[3], v[4], v[5], v[6]), regions.value, registers.value, blocks.value,
                       environment.value))
      else None
  }

  lemma SectionAt(before: Bytes, rest: Bytes)
    ensures Section(before + rest, |before|) == rest
  {
  }

  /** Each part is where the header says. */
  lemma SectionsAre(header: Bytes, p: Parts)
    requires |header| == HEADER_LENGTH
    ensures var bytes := header + p.regions + p.registers + p.blocks + p.environment;
      var at := HEADER_LENGTH;
      && Section(bytes, at) == p.regions + (p.registers + p.blocks + p.environment)
      && Section(bytes, at + |p.regions|) == p.registers + (p.blocks + p.environment)
      && Section(bytes, at + |p.regions| + |p.registers|) == p.blocks + p.environment
      && Section(bytes, at + |p.regions| + |p.registers| + |p.blocks|) == p.environment + []
  {
    hide Section;
    var bytes := header + p.regions + p.registers + p.blocks + p.environment;
    assert bytes == header + (p.regions + (p.registers + p.blocks + p.environment)) by { Regroup(header, p); }
    SectionAt(header, p.regions + (p.registers + p.blocks + p.environment));
    assert bytes == (header + p.regions) + (p.registers + (p.blocks + p.environment)) by { Regroup(header, p); }
    SectionAt(header + p.regions, p.registers + (p.blocks + p.environment));
    assert bytes == (header + p.regions + p.registers) + (p.blocks + p.environment) by { Regroup(header, p); }
    SectionAt(header + p.regions + p.registers, p.blocks + p.environment);
    SectionAt(header + p.regions + p.registers + p.blocks, p.environment);
    assert p.environment + [] == p.environment;
  }

  lemma Regroup(header: Bytes, p: Parts)
    ensures var bytes := header + p.regions + p.registers + p.blocks + p.environment;
      && bytes == header + (p.regions + (p.registers + p.blocks + p.environment))
      && bytes == (header + p.regions) + (p.registers + (p.blocks + p.environment))
      && bytes == (header + p.regions + p.registers) + (p.blocks + p.environment)
  {
    Assoc(header + p.regions + p.registers, p.blocks, p.environment);
    Assoc(header + p.regions, p.registers, p.blocks + p.environment);
    Assoc(p.registers, p.blocks, p.environment);
    Assoc(header, p.regions, p.registers + (p.blocks + p.environment));
  }

  lemma Assoc(a: Bytes, b: Bytes, c: Bytes)
    ensures a + b + c == a + (b + c)
  {
  }

  /** A written configuration reads back, all of it, exactly when no environment string has a zero byte. */
  lemma ConfigReadsBackIff(c: Config)
    requires Write(c).Some?
    ensures Read(Write(c).value) == Some(c) <==> forall k :: 0 <= k < |c.environment| ==> Clean(c.environment[k])
  {
    hide Pack, Unpack, ReadRegions, ReadRegisters, ReadBlocks, ReadEnvironment, WriteRegions, WriteRegisters,
         WriteBlocks;
    hide WriteEnvironment, Section, Clean, HeaderFields;
    var p := PartsOf(c).value;
    HeaderReads(c, p);
    SectionsAre(Pack(HeaderFields(c, p)).value, p);
    RegionsReadBack(c.regions, p.registers + p.blocks + p.environment);
    RegistersReadBack(c.registers, p.blocks + p.environment);
    BlocksReadBack(c.blocks, p.environment);
    EnvironmentReadsBackIff(c.environment, []);
  }

  /** The reader gets the header's values, and the header has its fixed length. */
  lemma HeaderReads(c: Config, p: Parts)
    requires Pack(HeaderFields(c, p)).Some?
    ensures var header := Pack(HeaderFields(c, p)).value;
      var r := Unpack(HEADER_WIDTHS, header + p.regions + p.registers + p.blocks + p.environment);
      var o, at := c.options, HEADER_LENGTH;
      && |header| == HEADER_LENGTH && r.Some?
      && r.value.0 == [o.match', o.ignore, o.stackSize, o.entryPoint, o.abi, o.mode, o.hostFeatures,
                       at, |c.regions|, at + |p.regions|, |c.registers|, at + |p.regions| + |p.registers|, |c.blocks|,
                       at + |p.regions| + |p.registers| + |p.blocks|, |c.environment|]
  {
    hide Pack, Unpack;
    var fields := HeaderFields(c, p);
    var header := Pack(fields).value;
    HeaderLength(c, p);
    HeaderShape(c, p);
    UnpackPack(fields, p.regions + p.registers + p.blocks + p.environment);
    Assoc(header, p.regions, p.registers);
    Assoc(header, p.regions + p.registers, p.blocks);
    Assoc(header, p.regions + p.registers + p.blocks, p.environment);
  }

  lemma HeaderShape(c: Config, p: Parts)
    ensures Widths(HeaderFields(c, p)) == HEADER_WIDTHS
    ensures var o, at := c.options, HEADER_LENGTH;
      Values(HeaderFields(c, p)) ==
        [o.match', o.ignore, o.stackSize, o.entryPoint, o.abi, o.mode, o.hostFeatures,
         at, |c.regions|, at + |p.regions|, |c.registers|, at + |p.regions| + |p.registers|, |c.blocks|,
         at + |p.regions| + |p.registers| + |p.blocks|, |c.environment|]
  {
  }

  lemma HeaderLength(c: Config, p: Parts)
    requires Pack(HeaderFields(c, p)).Some?
    ensures |Pack(HeaderFields(c, p)).value| == HEADER_LENGTH
  {
    var fields := HeaderFields(c, p);
    assert fields == fields[..4] + fields[4..];
    PackAppend(fields[..4], fields[4..]);
    EqualWidths(fields[..4], 8);
    EqualWidths(fields[4..], 4);
  }

  lemma {:induction false} EqualWidths(fields: seq<Field>, w: nat)
    requires Pack(fields).Some? && forall k :: 0 <= k < |fields| ==> fields[k].width == w
    ensures |Pack(fields).value| == w * |fields|
  {
    hide Encode;
    if fields != [] {
      EqualWidths(fields[1..], w);
      assert w * |fields| == w + w * (|fields| - 1);
    }
  }

  // ---- which configurations can be written ----

  predicate RegionFits(r: Region) {
    0 <= r.address < TWO64 && 0 <= r.size < TWO64
  }

  predicate RegisterFits(r: Register) {
    0 <= r.key < TWO64 && |r.values| < TWO32 && forall k :: 0 <= k < |r.values| ==> 0 <= r.values[k] < TWO64
  }

  predicate BlockFits(b: Block) {
    0 <= b.address < TWO64 && |b.data| < TWO32
  }

  predicate OptionsFit(o: Options) {
    && 0 <= o.match' < TWO64 && 0 <= o.ignore < TWO64 && 0 <= o.stackSize < TWO64 && 0 <= o.entryPoint < TWO64
    && 0 <= o.abi < TWO32 && 0 <= o.mode < TWO32 && 0 <= o.hostFeatures < TWO32
  }

  function RegistersSize(rs: seq<Register>): nat {
    if rs == [] then 0 else 12 + 8 * |rs[0].values| + RegistersSize(rs[1..])
  }

  function BlocksSize(bs: seq<Block>): nat {
    if bs == [] then 0 else 12 + |bs[0].data| + BlocksSize(bs[1..])
  }

  /** Where the environment starts, the last of the header's offsets. */
  function EnvironmentOffset(c: Config): nat {
    HEADER_LENGTH + 16 * |c.regions| + RegistersSize(c.registers) + BlocksSize(c.blocks)
  }

  lemma FieldFitsIff(f: Field)
    ensures f.width == 4 ==> (FieldFits(f) <==> 0 <= f.value < TWO32)
    ensures f.width == 8 ==> (FieldFits(f) <==> 0 <= f.value < TWO64)
  {
    hide Pow2;
    Pow2Known();
  }

  lemma {:induction false} RegionsWriteIff(rs: seq<Region>)
    ensures WriteRegions(rs).Some? <==> forall k :: 0 <= k < |rs| ==> RegionFits(rs[k])
    ensures WriteRegions(rs).Some? ==> |WriteRegions(rs).value| == 16 * |rs|
  {
    hide FieldFits, Pack;
    if rs != [] {
      RegionsWriteIff(rs[1..]);
      assert rs == [rs[0]] + rs[1..];
      var fields := RegionFields(rs[0]);
      PackWhen(fields);
      FieldFitsIff(fields[0]);
      FieldFitsIff(fields[1]);
      if Pack(fields).Some? { EqualWidths(fields, 8); }
    }
  }

  lemma LongsWriteIff(values: seq<int>)
    ensures Pack(Longs(values)).Some? <==> forall k :: 0 <= k < |values| ==> 0 <= values[k] < TWO64
    ensures Pack(Longs(values)).Some? ==> |Pack(Longs(values)).value| == 8 * |values|
  {
    hide FieldFits, Pack;
    var longs := Longs(values);
    PackWhen(longs);
    forall k | 0 <= k < |longs| ensures FieldFits(longs[k]) <==> 0 <= values[k] < TWO64 {
      FieldFitsIff(longs[k]);
    }
    if Pack(longs).Some? { EqualWidths(longs, 8); }
  }

  lemma PairWritesIff(a: Field, b: Field)
    ensures Pack([a, b]).Some? <==> FieldFits(a) && FieldFits(b)
    ensures Pack([a, b]).Some? ==> |Pack([a, b]).value| == a.width + b.width
  {
    hide FieldFits, Pack;
    PackWhen([a]);
    PackWhen([b]);
    PackAppend([a], [b]);
    assert [a, b] == [a] + [b] && [a][0] == a && [b][0] == b;
    if Pack([a, b]).Some? {
      EqualWidths([a], a.width);
      EqualWidths([b], b.width);
    }
  }

  lemma RegisterWritesIff(r: Register)
    ensures Pack(RegisterFields(r)).Some? <==> RegisterFits(r)
    ensures RegisterFits(r) ==> |Pack(RegisterFields(r)).value| == 12 + 8 * |r.values|
  {
    hide FieldFits, Pack;
    var count, key := Field(4, |r.values|), Field(8, r.key);
    PackAppend([count, key], Longs(r.values));
    PairWritesIff(count, key);
    LongsWriteIff(r.values);
    FieldFitsIff(count);
    FieldFitsIff(key);
  }

  lemma {:induction false} RegistersWriteIff(rs: seq<Register>)
    ensures WriteRegisters(rs).Some? <==> forall k :: 0 <= k < |rs| ==> RegisterFits(rs[k])
    ensures WriteRegisters(rs).Some? ==> |WriteRegisters(rs).value| == RegistersSize(rs)
  {
    hide Pack, RegisterFits, RegisterFields;
    if rs != [] {
      RegistersWriteIff(rs[1..]);
      RegisterWritesIff(rs[0]);
      assert rs == [rs[0]] + rs[1..];
    }
  }

  lemma BlockWritesIff(b: Block)
    ensures WriteBlock(b).Some? <==> BlockFits(b)
    ensures BlockFits(b) ==> |WriteBlock(b).value| == 12 + |b.data|
  {
    hide FieldFits, Pack;
    var address, count := Field(8, b.address), Field(4, |b.data|);
    PairWritesIff(address, count);
    FieldFitsIff(address);
    FieldFitsIff(count);
  }

  lemma {:induction false} BlocksWriteIff(bs: seq<Block>)
    ensures WriteBlocks(bs).Some? <==> forall k :: 0 <= k < |bs| ==> BlockFits(bs[k])
    ensures WriteBlocks(bs).Some? ==> |WriteBlocks(bs).value| == BlocksSize(bs)
  {
    hide WriteBlock, BlockFits;
    if bs != [] {
      BlocksWriteIff(bs[1..]);
      BlockWritesIff(bs[0]);
      assert bs == [bs[0]] + bs[1..];
    }
  }

  lemma HeaderWritesIff(c: Config, p: Parts)
    requires |p.regions| == 16 * |c.regions|
    requires |p.registers| == RegistersSize(c.registers) && |p.blocks| == BlocksSize(c.blocks)
    ensures Pack(HeaderFields(c, p)).Some? <==>
      && OptionsFit(c.options) && |c.registers| < TWO32 && |c.blocks| < TWO32 && |c.environment| < TWO32
      && EnvironmentOffset(c) < TWO32
  {
    hide FieldFits, Pack, RegistersSize, BlocksSize;
    var fields := HeaderFields(c, p);
    PackWhen(fields);
    forall k | 0 <= k < 15 ensures FieldFits(fields[k]) <==> 0 <= fields[k].value < if k < 4 then TWO64 else TWO32 {
      FieldFitsIff(fields[k]);
    }
    var o := c.options;
    assert Pack(fields).Some? ==> OptionsFit(o) by {
      assert fields[0].value == o.match' && fields[1].value == o.ignore && fields[2].value == o.stackSize;
      assert fields[3].value == o.entryPoint && fields[4].value == o.abi && fields[5].value == o.mode;
      assert fields[6].value == o.hostFeatures;
    }
    assert fields[10].value == |c.registers| && fields[12].value == |c.blocks|;
    assert fields[13].value == EnvironmentOffset(c) && fields[14].value == |c.environment|;
  }

  lemma CountsBelowSizes(c: Config)
    ensures 12 * |c.registers| <= RegistersSize(c.registers) && 12 * |c.blocks| <= BlocksSize(c.blocks)
  {
    RegistersBelowSize(c.registers);
    BlocksBelowSize(c.blocks);
  }

  lemma {:induction false} RegistersBelowSize(rs: seq<Register>)
    ensures 12 * |rs| <= RegistersSize(rs)
  {
    if rs != [] { RegistersBelowSize(rs[1..]); }
  }

  lemma {:induction false} BlocksBelowSize(bs: seq<Block>)
    ensures 12 * |bs| <= BlocksSize(bs)
  {
    if bs != [] { BlocksBelowSize(bs[1..]); }
  }

  /** Writing succeeds exactly when every number of the configuration is below its field's power of two, the
      environment starts below 2^32, and it has fewer than 2^32 variables. The other counts and offsets are below
      that start, so they need no condition of their own. */
  lemma WritesIff(c: Config)
    ensures Write(c).Some? <==>
      && OptionsFit(c.options)
      && (forall k :: 0 <= k < |c.regions| ==> RegionFits(c.regions[k]))
      && (forall k :: 0 <= k < |c.registers| ==> RegisterFits(c.registers[k]))
      && (forall k :: 0 <= k < |c.blocks| ==> BlockFits(c.blocks[k]))
      && EnvironmentOffset(c) < TWO32 && |c.environment| < TWO32
  {
    hide FieldFits, Pack, WriteRegions, WriteRegisters, WriteBlocks, WriteEnvironment, HeaderFields;
    hide OptionsFit, RegionFits, RegisterFits, BlockFits, RegistersSize, BlocksSize;
    RegionsWriteIff(c.regions);
    RegistersWriteIff(c.registers);
    BlocksWriteIff(c.blocks);
    CountsBelowSizes(c);
    if PartsOf(c).Some? { HeaderWritesIff(c, PartsOf(c).value); }
  }
}
