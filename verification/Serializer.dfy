/**
 The binary form of a function in src/lir/serializer.cpp: little-endian words, a name and 17 bytes for
 each instruction. A read past the end of the buffer yields None.
 */
module Serializers {

  import opened Common
  import opened Lir

  type Byte = x: int | 0 <= x < 256

  datatype AbiType = I32 | I64 | F64 | Bool | Ptr | Void

  datatype Location = Location(file: seq<Byte>, line: U32, column: U32)

  /** What an instruction carries beyond its op and words: none of it is written. */
  datatype Extra = Extra(resultType: AbiType, typeA: AbiType, typeB: AbiType, constVal: nat, callee: seq<Byte>,
                         typeName: seq<Byte>, args: seq<U32>, argTypes: seq<AbiType>, comment: seq<Byte>, loc: Location)

  /** What a reader's constructor puts there instead. */
  const NO_EXTRA := Extra(Void, Void, Void, 0, [], [], [], [], [], Location([], 0, 0))

  /**
   What a function carries beyond its name, counts and instructions, of which nothing is written either. Language
   types, the flow graph and debug information are told apart by number only; a new function has number 0.
   */
  datatype Unwritten = Unwritten(variables: map<seq<Byte>, U32>, registerTypes: map<U32, AbiType>,
                                 languageTypes: map<U32, nat>, peephole: bool, constFold: bool, deadCode: bool,
                                 graph: nat, debugInfo: nat)

  /** What the constructor of a function leaves there. */
  const NEW_FUNCTION := Unwritten(map[], map[], map[], false, false, false, 0, 0)

  datatype Instruction = Instruction(op: Byte, dst: U32, a: U32, b: U32, imm: U32, extra: Extra)

  datatype Function = Function(name: seq<Byte>, paramCount: U32, registerCount: U32, instructions: seq<Instruction>,
                               unwritten: Unwritten)

  function Truncated(n: nat): U32 {
    n % 0x1_0000_0000
  }

  /** 256 to the power k. */
  function Base(k: nat): nat {
    if k == 0 then 1 else 256 * Base(k - 1)
  }

  /** The k low bytes of n, the lowest first. */
  function LeBytes(n: nat, k: nat): (r: seq<Byte>)
    ensures |r| == k
    decreases k, n
  {
    if k == 0 then [] else [n % 256] + LeBytes(n / 256, k - 1)
  }

  function FromLe(b: seq<Byte>): (r: nat)
    ensures r < Base(|b|)
  {
    if b == [] then 0
    else
      var low: nat := b[0];
      low + 256 * FromLe(b[1..])
  }

  function Le32(n: U32): (r: seq<Byte>)
    ensures |r| == 4
  {
    LeBytes(n, 4)
  }

  function FromLe32(b: seq<Byte>): U32
    requires |b| == 4
  {
    assert Base(4) == 0x1_0000_0000;
    FromLe(b)
  }

  function InstBytes(i: Instruction): (r: seq<Byte>)
    ensures |r| == 17
  {
    [i.op] + Le32(i.dst) + Le32(i.a) + Le32(i.b) + Le32(i.imm)
  }

  function InstsBytes(s: seq<Instruction>): seq<Byte> {
    if s == [] then [] else InstBytes(s[0]) + InstsBytes(s[1..])
  }

  function Header(f: Function): seq<Byte> {
    Le32(Truncated(|f.name|)) + f.name + Le32(f.paramCount) + Le32(f.registerCount) + Le32(Truncated(|f.instructions|))
  }

  function Encoded(f: Function): seq<Byte> {
    Header(f) + InstsBytes(f.instructions)
  }

  function ReadWord(buffer: seq<Byte>, offset: nat): Option<U32> {
    if offset + 4 <= |buffer| then Some(FromLe32(buffer[offset..offset + 4])) else None
  }

  function ReadInst(buffer: seq<Byte>, offset: nat): Option<Instruction> {
    if offset + 17 <= |buffer| then
      Some(Instruction(buffer[offset], FromLe32(buffer[offset + 1..offset + 5]), FromLe32(buffer[offset + 5..offset + 9]),
                       FromLe32(buffer[offset + 9..offset + 13]), FromLe32(buffer[offset + 13..offset + 17]), NO_EXTRA))
    else None
  }

  function ReadInsts(buffer: seq<Byte>, offset: nat, count: nat): Option<seq<Instruction>>
    decreases count
  {
    if count == 0 then Some([])
    else
      match ReadInst(buffer, offset)
      case None => None
      case Some(i) =>
        match ReadInsts(buffer, offset + 17, count - 1)
        case None => None
        case Some(rest) => Some([i] + rest)
  }

  /** The function read from the front of the buffer, and the number of bytes it took. */
  function Decoded(buffer: seq<Byte>): Option<(Function, nat)> {
    match ReadWord(buffer, 0)
    case None => None
    case Some(len) =>
      match (ReadWord(buffer, 4 + len), ReadWord(buffer, 8 + len), ReadWord(buffer, 12 + len))
      case (Some(params), Some(registers), Some(count)) =>
        (match ReadInsts(buffer, 16 + len, count)
         case None => None
         case Some(insts) => Some((Function(buffer[4..4 + len], params, registers, insts, NEW_FUNCTION), 16 + len + 17 * count)))
      case _ => None
  }

  /** The lengths fit the words they are written to. */
  predicate Fits(f: Function) {
    |f.name| < 0x1_0000_0000 && |f.instructions| < 0x1_0000_0000
  }

  function Stripped(s: seq<Instruction>): (r: seq<Instruction>)
    ensures |r| == |s|
  {
    if s == [] then [] else [s[0].(extra := NO_EXTRA)] + Stripped(s[1..])
  }

  /** A function as it comes back: the written parts, and what the constructors put in place of the rest. */
  function AsRead(f: Function): Function {
    f.(instructions := Stripped(f.instructions), unwritten := NEW_FUNCTION)
  }

  predicate CarriesNothing(f: Function) {
    f.unwritten == NEW_FUNCTION && forall i | 0 <= i < |f.instructions| :: f.instructions[i].extra == NO_EXTRA
  }

  // ---------- Words ----------

  /** A length too long for its word loses its high bits. */
  lemma LowBitsStay(n: nat)
    ensures (n - Truncated(n)) % 0x1_0000_0000 == 0 && (n < 0x1_0000_0000 ==> Truncated(n) == n)
  {
  }

  lemma {:induction false} LeRoundTrip(n: nat, k: nat)
    requires n < Base(k)
    ensures FromLe(LeBytes(n, k)) == n
    decreases k
  {
    if k > 0 {
      LeRoundTrip(n / 256, k - 1);
      assert LeBytes(n, k)[1..] == LeBytes(n / 256, k - 1);
    }
  }

  lemma {:induction false} BytesRoundTrip(b: seq<Byte>)
    ensures LeBytes(FromLe(b), |b|) == b
  {
    if b != [] {
      BytesRoundTrip(b[1..]);
      LowAndHigh(b[0], FromLe(b[1..]));
    }
  }

  lemma LowAndHigh(low: nat, high: nat)
    requires low < 256
    ensures (low + 256 * high) % 256 == low && (low + 256 * high) / 256 == high
  {
  }

  lemma WordRoundTrip(n: U32)
    ensures FromLe32(Le32(n)) == n
  {
    assert Base(4) == 0x1_0000_0000;
    LeRoundTrip(n, 4);
  }

  /** The bytes s stand at that offset of the buffer. */
  predicate At(buffer: seq<Byte>, offset: nat, s: seq<Byte>) {
    offset + |s| <= |buffer| && buffer[offset..offset + |s|] == s
  }

  lemma AtParts(buffer: seq<Byte>, offset: nat, s: seq<Byte>, t: seq<Byte>)
    ensures At(buffer, offset, s + t) <==> At(buffer, offset, s) && At(buffer, offset + |s|, t)
  {
    if At(buffer, offset, s + t) {
      assert buffer[offset..offset + |s|] == (s + t)[..|s|];
      assert buffer[offset + |s|..offset + |s| + |t|] == (s + t)[|s|..];
    }
  }

  lemma ReadWordAt(buffer: seq<Byte>, offset: nat, n: U32)
    ensures At(buffer, offset, Le32(n)) <==> ReadWord(buffer, offset) == Some(n)
  {
    WordRoundTrip(n);
    if offset + 4 <= |buffer| {
      BytesRoundTrip(buffer[offset..offset + 4]);
    }
  }

  /** Words stand with their lowest byte first. */
  lemma LowestByteFirst(b: seq<Byte>)
    requires |b| == 4
    ensures FromLe32(b) == b[0] as int + 0x100 * b[1] as int + 0x1_0000 * b[2] as int + 0x100_0000 * b[3] as int
  {
    assert b[1..][1..] == b[2..] && b[2..][1..] == b[3..] && b[3..][1..] == [];
    assert FromLe(b[3..]) == b[3] as int + 256 * FromLe([]);
    assert FromLe(b[2..]) == b[2] as int + 256 * FromLe(b[3..]);
    assert FromLe(b[1..]) == b[1] as int + 256 * FromLe(b[2..]);
  }

  // ---------- Instructions ----------

  /** Op, destination, operands and immediate, in that order. */
  lemma FieldsInOrder(i: Instruction)
    ensures var b := InstBytes(i);
            && b[0] == i.op && FromLe32(b[1..5]) == i.dst && FromLe32(b[5..9]) == i.a
            && FromLe32(b[9..13]) == i.b && FromLe32(b[13..17]) == i.imm
  {
    var b := InstBytes(i);
    WordRoundTrip(i.dst);
    WordRoundTrip(i.a);
    WordRoundTrip(i.b);
    WordRoundTrip(i.imm);
    assert b[1..5] == Le32(i.dst) && b[5..9] == Le32(i.a) && b[9..13] == Le32(i.b) && b[13..17] == Le32(i.imm);
  }

  lemma {:induction false} InstsLength(s: seq<Instruction>)
    ensures |InstsBytes(s)| == 17 * |s|
  {
    if s != [] {
      InstsLength(s[1..]);
    }
  }

  /** An instruction is read from an offset exactly when its bytes stand there. */
  lemma ReadInstAt(buffer: seq<Byte>, offset: nat, i: Instruction)
    requires i.extra == NO_EXTRA
    ensures At(buffer, offset, InstBytes(i)) <==> ReadInst(buffer, offset) == Some(i)
  {
    var w0, w1, w2, w3 := Le32(i.dst), Le32(i.a), Le32(i.b), Le32(i.imm);
    AtParts(buffer, offset, [i.op] + w0 + w1 + w2, w3);
    AtParts(buffer, offset, [i.op] + w0 + w1, w2);
    AtParts(buffer, offset, [i.op] + w0, w1);
    AtParts(buffer, offset, [i.op], w0);
    ReadWordAt(buffer, offset + 1, i.dst);
    ReadWordAt(buffer, offset + 5, i.a);
    ReadWordAt(buffer, offset + 9, i.b);
    ReadWordAt(buffer, offset + 13, i.imm);
  }

  /** Reading as many instructions as were written gives them back, less what they carried. */
  lemma {:induction false} ReadInstsAt(buffer: seq<Byte>, offset: nat, s: seq<Instruction>)
    requires At(buffer, offset, InstsBytes(s))
    ensures ReadInsts(buffer, offset, |s|) == Some(Stripped(s))
    decreases |s|
  {
    if s != [] {
      AtParts(buffer, offset, InstBytes(s[0]), InstsBytes(s[1..]));
      ReadInstAt(buffer, offset, s[0].(extra := NO_EXTRA));
      ReadInstsAt(buffer, offset + 17, s[1..]);
    }
  }

  lemma {:induction false} WriteInstsAt(buffer: seq<Byte>, offset: nat, count: nat)
    requires offset <= |buffer| && ReadInsts(buffer, offset, count).Some?
    ensures var s := ReadInsts(buffer, offset, count).value;
            && |s| == count && At(buffer, offset, InstsBytes(s))
            && forall i | 0 <= i < count :: s[i].extra == NO_EXTRA
    decreases count
  {
    if count > 0 {
      var i := ReadInst(buffer, offset).value;
      ReadInstAt(buffer, offset, i);
      WriteInstsAt(buffer, offset + 17, count - 1);
      var rest := ReadInsts(buffer, offset + 17, count - 1).value;
      assert ([i] + rest)[1..] == rest;
      AtParts(buffer, offset, InstBytes(i), InstsBytes(rest));
    }
  }

  // ---------- Functions ----------

  lemma FivePartsAt(buffer: seq<Byte>, w0: seq<Byte>, name: seq<Byte>, w1: seq<Byte>, w2: seq<Byte>, w3: seq<Byte>)
    requires |w0| == 4 && |w1| == 4 && |w2| == 4
    ensures At(buffer, 0, w0 + name + w1 + w2 + w3) <==>
              && At(buffer, 0, w0) && At(buffer, 4, name) && At(buffer, 4 + |name|, w1)
              && At(buffer, 8 + |name|, w2) && At(buffer, 12 + |name|, w3)
  {
    AtParts(buffer, 0, w0 + name + w1 + w2, w3);
    AtParts(buffer, 0, w0 + name + w1, w2);
    AtParts(buffer, 0, w0 + name, w1);
    AtParts(buffer, 0, w0, name);
  }

  lemma HeaderAt(buffer: seq<Byte>, f: Function)
    requires Fits(f)
    ensures var len := |f.name|;
            At(buffer, 0, Header(f)) <==>
              && ReadWord(buffer, 0) == Some(len) && At(buffer, 4, f.name)
              && ReadWord(buffer, 4 + len) == Some(f.paramCount)
              && ReadWord(buffer, 8 + len) == Some(f.registerCount)
              && ReadWord(buffer, 12 + len) == Some(|f.instructions|)
  {
    var len: U32, count: U32 := |f.name|, |f.instructions|;
    var w0, w1, w2, w3 := Le32(len), Le32(f.paramCount), Le32(f.registerCount), Le32(count);
    assert Truncated(len) == len && Truncated(count) == count;
    assert Header(f) == w0 + f.name + w1 + w2 + w3;
    FivePartsAt(buffer, w0, f.name, w1, w2, w3);
    ReadWordAt(buffer, 0, len);
    ReadWordAt(buffer, 4 + len, f.paramCount);
    ReadWordAt(buffer, 8 + len, f.registerCount);
    ReadWordAt(buffer, 12 + len, count);
  }

  lemma DecodedFrom(buffer: seq<Byte>, f: Function)
    requires Fits(f) && At(buffer, 0, Header(f)) && f.unwritten == NEW_FUNCTION
    requires ReadInsts(buffer, 16 + |f.name|, |f.instructions|) == Some(f.instructions)
    ensures Decoded(buffer) == Some((f, 16 + |f.name| + 17 * |f.instructions|))
  {
    HeaderAt(buffer, f);
  }

  /** Whatever follows it, a function that fits is read back, and reading takes exactly the bytes written. */
  lemma RoundTrip(f: Function, post: seq<Byte>)
    requires Fits(f)
    ensures Decoded(Encoded(f) + post) == Some((AsRead(f), |Encoded(f)|))
  {
    assert At(Encoded(f) + post, 0, Encoded(f));
    ReadsBack(Encoded(f) + post, f);
  }

  lemma ReadsBack(buffer: seq<Byte>, f: Function)
    requires Fits(f) && At(buffer, 0, Encoded(f))
    ensures Decoded(buffer) == Some((AsRead(f), |Encoded(f)|))
  {
    EncodedLength(f);
    InstsReadBack(buffer, f);
    AsReadParts(f, AsRead(f));
    DecodedFrom(buffer, AsRead(f));
  }

  lemma InstsReadBack(buffer: seq<Byte>, f: Function)
    requires At(buffer, 0, Encoded(f))
    ensures At(buffer, 0, Header(f))
    ensures ReadInsts(buffer, 16 + |f.name|, |f.instructions|) == Some(Stripped(f.instructions))
  {
    EncodedLength(f);
    AtParts(buffer, 0, Header(f), InstsBytes(f.instructions));
    ReadInstsAt(buffer, |Header(f)|, f.instructions);
  }

  /** Length of the name, name, parameters, registers, number of instructions, then the instructions, 17 bytes each. */
  lemma PartsInOrder(f: Function, k: nat)
    requires Fits(f) && k < |f.instructions|
    ensures var e, n := Encoded(f), |f.name|;
            && |e| == 16 + n + 17 * |f.instructions|
            && FromLe32(e[..4]) == n && e[4..4 + n] == f.name && FromLe32(e[4 + n..8 + n]) == f.paramCount
            && FromLe32(e[8 + n..12 + n]) == f.registerCount && FromLe32(e[12 + n..16 + n]) == |f.instructions|
            && e[16 + n + 17 * k..33 + n + 17 * k] == InstBytes(f.instructions[k])
  {
    EncodedLength(f);
    AtParts(Encoded(f), 0, Header(f), InstsBytes(f.instructions));
    HeaderInOrder(f, Encoded(f));
    InstInOrder(f, k, Encoded(f), InstsBytes(f.instructions));
  }

  lemma HeaderInOrder(f: Function, e: seq<Byte>)
    requires Fits(f) && |e| >= 16 + |f.name| && At(e, 0, Header(f))
    ensures var n := |f.name|;
            && FromLe32(e[..4]) == n && e[4..4 + n] == f.name && FromLe32(e[4 + n..8 + n]) == f.paramCount
            && FromLe32(e[8 + n..12 + n]) == f.registerCount && FromLe32(e[12 + n..16 + n]) == |f.instructions|
  {
    HeaderAt(e, f);
    assert e[0..4] == e[..4];
  }

  lemma InstInOrder(f: Function, k: nat, e: seq<Byte>, insts: seq<Byte>)
    requires k < |f.instructions| && insts == InstsBytes(f.instructions) && |e| == 16 + |f.name| + |insts|
    requires At(e, 16 + |f.name|, insts)
    ensures var n := |f.name|;
            33 + n + 17 * k <= |e| && e[16 + n + 17 * k..33 + n + 17 * k] == InstBytes(f.instructions[k])
  {
    InstAt(f.instructions, k);
    SliceOfSlice(e, 16 + |f.name|, 16 + |f.name| + |insts|, 17 * k, 17 * k + 17);
  }

  lemma SliceOfSlice(e: seq<Byte>, lo: nat, hi: nat, from: nat, to: nat)
    requires lo <= hi <= |e| && from <= to <= hi - lo
    ensures e[lo..hi][from..to] == e[lo + from..lo + to]
  {
    var a, b := e[lo..hi][from..to], e[lo + from..lo + to];
    forall i | 0 <= i < to - from ensures a[i] == b[i] {
      assert a[i] == e[lo..hi][from + i] == e[lo + (from + i)];
    }
  }

  lemma {:induction false} InstAt(s: seq<Instruction>, k: nat)
    requires k < |s|
    ensures |InstsBytes(s)| == 17 * |s| && InstsBytes(s)[17 * k..17 * k + 17] == InstBytes(s[k])
  {
    InstsLength(s);
    if k > 0 {
      InstAt(s[1..], k - 1);
      assert InstsBytes(s)[17..] == InstsBytes(s[1..]);
      assert InstsBytes(s)[17 * k..17 * k + 17] == InstsBytes(s)[17..][17 * (k - 1)..17 * (k - 1) + 17];
    }
  }

  lemma EncodedLength(f: Function)
    ensures |Header(f)| == 16 + |f.name| && |Encoded(f)| == 16 + |f.name| + 17 * |f.instructions|
  {
    InstsLength(f.instructions);
  }

  lemma AsReadParts(f: Function, g: Function)
    requires g == AsRead(f)
    ensures g.name == f.name && g.instructions == Stripped(f.instructions) && |g.instructions| == |f.instructions|
    ensures Header(g) == Header(f) && g.unwritten == NEW_FUNCTION && (Fits(g) <==> Fits(f))
  {
  }

  /** Whatever is read was written: the bytes taken are the serialized form of the result, which fits. */
  lemma ReadIsWritten(buffer: seq<Byte>)
    requires Decoded(buffer).Some?
    ensures var (f, n) := Decoded(buffer).value;
            Fits(f) && CarriesNothing(f) && n <= |buffer| && Encoded(f) == buffer[..n]
  {
    var (f, n) := Decoded(buffer).value;
    WriteInstsAt(buffer, 16 + |f.name|, ReadWord(buffer, 12 + |f.name|).value);
    HeaderAt(buffer, f);
    AtParts(buffer, 0, Header(f), InstsBytes(f.instructions));
    InstsLength(f.instructions);
  }

  lemma {:induction false} StrippedSame(s: seq<Instruction>)
    ensures Stripped(s) == s <==> forall i | 0 <= i < |s| :: s[i].extra == NO_EXTRA
  {
    if s != [] {
      StrippedSame(s[1..]);
      assert s == [s[0]] + s[1..];
      assert Stripped(s)[0] == s[0].(extra := NO_EXTRA) && Stripped(s)[1..] == Stripped(s[1..]);
    }
  }

  /** Reading undoes writing exactly for functions whose lengths fit and that carry nothing that is not written. */
  lemma RoundTripExactCondition(f: Function)
    ensures Decoded(Encoded(f)) == Some((f, |Encoded(f)|)) <==> Fits(f) && CarriesNothing(f)
  {
    if Fits(f) {
      RoundTrip(f, []);
      assert Encoded(f) + [] == Encoded(f);
      StrippedSame(f.instructions);
    } else if Decoded(Encoded(f)).Some? {
      ReadIsWritten(Encoded(f));
    }
  }

  /** A typed instruction comes back untyped. */
  lemma TypesAreLost(f: Function, i: nat)
    requires Fits(f) && i < |f.instructions| && f.instructions[i].extra.resultType != Void
    ensures Decoded(Encoded(f)).Some? && Decoded(Encoded(f)) != Some((f, |Encoded(f)|))
  {
    RoundTripExactCondition(f);
    RoundTripExactLength(f);
  }

  lemma RoundTripExactLength(f: Function)
    requires Fits(f)
    ensures Decoded(Encoded(f)).Some? && Decoded(Encoded(f)).value.1 == |Encoded(f)|
  {
    RoundTrip(f, []);
    assert Encoded(f) + [] == Encoded(f);
  }

  /** No serialized function is the beginning of another; cut short, it makes the reader run past the end. */
  lemma CutShort(f: Function, k: nat)
    requires Fits(f) && k < |Encoded(f)|
    ensures Decoded(Encoded(f)[..k]) == None
  {
    var whole, part := Encoded(f), Encoded(f)[..k];
    if Decoded(part).Some? {
      var (g, n) := Decoded(part).value;
      ReadIsWritten(part);
      RoundTrip(g, whole[n..]);
      assert Encoded(g) + whole[n..] == whole;
      assert Decoded(whole).value.1 == n < |whole|;
      RoundTripExactLength(f);
    }
  }

  // ---------- The loops ----------

  class Serializer {
    static method Serialize(func: Function) returns (buffer: seq<Byte>)
      ensures buffer == Encoded(func)
    {
      buffer := Le32(Truncated(|func.name|)) + func.name;
      buffer := buffer + Le32(func.paramCount);
      buffer := buffer + Le32(func.registerCount);
      buffer := buffer + Le32(Truncated(|func.instructions|));
      var i := 0;
      while i < |func.instructions|
        invariant i <= |func.instructions|
        invariant buffer + InstsBytes(func.instructions[i..]) == Encoded(func)
      {
        var inst := func.instructions[i];
        assert func.instructions[i..][1..] == func.instructions[i + 1..];
        AppendParts(buffer, [inst.op], Le32(inst.dst), Le32(inst.a), Le32(inst.b), Le32(inst.imm));
        buffer := buffer + [inst.op];
        buffer := buffer + Le32(inst.dst) + Le32(inst.a) + Le32(inst.b) + Le32(inst.imm);
        i := i + 1;
      }
      assert buffer + [] == buffer;
    }

    static method Deserialize(buffer: seq<Byte>) returns (r: Option<(Function, nat)>)
      ensures r == Decoded(buffer)
    {
      var offset := 0;
      if offset + 4 > |buffer| { return None; }
      var nameLen: nat := FromLe32(buffer[offset..offset + 4]);
      offset := offset + 4;
      if offset + nameLen + 12 > |buffer| { return None; }
      var name := buffer[offset..offset + nameLen];
      offset := offset + nameLen;
      var paramCount := FromLe32(buffer[offset..offset + 4]);
      offset := offset + 4;
      var registerCount := FromLe32(buffer[offset..offset + 4]);
      offset := offset + 4;
      var instCount: nat := FromLe32(buffer[offset..offset + 4]);
      offset := offset + 4;
      var instructions := DeserializeInstructions(buffer, offset, instCount);
      if instructions == None { return None; }
      offset := offset + 17 * instCount;
      return Some((Function(name, paramCount, registerCount, instructions.value, NEW_FUNCTION), offset));
    }

    static method DeserializeInstructions(buffer: seq<Byte>, start: nat, instCount: nat)
        returns (r: Option<seq<Instruction>>)
      ensures r == ReadInsts(buffer, start, instCount)
    {
      var offset: nat := start;
      var instructions: seq<Instruction>, i := [], 0;
      ghost var all := ReadInsts(buffer, offset, instCount);
      assert all.Some? ==> [] + all.value == all.value;
      while i < instCount
        invariant i <= instCount
        invariant all == Prepended(instructions, ReadInsts(buffer, offset, instCount - i))
      {
        if offset + 17 > |buffer| { return None; }
        var inst := ReadInst(buffer, offset).value;
        PrependOne(instructions, inst, ReadInsts(buffer, offset + 17, instCount - i - 1));
        instructions := instructions + [inst];
        offset := offset + 17;
        i := i + 1;
      }
      assert instructions + [] == instructions;
      return Some(instructions);
    }
  }

  lemma AppendParts(buffer: seq<Byte>, op: seq<Byte>, w0: seq<Byte>, w1: seq<Byte>, w2: seq<Byte>, w3: seq<Byte>)
    ensures buffer + op + w0 + w1 + w2 + w3 == buffer + (op + w0 + w1 + w2 + w3)
  {
  }

  function Prepended(s: seq<Instruction>, r: Option<seq<Instruction>>): Option<seq<Instruction>> {
    if r.None? then None else Some(s + r.value)
  }

  lemma PrependOne(s: seq<Instruction>, i: Instruction, r: Option<seq<Instruction>>)
    ensures Prepended(s, Prepended([i], r)) == Prepended(s + [i], r)
  {
    if r.Some? {
      assert s + ([i] + r.value) == s + [i] + r.value;
    }
  }
}
