/** The generated hash functions: GetHashFunction in be/src/codegen/llvm-codegen.cc, and the
    general loop they stand in for, CrcHash in be/src/util/hash-util.h. */
module HashCodegen {
  import opened Bytes
  import opened Crc32c

  // ----- straight-line programs -----

  datatype Operand = DataArg | SeedArg | Reg(index: nat)

  datatype Instr =
    | ZExt(value: Operand)                                   // 32 to 64 bits
    | Trunc(value: Operand)                                  // 64 to 32 bits
    | BitCast(pointer: Operand)
    | Gep(pointer: Operand, elementSize: nat, index: nat)
    | Load(pointer: Operand, bytes: nat)
    | CrcCall(bytes: nat, crc: Operand, operand: Operand)
    | Shl16(value: Operand)
    | LShr16(value: Operand)
    | Or(left: Operand, right: Operand)

  /** A program, instruction by instruction; instruction i leaves its result in register i. */
  datatype Code = Entry | Then(before: Code, instr: Instr)

  datatype RegValue = Number(bits: seq<bool>) | Pointer(offset: nat) | Undefined

  /** What the generated code finds: the seed, the memory and the crc32 instructions by operand size. */
  datatype Machine = Machine(seed: RegValue, load: (nat, nat) -> RegValue, crc: (nat, RegValue, RegValue) -> RegValue)

  function Size(code: Code): nat {
    match code
    case Entry => 0
    case Then(before, _) => Size(before) + 1
  }

  function Extended(x: RegValue): RegValue {
    if x.Number? && |x.bits| == 32 then Number(x.bits + Zeros(32)) else Undefined
  }

  function Truncated(x: RegValue): RegValue {
    if x.Number? && |x.bits| == 64 then Number(x.bits[..32]) else Undefined
  }

  function ShiftedLeft(x: RegValue): RegValue {
    if x.Number? && |x.bits| == 32 then Number(Zeros(16) + x.bits[..16]) else Undefined
  }

  function ShiftedRight(x: RegValue): RegValue {
    if x.Number? && |x.bits| == 32 then Number(x.bits[16..] + Zeros(16)) else Undefined
  }

  function Ored(x: RegValue, y: RegValue): RegValue {
    if x.Number? && y.Number? && |x.bits| == |y.bits|
    then Number(seq(|x.bits|, i requires 0 <= i < |x.bits| => x.bits[i] || y.bits[i])) else Undefined
  }

  /** The value of an operand after the code. */
  function ValueOf(v: Operand, code: Code, m: Machine): RegValue
    decreases code, 1
  {
    match v
    case DataArg => Pointer(0)
    case SeedArg => m.seed
    case Reg(i) =>
      match code
      case Entry => Undefined
      case Then(before, instr) => if i == Size(before) then Result(instr, before, m) else ValueOf(v, before, m)
  }

  /** The result of an instruction after the code. */
  function Result(i: Instr, code: Code, m: Machine): RegValue
    decreases code, 2
  {
    match i
    case ZExt(v) => Extended(ValueOf(v, code, m))
    case Trunc(v) => Truncated(ValueOf(v, code, m))
    case BitCast(p) => ValueOf(p, code, m)
    case Gep(p, size, index) =>
      var x := ValueOf(p, code, m);
      if x.Pointer? then Pointer(x.offset + size * index) else Undefined
    case Load(p, bytes) =>
      var x := ValueOf(p, code, m);
      if x.Pointer? then m.load(x.offset, bytes) else Undefined
    case CrcCall(bytes, c, d) => m.crc(bytes, ValueOf(c, code, m), ValueOf(d, code, m))
    case Shl16(v) => ShiftedLeft(ValueOf(v, code, m))
    case LShr16(v) => ShiftedRight(ValueOf(v, code, m))
    case Or(a, b) => Ored(ValueOf(a, code, m), ValueOf(b, code, m))
  }

  /** The offsets of the bytes that the program loads, in order. */
  function Loaded(code: Code, m: Machine): seq<nat> {
    match code
    case Entry => []
    case Then(before, Load(p, bytes)) =>
      var x := ValueOf(p, before, m);
      if x.Pointer? then Loaded(before, m) + Range(x.offset, bytes) else Loaded(before, m)
    case Then(before, _) => Loaded(before, m)
  }

  function Range(from: nat, n: nat): seq<nat> {
    seq(n, i requires 0 <= i < n => from + i)
  }

  predicate Defined(v: Operand, code: Code) {
    v.Reg? ==> v.index < Size(code)
  }

  /** An instruction leaves the operands and puts its result into a new register. */
  lemma Kept(code: Code, i: Instr, v: Operand, m: Machine)
    requires Defined(v, code)
    ensures ValueOf(v, Then(code, i), m) == ValueOf(v, code, m)
    ensures ValueOf(Reg(Size(code)), Then(code, i), m) == Result(i, code, m)
  {
  }

  // ----- the machine, seen through the hash of the bytes so far -----

  /** hash(k) is the CRC of the first k bytes: every chunk leads from one to the next. */
  ghost predicate Hashes(m: Machine, hash: nat -> RegValue, n: nat) {
    && m.seed == hash(0)
    && (forall k, bytes :: 0 <= k <= k + bytes <= n && bytes in {0, 1, 2, 4, 8} ==> HashesNext(m, hash, k, bytes))
  }

  predicate HashesNext(m: Machine, hash: nat -> RegValue, k: nat, bytes: nat) {
    && (bytes in {1, 2, 4} ==> m.crc(bytes, hash(k), m.load(k, bytes)) == hash(k + bytes))
    && (bytes == 8 ==> m.crc(8, Extended(hash(k)), m.load(k, 8)) == Extended(hash(k + 8)))
    && Truncated(Extended(hash(k))) == hash(k)
  }

  /** The code has hashed the first k bytes into `result`, loading each once; `pointer` is behind them. */
  ghost predicate HashedOn(code: Code, result: Operand, pointer: Operand, k: nat, m: Machine, hash: nat -> RegValue) {
    ValueOf(result, code, m) == hash(k) && ValueOf(pointer, code, m) == Pointer(k) && Loaded(code, m) == Range(0, k)
  }

  /** The same on every machine. */
  ghost predicate Hashed(code: Code, result: Operand, pointer: Operand, n: nat, k: nat) {
    && Defined(result, code) && Defined(pointer, code) && k <= n
    && forall m, hash :: Hashes(m, hash, n) ==> HashedOn(code, result, pointer, k, m, hash)
  }

  /** The code after a crc32 instruction on the next few bytes. */
  function Chunk(code: Code, result: Operand, pointer: Operand, bytes: nat): (c: Code)
    ensures Size(c) == Size(code) + 4
  {
    var n := Size(code);
    var loaded := Then(Then(code, BitCast(pointer)), Load(Reg(n), bytes));
    assert Size(loaded) == n + 2;
    Then(Then(loaded, CrcCall(bytes, result, Reg(n + 1))), Gep(pointer, 1, bytes))
  }

  lemma ChunkValues(code: Code, result: Operand, pointer: Operand, bytes: nat, k: nat, m: Machine)
    requires Defined(result, code) && Defined(pointer, code) && ValueOf(pointer, code, m) == Pointer(k)
    ensures var c := Chunk(code, result, pointer, bytes);
            && ValueOf(Reg(Size(code) + 2), c, m) == m.crc(bytes, ValueOf(result, code, m), m.load(k, bytes))
            && ValueOf(Reg(Size(code) + 3), c, m) == Pointer(k + bytes)
  {
    var n := Size(code);
    var i1, i2, i3 := BitCast(pointer), Load(Reg(n), bytes), CrcCall(bytes, result, Reg(n + 1));
    var c1 := Then(code, i1);
    var c2 := Then(c1, i2);
    var c3 := Then(c2, i3);
    Kept(code, i1, pointer, m);
    Kept(code, i1, result, m);
    Kept(c1, i2, pointer, m);
    Kept(c1, i2, result, m);
    Kept(c2, i3, pointer, m);
    Kept(c3, Gep(pointer, 1, bytes), Reg(n + 2), m);
  }

  lemma ChunkLoads(code: Code, result: Operand, pointer: Operand, bytes: nat, k: nat, m: Machine)
    requires Defined(pointer, code) && ValueOf(pointer, code, m) == Pointer(k)
    ensures Loaded(Chunk(code, result, pointer, bytes), m) == Loaded(code, m) + Range(k, bytes)
  {
    var n := Size(code);
    var c1 := Then(code, BitCast(pointer));
    Kept(code, BitCast(pointer), pointer, m);
    var c2 := Then(c1, Load(Reg(n), bytes));
    assert Loaded(c2, m) == Loaded(c1, m) + Range(k, bytes);
    assert Loaded(Then(c2, CrcCall(bytes, result, Reg(n + 1))), m) == Loaded(c2, m);
  }

  lemma RangeAppend(k: nat, bytes: nat)
    ensures Range(0, k) + Range(k, bytes) == Range(0, k + bytes)
  {
  }

  lemma ChunkHashes(code: Code, result: Operand, pointer: Operand, bytes: nat, n: nat, k: nat)
    requires bytes in {2, 4} && Hashed(code, result, pointer, n, k) && k + bytes <= n
    ensures Hashed(Chunk(code, result, pointer, bytes), Reg(Size(code) + 2), Reg(Size(code) + 3), n, k + bytes)
  {
    var c := Chunk(code, result, pointer, bytes);
    forall m, hash | Hashes(m, hash, n)
      ensures HashedOn(c, Reg(Size(code) + 2), Reg(Size(code) + 3), k + bytes, m, hash)
    {
      assert HashesNext(m, hash, k, bytes);
      ChunkValues(code, result, pointer, bytes, k, m);
      ChunkLoads(code, result, pointer, bytes, k, m);
      RangeAppend(k, bytes);
    }
  }

  /** The code has hashed all n bytes. */
  ghost predicate Finished(code: Code, result: Operand, n: nat) {
    Defined(result, code) && forall m, hash :: Hashes(m, hash, n) ==> FinishedOn(code, result, n, m, hash)
  }

  ghost predicate FinishedOn(code: Code, result: Operand, n: nat, m: Machine, hash: nat -> RegValue) {
    ValueOf(result, code, m) == hash(n) && Loaded(code, m) == Range(0, n)
  }

  /** The last byte. */
  function LastByte(code: Code, result: Operand, pointer: Operand): Code {
    Then(Then(code, Load(pointer, 1)), CrcCall(1, result, Reg(Size(code))))
  }

  lemma LastByteValues(code: Code, result: Operand, pointer: Operand, k: nat, m: Machine)
    requires Defined(result, code) && Defined(pointer, code) && ValueOf(pointer, code, m) == Pointer(k)
    ensures ValueOf(Reg(Size(code) + 1), LastByte(code, result, pointer), m) ==
            m.crc(1, ValueOf(result, code, m), m.load(k, 1))
  {
    Kept(code, Load(pointer, 1), result, m);
    Kept(Then(code, Load(pointer, 1)), CrcCall(1, result, Reg(Size(code))), result, m);
  }

  lemma LastByteLoads(code: Code, result: Operand, pointer: Operand, k: nat, m: Machine)
    requires ValueOf(pointer, code, m) == Pointer(k)
    ensures Loaded(LastByte(code, result, pointer), m) == Loaded(code, m) + Range(k, 1)
  {
    assert Loaded(Then(code, Load(pointer, 1)), m) == Loaded(code, m) + Range(k, 1);
  }

  lemma LastByteHashes(code: Code, result: Operand, pointer: Operand, n: nat)
    requires 0 < n && Hashed(code, result, pointer, n, n - 1)
    ensures Finished(LastByte(code, result, pointer), Reg(Size(code) + 1), n)
  {
    assert Size(LastByte(code, result, pointer)) == Size(Then(code, Load(pointer, 1))) + 1;
    forall m, hash | Hashes(m, hash, n)
      ensures FinishedOn(LastByte(code, result, pointer), Reg(Size(code) + 1), n, m, hash)
    {
      assert HashesNext(m, hash, n - 1, 1) && HashedOn(code, result, pointer, n - 1, m, hash);
      LastByteValues(code, result, pointer, n - 1, m);
      LastByteLoads(code, result, pointer, n - 1, m);
      RangeAppend(n - 1, 1);
    }
  }

  lemma AllHashed(code: Code, result: Operand, pointer: Operand, n: nat)
    requires Hashed(code, result, pointer, n, n)
    ensures Finished(code, result, n)
  {
    forall m, hash | Hashes(m, hash, n) ensures FinishedOn(code, result, n, m, hash) {
      assert HashedOn(code, result, pointer, n, m, hash);
    }
  }

  // ----- the 8 byte chunks -----

  ghost predicate Hashed64On(code: Code, result64: Operand, words: Operand, i: nat, m: Machine, hash: nat -> RegValue) {
    ValueOf(result64, code, m) == Extended(hash(8 * i)) && ValueOf(words, code, m) == Pointer(0) &&
    Loaded(code, m) == Range(0, 8 * i)
  }

  /** The code has hashed i words of 8 bytes into `result64`; `words` points to the first of them. */
  ghost predicate Hashed64(code: Code, result64: Operand, words: Operand, n: nat, i: nat) {
    && Defined(result64, code) && Defined(words, code) && 8 * i <= n
    && forall m, hash :: Hashes(m, hash, n) ==> Hashed64On(code, result64, words, i, m, hash)
  }

  function Word64(code: Code, result64: Operand, words: Operand, i: nat): (c: Code)
    ensures Size(c) == Size(code) + 3
  {
    var loaded := Then(Then(code, Gep(words, 8, i)), Load(Reg(Size(code)), 8));
    assert Size(loaded) == Size(code) + 2;
    Then(loaded, CrcCall(8, result64, Reg(Size(code) + 1)))
  }

  lemma Word64Values(code: Code, result64: Operand, words: Operand, i: nat, m: Machine)
    requires Defined(result64, code) && Defined(words, code) && ValueOf(words, code, m) == Pointer(0)
    ensures var c := Word64(code, result64, words, i);
            && ValueOf(Reg(Size(code) + 2), c, m) == m.crc(8, ValueOf(result64, code, m), m.load(8 * i, 8))
            && ValueOf(words, c, m) == Pointer(0) && Loaded(c, m) == Loaded(code, m) + Range(8 * i, 8)
  {
    var n := Size(code);
    var i1, i2, i3 := Gep(words, 8, i), Load(Reg(n), 8), CrcCall(8, result64, Reg(n + 1));
    var c1 := Then(code, i1);
    var c2 := Then(c1, i2);
    Kept(code, i1, words, m);
    Kept(code, i1, result64, m);
    Kept(c1, i2, words, m);
    Kept(c1, i2, result64, m);
    Kept(c2, i3, words, m);
    assert Loaded(c2, m) == Loaded(c1, m) + Range(8 * i, 8);
  }

  lemma Word64On(code: Code, result64: Operand, words: Operand, i: nat, m: Machine, hash: nat -> RegValue)
    requires Defined(result64, code) && Defined(words, code)
    requires HashesNext(m, hash, 8 * i, 8) && Hashed64On(code, result64, words, i, m, hash)
    ensures Hashed64On(Word64(code, result64, words, i), Reg(Size(code) + 2), words, i + 1, m, hash)
  {
    Word64Values(code, result64, words, i, m);
    RangeAppend(8 * i, 8);
    assert 8 * (i + 1) == 8 * i + 8;
  }

  lemma Word64Hashes(code: Code, result64: Operand, words: Operand, n: nat, i: nat)
    requires Hashed64(code, result64, words, n, i) && 8 * i + 8 <= n
    ensures Hashed64(Word64(code, result64, words, i), Reg(Size(code) + 2), words, n, i + 1)
  {
    var c := Word64(code, result64, words, i);
    forall m, hash | Hashes(m, hash, n) ensures Hashed64On(c, Reg(Size(code) + 2), words, i + 1, m, hash) {
      assert HashesNext(m, hash, 8 * i, 8) && Hashed64On(code, result64, words, i, m, hash);
      Word64On(code, result64, words, i, m, hash);
    }
  }

  lemma StartHashes(n: nat)
    ensures Hashed(Entry, SeedArg, DataArg, n, 0)
    ensures Hashed64(Then(Then(Entry, ZExt(SeedArg)), BitCast(DataArg)), Reg(0), Reg(1), n, 0)
  {
    var c := Then(Entry, ZExt(SeedArg));
    forall m, hash | Hashes(m, hash, n) ensures Hashed64On(Then(c, BitCast(DataArg)), Reg(0), Reg(1), 0, m, hash) {
      Kept(Entry, ZExt(SeedArg), SeedArg, m);
      Kept(c, BitCast(DataArg), Reg(0), m);
      assert Loaded(c, m) == Loaded(Entry, m) == Range(0, 0);
    }
  }

  /** Back to 32 bits, behind the words. */
  function Narrow(code: Code, result64: Operand, i: nat): Code {
    Then(Then(code, Trunc(result64)), Gep(DataArg, 1, i * 8))
  }

  lemma NarrowValues(code: Code, result64: Operand, i: nat, m: Machine)
    requires Defined(result64, code)
    ensures var c := Narrow(code, result64, i);
            && Size(c) == Size(code) + 2 && Loaded(c, m) == Loaded(code, m)
            && ValueOf(Reg(Size(code)), c, m) == Truncated(ValueOf(result64, code, m))
            && ValueOf(Reg(Size(code) + 1), c, m) == Pointer(8 * i)
  {
    var c1 := Then(code, Trunc(result64));
    assert Size(c1) == Size(code) + 1 && Loaded(c1, m) == Loaded(code, m);
    Kept(code, Trunc(result64), result64, m);
    Kept(c1, Gep(DataArg, 1, i * 8), Reg(Size(code)), m);
  }

  lemma NarrowHashes(code: Code, result64: Operand, words: Operand, n: nat, i: nat)
    requires Hashed64(code, result64, words, n, i)
    ensures Hashed(Narrow(code, result64, i), Reg(Size(code)), Reg(Size(code) + 1), n, 8 * i)
  {
    assert Size(Narrow(code, result64, i)) == Size(Then(code, Trunc(result64))) + 1;
    forall m, hash | Hashes(m, hash, n)
      ensures HashedOn(Narrow(code, result64, i), Reg(Size(code)), Reg(Size(code) + 1), 8 * i, m, hash) {
      assert Hashed64On(code, result64, words, i, m, hash) && HashesNext(m, hash, 8 * i, 0);
      NarrowValues(code, result64, i, m);
    }
  }

  // ----- the machine -----

  /** SSE4.2: the crc32 instruction on 8 bytes has 64-bit registers. */
  function CrcOn(bytes: nat, crc: RegValue, operand: RegValue): RegValue {
    if crc.Number? && operand.Number? && |operand.bits| == 8 * bytes &&
       |crc.bits| == (if bytes == 8 then 64 else 32) then
      var r := CrcInstruction(crc.bits[..32], operand.bits);
      Number(if bytes == 8 then r + Zeros(32) else r)
    else Undefined
  }

  function LoadFrom(data: seq<byte>, offset: nat, bytes: nat): RegValue {
    if offset + bytes <= |data| then Number(BitsOf(data[offset..offset + bytes])) else Undefined
  }

  ghost predicate Sse42(m: Machine, data: seq<byte>, seed: Word) {
    && m.seed == Number(seed)
    && (forall offset, bytes :: m.load(offset, bytes) == LoadFrom(data, offset, bytes))
    && (forall bytes, x, y :: m.crc(bytes, x, y) == CrcOn(bytes, x, y))
  }

  ghost predicate HashOf(hash: nat -> RegValue, data: seq<byte>, seed: Word) {
    forall k :: 0 <= k <= |data| ==> hash(k) == Number(Crc(seed, data[..k]))
  }

  lemma SomeSse42(data: seq<byte>, seed: Word) returns (m: Machine)
    ensures Sse42(m, data, seed)
  {
    m := Machine(Number(seed), (offset: nat, bytes: nat) => LoadFrom(data, offset, bytes), CrcOn);
  }

  lemma SomeHash(data: seq<byte>, seed: Word) returns (hash: nat -> RegValue)
    ensures HashOf(hash, data, seed)
  {
    hash := (k: nat) => if k <= |data| then Number(Crc(seed, data[..k])) else Undefined;
  }

  lemma NextBytes(k: nat, bytes: nat, data: seq<byte>, seed: Word)
    requires k + bytes <= |data|
    ensures CrcInstruction(Crc(seed, data[..k]), BitsOf(data[k..k + bytes])) == Crc(seed, data[..k + bytes])
  {
    assert data[..k + bytes] == data[..k] + data[k..k + bytes];
    WordAppended(seed, data[..k], data[k..k + bytes]);
  }

  lemma CrcOnBytes(bytes: nat, crc: Word, operand: seq<bool>)
    requires |operand| == 8 * bytes
    ensures bytes != 8 ==> CrcOn(bytes, Number(crc), Number(operand)) == Number(CrcInstruction(crc, operand))
    ensures bytes == 8 ==>
              CrcOn(8, Extended(Number(crc)), Number(operand)) == Extended(Number(CrcInstruction(crc, operand)))
    ensures Truncated(Extended(Number(crc))) == Number(crc)
  {
    assert crc[..32] == crc && (crc + Zeros(32))[..32] == crc;
  }

  lemma SseChunk(m: Machine, hash: nat -> RegValue, data: seq<byte>, seed: Word, k: nat, bytes: nat)
    requires Sse42(m, data, seed) && HashOf(hash, data, seed) && k + bytes <= |data|
    ensures HashesNext(m, hash, k, bytes)
  {
    NextBytes(k, bytes, data, seed);
    CrcOnBytes(bytes, Crc(seed, data[..k]), BitsOf(data[k..k + bytes]));
  }

  lemma SseHashes(m: Machine, hash: nat -> RegValue, data: seq<byte>, seed: Word, n: nat)
    requires Sse42(m, data, seed) && HashOf(hash, data, seed) && n <= |data|
    ensures Hashes(m, hash, n)
  {
    assert data[..0] == [];
    forall k, bytes | 0 <= k <= k + bytes <= n && bytes in {0, 1, 2, 4, 8} ensures HashesNext(m, hash, k, bytes) {
      SseChunk(m, hash, data, seed, k, bytes);
    }
  }

  // ----- the functions -----

  datatype HashFn = Generated(code: Code, result: Operand) | HashCrc | HashFnv

  /** The function returns w, and loads exactly the first n bytes, each once. */
  predicate ComputesOn(fn: HashFn, n: nat, m: Machine, w: Word)
    requires fn.Generated?
  {
    ValueOf(fn.result, fn.code, m) == Number(w) && Loaded(fn.code, m) == Range(0, n)
  }

  /** On every input of at least n bytes, it returns the rotated CRC of the first n bytes and loads no others. */
  ghost predicate Computes(fn: HashFn, n: nat) {
    fn.Generated? && forall m, data, seed :: |data| >= n && Sse42(m, data, seed) ==>
      ComputesOn(fn, n, m, Rotated(Crc(seed, data[..n])))
  }

  /** A function serves one size only. */
  lemma SizeUnique(fn: HashFn, a: nat, b: nat)
    requires Computes(fn, a) && Computes(fn, b)
    ensures a == b
  {
    var data: seq<byte> := seq(a + b, _ => 0);
    var m := SomeSse42(data, Bits(0, 32));
    assert |Loaded(fn.code, m)| == a;
  }

  /** The halves swapped with two shifts. */
  lemma RotateValues(code: Code, result: Operand, m: Machine)
    requires Defined(result, code)
    ensures var fn, x := Rotation(code, result), ValueOf(result, code, m);
            ValueOf(fn.result, fn.code, m) == Ored(ShiftedLeft(x), ShiftedRight(x))
  {
    var c1 := Then(code, Shl16(result));
    var c2 := Then(c1, LShr16(result));
    Kept(code, Shl16(result), result, m);
    Kept(c1, LShr16(result), Reg(Size(code)), m);
    Kept(c2, Or(Reg(Size(code)), Reg(Size(code) + 1)), Reg(Size(code)), m);
  }

  lemma RotateLoads(code: Code, result: Operand, m: Machine)
    ensures Loaded(Rotation(code, result).code, m) == Loaded(code, m)
  {
    var c1 := Then(code, Shl16(result));
    assert Loaded(Then(c1, LShr16(result)), m) == Loaded(c1, m);
  }

  lemma SwapsHalves(w: Word)
    ensures Ored(ShiftedLeft(Number(w)), ShiftedRight(Number(w))) == Number(Rotated(w))
  {
  }

  function Rotation(code: Code, result: Operand): HashFn {
    var n := Size(code);
    Generated(Then(Then(Then(code, Shl16(result)), LShr16(result)), Or(Reg(n), Reg(n + 1))), Reg(n + 2))
  }

  lemma RotateOn(code: Code, result: Operand, n: nat, m: Machine, hash: nat -> RegValue, w: Word)
    requires Defined(result, code) && FinishedOn(code, result, n, m, hash) && hash(n) == Number(w)
    ensures ComputesOn(Rotation(code, result), n, m, Rotated(w))
  {
    RotateValues(code, result, m);
    RotateLoads(code, result, m);
    SwapsHalves(w);
  }

  lemma RotateComputes(code: Code, result: Operand, n: nat)
    requires Finished(code, result, n)
    ensures Computes(Rotation(code, result), n)
  {
    forall m, data, seed | |data| >= n && Sse42(m, data, seed)
      ensures ComputesOn(Rotation(code, result), n, m, Rotated(Crc(seed, data[..n]))) {
      var hash := SomeHash(data, seed);
      SseHashes(m, hash, data, seed, n);
      RotateOn(code, result, n, m, hash, Crc(seed, data[..n]));
    }
  }

  class LlvmCodeGen {
    const sse42: bool
    var hashFns: map<int, HashFn>
    ghost var generatedFor: nat   // the size of the last request that generated a function

    ghost predicate Valid()
      reads this
    {
      forall k :: k in hashFns ==> k == 0 && Computes(hashFns[k], generatedFor)
    }

    constructor (supported: bool)
      ensures Valid() && sse42 == supported && hashFns == map[]
    {
      sse42, hashFns, generatedFor := supported, map[], 0;
    }

    /** The crc instructions for the 8 byte chunks. */
    method EmitWords(n: nat) returns (code: Code, result: Operand, pointer: Operand, numBytes: nat)
      ensures numBytes < 8 && numBytes <= n && Hashed(code, result, pointer, n, n - numBytes)
    {
      numBytes := n;
      StartHashes(n);
      if numBytes < 8 {
        return Entry, SeedArg, DataArg, numBytes;
      }
      code := Then(Then(Entry, ZExt(SeedArg)), BitCast(DataArg));
      result := Reg(0);
      var words, i := Reg(1), 0;
      while numBytes >= 8
        invariant numBytes + 8 * i == n && Hashed64(code, result, words, n, i)
      {
        Word64Hashes(code, result, words, n, i);
        code, result := Word64(code, result, words, i), Reg(Size(code) + 2);
        i := i + 1;
        numBytes := numBytes - 8;
      }
      NarrowHashes(code, result, words, n, i);
      code, result, pointer := Narrow(code, result, i), Reg(Size(code)), Reg(Size(code) + 1);
    }

    /** The crc instruction for the next few bytes, if so many are left. */
    method EmitChunk(code: Code, result: Operand, pointer: Operand, numBytes: nat, bytes: nat, ghost n: nat)
      returns (code': Code, result': Operand, pointer': Operand, left: nat)
      requires bytes in {2, 4} && numBytes < 2 * bytes && numBytes <= n &&
               Hashed(code, result, pointer, n, n - numBytes)
      ensures left < bytes && left <= n && Hashed(code', result', pointer', n, n - left)
    {
      if numBytes < bytes {
        return code, result, pointer, numBytes;
      }
      ChunkHashes(code, result, pointer, bytes, n, n - numBytes);
      code', result', pointer' := Chunk(code, result, pointer, bytes), Reg(Size(code) + 2), Reg(Size(code) + 3);
      left := numBytes - bytes;
    }

    /** The crc instructions for the last bytes. */
    method EmitTail(code: Code, result: Operand, pointer: Operand, numBytes: nat, ghost n: nat)
      returns (code': Code, result': Operand)
      requires numBytes < 8 && numBytes <= n && Hashed(code, result, pointer, n, n - numBytes)
      ensures Finished(code', result', n)
    {
      var c, r, p, left := EmitChunk(code, result, pointer, numBytes, 4, n);
      c, r, p, left := EmitChunk(c, r, p, left, 2, n);
      if left > 0 {
        LastByteHashes(c, r, p, n);
        c, r := LastByte(c, r, p), Reg(Size(c) + 1);
      } else {
        AllHashed(c, r, p, n);
      }
      return c, r;
    }

    /** The crc instructions for all bytes, and the rotation. */
    method EmitHash(n: nat) returns (fn: HashFn)
      ensures Computes(fn, n)
    {
      var code, result, pointer, numBytes := EmitWords(n);
      code, result := EmitTail(code, result, pointer, numBytes, n);
      RotateComputes(code, result, n);
      fn := Rotation(code, result);
    }

    /** A function for numBytes bytes, or one for any length if numBytes is -1.  What is generated is
        stored under the number of bytes that are left, which is 0. */
    method GetHashFunction(numBytes: int) returns (fn: HashFn)
      requires Valid() && numBytes >= -1
      modifies this
      ensures Valid()
      ensures !sse42 ==> fn == HashFnv && hashFns == old(hashFns)
      ensures sse42 && numBytes == -1 ==> fn == HashCrc && hashFns == old(hashFns)
      ensures sse42 && numBytes >= 1 ==>
                Computes(fn, numBytes) && hashFns == old(hashFns)[0 := fn] && generatedFor == numBytes
      ensures sse42 && numBytes == 0 ==>
                0 in hashFns && hashFns[0] == fn && (0 in old(hashFns) ==> fn == old(hashFns)[0])
      ensures sse42 && numBytes == 0 ==> (Computes(fn, 0) <==> 0 !in old(hashFns) || old(generatedFor) == 0)
    {
      if !sse42 {
        return HashFnv;
      }
      if numBytes == -1 {
        return HashCrc;
      }
      if numBytes in hashFns {
        fn := hashFns[numBytes];
        if Computes(fn, 0) {
          SizeUnique(fn, 0, generatedFor);
        }
        return;
      }
      fn := EmitHash(numBytes);
      hashFns := hashFns[0 := fn];
      generatedFor := numBytes;
    }
  }

  // ----- the general loop -----

  /** Words of 4 bytes, then single bytes. */
  method CrcHash(data: seq<byte>, len: nat, seed: Word) returns (hash: Word)
    requires len <= |data|
    ensures hash == Rotated(Crc(seed, data[..len]))
  {
    var words, bytes := len / 4, len % 4;
    hash := seed;
    var p := 0;
    assert data[..0] == [];
    while words > 0
      invariant p + 4 * words + bytes == len && 0 <= words && hash == Crc(seed, data[..p])
    {
      NextBytes(p, 4, data, seed);
      hash := CrcInstruction(hash, BitsOf(data[p..p + 4]));
      p := p + 4;
      words := words - 1;
    }
    while bytes > 0
      invariant p + bytes == len && 0 <= bytes && hash == Crc(seed, data[..p])
    {
      NextBytes(p, 1, data, seed);
      hash := CrcInstruction(hash, BitsOf(data[p..p + 1]));
      p := p + 1;
      bytes := bytes - 1;
    }
    hash := Rotated(hash);
  }
}
