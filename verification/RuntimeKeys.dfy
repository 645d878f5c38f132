/**
 The hash and comparison functions of src/runtime/runtime_dict.c on the tagged values of
 src/runtime/runtime_value.c, and which of them a dictionary can rely on.
 */
module RuntimeKeys {
  import opened RuntimeDict

  datatype Width = I64 | U64 | I128 | U128 | BoxInt

  /** What a pointer can point to, as far as keys can tell. */
  datatype Object =
    | Integer(width: Width, n: int)
    | Float(x: real)
    | BoxFloat(x: real)
    | Text(chars: seq<int>)
    | Opaque

  /** A tagged 64-bit value. */
  datatype Value = Small(n: int) | Boolean(b: bool) | Nil | Pointer(address: nat)

  /** The objects of memory and the conversion of integers to double. */
  datatype Memory = Memory(objects: nat -> Object, toDouble: int -> real)
  {
    predicate IsInteger(v: Value) { v.Small? || (v.Pointer? && objects(v.address).Integer?) }

    predicate IsFloat(v: Value) { v.Pointer? && (objects(v.address).Float? || objects(v.address).BoxFloat?) }

    predicate IsText(v: Value) { v.Pointer? && objects(v.address).Text? }

    function AsI64(v: Value): int {
      match v
      case Small(n) => n
      case Pointer(a) =>
        (match objects(a)
         case Integer(_, n) => Wrapped(n, TWO_64)
         case BoxFloat(x) => Truncated(x)
         case _ => 0)
      case _ => 0
    }

    function AsI128(v: Value): int {
      match v
      case Small(n) => n
      case Pointer(a) =>
        (match objects(a)
         case Integer(_, n) => Wrapped(n, TWO_128)
         case BoxFloat(x) => Truncated(x)
         case _ => 0)
      case _ => 0
    }

    function AsDouble(v: Value): real {
      if v.Pointer? && objects(v.address).Float? then objects(v.address).x
      else if v.Pointer? && objects(v.address).BoxFloat? then objects(v.address).x
      else if IsInteger(v) then toDouble(AsI64(v)) else 0.0
    }

    // ---------- Integer keys ----------

    function HashInt(v: Value): nat { AsI64(v) * 2654435761 % TWO_64 }

    function CompareInt(v: Value, w: Value): int {
      if AsI128(v) > AsI128(w) then 1 else if AsI128(v) < AsI128(w) then -1 else 0
    }

    // ---------- Keys of any kind ----------

    function HashBoxed(v: Value): nat {
      if IsInteger(v) || v.Boolean? then HashInt(v)
      else if v.Nil? then 0
      else if IsText(v) then HashText(objects(v.address).chars)
      else v.address
    }

    predicate Equal(v: Value, w: Value) {
      || v == w
      || (IsText(v) && IsText(w) && objects(v.address).chars == objects(w.address).chars)
      || ((IsInteger(v) || IsFloat(v)) && (IsInteger(w) || IsFloat(w))
          && if IsFloat(v) || IsFloat(w) then AsDouble(v) == AsDouble(w) else AsI128(v) == AsI128(w))
    }

    function CompareBoxed(v: Value, w: Value): int {
      if Equal(v, w) then 0 else if Bits(v) > Bits(w) then 1 else -1
    }
  }

  const TWO_64 := 0x1_0000_0000_0000_0000
  const TWO_128 := TWO_64 * TWO_64

  /** Two's complement in that many values. */
  function Wrapped(n: int, values: int): int
    requires values > 0
  {
    (n + values / 2) % values - values / 2
  }

  function Truncated(x: real): int { if x >= 0.0 then x.Floor else -(-x).Floor }

  function HashText(chars: seq<int>): nat {
    if chars == [] then 5381 else (HashText(chars[..|chars| - 1]) * 33 + chars[|chars| - 1]) % TWO_64
  }

  function Bits(v: Value): int {
    match v
    case Small(n) => n % (TWO_64 / 8) * 8 + 1
    case Boolean(b) => if b then 18 else 10
    case Nil => 2
    case Pointer(a) => a
  }

  /** Wrapping to 128 bits first loses nothing that wrapping to 64 bits would have kept. */
  lemma WrappedTwice(n: int)
    ensures Wrapped(Wrapped(n, TWO_128), TWO_64) == Wrapped(n, TWO_64)
  {
    var q := (n + TWO_128 / 2) / TWO_128;
    assert Wrapped(n, TWO_128) == n - q * TWO_128;
    var m, k := n + TWO_64 / 2, -q * TWO_64;
    assert n - q * TWO_128 + TWO_64 / 2 == m + k * TWO_64;
    ModuloPlus(m, k, TWO_64);
  }

  lemma ModuloPlus(m: int, k: int, d: int)
    requires d > 0
    ensures (m + k * d) % d == m % d
  {
    var q, r := m / d, m % d;
    assert m + k * d == (q + k) * d + r;
    QuotientOf(m + k * d, q + k, r, d);
  }

  lemma QuotientOf(m: int, q: int, r: int, d: int)
    requires d > 0 && m == q * d + r && 0 <= r < d
    ensures m % d == r
  {
    var p := m / d;
    var k := p - q;
    assert m == p * d + m % d;
    assert k * d == p * d - q * d && -k * d == -(k * d);
    if k > 0 { AtLeastOnce(k, d); }
    if k < 0 { AtLeastOnce(-k, d); }
  }

  lemma AtLeastOnce(k: int, d: int)
    requires k > 0 && d > 0
    ensures k * d >= d
  {
    var j: nat, e: nat := k - 1, d;
    assert j * e >= 0;
    assert k * d == j * e + d;
  }

  lemma SmallStays(n: int)
    requires -TWO_64 / 2 <= n < TWO_64 / 2
    ensures Wrapped(n, TWO_64) == n
  {
  }

  /** What the tags and the conversions leave defined: small integers have 61 bits, boxed floats fit int64_t. */
  ghost predicate Defined(m: Memory, v: Value) {
    match v
    case Small(n) => -TWO_64 / 16 <= n < TWO_64 / 16
    case Pointer(a) => m.objects(a).BoxFloat? ==> -TWO_64 / 2 <= Truncated(m.objects(a).x) < TWO_64 / 2
    case _ => true
  }

  lemma LowBits(m: Memory, v: Value)
    requires Defined(m, v)
    ensures m.AsI64(v) == Wrapped(m.AsI128(v), TWO_64)
  {
    match v
    case Small(n) => SmallStays(n);
    case Pointer(a) =>
      if m.objects(a).Integer? {
        WrappedTwice(m.objects(a).n);
      } else {
        SmallStays(m.AsI128(v));
      }
    case _ => SmallStays(0);
  }

  type Key = v: Value | (v.Small? ==> -0x1000_0000_0000_0000 <= v.n < 0x1000_0000_0000_0000) witness Nil

  function IntHash(m: Memory): Key -> nat { (v: Key) => m.HashInt(v) }
  function IntComparison(m: Memory): (Key, Key) -> int { (v: Key, w: Key) => m.CompareInt(v, w) }
  function BoxedHash(m: Memory): Key -> nat { (v: Key) => m.HashBoxed(v) }
  function BoxedComparison(m: Memory): (Key, Key) -> int { (v: Key, w: Key) => m.CompareBoxed(v, w) }

  /** Integer keys can be relied on, whatever their widths: equal ones hash alike. */
  lemma IntegerKeysAreGood(m: Memory)
    requires forall v: Key :: Defined(m, v)
    ensures GoodKeys(IntHash(m), IntComparison(m))
  {
    forall v: Key, w: Key | m.CompareInt(v, w) == 0 ensures m.HashInt(v) == m.HashInt(w) {
      LowBits(m, v);
      LowBits(m, w);
    }
  }

  /** Keys of any kind can be relied on as long as no float is among them. */
  lemma BoxedKeysAreGood(m: Memory)
    requires forall v: Key :: !m.IsFloat(v)
    ensures GoodKeys(BoxedHash(m), BoxedComparison(m))
  {
    forall v: Key, w: Key | m.CompareBoxed(v, w) == 0 ensures m.HashBoxed(v) == m.HashBoxed(w) {
      if v != w && !m.IsText(v) {
        LowBits(m, v);
        LowBits(m, w);
      }
    }
  }

  /** Two objects for the float 1.5, at addresses 8 and 16. */
  const TWO_FLOATS := Memory((a: nat) => if a == 8 || a == 16 then Float(1.5) else Opaque, (n: int) => n as real)

  /** Equal floats compare as equal but hash to their addresses, into different buckets: one is not found under the other. */
  lemma FloatKeysBreakTheContract()
    ensures var v, w := Pointer(8), Pointer(16);
            && TWO_FLOATS.CompareBoxed(v, w) == 0
            && TWO_FLOATS.HashBoxed(v) % INITIAL_BUCKET_COUNT != TWO_FLOATS.HashBoxed(w) % INITIAL_BUCKET_COUNT
    ensures !GoodKeys(BoxedHash(TWO_FLOATS), BoxedComparison(TWO_FLOATS))
  {
    var v: Key, w: Key := Pointer(8), Pointer(16);
    assert BoxedComparison(TWO_FLOATS)(v, w) == 0 && BoxedHash(TWO_FLOATS)(v) != BoxedHash(TWO_FLOATS)(w);
  }

  /** Without floats, equal keys are the same value, two texts with the same characters, or two integers of the same number. */
  lemma EqualKeysAreTheSame(m: Memory, v: Key, w: Key)
    requires !m.IsFloat(v) && !m.IsFloat(w)
    ensures m.CompareBoxed(v, w) == 0 <==>
              || v == w
              || (v.Pointer? && w.Pointer? && m.objects(v.address).Text? && m.objects(v.address) == m.objects(w.address))
              || (IsNumber(m, v) && IsNumber(m, w) && Wrapped(NumberOf(m, v), TWO_128) == Wrapped(NumberOf(m, w), TWO_128))
  {
    if v.Small? { SmallFits(v.n); }
    if w.Small? { SmallFits(w.n); }
  }

  lemma SmallFits(n: int)
    requires -TWO_128 / 2 <= n < TWO_128 / 2
    ensures Wrapped(n, TWO_128) == n
  {
  }

  predicate IsNumber(m: Memory, v: Value) { v.Small? || (v.Pointer? && m.objects(v.address).Integer?) }

  function NumberOf(m: Memory, v: Value): int
    requires IsNumber(m, v)
  {
    if v.Small? then v.n else m.objects(v.address).n
  }

  /** Comparing integer keys is comparing their numbers. */
  lemma ComparesNumbers(m: Memory, v: Value, w: Value)
    requires IsNumber(m, v) && IsNumber(m, w)
    requires -TWO_128 / 2 <= NumberOf(m, v) < TWO_128 / 2 && -TWO_128 / 2 <= NumberOf(m, w) < TWO_128 / 2
    ensures m.CompareInt(v, w) == if NumberOf(m, v) > NumberOf(m, w) then 1 else if NumberOf(m, v) < NumberOf(m, w) then -1 else 0
  {
    SmallFits(NumberOf(m, v));
    SmallFits(NumberOf(m, w));
  }

  /** Floats convert toward zero, integers modulo a power of two. */
  lemma ConversionsAreClose(x: real, n: int)
    ensures x >= 0.0 ==> Truncated(x) as real <= x < Truncated(x) as real + 1.0
    ensures x <= 0.0 ==> Truncated(x) as real - 1.0 < x <= Truncated(x) as real
    ensures (n - Wrapped(n, TWO_64)) % TWO_64 == 0 && -TWO_64 / 2 <= Wrapped(n, TWO_64) < TWO_64 / 2
    ensures (n - Wrapped(n, TWO_128)) % TWO_128 == 0 && -TWO_128 / 2 <= Wrapped(n, TWO_128) < TWO_128 / 2
  {
  }

  /** Some hashes: of 1 and -1, of nil, of true, and of the text "a". */
  lemma KnownHashes(m: Memory)
    ensures m.HashInt(Small(1)) == 2654435761 && m.HashInt(Small(-1)) == TWO_64 - 2654435761
    ensures m.HashBoxed(Nil) == 0 && m.HashBoxed(Boolean(true)) == 0
    ensures HashText([97]) == 5381 * 33 + 97
  {
    assert [97][..0] == [];
    assert HashText([97]) == (HashText([]) * 33 + 97) % TWO_64;
  }

  /** A float equals whatever number has the same value as a double. */
  lemma FloatsCompareAsDoubles(m: Memory, v: Value, w: Value)
    requires m.IsFloat(v) && (m.IsFloat(w) || m.IsInteger(w)) && v != w
    ensures m.CompareBoxed(v, w) == 0 <==> m.AsDouble(v) == m.AsDouble(w)
    ensures m.CompareBoxed(w, v) == 0 <==> m.AsDouble(v) == m.AsDouble(w)
    ensures m.AsDouble(v) == m.objects(v.address).x
    ensures m.IsInteger(w) ==> m.AsDouble(w) == m.toDouble(m.AsI64(w))
  {
  }
}
