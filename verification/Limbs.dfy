/**
 Little-endian vectors of 64-bit limbs and what they denote. Each carry, borrow and row
 loop of src/backend/big_int.hh appears as a recursive function on limb vectors, and its
 value is proved here.
 */
module Limbs {

  const BASE: int := 0x1_0000_0000_0000_0000

  type Limb = x: int | 0 <= x < 0x1_0000_0000_0000_0000

  function Val(ls: seq<Limb>): nat {
    if ls == [] then 0 else ls[0] + BASE * Val(ls[1..])
  }

  /** At least one limb, and no leading zero limb. */
  predicate Canonical(ls: seq<Limb>) {
    |ls| > 0 && (|ls| > 1 ==> ls[|ls| - 1] != 0)
  }

  function Zeros(n: nat): (r: seq<Limb>)
    ensures |r| == n && forall i | 0 <= i < n :: r[i] == 0
  {
    seq(n, _ => 0)
  }

  lemma {:induction false} ValZeros(ls: seq<Limb>)
    requires forall i | 0 <= i < |ls| :: ls[i] == 0
    ensures Val(ls) == 0
  {
    if ls != [] { ValZeros(ls[1..]); }
  }

  lemma {:induction false} ValPadded(ls: seq<Limb>, n: nat)
    ensures Val(ls + Zeros(n)) == Val(ls)
  {
    if ls == [] {
      assert ls + Zeros(n) == Zeros(n);
      ValZeros(Zeros(n));
    } else {
      assert (ls + Zeros(n))[1..] == ls[1..] + Zeros(n);
      ValPadded(ls[1..], n);
    }
  }

  // ---------- Order and uniqueness ----------

  lemma {:induction false} LongerIsGreater(a: seq<Limb>, b: seq<Limb>)
    requires |a| > |b| && a[|a| - 1] != 0
    ensures Val(a) > Val(b)
  {
    if |a| > 1 { LongerIsGreater(a[1..], if b == [] then [] else b[1..]); }
  }

  lemma {:induction false} HighLimbDecides(a: seq<Limb>, b: seq<Limb>, i: nat)
    requires |a| == |b| && i < |a| && a[i + 1..] == b[i + 1..] && a[i] > b[i]
    ensures Val(a) > Val(b)
  {
    if i > 0 {
      assert a[1..][i..] == a[i + 1..] && b[1..][i..] == b[i + 1..];
      HighLimbDecides(a[1..], b[1..], i - 1);
    }
  }

  /** A number has only one canonical limb vector. */
  lemma {:induction false} CanonicalUnique(a: seq<Limb>, b: seq<Limb>)
    requires Canonical(a) && Canonical(b) && Val(a) == Val(b)
    ensures a == b
  {
    if |a| > |b| {
      LongerIsGreater(a, b);
    } else if |b| > |a| {
      LongerIsGreater(b, a);
    } else {
      assert a[0] == b[0] && Val(a[1..]) == Val(b[1..]);
      if |a| > 1 { CanonicalUnique(a[1..], b[1..]); }
    }
  }

  /** Leading zero limbs dropped, keeping at least one limb. */
  function Trim(ls: seq<Limb>): seq<Limb> {
    if |ls| > 1 && ls[|ls| - 1] == 0 then Trim(ls[..|ls| - 1]) else ls
  }

  lemma {:induction false} TrimValue(ls: seq<Limb>)
    ensures Val(Trim(ls)) == Val(ls)
    ensures ls != [] ==> Canonical(Trim(ls))
  {
    if |ls| > 1 && ls[|ls| - 1] == 0 {
      TrimValue(ls[..|ls| - 1]);
      ValPadded(ls[..|ls| - 1], 1);
      assert ls == ls[..|ls| - 1] + Zeros(1);
    }
  }

  lemma CanonicalZero(ls: seq<Limb>)
    requires Canonical(ls)
    ensures Val(ls) == 0 <==> ls == [0]
  {
    if |ls| > 1 { LongerIsGreater(ls, []); }
  }

  // ---------- Addition and subtraction ----------

  function Head(ls: seq<Limb>): Limb { if ls == [] then 0 else ls[0] }
  function Tail(ls: seq<Limb>): seq<Limb> { if ls == [] then [] else ls[1..] }

  function CarryLimb(carry: Limb): seq<Limb> {
    if carry > 0 then [carry] else []
  }

  function Sum(a: seq<Limb>, b: seq<Limb>, carry: Limb): (r: seq<Limb>)
    requires |b| <= |a| && carry <= 1
    ensures a != [] ==> r != []
  {
    if a == [] then CarryLimb(carry) else
    var s := a[0] + Head(b) + carry;
    [s % BASE] + Sum(a[1..], Tail(b), s / BASE)
  }

  lemma {:induction false} SumValue(a: seq<Limb>, b: seq<Limb>, carry: Limb)
    requires |b| <= |a| && carry <= 1
    ensures Val(Sum(a, b, carry)) == Val(a) + Val(b) + carry
  {
    if a != [] { SumValue(a[1..], Tail(b), (a[0] + Head(b) + carry) / BASE); }
  }

  function Difference(a: seq<Limb>, b: seq<Limb>, borrow: Limb): (r: seq<Limb>)
    requires |b| <= |a| && borrow <= 1
    ensures |r| == |a|
  {
    if a == [] then [] else
    var d := a[0] - Head(b) - borrow;
    if d < 0 then [d + BASE] + Difference(a[1..], Tail(b), 1) else [d] + Difference(a[1..], Tail(b), 0)
  }

  lemma {:induction false} DifferenceValue(a: seq<Limb>, b: seq<Limb>, borrow: Limb)
    requires |b| <= |a| && borrow <= 1 && Val(a) >= Val(b) + borrow
    ensures Val(Difference(a, b, borrow)) == Val(a) - Val(b) - borrow
  {
    if a != [] { DifferenceValue(a[1..], Tail(b), if a[0] - Head(b) - borrow < 0 then 1 else 0); }
  }

  // ---------- Schoolbook multiplication, as the source writes it ----------

  lemma MulMonotone(x: nat, y: nat, m: nat)
    requires x <= m && y <= m
    ensures 0 <= x * y <= m * m
  {
    assert x * y <= m * y;
    assert m * y <= m * m;
  }

  /** A product of limbs, an old digit and a carry together stay below 2^128. */
  lemma ColumnBound(x: Limb, y: Limb, digit: Limb, carry: Limb)
    ensures 0 <= Times(x, y) + digit + carry < BASE * BASE
  {
    TimesIsProduct(x, y);
    MulMonotone(x, y, MAX);
  }

  const MAX: Limb := 0xFFFF_FFFF_FFFF_FFFF

  /** One column: the old digit and the carry are added in 64 bits before the product is. */
  function Column(x: Limb, y: Limb, digit: Limb, carry: Limb): (r: int)
    ensures 0 <= r < BASE * BASE
    ensures 0 <= r / BASE < BASE
  {
    ColumnBound(x, y, (digit + carry) % BASE, 0);
    Times(x, y) + (digit + carry) % BASE
  }

  /** acc becomes acc + x * b + carry, the last carry going into the slot after b. */
  function Row(x: Limb, b: seq<Limb>, acc: seq<Limb>, carry: Limb): (r: seq<Limb>)
    requires |acc| > |b| && acc[|b|] == 0
    ensures |r| == |acc|
    ensures forall k | |b| < k < |acc| :: r[k] == acc[k]
  {
    if b == [] then acc[0 := carry] else
    var prod := Column(x, b[0], acc[0], carry);
    [prod % BASE] + Row(x, b[1..], acc[1..], prod / BASE)
  }

  /** No column of the row loses a carry out of its 64-bit sum. */
  predicate RowFits(x: Limb, b: seq<Limb>, acc: seq<Limb>, carry: Limb)
    requires |acc| > |b|
  {
    b == [] ||
    (acc[0] + carry < BASE && RowFits(x, b[1..], acc[1..], Column(x, b[0], acc[0], carry) / BASE))
  }

  /** What the lost carries of a row are worth. */
  function RowLoss(x: Limb, b: seq<Limb>, acc: seq<Limb>, carry: Limb): (r: nat)
    requires |acc| > |b|
    ensures r == 0 <==> RowFits(x, b, acc, carry)
  {
    if b == [] then 0 else
    (if acc[0] + carry < BASE then 0 else BASE)
    + BASE * RowLoss(x, b[1..], acc[1..], Column(x, b[0], acc[0], carry) / BASE)
  }

  /** Multiplication by repeated addition, to keep proofs about digits linear. */
  function Times(x: nat, y: nat): nat {
    if x == 0 then 0 else Times(x - 1, y) + y
  }

  lemma {:induction false} TimesIsProduct(x: nat, y: nat)
    ensures Times(x, y) == x * y
  {
    if x > 0 { TimesIsProduct(x - 1, y); }
  }

  lemma {:induction false} TimesSplit(x: nat, y: nat, z: nat)
    ensures Times(x, y + BASE * z) == Times(x, y) + BASE * Times(x, z)
  {
    if x > 0 { TimesSplit(x - 1, y, z); }
  }

  lemma TimesSymmetric(x: nat, y: nat)
    ensures Times(x, y) == Times(y, x)
  {
    TimesIsProduct(x, y);
    TimesIsProduct(y, x);
  }

  lemma ConsValue(low: Limb, high: seq<Limb>)
    ensures Val([low] + high) == low + BASE * Val(high)
  {
    assert ([low] + high)[1..] == high;
  }

  lemma TimesCons(y: nat, a: seq<Limb>)
    requires a != []
    ensures Times(y, Val(a)) == Times(y, a[0]) + BASE * Times(y, Val(a[1..]))
  {
    TimesSplit(y, a[0], Val(a[1..]));
  }

  lemma ColumnValue(xy: nat, xb: nat, digit: Limb, high: nat, carry: Limb, prod: nat, row: nat, loss: nat)
    requires prod == xy + (digit + carry) % BASE
    requires row + loss == high + xb + prod / BASE
    ensures prod % BASE + BASE * row + ((if digit + carry < BASE then 0 else BASE) + BASE * loss)
            == digit + BASE * high + (xy + BASE * xb) + carry
  {
  }

  lemma RowUnfold(x: Limb, b: seq<Limb>, acc: seq<Limb>, carry: Limb, prod: nat)
    requires b != [] && |acc| > |b| && acc[|b|] == 0 && prod == Column(x, b[0], acc[0], carry)
    ensures prod / BASE < BASE && prod == Times(x, b[0]) + (acc[0] + carry) % BASE
    ensures Row(x, b, acc, carry) == [prod % BASE] + Row(x, b[1..], acc[1..], prod / BASE)
    ensures RowLoss(x, b, acc, carry)
            == (if acc[0] + carry < BASE then 0 else BASE) + BASE * RowLoss(x, b[1..], acc[1..], prod / BASE)
  {
  }

  lemma {:induction false} RowValue(x: Limb, b: seq<Limb>, acc: seq<Limb>, carry: Limb)
    requires |acc| > |b| && acc[|b|] == 0
    ensures Val(Row(x, b, acc, carry)) + RowLoss(x, b, acc, carry) == Val(acc) + Times(x, Val(b)) + carry
  {
    if b == [] {
      TimesIsProduct(x, 0);
      assert acc[0 := carry][1..] == acc[1..];
    } else {
      var prod: nat := Column(x, b[0], acc[0], carry);
      RowUnfold(x, b, acc, carry, prod);
      var high: Limb := prod / BASE;
      var row, loss := Row(x, b[1..], acc[1..], high), RowLoss(x, b[1..], acc[1..], high);
      RowValue(x, b[1..], acc[1..], high);
      ConsValue(prod % BASE, row);
      TimesCons(x, b);
      ColumnValue(Times(x, b[0]), Times(x, Val(b[1..])), acc[0], Val(acc[1..]), carry, prod, Val(row), loss);
    }
  }

  predicate ZeroFrom(ls: seq<Limb>, n: nat) {
    forall k | n <= k < |ls| :: ls[k] == 0
  }

  function Rows(a: seq<Limb>, b: seq<Limb>, acc: seq<Limb>): (r: seq<Limb>)
    requires |acc| == |a| + |b| && ZeroFrom(acc, |b|)
    ensures |r| == |acc|
  {
    if a == [] then acc else
    var row := Row(a[0], b, acc, 0);
    [row[0]] + Rows(a[1..], b, row[1..])
  }

  predicate RowsFit(a: seq<Limb>, b: seq<Limb>, acc: seq<Limb>)
    requires |acc| == |a| + |b| && ZeroFrom(acc, |b|)
  {
    a == [] || (RowFits(a[0], b, acc, 0) && RowsFit(a[1..], b, Row(a[0], b, acc, 0)[1..]))
  }

  function RowsLoss(a: seq<Limb>, b: seq<Limb>, acc: seq<Limb>): (r: nat)
    requires |acc| == |a| + |b| && ZeroFrom(acc, |b|)
    ensures r == 0 <==> RowsFit(a, b, acc)
  {
    if a == [] then 0 else
    RowLoss(a[0], b, acc, 0) + BASE * RowsLoss(a[1..], b, Row(a[0], b, acc, 0)[1..])
  }

  lemma RowsStep(ab: nat, rest: nat, acc: nat, low: nat, high: nat, rows: nat, loss: nat, losses: nat)
    requires low + BASE * high + loss == acc + ab
    requires rows + losses == high + rest
    ensures low + BASE * rows + (loss + BASE * losses) == acc + (ab + BASE * rest)
  {
  }

  lemma RowsUnfold(a: seq<Limb>, b: seq<Limb>, acc: seq<Limb>, row: seq<Limb>)
    requires a != [] && |acc| == |a| + |b| && ZeroFrom(acc, |b|) && row == Row(a[0], b, acc, 0)
    ensures Rows(a, b, acc) == [row[0]] + Rows(a[1..], b, row[1..])
    ensures RowsLoss(a, b, acc) == RowLoss(a[0], b, acc, 0) + BASE * RowsLoss(a[1..], b, row[1..])
  {
  }

  lemma {:induction false} RowsValue(a: seq<Limb>, b: seq<Limb>, acc: seq<Limb>)
    requires |acc| == |a| + |b| && ZeroFrom(acc, |b|)
    ensures Val(Rows(a, b, acc)) + RowsLoss(a, b, acc) == Val(acc) + Times(Val(b), Val(a))
  {
    if a == [] {
      TimesIsProduct(Val(b), 0);
    } else {
      var row := Row(a[0], b, acc, 0);
      var rows, loss, losses := Rows(a[1..], b, row[1..]), RowLoss(a[0], b, acc, 0), RowsLoss(a[1..], b, row[1..]);
      RowsUnfold(a, b, acc, row);
      ConsValue(row[0], rows);
      RowValue(a[0], b, acc, 0);
      RowsValue(a[1..], b, row[1..]);
      TimesCons(Val(b), a);
      TimesSymmetric(Val(b), a[0]);
      RowsStep(Times(a[0], Val(b)), Times(Val(b), Val(a[1..])), Val(acc), row[0], Val(row[1..]), Val(rows), loss, losses);
    }
  }

  /** The digits that multiplying a by b produces, before normalization. */
  function Product(a: seq<Limb>, b: seq<Limb>): seq<Limb> {
    Rows(a, b, Zeros(|a| + |b|))
  }

  /** No 64-bit sum of an old digit and a carry overflows while a is multiplied by b. */
  predicate ColumnsFit(a: seq<Limb>, b: seq<Limb>) {
    RowsFit(a, b, Zeros(|a| + |b|))
  }

  /** The digits are those of the product exactly when no column sum overflows; otherwise they fall short. */
  lemma ProductExactCondition(a: seq<Limb>, b: seq<Limb>)
    ensures Val(Product(a, b)) <= Val(a) * Val(b)
    ensures Val(Product(a, b)) == Val(a) * Val(b) <==> ColumnsFit(a, b)
  {
    TimesIsProduct(Val(b), Val(a));
    RowsValue(a, b, Zeros(|a| + |b|));
    ValZeros(Zeros(|a| + |b|));
  }

  lemma {:induction false} ZeroRowFits(x: Limb, b: seq<Limb>, acc: seq<Limb>, carry: Limb)
    requires |acc| > |b| && ZeroFrom(acc, 0)
    ensures RowFits(x, b, acc, carry)
  {
    if b != [] { ZeroRowFits(x, b[1..], acc[1..], Column(x, b[0], acc[0], carry) / BASE); }
  }

  lemma {:induction false} SingleColumnFits(a: seq<Limb>, b: seq<Limb>, acc: seq<Limb>)
    requires |b| == 1 && |acc| == |a| + |b| && ZeroFrom(acc, |b|)
    ensures RowsFit(a, b, acc)
  {
    if a != [] { SingleColumnFits(a[1..], b, Row(a[0], b, acc, 0)[1..]); }
  }

  lemma SingleRowFits(a: seq<Limb>, b: seq<Limb>)
    requires |a| == 1
    ensures ColumnsFit(a, b)
  {
    ZeroRowFits(a[0], b, Zeros(1 + |b|), 0);
    assert RowsFit(a[1..], b, Row(a[0], b, Zeros(1 + |b|), 0)[1..]);
  }

  /** Multiplying with a one-limb operand on either side is always exact. */
  lemma OneLimbProductExact(a: seq<Limb>, b: seq<Limb>)
    requires |a| == 1 || |b| == 1
    ensures Val(Product(a, b)) == Val(a) * Val(b)
  {
    if |b| == 1 {
      SingleColumnFits(a, b, Zeros(|a| + |b|));
    } else {
      SingleRowFits(a, b);
    }
    ProductExactCondition(a, b);
  }

  /** Squaring 2^128 - 1 loses a carry. */
  lemma SquareOfMaxLosesCarry()
    ensures Val(Product([MAX, MAX], [MAX, MAX])) < Val([MAX, MAX]) * Val([MAX, MAX])
  {
    var b := [MAX, MAX];
    var z: seq<Limb> := [0, 0, 0, 0];
    assert Zeros(4) == z && b[1..] == [MAX];
    TimesIsProduct(MAX, MAX);
    assert MAX * MAX == 1 + BASE * (MAX - 1);
    assert Column(MAX, MAX, 0, 0) == 1 + BASE * (MAX - 1);
    assert Column(MAX, MAX, 0, MAX - 1) == MAX + BASE * (MAX - 1);
    assert Row(MAX, [], [0, 0], MAX - 1) == [MAX - 1, 0];
    assert Row(MAX, [MAX], [0, 0, 0], MAX - 1) == [MAX] + [MAX - 1, 0];
    var row := Row(MAX, b, z, 0);
    assert row == [1] + ([MAX] + [MAX - 1, 0]);
    var acc := row[1..];
    assert acc == [MAX, MAX - 1, 0];
    assert Column(MAX, MAX, MAX, 0) == 0 + BASE * MAX;
    assert acc[1..] == [MAX - 1, 0];
    assert !RowFits(MAX, [MAX], acc[1..], MAX);
    assert !RowFits(MAX, b, acc, 0);
    assert !RowsFit(b, b, z);
    ProductExactCondition(b, b);
  }

  // ---------- Multiplication with the whole column widened ----------

  /** Old digit and carry are added to the product in 128 bits. */
  function WideColumn(x: Limb, y: Limb, digit: Limb, carry: Limb): (r: int)
    ensures 0 <= r < BASE * BASE
    ensures 0 <= r / BASE < BASE
  {
    ColumnBound(x, y, digit, carry);
    Times(x, y) + digit + carry
  }

  function WideRow(x: Limb, b: seq<Limb>, acc: seq<Limb>, carry: Limb): (r: seq<Limb>)
    requires |acc| > |b| && acc[|b|] == 0
    ensures |r| == |acc|
    ensures forall k | |b| < k < |acc| :: r[k] == acc[k]
  {
    if b == [] then acc[0 := carry] else
    var prod := WideColumn(x, b[0], acc[0], carry);
    [prod % BASE] + WideRow(x, b[1..], acc[1..], prod / BASE)
  }

  function WideRows(a: seq<Limb>, b: seq<Limb>, acc: seq<Limb>): (r: seq<Limb>)
    requires |acc| == |a| + |b| && ZeroFrom(acc, |b|)
    ensures |r| == |acc|
  {
    if a == [] then acc else
    var row := WideRow(a[0], b, acc, 0);
    [row[0]] + WideRows(a[1..], b, row[1..])
  }

  lemma WideColumnValue(xy: nat, xb: nat, digit: Limb, high: nat, carry: Limb, prod: nat, row: nat)
    requires prod == xy + digit + carry && row == high + xb + prod / BASE
    ensures prod % BASE + BASE * row == digit + BASE * high + (xy + BASE * xb) + carry
  {
  }

  lemma WideRowUnfold(x: Limb, b: seq<Limb>, acc: seq<Limb>, carry: Limb, prod: nat)
    requires b != [] && |acc| > |b| && acc[|b|] == 0 && prod == WideColumn(x, b[0], acc[0], carry)
    ensures prod / BASE < BASE && prod == Times(x, b[0]) + acc[0] + carry
    ensures WideRow(x, b, acc, carry) == [prod % BASE] + WideRow(x, b[1..], acc[1..], prod / BASE)
  {
  }

  lemma {:induction false} WideRowValue(x: Limb, b: seq<Limb>, acc: seq<Limb>, carry: Limb)
    requires |acc| > |b| && acc[|b|] == 0
    ensures Val(WideRow(x, b, acc, carry)) == Val(acc) + Times(x, Val(b)) + carry
  {
    if b == [] {
      TimesIsProduct(x, 0);
      assert acc[0 := carry][1..] == acc[1..];
    } else {
      var prod: nat := WideColumn(x, b[0], acc[0], carry);
      WideRowUnfold(x, b, acc, carry, prod);
      var high: Limb := prod / BASE;
      var row := WideRow(x, b[1..], acc[1..], high);
      WideRowValue(x, b[1..], acc[1..], high);
      ConsValue(prod % BASE, row);
      TimesCons(x, b);
      WideColumnValue(Times(x, b[0]), Times(x, Val(b[1..])), acc[0], Val(acc[1..]), carry, prod, Val(row));
    }
  }

  lemma WideRowsUnfold(a: seq<Limb>, b: seq<Limb>, acc: seq<Limb>, row: seq<Limb>)
    requires a != [] && |acc| == |a| + |b| && ZeroFrom(acc, |b|) && row == WideRow(a[0], b, acc, 0)
    ensures WideRows(a, b, acc) == [row[0]] + WideRows(a[1..], b, row[1..])
  {
  }

  lemma {:induction false} WideRowsValue(a: seq<Limb>, b: seq<Limb>, acc: seq<Limb>)
    requires |acc| == |a| + |b| && ZeroFrom(acc, |b|)
    ensures Val(WideRows(a, b, acc)) == Val(acc) + Times(Val(b), Val(a))
  {
    if a == [] {
      TimesIsProduct(Val(b), 0);
    } else {
      var row := WideRow(a[0], b, acc, 0);
      var rows := WideRows(a[1..], b, row[1..]);
      WideRowsUnfold(a, b, acc, row);
      ConsValue(row[0], rows);
      WideRowValue(a[0], b, acc, 0);
      WideRowsValue(a[1..], b, row[1..]);
      TimesCons(Val(b), a);
      TimesSymmetric(Val(b), a[0]);
      RowsStep(Times(a[0], Val(b)), Times(Val(b), Val(a[1..])), Val(acc), row[0], Val(row[1..]), Val(rows), 0, 0);
    }
  }

  /** With every column summed in 128 bits the digits are those of the product, for all operands. */
  lemma WidenedProductExact(a: seq<Limb>, b: seq<Limb>)
    ensures Val(WideRows(a, b, Zeros(|a| + |b|))) == Val(a) * Val(b)
  {
    WideRowsValue(a, b, Zeros(|a| + |b|));
    ValZeros(Zeros(|a| + |b|));
    TimesIsProduct(Val(b), Val(a));
  }

  // ---------- Decimal shift and short division ----------

  function TimesTenPlus(ls: seq<Limb>, carry: Limb): (r: seq<Limb>)
    requires carry < 10
    ensures ls != [] ==> r != []
  {
    if ls == [] then CarryLimb(carry) else
    var prod := ls[0] * 10 + carry;
    [prod % BASE] + TimesTenPlus(ls[1..], prod / BASE)
  }

  lemma {:induction false} TimesTenValue(ls: seq<Limb>, carry: Limb)
    requires carry < 10
    ensures Val(TimesTenPlus(ls, carry)) == 10 * Val(ls) + carry
  {
    if ls != [] { TimesTenValue(ls[1..], (ls[0] * 10 + carry) / BASE); }
  }

  // ---------- Unfolding at an index ----------

  /** The limbs of b from index i on, none once b is used up. */
  function From(b: seq<Limb>, i: nat): seq<Limb> {
    if i < |b| then b[i..] else []
  }

  // Each predicate below is the invariant of one loop: the limbs from i on are untouched, and the
  // digits written so far plus the digits still owed are the final result. Each lemma is one turn.

  ghost predicate Untouched(r: seq<Limb>, a: seq<Limb>, i: nat) {
    |r| == |a| && i <= |a| && r[i..] == a[i..]
  }

  lemma StoreAt(r: seq<Limb>, a: seq<Limb>, i: nat, x: Limb, rest: seq<Limb>)
    requires i < |r| && Untouched(r, a, i)
    ensures r[i] == a[i] && Untouched(r[i := x], a, i + 1)
    ensures r[i := x][..i + 1] + rest == r[..i] + ([x] + rest)
  {
    assert r[i] == r[i..][0] && a[i] == a[i..][0];
    assert r[i + 1..] == r[i..][1..] && a[i + 1..] == a[i..][1..];
    assert r[i := x][i + 1..] == r[i + 1..];
  }

  ghost predicate Adding(a: seq<Limb>, b: seq<Limb>, r: seq<Limb>, i: nat, carry: Limb)
    requires |b| <= |a|
  {
    Untouched(r, a, i) && carry <= 1 && r[..i] + Sum(a[i..], From(b, i), carry) == Sum(a, b, 0)
  }

  lemma AddingStep(a: seq<Limb>, b: seq<Limb>, r: seq<Limb>, i: nat, carry: Limb, digit: Limb, carry': Limb)
    requires i < |a| && |b| <= |a| && Adding(a, b, r, i, carry)
    requires carry' * BASE + digit == r[i] + carry + (if i < |b| then b[i] else 0)
    ensures Adding(a, b, r[i := digit], i + 1, carry')
  {
    assert a[i..][1..] == a[i + 1..] && Tail(From(b, i)) == From(b, i + 1);
    StoreAt(r, a, i, digit, Sum(a[i + 1..], From(b, i + 1), carry'));
  }

  ghost predicate Subtracting(a: seq<Limb>, b: seq<Limb>, r: seq<Limb>, i: nat, borrow: Limb)
    requires |b| <= |a|
  {
    Untouched(r, a, i) && borrow <= 1 && r[..i] + Difference(a[i..], From(b, i), borrow) == Difference(a, b, 0)
  }

  lemma DifferenceTurn(a: seq<Limb>, b: seq<Limb>, borrow: Limb, digit: Limb, borrow': Limb)
    requires a != [] && |b| <= |a| && borrow <= 1 && borrow' <= 1
    requires digit - borrow' * BASE == a[0] - borrow - (if b != [] then b[0] else 0)
    ensures Difference(a, b, borrow) == [digit] + Difference(a[1..], Tail(b), borrow')
  {
  }

  lemma SubtractingStep(a: seq<Limb>, b: seq<Limb>, r: seq<Limb>, i: nat, borrow: Limb, digit: Limb, borrow': Limb)
    requires i < |a| && |b| <= |a| && borrow' <= 1 && Subtracting(a, b, r, i, borrow)
    requires digit - borrow' * BASE == r[i] - borrow - (if i < |b| then b[i] else 0)
    ensures Subtracting(a, b, r[i := digit], i + 1, borrow')
  {
    assert a[i..][1..] == a[i + 1..] && Tail(From(b, i)) == From(b, i + 1) && a[i..][0] == a[i] == r[i..][0];
    DifferenceTurn(a[i..], From(b, i), borrow, digit, borrow');
    StoreAt(r, a, i, digit, Difference(a[i + 1..], From(b, i + 1), borrow'));
  }

  ghost predicate AddingRow(x: Limb, b: seq<Limb>, acc: seq<Limb>, i: nat, r: seq<Limb>, j: nat, carry: Limb)
    requires j <= |b| && i + |b| < |acc| && acc[i + |b|] == 0
  {
    Untouched(r, acc, i + j) && r[..i + j] + Row(x, b[j..], acc[i + j..], carry) == acc[..i] + Row(x, b, acc[i..], 0)
  }

  lemma AddingRowStep(x: Limb, b: seq<Limb>, acc: seq<Limb>, i: nat, r: seq<Limb>, j: nat, carry: Limb, digit: Limb, carry': Limb)
    requires j < |b| && i + |b| < |acc| && acc[i + |b|] == 0 && AddingRow(x, b, acc, i, r, j, carry)
    requires digit == Column(x, b[j], r[i + j], carry) % BASE && carry' == Column(x, b[j], r[i + j], carry) / BASE
    ensures AddingRow(x, b, acc, i, r[i + j := digit], j + 1, carry')
  {
    assert b[j..][1..] == b[j + 1..] && acc[i + j..][1..] == acc[i + j + 1..];
    assert b[j..][0] == b[j] && acc[i + j..][0] == r[i + j..][0] == r[i + j];
    RowUnfold(x, b[j..], acc[i + j..], carry, Column(x, b[j], r[i + j], carry));
    StoreAt(r, acc, i + j, digit, Row(x, b[j + 1..], acc[i + j + 1..], carry'));
  }

  lemma AddingRowLast(x: Limb, b: seq<Limb>, acc: seq<Limb>, i: nat, r: seq<Limb>, carry: Limb)
    requires i + |b| < |acc| && acc[i + |b|] == 0 && AddingRow(x, b, acc, i, r, |b|, carry)
    ensures r[i + |b|] == 0 && r[i + |b| := carry] == acc[..i] + Row(x, b, acc[i..], 0)
  {
    UntouchedTail(r, acc, i + |b|);
    RowEnd(x, b[|b|..], acc[i + |b|..], carry);
    ReplaceAt(r, i + |b|, carry);
  }

  lemma UntouchedTail(r: seq<Limb>, acc: seq<Limb>, m: nat)
    requires Untouched(r, acc, m) && m < |acc|
    ensures r[m..] == acc[m..] && r[m] == acc[m]
  {
  }

  lemma ReplaceAt(r: seq<Limb>, m: nat, digit: Limb)
    requires m < |r|
    ensures r[m := digit] == r[..m] + r[m..][0 := digit]
  {
  }

  lemma RowEnd(x: Limb, none: seq<Limb>, acc: seq<Limb>, carry: Limb)
    requires none == [] && acc != [] && acc[0] == 0
    ensures Row(x, none, acc, carry) == acc[0 := carry]
  {
  }

  ghost predicate Multiplying(a: seq<Limb>, b: seq<Limb>, r: seq<Limb>, i: nat)
    requires i <= |a| && |r| == |a| + |b|
  {
    ZeroFrom(r, i + |b|) && r[..i] + Rows(a[i..], b, r[i..]) == Product(a, b)
  }

  lemma MultiplyingStart(a: seq<Limb>, b: seq<Limb>)
    ensures Multiplying(a, b, Zeros(|a| + |b|), 0)
  {
    var z := Zeros(|a| + |b|);
    assert a[0..] == a && z[0..] == z && z[..0] == [];
  }

  lemma MultiplyingStep(a: seq<Limb>, b: seq<Limb>, r: seq<Limb>, r': seq<Limb>, i: nat)
    requires i < |a| && |r| == |a| + |b| && Multiplying(a, b, r, i)
    requires r' == r[..i] + Row(a[i], b, r[i..], 0)
    ensures |r'| == |a| + |b| && Multiplying(a, b, r', i + 1)
  {
    var rest: seq<Limb>, acc: seq<Limb> := a[i..], r[i..];
    var row := Row(rest[0], b, acc, 0);
    assert rest[1..] == a[i + 1..] && r'[i + 1..] == row[1..];
    RowsUnfold(rest, b, acc, row);
    Shifted(r, r', i, row, Rows(rest[1..], b, row[1..]));
    forall k | i + 1 + |b| <= k < |r'| ensures r'[k] == 0 {
      assert r'[k] == row[k - i] == acc[k - i] == r[k];
    }
  }

  lemma Shifted(r: seq<Limb>, r': seq<Limb>, i: nat, row: seq<Limb>, rest: seq<Limb>)
    requires i <= |r| && row != [] && r' == r[..i] + row
    ensures r'[..i + 1] + rest == r[..i] + ([row[0]] + rest)
  {
  }

  lemma MultiplyingEnd(a: seq<Limb>, b: seq<Limb>, r: seq<Limb>)
    requires |r| == |a| + |b| && Multiplying(a, b, r, |a|)
    ensures r == Product(a, b)
  {
    assert a[|a|..] == [] && Rows([], b, r[|a|..]) == r[|a|..];
    assert r[..|a|] + r[|a|..] == r;
  }

  ghost predicate Shifting(ls: seq<Limb>, digit: nat, r: seq<Limb>, i: nat, carry: Limb)
    requires digit < 10
  {
    Untouched(r, ls, i) && carry < 10 && r[..i] + TimesTenPlus(ls[i..], carry) == TimesTenPlus(ls, digit)
  }

  lemma ShiftingStep(ls: seq<Limb>, digit: nat, r: seq<Limb>, i: nat, carry: Limb, low: Limb, carry': Limb)
    requires digit < 10 && i < |ls| && Shifting(ls, digit, r, i, carry)
    requires carry' * BASE + low == r[i] * 10 + carry
    ensures Shifting(ls, digit, r[i := low], i + 1, carry')
  {
    assert ls[i..][1..] == ls[i + 1..];
    StoreAt(r, ls, i, low, TimesTenPlus(ls[i + 1..], carry'));
  }
}
