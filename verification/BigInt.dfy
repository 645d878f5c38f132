/** The large representation of src/backend/big_int.hh: a sign and a limb vector updated in place. */
module BigInts {
  import opened Common
  import opened Limbs
  import opened Decimals

  function Signed(negative: bool, magnitude: nat): int {
    var m: int := magnitude;
    if negative then -m else m
  }

  class LargeRep {
    var limbs: seq<Limb>
    var negative: bool

    constructor (limbs: seq<Limb>, negative: bool)
      ensures this.limbs == limbs && this.negative == negative
    {
      this.limbs, this.negative := limbs, negative;
    }

    ghost function Value(): int
      reads this
    {
      Signed(negative, Val(limbs))
    }

    /** No leading zero limb, and zero is not negative. */
    ghost predicate Normalized()
      reads this
    {
      Canonical(limbs) && (Val(limbs) == 0 ==> !negative)
    }

    method NormalizeLarge()
      requires limbs != []
      modifies this
      ensures Normalized() && Value() == old(Value()) && limbs == Trim(old(limbs))
      ensures Val(limbs) != 0 ==> negative == old(negative)
    {
      TrimValue(limbs);
      while |limbs| > 1 && limbs[|limbs| - 1] == 0
        invariant limbs != [] && Trim(limbs) == Trim(old(limbs)) && negative == old(negative)
        decreases |limbs|
      {
        limbs := limbs[..|limbs| - 1];
      }
      CanonicalZero(limbs);
      if |limbs| == 1 && limbs[0] == 0 {
        negative := false;
      }
    }

    method AddMagnitude(other: seq<Limb>)
      requires limbs != []
      modifies this`limbs
      ensures limbs != [] && Val(limbs) == old(Val(limbs)) + Val(other)
    {
      var maxSize := if |limbs| > |other| then |limbs| else |other|;
      ValPadded(limbs, maxSize - |limbs|);
      var carry;
      limbs, carry := AddLimbs(limbs + Zeros(maxSize - |limbs|), other);
      SumValue(old(limbs) + Zeros(maxSize - |old(limbs)|), other, 0);
      assert limbs + [] == limbs;
      if carry > 0 {
        limbs := limbs + [carry];
      }
    }

    method SubtractMagnitude(other: seq<Limb>)
      requires |other| <= |limbs| && Val(other) <= Val(limbs)
      modifies this`limbs
      ensures |limbs| == |old(limbs)| && Val(limbs) == old(Val(limbs)) - Val(other)
    {
      DifferenceValue(limbs, other, 0);
      limbs := SubtractLimbs(limbs, other);
    }

    /** The sign of the difference of the magnitudes. */
    method CompareMagnitude(other: seq<Limb>) returns (c: int)
      requires Canonical(limbs) && Canonical(other)
      ensures c > 0 <==> Val(limbs) > Val(other)
      ensures c == 0 <==> limbs == other
      ensures c < 0 <==> Val(limbs) < Val(other)
      ensures if c >= 0 then |other| <= |limbs| else |limbs| <= |other|
    {
      var a: seq<Limb> := limbs;
      if |a| != |other| {
        if |a| > |other| {
          LongerIsGreater(a, other);
          return 1;
        } else {
          LongerIsGreater(other, a);
          return -1;
        }
      }
      var i := |a| - 1;
      while i >= 0
        invariant -1 <= i < |a| && forall k | i < k < |a| :: a[k] == other[k]
      {
        if a[i] != other[i] {
          assert a[i + 1..] == other[i + 1..];
          if a[i] > other[i] {
            HighLimbDecides(a, other, i);
            return 1;
          } else {
            HighLimbDecides(other, a, i);
            return -1;
          }
        }
        i := i - 1;
      }
      assert a == other;
      return 0;
    }

    /** Signed addition; only the limbs of the operands need be canonical, not the sign of a zero. */
    method AddLarge(other: LargeRep)
      requires Canonical(limbs) && Canonical(other.limbs)
      modifies this
      ensures Normalized() && Value() == old(Value()) + old(other.Value())
    {
      if negative == other.negative {
        AddMagnitude(other.limbs);
      } else {
        var c := CompareMagnitude(other.limbs);
        if c >= 0 {
          SubtractMagnitude(other.limbs);
        } else {
          var temp: seq<Limb> := limbs;
          limbs := other.limbs;
          negative := other.negative;
          SubtractMagnitude(temp);
        }
      }
      NormalizeLarge();
    }

    method SubtractLarge(other: LargeRep)
      requires Canonical(limbs) && Canonical(other.limbs)
      modifies this
      ensures Normalized() && Value() == old(Value()) - old(other.Value())
    {
      var negated := new LargeRep(other.limbs, !other.negative);
      AddLarge(negated);
    }

    /**
     Schoolbook multiplication. The result is the signed product exactly when no column sum of an
     old digit and a carry overflows its 64 bits, and is too small in magnitude otherwise.
     */
    method MultiplyLarge(other: LargeRep)
      requires Canonical(limbs) && Canonical(other.limbs)
      modifies this
      ensures Normalized() && Val(limbs) == Val(Product(old(limbs), old(other.limbs)))
      ensures Value() == old(Value()) * old(other.Value()) <==> ColumnsFit(old(limbs), old(other.limbs))
      ensures Val(limbs) != 0 ==> negative == (old(negative) != old(other.negative))
    {
      var result: seq<Limb> := MultiplyLimbs(limbs, other.limbs);
      ProductExactCondition(limbs, other.limbs);
      SignedProduct(negative, other.negative, Val(limbs), Val(other.limbs), Val(result));
      limbs := result;
      negative := negative != other.negative;
      NormalizeLarge();
    }

    /** Reads an optional sign, then digits up to the first other character. */
    method ParseLargeRep(s: string, negative: bool)
      modifies this
      ensures Normalized()
      ensures Value() == Signed(negative, Number(DigitRun(Unsigned(s))))
    {
      var p := Unsigned(s);
      limbs := [0];
      this.negative := negative;
      ghost var read := "";
      while p != "" && IsDigit(p[0])
        invariant limbs != [] && this.negative == negative
        invariant AllDigits(read) && Val(limbs) == Number(read)
        invariant read + DigitRun(p) == DigitRun(Unsigned(s))
        decreases |p|
      {
        limbs := MultiplyByTenAndAdd(limbs, DigitValue(p[0]));
        NumberSnoc(read, p[0]);
        DigitRunStep(read, p);
        read := read + [p[0]];
        p := p[1..];
      }
      assert DigitRun(p) == "" && read + "" == read;
      NormalizeLarge();
    }

    method ToStringLarge() returns (text: string)
      ensures text == (if negative && Val(limbs) != 0 then "-" else "") + Decimal(Val(limbs))
    {
      if limbs == [] || (|limbs| == 1 && limbs[0] == 0) {
        return "0";
      }
      var result := DigitsBackwards(limbs);
      if Val(limbs) > 0 { DigitsRead(Val(limbs)); }
      assert result == "0" <==> Val(limbs) == 0 by { ReversedTwice(result); }
      if negative && result != "0" {
        ReversedSnoc(result, '-');
        result := result + "-";
      }
      text := Reversed(result);
    }
  }

  /** Repeated short division by ten, least significant digit first. */
  method DigitsBackwards(ls: seq<Limb>) returns (result: string)
    requires ls != [] && ls != [0]
    ensures Reversed(result) == Decimal(Val(ls))
  {
    var temp: seq<Limb> := ls;
    result := "";
    while |temp| > 1 || temp[0] > 0
      invariant temp != [] && (result != "" ==> Canonical(temp))
      invariant if result == "" then temp == ls else Digits(Val(temp)) + Reversed(result) == Decimal(Val(ls))
      decreases Val(temp), |temp|
    {
      ghost var n := Val(temp);
      if Canonical(temp) { CanonicalZero(temp); }
      var remainder;
      temp, remainder := DivideByTen(temp);
      DigitsStep(n, result);
      result := result + [DigitChar(remainder)];
      temp := DropLeadingZeros(temp);
      CanonicalZero(temp);
    }
  }

  /** The text after an optional sign. */
  function Unsigned(s: string): string {
    if s != "" && (s[0] == '-' || s[0] == '+') then s[1..] else s
  }

  /** One sign is skipped, plus or minus, and nothing else. */
  lemma OneSignIsSkipped(s: string)
    ensures Unsigned("-" + s) == s && Unsigned("+" + s) == s
    ensures s != "" && s[0] != '-' && s[0] != '+' ==> Unsigned(s) == s
    ensures Unsigned("") == ""
  {
  }

  lemma SignedProduct(p: bool, q: bool, a: nat, b: nat, n: nat)
    requires n <= a * b
    ensures Signed(p != q, n) == Signed(p, a) * Signed(q, b) <==> n == a * b
  {
    var x: int, y: int := a, b;
    assert -x * y == -(x * y) && x * -y == -(x * y) && -x * -y == x * y;
  }

  /** The carry loop: the digits of the sum, and the carry out of the last limb. */
  method AddLimbs(a: seq<Limb>, b: seq<Limb>) returns (r: seq<Limb>, carry: Limb)
    requires |b| <= |a|
    ensures |r| == |a| && carry <= 1 && r + CarryLimb(carry) == Sum(a, b, 0)
  {
    r, carry := a, 0;
    for i := 0 to |a|
      invariant Adding(a, b, r, i, carry)
    {
      var s: int := r[i] + carry;
      if i < |b| { s := s + b[i]; }
      var low: Limb, high: Limb := s % BASE, s / BASE;
      AddingStep(a, b, r, i, carry, low, high);
      r, carry := r[i := low], high;
    }
    assert r[..|a|] == r;
  }

  /** The borrow loop. */
  method SubtractLimbs(a: seq<Limb>, b: seq<Limb>) returns (r: seq<Limb>)
    requires |b| <= |a|
    ensures r == Difference(a, b, 0)
  {
    r := a;
    var borrow: Limb := 0;
    for i := 0 to |a|
      invariant Subtracting(a, b, r, i, borrow)
    {
      var diff: int := r[i] - borrow;
      var borrow': Limb := 0;
      if i < |b| { diff := diff - b[i]; }
      if diff < 0 {
        diff := diff + BASE;
        borrow' := 1;
      }
      var digit: Limb := diff;
      SubtractingStep(a, b, r, i, borrow, digit, borrow');
      r, borrow := r[i := digit], borrow';
    }
    assert r[..|a|] == r && r + [] == r;
  }

  /** The inner loop: adds x * b into result from index i on. */
  method MultiplyRow(x: Limb, b: seq<Limb>, result: seq<Limb>, i: nat) returns (r: seq<Limb>)
    requires i + |b| < |result| && result[i + |b|] == 0
    ensures r == result[..i] + Row(x, b, result[i..], 0)
  {
    var carry: Limb := 0;
    r := result;
    for j := 0 to |b|
      invariant AddingRow(x, b, result, i, r, j, carry)
    {
      var prod := Column(x, b[j], r[i + j], carry);
      var low: Limb, high: Limb := prod % BASE, prod / BASE;
      AddingRowStep(x, b, result, i, r, j, carry, low, high);
      r, carry := r[i + j := low], high;
    }
    AddingRowLast(x, b, result, i, r, carry);
    if carry > 0 {
      // The slot is still zero, so this sum does not wrap.
      var last: Limb := (r[i + |b|] + carry) % BASE;
      r := r[i + |b| := last];
    }
  }

  method MultiplyLimbs(a: seq<Limb>, b: seq<Limb>) returns (result: seq<Limb>)
    requires b != []
    ensures result == Product(a, b) && |result| == |a| + |b|
  {
    result := Zeros(|a| + |b|);
    MultiplyingStart(a, b);
    for i := 0 to |a|
      invariant |result| == |a| + |b| && Multiplying(a, b, result, i)
    {
      ghost var before: seq<Limb> := result;
      result := MultiplyRow(a[i], b, result, i);
      MultiplyingStep(a, b, before, result, i);
    }
    MultiplyingEnd(a, b, result);
  }

  method MultiplyByTenAndAdd(ls: seq<Limb>, digit: nat) returns (r: seq<Limb>)
    requires ls != [] && digit < 10
    ensures r != [] && Val(r) == 10 * Val(ls) + digit
  {
    TimesTenValue(ls, digit);
    var carry: Limb := digit;
    r := ls;
    for i := 0 to |ls|
      invariant Shifting(ls, digit, r, i, carry)
    {
      var prod: int := r[i] * 10 + carry;
      var low: Limb, high: Limb := prod % BASE, prod / BASE;
      ShiftingStep(ls, digit, r, i, carry, low, high);
      r, carry := r[i := low], high;
    }
    assert r[..|ls|] == r && r + [] == r;
    if carry > 0 {
      r := r + [carry];
    }
  }

  method DivideByTen(ls: seq<Limb>) returns (r: seq<Limb>, remainder: nat)
    ensures |r| == |ls| && Val(r) == Val(ls) / 10 && remainder == Val(ls) % 10
  {
    r, remainder := ls, 0;
    for i := |ls| downto 0
      invariant |r| == |ls| && remainder < 10 && r[..i] == ls[..i]
      invariant Val(ls[i..]) == 10 * Val(r[i..]) + remainder
    {
      ghost var before: seq<Limb> := r;
      var current: int := remainder * BASE + r[i];
      var quotient: Limb := current / 10;
      r := r[i := quotient];
      remainder := current % 10;
      assert r[i..] == [quotient] + before[i + 1..] && ls[i..][1..] == ls[i + 1..];
    }
    assert r[0..] == r && ls[0..] == ls;
  }

  method DropLeadingZeros(ls: seq<Limb>) returns (r: seq<Limb>)
    requires ls != []
    ensures r == Trim(ls) && Val(r) == Val(ls) && Canonical(r)
  {
    TrimValue(ls);
    r := ls;
    while |r| > 1 && r[|r| - 1] == 0
      invariant r != [] && Trim(r) == Trim(ls)
      decreases |r|
    {
      r := r[..|r| - 1];
    }
  }

  /** Printing a normalized number and parsing the text gives back the same sign and the same limbs. */
  method PrintThenParse(x: LargeRep) returns (text: string, y: LargeRep)
    requires x.Normalized()
    ensures fresh(y) && y.negative == x.negative && y.limbs == x.limbs
    ensures DigitRun(Unsigned(text)) == Unsigned(text)
    ensures Unsigned(text) != "" && (Unsigned(text) == "0" || Unsigned(text)[0] != '0')
  {
    text := x.ToStringLarge();
    y := new LargeRep([0], false);
    PrintedText(text, x.negative && Val(x.limbs) != 0, Val(x.limbs));
    y.ParseLargeRep(text, text[0] == '-');
    CanonicalUnique(x.limbs, y.limbs);
  }

  lemma PrintedText(text: string, minus: bool, n: nat)
    requires text == (if minus then "-" else "") + Decimal(n)
    ensures text != "" && (text[0] == '-' <==> minus)
    ensures Unsigned(text) == Decimal(n) == DigitRun(Decimal(n)) && AllDigits(Decimal(n)) && Decimal(n) != ""
    ensures Number(Decimal(n)) == n && (Decimal(n)[0] == '0' ==> Decimal(n) == "0")
  {
    DecimalRoundTrip(n);
    DigitRunAll(Decimal(n));
    DigitsRead(n);
    assert IsDigit(Decimal(n)[0]);
  }
}
