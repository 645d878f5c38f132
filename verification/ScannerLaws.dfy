/** The lexical grammar the scanner follows: what each step has gone over, told without the scanner's own functions. */
module ScannerLaws {
  import opened Common
  import opened ScannerModel

  /** Letters are those of ASCII with the underscore, digits the ten, blanks the space, the tab and the carriage return. */
  lemma CharacterClasses(c: char)
    ensures var n := c as int;
            && (IsAlpha(c) <==> 65 <= n <= 90 || 97 <= n <= 122 || n == 95) && (IsDigit(c) <==> 48 <= n <= 57)
            && (IsBlank(c) <==> n == 32 || n == 9 || n == 13) && (IsAlphaNumeric(c) <==> IsAlpha(c) || IsDigit(c))
  {
  }

  // ---------- Runs of characters ----------

  /** From i to n all characters are of that kind, and the next one is not. */
  ghost predicate LongestRun(s: string, i: nat, n: nat, kind: char -> bool) {
    i <= n <= |s| && (forall k | i <= k < n :: kind(s[k])) && (n < |s| ==> !kind(s[n]))
  }

  lemma {:induction false} DigitsAreLongest(s: string, i: nat)
    requires i <= |s|
    ensures LongestRun(s, i, DigitsEnd(s, i), IsDigit)
    decreases |s| - i
  {
    if i < |s| && IsDigit(s[i]) { DigitsAreLongest(s, i + 1); }
  }

  lemma {:induction false} WordIsLongest(s: string, i: nat)
    requires i <= |s|
    ensures LongestRun(s, i, WordEnd(s, i), IsAlphaNumeric)
    decreases |s| - i
  {
    if i < |s| && IsAlphaNumeric(s[i]) { WordIsLongest(s, i + 1); }
  }

  lemma {:induction false} BlanksAreLongest(s: string, i: nat)
    requires i <= |s|
    ensures LongestRun(s, i, BlankEnd(s, i), IsBlank)
    decreases |s| - i
  {
    if i < |s| && IsBlank(s[i]) { BlanksAreLongest(s, i + 1); }
  }

  predicate NoBreak(c: char) { c != '\n' }

  lemma {:induction false} LineIsLongest(s: string, i: nat)
    requires i <= |s|
    ensures LongestRun(s, i, LineEnd(s, i), NoBreak)
    decreases |s| - i
  {
    if i < |s| && s[i] != '\n' { LineIsLongest(s, i + 1); }
  }

  // ---------- Block comments ----------

  predicate ClosesComment(s: string, k: nat) { k + 1 < |s| && s[k] == '*' && s[k + 1] == '/' }

  /** n is just past the first star and slash from i on, or the end if there is none. */
  ghost predicate CommentEnds(s: string, i: nat, n: nat) {
    || (n >= i + 2 && ClosesComment(s, n - 2) && forall k | i <= k < n - 2 :: !ClosesComment(s, k))
    || (n == (if i > |s| then i else |s|) && forall k | i <= k :: !ClosesComment(s, k))
  }

  lemma {:induction false} CommentEndsFirst(s: string, i: nat)
    ensures CommentEnds(s, i, BlockEnd(s, i))
    decreases |s| - i
  {
    if i < |s| && !ClosesComment(s, i) {
      CommentEndsFirst(s, i + 1);
      assert BlockEnd(s, i) == BlockEnd(s, i + 1);
    }
  }

  // ---------- Strings ----------

  /** How many backslashes stand directly before k, not counting any before i. */
  function Backslashes(s: string, i: nat, k: nat): nat
    requires k <= |s|
  {
    if k > i && s[k - 1] == '\\' then 1 + Backslashes(s, i, k - 1) else 0
  }

  /** A character counts as itself unless an odd number of backslashes stands before it. */
  predicate Bare(s: string, i: nat, k: nat)
    requires k <= |s|
  {
    Backslashes(s, i, k) % 2 == 0
  }

  /** An escape at i leaves the parity as it was. */
  lemma {:induction false} EscapeKeepsParity(s: string, i: nat, k: nat)
    requires i + 2 <= k <= |s| && s[i] == '\\'
    ensures var n := Backslashes(s, i + 2, k); Backslashes(s, i, k) == n || Backslashes(s, i, k) == n + 2
    decreases k
  {
    if k == i + 2 {
      assert Backslashes(s, i, i + 1) == 1 + Backslashes(s, i, i);
    } else if s[k - 1] == '\\' {
      EscapeKeepsParity(s, i, k - 1);
    }
  }

  lemma {:induction false} OtherKeepsParity(s: string, i: nat, k: nat)
    requires i + 1 <= k <= |s| && s[i] != '\\'
    ensures Backslashes(s, i, k) == Backslashes(s, i + 1, k)
    decreases k
  {
    if k > i + 1 && s[k - 1] == '\\' { OtherKeepsParity(s, i, k - 1); }
  }

  predicate Opens(s: string, b: nat, quote: char)
    requires b < |s|
  {
    s[b] == '{' && LooksInterpolated(s, b + 1, quote)
  }

  /** Nothing from i up to n that counts as itself closes the string or opens an interpolation. */
  ghost predicate Runs(s: string, i: nat, n: nat, quote: char)
    requires n <= |s|
  {
    forall k | i <= k < n && Bare(s, i, k) :: s[k] != quote && !Opens(s, k, quote)
  }

  /** The string closes with its first bare quote, unless an interpolation comes first, or runs to the end. */
  ghost predicate StringEnds(s: string, i: nat, quote: char, r: StringScan) {
    match r
    case Closed(n) => i < n <= |s| && s[n - 1] == quote && Bare(s, i, n - 1) && Runs(s, i, n - 1, quote)
    case Interpolation(b) => i <= b < |s| && s[b] != quote && Bare(s, i, b) && Opens(s, b, quote) && Runs(s, i, b, quote)
    case Unclosed(_) => Runs(s, i, |s|, quote)
  }

  lemma {:induction false} FirstBareQuoteCloses(s: string, i: nat, quote: char)
    requires i <= |s| + 1 && quote != '\\' && quote != '{'
    ensures StringEnds(s, i, quote, StringFrom(s, i, quote))
    decreases |s| + 1 - i
  {
    if i >= |s| || s[i] == quote || (s[i] == '{' && LooksInterpolated(s, i + 1, quote)) { return; }
    if s[i] == '\\' {
      FirstBareQuoteCloses(s, i + 2, quote);
      EndsBehindEscape(s, i, quote, StringFrom(s, i, quote));
    } else {
      FirstBareQuoteCloses(s, i + 1, quote);
      EndsBehindOther(s, i, quote, StringFrom(s, i, quote));
    }
  }

  lemma BareBehind(s: string, i: nat, k: nat)
    requires i + 2 <= k <= |s| && s[i] == '\\'
    ensures Bare(s, i, k) <==> Bare(s, i + 2, k)
  {
    EscapeKeepsParity(s, i, k);
  }

  lemma BareBehindEscape(s: string, i: nat)
    requires i < |s| && s[i] == '\\'
    ensures !Bare(s, i, i + 1)
    ensures forall k | i + 2 <= k <= |s| :: Bare(s, i, k) <==> Bare(s, i + 2, k)
  {
    assert Backslashes(s, i, i + 1) == 1 + Backslashes(s, i, i);
    forall k | i + 2 <= k <= |s| ensures Bare(s, i, k) <==> Bare(s, i + 2, k) { BareBehind(s, i, k); }
  }

  lemma RunsBehindEscape(s: string, i: nat, n: nat, quote: char)
    requires i < |s| && s[i] == '\\' && quote != '\\' && n <= |s| && Runs(s, i + 2, n, quote)
    ensures Runs(s, i, n, quote)
  {
    BareBehindEscape(s, i);
    forall k | i <= k < n && Bare(s, i, k) ensures s[k] != quote && !Opens(s, k, quote) {
      assert k != i + 1;
      assert k == i || Bare(s, i + 2, k);
    }
  }

  lemma EndsBehindEscape(s: string, i: nat, quote: char, r: StringScan)
    requires i < |s| && s[i] == '\\' && quote != '\\' && StringEnds(s, i + 2, quote, r)
    ensures StringEnds(s, i, quote, r)
  {
    match r
    case Closed(n) =>
      BareBehind(s, i, n - 1);
      RunsBehindEscape(s, i, n - 1, quote);
    case Interpolation(b) =>
      BareBehind(s, i, b);
      RunsBehindEscape(s, i, b, quote);
    case Unclosed(_) =>
      RunsBehindEscape(s, i, |s|, quote);
  }

  lemma EndsBehindOther(s: string, i: nat, quote: char, r: StringScan)
    requires i < |s| && s[i] != '\\' && s[i] != quote && !Opens(s, i, quote) && StringEnds(s, i + 1, quote, r)
    ensures StringEnds(s, i, quote, r)
  {
    forall k | i + 1 <= k <= |s| ensures Bare(s, i, k) <==> Bare(s, i + 1, k) { OtherKeepsParity(s, i, k); }
  }

  predicate Plain(c: char) { IsDigit(c) || c == ',' || c == ' ' }

  /** Digits, commas and spaces, then something that is neither of them nor the end of the braces or of the string. */
  lemma {:induction false} InterpolationLooksLike(s: string, i: nat, quote: char)
    ensures LooksInterpolated(s, i, quote) <==>
              exists j | i <= j < |s| :: (forall k | i <= k < j :: Plain(s[k]) && s[k] != quote)
                                         && !Plain(s[j]) && s[j] != '}' && s[j] != quote
    decreases |s| - i
  {
    if i < |s| && s[i] != '}' && s[i] != quote && Plain(s[i]) {
      InterpolationLooksLike(s, i + 1, quote);
      if LooksInterpolated(s, i + 1, quote) {
        var j :| i + 1 <= j < |s| && (forall k | i + 1 <= k < j :: Plain(s[k]) && s[k] != quote)
                 && !Plain(s[j]) && s[j] != '}' && s[j] != quote;
        assert forall k | i <= k < j :: Plain(s[k]) && s[k] != quote;
      }
    }
  }

  // ---------- Numbers ----------

  predicate DigitAt(s: string, i: nat) { i < |s| && IsDigit(s[i]) }

  predicate SignAt(s: string, i: nat) { i < |s| && (s[i] == '+' || s[i] == '-') }

  /** From i to n stands a point with digits behind it, or nothing if there is none. */
  ghost predicate IsFraction(s: string, i: nat, n: nat) {
    if i < |s| && s[i] == '.' && DigitAt(s, i + 1) then n > i + 1 && LongestRun(s, i + 1, n, IsDigit) else n == i
  }

  /** From i to n stand an e, perhaps a sign, and digits, or nothing if they do not. */
  ghost predicate IsExponent(s: string, i: nat, n: nat) {
    var j := if SignAt(s, i + 1) then i + 2 else i + 1;
    if i < |s| && (s[i] == 'e' || s[i] == 'E') && DigitAt(s, j) then n > j && LongestRun(s, j, n, IsDigit) else n == i
  }

  lemma FractionAndExponent(s: string, i: nat)
    requires i <= |s|
    ensures IsFraction(s, i, FractionEnd(s, i)) && IsExponent(s, i, ExponentEnd(s, i))
  {
    var j := if SignAt(s, i + 1) then i + 2 else i + 1;
    if i < |s| { DigitsAreLongest(s, i + 1); }
    if j <= |s| { DigitsAreLongest(s, j); }
  }

  predicate WordGoesOn(s: string, i: nat) { i < |s| && IsAlphaNumeric(s[i]) }

  predicate IsSuffix(s: string, i: nat, n: nat)
  {
    i <= n <= |s| && s[i..n] in ["s", "ms", "us", "ns"] && !WordGoesOn(s, n)
  }

  /** From i to n stands a time suffix that no letter or digit follows, or nothing if none does. */
  ghost predicate IsSuffixOrNone(s: string, i: nat, n: nat) {
    IsSuffix(s, i, n) || (n == i && forall m :: !IsSuffix(s, i, m))
  }

  lemma SuffixIs(s: string, i: nat)
    requires i <= |s|
    ensures IsSuffixOrNone(s, i, SuffixEnd(s, i))
  {
    if SuffixEnd(s, i) == i {
      forall n | i <= n <= |s| ensures !IsSuffix(s, i, n) {
        if n == i + 1 { assert s[i..n] == [s[i]]; }
        if n == i + 2 { assert s[i..n] == [s[i], s[i + 1]]; }
      }
    } else {
      var n := SuffixEnd(s, i);
      if n == i + 1 { assert s[i..n] == [s[i]]; } else { assert s[i..n] == [s[i], s[i + 1]]; }
    }
  }

  ghost predicate NumberParts(s: string, i: nat, a: nat, b: nat, c: nat, n: nat, kind: Kind) {
    && LongestRun(s, i, a, IsDigit) && IsFraction(s, a, b) && IsExponent(s, b, c) && IsSuffixOrNone(s, c, n)
    && kind == if c != b then ScientificLiteral else if b != a then FloatLiteral else IntLiteral
  }

  /** Digits, fraction, exponent and suffix; the kind tells which of fraction and exponent there is. */
  ghost predicate IsNumber(s: string, i: nat, n: nat, kind: Kind) {
    exists a: nat, b: nat, c: nat :: NumberParts(s, i, a, b, c, n, kind)
  }

  lemma NumberIs(s: string, i: nat)
    requires i <= |s|
    ensures IsNumber(s, i, NumberScan(s, i).1, NumberScan(s, i).0)
  {
    DigitsAreLongest(s, i);
    var a := DigitsEnd(s, i);
    FractionAndExponent(s, a);
    var b := FractionEnd(s, a);
    FractionAndExponent(s, b);
    var c := ExponentEnd(s, b);
    SuffixIs(s, c);
    assert NumberParts(s, i, a, b, c, NumberScan(s, i).1, NumberScan(s, i).0);
  }

  // ---------- Operators ----------

  predicate IsOperator(text: string) {
    || (|text| == 1 && text[0] in "(){}[],?:;|&^~_.-*=+!<>/%")
    || text in ["..", "->", "-=", "**", "*=", "==", "=>", "+=", "!=", "<=", ">=", "/=", "%=", "..."]
  }

  /** The longest operator that stands at i, if any does. */
  lemma OperatorIsLongest(s: string, i: nat)
    requires i < |s|
    ensures match OperatorEnd(s, s[i], i + 1)
            case Some(n) => IsOperator(s[i..n]) && forall m | n < m <= |s| :: !IsOperator(s[i..m])
            case None => forall m | i <= m <= |s| :: !IsOperator(s[i..m])
  {
    var r := OperatorEnd(s, s[i], i + 1);
    forall m | i < m <= |s| ensures IsOperator(s[i..m]) <==> StandsAt(s, i, m) { OperatorAt(s, i, m); }
    OperatorEndIs(s, i);
  }

  /** The same, character by character. */
  predicate StandsAt(s: string, i: nat, m: nat)
    requires i < m <= |s|
  {
    || (m == i + 1 && s[i] in "(){}[],?:;|&^~_.-*=+!<>/%")
    || (m == i + 2 && ((s[i + 1] == '=' && s[i] in "-*=+!<>/%") || (s[i + 1] == '>' && s[i] in "-=")
                       || (s[i + 1] == s[i] && s[i] in ".*")))
    || (m == i + 3 && s[i] == s[i + 1] == s[i + 2] == '.')
  }

  lemma OperatorAt(s: string, i: nat, m: nat)
    requires i < m <= |s|
    ensures IsOperator(s[i..m]) <==> StandsAt(s, i, m)
  {
    var t := s[i..m];
    if m == i + 1 { assert t == [s[i]]; }
    if m == i + 2 { assert t == [s[i], s[i + 1]]; }
    if m == i + 3 { assert t == [s[i], s[i + 1], s[i + 2]]; }
  }

  lemma OperatorEndIs(s: string, i: nat)
    requires i < |s|
    ensures match OperatorEnd(s, s[i], i + 1)
            case Some(n) => i < n <= |s| && StandsAt(s, i, n) && forall m | n < m <= |s| :: !StandsAt(s, i, m)
            case None => forall m | i < m <= |s| :: !StandsAt(s, i, m)
  {
  }

  // ---------- One step ----------

  predicate Starts(s: string, i: nat, c: char, d: char) { i + 1 < |s| && s[i] == c && s[i + 1] == d }

  ghost predicate IsWord(s: string, i: nat, n: nat)
    requires i < |s|
  {
    && IsAlpha(s[i]) && LongestRun(s, i, n, IsAlphaNumeric)
    && (s[i] == '_' ==> i + 1 < |s| && IsAlpha(s[i + 1]))
  }

  ghost predicate LongestOperator(s: string, i: nat, n: nat) {
    && i < n <= |s| && IsOperator(s[i..n]) && !Starts(s, i, '/', '/') && !Starts(s, i, '/', '*')
    && forall m | n < m <= |s| :: !IsOperator(s[i..m])
  }

  ghost predicate IsAnnotation(s: string, i: nat, n: nat)
    requires i < |s|
  {
    s[i] == '@' && LongestRun(s, i + 1, n, IsAlphaNumeric)
  }

  const KNOWN := ["open", "public", "private", "protected", "property", "cache"]

  /** What a step from i may be, by what stands there. */
  ghost predicate Grammatical(s: string, i: nat, step: Step)
    requires i < |s|
  {
    var quoted := s[i] == '"' || s[i] == '\'';
    match step
    case Hold(LineComment, n) => Starts(s, i, '/', '/') && LongestRun(s, i + 2, n, NoBreak)
    case Hold(BlockComment, n) => Starts(s, i, '/', '*') && CommentEnds(s, i + 2, n)
    case Hold(Whitespace, n) => n > i && LongestRun(s, i, n, IsBlank)
    case Hold(Newline, n) => s[i] == '\n' && n == i + 1
    case Keep(Text, n) => quoted && StringEnds(s, i + 1, s[i], Closed(n))
    case Keep(Annotation, n) => IsAnnotation(s, i, n) && s[i + 1..n] in KNOWN
    case Keep(Word, n) => IsWord(s, i, n)
    case Keep(Operator, n) => LongestOperator(s, i, n)
    case Keep(kind, n) => IsDigit(s[i]) && IsNumber(s, i + 1, n, kind)
    case Twice(n) => IsAnnotation(s, i, n) && s[i + 1..n] !in KNOWN
    case Unterminated(n) => quoted && StringEnds(s, i + 1, s[i], Unclosed(n))
    case Interpolated => quoted && exists b :: StringEnds(s, i + 1, s[i], Interpolation(b))
    case Unexpected => !quoted && !IsBlank(s[i]) && !IsAlphaNumeric(s[i]) && s[i] != '\n' && s[i] != '@' && !IsOperator([s[i]])
    case _ => false
  }

  /** Every step of the scanner follows the grammar. */
  lemma StepsAreGrammatical(s: string, i: nat)
    requires i < |s|
    ensures Grammatical(s, i, ScanAt(s, i))
  {
    var c := s[i];
    if Starts(s, i, '/', '/') || Starts(s, i, '/', '*') || IsBlank(c) || c == '\n' {
      TriviaSteps(s, i);
    } else if c == '"' || c == '\'' {
      StringSteps(s, i);
    } else if c == '@' || IsAlphaNumeric(c) {
      WordSteps(s, i);
    } else {
      OperatorSteps(s, i);
    }
  }

  lemma TriviaSteps(s: string, i: nat)
    requires i < |s| && (Starts(s, i, '/', '/') || Starts(s, i, '/', '*') || IsBlank(s[i]) || s[i] == '\n')
    ensures Grammatical(s, i, ScanAt(s, i))
  {
    if Starts(s, i, '/', '/') {
      LineIsLongest(s, i + 2);
    } else if Starts(s, i, '/', '*') {
      CommentEndsFirst(s, i + 2);
    } else if IsBlank(s[i]) {
      BlanksAreLongest(s, i + 1);
    }
  }

  lemma StringSteps(s: string, i: nat)
    requires i < |s| && (s[i] == '"' || s[i] == '\'')
    ensures Grammatical(s, i, ScanAt(s, i))
  {
    FirstBareQuoteCloses(s, i + 1, s[i]);
  }

  lemma WordSteps(s: string, i: nat)
    requires i < |s| && (s[i] == '@' || IsAlphaNumeric(s[i]))
    ensures Grammatical(s, i, ScanAt(s, i))
  {
    if IsDigit(s[i]) {
      NumberIs(s, i + 1);
    } else if s[i] == '_' && !(i + 1 < |s| && IsAlpha(s[i + 1])) {
      OperatorSteps(s, i);
    } else {
      WordIsLongest(s, i + 1);
      if s[i] == '@' { AtStep(s, i); } else { assert ScanAt(s, i) == Keep(Word, WordEnd(s, i + 1)); }
    }
  }

  lemma OperatorSteps(s: string, i: nat)
    requires i < |s| && !Starts(s, i, '/', '/') && !Starts(s, i, '/', '*')
    ensures match OperatorEnd(s, s[i], i + 1)
            case Some(n) => LongestOperator(s, i, n)
            case None => !IsOperator([s[i]])
  {
    OperatorIsLongest(s, i);
    assert s[i..i + 1] == [s[i]];
  }

  // ---------- Line endings ----------

  lemma NormalizedStep(s: string, i: nat)
    requires i < |s|
    ensures NormalizedFrom(s, i) ==
            if s[i] == '\r' then "\n" + NormalizedFrom(s, if Peek(s, i + 1) == '\n' then i + 2 else i + 1)
            else [s[i]] + NormalizedFrom(s, i + 1)
  {
  }

  lemma {:induction false} NormalizedShifted(s: string, n: nat, b: string, j: nat)
    requires |s| == n + |b| && forall k | 0 <= k < |b| :: s[n + k] == b[k]
    ensures NormalizedFrom(s, n + j) == NormalizedFrom(b, j)
    decreases |b| - j
  {
    if j < |b| {
      assert s[n + j] == b[j] && Peek(s, n + j + 1) == Peek(b, j + 1) by {
        if j + 1 < |b| { assert s[n + (j + 1)] == b[j + 1]; }
      }
      NormalizedStep(s, n + j);
      NormalizedStep(b, j);
      NormalizedShifted(s, n, b, if b[j] == '\r' && Peek(b, j + 1) == '\n' then j + 2 else j + 1);
    }
  }

  lemma {:induction false} NormalizedJoins(s: string, a: string, b: string, i: nat)
    requires i <= |a| && (a == "" || b == "" || a[|a| - 1] != '\r' || b[0] != '\n')
    requires |s| == |a| + |b| && (forall k | 0 <= k < |a| :: s[k] == a[k]) && (forall k | 0 <= k < |b| :: s[|a| + k] == b[k])
    ensures NormalizedFrom(s, i) == NormalizedFrom(a, i) + NormalizedFrom(b, 0)
    decreases |a| - i
  {
    if i == |a| {
      NormalizedShifted(s, |a|, b, 0);
    } else {
      var next := if a[i] == '\r' && Peek(a, i + 1) == '\n' then i + 2 else i + 1;
      SameNext(s, a, b, i);
      NormalizedStep(s, i);
      NormalizedStep(a, i);
      NormalizedJoins(s, a, b, next);
      Regroup([if a[i] == '\r' then '\n' else a[i]], NormalizedFrom(a, next), NormalizedFrom(b, 0));
    }
  }

  lemma SameNext(s: string, a: string, b: string, i: nat)
    requires i < |a| && (b == "" || a[|a| - 1] != '\r' || b[0] != '\n')
    requires |s| == |a| + |b| && (forall k | 0 <= k < |a| :: s[k] == a[k]) && (forall k | 0 <= k < |b| :: s[|a| + k] == b[k])
    ensures s[i] == a[i] && (a[i] == '\r' ==> (Peek(s, i + 1) == '\n' <==> Peek(a, i + 1) == '\n'))
  {
    if i + 1 == |a| && b != "" { assert s[|a| + 0] == b[0]; }
  }

  lemma Regroup(a: string, b: string, c: string)
    ensures a + b + c == a + (b + c)
  {
  }

  /** Each of the three line endings becomes one, every other character stays, and pieces are normalized one by one. */
  lemma LineEndings(a: string, b: string, c: char)
    ensures Normalized("\r\n") == Normalized("\r") == Normalized("\n") == "\n"
    ensures c != '\r' ==> Normalized([c]) == [c]
    ensures a == "" || b == "" || a[|a| - 1] != '\r' || b[0] != '\n' ==> Normalized(a + b) == Normalized(a) + Normalized(b)
  {
    assert NormalizedFrom("\r\n", 2) == "" && NormalizedFrom("\r", 1) == "" && NormalizedFrom("\n", 1) == "";
    assert NormalizedFrom([c], 1) == "";
    if a == "" || b == "" || a[|a| - 1] != '\r' || b[0] != '\n' { NormalizedJoins(a + b, a, b, 0); }
  }

  // ---------- Tokens ----------

  /** A kept lexeme becomes the next token, with all the trivia that waited before it, and held text waits behind the rest. */
  lemma StepsBecomeTokens(s: string, i: nat, st: State)
    requires i < |s|
    ensures match ScanAt(s, i)
            case Keep(kind, n) => i < n <= |s| && Apply(s, i, Keep(kind, n), st) ==
                                  State(st.tokens + [Token(kind, s[i..n], i, n, st.trivia)], [])
            case Hold(kind, n) => i < n <= |s| && Apply(s, i, Hold(kind, n), st) ==
                                  State(st.tokens, st.trivia + [Token(kind, s[i..n], i, n, [])])
            case _ => true
  {
    NextAdvances(s, i);
  }

  /** An error token says which character it was. */
  lemma ErrorNamesCharacter(c: char)
    ensures ErrorText(c) == "ERROR: Unexpected character '" + [c, '\'', ' ', '(', c, ')']
  {
    assert "'" + " (" == "' (" && "ERROR: " + "Unexpected character '" == "ERROR: Unexpected character '";
  }
}
