/**
 The Scanner class of src/frontend/scanner.cpp in CST mode: its loops move `current` over the source and
 its fields collect the tokens and the trivia.
 */
module Scanners {

  import opened Common
  import opened ScannerModel

  lemma Regrouped(a: string, b: string, c: string)
    ensures (a + b) + c == a + (b + c)
  {
  }

  method NormalizeLineEndings(input: string) returns (result: string)
    ensures result == Normalized(input)
  {
    result := "";
    var i := 0;
    while i < |input|
      invariant i <= |input| && result + NormalizedFrom(input, i) == Normalized(input)
    {
      var c := [if input[i] == '\r' then '\n' else input[i]];
      var skip := i + 1 < |input| && input[i] == '\r' && input[i + 1] == '\n';
      Regrouped(result, c, NormalizedFrom(input, if skip then i + 2 else i + 1));
      result := result + c;
      if skip {
        i := i + 1;
      }
      i := i + 1;
    }
    assert result + "" == result;
  }

  class Scanner {
    const source: string
    var start: nat
    var current: nat
    var tokens: seq<Token>
    var triviaBuffer: seq<Token>

    function View(): State
      reads `tokens, `triviaBuffer
    {
      State(tokens, triviaBuffer)
    }

    constructor (input: string)
      ensures source == Normalized(input) && start == current == 0 && View() == EMPTY
    {
      var text := NormalizeLineEndings(input);
      source := text;
      start, current, tokens, triviaBuffer := 0, 0, [], [];
    }

    predicate IsAtEnd()
      reads `current
    {
      current >= |source|
    }

    function PeekAhead(n: nat): char
      reads `current
    {
      Peek(source, current + n)
    }

    /** Moves on if the next character is the expected one. */
    method Match(expected: char) returns (matched: bool)
      modifies `current
      ensures matched == (old(current) < |source| && source[old(current)] == expected)
      ensures current == if matched then old(current) + 1 else old(current)
    {
      matched := !IsAtEnd() && source[current] == expected;
      if matched {
        current := current + 1;
      }
    }

    method Add(kind: Kind)
      requires start <= current <= |source|
      modifies `tokens, `triviaBuffer
      ensures View() == AddToken(old(View()), source, kind, start, current)
    {
      tokens := tokens + [Token(kind, source[start..current], start, current, triviaBuffer)];
      triviaBuffer := [];
    }

    method Collect(kind: Kind)
      requires start <= current <= |source|
      modifies `triviaBuffer
      ensures View() == CollectTrivia(old(View()), source, kind, start, current)
    {
      triviaBuffer := triviaBuffer + [Token(kind, source[start..current], start, current, [])];
    }

    method Digits()
      requires current <= |source|
      modifies `current
      ensures current == DigitsEnd(source, old(current))
    {
      while !IsAtEnd() && IsDigit(PeekAhead(0))
        invariant current <= |source| && DigitsEnd(source, current) == DigitsEnd(source, old(current))
        decreases |source| - current
      {
        current := current + 1;
      }
    }

    method Fraction() returns (hasDecimal: bool)
      requires current <= |source|
      modifies `current
      ensures current == FractionEnd(source, old(current)) && hasDecimal == (current > old(current))
    {
      hasDecimal := PeekAhead(0) == '.' && IsDigit(PeekAhead(1));
      if hasDecimal {
        current := current + 1;
        Digits();
      }
    }

    /** Goes back to where it was if no digit follows the e and its sign. */
    method Exponent() returns (hasScientific: bool)
      requires current <= |source|
      modifies `current
      ensures current == ExponentEnd(source, old(current)) && hasScientific == (current > old(current))
    {
      if PeekAhead(0) != 'e' && PeekAhead(0) != 'E' {
        return false;
      }
      var savedCurrent := current;
      current := current + 1;
      if PeekAhead(0) == '+' || PeekAhead(0) == '-' {
        current := current + 1;
      }
      if !IsDigit(PeekAhead(0)) {
        current := savedCurrent;
        return false;
      }
      Digits();
      return true;
    }

    method TimeSuffix()
      requires current <= |source|
      modifies `current
      ensures current == SuffixEnd(source, old(current))
    {
      if IsAlpha(PeekAhead(0)) && PeekAhead(0) != 'e' && PeekAhead(0) != 'E' {
        if PeekAhead(0) == 's' && !IsAlphaNumeric(PeekAhead(1)) {
          current := current + 1;
        } else if PeekAhead(0) in {'m', 'u', 'n'} && PeekAhead(1) == 's' && !IsAlphaNumeric(PeekAhead(2)) {
          current := current + 2;
        }
      }
    }

    method Number() returns (kind: Kind)
      requires current <= |source|
      modifies `current
      ensures (kind, current) == NumberScan(source, old(current))
    {
      Digits();
      var hasDecimal := Fraction();
      var hasScientific := Exponent();
      TimeSuffix();
      kind := if hasScientific then ScientificLiteral else if hasDecimal then FloatLiteral else IntLiteral;
    }

    method Word()
      requires current <= |source|
      modifies `current
      ensures current == WordEnd(source, old(current))
    {
      while !IsAtEnd() && IsAlphaNumeric(PeekAhead(0))
        invariant current <= |source| && WordEnd(source, current) == WordEnd(source, old(current))
        decreases |source| - current
      {
        current := current + 1;
      }
    }

    method Blanks()
      requires current <= |source|
      modifies `current
      ensures current == BlankEnd(source, old(current))
    {
      while !IsAtEnd() && IsBlank(PeekAhead(0))
        invariant current <= |source| && BlankEnd(source, current) == BlankEnd(source, old(current))
        decreases |source| - current
      {
        current := current + 1;
      }
    }

    method LineComment()
      requires current <= |source|
      modifies `current
      ensures current == LineEnd(source, old(current))
    {
      while PeekAhead(0) != '\n' && !IsAtEnd()
        invariant current <= |source| && LineEnd(source, current) == LineEnd(source, old(current))
        decreases |source| - current
      {
        current := current + 1;
      }
    }

    method BlockComment()
      requires current <= |source|
      modifies `current
      ensures current == BlockEnd(source, old(current))
    {
      while !IsAtEnd()
        invariant current <= |source| && BlockEnd(source, current) == BlockEnd(source, old(current))
        decreases |source| - current
      {
        if PeekAhead(0) == '*' && PeekAhead(1) == '/' {
          current := current + 2;
          return;
        }
        current := current + 1;
      }
    }

    /** Looks past an opening brace, without moving. */
    method LooksLikeInterpolation(quote: char) returns (r: bool)
      ensures r == LooksInterpolated(source, current + 1, quote)
    {
      var lookahead := current + 1;
      while lookahead < |source| && source[lookahead] != '}' && source[lookahead] != quote
        invariant LooksInterpolated(source, lookahead, quote) == LooksInterpolated(source, current + 1, quote)
        decreases |source| - lookahead
      {
        var c := source[lookahead];
        if IsAlpha(c) || (!IsDigit(c) && c != ',' && c != ' ') {
          return true;
        }
        lookahead := lookahead + 1;
      }
      return false;
    }

    /** Scans the string that opens at start. */
    method String() returns (r: StringScan)
      requires start < |source|
      modifies `current
      ensures r == StringFrom(source, start + 1, source[start])
      ensures match r
              case Closed(n) => current == n
              case Unclosed(n) => current == n
              case Interpolation(brace) => current == brace
    {
      var quote := source[start];
      current := start + 1;
      while !IsAtEnd() && PeekAhead(0) != quote
        invariant current <= |source| + 1
        invariant StringFrom(source, current, quote) == StringFrom(source, start + 1, quote)
        decreases |source| + 1 - current
      {
        if PeekAhead(0) == '\\' {
          current := current + 2;
        } else if PeekAhead(0) == '{' {
          var isInterpolation := LooksLikeInterpolation(quote);
          if isInterpolation {
            return Interpolation(current);
          }
          current := current + 1;
        } else {
          current := current + 1;
        }
      }
      if IsAtEnd() {
        return Unclosed(current);
      }
      current := current + 1;
      return Closed(current);
    }

    /** Moves over the rest of an operator that begins with c; false if c begins none. */
    method OperatorRest(c: char) returns (known: bool)
      requires current <= |source|
      modifies `current
      ensures known == OperatorEnd(source, c, old(current)).Some?
      ensures known ==> current == OperatorEnd(source, c, old(current)).value
      ensures !known ==> current == old(current)
    {
      var matched;
      match c {
        case '(' | ')' | '{' | '}' | '[' | ']' | ',' | '?' | ':' | ';' | '|' | '&' | '^' | '~' | '_' =>
        case '.' =>
          matched := Match('.');
          if matched {
            matched := Match('.');
          }
        case '-' =>
          matched := Match('>');
          if !matched {
            matched := Match('=');
          }
        case '*' =>
          matched := Match('*');
          if !matched {
            matched := Match('=');
          }
        case '=' =>
          matched := Match('=');
          if !matched {
            matched := Match('>');
          }
        case '+' | '!' | '<' | '>' | '/' | '%' =>
          matched := Match('=');
        case _ =>
          return false;
      }
      return true;
    }

    method AnnotationText()
      requires start < |source| && current == start + 1
      modifies `current, `tokens, `triviaBuffer
      ensures current == WordEnd(source, start + 1)
      ensures View() == var n := WordEnd(source, start + 1);
                        if KnownAnnotation(source[start + 1..n]) then AddToken(old(View()), source, Annotation, start, n)
                        else AddToken(AddToken(old(View()), source, AtSign, start, n), source, ScannerModel.Kind.Word, start, n)
    {
      Word();
      if KnownAnnotation(source[start + 1..current]) {
        Add(Annotation);
      } else {
        Add(AtSign);
        current := start + 1;
        Word();
        Add(Kind.Word);
      }
    }

    method ScanString() returns (interpolated: bool)
      requires start < |source|
      modifies `current, `tokens, `triviaBuffer
      ensures var r := StringFrom(source, start + 1, source[start]);
              && interpolated == r.Interpolation?
              && (r.Closed? ==> current == r.next && View() == AddToken(old(View()), source, Text, start, r.next))
              && (r.Unclosed? ==> current == r.next && View() == old(View()))
    {
      var r := String();
      if r.Closed? {
        Add(Text);
      }
      return r.Interpolation?;
    }

    /** One step from start; interpolated is set when it meets an interpolated string, and then nothing is added. */
    method ScanToken() returns (interpolated: bool)
      requires start == current < |source|
      modifies `current, `tokens, `triviaBuffer
      ensures interpolated == ScanAt(source, start).Interpolated?
      ensures !interpolated ==> current == Next(start, ScanAt(source, start))
      ensures !interpolated ==> (NextAdvances(source, start);
                                 View() == Apply(source, start, ScanAt(source, start), old(View())))
    {
      var c := source[current];
      current := current + 1;
      if c == '/' && PeekAhead(0) == '/' {
        current := current + 1;
        LineComment();
        Collect(Kind.LineComment);
      } else if c == '/' && PeekAhead(0) == '*' {
        current := current + 1;
        BlockComment();
        Collect(Kind.BlockComment);
      } else if IsBlank(c) {
        Blanks();
        Collect(Whitespace);
      } else if c == '\n' {
        Collect(Newline);
      } else if c == '"' || c == '\'' {
        interpolated := ScanString();
        return;
      } else if c == '@' {
        AnnotationText();
      } else if IsDigit(c) {
        var kind := Number();
        Add(kind);
      } else if IsAlpha(c) && (c != '_' || IsAlpha(PeekAhead(0))) {
        Word();
        Add(Kind.Word);
      } else {
        var known := OperatorRest(c);
        if known {
          Add(Operator);
        } else {
          tokens := tokens + [Token(Error, ErrorText(c), start, current, [])];
        }
      }
      return false;
    }

    /** Scans to the end, or to the first interpolated string. */
    method ScanTokens() returns (finished: bool)
      requires current == 0 && View() == EMPTY
      modifies this
      ensures finished == ScanFrom(source, 0, EMPTY).Some?
      ensures finished ==>
                && View().trivia == ScanFrom(source, 0, EMPTY).value.trivia
                && View().tokens == ScanFrom(source, 0, EMPTY).value.tokens + [Token(Eof, "", 0, 0, [])]
    {
      while !IsAtEnd()
        invariant ScanFrom(source, current, View()) == ScanFrom(source, 0, EMPTY)
        decreases |source| - current
      {
        start := current;
        NextAdvances(source, start);
        var interpolated := ScanToken();
        if interpolated {
          return false;
        }
      }
      tokens := tokens + [Token(Eof, "", 0, 0, [])];
      return true;
    }
  }
}
