/**
 What the scanner of src/frontend/scanner.cpp reads from a source text in its CST mode: how far each
 lexeme goes, the tokens and trivia it becomes, and whether they give the source back.
 */
module ScannerModel {
  import opened Common

  datatype Kind =
    | Operator | Word | Text | IntLiteral | FloatLiteral | ScientificLiteral | Annotation | AtSign | Error
    | Whitespace | Newline | LineComment | BlockComment | Eof

  datatype Token = Token(kind: Kind, lexeme: string, start: nat, end: nat, leading: seq<Token>)

  // ---------- Characters ----------

  predicate IsAlpha(c: char) { 'a' <= c <= 'z' || 'A' <= c <= 'Z' || c == '_' }

  predicate IsAlphaNumeric(c: char) { IsAlpha(c) || IsDigit(c) }

  predicate IsBlank(c: char) { c == ' ' || c == '\r' || c == '\t' }

  /** The character at i, or NUL past the end. */
  function Peek(s: string, i: nat): char {
    if i < |s| then s[i] else '\0'
  }

  /** \r\n and \r become \n, from position i on. */
  function NormalizedFrom(s: string, i: nat): string
    decreases |s| - i
  {
    if i >= |s| then ""
    else if s[i] == '\r' then "\n" + NormalizedFrom(s, if Peek(s, i + 1) == '\n' then i + 2 else i + 1)
    else [s[i]] + NormalizedFrom(s, i + 1)
  }

  function Normalized(s: string): string {
    NormalizedFrom(s, 0)
  }

  // ---------- How far each lexeme goes ----------

  function DigitsEnd(s: string, i: nat): (r: nat)
    ensures i <= r && (i <= |s| ==> r <= |s|)
    decreases |s| - i
  {
    if i < |s| && IsDigit(s[i]) then DigitsEnd(s, i + 1) else i
  }

  function WordEnd(s: string, i: nat): (r: nat)
    ensures i <= r && (i <= |s| ==> r <= |s|)
    decreases |s| - i
  {
    if i < |s| && IsAlphaNumeric(s[i]) then WordEnd(s, i + 1) else i
  }

  function BlankEnd(s: string, i: nat): (r: nat)
    ensures i <= r && (i <= |s| ==> r <= |s|)
    decreases |s| - i
  {
    if i < |s| && IsBlank(s[i]) then BlankEnd(s, i + 1) else i
  }

  function LineEnd(s: string, i: nat): (r: nat)
    ensures i <= r && (i <= |s| ==> r <= |s|)
    decreases |s| - i
  {
    if i < |s| && s[i] != '\n' then LineEnd(s, i + 1) else i
  }

  /** Past the next star and slash, or at the end. */
  function BlockEnd(s: string, i: nat): (r: nat)
    ensures i <= r && (i <= |s| ==> r <= |s|)
    decreases |s| - i
  {
    if i >= |s| then i
    else if s[i] == '*' && Peek(s, i + 1) == '/' then i + 2
    else BlockEnd(s, i + 1)
  }

  function FractionEnd(s: string, i: nat): (r: nat)
    requires i <= |s|
    ensures i <= r <= |s|
  {
    if Peek(s, i) == '.' && IsDigit(Peek(s, i + 1)) then DigitsEnd(s, i + 1) else i
  }

  /** An exponent without digits is not part of the number: the scanner goes back to the e. */
  function ExponentEnd(s: string, i: nat): (r: nat)
    requires i <= |s|
    ensures i <= r <= |s|
  {
    if Peek(s, i) == 'e' || Peek(s, i) == 'E' then
      var j := if Peek(s, i + 1) == '+' || Peek(s, i + 1) == '-' then i + 2 else i + 1;
      if IsDigit(Peek(s, j)) then DigitsEnd(s, j) else i
    else i
  }

  /** A time suffix s, ms, us or ns that no letter or digit follows. */
  function SuffixEnd(s: string, i: nat): (r: nat)
    requires i <= |s|
    ensures i <= r <= |s|
  {
    var c := Peek(s, i);
    if c == 's' && !IsAlphaNumeric(Peek(s, i + 1)) then i + 1
    else if (c == 'm' || c == 'u' || c == 'n') && Peek(s, i + 1) == 's' && !IsAlphaNumeric(Peek(s, i + 2)) then i + 2
    else i
  }

  /** A number whose first digit is before i. */
  function NumberScan(s: string, i: nat): (r: (Kind, nat))
    requires i <= |s|
    ensures i <= r.1 <= |s|
  {
    var a := DigitsEnd(s, i);
    var b := FractionEnd(s, a);
    var c := ExponentEnd(s, b);
    (if c > b then ScientificLiteral else if b > a then FloatLiteral else IntLiteral, SuffixEnd(s, c))
  }

  /** Between braces stands something other than digits, commas and spaces. */
  predicate LooksInterpolated(s: string, i: nat, quote: char)
    decreases |s| - i
  {
    if i >= |s| || s[i] == '}' || s[i] == quote then false
    else if !IsDigit(s[i]) && s[i] != ',' && s[i] != ' ' then true
    else LooksInterpolated(s, i + 1, quote)
  }

  datatype StringScan = Closed(next: nat) | Unclosed(next: nat) | Interpolation(brace: nat)

  /** A string whose opening quote is before i; a backslash takes the next character with it, even past the end. */
  function StringFrom(s: string, i: nat, quote: char): (r: StringScan)
    requires i <= |s| + 1
    ensures r.Closed? ==> i < r.next <= |s|
    ensures r.Unclosed? ==> |s| <= r.next <= |s| + 1
    decreases |s| + 1 - i
  {
    if i >= |s| then Unclosed(i)
    else if s[i] == quote then Closed(i + 1)
    else if s[i] == '\\' then StringFrom(s, i + 2, quote)
    else if s[i] == '{' && LooksInterpolated(s, i + 1, quote) then Interpolation(i)
    else StringFrom(s, i + 1, quote)
  }

  predicate KnownAnnotation(name: string) {
    name in {"open", "public", "private", "protected", "property", "cache"}
  }

  /** The end of an operator whose first character c is before i; None if c starts no operator. */
  function OperatorEnd(s: string, c: char, i: nat): (r: Option<nat>)
    requires i <= |s|
    ensures r.Some? ==> i <= r.value <= |s|
  {
    var d := Peek(s, i);
    if c in {'(', ')', '{', '}', '[', ']', ',', '?', ':', ';', '|', '&', '^', '~', '_'} then Some(i)
    else if c == '.' then Some(if d != '.' then i else if Peek(s, i + 1) == '.' then i + 2 else i + 1)
    else if c == '-' then Some(if d == '>' || d == '=' then i + 1 else i)
    else if c == '*' then Some(if d == '*' || d == '=' then i + 1 else i)
    else if c == '=' then Some(if d == '=' || d == '>' then i + 1 else i)
    else if c in {'+', '!', '<', '>', '/', '%'} then Some(if d == '=' then i + 1 else i)
    else None
  }

  // ---------- One step ----------

  datatype Step =
    | Keep(kind: Kind, next: nat)
    | Hold(kind: Kind, next: nat)
    | Twice(next: nat)
    | Unexpected
    | Unterminated(next: nat)
    | Interpolated

  /** What the scanner does at i: keep a token, hold trivia, or one of four ways to lose the text. */
  function ScanAt(s: string, i: nat): (r: Step)
    requires i < |s|
  {
    var c, d := s[i], Peek(s, i + 1);
    if c == '/' && d == '/' then Hold(LineComment, LineEnd(s, i + 2))
    else if c == '/' && d == '*' then Hold(BlockComment, BlockEnd(s, i + 2))
    else if IsBlank(c) then Hold(Whitespace, BlankEnd(s, i + 1))
    else if c == '\n' then Hold(Newline, i + 1)
    else if c == '"' || c == '\'' then
      match StringFrom(s, i + 1, c)
      case Closed(n) => Keep(Text, n)
      case Unclosed(n) => Unterminated(n)
      case Interpolation(_) => Interpolated
    else if c == '@' then
      var n := WordEnd(s, i + 1);
      if KnownAnnotation(s[i + 1..n]) then Keep(Annotation, n) else Twice(n)
    else if IsDigit(c) then
      var (kind, n) := NumberScan(s, i + 1);
      Keep(kind, n)
    else if IsAlpha(c) && (c != '_' || IsAlpha(d)) then Keep(Word, WordEnd(s, i + 1))
    else
      match OperatorEnd(s, c, i + 1)
      case Some(n) => Keep(Operator, n)
      case None => Unexpected
  }

  predicate Clean(step: Step) {
    step.Keep? || step.Hold?
  }

  function Next(i: nat, step: Step): nat {
    match step
    case Keep(_, n) => n
    case Hold(_, n) => n
    case Twice(n) => n
    case Unterminated(n) => n
    case _ => i + 1
  }

  lemma NextAdvances(s: string, i: nat)
    requires i < |s|
    ensures i < Next(i, ScanAt(s, i)) && (!ScanAt(s, i).Unterminated? ==> Next(i, ScanAt(s, i)) <= |s|)
    ensures ScanAt(s, i).Unterminated? ==> Next(i, ScanAt(s, i)) >= |s|
  {
  }

  // ---------- The whole scan ----------

  /** tokens and triviaBuffer. */
  datatype State = State(tokens: seq<Token>, trivia: seq<Token>)

  const EMPTY := State([], [])

  function Piece(s: string, kind: Kind, start: nat, end: nat, leading: seq<Token>): Token
    requires start <= end <= |s|
  {
    Token(kind, s[start..end], start, end, leading)
  }

  /** A token takes the waiting trivia with it. */
  function AddToken(st: State, s: string, kind: Kind, start: nat, end: nat): State
    requires start <= end <= |s|
  {
    State(st.tokens + [Piece(s, kind, start, end, st.trivia)], [])
  }

  function CollectTrivia(st: State, s: string, kind: Kind, start: nat, end: nat): State
    requires start <= end <= |s|
  {
    st.(trivia := st.trivia + [Piece(s, kind, start, end, [])])
  }

  function ErrorText(c: char): string {
    "ERROR: " + "Unexpected character '" + [c] + "'" + " (" + [c] + ")"
  }

  /** An unknown annotation becomes two tokens with the same text; an error token leaves the trivia waiting. */
  function Apply(s: string, i: nat, step: Step, st: State): State
    requires i < |s| && (step.Keep? || step.Hold? || step.Twice? ==> i < step.next <= |s|)
  {
    match step
    case Keep(kind, n) => AddToken(st, s, kind, i, n)
    case Hold(kind, n) => CollectTrivia(st, s, kind, i, n)
    case Twice(n) => AddToken(AddToken(st, s, AtSign, i, n), s, Word, i, n)
    case Unexpected => st.(tokens := st.tokens + [Token(Error, ErrorText(s[i]), i, i + 1, [])])
    case _ => st
  }

  /** None when the scan meets an interpolated string. */
  function ScanFrom(s: string, i: nat, st: State): Option<State>
    decreases |s| - i
  {
    if i >= |s| then Some(st)
    else
      var step := ScanAt(s, i);
      NextAdvances(s, i);
      if step.Interpolated? then None else ScanFrom(s, Next(i, step), Apply(s, i, step, st))
  }

  /** Every step from i on keeps or holds its text. */
  ghost predicate CleanFrom(s: string, i: nat)
    decreases |s| - i
  {
    i >= |s| ||
    (Clean(ScanAt(s, i)) && (NextAdvances(s, i); CleanFrom(s, Next(i, ScanAt(s, i)))))
  }

  // ---------- Reconstruction ----------

  /** Each token behind its leading trivia. */
  function Pieces(tokens: seq<Token>): seq<Token> {
    if tokens == [] then []
    else Pieces(tokens[..|tokens| - 1]) + tokens[|tokens| - 1].leading + [tokens[|tokens| - 1]]
  }

  function AllPieces(st: State): seq<Token> {
    Pieces(st.tokens) + st.trivia
  }

  function TextOf(pieces: seq<Token>): string {
    if pieces == [] then "" else TextOf(pieces[..|pieces| - 1]) + pieces[|pieces| - 1].lexeme
  }

  /** Consecutive spans of s, none empty, from one position to another. */
  ghost predicate Tiles(pieces: seq<Token>, s: string, from: nat, to: nat) {
    if pieces == [] then from == to
    else
      var last := pieces[|pieces| - 1];
      && last.end == to && last.start < to <= |s| && last.lexeme == s[last.start..to]
      && Tiles(pieces[..|pieces| - 1], s, from, last.start)
  }

  lemma TilesSnoc(pieces: seq<Token>, s: string, i: nat, p: Token)
    requires Tiles(pieces, s, 0, i) && p.start == i < p.end <= |s| && p.lexeme == s[i..p.end]
    ensures Tiles(pieces + [p], s, 0, p.end)
  {
    assert (pieces + [p])[..|pieces|] == pieces;
  }

  lemma {:induction false} TilesText(pieces: seq<Token>, s: string, from: nat, to: nat)
    requires Tiles(pieces, s, from, to) && from <= |s|
    ensures from <= to <= |s| && TextOf(pieces) == s[from..to]
  {
    if pieces != [] {
      TilesText(pieces[..|pieces| - 1], s, from, pieces[|pieces| - 1].start);
    }
  }

  lemma PiecesSnoc(tokens: seq<Token>, t: Token)
    ensures Pieces(tokens + [t]) == Pieces(tokens) + t.leading + [t]
  {
    assert (tokens + [t])[..|tokens|] == tokens;
  }

  lemma KeepAddsPiece(st: State, p: Token)
    requires p.leading == st.trivia
    ensures AllPieces(State(st.tokens + [p], [])) == AllPieces(st) + [p]
  {
    PiecesSnoc(st.tokens, p);
  }

  lemma HoldAddsPiece(st: State, p: Token)
    ensures AllPieces(st.(trivia := st.trivia + [p])) == AllPieces(st) + [p]
  {
  }

  /** A clean step adds one piece, and that piece is the text it went over. */
  lemma CleanStepTiles(s: string, i: nat, step: Step, st: State)
    requires Clean(step) && i < step.next <= |s| && Tiles(AllPieces(st), s, 0, i)
    ensures Tiles(AllPieces(Apply(s, i, step, st)), s, 0, step.next)
  {
    var p := Piece(s, step.kind, i, step.next, if step.Keep? then st.trivia else []);
    TilesSnoc(AllPieces(st), s, i, p);
    if step.Keep? {
      KeepAddsPiece(st, p);
    } else {
      HoldAddsPiece(st, p);
    }
  }

  lemma {:induction false} CleanScanTiles(s: string, i: nat, st: State)
    requires i <= |s| && CleanFrom(s, i) && Tiles(AllPieces(st), s, 0, i)
    ensures ScanFrom(s, i, st).Some? && Tiles(AllPieces(ScanFrom(s, i, st).value), s, 0, |s|)
    decreases |s| - i
  {
    if i < |s| {
      var step := ScanAt(s, i);
      NextAdvances(s, i);
      CleanStepTiles(s, i, step, st);
      CleanScanTiles(s, step.next, Apply(s, i, step, st));
    }
  }

  lemma TilesNothing(s: string)
    ensures Tiles(AllPieces(EMPTY), s, 0, 0)
  {
  }

  function Reconstructed(st: State): string {
    TextOf(AllPieces(st))
  }

  // ---------- Which sources are given back ----------

  lemma {:induction false} TextOfConcat(a: seq<Token>, b: seq<Token>)
    ensures TextOf(a + b) == TextOf(a) + TextOf(b)
  {
    if b == [] {
      assert a + b == a;
    } else {
      assert (a + b)[..|a + b| - 1] == a + b[..|b| - 1];
      TextOfConcat(a, b[..|b| - 1]);
    }
  }

  lemma {:induction false} PiecesConcat(a: seq<Token>, b: seq<Token>)
    ensures Pieces(a + b) == Pieces(a) + Pieces(b)
  {
    if b == [] {
      assert a + b == a;
    } else {
      assert (a + b)[..|a + b| - 1] == a + b[..|b| - 1];
      PiecesConcat(a, b[..|b| - 1]);
    }
  }

  function Behind(tokens: seq<Token>, r: Option<State>): Option<State> {
    if r.None? then None else Some(State(tokens + r.value.tokens, r.value.trivia))
  }

  /** What was scanned before stays in front, and does not change what comes after. */
  lemma {:induction false} ScanBehind(s: string, i: nat, before: seq<Token>, st: State)
    ensures ScanFrom(s, i, State(before + st.tokens, st.trivia)) == Behind(before, ScanFrom(s, i, st))
    decreases |s| - i
  {
    if i < |s| {
      var step := ScanAt(s, i);
      NextAdvances(s, i);
      if !step.Interpolated? {
        var next := Apply(s, i, step, st);
        assert Apply(s, i, step, State(before + st.tokens, st.trivia)) == State(before + next.tokens, next.trivia);
        ScanBehind(s, Next(i, step), before, next);
      }
    }
  }

  lemma Regroup(a: seq<Token>, b: seq<Token>, c: seq<Token>)
    ensures (a + b) + c == a + (b + c)
  {
  }

  lemma TextBehind(before: seq<Token>, t: State)
    ensures Reconstructed(State(before + t.tokens, t.trivia)) == TextOf(Pieces(before)) + Reconstructed(t)
  {
    PiecesConcat(before, t.tokens);
    Regroup(Pieces(before), Pieces(t.tokens), t.trivia);
    TextOfConcat(Pieces(before), AllPieces(t));
  }

  lemma ReconstructedBehind(s: string, i: nat, before: seq<Token>, trivia: seq<Token>)
    ensures ScanFrom(s, i, State(before, trivia)).Some? <==> ScanFrom(s, i, State([], trivia)).Some?
    ensures ScanFrom(s, i, State([], trivia)).Some? ==>
              Reconstructed(ScanFrom(s, i, State(before, trivia)).value)
              == TextOf(Pieces(before)) + Reconstructed(ScanFrom(s, i, State([], trivia)).value)
  {
    ScanBehind(s, i, before, State([], trivia));
    assert before + [] == before;
    var r := ScanFrom(s, i, State([], trivia));
    if r.Some? {
      TextBehind(before, r.value);
    }
  }

  /** Waiting trivia starts with something an error message does not start with. */
  ghost predicate NoE(trivia: seq<Token>) {
    forall t | t in trivia :: t.lexeme != "" && t.lexeme[0] != 'E'
  }

  lemma {:induction false} FirstOf(pieces: seq<Token>)
    requires pieces != [] && pieces[0].lexeme != ""
    ensures TextOf(pieces) != "" && TextOf(pieces)[0] == pieces[0].lexeme[0]
  {
    if |pieces| > 1 {
      FirstOf(pieces[..|pieces| - 1]);
    }
  }

  /** An error token in front of waiting trivia shows where the source has something else. */
  lemma ErrorShows(s: string, i: nat, tokens: seq<Token>, trivia: seq<Token>, rest: string)
    requires i < |s| && s[i] != 'E' && NoE(trivia) && s[..i] == TextOf(Pieces(tokens) + trivia)
    ensures TextOf(Pieces(tokens)) + ErrorText(s[i]) + rest != s
  {
    var a, out := TextOf(Pieces(tokens)), TextOf(Pieces(tokens)) + ErrorText(s[i]) + rest;
    TextOfConcat(Pieces(tokens), trivia);
    assert out[|a|] == 'E';
    if trivia == [] {
      assert |a| == i;
    } else {
      FirstOf(trivia);
      assert s[|a|] == s[..i][|a|] == TextOf(trivia)[0];
      assert trivia[0] in trivia;
    }
  }

  lemma TextSnoc(tokens: seq<Token>, t: Token)
    requires t.leading == []
    ensures TextOf(Pieces(tokens + [t])) == TextOf(Pieces(tokens)) + t.lexeme
  {
    PiecesSnoc(tokens, t);
    assert Pieces(tokens + [t]) == Pieces(tokens) + [t];
  }

  lemma UnexpectedStep(s: string, i: nat, st: State)
    requires i < |s| && ScanAt(s, i).Unexpected?
    ensures s[i] != 'E'
    ensures ScanFrom(s, i, st)
            == ScanFrom(s, i + 1, State(st.tokens + [Token(Error, ErrorText(s[i]), i, i + 1, [])], st.trivia))
  {
  }

  lemma UnexpectedLoses(s: string, i: nat, st: State)
    requires i < |s| && ScanAt(s, i).Unexpected? && Tiles(AllPieces(st), s, 0, i) && NoE(st.trivia)
    requires ScanFrom(s, i, st).Some?
    ensures Reconstructed(ScanFrom(s, i, st).value) != s
  {
    UnexpectedStep(s, i, st);
    TilesText(AllPieces(st), s, 0, i);
    ErrorLoses(s, i, st, Token(Error, ErrorText(s[i]), i, i + 1, []));
  }

  lemma ErrorLoses(s: string, i: nat, st: State, error: Token)
    requires i < |s| && s[i] != 'E' && NoE(st.trivia) && s[..i] == TextOf(AllPieces(st))
    requires error.leading == [] && error.lexeme == ErrorText(s[i])
    requires ScanFrom(s, i + 1, State(st.tokens + [error], st.trivia)).Some?
    ensures Reconstructed(ScanFrom(s, i + 1, State(st.tokens + [error], st.trivia)).value) != s
  {
    ReconstructedBehind(s, i + 1, st.tokens + [error], st.trivia);
    TextSnoc(st.tokens, error);
    ErrorShows(s, i, st.tokens, st.trivia, Reconstructed(ScanFrom(s, i + 1, State([], st.trivia)).value));
  }

  function Repeat(a: string, k: nat): string {
    if k == 0 then "" else a + Repeat(a, k - 1)
  }

  lemma {:induction false} RepeatSnoc(a: string, k: nat)
    ensures Repeat(a, k) + a == a + Repeat(a, k)
  {
    if k > 0 {
      RepeatSnoc(a, k - 1);
      assert a + Repeat(a, k - 1) + a == a + (Repeat(a, k - 1) + a);
    }
  }

  /** The word that starts at i and is followed by something else. */
  lemma {:induction false} WordEndIs(s: string, i: nat, n: nat)
    requires i <= n < |s| && !IsAlphaNumeric(s[n]) && forall k | i <= k < n :: IsAlphaNumeric(s[k])
    ensures WordEnd(s, i) == n
    decreases n - i
  {
    if i < n {
      WordEndIs(s, i + 1, n);
    }
  }

  lemma {:induction false} WordIsAlphaNumeric(s: string, i: nat, k: nat)
    requires i <= k < WordEnd(s, i)
    ensures k < |s| && IsAlphaNumeric(s[k])
    decreases |s| - i
  {
    if k > i {
      WordIsAlphaNumeric(s, i + 1, k);
    }
  }

  /** The text of an annotation the scanner does not know. */
  ghost predicate UnknownAnnotation(a: string) {
    a != "" && a[0] == '@' && !KnownAnnotation(a[1..]) && forall k | 1 <= k < |a| :: IsAlphaNumeric(a[k])
  }

  lemma AtStep(s: string, i: nat)
    requires i < |s| && s[i] == '@'
    ensures var n := WordEnd(s, i + 1);
            && ScanAt(s, i) == (if KnownAnnotation(s[i + 1..n]) then Keep(Annotation, n) else Twice(n))
            && i < n <= |s|
  {
  }

  lemma TwiceIsUnknown(s: string, i: nat)
    requires i < |s| && ScanAt(s, i).Twice?
    ensures var n := WordEnd(s, i + 1); ScanAt(s, i) == Twice(n) && i < n <= |s| && UnknownAnnotation(s[i..n])
  {
    var n := WordEnd(s, i + 1);
    assert s[i] == '@';
    AtStep(s, i);
    forall k | 1 <= k < n - i ensures IsAlphaNumeric(s[i..n][k]) {
      WordIsAlphaNumeric(s, i + 1, i + k);
    }
    assert s[i..n][1..] == s[i + 1..n];
  }

  /** The tokens scanned at i, with no trivia waiting, and what comes after them. */
  lemma TextOfStep(s: string, i: nat, n: nat, st: State)
    requires i < n <= |s| && ScanAt(s, i).Twice? && ScanAt(s, i).next == n
    requires ScanFrom(s, i, st).Some?
    ensures ScanFrom(s, n, EMPTY).Some?
    ensures Reconstructed(ScanFrom(s, i, st).value)
            == Reconstructed(st) + s[i..n] + s[i..n] + Output(s, n)
  {
    var at, word := Piece(s, AtSign, i, n, st.trivia), Piece(s, Word, i, n, []);
    var before := st.tokens + [at] + [word];
    assert ScanFrom(s, i, st) == ScanFrom(s, n, State(before, []));
    TextOfTwo(st, at, word);
    ReconstructedBehind(s, n, before, []);
  }

  lemma TextOfTwo(st: State, at: Token, word: Token)
    requires at.leading == st.trivia && word.leading == []
    ensures TextOf(Pieces(st.tokens + [at] + [word])) == Reconstructed(st) + at.lexeme + word.lexeme
  {
    TextSnoc(st.tokens + [at], word);
    PiecesSnoc(st.tokens, at);
    assert Pieces(st.tokens + [at])[..|AllPieces(st)|] == AllPieces(st);
  }

  lemma TextOfOne(s: string, n: nat, t: Token)
    requires t.leading == [] && ScanFrom(s, n, State([t], [])).Some?
    ensures t.lexeme <= Reconstructed(ScanFrom(s, n, State([t], [])).value)
  {
    ReconstructedBehind(s, n, [t], []);
    TextSnoc([], t);
    assert [] + [t] == [t];
  }

  lemma TextOfKeep(s: string, i: nat, n: nat)
    requires i < n <= |s| && ScanAt(s, i).Keep? && ScanAt(s, i).next == n && ScanFrom(s, i, EMPTY).Some?
    ensures s[i..n] <= Reconstructed(ScanFrom(s, i, EMPTY).value)
  {
    var t := Piece(s, ScanAt(s, i).kind, i, n, []);
    assert EMPTY.tokens + [t] == [t] && AddToken(EMPTY, s, t.kind, i, n) == State([t], []);
    assert ScanFrom(s, i, EMPTY) == ScanFrom(s, n, State([t], []));
    TextOfOne(s, n, t);
  }

  /** What the scanner gives back from position i on, with no trivia waiting. */
  function Output(s: string, i: nat): string
    requires ScanFrom(s, i, EMPTY).Some?
  {
    Reconstructed(ScanFrom(s, i, EMPTY).value)
  }

  lemma OutputOfTwice(s: string, i: nat, n: nat, a: string)
    requires i < n <= |s| && s[i..n] == a && ScanAt(s, i) == Twice(n) && ScanFrom(s, i, EMPTY).Some?
    ensures ScanFrom(s, n, EMPTY).Some? && Output(s, i) == a + a + Output(s, n)
  {
    TextOfStep(s, i, n, EMPTY);
    assert Reconstructed(EMPTY) == "" && "" + a == a;
  }

  /** An at sign comes out first. */
  lemma AtComesFirst(s: string, i: nat)
    requires i < |s| && s[i] == '@' && ScanFrom(s, i, EMPTY).Some?
    ensures Output(s, i) != "" && Output(s, i)[0] == '@'
  {
    AtStep(s, i);
    var n := WordEnd(s, i + 1);
    if KnownAnnotation(s[i + 1..n]) {
      TextOfKeep(s, i, n);
    } else {
      OutputOfTwice(s, i, n, s[i..n]);
    }
  }

  /** If the source goes on with a and an at sign, its next annotation is a once more. */
  lemma SameAnnotation(s: string, i: nat, a: string, more: string)
    requires i <= |s| && UnknownAnnotation(a) && s[i..] == a + more && more != "" && more[0] == '@'
    ensures i + |a| < |s| && ScanAt(s, i) == Twice(i + |a|) && s[i..i + |a|] == a && s[i + |a|..] == more
  {
    var n := i + |a|;
    assert forall j | 0 <= j < |a| :: s[i + j] == s[i..][j] == a[j];
    assert s[n] == s[i..][|a|] == '@';
    WordEndIs(s, i + 1, n);
    assert s[i + 1..n] == a[1..];
    AtStep(s, i);
  }

  lemma StartsAgain(s: string, i: nat, a: string, k: nat, out: string)
    requires i <= |s| && UnknownAnnotation(a) && k > 0 && Repeat(a, k) + out == s[i..]
    ensures i < |s| && s[i] == '@' && s[i..] == a + (Repeat(a, k - 1) + out)
    ensures k > 1 ==> (Repeat(a, k - 1) + out)[0] == '@'
  {
    assert s[i] == s[i..][0] == a[0];
  }

  lemma AnnotationAgain(s: string, i: nat, a: string, k: nat) returns (n: nat)
    requires i <= |s| && UnknownAnnotation(a) && k > 0 && ScanFrom(s, i, EMPTY).Some?
    requires Repeat(a, k) + Output(s, i) == s[i..]
    ensures i < n <= |s| && ScanFrom(s, n, EMPTY).Some?
    ensures s[n..] == Repeat(a, k - 1) + (a + a + Output(s, n))
  {
    StartsAgain(s, i, a, k, Output(s, i));
    AtComesFirst(s, i);
    n := i + |a|;
    SameAnnotation(s, i, a, Repeat(a, k - 1) + Output(s, i));
    OutputOfTwice(s, i, n, a);
  }

  lemma RepeatMore(a: string, k: nat, rest: string, more: string)
    requires k > 0 && more == Repeat(a, k - 1) + (a + a + rest)
    ensures more == Repeat(a, k + 1) + rest
  {
    RepeatSnoc(a, k - 1);
    RepeatSnoc(a, k);
    assert more == (Repeat(a, k - 1) + a) + a + rest;
  }

  /** Once an annotation has been given twice, the output stays ahead of the source for good. */
  lemma {:induction false} NeverCatchesUp(s: string, i: nat, a: string, k: nat)
    requires i <= |s| && UnknownAnnotation(a) && k > 0 && ScanFrom(s, i, EMPTY).Some?
    ensures Repeat(a, k) + Output(s, i) != s[i..]
    decreases |s| - i
  {
    if Repeat(a, k) + Output(s, i) == s[i..] {
      var n := AnnotationAgain(s, i, a, k);
      RepeatMore(a, k, Output(s, n), s[n..]);
      NeverCatchesUp(s, n, a, k + 1);
    }
  }

  lemma TwiceLoses(s: string, i: nat, st: State)
    requires i < |s| && ScanAt(s, i).Twice? && Tiles(AllPieces(st), s, 0, i) && ScanFrom(s, i, st).Some?
    ensures Reconstructed(ScanFrom(s, i, st).value) != s
  {
    TwiceIsUnknown(s, i);
    var n := WordEnd(s, i + 1);
    TilesText(AllPieces(st), s, 0, i);
    TextOfStep(s, i, n, st);
    NeverCatchesUp(s, n, s[i..n], 1);
    NotCaughtUp(s, i, n, Output(s, n));
  }

  lemma NotCaughtUp(s: string, i: nat, n: nat, rest: string)
    requires i < n <= |s| && Repeat(s[i..n], 1) + rest != s[n..]
    ensures s[..i] + s[i..n] + s[i..n] + rest != s
  {
    var a := s[i..n];
    assert Repeat(a, 1) == a + Repeat(a, 0) == a;
    assert (s[..i] + a + a + rest)[n..] == a + rest;
  }

  lemma UnterminatedLoses(s: string, i: nat, st: State)
    requires i < |s| && ScanAt(s, i).Unterminated? && Tiles(AllPieces(st), s, 0, i)
    ensures ScanFrom(s, i, st) == Some(st) && Reconstructed(st) != s
  {
    NextAdvances(s, i);
    TilesText(AllPieces(st), s, 0, i);
  }

  lemma {:induction false} UncleanLoses(s: string, i: nat, st: State)
    requires i <= |s| && !CleanFrom(s, i) && Tiles(AllPieces(st), s, 0, i) && NoE(st.trivia)
    requires ScanFrom(s, i, st).Some?
    ensures Reconstructed(ScanFrom(s, i, st).value) != s
    decreases |s| - i
  {
    var step := ScanAt(s, i);
    match step
    case Unexpected => UnexpectedLoses(s, i, st);
    case Twice(_) => TwiceLoses(s, i, st);
    case Unterminated(_) => UnterminatedLoses(s, i, st);
    case Interpolated =>
    case Keep(_, n) =>
      NextAdvances(s, i);
      CleanStepTiles(s, i, step, st);
      UncleanLoses(s, n, Apply(s, i, step, st));
    case Hold(_, n) =>
      NextAdvances(s, i);
      CleanStepTiles(s, i, step, st);
      UncleanLoses(s, n, Apply(s, i, step, st));
  }

  /** No string on the way is interpolated. */
  ghost predicate ScansThrough(s: string) {
    ScanFrom(s, 0, EMPTY).Some?
  }

  /**
   A source without interpolated strings is given back by its tokens and trivia exactly when no step met an
   unterminated string, an unknown annotation or an unexpected character.
   */
  lemma LosslessExactCondition(s: string)
    requires ScansThrough(s)
    ensures Reconstructed(ScanFrom(s, 0, EMPTY).value) == s <==> CleanFrom(s, 0)
  {
    TilesNothing(s);
    if CleanFrom(s, 0) {
      CleanScanTiles(s, 0, EMPTY);
      TilesText(AllPieces(ScanFrom(s, 0, EMPTY).value), s, 0, |s|);
    } else {
      UncleanLoses(s, 0, EMPTY);
    }
  }

  // ---------- Line endings ----------

  lemma {:induction false} NormalizedHasNoReturn(s: string, i: nat)
    ensures '\r' !in NormalizedFrom(s, i)
    decreases |s| - i
  {
    if i < |s| {
      NormalizedHasNoReturn(s, i + 1);
      NormalizedHasNoReturn(s, i + 2);
    }
  }

  lemma {:induction false} NormalizedIsIdentity(s: string, i: nat)
    requires i <= |s|
    ensures NormalizedFrom(s, i) == s[i..] <==> '\r' !in s[i..]
    decreases |s| - i
  {
    if i < |s| {
      NormalizedIsIdentity(s, i + 1);
      assert s[i..] == [s[i]] + s[i + 1..];
    }
    if '\r' in s[i..] {
      NormalizedHasNoReturn(s, i);
    }
  }

  /** Normalizing twice is normalizing once. */
  lemma NormalizedTwice(s: string)
    ensures Normalized(Normalized(s)) == Normalized(s)
  {
    NormalizedHasNoReturn(s, 0);
    NormalizedIsIdentity(Normalized(s), 0);
    assert Normalized(s)[0..] == Normalized(s);
  }
}
