/** The top-level lexing of SQL text that the migration firewall scans: comments, quoted literals and dollar
    quotes are single lexemes, as are words; everything else is one character. */
module MigrationLexer {
  import opened Options
  import opened LetterCase

  predicate IsIdentStart(c: char) { 'A' <= c <= 'Z' || 'a' <= c <= 'z' || c == '_' }
  predicate IsIdentPart(c: char) { IsIdentStart(c) || '0' <= c <= '9' }
  predicate IsWordPart(c: char) { IsIdentPart(c) || c == '$' }
  predicate IsQuote(c: char) { c == '\'' || c == '"' }

  /** JavaScript's `\s`. */
  predicate IsWhitespace(c: char) {
    var k := c as int;
    || 9 <= k <= 13 || k == 32 || k == 0xa0 || k == 0x1680 || 0x2000 <= k <= 0x200a
    || k == 0x2028 || k == 0x2029 || k == 0x202f || k == 0x205f || k == 0x3000 || k == 0xfeff
  }

  /** Identifiers begin with a letter or an underscore and go on with digits as well, words also with dollar signs. */
  lemma CharactersAre(c: char)
    ensures IsIdentStart(c) <==> c in CAPITALS || c in SMALL_LETTERS || c == '_'
    ensures IsIdentPart(c) <==> IsIdentStart(c) || c in DIGITS
    ensures IsWordPart(c) <==> IsIdentPart(c) || c == '$'
    ensures IsQuote(c) <==> c in "'\""
  {
    CapitalsAre(c);
    SmallLettersAre(c);
    DigitsAre(c);
    hide CAPITALS, SMALL_LETTERS, DIGITS;
  }

  /** White space is the ASCII blanks, the no-break spaces, the line separators and the Unicode space separators. */
  lemma WhitespaceIs(c: char)
    ensures IsWhitespace(c) <==>
              c in " \t\n\r\U{b}\U{c}\U{a0}\U{feff}\U{1680}\U{2000}\U{2001}\U{2002}\U{2003}\U{2004}\U{2005}"
                   + "\U{2006}\U{2007}\U{2008}\U{2009}\U{200a}\U{2028}\U{2029}\U{202f}\U{205f}\U{3000}"
  {
  }

  datatype Kind = Word | Semicolon | Space | Other | LineComment | BlockComment | Quoted | DollarQuoted

  /** Comments and literals: the scanner steps over them. */
  predicate Masked(kind: Kind) { kind.LineComment? || kind.BlockComment? || kind.Quoted? || kind.DollarQuoted? }

  datatype Lexeme = Lexeme(kind: Kind, text: string)

  // ----- how the scanner finds the first lexeme

  predicate OccursAt(s: string, pattern: string, j: nat) { j + |pattern| <= |s| && s[j..j + |pattern|] == pattern }

  /** `String.prototype.indexOf`. */
  function IndexOf(s: string, pattern: string): (r: Option<nat>)
    requires pattern != ""
    ensures r.Some? ==> OccursAt(s, pattern, r.value) && forall j | 0 <= j < r.value :: !OccursAt(s, pattern, j)
    ensures r.None? ==> forall j: nat :: !OccursAt(s, pattern, j)
  {
    if |s| < |pattern| then None
    else if OccursAt(s, pattern, 0) then Some(0)
    else
      var rest := IndexOf(s[1..], pattern);
      assert forall j: nat | j > 0 :: OccursAt(s, pattern, j) <==> OccursAt(s[1..], pattern, j - 1);
      if rest.None? then None else Some(rest.value + 1)
  }

  /** Length up to and including the first occurrence of `closing`, or everything. */
  function LengthThrough(s: string, closing: string): (n: nat)
    requires closing != ""
    ensures n <= |s|
  {
    match IndexOf(s, closing)
    case None => |s|
    case Some(p) => p + |closing|
  }

  /** How far a literal reaches after its opening quote; a doubled quote stays inside. */
  function QuoteLength(s: string, quote: char): (n: nat)
    ensures n <= |s|
  {
    if s == "" then 0
    else if s[0] == quote then (if |s| > 1 && s[1] == quote then 2 + QuoteLength(s[2..], quote) else 1)
    else 1 + QuoteLength(s[1..], quote)
  }

  function IdentRun(s: string): (n: nat)
    ensures n <= |s| && (forall i | 0 <= i < n :: IsIdentPart(s[i])) && (n < |s| ==> !IsIdentPart(s[n]))
  {
    if s == "" || !IsIdentPart(s[0]) then 0 else 1 + IdentRun(s[1..])
  }

  function WordRun(s: string): (n: nat)
    ensures n <= |s| && (forall i | 0 <= i < n :: IsWordPart(s[i])) && (n < |s| ==> !IsWordPart(s[n]))
  {
    if s == "" || !IsWordPart(s[0]) then 0 else 1 + WordRun(s[1..])
  }

  /** The length of the dollar tag at the start, if there is one. */
  function DollarTag(s: string): (r: Option<nat>)
    ensures r.Some? ==> 2 <= r.value <= |s|
  {
    if |s| < 2 || s[0] != '$' then None
    else if s[1] == '$' then Some(2)
    else if !IsIdentStart(s[1]) then None
    else
      var n := IdentRun(s[1..]);
      if 1 + n < |s| && s[1 + n] == '$' then Some(n + 2) else None
  }

  predicate StartsWith(s: string, prefix: string): (b: bool)
    ensures b ==> |prefix| <= |s|
  {
    |s| >= |prefix| && s[..|prefix|] == prefix
  }

  function First(s: string): (r: (Kind, nat))
    requires s != ""
    ensures 0 < r.1 <= |s|
  {
    if StartsWith(s, "--") then (LineComment, 2 + LengthThrough(s[2..], "\n"))
    else if StartsWith(s, "/*") then (BlockComment, 2 + LengthThrough(s[2..], "*/"))
    else if IsQuote(s[0]) then (Quoted, 1 + QuoteLength(s[1..], s[0]))
    else if DollarTag(s).Some? then
      var n := DollarTag(s).value;
      (DollarQuoted, n + LengthThrough(s[n..], s[..n]))
    else if IsIdentStart(s[0]) then (Word, WordRun(s))
    else (if s[0] == ';' then Semicolon else if IsWhitespace(s[0]) then Space else Other, 1)
  }

  function Lex(s: string): seq<Lexeme> {
    if s == "" then []
    else
      var (kind, n) := First(s);
      [Lexeme(kind, s[..n])] + Lex(s[n..])
  }

  // ----- what a lexeme is, stated on its own

  /** Characters other than the quote, and doubled quotes. */
  predicate QuoteBody(s: string, quote: char) {
    s == "" || (s[0] != quote && QuoteBody(s[1..], quote))
        || (|s| >= 2 && s[0] == s[1] == quote && QuoteBody(s[2..], quote))
  }

  predicate IsTag(t: string) {
    || t == "$$"
    || (|t| >= 3 && t[0] == '$' && IsIdentStart(t[1]) && t[|t| - 1] == '$' && forall i | 1 <= i < |t| - 1 ::
         IsIdentPart(t[i]))
  }

  /** `body` ends with the only occurrence of `closing` in it, or nothing follows and it has none. */
  ghost predicate ClosedBy(body: string, closing: string, rest: string) {
    || (|body| >= |closing| && forall j: nat :: OccursAt(body, closing, j) <==> j == |body| - |closing|)
    || (rest == "" && forall j: nat :: !OccursAt(body, closing, j))
  }

  /** After the opening quote: a body and a closing quote not doubled by what follows, or nothing follows. */
  ghost predicate UnquotesAt(body: string, quote: char, rest: string) {
    || (body != "" && body[|body| - 1] == quote && QuoteBody(body[..|body| - 1], quote) && !StartsWith(rest, [quote]))
    || (rest == "" && QuoteBody(body, quote))
  }

  ghost predicate StartsMasked(s: string) {
    StartsWith(s, "--") || StartsWith(s, "/*") || (s != "" && IsQuote(s[0])) || exists n: nat ::
        n <= |s| && IsTag(s[..n])
  }

  /** `text` is a lexeme of this kind when `rest` follows it. */
  ghost predicate IsLexeme(kind: Kind, text: string, rest: string) {
    match kind
    case LineComment => StartsWith(text, "--") && ClosedBy(text[2..], "\n", rest)
    case BlockComment => StartsWith(text, "/*") && ClosedBy(text[2..], "*/", rest)
    case Quoted => text != "" && IsQuote(text[0]) && UnquotesAt(text[1..], text[0], rest)
    case DollarQuoted => exists n: nat :: n <= |text| && IsTag(text[..n]) && ClosedBy(text[n..], text[..n], rest)
    case Word => text != "" && IsIdentStart(text[0]) && (forall c | c in text :: IsWordPart(c))
        && (rest != "" ==> !IsWordPart(rest[0]))
    case Semicolon => text == ";"
    case Space => |text| == 1 && IsWhitespace(text[0])
    case Other =>
      && |text| == 1 && !StartsMasked(text + rest)
      && !IsIdentStart(text[0]) && text[0] != ';' && !IsWhitespace(text[0])
  }

  /** The lexemes cut the text into consecutive pieces, each a lexeme in front of what follows it. */
  ghost predicate IsLexing(s: string, lexemes: seq<Lexeme>) {
    if lexemes == [] then s == ""
    else
      var n := |lexemes[0].text|;
      && StartsWith(s, lexemes[0].text)
      && IsLexeme(lexemes[0].kind, lexemes[0].text, s[n..])
      && IsLexing(s[n..], lexemes[1..])
  }

  // ----- the scanner's first lexeme is the only one

  lemma ClosedByMeansThrough(body: string, closing: string, rest: string)
    requires closing != ""
    ensures ClosedBy(body, closing, rest) <==> LengthThrough(body + rest, closing) == |body|
  {
    var all := body + rest;
    forall j: nat | j + |closing| <= |body| ensures OccursAt(all, closing, j) <==> OccursAt(body, closing, j) {
      assert all[j..j + |closing|] == body[j..j + |closing|];
    }
    if rest == "" {
      assert all == body;
    }
    var first := IndexOf(all, closing);
    if |body| >= |closing| && OccursAt(body, closing, |body| - |closing|) {
      assert OccursAt(all, closing, |body| - |closing|);
      assert first.Some? && first.value <= |body| - |closing|;
      assert OccursAt(body, closing, first.value);
    }
    if LengthThrough(all, closing) == |body| && first.Some? {
      forall j: nat ensures OccursAt(body, closing, j) <==> j == |body| - |closing| {
        if OccursAt(body, closing, j) {
          assert OccursAt(all, closing, j);
        }
      }
    }
  }

  /** A character other than the quote, or two quotes, in front change nothing. */
  lemma UnquotesBehind(body: string, quote: char, rest: string, n: nat)
    requires n <= |body|
    requires (n == 1 && body[0] != quote) || (n == 2 && body[0] == body[1] == quote)
    ensures UnquotesAt(body, quote, rest) <==> UnquotesAt(body[n..], quote, rest)
  {
    if |body| > n {
      var front, tail := body[..|body| - 1], body[n..];
      assert tail[..|tail| - 1] == front[n..];
      assert tail[|tail| - 1] == body[|body| - 1];
    }
  }

  lemma LengthBehind(body: string, quote: char, rest: string, n: nat)
    requires n <= |body|
    requires (n == 1 && body[0] != quote) || (n == 2 && body[0] == body[1] == quote)
    ensures QuoteLength(body + rest, quote) == n + QuoteLength(body[n..] + rest, quote)
  {
    assert (body + rest)[n..] == body[n..] + rest;
  }

  /** A body that is empty or only the closing quote. */
  lemma UnquotesShort(body: string, quote: char, rest: string)
    requires body == "" || (body[0] == quote && (|body| > 1 ==> body[1] != quote))
    ensures UnquotesAt(body, quote, rest) <==> QuoteLength(body + rest, quote) == |body|
  {
    var all := body + rest;
    if body == "" {
      assert all == rest;
    } else if |body| == 1 {
      assert all[1..] == rest;
    }
  }

  lemma {:induction false} UnquotesMeansLength(body: string, quote: char, rest: string)
    ensures UnquotesAt(body, quote, rest) <==> QuoteLength(body + rest, quote) == |body|
  {
    hide UnquotesAt, QuoteLength;
    if body != "" && body[0] != quote {
      UnquotesBehind(body, quote, rest, 1);
      LengthBehind(body, quote, rest, 1);
      UnquotesMeansLength(body[1..], quote, rest);
    } else if |body| > 1 && body[1] == quote {
      UnquotesBehind(body, quote, rest, 2);
      LengthBehind(body, quote, rest, 2);
      UnquotesMeansLength(body[2..], quote, rest);
    } else {
      UnquotesShort(body, quote, rest);
    }
  }

  lemma TagIsUnique(s: string, n: nat)
    ensures DollarTag(s) == Some(n) <==> n <= |s| && IsTag(s[..n])
  {
    if |s| >= 2 && s[0] == '$' && IsIdentStart(s[1]) {
      var run := IdentRun(s[1..]);
      if n <= |s| && IsTag(s[..n]) {
        var t := s[..n];
        assert t[n - 1] == '$' && forall i | 1 <= i < n - 1 :: IsIdentPart(t[i]);
        assert forall i | 0 <= i < run :: s[1..][i] == s[1 + i];
      }
    }
  }

  lemma TagOfWhole(text: string, rest: string, n: nat)
    requires n <= |text|
    ensures DollarTag(text + rest) == Some(n) <==> IsTag(text[..n])
  {
    TagIsUnique(text + rest, n);
    assert (text + rest)[..n] == text[..n];
  }

  lemma DollarWithTag(text: string, rest: string, n: nat)
    requires n <= |text| && IsTag(text[..n])
    ensures ClosedBy(text[n..], text[..n], rest) <==> First(text + rest) == (DollarQuoted, |text|)
  {
    hide IsTag, ClosedBy, LengthThrough;
    var s := text + rest;
    TagOfWhole(text, rest, n);
    assert s[n..] == text[n..] + rest && s[..n] == text[..n] && s[0] == '$';
    ClosedByMeansThrough(text[n..], text[..n], rest);
  }

  lemma DollarLexeme(text: string, rest: string)
    requires text != ""
    ensures IsLexeme(DollarQuoted, text, rest) <==> First(text + rest) == (DollarQuoted, |text|)
  {
    hide IsTag, ClosedBy, First;
    if IsLexeme(DollarQuoted, text, rest) {
      var n: nat :| n <= |text| && IsTag(text[..n]) && ClosedBy(text[n..], text[..n], rest);
      DollarWithTag(text, rest, n);
    }
    if First(text + rest) == (DollarQuoted, |text|) {
      var n := TagOfDollar(text, rest);
      DollarWithTag(text, rest, n);
    }
  }

  lemma TagOfDollar(text: string, rest: string) returns (n: nat)
    requires text != "" && First(text + rest) == (DollarQuoted, |text|)
    ensures n <= |text| && IsTag(text[..n])
  {
    hide LengthThrough, IsTag;
    n := DollarTag(text + rest).value;
    TagOfWhole(text, rest, n);
  }

  lemma CommentLexeme(kind: Kind, text: string, rest: string)
    requires text != "" && (kind.LineComment? || kind.BlockComment?)
    ensures IsLexeme(kind, text, rest) <==> First(text + rest) == (kind, |text|)
  {
    var s := text + rest;
    if |text| >= 2 {
      assert s[2..] == text[2..] + rest && s[..2] == text[..2];
      ClosedByMeansThrough(text[2..], "\n", rest);
      ClosedByMeansThrough(text[2..], "*/", rest);
    }
  }

  lemma WordLexeme(text: string, rest: string)
    requires text != ""
    ensures IsLexeme(Word, text, rest) <==> First(text + rest) == (Word, |text|)
  {
    var s := text + rest;
    assert s[0] == text[0];
    var n := WordRun(s);
    if IsLexeme(Word, text, rest) {
      assert forall i | 0 <= i < |text| :: s[i] == text[i] && text[i] in text;
      assert rest != "" ==> s[|text|] == rest[0];
    }
    if First(s) == (Word, |text|) {
      assert forall i | 0 <= i < |text| :: s[i] == text[i];
      assert rest != "" ==> s[|text|] == rest[0];
    }
  }

  lemma SingleLexeme(kind: Kind, text: string, rest: string)
    requires text != "" && (kind.Semicolon? || kind.Space? || kind.Other?)
    ensures IsLexeme(kind, text, rest) <==> First(text + rest) == (kind, |text|)
  {
    var s := text + rest;
    assert s[0] == text[0];
    if DollarTag(s).Some? {
      TagIsUnique(s, DollarTag(s).value);
    }
    if n: nat :| n <= |s| && IsTag(s[..n]) {
      TagIsUnique(s, n);
    }
    assert |text| == 1 ==> text == [text[0]];
  }

  lemma QuotedLexeme(text: string, rest: string)
    requires text != ""
    ensures IsLexeme(Quoted, text, rest) <==> First(text + rest) == (Quoted, |text|)
  {
    hide DollarTag, LengthThrough, QuoteLength, WordRun, UnquotesAt, IsIdentStart, IsWhitespace;
    var s := text + rest;
    assert s[0] == text[0] && s[1..] == text[1..] + rest;
    UnquotesMeansLength(text[1..], text[0], rest);
  }

  /** What the scanner consumes first is the only lexeme that can stand there. */
  lemma FirstIsTheLexeme(kind: Kind, text: string, rest: string)
    requires text != ""
    ensures IsLexeme(kind, text, rest) <==> First(text + rest) == (kind, |text|)
  {
    hide First, IsLexeme;
    match kind
    case LineComment => CommentLexeme(kind, text, rest);
    case BlockComment => CommentLexeme(kind, text, rest);
    case Quoted => QuotedLexeme(text, rest);
    case DollarQuoted => DollarLexeme(text, rest);
    case Word => WordLexeme(text, rest);
    case _ => SingleLexeme(kind, text, rest);
  }

  /** Every text has exactly one lexing, and it is the scanner's. */
  lemma {:induction false} LexIsTheLexing(s: string, lexemes: seq<Lexeme>)
    ensures IsLexing(s, lexemes) <==> lexemes == Lex(s)
    decreases |s|, |lexemes|
  {
    hide First, IsLexeme;
    if s == "" {
      if lexemes != [] && IsLexing(s, lexemes) {
        LexemesAreNotEmpty(lexemes[0].kind, s);
      }
    } else if lexemes != [] {
      var (kind, n) := First(s);
      var l := lexemes[0];
      var m := |l.text|;
      if StartsWith(s, l.text) {
        assert s == l.text + s[m..];
        if l.text == "" {
          LexemesAreNotEmpty(l.kind, s[m..]);
        } else {
          FirstIsTheLexeme(l.kind, l.text, s[m..]);
          LexIsTheLexing(s[m..], lexemes[1..]);
        }
      }
      assert lexemes == [l] + lexemes[1..];
    }
  }

  lemma LexemesAreNotEmpty(kind: Kind, rest: string)
    ensures !IsLexeme(kind, "", rest)
  {
  }
}
