/** The firewall over authored migration SQL: the scanner with its previous-word register and statement mode, and
    the independent filter over the lexing that it computes. */
module MigrationFirewall {
  import opened Options
  import opened LetterCase
  import opened MigrationLexer

  datatype Finding = Finding(token: string, offset: nat)
  datatype Mode = NoMode | GrantMode | AlterMode | AlterDefaultPrivileges
  datatype State = State(previous: Option<string>, mode: Mode)

  const FORBIDDEN: set<string> := {"INSERT", "UPDATE", "DELETE", "MERGE", "COPY", "TRUNCATE", "DROP"}

  const START := State(None, NoMode)

  function UpperChar(c: char): char { if 'a' <= c <= 'z' then (c as int - 32) as char else c }

  function Upper(s: string): string { if s == "" then "" else [UpperChar(s[0])] + Upper(s[1..]) }

  // ----- the scanner's registers

  function NextMode(mode: Mode, upper: string): Mode {
    if upper == "GRANT" then GrantMode
    else if upper == "ALTER" then AlterMode
    else if mode.AlterMode? && upper == "DEFAULT" then AlterDefaultPrivileges
    else if mode.AlterMode? then NoMode
    else mode
  }

  function Advance(state: State, l: Lexeme): State {
    match l.kind
    case Word => State(Some(Upper(l.text)), NextMode(state.mode, Upper(l.text)))
    case Semicolon => state.(mode := NoMode)
    case Other => state.(previous := None)
    case _ => state
  }

  /** A forbidden word outside GRANT that is not the action of ON DELETE or ON UPDATE. */
  predicate Blocks(state: State, upper: string) {
    upper in FORBIDDEN && !state.mode.GrantMode?
        && !(state.previous == Some("ON") && (upper == "DELETE" || upper == "UPDATE"))
  }

  predicate CreatesSchema(state: State, upper: string) { state.previous == Some("CREATE") && upper == "SCHEMA" }

  function WordFindings(state: State, upper: string, offset: nat): seq<Finding> {
    (if Blocks(state, upper) then [Finding(upper, offset)] else [])
    + (if CreatesSchema(state, upper) then [Finding("CREATE SCHEMA", offset)] else [])
  }

  function Flags(state: State, l: Lexeme, offset: nat): seq<Finding> {
    if l.kind.Word? then WordFindings(state, Upper(l.text), offset) else []
  }

  function ScanFrom(lexemes: seq<Lexeme>, state: State, offset: nat): seq<Finding> {
    if lexemes == [] then []
    else
      Flags(state, lexemes[0], offset) + ScanFrom(lexemes[1..], Advance(state, lexemes[0]), offset + |lexemes[0].text|)
  }

  function Scan(source: string): seq<Finding> { ScanFrom(Lex(source), START, 0) }

  lemma {:induction false} ScanStep(source: string, index: nat, state: State)
    requires index < |source|
    ensures var rest := source[index..];
            var (kind, n) := First(rest);
            var l := Lexeme(kind, rest[..n]);
            && index + n <= |source| && rest[n..] == source[index + n..]
            && ScanFrom(Lex(rest), state, index)
               == Flags(state, l, index) + ScanFrom(Lex(source[index + n..]), Advance(state, l), index + n)
  {
    hide First, Flags, Advance;
    var rest := source[index..];
    var (kind, n) := First(rest);
    assert rest[n..] == source[index + n..];
    assert Lex(rest) == [Lexeme(kind, rest[..n])] + Lex(rest[n..]);
    assert Lex(rest)[1..] == Lex(rest[n..]);
  }

  /** Steps over a literal whose opening quote is just behind `start`. */
  method SkipLiteral(source: string, start: nat, quote: char) returns (index: nat)
    requires start <= |source|
    ensures index == start + QuoteLength(source[start..], quote)
  {
    index := start;
    while index < |source|
      invariant start <= index <= |source|
      invariant index + QuoteLength(source[index..], quote) == start + QuoteLength(source[start..], quote)
    {
      if source[index] == quote && index + 1 < |source| && source[index + 1] == quote {
        assert source[index..][2..] == source[index + 2..];
        index := index + 2;
      } else if source[index] == quote {
        index := index + 1;
        return;
      } else {
        assert source[index..][1..] == source[index + 1..];
        index := index + 1;
      }
    }
  }

  lemma MaskedStep(state: State, l: Lexeme, offset: nat)
    requires l.kind.LineComment? || l.kind.BlockComment? || l.kind.Quoted? || l.kind.DollarQuoted?
    ensures Advance(state, l) == state && Flags(state, l, offset) == []
  {
  }

  lemma WordStep(state: State, l: Lexeme, offset: nat)
    requires l.kind.Word?
    ensures var upper := Upper(l.text);
            && Advance(state, l) == State(Some(upper), NextMode(state.mode, upper))
            && Flags(state, l, offset) == WordFindings(state, upper, offset)
  {
  }

  lemma SignStep(state: State, l: Lexeme, offset: nat)
    requires l.kind.Semicolon? || l.kind.Space? || l.kind.Other?
    ensures Advance(state, l) ==
              State(if l.kind.Other? then None else state.previous, if l.kind.Semicolon? then NoMode else state.mode)
    ensures Flags(state, l, offset) == []
  {
  }

  /** The scanner's loop. */
  method ScanMigrationSql(source: string) returns (findings: seq<Finding>)
    ensures findings == Scan(source)
  {
    hide Lex, DollarTag, LengthThrough, QuoteLength, WordRun, Upper, ScanFrom, NextMode, Blocks, CreatesSchema,
        StartsWith, IsIdentStart, IsWhitespace, IsQuote, Advance, Flags;
    findings := [];
    var index := 0;
    var previousToken: Option<string> := None;
    var statementMode := NoMode;
    assert source[0..] == source;
    while index < |source|
      invariant index <= |source|
      invariant findings + ScanFrom(Lex(source[index..]), State(previousToken, statementMode), index) == Scan(source)
    {
      ScanStep(source, index, State(previousToken, statementMode));
      var rest := source[index..];
      var current := source[index];
      ghost var (kind, n) := First(rest);
      ghost var l := Lexeme(kind, rest[..n]);
      ghost var start, found, state := index, findings, State(previousToken, statementMode);
      if StartsWith(rest, "--") {
        MaskedStep(state, l, start);
        index := index + 2 + LengthThrough(rest[2..], "\n");
      } else if StartsWith(rest, "/*") {
        MaskedStep(state, l, start);
        index := index + 2 + LengthThrough(rest[2..], "*/");
      } else if IsQuote(current) {
        MaskedStep(state, l, start);
        assert source[index + 1..] == rest[1..];
        index := SkipLiteral(source, index + 1, current);
      } else if DollarTag(rest).Some? {
        MaskedStep(state, l, start);
        var tag := DollarTag(rest).value;
        index := index + tag + LengthThrough(rest[tag..], rest[..tag]);
      } else if IsIdentStart(current) {
        WordStep(state, l, start);
        var token := rest[..WordRun(rest)];
        var upper := Upper(token);
        if Blocks(State(previousToken, statementMode), upper) {
          findings := findings + [Finding(upper, index)];
        }
        if CreatesSchema(State(previousToken, statementMode), upper) {
          findings := findings + [Finding("CREATE SCHEMA", index)];
        }
        statementMode := NextMode(statementMode, upper);
        previousToken := Some(upper);
        index := index + |token|;
      } else {
        SignStep(state, l, start);
        if current == ';' {
          statementMode := NoMode;
        }
        if !IsWhitespace(current) && current != ';' {
          previousToken := None;
        }
        index := index + 1;
      }
      assert index == start + n;
      assert State(previousToken, statementMode) == Advance(state, l);
      assert findings == found + Flags(state, l, start);
    }
    AtTheEnd(source, State(previousToken, statementMode));
  }

  lemma AtTheEnd(source: string, state: State)
    ensures ScanFrom(Lex(source[|source|..]), state, |source|) == []
  {
  }

  // ----- the filter, stated over the lexing

  /** The lexeme is the word, written in capitals, in any case. */
  ghost predicate IsWordOf(l: Lexeme, word: string) {
    l.kind.Word? && InCapitals(word) && SameButCase(l.text, word)
  }

  lemma {:induction false} UpperExactlyWhen(s: string, word: string)
    ensures Upper(s) == word <==> InCapitals(word) && SameButCase(s, word)
  {
    if s != "" && word != "" {
      UpperExactlyWhen(s[1..], word[1..]);
      assert word == [word[0]] + word[1..];
      if InCapitals(word) && SameButCase(s, word) {
        assert SameLetter(s[0], word[0]);
        forall i | 0 <= i < |s| - 1 ensures s[1..][i] == s[i + 1] && word[1..][i] == word[i + 1] {
        }
      }
      if Upper(s) == word {
        assert Upper(s)[1..] == word[1..];
        forall i | 0 <= i < |s| ensures SameLetter(s[i], word[i]) && !('a' <= word[i] <= 'z') {
          if i > 0 {
            assert s[1..][i - 1] == s[i] && word[1..][i - 1] == word[i];
          }
        }
      }
    }
  }

  /** Between a GRANT and the next semicolon or ALTER. */
  ghost predicate InGrant(lexemes: seq<Lexeme>, k: nat)
    requires k <= |lexemes|
  {
    exists j :: 0 <= j < k && IsWordOf(lexemes[j], "GRANT")
                && forall m | j < m < k :: !lexemes[m].kind.Semicolon? && !IsWordOf(lexemes[m], "ALTER")
  }

  /** The nearest word before position `k` is `word`, with only blanks, semicolons, comments and literals between. */
  ghost predicate Follows(lexemes: seq<Lexeme>, k: nat, word: string)
    requires k <= |lexemes|
  {
    exists j :: 0 <= j < k && IsWordOf(lexemes[j], word) && forall m | j < m < k ::
        !lexemes[m].kind.Word? && !lexemes[m].kind.Other?
  }

  /** The word at position `k` is reported as `token`. */
  ghost predicate Reported(lexemes: seq<Lexeme>, k: nat, token: string)
    requires k < |lexemes|
  {
    || (token in {"INSERT", "UPDATE", "DELETE", "MERGE", "COPY", "TRUNCATE", "DROP"} && IsWordOf(lexemes[k], token)
        && !InGrant(lexemes, k) && !(Follows(lexemes, k, "ON") && (token == "DELETE" || token == "UPDATE")))
    || (token == "CREATE SCHEMA" && IsWordOf(lexemes[k], "SCHEMA") && Follows(lexemes, k, "CREATE"))
  }

  function Offset(lexemes: seq<Lexeme>, k: nat): nat
    requires k <= |lexemes|
  {
    if k == 0 then 0 else Offset(lexemes, k - 1) + |lexemes[k - 1].text|
  }

  function StateAt(lexemes: seq<Lexeme>, k: nat): State
    requires k <= |lexemes|
  {
    if k == 0 then START else Advance(StateAt(lexemes, k - 1), lexemes[k - 1])
  }

  /** The registers hold exactly what the filter asks about. */
  lemma {:induction false} RegistersMean(lexemes: seq<Lexeme>, k: nat)
    requires k <= |lexemes|
    ensures StateAt(lexemes, k).mode.GrantMode? <==> InGrant(lexemes, k)
    ensures forall word :: StateAt(lexemes, k).previous == Some(word) <==> Follows(lexemes, k, word)
  {
    hide Upper, IsWordOf;
    if k > 0 {
      RegistersMean(lexemes, k - 1);
      var l := lexemes[k - 1];
      InGrantStep(lexemes, k);
      WordIs(l, "GRANT");
      WordIs(l, "ALTER");
      forall word ensures StateAt(lexemes, k).previous == Some(word) <==> Follows(lexemes, k, word) {
        FollowsStep(lexemes, k, word);
        WordIs(l, word);
        assert StateAt(lexemes, k - 1).previous == Some(word) <==> Follows(lexemes, k - 1, word);
      }
    }
  }

  lemma WordIs(l: Lexeme, word: string)
    ensures IsWordOf(l, word) <==> l.kind.Word? && Upper(l.text) == word
  {
    hide Upper, InCapitals, SameButCase;
    UpperExactlyWhen(l.text, word);
  }

  lemma InGrantStep(lexemes: seq<Lexeme>, k: nat)
    requires 0 < k <= |lexemes|
    ensures InGrant(lexemes, k) <==>
              IsWordOf(lexemes[k - 1], "GRANT") ||
              (InGrant(lexemes, k - 1) && !lexemes[k - 1].kind.Semicolon? && !IsWordOf(lexemes[k - 1], "ALTER"))
  {
    hide IsWordOf;
    if InGrant(lexemes, k - 1) && !lexemes[k - 1].kind.Semicolon? && !IsWordOf(lexemes[k - 1], "ALTER") {
      var j :| 0 <= j < k - 1 && IsWordOf(lexemes[j], "GRANT")
            && forall m | j < m < k - 1 :: !lexemes[m].kind.Semicolon? && !IsWordOf(lexemes[m], "ALTER");
      assert 0 <= j < k && IsWordOf(lexemes[j], "GRANT");
    }
  }

  lemma FollowsStep(lexemes: seq<Lexeme>, k: nat, word: string)
    requires 0 < k <= |lexemes|
    ensures Follows(lexemes, k, word) <==>
              IsWordOf(lexemes[k - 1], word) ||
              (Follows(lexemes, k - 1, word) && !lexemes[k - 1].kind.Word? && !lexemes[k - 1].kind.Other?)
  {
    hide IsWordOf;
    if Follows(lexemes, k - 1, word) && !lexemes[k - 1].kind.Word? && !lexemes[k - 1].kind.Other? {
      var j :| 0 <= j < k - 1 && IsWordOf(lexemes[j], word)
            && forall m | j < m < k - 1 :: !lexemes[m].kind.Word? && !lexemes[m].kind.Other?;
      assert 0 <= j < k && IsWordOf(lexemes[j], word);
    }
  }

  /** At most one finding per word, and exactly when the filter reports it. */
  lemma {:induction false} FlagsAreReports(lexemes: seq<Lexeme>, k: nat)
    requires k < |lexemes|
    ensures var flags := Flags(StateAt(lexemes, k), lexemes[k], Offset(lexemes, k));
            && |flags| <= 1
            && forall f :: f in flags <==> f.offset == Offset(lexemes, k) && Reported(lexemes, k, f.token)
  {
    hide Upper, IsWordOf, InGrant, Follows;
    RegistersMean(lexemes, k);
    assert "SCHEMA" !in FORBIDDEN;
    forall word ensures IsWordOf(lexemes[k], word) <==> lexemes[k].kind.Word? && Upper(lexemes[k].text) == word {
      WordIs(lexemes[k], word);
    }
    assert StateAt(lexemes, k).previous == Some("ON") <==> Follows(lexemes, k, "ON");
    assert StateAt(lexemes, k).previous == Some("CREATE") <==> Follows(lexemes, k, "CREATE");
  }

  ghost predicate ReportedFrom(lexemes: seq<Lexeme>, k: nat, f: Finding) {
    exists j: nat :: k <= j < |lexemes| && f.offset == Offset(lexemes, j) && Reported(lexemes, j, f.token)
  }

  lemma {:induction false} ScanReports(lexemes: seq<Lexeme>, k: nat)
    requires k <= |lexemes| && forall l | l in lexemes :: l.text != ""
    ensures var found := ScanFrom(lexemes[k..], StateAt(lexemes, k), Offset(lexemes, k));
            && (forall f :: f in found <==> ReportedFrom(lexemes, k, f))
            && (forall f | f in found :: Offset(lexemes, k) <= f.offset)
            && (forall i, j | 0 <= i < j < |found| :: found[i].offset < found[j].offset)
    decreases |lexemes| - k
  {
    hide Reported, StateAt, Flags, Advance;
    if k < |lexemes| {
      FlagsAreReports(lexemes, k);
      ScanReports(lexemes, k + 1);
      StateAtNext(lexemes, k);
      assert lexemes[k] in lexemes && lexemes[k..][1..] == lexemes[k + 1..];
      var flags := Flags(StateAt(lexemes, k), lexemes[k], Offset(lexemes, k));
      var rest := ScanFrom(lexemes[k + 1..], StateAt(lexemes, k + 1), Offset(lexemes, k + 1));
      var found := ScanFrom(lexemes[k..], StateAt(lexemes, k), Offset(lexemes, k));
      assert found == flags + rest;
      forall f ensures f in found <==> ReportedFrom(lexemes, k, f) {
        assert ReportedFrom(lexemes, k + 1, f) ==> ReportedFrom(lexemes, k, f);
        assert f in flags <==> f.offset == Offset(lexemes, k) && Reported(lexemes, k, f.token);
      }
      forall i, j | 0 <= i < j < |found| ensures found[i].offset < found[j].offset {
        if i < |flags| <= j {
          assert found[i] in flags && found[j] in rest;
        }
      }
    }
  }

  lemma StateAtNext(lexemes: seq<Lexeme>, k: nat)
    requires k < |lexemes|
    ensures StateAt(lexemes, k + 1) == Advance(StateAt(lexemes, k), lexemes[k])
    ensures StateAt(lexemes, 0) == START
  {
  }

  lemma {:induction false} LexemesHaveText(s: string)
    ensures forall l | l in Lex(s) :: l.text != ""
  {
    hide First;
    if s != "" {
      LexemesHaveText(s[First(s).1..]);
    }
  }

  /** The refinement theorem: given the one lexing of a source, the scanner finds exactly the words the filter
      reports, each at its own offset, in strictly increasing order. Findings are words of the lexing, so none
      lies inside a comment, a literal or a dollar quote. */
  lemma {:induction false} ScannerRefinesFilter(source: string, lexemes: seq<Lexeme>)
    requires IsLexing(source, lexemes)
    ensures forall f :: f in Scan(source) <==>
              exists k: nat :: k < |lexemes| && f.offset == Offset(lexemes, k) && Reported(lexemes, k, f.token)
    ensures forall i, j | 0 <= i < j < |Scan(source)| :: Scan(source)[i].offset < Scan(source)[j].offset
  {
    hide Lex, IsLexing, Reported, ScanFrom;
    LexIsTheLexing(source, lexemes);
    LexemesHaveText(source);
    ScanReports(lexemes, 0);
    assert lexemes[0..] == lexemes;
    forall f ensures f in Scan(source) <==>
      exists k: nat :: k < |lexemes| && f.offset == Offset(lexemes, k) && Reported(lexemes, k, f.token)
    {
      assert f in Scan(source) <==> ReportedFrom(lexemes, 0, f);
    }
  }

  /** Each of the seven words, in any case and outside comments, literals and dollar quotes, is found in capitals, when
      no GRANT is open and it is not the DELETE or UPDATE behind an ON. */
  lemma ForbiddenWordIsFound(source: string, lexemes: seq<Lexeme>, k: nat, word: string)
    requires IsLexing(source, lexemes) && k < |lexemes| && lexemes[k].kind.Word?
    requires word in ["INSERT", "UPDATE", "DELETE", "MERGE", "COPY", "TRUNCATE", "DROP"]
    requires SameButCase(lexemes[k].text, word)
    requires !InGrant(lexemes, k) && !(Follows(lexemes, k, "ON") && (word == "DELETE" || word == "UPDATE"))
    ensures Finding(word, Offset(lexemes, k)) in Scan(source)
  {
    hide IsLexing, Scan, InGrant, Follows, SameButCase;
    ScannerRefinesFilter(source, lexemes);
    assert InCapitals(word);
    assert Reported(lexemes, k, word);
  }
}
