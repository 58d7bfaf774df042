/** The firewall does not look at the case of letters: two sources that differ only in it have the same findings, as
    long as their dollar tags, which the database compares exactly, agree. */
module MigrationCase {
  import opened LetterCase
  import opened MigrationLexer
  import opened MigrationFirewall

  /** Wherever one text has a dollar tag the other has the same one. */
  ghost predicate TagsAgree(s: string, t: string)
    requires |s| == |t|
  {
    forall i: nat, j: nat | i <= j <= |s| && IsTag(s[i..j]) :: t[i..j] == s[i..j]
  }

  /** Both texts in one relation that every suffix keeps. */
  ghost predicate Alike(s: string, t: string) { SameButCase(s, t) && TagsAgree(s, t) }

  lemma AlikeSuffix(s: string, t: string, n: nat)
    requires Alike(s, t) && n <= |s|
    ensures Alike(s[n..], t[n..])
  {
    hide IsTag, SameLetter;
    forall i: nat, j: nat | i <= j <= |s| - n && IsTag(s[n..][i..j]) ensures t[n..][i..j] == s[n..][i..j] {
      assert s[n..][i..j] == s[n + i..n + j] && t[n..][i..j] == t[n + i..n + j];
    }
  }

  // ----- what a letter's case cannot change

  lemma ClassesAlike(a: char, b: char)
    requires SameLetter(a, b)
    ensures IsIdentStart(a) == IsIdentStart(b) && IsIdentPart(a) == IsIdentPart(b) && IsWordPart(a) == IsWordPart(b)
    ensures IsQuote(a) == IsQuote(b) && IsWhitespace(a) == IsWhitespace(b)
    ensures !IsIdentStart(a) ==> a == b
  {
  }

  lemma TagAlike(s: string, t: string)
    requires SameButCase(s, t)
    ensures IsTag(s) <==> IsTag(t)
  {
    forall i | 0 <= i < |s|
      ensures IsIdentPart(s[i]) == IsIdentPart(t[i]) && IsIdentStart(s[i]) == IsIdentStart(t[i])
      ensures !IsIdentStart(s[i]) ==> s[i] == t[i]
    {
      ClassesAlike(s[i], t[i]);
    }
    if |s| == 2 {
      assert s == [s[0], s[1]] && t == [t[0], t[1]];
    }
  }

  ghost predicate HasNoLetter(pattern: string) { forall i | 0 <= i < |pattern| :: !IsIdentStart(pattern[i]) }

  lemma DelimitersHaveNoLetter()
    ensures HasNoLetter("--") && HasNoLetter("\n") && HasNoLetter("/*") && HasNoLetter("*/")
  {
  }

  lemma PatternAlike(s: string, t: string, pattern: string, j: nat)
    requires SameButCase(s, t) && HasNoLetter(pattern)
    ensures OccursAt(s, pattern, j) <==> OccursAt(t, pattern, j)
  {
    if j + |pattern| <= |s| {
      forall i | j <= i < j + |pattern|
        ensures s[i] == pattern[i - j] <==> t[i] == pattern[i - j]
      {
        ClassesAlike(s[i], t[i]);
      }
      var u, v := s[j..j + |pattern|], t[j..j + |pattern|];
      assert u == pattern <==> forall i | 0 <= i < |pattern| :: u[i] == pattern[i];
      assert v == pattern <==> forall i | 0 <= i < |pattern| :: v[i] == pattern[i];
      assert forall i | 0 <= i < |pattern| :: u[i] == s[j + i] && v[i] == t[j + i];
    }
  }

  lemma ThroughAlike(s: string, t: string, closing: string)
    requires closing != "" && |s| == |t|
    requires forall j: nat :: OccursAt(s, closing, j) <==> OccursAt(t, closing, j)
    ensures LengthThrough(s, closing) == LengthThrough(t, closing)
  {
    hide OccursAt;
  }

  lemma CommentAlike(s: string, t: string, opening: string, closing: string)
    requires SameButCase(s, t) && HasNoLetter(opening) && HasNoLetter(closing) && closing != ""
    ensures StartsWith(s, opening) == StartsWith(t, opening)
    ensures |s| >= 2 ==> LengthThrough(s[2..], closing) == LengthThrough(t[2..], closing)
  {
    hide SameLetter, LengthThrough;
    PatternAlike(s, t, opening, 0);
    if |s| >= 2 {
      forall j: nat ensures OccursAt(s[2..], closing, j) <==> OccursAt(t[2..], closing, j) {
        PatternAlike(s[2..], t[2..], closing, j);
      }
      ThroughAlike(s[2..], t[2..], closing);
    }
  }

  lemma {:induction false} QuoteAlike(s: string, t: string, quote: char)
    requires SameButCase(s, t) && IsQuote(quote)
    ensures QuoteLength(s, quote) == QuoteLength(t, quote)
  {
    if s != "" {
      ClassesAlike(s[0], t[0]);
      if |s| > 1 {
        ClassesAlike(s[1], t[1]);
        QuoteAlike(s[2..], t[2..], quote);
      }
      QuoteAlike(s[1..], t[1..], quote);
    }
  }

  lemma WordAlike(s: string, t: string)
    requires SameButCase(s, t)
    ensures WordRun(s) == WordRun(t)
  {
    forall i | 0 <= i < |s| ensures IsWordPart(s[i]) == IsWordPart(t[i]) {
      ClassesAlike(s[i], t[i]);
    }
  }

  lemma DollarTagAlike(s: string, t: string)
    requires Alike(s, t)
    ensures DollarTag(s) == DollarTag(t)
    ensures DollarTag(s).Some? ==> var n := DollarTag(s).value; s[..n] == t[..n] && IsTag(s[..n])
  {
    hide DollarTag, IsTag, SameLetter;
    if DollarTag(s).Some? {
      var n := DollarTag(s).value;
      TagIsUnique(s, n);
      assert s[0..n] == s[..n] && t[0..n] == t[..n];
      TagIsUnique(t, n);
    }
    if DollarTag(t).Some? {
      var n := DollarTag(t).value;
      TagIsUnique(t, n);
      TagAlike(s[..n], t[..n]);
      TagIsUnique(s, n);
    }
  }

  lemma DollarQuoteAlike(s: string, t: string, tag: string)
    requires Alike(s, t) && IsTag(tag)
    ensures LengthThrough(s, tag) == LengthThrough(t, tag)
  {
    assert tag != "";
    hide LengthThrough, IsTag, SameLetter;
    forall j: nat ensures OccursAt(s, tag, j) <==> OccursAt(t, tag, j) {
      if j + |tag| <= |s| {
        var u, v := s[j..j + |tag|], t[j..j + |tag|];
        TagAlike(u, v);
        assert IsTag(u) ==> v == u;
      }
    }
    ThroughAlike(s, t, tag);
  }

  lemma FirstAlike(s: string, t: string)
    requires s != "" && Alike(s, t)
    ensures First(s) == First(t)
  {
    hide DollarTag, LengthThrough, QuoteLength, WordRun, IsTag, TagsAgree, StartsWith, IsWhitespace, IsIdentStart,
        HasNoLetter;
    DelimitersHaveNoLetter();
    ClassesAlike(s[0], t[0]);
    CommentAlike(s, t, "--", "\n");
    CommentAlike(s, t, "/*", "*/");
    if IsQuote(s[0]) {
      QuoteAlike(s[1..], t[1..], s[0]);
    }
    DollarTagAlike(s, t);
    if DollarTag(s).Some? {
      var n := DollarTag(s).value;
      AlikeSuffix(s, t, n);
      DollarQuoteAlike(s[n..], t[n..], s[..n]);
    }
    WordAlike(s, t);
  }

  // ----- lexings and findings

  ghost predicate LexemesAlike(a: seq<Lexeme>, b: seq<Lexeme>) {
    |a| == |b| && forall k | 0 <= k < |a| :: a[k].kind == b[k].kind && SameButCase(a[k].text, b[k].text)
  }

  lemma {:induction false} LexAlike(s: string, t: string)
    requires Alike(s, t)
    ensures LexemesAlike(Lex(s), Lex(t))
  {
    hide First, TagsAgree, SameLetter;
    if s != "" {
      FirstAlike(s, t);
      var n := First(s).1;
      AlikeSuffix(s, t, n);
      LexAlike(s[n..], t[n..]);
      assert SameButCase(s[..n], t[..n]);
    }
  }

  lemma FlagsAlike(state: State, a: Lexeme, b: Lexeme, offset: nat)
    requires a.kind == b.kind && SameButCase(a.text, b.text)
    ensures Flags(state, a, offset) == Flags(state, b, offset) && Advance(state, a) == Advance(state, b)
  {
    hide Upper;
    UpperAlike(a.text, b.text);
  }

  lemma UpperAlike(s: string, t: string)
    requires SameButCase(s, t)
    ensures Upper(s) == Upper(t)
  {
    hide Upper;
    var word := Upper(s);
    UpperExactlyWhen(s, word);
    UpperExactlyWhen(t, word);
    forall i | 0 <= i < |s| ensures SameLetter(t[i], word[i]) {
      assert SameLetter(s[i], t[i]) && SameLetter(s[i], word[i]);
    }
  }

  lemma {:induction false} ScanAlike(a: seq<Lexeme>, b: seq<Lexeme>, state: State, offset: nat)
    requires LexemesAlike(a, b)
    ensures ScanFrom(a, state, offset) == ScanFrom(b, state, offset)
  {
    hide Flags, Advance, SameLetter;
    if a != [] {
      FlagsAlike(state, a[0], b[0], offset);
      ScanAlike(a[1..], b[1..], Advance(state, a[0]), offset + |a[0].text|);
    }
  }

  /** Two sources that are equal up to the case of letters, and whose dollar tags agree, have the same findings. */
  lemma CaseDoesNotMatter(source: string, source': string)
    requires SameButCase(source, source') && TagsAgree(source, source')
    ensures Scan(source) == Scan(source')
  {
    hide Lex, ScanFrom, LexemesAlike, SameButCase, TagsAgree;
    LexAlike(source, source');
    ScanAlike(Lex(source), Lex(source'), START, 0);
  }
}
