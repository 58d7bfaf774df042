/** How the scanner's findings behave when SQL texts are joined or masked parts are rewritten. */
module MigrationEditing {
  import opened Options
  import opened MigrationLexer
  import opened MigrationFirewall

  function TextOf(lexemes: seq<Lexeme>): string { if lexemes == [] then "" else lexemes[0].text + TextOf(lexemes[1..]) }

  // ----- lexing is local

  lemma TagIsLocal(u: string, u': string, n: nat, k: nat)
    requires 1 <= n < |u| && n < |u'| && u[..n + 1] == u'[..n + 1] && !IsIdentPart(u[n])
    requires k <= |u'| && IsTag(u'[..k])
    ensures k <= |u| && IsTag(u[..k])
  {
    var t := u'[..k];
    assert u'[n] == u'[..n + 1][n] == u[n];
    assert forall i | 1 <= i < k - 1 :: IsIdentPart(t[i]) && t[i] == u'[i];
    assert u'[..k] == u'[..n + 1][..k] == u[..n + 1][..k] == u[..k];
  }

  lemma MaskIsLocal(u: string, u': string, n: nat)
    requires 1 <= n < |u| && n < |u'| && u[..n + 1] == u'[..n + 1] && !IsIdentPart(u[n])
    ensures StartsMasked(u') ==> StartsMasked(u)
  {
    assert u[0] == u[..n + 1][0] && u'[0] == u'[..n + 1][0];
    assert u[..2] == u[..n + 1][..2] && u'[..2] == u'[..n + 1][..2];
    if StartsMasked(u') {
      if !StartsWith(u', "--") && !StartsWith(u', "/*") && !IsQuote(u'[0]) {
        var k: nat :| k <= |u'| && IsTag(u'[..k]);
        TagIsLocal(u, u', n, k);
      }
    }
  }

  lemma OtherIsLocal(text: string, rest: string, rest': string, n: nat)
    requires IsLexeme(Other, text, rest) && n >= 1 && n < |text + rest| && n < |text + rest'|
    requires (text + rest)[..n + 1] == (text + rest')[..n + 1] && !IsIdentPart((text + rest)[n])
    ensures IsLexeme(Other, text, rest')
  {
    hide StartsMasked;
    MaskIsLocal(text + rest, text + rest', n);
  }

  /** A lexeme that ends no later than position `n` depends only on the text up to and including `n`, when the
      character there cannot continue an identifier. */
  lemma FirstIsLocal(u: string, u': string, n: nat)
    requires n < |u| && n < |u'| && u[..n + 1] == u'[..n + 1] && !IsIdentPart(u[n])
    requires First(u).1 <= n
    ensures First(u') == First(u)
  {
    hide First, StartsMasked, ClosedBy, QuoteBody;
    var (kind, m) := First(u);
    var text, rest, rest' := u[..m], u[m..], u'[m..];
    assert u == text + rest;
    assert u'[..m] == u'[..n + 1][..m] && u[..m] == u[..n + 1][..m];
    assert u' == text + rest';
    assert rest[0] == u[..n + 1][m] && rest'[0] == u'[..n + 1][m];
    FirstIsTheLexeme(kind, text, rest);
    if kind.Other? {
      OtherIsLocal(text, rest, rest', n);
    } else {
      ClosedIsLocal(kind, text, rest, rest');
    }
    FirstIsTheLexeme(kind, text, rest');
  }

  lemma ClosedIsLocal(kind: Kind, text: string, rest: string, rest': string)
    requires !kind.Other? && IsLexeme(kind, text, rest) && rest != "" && rest' != "" && rest[0] == rest'[0]
    ensures IsLexeme(kind, text, rest')
  {
    hide QuoteBody, IsTag;
  }

  lemma LexUnfolds(s: string)
    requires s != ""
    ensures var (kind, n) := First(s); Lex(s) == [Lexeme(kind, s[..n])] + Lex(s[n..])
  {
    hide First;
  }

  /** A lexing that has a boundary in front of a character that cannot continue an identifier keeps its part
      before the boundary whatever follows that character. */
  lemma {:induction false} LexBeforeBoundary(before: seq<Lexeme>, x: string, x': string)
    requires x != "" && x' != "" && x[0] == x'[0] && !IsIdentPart(x[0])
    requires Lex(TextOf(before) + x) == before + Lex(x)
    ensures Lex(TextOf(before) + x') == before + Lex(x')
  {
    hide First, Lex;
    var p := TextOf(before);
    if before == [] {
      assert p + x' == x' && before + Lex(x') == Lex(x');
    } else {
      var u, u' := p + x, p + x';
      var m := First(u).1;
      LexUnfolds(u);
      LexUnfolds(u');
      assert (before + Lex(x))[0] == before[0] && (before + Lex(x))[1..] == before[1..] + Lex(x);
      assert Lex(u[m..]) == before[1..] + Lex(x);
      var tail := TextOf(before[1..]);
      BoundaryHolds(before[0], tail, x, x', m);
      LexBeforeBoundary(before[1..], x, x');
      assert before + Lex(x') == [before[0]] + (before[1..] + Lex(x'));
    }
  }

  lemma BoundaryHolds(l: Lexeme, tail: string, x: string, x': string, m: nat)
    requires x != "" && x' != "" && x[0] == x'[0] && !IsIdentPart(x[0])
    requires var u := l.text + tail + x; First(u) == (l.kind, m) && m == |l.text| && u[..m] == l.text
    ensures var u, u' := l.text + tail + x, l.text + tail + x';
            u[m..] == tail + x && u'[m..] == tail + x' && First(u') == (l.kind, m) && u'[..m] == l.text
  {
    hide First;
    var u, u' := l.text + tail + x, l.text + tail + x';
    var n := |l.text + tail|;
    assert u[..n + 1] == u'[..n + 1];
    FirstIsLocal(u, u', n);
  }

  lemma {:induction false} TextOfLex(s: string)
    ensures TextOf(Lex(s)) == s
  {
    hide First;
    if s != "" {
      TextOfLex(s[First(s).1..]);
    }
  }

  lemma {:induction false} TextOfAppend(a: seq<Lexeme>, b: seq<Lexeme>)
    ensures TextOf(a + b) == TextOf(a) + TextOf(b)
  {
    if a == [] {
      assert a + b == b;
    } else {
      assert (a + b)[1..] == a[1..] + b;
      TextOfAppend(a[1..], b);
    }
  }

  /** White space, or a comment that is closed. */
  predicate IsTrailing(l: Lexeme) {
    || l.kind.Space?
    || (l.kind.LineComment? && |l.text| > 2 && l.text[|l.text| - 1] == '\n')
    || (l.kind.BlockComment? && |l.text| > 3 && l.text[|l.text| - 2..] == "*/")
  }

  /** Lexeme `k` is a semicolon with only white space and closed comments behind it. */
  predicate EndsStatementAt(a: string, k: nat) {
    && k < |Lex(a)| && Lex(a)[k].kind.Semicolon?
    && forall m | k < m < |Lex(a)| :: IsTrailing(Lex(a)[m])
  }

  ghost predicate EndsStatement(a: string) { exists k: nat :: EndsStatementAt(a, k) }

  /** A closed lexeme stays one whatever comes behind it. */
  lemma TrailingIsClosed(l: Lexeme, rest: string, rest': string)
    requires IsTrailing(l) && IsLexeme(l.kind, l.text, rest)
    ensures IsLexeme(l.kind, l.text, rest') && l.text != ""
  {
    if l.kind.LineComment? {
      var body := l.text[2..];
      assert body[|body| - 1..|body| - 1 + 1] == "\n";
      assert OccursAt(body, "\n", |body| - 1);
    } else if l.kind.BlockComment? {
      var body := l.text[2..];
      assert body[|body| - 2..|body| - 2 + 2] == l.text[|l.text| - 2..];
      assert OccursAt(body, "*/", |body| - 2);
    }
  }

  lemma {:induction false} LexOfLexeme(l: Lexeme, rest: string)
    requires l.text != "" && IsLexeme(l.kind, l.text, rest)
    ensures Lex(l.text + rest) == [l] + Lex(rest)
  {
    hide First, IsLexeme;
    FirstIsTheLexeme(l.kind, l.text, rest);
    var s := l.text + rest;
    assert s[|l.text|..] == rest && s[..|l.text|] == l.text;
  }

  lemma LeadingLexeme(l: Lexeme, rest: string, more: seq<Lexeme>)
    requires Lex(l.text + rest) == [l] + more
    ensures l.text != "" && IsLexeme(l.kind, l.text, rest) && Lex(rest) == more
  {
    hide First, IsLexeme, Lex;
    var s := l.text + rest;
    EmptyHasNoLexemes();
    LexUnfolds(s);
    var n := First(s).1;
    assert ([l] + more)[0] == l && ([l] + more)[1..] == more;
    assert s[..n] == l.text && s[n..] == rest;
    FirstIsTheLexeme(l.kind, l.text, rest);
  }

  lemma EmptyHasNoLexemes()
    ensures Lex("") == []
  {
  }

  lemma {:induction false} TrailingJoins(tail: seq<Lexeme>, b: string)
    requires Lex(TextOf(tail)) == tail && forall l | l in tail :: IsTrailing(l)
    ensures Lex(TextOf(tail) + b) == tail + Lex(b)
  {
    hide Lex, IsLexeme, IsTrailing;
    if tail == [] {
      assert TextOf(tail) + b == b && tail + Lex(b) == Lex(b);
    } else {
      var l, rest := tail[0], TextOf(tail[1..]);
      assert tail == [l] + tail[1..] && l in tail && forall x | x in tail[1..] :: x in tail;
      LeadingLexeme(l, rest, tail[1..]);
      TrailingJoins(tail[1..], b);
      TrailingIsClosed(l, rest, rest + b);
      LexOfLexeme(l, rest + b);
      assert TextOf(tail) + b == l.text + (rest + b);
      assert [l] + (tail[1..] + Lex(b)) == tail + Lex(b);
    }
  }

  lemma LexSemicolon(b: string)
    ensures Lex(";" + b) == [Lexeme(Semicolon, ";")] + Lex(b)
  {
    var s := ";" + b;
    assert s[0] == ';' && s[1..] == b && s[..1] == ";";
    assert First(s) == (Semicolon, 1);
    LexUnfolds(s);
  }

  lemma {:induction false} SemicolonText(a: string, k: nat)
    requires k < |Lex(a)| && Lex(a)[k].kind.Semicolon?
    ensures Lex(a)[k] == Lexeme(Semicolon, ";")
  {
    hide DollarTag, LengthThrough, QuoteLength, WordRun;
    if k == 0 {
      assert a[..1] == [a[0]];
    } else {
      SemicolonText(a[First(a).1..], k - 1);
    }
  }

  lemma LexJoins(a: string, b: string, k: nat)
    requires EndsStatementAt(a, k)
    ensures Lex(a + b) == Lex(a) + Lex(b)
  {
    hide Lex, IsTrailing;
    var all, before, semicolon, tail := Lex(a), Lex(a)[..k], Lexeme(Semicolon, ";"), Lex(a)[k + 1..];
    SemicolonText(a, k);
    assert all == before + ([semicolon] + tail) && all == (before + [semicolon]) + tail;
    LexOfTail(before, [semicolon] + tail, a);
    LexOfTail(before + [semicolon], tail, a);
    assert ([semicolon] + tail)[1..] == tail && TextOf([semicolon] + tail) == ";" + TextOf(tail);
    LexBeforeBoundary(before, ";" + TextOf(tail), ";" + (TextOf(tail) + b));
    LexSemicolon(TextOf(tail) + b);
    TrailingJoins(tail, b);
    assert a + b == TextOf(before) + (";" + (TextOf(tail) + b));
    assert before + ([semicolon] + (tail + Lex(b))) == all + Lex(b);
  }

  // ----- scanning a joined text

  function Final(lexemes: seq<Lexeme>, state: State): State {
    if lexemes == [] then state else Final(lexemes[1..], Advance(state, lexemes[0]))
  }

  function Shift(findings: seq<Finding>, delta: nat): seq<Finding> {
    seq(|findings|, i requires 0 <= i < |findings| => Finding(findings[i].token, findings[i].offset + delta))
  }

  lemma {:induction false} ScanOfJoin(a: seq<Lexeme>, b: seq<Lexeme>, state: State, offset: nat)
    ensures ScanFrom(a + b, state, offset) ==
        ScanFrom(a, state, offset) + ScanFrom(b, Final(a, state), offset + |TextOf(a)|)
  {
    hide Advance, Flags;
    if a == [] {
      assert a + b == b;
    } else {
      assert (a + b)[1..] == a[1..] + b;
      ScanOfJoin(a[1..], b, Advance(state, a[0]), offset + |a[0].text|);
    }
  }

  lemma ShiftOfFlags(state: State, l: Lexeme, offset: nat, delta: nat)
    ensures Flags(state, l, offset + delta) == Shift(Flags(state, l, offset), delta)
  {
    hide Upper;
  }

  lemma {:induction false} ScanShifts(lexemes: seq<Lexeme>, state: State, offset: nat, delta: nat)
    ensures ScanFrom(lexemes, state, offset + delta) == Shift(ScanFrom(lexemes, state, offset), delta)
  {
    hide Advance, Flags;
    if lexemes != [] {
      ShiftOfFlags(state, lexemes[0], offset, delta);
      ScanShifts(lexemes[1..], Advance(state, lexemes[0]), offset + |lexemes[0].text|, delta);
    }
  }

  /** Registers that make no difference to what follows. */
  predicate Alike(a: State, b: State) {
    && a.mode == b.mode
    && (a.previous == Some("ON") <==> b.previous == Some("ON"))
    && (a.previous == Some("CREATE") <==> b.previous == Some("CREATE"))
  }

  lemma {:induction false} AlikeScansEqually(lexemes: seq<Lexeme>, a: State, b: State, offset: nat)
    requires Alike(a, b)
    ensures ScanFrom(lexemes, a, offset) == ScanFrom(lexemes, b, offset)
  {
    hide Upper;
    if lexemes != [] {
      AlikeScansEqually(lexemes[1..], Advance(a, lexemes[0]), Advance(b, lexemes[0]), offset + |lexemes[0].text|);
    }
  }

  lemma {:induction false} FinalOfAppend(a: seq<Lexeme>, b: seq<Lexeme>, state: State)
    ensures Final(a + b, state) == Final(b, Final(a, state))
  {
    hide Advance;
    if a == [] {
      assert a + b == b;
    } else {
      assert (a + b)[1..] == a[1..] + b;
      FinalOfAppend(a[1..], b, Advance(state, a[0]));
    }
  }

  lemma {:induction false} TrailingKeepsMode(tail: seq<Lexeme>, state: State)
    requires forall l | l in tail :: IsTrailing(l)
    ensures Final(tail, state) == state
  {
    if tail != [] {
      assert tail[0] in tail && forall l | l in tail[1..] :: l in tail;
      TrailingKeepsMode(tail[1..], state);
    }
  }

  lemma StatementEndsInNoMode(a: string)
    requires EndsStatement(a)
    ensures Final(Lex(a), START).mode == NoMode
  {
    hide Lex, Upper, IsTrailing;
    var k: nat :| EndsStatementAt(a, k);
    var all := Lex(a);
    assert all == all[..k] + ([all[k]] + all[k + 1..]);
    FinalOfAppend(all[..k], [all[k]] + all[k + 1..], START);
    var before := Final(all[..k], START);
    assert ([all[k]] + all[k + 1..])[1..] == all[k + 1..];
    TrailingKeepsMode(all[k + 1..], Advance(before, all[k]));
  }

  /** The last word of the text, as the scanner remembers it. */
  function LastWord(a: string): Option<string> { Final(Lex(a), START).previous }

  lemma {:induction false} JoinedScan(a: string, b: string)
    requires EndsStatement(a)
    ensures Scan(a + b) == Scan(a) + Shift(ScanFrom(Lex(b), Final(Lex(a), START), 0), |a|)
  {
    hide Lex, ScanFrom;
    var k: nat :| EndsStatementAt(a, k);
    LexJoins(a, b, k);
    TextOfLex(a);
    ScanOfJoin(Lex(a), Lex(b), START, 0);
    ScanShifts(Lex(b), Final(Lex(a), START), 0, |a|);
  }

  lemma LoneWord(word: string, state: State)
    requires word != "" && IsIdentStart(word[0]) && forall c | c in word :: IsWordPart(c)
    ensures ScanFrom(Lex(word), state, 0) == WordFindings(state, Upper(word), 0)
  {
    hide Upper, First, Lex;
    var lexemes := [Lexeme(Word, word)];
    assert IsLexing("", []);
    assert IsLexing(word, lexemes);
    LexIsTheLexing(word, lexemes);
  }

  /** A following word that the last word changes the verdict on. */
  lemma {:induction false} JoinNeedsNeutralLastWord(a: string, b: string)
    requires EndsStatement(a) && b != "" && IsIdentStart(b[0]) && forall c | c in b :: IsWordPart(c)
    requires |WordFindings(Final(Lex(a), START), Upper(b), 0)| != |WordFindings(START, Upper(b), 0)|
    ensures Scan(a + b) != Scan(a) + Shift(Scan(b), |a|)
  {
    hide Lex, ScanFrom, Upper, WordFindings, Final;
    var state := Final(Lex(a), START);
    JoinedScan(a, b);
    LoneWord(b, state);
    LoneWord(b, START);
    ScanIs(b);
    assert |Shift(ScanFrom(Lex(b), state, 0), |a|)| != |Shift(Scan(b), |a|)|;
  }

  lemma DeleteAfterOn(state: State)
    requires state == State(Some("ON"), NoMode)
    ensures |WordFindings(state, Upper("DELETE"), 0)| != |WordFindings(START, Upper("DELETE"), 0)|
  {
    assert Upper("DELETE") == "DELETE";
  }

  lemma SchemaAfterCreate(state: State)
    requires state == State(Some("CREATE"), NoMode)
    ensures |WordFindings(state, Upper("SCHEMA"), 0)| != |WordFindings(START, Upper("SCHEMA"), 0)|
  {
    assert Upper("SCHEMA") == "SCHEMA";
  }

  lemma {:induction false} JoinAfterOnOrCreate(a: string) returns (b: string)
    requires EndsStatement(a) && (LastWord(a) == Some("ON") || LastWord(a) == Some("CREATE"))
    ensures Scan(a + b) != Scan(a) + Shift(Scan(b), |a|)
  {
    hide Lex, ScanFrom, Scan, Final, WordFindings, Upper;
    StatementEndsInNoMode(a);
    if LastWord(a) == Some("ON") {
      b := "DELETE";
      DeleteAfterOn(Final(Lex(a), START));
    } else {
      b := "SCHEMA";
      SchemaAfterCreate(Final(Lex(a), START));
    }
    JoinNeedsNeutralLastWord(a, b);
  }

  lemma JoinAfterNeutralWord(a: string, b: string)
    requires EndsStatement(a) && LastWord(a) != Some("ON") && LastWord(a) != Some("CREATE")
    ensures Scan(a + b) == Scan(a) + Shift(Scan(b), |a|)
  {
    hide Lex, ScanFrom, Scan, Final;
    StatementEndsInNoMode(a);
    JoinedScan(a, b);
    AlikeScansEqually(Lex(b), Final(Lex(a), START), START, 0);
    ScanIs(b);
  }

  /** Scanning a text that ends a statement, perhaps with blanks and closed comments behind it, and then any other
      text finds what scanning the two apart finds, exactly when the first text's last word is neither ON nor CREATE:
      the semicolon does not clear it. */
  lemma ScansCompose(a: string)
    requires EndsStatement(a)
    ensures (forall b :: Scan(a + b) == Scan(a) + Shift(Scan(b), |a|)) <==>
              LastWord(a) != Some("ON") && LastWord(a) != Some("CREATE")
  {
    hide Lex, Scan, LastWord, EndsStatement;
    if LastWord(a) == Some("ON") || LastWord(a) == Some("CREATE") {
      var b := JoinAfterOnOrCreate(a);
    } else {
      forall b ensures Scan(a + b) == Scan(a) + Shift(Scan(b), |a|) {
        JoinAfterNeutralWord(a, b);
      }
    }
  }

  lemma ScanIs(b: string)
    ensures Scan(b) == ScanFrom(Lex(b), START, 0)
  {
  }

  // ----- rewriting a masked part

  lemma {:induction false} LexOfTail(before: seq<Lexeme>, after: seq<Lexeme>, s: string)
    requires Lex(s) == before + after
    ensures s == TextOf(before) + TextOf(after) && Lex(TextOf(after)) == after
  {
    hide First;
    if before == [] {
      assert before + after == after;
      TextOfLex(s);
    } else {
      var m := First(s).1;
      assert (before + after)[0] == before[0] && (before + after)[1..] == before[1..] + after;
      LexOfTail(before[1..], after, s[m..]);
    }
  }

  lemma MaskedScansAlike(before: seq<Lexeme>, l: Lexeme, l': Lexeme, after: seq<Lexeme>)
    requires Masked(l.kind) && Masked(l'.kind) && |l.text| == |l'.text|
    ensures ScanFrom(before + [l] + after, START, 0) == ScanFrom(before + [l'] + after, START, 0)
  {
    hide ScanFrom, Final, TextOf;
    var state, offset := Final(before, START), |TextOf(before)|;
    assert before + [l] + after == before + ([l] + after) && before + [l'] + after == before + ([l'] + after);
    ScanOfJoin(before, [l] + after, START, 0);
    ScanOfJoin(before, [l'] + after, START, 0);
    MaskedStep(l, after, state, offset);
    MaskedStep(l', after, state, offset);
  }

  lemma MaskedStep(l: Lexeme, after: seq<Lexeme>, state: State, offset: nat)
    requires Masked(l.kind)
    ensures ScanFrom([l] + after, state, offset) == ScanFrom(after, state, offset + |l.text|)
  {
    assert ([l] + after)[1..] == after;
  }

  lemma OpenersAreNotIdentifiers(kind: Kind, text: string, rest: string)
    requires Masked(kind) && IsLexeme(kind, text, rest)
    ensures text != "" && !IsIdentPart(text[0])
  {
  }

  /** Replacing a comment, literal or dollar quote by another one of equal length, with the same first character and
      closing in the same place, leaves the rest of the lexing and all findings as they are. */
  lemma RewritingMaskedTextKeepsFindings(source: string, before: seq<Lexeme>, l: Lexeme, after: seq<Lexeme>, l': Lexeme)
    requires IsLexing(source, before + [l] + after)
    requires Masked(l.kind) && Masked(l'.kind) && |l'.text| == |l.text| > 0 && l'.text[0] == l.text[0]
    requires IsLexeme(l'.kind, l'.text, TextOf(after))
    ensures var rewritten := TextOf(before) + l'.text + TextOf(after);
            && IsLexing(rewritten, before + [l'] + after)
            && Scan(rewritten) == Scan(source)
  {
    hide Lex, IsLexing, IsLexeme, ScanFrom, Masked, IsIdentPart;
    var rewritten := TextOf(before) + l'.text + TextOf(after);
    LexIsTheLexing(source, before + [l] + after);
    assert before + [l] + after == before + ([l] + after);
    LexOfTail(before, [l] + after, source);
    assert ([l] + after)[1..] == after && TextOf([l] + after) == l.text + TextOf(after);
    LexOfTail(before + [l], after, source);
    OpenersAreNotIdentifiers(l'.kind, l'.text, TextOf(after));
    LexBeforeBoundary(before, l.text + TextOf(after), l'.text + TextOf(after));
    LexOfLexeme(l', TextOf(after));
    assert rewritten == TextOf(before) + (l'.text + TextOf(after));
    assert before + [l'] + after == before + ([l'] + after);
    LexIsTheLexing(rewritten, before + [l'] + after);
    MaskedScansAlike(before, l, l', after);
  }
}
