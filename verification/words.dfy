/** Words of a text: what Python's `str.split()` gives, and how a scan of the text counts them. */
module Words {
  /** Code points that Python's `str.split()` splits at. */
  predicate IsSpace(c: char) {
    var k := c as int;
    || 9 <= k <= 13 || 28 <= k <= 32 || k == 0x85 || k == 0xa0 || k == 0x1680
    || 0x2000 <= k <= 0x200a || k == 0x2028 || k == 0x2029 || k == 0x202f || k == 0x205f || k == 0x3000
  }

  /** A word is counted at its last character. */
  function WordCount(text: string): nat {
    if text == [] then 0
    else WordCount(text[1..]) + (if !IsSpace(text[0]) && (|text| == 1 || IsSpace(text[1])) then 1 else 0)
  }

  // ----- what the words of a text are

  ghost predicate IsBlank(gap: string) { forall c | c in gap :: IsSpace(c) }

  ghost predicate IsWord(word: string) { word != "" && forall c | c in word :: !IsSpace(c) }

  /** Blanks before, between and behind the words; only the outer ones may be empty. */
  ghost predicate AreGaps(gaps: seq<string>, words: seq<string>) {
    && |gaps| == |words| + 1
    && (forall i | 0 <= i < |gaps| :: IsBlank(gaps[i]))
    && (forall i | 0 < i < |words| :: gaps[i] != "")
  }

  function Spaced(gaps: seq<string>, words: seq<string>): string
    requires |gaps| == |words| + 1
  {
    if words == [] then gaps[0] else gaps[0] + (words[0] + Spaced(gaps[1..], words[1..]))
  }

  ghost predicate SplitsInto(text: string, words: seq<string>) {
    && (forall i | 0 <= i < |words| :: IsWord(words[i]))
    && exists gaps :: AreGaps(gaps, words) && text == Spaced(gaps, words)
  }

  /** The blanks are the ASCII ones, the two of Latin-1, and the Unicode space separators. */
  lemma BlanksAre(c: char)
    ensures c as int < 128 ==> (IsSpace(c) <==> c in " \t\n\r\U{b}\U{c}\U{1c}\U{1d}\U{1e}\U{1f}")
    ensures c as int >= 128 ==>
              (IsSpace(c) <==>
                c in "\U{85}\U{a0}\U{1680}\U{2000}\U{2001}\U{2002}\U{2003}\U{2004}\U{2005}\U{2006}\U{2007}\U{2008}"
                     + "\U{2009}\U{200a}\U{2028}\U{2029}\U{202f}\U{205f}\U{3000}")
  {
  }

  // ----- the scan counts them

  lemma {:induction false} CountBehindBlanks(gap: string, rest: string)
    requires IsBlank(gap)
    ensures WordCount(gap + rest) == WordCount(rest)
  {
    if gap == "" {
      assert gap + rest == rest;
    } else {
      assert gap[0] in gap && forall c | c in gap[1..] :: c in gap;
      assert (gap + rest)[1..] == gap[1..] + rest;
      CountBehindBlanks(gap[1..], rest);
    }
  }

  lemma {:induction false} CountBehindWord(word: string, rest: string)
    requires IsWord(word) && (rest == "" || IsSpace(rest[0]))
    ensures WordCount(word + rest) == 1 + WordCount(rest)
  {
    var all := word + rest;
    assert word[0] in word && all[1..] == word[1..] + rest;
    if |word| == 1 {
      assert all[1..] == rest;
    } else {
      assert all[1] == word[1] && word[1] in word && forall c | c in word[1..] :: c in word;
      CountBehindWord(word[1..], rest);
    }
  }

  lemma {:induction false} CountOfSpaced(gaps: seq<string>, words: seq<string>)
    requires AreGaps(gaps, words) && forall i | 0 <= i < |words| :: IsWord(words[i])
    ensures WordCount(Spaced(gaps, words)) == |words|
  {
    hide WordCount, IsWord, IsSpace;
    if words == [] {
      CountBehindBlanks(gaps[0], "");
      assert gaps[0] + "" == gaps[0];
      NoWords();
    } else {
      var rest := Spaced(gaps[1..], words[1..]);
      CountOfSpaced(gaps[1..], words[1..]);
      assert IsBlank(gaps[1..][0]);
      assert |words| > 1 ==> gaps[1] != "" && gaps[1][0] in gaps[1];
      assert rest != "" ==> rest[0] == gaps[1][0];
      CountBehindWord(words[0], rest);
      CountBehindBlanks(gaps[0], words[0] + rest);
    }
  }

  lemma NoWords()
    ensures WordCount("") == 0
  {
  }

  /** The count is the number of words, whatever the blanks between them. */
  lemma WordsAreCounted(text: string, words: seq<string>)
    requires SplitsInto(text, words)
    ensures WordCount(text) == |words|
  {
    hide WordCount, Spaced, IsWord;
    var gaps :| AreGaps(gaps, words) && text == Spaced(gaps, words);
    CountOfSpaced(gaps, words);
  }

  lemma {:induction false} GapsOf(text: string) returns (gaps: seq<string>, words: seq<string>)
    ensures AreGaps(gaps, words) && text == Spaced(gaps, words) && forall i | 0 <= i < |words| :: IsWord(words[i])
  {
    if text == "" {
      gaps, words := [""], [];
    } else {
      hide IsSpace;
      var c := text[0];
      gaps, words := GapsOf(text[1..]);
      assert text == [c] + text[1..];
      if IsSpace(c) {
        var wider := gaps[0 := [c] + gaps[0]];
        assert wider[1..] == gaps[1..];
        gaps := wider;
      } else if gaps[0] == "" && words != [] {
        var longer := words[0 := [c] + words[0]];
        assert longer[1..] == words[1..];
        words := longer;
      } else {
        var wider, longer := [""] + gaps, [[c]] + words;
        assert wider[1..] == gaps && longer[1..] == words;
        gaps, words := wider, longer;
      }
    }
  }

  /** Every text splits into words. */
  lemma EveryTextSplits(text: string) returns (words: seq<string>)
    ensures SplitsInto(text, words)
  {
    hide Spaced, IsWord, AreGaps;
    var gaps;
    gaps, words := GapsOf(text);
  }

  lemma {:induction false} CountOfJoined(a: string, b: string)
    ensures WordCount(a + " " + b) == WordCount(a) + WordCount(b)
  {
    var all := a + " " + b;
    if a == "" {
      assert all == " " + b && all[1..] == b;
    } else {
      assert all[1..] == a[1..] + " " + b;
      CountOfJoined(a[1..], b);
      assert |a| > 1 ==> all[1] == a[1];
    }
  }
}
