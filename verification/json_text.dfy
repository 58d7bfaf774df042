/** The JSON text of canonical values and why it determines the value: the request hash compares texts, and two
    requests have the same text exactly when they are the same request. */
module JsonText {
  import opened Options
  import opened KeyOrder
  import opened CanonicalJson

  // ----- strings

  const QUOTE: CodeUnit := 34
  const BACKSLASH: CodeUnit := 92
  const COMMA: CodeUnit := 44
  const COLON: CodeUnit := 58
  const OPEN_BRACKET: CodeUnit := 91
  const CLOSE_BRACKET: CodeUnit := 93
  const OPEN_BRACE: CodeUnit := 123
  const CLOSE_BRACE: CodeUnit := 125
  const LETTER_U: CodeUnit := 117

  predicate IsHighSurrogate(c: CodeUnit) { 0xD800 <= c < 0xDC00 }
  predicate IsLowSurrogate(c: CodeUnit) { 0xDC00 <= c < 0xE000 }

  /** The letter of a two-character escape (\b \t \n \f \r \" \\), or the unit itself. */
  function ShortEscape(c: CodeUnit): CodeUnit {
    if c == 8 then 98 else if c == 9 then 116 else if c == 10 then 110 else if c == 12 then 102
    else if c == 13 then 114 else c
  }

  predicate HasShortEscape(c: CodeUnit) {
    c == 8 || c == 9 || c == 10 || c == 12 || c == 13 || c == QUOTE || c == BACKSLASH
  }

  /** What the letter of a two-character escape stands for, if it is one. */
  function Unescape(letter: CodeUnit): Option<CodeUnit> {
    if letter == 'b' as int then Some(8) else if letter == 't' as int then Some(9)
    else if letter == 'n' as int then Some(10) else if letter == 'f' as int then Some(12)
    else if letter == 'r' as int then Some(13)
    else if letter == '"' as int || letter == '\\' as int || letter == '/' as int then Some(letter) else None
  }

  function HexDigit(d: int): CodeUnit
    requires 0 <= d < 16
  {
    if d < 10 then 48 + d else 87 + d
  }

  function HexValue(c: CodeUnit): int { if c < 58 then c - 48 else c - 87 }

  function Hex4(c: CodeUnit): (r: Text)
    ensures |r| == 4
  {
    [HexDigit(c / 16 / 16 / 16), HexDigit(c / 16 / 16 % 16), HexDigit(c / 16 % 16), HexDigit(c % 16)]
  }

  /** The escaped text of a string, followed by `k`. Surrogate pairs are kept, lone surrogates are escaped. */
  function Escape(s: Text, k: Text): Text {
    if s == [] then k
    else if HasShortEscape(s[0]) then [BACKSLASH, ShortEscape(s[0])] + Escape(s[1..], k)
    else if IsHighSurrogate(s[0]) && |s| > 1 && IsLowSurrogate(s[1]) then s[..2] + Escape(s[2..], k)
    else if s[0] < 32 || IsHighSurrogate(s[0]) || IsLowSurrogate(s[0]) then
      [BACKSLASH, LETTER_U] + Hex4(s[0]) + Escape(s[1..], k)
    else [s[0]] + Escape(s[1..], k)
  }

  function Prepend(s: Text, r: Option<(Text, Text)>): Option<(Text, Text)> {
    if r.None? then None else Some((s + r.value.0, r.value.1))
  }

  /** Reads the rest of a string literal up to its closing quote: its value and what follows. Control characters must be
      escaped. */
  function ReadString(t: Text): (r: Option<(Text, Text)>)
    ensures r.Some? ==> |r.value.1| < |t|
  {
    if t == [] then None
    else if t[0] == '"' as int then Some(([], t[1..]))
    else if t[0] < 0x20 then None
    else if t[0] != '\\' as int then Prepend([t[0]], ReadString(t[1..]))
    else if |t| >= 6 && t[1] == 'u' as int then
      var c := 4096 * HexValue(t[2]) + 256 * HexValue(t[3]) + 16 * HexValue(t[4]) + HexValue(t[5]);
      if 0 <= c < 0x1_0000 then Prepend([c], ReadString(t[6..])) else None
    else if |t| >= 2 && Unescape(t[1]).Some? then Prepend([Unescape(t[1]).value], ReadString(t[2..]))
    else None
  }

  lemma HexReadsBack(c: CodeUnit)
    ensures var h := Hex4(c); 4096 * HexValue(h[0]) + 256 * HexValue(h[1]) + 16 * HexValue(h[2]) + HexValue(h[3]) == c
  {
    var c1 := c / 16;
    var c2 := c1 / 16;
    DigitReadsBack(c2 / 16);
    DigitReadsBack(c2 % 16);
    DigitReadsBack(c1 % 16);
    DigitReadsBack(c % 16);
    hide HexDigit, HexValue;
    assert c == 16 * c1 + c % 16 && c1 == 16 * c2 + c1 % 16 && c2 == 16 * (c2 / 16) + c2 % 16;
  }

  lemma DigitReadsBack(d: int)
    requires 0 <= d < 16
    ensures HexValue(HexDigit(d)) == d
  {
  }

  lemma ReadShort(c: CodeUnit, t: Text)
    requires HasShortEscape(c)
    ensures ReadString([BACKSLASH, ShortEscape(c)] + t) == Prepend([c], ReadString(t))
  {
    assert ([BACKSLASH, ShortEscape(c)] + t)[2..] == t;
  }

  lemma ReadHex(c: CodeUnit, t: Text)
    ensures ReadString([BACKSLASH, LETTER_U] + Hex4(c) + t) == Prepend([c], ReadString(t))
  {
    hide Hex4, HexValue;
    HexReadsBack(c);
    var all := [BACKSLASH, LETTER_U] + Hex4(c) + t;
    assert all[6..] == t && all[2..6] == Hex4(c);
  }

  lemma ReadPlain(c: CodeUnit, t: Text)
    requires c != QUOTE && c != BACKSLASH && c >= 32
    ensures ReadString([c] + t) == Prepend([c], ReadString(t))
  {
    assert ([c] + t)[1..] == t;
  }

  /** The escape of a string's first unit, or of the surrogate pair at its start, reads back in front of the rest. */
  lemma EscapeStep(s: Text, k: Text)
    requires s != []
    ensures var n := if IsHighSurrogate(s[0]) && |s| > 1 && IsLowSurrogate(s[1]) then 2 else 1;
            ReadString(Escape(s, k)) == Prepend(s[..n], ReadString(Escape(s[n..], k)))
  {
    hide ReadString, Hex4;
    assert s[..1] == [s[0]];
    if HasShortEscape(s[0]) {
      ReadShort(s[0], Escape(s[1..], k));
    } else if IsHighSurrogate(s[0]) && |s| > 1 && IsLowSurrogate(s[1]) {
      ReadPair(s[0], s[1], Escape(s[2..], k));
      assert s[..2] == [s[0], s[1]];
    } else if s[0] < 32 || IsHighSurrogate(s[0]) || IsLowSurrogate(s[0]) {
      ReadHex(s[0], Escape(s[1..], k));
    } else {
      ReadPlain(s[0], Escape(s[1..], k));
    }
  }

  lemma ReadPair(c: CodeUnit, d: CodeUnit, t: Text)
    requires IsHighSurrogate(c) && IsLowSurrogate(d)
    ensures ReadString([c, d] + t) == Prepend([c, d], ReadString(t))
  {
    hide ReadString;
    ReadPlain(d, t);
    ReadPlain(c, [d] + t);
    assert [c, d] + t == [c] + ([d] + t);
    if ReadString(t).Some? {
      var rest := ReadString(t).value.0;
      assert [c] + ([d] + rest) == [c, d] + rest;
    }
  }

  /** Reading an escaped string gives back the string and what follows it. */
  lemma {:induction false} EscapeReadsBack(s: Text, k: Text)
    ensures ReadString(Escape(s, [QUOTE] + k)) == Some((s, k))
  {
    if s == [] {
      assert ([QUOTE] + k)[1..] == k;
    } else {
      hide ReadString, Escape;
      var n := if IsHighSurrogate(s[0]) && |s| > 1 && IsLowSurrogate(s[1]) then 2 else 1;
      EscapeStep(s, [QUOTE] + k);
      EscapeReadsBack(s[n..], k);
      assert s[..n] + s[n..] == s;
    }
  }

  /** Every surrogate is half of a pair, so that the text has a UTF-8 encoding of its own. */
  predicate IsWellFormed(t: Text) {
    t == [] ||
    (if 0xD800 <= t[0] <= 0xDBFF then |t| > 1 && 0xDC00 <= t[1] <= 0xDFFF && IsWellFormed(t[2..])
     else !(0xDC00 <= t[0] <= 0xDFFF) && IsWellFormed(t[1..]))
  }

  lemma {:induction false} PlainPrefix(t: Text, k: Text)
    requires (forall c | c in t :: c < 0xD800) && IsWellFormed(k)
    ensures IsWellFormed(t + k)
  {
    if t == [] {
      assert t + k == k;
    } else {
      assert t[0] in t && (t + k)[1..] == t[1..] + k && forall c | c in t[1..] :: c in t;
      PlainPrefix(t[1..], k);
    }
  }

  lemma {:induction false} EscapeIsWellFormed(s: Text, k: Text)
    requires IsWellFormed(k)
    ensures IsWellFormed(Escape(s, k))
  {
    if s != [] {
      if HasShortEscape(s[0]) {
        EscapeIsWellFormed(s[1..], k);
        PlainPrefix([BACKSLASH, ShortEscape(s[0])], Escape(s[1..], k));
      } else if IsHighSurrogate(s[0]) && |s| > 1 && IsLowSurrogate(s[1]) {
        EscapeIsWellFormed(s[2..], k);
        assert (s[..2] + Escape(s[2..], k))[2..] == Escape(s[2..], k);
      } else if s[0] < 32 || IsHighSurrogate(s[0]) || IsLowSurrogate(s[0]) {
        EscapeIsWellFormed(s[1..], k);
        PlainPrefix([BACKSLASH, LETTER_U] + Hex4(s[0]), Escape(s[1..], k));
      } else {
        EscapeIsWellFormed(s[1..], k);
        assert ([s[0]] + Escape(s[1..], k))[1..] == Escape(s[1..], k);
      }
    }
  }

  /** Quotes, backslashes and the five control characters with a letter take two units, the others and lone surrogates
      six, and everything else one. */
  lemma EscapeLength(c: CodeUnit)
    ensures |Escape([c], [])| ==
              if c == '"' as int || c == '\\' as int || 8 <= c <= 10 || 12 <= c <= 13 then 2
              else if c < 0x20 || 0xD800 <= c <= 0xDFFF then 6 else 1
  {
    assert [c][1..] == [];
  }

  // ----- values

  const NULL_TEXT: Text := [110, 117, 108, 108]
  const TRUE_TEXT: Text := [116, 114, 117, 101]
  const FALSE_TEXT: Text := [102, 97, 108, 115, 101]

  function WriteString(s: Text, k: Text): Text { [QUOTE] + Escape(s, [QUOTE] + k) }

  /** The JSON text of `v`, followed by `k`. In an array `undefined` prints as null. */
  function Write(v: Json, k: Text): Text
    decreases v, 1
  {
    match v
    case Null => NULL_TEXT + k
    case Bool(b) => (if b then TRUE_TEXT else FALSE_TEXT) + k
    case Num(token) => token + k
    case Str(text) => WriteString(text, k)
    case Arr(items) => [OPEN_BRACKET]
        + (if items == [] then [CLOSE_BRACKET] + k else Write(items[0], WriteItems(items[1..], k)))
    case Obj(members) =>
      [OPEN_BRACE] +
      (if members == [] then [CLOSE_BRACE] + k
       else WriteString(members[0].key, [COLON] + Write(members[0].value, WriteMembers(members[1..], k))))
    case Undefined => NULL_TEXT + k
  }

  function WriteItems(items: seq<Json>, k: Text): Text
    decreases items, 0
  {
    if items == [] then [CLOSE_BRACKET] + k else [COMMA] + Write(items[0], WriteItems(items[1..], k))
  }

  function WriteMembers(members: seq<Member>, k: Text): Text
    decreases members, 0
  {
    if members == [] then [CLOSE_BRACE] + k
    else [COMMA] + WriteString(members[0].key, [COLON] + Write(members[0].value, WriteMembers(members[1..], k)))
  }

  /** The text the request hash is taken of. */
  function CanonicalText(v: Json): Text { Write(Stable(v), []) }

  predicate IsNumberUnit(c: CodeUnit) { IsDigit(c) || c == 43 || c == 45 || c == 46 || c == 69 || c == 101 }

  predicate IsNumberToken(t: Text) { t != [] && (IsDigit(t[0]) || t[0] == 45) && forall c | c in t :: IsNumberUnit(c) }

  /** A JSON value: numbers print as number texts, and `undefined` occurs at most as an object member. */
  ghost predicate IsJson(v: Json)
    decreases v
  {
    match v
    case Num(token) => IsNumberToken(token)
    case Arr(items) => forall i | 0 <= i < |items| :: IsJson(items[i])
    case Obj(ms) => forall i | 0 <= i < |ms| :: ms[i].value == Undefined || IsJson(ms[i].value)
    case Undefined => false
    case _ => true
  }

  /** A JSON value without `undefined` anywhere. */
  ghost predicate IsDefined(v: Json)
    decreases v
  {
    match v
    case Num(token) => IsNumberToken(token)
    case Arr(items) => forall i | 0 <= i < |items| :: IsDefined(items[i])
    case Obj(ms) => forall i | 0 <= i < |ms| :: IsDefined(ms[i].value)
    case Undefined => false
    case _ => true
  }

  lemma {:induction false} StableIsDefined(v: Json)
    requires IsJson(v) && WellKeyed(v)
    ensures IsDefined(Stable(v))
  {
    match v
    case Arr(items) =>
      forall i | 0 <= i < |items| ensures IsDefined(StableItems(items)[i]) {
        StableItemsAt(items, i);
        StableIsDefined(items[i]);
      }
    case Obj(ms) =>
      var s := Stable(v).members;
      forall k | 0 <= k < |s| ensures IsDefined(s[k].value) {
        assert s[k] in s;
        var i := EntryOf(ms, s[k]);
        StableIsDefined(ms[i].value);
      }
    case _ =>
  }

  // ----- the text reads back

  /** A number or a literal ends here. */
  predicate EndsValue(k: Text) { k == [] || k[0] == COMMA || k[0] == CLOSE_BRACKET || k[0] == CLOSE_BRACE }

  function NumberRun(t: Text): (n: nat)
    ensures n <= |t|
  {
    if t == [] || !IsNumberUnit(t[0]) then 0 else 1 + NumberRun(t[1..])
  }

  predicate BeginsWith(t: Text, word: string) { |word| <= |t| && forall i | 0 <= i < |word| :: t[i] == word[i] as int }

  predicate Begins(t: Text, c: char) { t != [] && t[0] == c as int }

  /** A reader of JSON values without white space between the tokens: the value at the start and what follows it. */
  function ReadValue(t: Text): (r: Option<(Json, Text)>)
    ensures r.Some? ==> |r.value.1| < |t|
    decreases |t|, 1
  {
    if BeginsWith(t, "null") then Some((Null, t[4..]))
    else if BeginsWith(t, "true") then Some((Bool(true), t[4..]))
    else if BeginsWith(t, "false") then Some((Bool(false), t[5..]))
    else if Begins(t, '"') then
      match ReadString(t[1..])
      case None => None
      case Some((s, rest)) => Some((Str(s), rest))
    else if Begins(t, '[') then
      if Begins(t[1..], ']') then Some((Arr([]), t[2..]))
      else
        match ReadItems(t[1..])
        case None => None
        case Some((items, rest)) => Some((Arr(items), rest))
    else if Begins(t, '{') then
      if Begins(t[1..], '}') then Some((Obj([]), t[2..]))
      else
        match ReadMembers(t[1..])
        case None => None
        case Some((members, rest)) => Some((Obj(members), rest))
    else if NumberRun(t) > 0 then Some((Num(t[..NumberRun(t)]), t[NumberRun(t)..]))
    else None
  }

  /** One item or more, up to the closing bracket. */
  function ReadItems(t: Text): (r: Option<(seq<Json>, Text)>)
    ensures r.Some? ==> |r.value.1| < |t|
    decreases |t|, 2
  {
    match ReadValue(t)
    case None => None
    case Some((v, rest)) =>
      if Begins(rest, ']') then Some(([v], rest[1..]))
      else if !Begins(rest, ',') then None
      else
        match ReadItems(rest[1..])
        case None => None
        case Some((items, rest')) => Some(([v] + items, rest'))
  }

  /** One member or more, up to the closing brace. */
  function ReadMembers(t: Text): (r: Option<(seq<Member>, Text)>)
    ensures r.Some? ==> |r.value.1| < |t|
    decreases |t|, 2
  {
    if !Begins(t, '"') then None
    else
      match ReadString(t[1..])
      case None => None
      case Some((key, rest)) =>
        if !Begins(rest, ':') then None
        else
          match ReadValue(rest[1..])
          case None => None
          case Some((v, rest')) =>
            if Begins(rest', '}') then Some(([Member(key, v)], rest'[1..]))
            else if !Begins(rest', ',') then None
            else
              match ReadMembers(rest'[1..])
              case None => None
              case Some((members, rest'')) => Some(([Member(key, v)] + members, rest''))
  }

  lemma {:induction false} RunOfNumber(t: Text, k: Text)
    requires (forall c | c in t :: IsNumberUnit(c)) && EndsValue(k)
    ensures NumberRun(t + k) == |t|
  {
    if t == [] {
      assert t + k == k;
    } else {
      assert t[0] in t && (forall c | c in t[1..] :: c in t);
      RunOfNumber(t[1..], k);
      assert (t + k)[1..] == t[1..] + k;
    }
  }

  lemma HeadDecides(t: Text, word: string)
    requires t != [] && word != "" && t[0] != word[0] as int
    ensures !BeginsWith(t, word)
  {
  }

  lemma LiteralsReadBack(k: Text)
    ensures ReadValue(NULL_TEXT + k) == Some((Null, k))
    ensures ReadValue(TRUE_TEXT + k) == Some((Bool(true), k))
    ensures ReadValue(FALSE_TEXT + k) == Some((Bool(false), k))
  {
    var n, t, f := NULL_TEXT + k, TRUE_TEXT + k, FALSE_TEXT + k;
    assert n[4..] == k && t[4..] == k && f[5..] == k;
    assert BeginsWith(n, "null") && BeginsWith(t, "true") && BeginsWith(f, "false");
    HeadDecides(t, "null");
    HeadDecides(f, "null");
    HeadDecides(f, "true");
    hide BeginsWith;
  }

  lemma NumberReadsBack(token: Text, k: Text)
    requires IsNumberToken(token) && EndsValue(k)
    ensures ReadValue(token + k) == Some((Num(token), k))
  {
    hide NumberRun;
    var t := token + k;
    RunOfNumber(token, k);
    assert token[0] in token && t[0] == token[0];
    assert t[..|token|] == token && t[|token|..] == k;
  }

  lemma StringReadsBack(text: Text, k: Text)
    ensures ReadValue(WriteString(text, k)) == Some((Str(text), k))
  {
    hide Escape, ReadString;
    var t := WriteString(text, k);
    EscapeReadsBack(text, k);
    assert t[1..] == Escape(text, [QUOTE] + k);
    NoLiteral(t);
    hide BeginsWith;
  }

  /** What is written reads back to the value and what follows it. */
  lemma {:induction false} ValueReadsBack(v: Json, k: Text)
    requires IsDefined(v) && EndsValue(k)
    ensures ReadValue(Write(v, k)) == Some((v, k))
    decreases v, 1
  {
    match v
    case Null => LiteralsReadBack(k);
    case Bool(_) => LiteralsReadBack(k);
    case Num(token) => NumberReadsBack(token, k);
    case Str(text) => StringReadsBack(text, k);
    case Arr(items) => ArrayReadsBack(items, k);
    case Obj(members) => ObjectReadsBack(members, k);
  }

  /** No value begins with a closing bracket. */
  lemma WriteHead(v: Json, k: Text)
    requires IsDefined(v)
    ensures !Begins(Write(v, k), ']')
  {
    hide Escape, WriteItems, WriteMembers;
  }

  lemma NoLiteral(t: Text)
    requires t != [] && t[0] != 'n' as int && t[0] != 't' as int && t[0] != 'f' as int
    ensures !BeginsWith(t, "null") && !BeginsWith(t, "true") && !BeginsWith(t, "false")
  {
    HeadDecides(t, "null");
    HeadDecides(t, "true");
    HeadDecides(t, "false");
  }

  lemma ReadArray(t: Text)
    requires Begins(t, '[')
    ensures Begins(t[1..], ']') ==> ReadValue(t) == Some((Arr([]), t[2..]))
    ensures !Begins(t[1..], ']') && ReadItems(t[1..]).Some? ==>
              var (items, rest) := ReadItems(t[1..]).value; ReadValue(t) == Some((Arr(items), rest))
  {
    hide BeginsWith, ReadItems;
    NoLiteral(t);
  }

  lemma ReadObject(t: Text)
    requires Begins(t, '{')
    ensures Begins(t[1..], '}') ==> ReadValue(t) == Some((Obj([]), t[2..]))
    ensures !Begins(t[1..], '}') && ReadMembers(t[1..]).Some? ==>
              var (members, rest) := ReadMembers(t[1..]).value; ReadValue(t) == Some((Obj(members), rest))
  {
    hide BeginsWith, ReadMembers;
    NoLiteral(t);
  }

  lemma {:induction false} ArrayReadsBack(items: seq<Json>, k: Text)
    requires IsDefined(Arr(items)) && EndsValue(k)
    ensures ReadValue(Write(Arr(items), k)) == Some((Arr(items), k))
    decreases items, 2
  {
    hide IsNumberToken, ReadItems, ReadValue;
    var t := Write(Arr(items), k);
    ReadArray(t);
    if items == [] {
      assert t == [OPEN_BRACKET] + ([CLOSE_BRACKET] + k) && t[1..] == [CLOSE_BRACKET] + k && t[2..] == k;
    } else {
      var body := Write(items[0], WriteItems(items[1..], k));
      assert t == [OPEN_BRACKET] + body && t[1..] == body;
      WriteHead(items[0], WriteItems(items[1..], k));
      ItemsReadBack(items, k);
    }
  }

  lemma ItemsEnd(items: seq<Json>, k: Text)
    ensures EndsValue(WriteItems(items, k))
    ensures items == [] ==> Begins(WriteItems(items, k), ']') && WriteItems(items, k)[1..] == k
    ensures items != [] ==>
              Begins(WriteItems(items, k), ',')
                  && WriteItems(items, k)[1..] == Write(items[0], WriteItems(items[1..], k))
  {
    hide Write;
  }

  lemma {:induction false} ItemsReadBack(items: seq<Json>, k: Text)
    requires items != [] && IsDefined(Arr(items)) && EndsValue(k)
    ensures ReadItems(Write(items[0], WriteItems(items[1..], k))) == Some((items, k))
    decreases items, 1
  {
    hide IsNumberToken, ReadValue, Write, WriteItems;
    ItemsEnd(items[1..], k);
    ValueReadsBack(items[0], WriteItems(items[1..], k));
    if |items| > 1 {
      ItemsReadBack(items[1..], k);
      assert [items[0]] + items[1..] == items;
    } else {
      assert [items[0]] == items && items[1..] == [];
    }
  }

  /** The text of a first member and what follows it. */
  function MemberText(m: Member, rest: seq<Member>, k: Text): Text {
    WriteString(m.key, [COLON] + Write(m.value, WriteMembers(rest, k)))
  }

  lemma {:induction false} ObjectReadsBack(members: seq<Member>, k: Text)
    requires IsDefined(Obj(members)) && EndsValue(k)
    ensures ReadValue(Write(Obj(members), k)) == Some((Obj(members), k))
    decreases members, 2
  {
    hide IsNumberToken, ReadMembers, Escape, ReadValue;
    var t := Write(Obj(members), k);
    ReadObject(t);
    if members == [] {
      assert t == [OPEN_BRACE] + ([CLOSE_BRACE] + k) && t[1..] == [CLOSE_BRACE] + k && t[2..] == k;
    } else {
      var body := MemberText(members[0], members[1..], k);
      assert t == [OPEN_BRACE] + body && t[1..] == body && Begins(body, '"');
      MembersReadBack(members, k);
    }
  }

  lemma MembersEnd(members: seq<Member>, k: Text)
    ensures EndsValue(WriteMembers(members, k))
    ensures members == [] ==> Begins(WriteMembers(members, k), '}') && WriteMembers(members, k)[1..] == k
    ensures members != [] ==>
              Begins(WriteMembers(members, k), ',')
                  && WriteMembers(members, k)[1..] == MemberText(members[0], members[1..], k)
  {
    hide Write, WriteString;
  }

  lemma {:induction false} MembersReadBack(members: seq<Member>, k: Text)
    requires members != [] && IsDefined(Obj(members)) && EndsValue(k)
    ensures ReadMembers(MemberText(members[0], members[1..], k)) == Some((members, k))
    decreases members, 1
  {
    hide IsNumberToken, ReadValue, ReadString, Write, WriteMembers, Escape;
    var m, rest := members[0], WriteMembers(members[1..], k);
    var value := [COLON] + Write(m.value, rest);
    MembersEnd(members[1..], k);
    EscapeReadsBack(m.key, value);
    var t := MemberText(m, members[1..], k);
    assert Begins(t, '"') && t[1..] == Escape(m.key, [QUOTE] + value);
    assert Begins(value, ':') && value[1..] == Write(m.value, rest);
    ValueReadsBack(m.value, rest);
    if |members| > 1 {
      MembersReadBack(members[1..], k);
      assert [Member(m.key, m.value)] + members[1..] == members;
    } else {
      assert [Member(m.key, m.value)] == members && members[1..] == [];
    }
  }

  /** The canonical text of a JSON value, read as JSON, is its canonical value; and the text has no lone surrogate,
      whatever the strings in the value. */
  lemma CanonicalTextReadsBack(v: Json)
    requires IsJson(v) && WellKeyed(v)
    ensures ReadValue(CanonicalText(v)) == Some((Stable(v), []))
    ensures IsWellFormed(CanonicalText(v))
  {
    hide Stable, Write, ReadValue;
    StableIsDefined(v);
    ValueReadsBack(Stable(v), []);
    WriteIsWellFormed(Stable(v), []);
  }

  lemma {:induction false} WriteIsWellFormed(v: Json, k: Text)
    requires IsDefined(v) && IsWellFormed(k)
    ensures IsWellFormed(Write(v, k))
    decreases v, 1
  {
    match v
    case Null => PlainPrefix(NULL_TEXT, k);
    case Bool(b) => PlainPrefix(if b then TRUE_TEXT else FALSE_TEXT, k);
    case Num(token) => PlainPrefix(token, k);
    case Str(text) => StringIsWellFormed(text, k);
    case Arr(items) =>
      ItemsAreWellFormed(items, k);
      PlainPrefix([CLOSE_BRACKET], k);
      if items != [] {
        ItemsAreWellFormed(items[1..], k);
        WriteIsWellFormed(items[0], WriteItems(items[1..], k));
      }
      PlainPrefix([OPEN_BRACKET],
          if items == [] then [CLOSE_BRACKET] + k else Write(items[0], WriteItems(items[1..], k)));
    case Obj(members) =>
      PlainPrefix([CLOSE_BRACE], k);
      if members != [] {
        MemberIsWellFormed(members, k);
      }
      PlainPrefix([OPEN_BRACE],
          if members == [] then [CLOSE_BRACE] + k else MemberText(members[0], members[1..], k));
  }

  lemma StringIsWellFormed(text: Text, k: Text)
    requires IsWellFormed(k)
    ensures IsWellFormed(WriteString(text, k))
  {
    hide Escape;
    PlainPrefix([QUOTE], k);
    EscapeIsWellFormed(text, [QUOTE] + k);
    PlainPrefix([QUOTE], Escape(text, [QUOTE] + k));
  }

  lemma {:induction false} ItemsAreWellFormed(items: seq<Json>, k: Text)
    requires IsDefined(Arr(items)) && IsWellFormed(k)
    ensures IsWellFormed(WriteItems(items, k))
    decreases items, 0
  {
    if items == [] {
      PlainPrefix([CLOSE_BRACKET], k);
    } else {
      ItemsAreWellFormed(items[1..], k);
      WriteIsWellFormed(items[0], WriteItems(items[1..], k));
      PlainPrefix([COMMA], Write(items[0], WriteItems(items[1..], k)));
    }
  }

  lemma {:induction false} MemberIsWellFormed(members: seq<Member>, k: Text)
    requires members != [] && IsDefined(Obj(members)) && IsWellFormed(k)
    ensures IsWellFormed(MemberText(members[0], members[1..], k))
    decreases members, 0
  {
    hide WriteString;
    var m, rest := members[0], members[1..];
    if rest == [] {
      PlainPrefix([CLOSE_BRACE], k);
    } else {
      MemberIsWellFormed(rest, k);
      PlainPrefix([COMMA], MemberText(rest[0], rest[1..], k));
    }
    WriteIsWellFormed(m.value, WriteMembers(rest, k));
    PlainPrefix([COLON], Write(m.value, WriteMembers(rest, k)));
    StringIsWellFormed(m.key, [COLON] + Write(m.value, WriteMembers(rest, k)));
  }

  /** The canonical-form theorem: two JSON values have the same canonical text exactly when they are equal up to key
      order and undefined members at every depth. */
  lemma CanonicalTextDecidesEquivalence(v: Json, w: Json)
    requires IsJson(v) && IsJson(w) && WellKeyed(v) && WellKeyed(w)
    ensures CanonicalText(v) == CanonicalText(w) <==> Equivalent(v, w)
  {
    hide Stable, Write, ReadValue;
    StableDecidesEquivalence(v, w);
    CanonicalTextReadsBack(v);
    CanonicalTextReadsBack(w);
  }

  /** Outside JSON the text is not faithful: an undefined array item prints like null. */
  lemma UndefinedItemPrintsAsNull()
    ensures CanonicalText(Arr([Undefined])) == CanonicalText(Arr([Null]))
    ensures !Equivalent(Arr([Undefined]), Arr([Null]))
  {
    assert !Equivalent([Undefined][0], [Null][0]);
  }

  // ----- values with undefined array items

  /** The value with null for every undefined array item. */
  function NullItems(v: Json): (r: Json)
    ensures r == Undefined <==> v == Undefined
    decreases v, 1
  {
    match v
    case Arr(items) => Arr(NullEach(items))
    case Obj(members) => Obj(NullMembers(members))
    case _ => v
  }

  function NullEach(items: seq<Json>): (r: seq<Json>)
    ensures |r| == |items|
    decreases items, 0
  {
    if items == [] then [] else [if items[0] == Undefined then Null else NullItems(items[0])] + NullEach(items[1..])
  }

  function NullMembers(members: seq<Member>): (r: seq<Member>)
    ensures |r| == |members|
    decreases members, 0
  {
    if members == [] then [] else [Member(members[0].key, NullItems(members[0].value))] + NullMembers(members[1..])
  }

  /** What has a JSON text: `undefined` may occur in arrays and objects, but is not the value itself. */
  ghost predicate IsPrintable(v: Json)
    decreases v
  {
    match v
    case Num(token) => IsNumberToken(token)
    case Arr(items) => forall i | 0 <= i < |items| :: items[i] == Undefined || IsPrintable(items[i])
    case Obj(ms) => forall i | 0 <= i < |ms| :: ms[i].value == Undefined || IsPrintable(ms[i].value)
    case Undefined => false
    case _ => true
  }

  lemma {:induction false} NullEachAt(items: seq<Json>, i: nat)
    requires i < |items|
    ensures NullEach(items)[i] == if items[i] == Undefined then Null else NullItems(items[i])
  {
    if i > 0 {
      NullEachAt(items[1..], i - 1);
    }
  }

  lemma {:induction false} NullMembersAt(members: seq<Member>, i: nat)
    requires i < |members|
    ensures NullMembers(members)[i] == Member(members[i].key, NullItems(members[i].value))
  {
    if i > 0 {
      NullMembersAt(members[1..], i - 1);
    }
  }

  lemma {:induction false} NullItemsIsJson(v: Json)
    requires IsPrintable(v) && WellKeyed(v)
    ensures IsJson(NullItems(v)) && WellKeyed(NullItems(v))
    decreases v
  {
    hide IsNumberToken;
    match v
    case Arr(items) =>
      forall i | 0 <= i < |items| ensures IsJson(NullEach(items)[i]) && WellKeyed(NullEach(items)[i]) {
        NullEachAt(items, i);
        if items[i] != Undefined {
          NullItemsIsJson(items[i]);
        }
      }
    case Obj(members) =>
      var r := NullMembers(members);
      forall i | 0 <= i < |members|
        ensures r[i].key == members[i].key && (r[i].value == Undefined || IsJson(r[i].value)) && WellKeyed(r[i].value)
      {
        NullMembersAt(members, i);
        if members[i].value != Undefined {
          NullItemsIsJson(members[i].value);
        }
      }
    case _ =>
  }

  // ----- printing does not see the difference, and the canonical value commutes with it

  lemma {:induction false} NullPrintsAlike(v: Json, k: Text)
    ensures Write(NullItems(v), k) == Write(v, k)
    decreases v, 1
  {
    hide WriteString;
    match v
    case Arr(items) =>
      if items != [] {
        ItemPrintsAlike(items, k);
      }
    case Obj(members) =>
      if members != [] {
        NullMembersPrintAlike(members[1..], k);
        NullPrintsAlike(members[0].value, WriteMembers(members[1..], k));
      }
    case _ =>
  }

  lemma {:induction false} ItemPrintsAlike(items: seq<Json>, k: Text)
    requires items != []
    ensures Write(NullEach(items)[0], WriteItems(NullEach(items)[1..], k)) == Write(items[0], WriteItems(items[1..], k))
    decreases items, 0
  {
    NullEachPrintsAlike(items[1..], k);
    NullPrintsAlike(items[0], WriteItems(items[1..], k));
  }

  lemma {:induction false} NullEachPrintsAlike(items: seq<Json>, k: Text)
    ensures WriteItems(NullEach(items), k) == WriteItems(items, k)
    decreases items, 1
  {
    if items != [] {
      ItemPrintsAlike(items, k);
    }
  }

  lemma {:induction false} NullMembersPrintAlike(members: seq<Member>, k: Text)
    ensures WriteMembers(NullMembers(members), k) == WriteMembers(members, k)
    decreases members, 0
  {
    hide WriteString;
    if members != [] {
      NullMembersPrintAlike(members[1..], k);
      NullPrintsAlike(members[0].value, WriteMembers(members[1..], k));
    }
  }

  lemma NullMembersStep(m: Member, s: seq<Member>)
    ensures NullMembers([m] + s) == [Member(m.key, NullItems(m.value))] + NullMembers(s)
  {
    assert ([m] + s)[1..] == s;
  }

  lemma {:induction false} InsertCommutes(order: Order, m: Member, s: seq<Member>)
    ensures InsertMember(order, Member(m.key, NullItems(m.value)), NullMembers(s)) ==
        NullMembers(InsertMember(order, m, s))
  {
    hide Before;
    if s == [] || !Before(order, s[0].key, m.key) {
      NullMembersStep(m, s);
    } else {
      InsertCommutes(order, m, s[1..]);
      NullMembersStep(s[0], InsertMember(order, m, s[1..]));
    }
  }

  lemma {:induction false} SortCommutes(order: Order, s: seq<Member>)
    ensures SortMembers(order, NullMembers(s)) == NullMembers(SortMembers(order, s))
  {
    if s != [] {
      SortCommutes(order, s[1..]);
      InsertCommutes(order, s[0], SortMembers(order, s[1..]));
    }
  }

  lemma {:induction false} SelectCommutes(s: seq<Member>, indices: bool)
    ensures Select(NullMembers(s), indices) == NullMembers(Select(s, indices))
  {
    hide IsArrayIndex;
    if s != [] {
      SelectCommutes(s[1..], indices);
      NullMembersStep(s[0], Select(s[1..], indices));
    }
  }

  lemma {:induction false} NullMembersAppend(a: seq<Member>, b: seq<Member>)
    ensures NullMembers(a + b) == NullMembers(a) + NullMembers(b)
  {
    if a == [] {
      assert a + b == b;
    } else {
      assert (a + b)[1..] == a[1..] + b;
      NullMembersAppend(a[1..], b);
    }
  }

  lemma {:induction false} FromEntriesCommutes(s: seq<Member>)
    ensures FromEntries(NullMembers(s)) == NullMembers(FromEntries(s))
  {
    hide SortMembers, Select, NullMembers;
    SelectCommutes(s, true);
    SelectCommutes(s, false);
    SortCommutes(ByEnumeration, Select(s, true));
    NullMembersAppend(SortMembers(ByEnumeration, Select(s, true)), Select(s, false));
  }

  lemma {:induction false} StableCommutes(v: Json)
    ensures Stable(NullItems(v)) == NullItems(Stable(v))
    decreases v, 1
  {
    hide FromEntries, SortMembers;
    match v
    case Arr(items) => StableItemsCommute(items);
    case Obj(members) =>
      StableMembersCommute(members);
      SortCommutes(ByText, StableMembers(members));
      FromEntriesCommutes(SortMembers(ByText, StableMembers(members)));
    case _ =>
  }

  lemma {:induction false} StableItemsCommute(items: seq<Json>)
    ensures StableItems(NullEach(items)) == NullEach(StableItems(items))
    decreases items, 0
  {
    hide FromEntries, SortMembers;
    if items != [] {
      StableCommutes(items[0]);
      StableItemsCommute(items[1..]);
      StableIsUndefined(items[0]);
      assert ([Stable(items[0])] + StableItems(items[1..]))[1..] == StableItems(items[1..]);
      assert NullEach(items)[1..] == NullEach(items[1..]);
    }
  }

  lemma {:induction false} StableMembersCommute(members: seq<Member>)
    ensures StableMembers(NullMembers(members)) == NullMembers(StableMembers(members))
    decreases members, 0
  {
    hide FromEntries, SortMembers;
    if members != [] {
      StableCommutes(members[0].value);
      StableMembersCommute(members[1..]);
      NullMembersStep(Member(members[0].key, Stable(members[0].value)), StableMembers(members[1..]));
      assert NullMembers(members)[1..] == NullMembers(members[1..]);
    }
  }

  /** The exact law of the canonical text for every value that has one: an undefined array item counts as null, and
      beyond that texts are equal exactly for values equal up to key order and undefined members. */
  lemma TextDecidesUpToNullItems(v: Json, w: Json)
    requires IsPrintable(v) && IsPrintable(w) && WellKeyed(v) && WellKeyed(w)
    ensures CanonicalText(v) == CanonicalText(w) <==> Equivalent(NullItems(v), NullItems(w))
  {
    hide Stable, Write, NullItems, Equivalent, IsPrintable, IsJson, WellKeyed;
    NullItemsIsJson(v);
    NullItemsIsJson(w);
    StableCommutes(v);
    StableCommutes(w);
    NullPrintsAlike(Stable(v), []);
    NullPrintsAlike(Stable(w), []);
    CanonicalTextDecidesEquivalence(NullItems(v), NullItems(w));
  }

  /** What any value with a text reads back as: its canonical value, with null for the undefined array items. */
  lemma PrintedTextReadsBack(v: Json)
    requires IsPrintable(v) && WellKeyed(v)
    ensures ReadValue(CanonicalText(v)) == Some((Stable(NullItems(v)), []))
  {
    hide Stable, Write, NullItems, IsPrintable, IsJson, WellKeyed, ReadValue;
    NullItemsIsJson(v);
    StableCommutes(v);
    NullPrintsAlike(Stable(v), []);
    CanonicalTextReadsBack(NullItems(v));
  }

  /** Every number as RFC 8259 writes it is covered: it begins with a digit or a minus sign and has only these
      characters. */
  lemma NumbersAreTokens(t: Text)
    requires t != [] && ('0' as int <= t[0] <= '9' as int || t[0] == '-' as int)
    requires forall c | c in t :: '0' as int <= c <= '9' as int || exists d :: d in "+-.eE" && c == d as int
    ensures IsNumberToken(t)
  {
    forall c | c in t ensures IsNumberUnit(c) {
      NumberUnits(c);
    }
  }

  lemma NumberUnits(c: CodeUnit)
    ensures IsNumberUnit(c) <==> '0' as int <= c <= '9' as int || exists d :: d in "+-.eE" && c == d as int
  {
    assert '+' in "+-.eE" && '-' in "+-.eE" && '.' in "+-.eE" && 'e' in "+-.eE" && 'E' in "+-.eE";
  }
}
