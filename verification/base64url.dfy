/** The unpadded base64url codec of the token code, section 5 of RFC 4648, over Python's lenient decoder. */
module Base64Url {
  import opened Options
  import opened Bytes
  import opened LetterCase

  type Sextet = n: int | 0 <= n < 64

  function Char(v: Sextet): char {
    if v < 26 then ('A' as int + v) as char
    else if v < 52 then ('a' as int + v - 26) as char
    else if v < 62 then ('0' as int + v - 52) as char
    else if v == 62 then '-' else '_'
  }

  /** The value of a character; the plain base64 alphabet is understood as well. */
  function Value(c: char): Option<Sextet> {
    if 'A' <= c <= 'Z' then Some(c as int - 'A' as int)
    else if 'a' <= c <= 'z' then Some(c as int - 'a' as int + 26)
    else if '0' <= c <= '9' then Some(c as int - '0' as int + 52)
    else if c == '-' || c == '+' then Some(62)
    else if c == '_' || c == '/' then Some(63)
    else None
  }

  lemma CharReadsBack(v: Sextet)
    ensures Value(Char(v)) == Some(v) && Char(v) != '=' && Char(v) != '.' && Char(v) != '$' && Char(v) as int < 128
  {
  }

  // ----- encoding

  /** Groups of three bytes become four characters; a last group of one or two bytes is padded with `=`. */
  function EncodePadded(b: seq<Byte>): string {
    if b == [] then ""
    else if |b| == 1 then [Char(b[0] / 4), Char(b[0] % 4 * 16), '=', '=']
    else if |b| == 2 then [Char(b[0] / 4), Char(b[0] % 4 * 16 + b[1] / 16), Char(b[1] % 16 * 4), '=']
    else
      [Char(b[0] / 4), Char(b[0] % 4 * 16 + b[1] / 16), Char(b[1] % 16 * 4 + b[2] / 64), Char(b[2] % 64)]
          + EncodePadded(b[3..])
  }

  function StripPadding(s: string): string { if s != "" && s[|s| - 1] == '=' then StripPadding(s[..|s| - 1]) else s }

  function Encode(b: seq<Byte>): string { StripPadding(EncodePadded(b)) }

  // ----- decoding

  function Prepend(b: Byte, r: Option<seq<Byte>>): Option<seq<Byte>> { if r.None? then None else Some([b] + r.value) }

  /** The decoder loop: `position` characters of a group of four are read, `left` holds the bits not yet output. It
      skips foreign characters, stops at complete padding, and fails on an incomplete group. */
  function DecodeLoop(s: string, position: int, left: int, pads: int): Option<seq<Byte>>
    requires (position == 0 && left == 0) || (position == 1 && 0 <= left < 64) || (position == 2 && 0 <= left < 16)
        || (position == 3 && 0 <= left < 4)
  {
    if s == "" then (if position == 0 then Some([]) else None)
    else if s[0] == '=' then
      if position >= 2 && position + pads + 1 >= 4 then Some([])
      else DecodeLoop(s[1..], position, left, if position >= 2 then pads + 1 else pads)
    else
      match Value(s[0])
      case None => DecodeLoop(s[1..], position, left, pads)
      case Some(v) =>
        if position == 0 then DecodeLoop(s[1..], 1, v, 0)
        else if position == 1 then Prepend(left * 4 + v / 16, DecodeLoop(s[1..], 2, v % 16, 0))
        else if position == 2 then Prepend(left * 16 + v / 4, DecodeLoop(s[1..], 3, v % 4, 0))
        else Prepend(left * 64 + v, DecodeLoop(s[1..], 0, 0, 0))
  }

  function Padding(n: nat): string { seq(n, _ => '=') }

  predicate IsAscii(s: string) { forall c | c in s :: c as int < 128 }

  /** Restores the padding by length and decodes; only ASCII text is accepted. */
  function Decode(s: string): Option<seq<Byte>> {
    if !IsAscii(s) then None else DecodeLoop(s + Padding((4 - |s| % 4) % 4), 0, 0, 0)
  }

  // ----- the round trip

  /** The decoder loop on one character of the alphabet. */
  lemma TakeChar(v: int, rest: string, position: int, left: int)
    requires 0 <= v < 64
    requires (position == 0 && left == 0) || (position == 1 && 0 <= left < 64) || (position == 2 && 0 <= left < 16)
        || (position == 3 && 0 <= left < 4)
    ensures DecodeLoop([Char(v)] + rest, position, left, 0) ==
              if position == 0 then DecodeLoop(rest, 1, v, 0)
              else if position == 1 then Prepend(left * 4 + v / 16, DecodeLoop(rest, 2, v % 16, 0))
              else if position == 2 then Prepend(left * 16 + v / 4, DecodeLoop(rest, 3, v % 4, 0))
              else Prepend(left * 64 + v, DecodeLoop(rest, 0, 0, 0))
  {
    CharReadsBack(v);
    hide Char, Value;
    var s := [Char(v)] + rest;
    assert s[0] == Char(v) && s[1..] == rest;
  }

  /** A full group of four characters gives back its three bytes. */
  lemma GroupReadsBack(x: Byte, y: Byte, z: Byte, rest: string)
    ensures DecodeLoop([Char(x / 4), Char(x % 4 * 16 + y / 16), Char(y % 16 * 4 + z / 64), Char(z % 64)] + rest,
                       0, 0, 0)
         == Prepend(x, Prepend(y, Prepend(z, DecodeLoop(rest, 0, 0, 0))))
  {
    hide Char, DecodeLoop;
    var a, b, c, d := x / 4, x % 4 * 16 + y / 16, y % 16 * 4 + z / 64, z % 64;
    assert [Char(a), Char(b), Char(c), Char(d)] + rest == [Char(a)] + ([Char(b)] + ([Char(c)] + ([Char(d)] + rest)));
    TakeChar(a, [Char(b)] + ([Char(c)] + ([Char(d)] + rest)), 0, 0);
    TakeChar(b, [Char(c)] + ([Char(d)] + rest), 1, a);
    TakeChar(c, [Char(d)] + rest, 2, b % 16);
    TakeChar(d, rest, 3, c % 4);
    GroupBits(x, y, z);
  }

  lemma GroupBits(x: Byte, y: Byte, z: Byte)
    ensures var a, b, c, d := x / 4, x % 4 * 16 + y / 16, y % 16 * 4 + z / 64, z % 64;
            a * 4 + b / 16 == x && b % 16 * 16 + c / 4 == y && c % 4 * 64 + d == z
  {
  }

  lemma PaddingEnds(two: int, three: int)
    requires 0 <= two < 16 && 0 <= three < 4
    ensures DecodeLoop(['=', '='], 2, two, 0) == Some([]) && DecodeLoop(['='], 3, three, 0) == Some([])
  {
    assert ['=', '='][1..] == ['='];
    assert DecodeLoop(['='], 2, two, 1) == Some([]);
  }

  lemma LastByteReadsBack(x: Byte)
    ensures DecodeLoop([Char(x / 4), Char(x % 4 * 16), '=', '='], 0, 0, 0) == Some([x])
  {
    hide Char, DecodeLoop;
    var a, b := x / 4, x % 4 * 16;
    TakeChar(a, [Char(b), '=', '='], 0, 0);
    TakeChar(b, ['=', '='], 1, a);
    PaddingEnds(b % 16, 0);
    GroupBits(x, 0, 0);
    var nothing: seq<Byte> := [];
    assert [x] + nothing == [x];
    assert [Char(a), Char(b), '=', '='] == [Char(a)] + [Char(b), '=', '='];
    assert [Char(b), '=', '='] == [Char(b)] + ['=', '='];
  }

  lemma LastTwoBytesReadBack(x: Byte, y: Byte)
    ensures DecodeLoop([Char(x / 4), Char(x % 4 * 16 + y / 16), Char(y % 16 * 4), '='], 0, 0, 0) == Some([x, y])
  {
    hide Char, DecodeLoop;
    var a, b, c := x / 4, x % 4 * 16 + y / 16, y % 16 * 4;
    TakeChar(a, [Char(b), Char(c), '='], 0, 0);
    TakeChar(b, [Char(c), '='], 1, a);
    TakeChar(c, ['='], 2, b % 16);
    PaddingEnds(0, c % 4);
    GroupBits(x, y, 0);
    var nothing: seq<Byte> := [];
    assert [y] + nothing == [y] && [x] + [y] == [x, y];
    assert [Char(a), Char(b), Char(c), '='] == [Char(a)] + [Char(b), Char(c), '='];
    assert [Char(b), Char(c), '='] == [Char(b)] + [Char(c), '='] && [Char(c), '='] == [Char(c)] + ['='];
  }

  lemma {:induction false} PaddedRoundTrip(b: seq<Byte>)
    ensures DecodeLoop(EncodePadded(b), 0, 0, 0) == Some(b)
  {
    hide Char, DecodeLoop;
    if b == [] {
      NothingDecodes();
    } else if |b| == 1 {
      LastByteReadsBack(b[0]);
      assert b == [b[0]];
    } else if |b| == 2 {
      LastTwoBytesReadBack(b[0], b[1]);
      assert b == [b[0], b[1]];
    } else {
      PaddedRoundTrip(b[3..]);
      GroupReadsBack(b[0], b[1], b[2], EncodePadded(b[3..]));
      assert b == [b[0]] + ([b[1]] + ([b[2]] + b[3..]));
    }
  }

  lemma NothingDecodes()
    ensures DecodeLoop("", 0, 0, 0) == Some([])
  {
  }

  /** ASCII without padding, dot and dollar. */
  ghost predicate UrlSafe(s: string) { forall c | c in s :: c != '=' && c != '.' && c != '$' && c as int < 128 }

  lemma GroupIsUrlSafe(a: Sextet, b: Sextet, c: Sextet, d: Sextet)
    ensures UrlSafe([Char(a), Char(b)]) && UrlSafe([Char(a), Char(b), Char(c)])
            && UrlSafe([Char(a), Char(b), Char(c), Char(d)])
  {
    CharReadsBack(a);
    CharReadsBack(b);
    CharReadsBack(c);
    CharReadsBack(d);
  }

  /** The padded text of one group: its url-safe characters and its padding. */
  lemma LastGroupShape(b: seq<Byte>) returns (body: string, pads: nat)
    requires |b| <= 2
    ensures EncodePadded(b) == body + Padding(pads) && UrlSafe(body) && (|body| + pads) % 4 == 0 && pads < 3
  {
    hide Char;
    var s := EncodePadded(b);
    if b == [] {
      body, pads := "", 0;
    } else if |b| == 1 {
      body, pads := s[..2], 2;
      GroupIsUrlSafe(b[0] / 4, b[0] % 4 * 16, 0, 0);
      assert body == [Char(b[0] / 4), Char(b[0] % 4 * 16)];
    } else {
      body, pads := s[..3], 1;
      GroupIsUrlSafe(b[0] / 4, b[0] % 4 * 16 + b[1] / 16, b[1] % 16 * 4, 0);
      assert body == [Char(b[0] / 4), Char(b[0] % 4 * 16 + b[1] / 16), Char(b[1] % 16 * 4)];
    }
  }

  /** The padded text is url-safe characters and then as much padding as its length needs. */
  lemma {:induction false} PaddedShape(b: seq<Byte>) returns (body: string, pads: nat)
    ensures EncodePadded(b) == body + Padding(pads) && UrlSafe(body) && (|body| + pads) % 4 == 0 && pads < 3
  {
    hide Char, Padding;
    if |b| <= 2 {
      body, pads := LastGroupShape(b);
    } else {
      var rest, n := PaddedShape(b[3..]);
      var p, q, r, t := b[0] / 4, b[0] % 4 * 16 + b[1] / 16, b[1] % 16 * 4 + b[2] / 64, b[2] % 64;
      var group := [Char(p), Char(q), Char(r), Char(t)];
      GroupIsUrlSafe(p, q, r, t);
      body, pads := group + rest, n;
      assert EncodePadded(b) == group + EncodePadded(b[3..]);
    }
  }

  lemma {:induction false} StripRemovesPadding(body: string, pads: nat)
    requires UrlSafe(body)
    ensures StripPadding(body + Padding(pads)) == body
  {
    var s := body + Padding(pads);
    if pads == 0 {
      assert s == body;
      assert s != "" ==> s[|s| - 1] in body;
    } else {
      assert s[|s| - 1] == '=' && s[..|s| - 1] == body + Padding(pads - 1);
      StripRemovesPadding(body, pads - 1);
    }
  }

  /** Encoding uses only url-safe characters, and decoding it gives back the bytes. */
  lemma RoundTrip(b: seq<Byte>)
    ensures Decode(Encode(b)) == Some(b)
    ensures UrlSafe(Encode(b))
  {
    hide DecodeLoop, EncodePadded, StripPadding;
    var body, pads := PaddedShape(b);
    StripRemovesPadding(body, pads);
    PaddedRoundTrip(b);
    assert (4 - |body| % 4) % 4 == pads;
  }

  /** Different bytes have different texts. */
  lemma EncodeIsInjective(a: seq<Byte>, b: seq<Byte>)
    requires Encode(a) == Encode(b)
    ensures a == b
  {
    RoundTrip(a);
    RoundTrip(b);
  }

  // ----- which texts do not decode

  /** How many characters of the alphabet the text has. */
  function DataCount(s: string): nat {
    if s == "" then 0 else DataCount(s[..|s| - 1]) + (if s[|s| - 1] != '=' && Value(s[|s| - 1]).Some? then 1 else 0)
  }

  /** How many `=` come behind its last character of the alphabet. */
  function PadCount(s: string): nat {
    if s == "" then 0
    else if s[|s| - 1] == '=' then PadCount(s[..|s| - 1]) + 1
    else if Value(s[|s| - 1]).Some? then 0
    else PadCount(s[..|s| - 1])
  }

  /** The first `n` characters end in the `=` that fills up a group of two or three characters of the alphabet. */
  predicate FillsGroupAt(s: string, n: nat) {
    && 0 < n <= |s| && s[n - 1] == '='
    && DataCount(s[..n]) % 4 >= 2 && DataCount(s[..n]) % 4 + PadCount(s[..n]) >= 4
  }

  /** No group is filled up by padding, and the characters of the alphabet do not make whole groups. */
  ghost predicate LeavesGroupOpen(s: string) { (forall n: nat :: !FillsGroupAt(s, n)) && DataCount(s) % 4 != 0 }

  lemma CountStep(s: string, k: nat)
    requires k < |s|
    ensures DataCount(s[..k + 1]) == DataCount(s[..k]) + (if s[k] != '=' && Value(s[k]).Some? then 1 else 0)
    ensures PadCount(s[..k + 1]) == if s[k] == '=' then PadCount(s[..k]) + 1 else if Value(s[k]).Some? then 0
        else PadCount(s[..k])
  {
    hide Value;
    assert s[..k + 1][..k] == s[..k] && s[..k + 1][k] == s[k];
  }

  /** The decoder behind its first `k` characters fails exactly when no group is filled from there on and one stays
      open. */
  lemma {:induction false} LoopFails(s: string, k: nat, left: int, pads: int)
    requires k <= |s|
    requires var position := DataCount(s[..k]) % 4;
             && (position >= 2 ==> pads == PadCount(s[..k]))
             && 0 <= left < (if position == 1 then 64 else if position == 2 then 16 else if position == 3 then 4 else 1)
    ensures DecodeLoop(s[k..], DataCount(s[..k]) % 4, left, pads).None? <==>
              (forall n: nat | n > k :: !FillsGroupAt(s, n)) && DataCount(s) % 4 != 0
    decreases |s| - k
  {
    hide DataCount, PadCount, Value;
    if k == |s| {
      assert s[..k] == s;
    } else {
      CountStep(s, k);
      assert s[k..][1..] == s[k + 1..] && s[k..][0] == s[k];
      var position := DataCount(s[..k]) % 4;
      LoopStep(s[k..], position, left, pads);
      if FillsGroupAt(s, k + 1) {
      } else if s[k] == '=' {
        LoopFails(s, k + 1, left, if position >= 2 then pads + 1 else pads);
      } else if Value(s[k]).None? {
        LoopFails(s, k + 1, left, pads);
      } else {
        LoopFails(s, k + 1, LeftAfter(position, Value(s[k]).value), 0);
      }
    }
  }

  /** The bits a character leaves over. */
  function LeftAfter(position: int, v: Sextet): int {
    if position == 0 then v else if position == 1 then v % 16 else if position == 2 then v % 4 else 0
  }

  /** One character of the decoder, as far as failing goes. */
  lemma LoopStep(s: string, position: int, left: int, pads: int)
    requires s != ""
    requires (position == 0 && left == 0) || (position == 1 && 0 <= left < 64) || (position == 2 && 0 <= left < 16)
        || (position == 3 && 0 <= left < 4)
    ensures s[0] == '=' && position >= 2 && position + pads + 1 >= 4 ==> DecodeLoop(s, position, left, pads).Some?
    ensures s[0] == '=' && !(position >= 2 && position + pads + 1 >= 4) ==>
              DecodeLoop(s, position, left, pads) ==
                  DecodeLoop(s[1..], position, left, if position >= 2 then pads + 1 else pads)
    ensures s[0] != '=' && Value(s[0]).None? ==>
        DecodeLoop(s, position, left, pads) == DecodeLoop(s[1..], position, left, pads)
    ensures s[0] != '=' && Value(s[0]).Some? ==>
              (DecodeLoop(s, position, left, pads).None? <==>
                 DecodeLoop(s[1..], (position + 1) % 4, LeftAfter(position, Value(s[0]).value), 0).None?)
  {
    hide Value;
  }

  /** The text that the decoder sees. */
  function Repadded(s: string): string { s + Padding((4 - |s| % 4) % 4) }

  /** The exact condition of a decoding error, on the text alone. */
  lemma UndecodableExactlyWhen(s: string)
    ensures Decode(s).None? <==> (exists c :: c in s && c as int >= 128) || LeavesGroupOpen(Repadded(s))
  {
    hide DecodeLoop, FillsGroupAt;
    var t := Repadded(s);
    assert t[..0] == "" && t[0..] == t;
    LoopFails(t, 0, 0, 0);
    NothingFillsEmpty(t);
  }

  lemma NothingFillsEmpty(s: string)
    ensures !FillsGroupAt(s, 0)
  {
  }

  predicate IsAlphabet(s: string) { forall c | c in s :: c != '=' && Value(c).Some? }

  lemma {:induction false} AlphabetCounts(s: string, pads: nat, n: nat)
    requires IsAlphabet(s) && n <= |s| + pads
    ensures var t := s + Padding(pads);
            DataCount(t[..n]) == (if n <= |s| then n else |s|) && PadCount(t[..n]) == (if n <= |s| then 0 else n - |s|)
    decreases n
  {
    hide Value;
    var t := s + Padding(pads);
    if n == 0 {
      assert t[..0] == "";
    } else {
      AlphabetCounts(s, pads, n - 1);
      CountStep(t, n - 1);
      if n <= |s| {
        assert t[n - 1] == s[n - 1] && s[n - 1] in s;
      }
    }
  }

  /** A text of the alphabet without padding, as a token's parts are written, fails to decode exactly when its length
      leaves one character over. */
  lemma AlphabetFailsExactlyWhen(s: string)
    requires IsAlphabet(s) && IsAscii(s)
    ensures Decode(s).None? <==> |s| % 4 == 1
  {
    hide Decode, DataCount, PadCount, Value;
    UndecodableExactlyWhen(s);
    var pads := (4 - |s| % 4) % 4;
    var t := Repadded(s);
    assert t[..|t|] == t;
    forall n: nat | n <= |t| ensures FillsGroupAt(t, n) <==> n == |t| && |s| % 4 >= 2 {
      AlphabetCounts(s, pads, n);
      if 0 < n <= |s| {
        assert t[n - 1] == s[n - 1] && s[n - 1] in s;
      }
    }
    AlphabetCounts(s, pads, |t|);
    assert DataCount(t) == |s|;
    assert LeavesGroupOpen(t) <==> !FillsGroupAt(t, |t|) && |s| % 4 != 0;
  }

  // ----- the text as bits

  /** The url-safe alphabet, table 2 of RFC 4648. */
  const ALPHABET := CAPITALS + SMALL_LETTERS + DIGITS + "-_"

  lemma CharOfTable(v: Sextet)
    ensures |ALPHABET| == 64 && Char(v) == ALPHABET[v]
  {
    assert |CAPITALS| == |SMALL_LETTERS| == 26 && |DIGITS| == 10;
    if v < 26 {
      CapitalAt(v);
    } else if v < 52 {
      SmallLetterAt(v - 26);
    } else if v < 62 {
      DigitAt(v - 52);
    }
  }

  /** A character of the alphabet stands for its place there; of the others only `+` and `/` stand for anything. */
  lemma ValuesAre(v: Sextet, c: char)
    ensures |ALPHABET| == 64 && Value(ALPHABET[v]) == Some(v) && Value('+') == Some(62) && Value('/') == Some(63)
    ensures Value(c).Some? ==> c == '+' || c == '/' || c == ALPHABET[Value(c).value]
  {
    CharOfTable(v);
    CharReadsBack(v);
    if Value(c).Some? {
      CharOfTable(Value(c).value);
    }
    hide ALPHABET;
  }

  /** The bits of a byte, the most significant first. */
  function BitOf(x: Byte, k: nat): int
    requires k < 8
  {
    x / [128, 64, 32, 16, 8, 4, 2, 1][k] % 2
  }

  /** Bit `j` of the bytes written one after the other, and zero behind them. */
  function Bit(b: seq<Byte>, j: nat): int { if j / 8 < |b| then BitOf(b[j / 8], j % 8) else 0 }

  /** The number that bits `6 * i` to `6 * i + 5` write. */
  function SextetAt(b: seq<Byte>, i: nat): int {
    32 * Bit(b, 6 * i) + 16 * Bit(b, 6 * i + 1) + 8 * Bit(b, 6 * i + 2) + 4 * Bit(b, 6 * i + 3)
      + 2 * Bit(b, 6 * i + 4) + Bit(b, 6 * i + 5)
  }

  lemma BitsAre(x: Byte)
    ensures BitOf(x, 7) == x % 2 && BitOf(x, 6) == x / 2 % 2 && BitOf(x, 5) == x / 4 % 2 && BitOf(x, 4) == x / 8 % 2
    ensures BitOf(x, 3) == x / 16 % 2 && BitOf(x, 2) == x / 32 % 2 && BitOf(x, 1) == x / 64 % 2
    ensures BitOf(x, 0) == x / 128 % 2
  {
    var units := [128, 64, 32, 16, 8, 4, 2, 1];
    assert units[7] == 1 && units[6] == 2 && units[5] == 4 && units[4] == 8;
    assert units[3] == 16 && units[2] == 32 && units[1] == 64 && units[0] == 128;
  }

  lemma HalvesAre(x: nat)
    ensures x / 2 / 2 == x / 4 && x / 4 / 2 == x / 8 && x / 8 / 2 == x / 16
    ensures x / 16 / 2 == x / 32 && x / 32 / 2 == x / 64 && x / 64 / 2 == x / 128
  {
  }

  lemma Parity(h: int)
    ensures h == 2 * (h / 2) + h % 2
  {
  }

  lemma ByteIsItsBits(x: Byte)
    ensures x / 4 == 32 * BitOf(x, 0) + 16 * BitOf(x, 1) + 8 * BitOf(x, 2) + 4 * BitOf(x, 3) + 2 * BitOf(x, 4)
                     + BitOf(x, 5)
    ensures x % 4 == 2 * BitOf(x, 6) + BitOf(x, 7)
    ensures x / 16 == 8 * BitOf(x, 0) + 4 * BitOf(x, 1) + 2 * BitOf(x, 2) + BitOf(x, 3)
    ensures x % 16 == 8 * BitOf(x, 4) + 4 * BitOf(x, 5) + 2 * BitOf(x, 6) + BitOf(x, 7)
    ensures x / 64 == 2 * BitOf(x, 0) + BitOf(x, 1)
    ensures x % 64 == 32 * BitOf(x, 2) + 16 * BitOf(x, 3) + 8 * BitOf(x, 4) + 4 * BitOf(x, 5) + 2 * BitOf(x, 6)
                      + BitOf(x, 7)
  {
    hide BitOf;
    BitsAre(x);
    HalvesAre(x);
    Parity(x);
    Parity(x / 2);
    Parity(x / 4);
    Parity(x / 8);
    Parity(x / 16);
    Parity(x / 32);
    Parity(x / 64);
    assert x / 128 == x / 128 % 2;
  }

  function ByteAt(b: seq<Byte>, k: nat): Byte { if k < |b| then b[k] else 0 }

  lemma BitOfByte(b: seq<Byte>, k: nat, n: nat)
    requires k < 8
    ensures Bit(b, 8 * n + k) == BitOf(ByteAt(b, n), k)
  {
    BitsAre(0);
    hide BitOf;
    assert (8 * n + k) / 8 == n && (8 * n + k) % 8 == k;
    assert k in [0, 1, 2, 3, 4, 5, 6, 7];
  }

  /** The sextets of the first group of three bytes; a byte that is missing counts as zero. */
  lemma FirstGroup(b: seq<Byte>)
    ensures var x, y, z: int := ByteAt(b, 0), ByteAt(b, 1), ByteAt(b, 2);
            && SextetAt(b, 0) == x / 4 && SextetAt(b, 1) == x % 4 * 16 + y / 16
            && SextetAt(b, 2) == y % 16 * 4 + z / 64 && SextetAt(b, 3) == z % 64
  {
    hide BitOf, Bit, ByteAt;
    forall k: nat | k < 8
      ensures Bit(b, k) == BitOf(ByteAt(b, 0), k)
      ensures Bit(b, 8 + k) == BitOf(ByteAt(b, 1), k)
      ensures Bit(b, 16 + k) == BitOf(ByteAt(b, 2), k)
    {
      BitOfByte(b, k, 0);
      BitOfByte(b, k, 1);
      BitOfByte(b, k, 2);
    }
    ByteIsItsBits(ByteAt(b, 0));
    ByteIsItsBits(ByteAt(b, 1));
    ByteIsItsBits(ByteAt(b, 2));
    assert Bit(b, 8) == Bit(b, 8 + 0) && Bit(b, 9) == Bit(b, 8 + 1) && Bit(b, 10) == Bit(b, 8 + 2)
        && Bit(b, 11) == Bit(b, 8 + 3) && Bit(b, 12) == Bit(b, 8 + 4) && Bit(b, 13) == Bit(b, 8 + 5)
        && Bit(b, 14) == Bit(b, 8 + 6) && Bit(b, 15) == Bit(b, 8 + 7);
    assert Bit(b, 16) == Bit(b, 16 + 0) && Bit(b, 17) == Bit(b, 16 + 1) && Bit(b, 18) == Bit(b, 16 + 2)
        && Bit(b, 19) == Bit(b, 16 + 3) && Bit(b, 20) == Bit(b, 16 + 4) && Bit(b, 21) == Bit(b, 16 + 5)
        && Bit(b, 22) == Bit(b, 16 + 6) && Bit(b, 23) == Bit(b, 16 + 7);
  }

  lemma LaterBit(b: seq<Byte>, j: nat)
    requires |b| >= 3
    ensures Bit(b, j + 24) == Bit(b[3..], j)
  {
    hide BitOf;
    assert (j + 24) / 8 == j / 8 + 3 && (j + 24) % 8 == j % 8;
  }

  lemma LaterGroup(b: seq<Byte>, i: nat)
    requires |b| >= 3
    ensures SextetAt(b, i + 4) == SextetAt(b[3..], i)
  {
    hide Bit;
    LaterBit(b, 6 * i);
    LaterBit(b, 6 * i + 1);
    LaterBit(b, 6 * i + 2);
    LaterBit(b, 6 * i + 3);
    LaterBit(b, 6 * i + 4);
    LaterBit(b, 6 * i + 5);
    assert 6 * (i + 4) == 6 * i + 24;
  }

  /** How many characters it takes to write the bits of `n` bytes. */
  function CharactersFor(n: nat): nat { (8 * n + 5) / 6 }

  lemma {:induction false} PaddedIsBits(b: seq<Byte>, i: nat)
    requires i < |EncodePadded(b)|
    ensures i < CharactersFor(|b|) ==> 0 <= SextetAt(b, i) < 64 && EncodePadded(b)[i] == Char(SextetAt(b, i))
    ensures i >= CharactersFor(|b|) ==> EncodePadded(b)[i] == '='
  {
    hide Char, SextetAt;
    if i < 4 {
      FirstGroup(b);
    } else {
      PaddedIsBits(b[3..], i - 4);
      LaterGroup(b, i - 4);
    }
  }

  lemma {:induction false} PaddedLength(b: seq<Byte>)
    ensures CharactersFor(|b|) <= |EncodePadded(b)|
  {
    if |b| > 2 {
      PaddedLength(b[3..]);
    }
  }

  lemma SameStart(s: string, m: nat, n: nat)
    requires m <= |s| && n <= |s|
    requires forall i: nat | i < |s| :: (s[i] == '=' <==> i >= m) && (s[i] == '=' <==> i >= n)
    ensures m == n
  {
    var at := if m < |s| then s[m] else '=';
    var at' := if n < |s| then s[n] else '=';
  }

  /** The text is the bits of the bytes, six to a character of the alphabet, as many characters as that takes. */
  lemma EncodesBits(b: seq<Byte>)
    ensures |Encode(b)| == CharactersFor(|b|) && |ALPHABET| == 64
    ensures forall i: nat | i < |Encode(b)| ::
              0 <= SextetAt(b, i) < 64 && Encode(b)[i] == ALPHABET[SextetAt(b, i)]
  {
    hide EncodePadded, StripPadding, Char, SextetAt, CharactersFor;
    var body, pads := PaddedShape(b);
    StripRemovesPadding(body, pads);
    PaddedLength(b);
    forall i: nat | i < |EncodePadded(b)|
      ensures EncodePadded(b)[i] == '=' <==> i >= |body|
      ensures EncodePadded(b)[i] == '=' <==> i >= CharactersFor(|b|)
    {
      PaddedIsBits(b, i);
      if i < CharactersFor(|b|) {
        CharReadsBack(SextetAt(b, i));
      }
      if i < |body| {
        assert EncodePadded(b)[i] == body[i] && body[i] in body;
      }
    }
    SameStart(EncodePadded(b), |body|, CharactersFor(|b|));
    forall i: nat | i < |Encode(b)| ensures 0 <= SextetAt(b, i) < 64 && Encode(b)[i] == ALPHABET[SextetAt(b, i)] {
      PaddedIsBits(b, i);
      CharOfTable(SextetAt(b, i));
      assert Encode(b)[i] == EncodePadded(b)[i];
    }
    CharOfTable(0);
  }
}
