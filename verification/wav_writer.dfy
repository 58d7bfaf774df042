/** The WAV writer of the audio recorder: a 44-byte RIFF/WAVE header for mono 16-bit PCM, then the samples, all
    little-endian. Sample values are real numbers; scaling a 32-bit float by 2^15 is exact in double precision. */
module WavWriter {
  import opened Options
  import opened Bytes

  const HEADER_SIZE := 44
  const TWO_16 := 0x1_0000
  const TWO_32 := 0x1_0000_0000

  // ----- quantisation

  function Clamp(x: real): real { if x < -1.0 then -1.0 else if x > 1.0 then 1.0 else x }

  /** Drops the fraction, as the conversion to an integer does. */
  function Truncate(x: real): int { if x < 0.0 then -((-x).Floor) else x.Floor }

  function Quantise(x: real): int {
    var sample := Clamp(x);
    Truncate(if sample < 0.0 then sample * 32768.0 else sample * 32767.0)
  }

  /** The sample value a player reads from a stored integer. */
  function Dequantise(q: int): real { if q < 0 then q as real / 32768.0 else q as real / 32767.0 }

  lemma QuantiseRange(x: real)
    ensures -32768 <= Quantise(x) <= 32767
  {
  }

  /** Quantisation keeps the order of samples. */
  lemma QuantiseIsMonotone(x: real, y: real)
    requires x <= y
    ensures Quantise(x) <= Quantise(y)
  {
    var a, b := Clamp(x), Clamp(y);
    if a < 0.0 {
      if b < 0.0 {
        TruncateIsMonotone(a * 32768.0, b * 32768.0);
      } else {
        TruncateIsMonotone(a * 32768.0, b * 32767.0);
      }
    } else {
      TruncateIsMonotone(a * 32767.0, b * 32767.0);
    }
  }

  lemma TruncateIsMonotone(x: real, y: real)
    requires x <= y
    ensures Truncate(x) <= Truncate(y)
  {
  }

  /** A stored sample is less than 1/32767 away from the clamped original. */
  lemma QuantisationError(x: real)
    ensures -1.0 / 32767.0 < Dequantise(Quantise(x)) - Clamp(x) < 1.0 / 32767.0
  {
    var sample := Clamp(x);
    var q := Quantise(x);
    if sample < 0.0 {
      assert sample * 32768.0 <= q as real < sample * 32768.0 + 1.0;
    } else {
      assert sample * 32767.0 - 1.0 < q as real <= sample * 32767.0;
    }
  }

  /** A sample within full scale is stored as the integer next to it towards zero, on a scale of 32767 steps up and
      32768 steps down; beyond full scale the last step is stored. */
  lemma QuantisedExactly(x: real)
    ensures 0.0 <= x <= 1.0 ==> Quantise(x) as real <= 32767.0 * x < Quantise(x) as real + 1.0
    ensures -1.0 <= x < 0.0 ==> Quantise(x) as real - 1.0 < 32768.0 * x <= Quantise(x) as real
    ensures x > 1.0 ==> Quantise(x) == 32767
    ensures x < -1.0 ==> Quantise(x) == -32768
  {
  }

  // ----- bytes

  function Le16(n: int): (r: seq<Byte>)
    ensures |r| == 2
  {
    [n % 256, n / 256 % 256]
  }

  function Le32(n: int): (r: seq<Byte>)
    ensures |r| == 4
  {
    [n % 256, n / 256 % 256, n / 256 / 256 % 256, n / 256 / 256 / 256 % 256]
  }

  function U16(b: seq<Byte>, at: nat): int
    requires at + 2 <= |b|
  {
    var lo: int, hi: int := b[at], b[at + 1];
    lo + 256 * hi
  }

  function U32(b: seq<Byte>, at: nat): int
    requires at + 4 <= |b|
  {
    var b0: int, b1: int, b2: int, b3: int := b[at], b[at + 1], b[at + 2], b[at + 3];
    b0 + 256 * (b1 + 256 * (b2 + 256 * b3))
  }

  function I16(b: seq<Byte>, at: nat): int
    requires at + 2 <= |b|
  {
    var n := U16(b, at);
    if n < 32768 then n else n - TWO_16
  }

  lemma TwoByteMod(n: int)
    ensures n % TWO_16 == n % 256 + 256 * (n / 256 % 256)
  {
    var a := n / 256;
    var q := a / 256;
    assert n == TWO_16 * q + (256 * (a % 256) + n % 256);
  }

  lemma ThreeByteMod(n: int)
    ensures n % 0x100_0000 == n % 256 + 256 * (n / 256 % TWO_16)
  {
    var a := n / 256;
    var q := a / TWO_16;
    assert n == 0x100_0000 * q + (256 * (a % TWO_16) + n % 256);
  }

  lemma FourByteMod(n: int)
    ensures n % TWO_32 == n % 256 + 256 * (n / 256 % 0x100_0000)
  {
    var a := n / 256;
    var q := a / 0x100_0000;
    assert n == TWO_32 * q + (256 * (a % 0x100_0000) + n % 256);
  }

  lemma Le16ReadsBack(n: int)
    ensures U16(Le16(n), 0) == n % TWO_16
  {
    TwoByteMod(n);
  }

  lemma Le32ReadsBack(n: int)
    ensures U32(Le32(n), 0) == n % TWO_32
  {
    FourByteMod(n);
    ThreeByteMod(n / 256);
    TwoByteMod(n / 256 / 256);
  }

  // ----- the layout

  const RIFF: seq<Byte> := [82, 73, 70, 70]
  const WAVE: seq<Byte> := [87, 65, 86, 69]
  const FMT: seq<Byte> := [102, 109, 116, 32]
  const DATA: seq<Byte> := [100, 97, 116, 97]

  /** The header's fields, in order. */
  function HeaderFields(rate: nat, samples: nat): (r: seq<seq<Byte>>) {
    [RIFF, Le32(36 + 2 * samples), WAVE, FMT, Le32(16), Le16(1), Le16(1), Le32(rate), Le32(2 * rate), Le16(2),
        Le16(16), DATA, Le32(2 * samples)]
  }

  function Join(parts: seq<seq<Byte>>): seq<Byte> {
    if parts == [] then [] else Join(parts[..|parts| - 1]) + parts[|parts| - 1]
  }

  function Flatten(buffers: seq<seq<real>>): seq<real> {
    if buffers == [] then [] else Flatten(buffers[..|buffers| - 1]) + buffers[|buffers| - 1]
  }

  function SampleBytes(samples: seq<real>): (r: seq<Byte>)
    ensures |r| == 2 * |samples|
  {
    if samples == [] then [] else SampleBytes(samples[..|samples| - 1]) + Le16(Quantise(samples[|samples| - 1]))
  }

  function WavBytes(samples: seq<real>, rate: nat): seq<Byte> {
    Join(HeaderFields(rate, |samples|)) + SampleBytes(samples)
  }

  // ----- the writer

  /** Writes `bytes` into the view and logs their offsets. */
  method SetBytes(view: array<Byte>, offset: nat, bytes: seq<Byte>, ghost log: seq<nat>) returns (ghost log': seq<nat>)
    requires offset + |bytes| <= view.Length && log == Offsets(offset)
    modifies view
    ensures view[..offset + |bytes|] == old(view[..offset]) + bytes
    ensures log' == Offsets(offset + |bytes|)
  {
    log' := log;
    var index := 0;
    while index < |bytes|
      invariant 0 <= index <= |bytes|
      invariant view[..offset + index] == old(view[..offset]) + bytes[..index]
      invariant log' == Offsets(offset + index)
    {
      view[offset + index] := bytes[index];
      log' := log' + [offset + index];
      index := index + 1;
    }
    assert bytes[..|bytes|] == bytes;
  }

  /** The offsets 0, 1, 2, ... up to `n`, each once. */
  function Offsets(n: nat): (r: seq<nat>)
    ensures |r| == n && forall i | 0 <= i < n :: r[i] == i
  {
    seq(n, i => i)
  }

  lemma {:induction false} JoinOneMore(parts: seq<seq<Byte>>, k: nat)
    requires k < |parts|
    ensures Join(parts[..k + 1]) == Join(parts[..k]) + parts[k]
  {
    assert parts[..k + 1][..k] == parts[..k];
  }

  lemma {:induction false} FlattenOneMore(buffers: seq<seq<real>>, k: nat)
    requires k < |buffers|
    ensures Flatten(buffers[..k + 1]) == Flatten(buffers[..k]) + buffers[k]
  {
    assert buffers[..k + 1][..k] == buffers[..k];
  }

  lemma SampleBytesOneMore(samples: seq<real>, x: real)
    ensures SampleBytes(samples + [x]) == SampleBytes(samples) + Le16(Quantise(x))
  {
    assert (samples + [x])[..|samples|] == samples;
  }

  lemma {:induction false} FlattenIsPrefix(buffers: seq<seq<real>>, k: nat)
    requires k <= |buffers|
    ensures |Flatten(buffers[..k])| <= |Flatten(buffers)|
    decreases |buffers| - k
  {
    if k < |buffers| {
      FlattenOneMore(buffers, k);
      FlattenIsPrefix(buffers, k + 1);
    } else {
      assert buffers[..k] == buffers;
    }
  }

  lemma HeaderSize(rate: nat, samples: nat)
    ensures |Join(HeaderFields(rate, samples))| == HEADER_SIZE
    ensures forall k | 0 <= k <= 13 :: |Join(HeaderFields(rate, samples)[..k])| <= HEADER_SIZE
  {
    var fields := HeaderFields(rate, samples);
    FieldOffsets(fields);
    assert fields[..13] == fields;
  }

  /** Where each of the thirteen header fields begins. */
  lemma FieldOffsets(fields: seq<seq<Byte>>)
    requires |fields| == 13
    requires |fields[0]| == |fields[1]| == |fields[2]| == |fields[3]| == |fields[4]| == |fields[7]| == |fields[8]| ==
        |fields[11]| == |fields[12]| == 4
    requires |fields[5]| == |fields[6]| == |fields[9]| == |fields[10]| == 2
    ensures |Join(fields[..0])| == 0 && |Join(fields[..1])| == 4 && |Join(fields[..2])| == 8
            && |Join(fields[..3])| == 12
    ensures |Join(fields[..4])| == 16 && |Join(fields[..5])| == 20 && |Join(fields[..6])| == 22
            && |Join(fields[..7])| == 24
    ensures |Join(fields[..8])| == 28 && |Join(fields[..9])| == 32 && |Join(fields[..10])| == 34
            && |Join(fields[..11])| == 36
    ensures |Join(fields[..12])| == 40 && |Join(fields[..13])| == 44
  {
    hide Join;
    assert |Join(fields[..0])| == 0 by { JoinNothing(fields); }
    JoinOneMore(fields, 0);
    JoinOneMore(fields, 1);
    JoinOneMore(fields, 2);
    JoinOneMore(fields, 3);
    JoinOneMore(fields, 4);
    JoinOneMore(fields, 5);
    JoinOneMore(fields, 6);
    JoinOneMore(fields, 7);
    JoinOneMore(fields, 8);
    JoinOneMore(fields, 9);
    JoinOneMore(fields, 10);
    JoinOneMore(fields, 11);
    JoinOneMore(fields, 12);
  }

  lemma JoinNothing(parts: seq<seq<Byte>>)
    ensures Join(parts[..0]) == []
  {
  }

  /** Writes the header and then every sample of every buffer at a moving offset. The log shows that each byte of
      the result is written exactly once. */
  method CreateWavBlob(buffers: seq<seq<real>>, rate: nat) returns (blob: Option<seq<Byte>>, ghost log: seq<nat>)
    ensures Flatten(buffers) == [] <==> blob.None?
    ensures blob.Some? ==> blob.value == WavBytes(Flatten(buffers), rate)
    ensures blob.Some? ==> |blob.value| == HEADER_SIZE + 2 * |Flatten(buffers)| && log == Offsets(|blob.value|)
  {
    hide Join, SampleBytes, HeaderFields, Flatten, Le16, Quantise, Offsets;
    log := [];
    var total := CountSamples(buffers);
    if total == 0 {
      return None, log;
    }
    var view := new Byte[HEADER_SIZE + 2 * total];
    log := WriteHeader(view, rate, total);
    var offset := HEADER_SIZE;
    ghost var header := Join(HeaderFields(rate, total));
    NothingWritten(buffers);
    var k := 0;
    while k < |buffers|
      invariant 0 <= k <= |buffers| && offset == HEADER_SIZE + 2 * |Flatten(buffers[..k])| <= view.Length
      invariant view[..offset] == header + SampleBytes(Flatten(buffers[..k])) && log == Offsets(offset)
    {
      FlattenOneMore(buffers, k);
      FlattenIsPrefix(buffers, k + 1);
      offset, log := WriteChunk(view, offset, buffers[k], header, Flatten(buffers[..k]), log);
      k := k + 1;
    }
    assert buffers[..k] == buffers && view[..offset] == view[..];
    HeaderSize(rate, total);
    blob := Some(view[..]);
  }

  lemma NothingWritten(buffers: seq<seq<real>>)
    ensures Flatten(buffers[..0]) == [] && SampleBytes(Flatten(buffers[..0])) == []
  {
  }

  method CountSamples(buffers: seq<seq<real>>) returns (total: nat)
    ensures total == |Flatten(buffers)|
  {
    total := 0;
    for k := 0 to |buffers|
      invariant total == |Flatten(buffers[..k])|
    {
      FlattenOneMore(buffers, k);
      total := total + |buffers[k]|;
    }
    assert buffers[..|buffers|] == buffers;
  }

  /** The thirteen writes of the header, each at its own fixed offset. */
  method WriteHeader(view: array<Byte>, rate: nat, total: nat) returns (ghost log: seq<nat>)
    requires view.Length >= HEADER_SIZE
    modifies view
    ensures view[..HEADER_SIZE] == Join(HeaderFields(rate, total)) && log == Offsets(HEADER_SIZE)
  {
    hide Offsets, Join, HeaderFields;
    ghost var fields := HeaderFields(rate, total);
    log := WriteTags(view, rate, total, fields);
    log := WriteFormat(view, rate, total, fields, log);
    assert fields[..13] == fields;
  }

  method WriteTags(view: array<Byte>, rate: nat, total: nat, ghost fields: seq<seq<Byte>>) returns (ghost log: seq<nat>)
    requires view.Length >= HEADER_SIZE && fields == HeaderFields(rate, total)
    modifies view
    ensures |fields| == 13 && view[..20] == Join(fields[..5]) && log == Offsets(20)
  {
    hide Offsets, Le16, Le32, Join;
    JoinNothing(fields);
    ghost var none := Offsets(0);
    assert view[..0] == [];
    log := SetField(view, 0, RIFF, fields, 0, none);
    log := SetField(view, 4, Le32(36 + 2 * total), fields, 1, log);
    log := SetField(view, 8, WAVE, fields, 2, log);
    log := SetField(view, 12, FMT, fields, 3, log);
    log := SetField(view, 16, Le32(16), fields, 4, log);
  }

  method WriteFormat(view: array<Byte>, rate: nat, total: nat, ghost fields: seq<seq<Byte>>, ghost written: seq<nat>)
    returns (ghost log: seq<nat>)
    requires view.Length >= HEADER_SIZE && fields == HeaderFields(rate, total)
    requires |fields| == 13 && view[..20] == Join(fields[..5]) && written == Offsets(20)
    modifies view
    ensures view[..HEADER_SIZE] == Join(fields[..13]) && log == Offsets(HEADER_SIZE)
  {
    hide Offsets, Le16, Le32, Join;
    log := SetField(view, 20, Le16(1), fields, 5, written);
    log := SetField(view, 22, Le16(1), fields, 6, log);
    log := SetField(view, 24, Le32(rate), fields, 7, log);
    log := SetField(view, 28, Le32(2 * rate), fields, 8, log);
    log := SetField(view, 32, Le16(2), fields, 9, log);
    log := SetField(view, 34, Le16(16), fields, 10, log);
    log := SetField(view, 36, DATA, fields, 11, log);
    log := SetField(view, 40, Le32(2 * total), fields, 12, log);
  }

  /** Writes one field behind the fields already written. */
  method SetField(view: array<Byte>, offset: nat, bytes: seq<Byte>, ghost fields: seq<seq<Byte>>, ghost k: nat,
        ghost log: seq<nat>)
    returns (ghost log': seq<nat>)
    requires k < |fields| && fields[k] == bytes && offset + |bytes| <= view.Length && log == Offsets(offset)
    requires view[..offset] == Join(fields[..k])
    modifies view
    ensures view[..offset + |bytes|] == Join(fields[..k + 1]) && log' == Offsets(offset + |bytes|)
  {
    hide Join, Offsets;
    log' := SetBytes(view, offset, bytes, log);
    JoinOneMore(fields, k);
  }

  method WriteChunk(view: array<Byte>, start: nat, chunk: seq<real>, ghost header: seq<Byte>, ghost before: seq<real>,
        ghost log: seq<nat>)
    returns (offset: nat, ghost log': seq<nat>)
    requires start + 2 * |chunk| <= view.Length && log == Offsets(start)
    requires view[..start] == header + SampleBytes(before)
    modifies view
    ensures offset == start + 2 * |chunk| && log' == Offsets(offset)
    ensures view[..offset] == header + SampleBytes(before + chunk)
  {
    hide SampleBytes, Le16, Quantise, Offsets;
    offset, log' := start, log;
    assert before + chunk[..0] == before;
    for index := 0 to |chunk|
      invariant offset == start + 2 * index && log' == Offsets(offset)
      invariant view[..offset] == header + SampleBytes(before + chunk[..index])
    {
      SampleBytesOneMore(before + chunk[..index], chunk[index]);
      assert before + chunk[..index + 1] == (before + chunk[..index]) + [chunk[index]];
      log' := SetBytes(view, offset, Le16(Quantise(chunk[index])), log');
      offset := offset + 2;
    }
    assert chunk[..|chunk|] == chunk;
  }

  // ----- what a reader finds

  lemma FieldAt(fields: seq<seq<Byte>>, k: nat, tail: seq<Byte>)
    requires k < |fields|
    ensures var whole, at := Join(fields) + tail, |Join(fields[..k])|;
            at + |fields[k]| <= |whole| && whole[at..at + |fields[k]|] == fields[k]
    decreases |fields|
  {
    if k + 1 < |fields| {
      var n := |fields| - 1;
      FieldAt(fields[..n], k, fields[n] + tail);
      assert fields[..n][..k] == fields[..k];
      assert Join(fields) + tail == Join(fields[..n]) + (fields[n] + tail);
    } else {
      assert fields[..k + 1] == fields;
    }
  }

  lemma U32Field(b: seq<Byte>, at: nat, n: int)
    requires at + 4 <= |b| && b[at..at + 4] == Le32(n)
    ensures U32(b, at) == n % TWO_32
  {
    hide Le32;
    Le32ReadsBack(n);
    var f := b[at..at + 4];
    assert b[at] == f[0] && b[at + 1] == f[1] && b[at + 2] == f[2] && b[at + 3] == f[3];
  }

  lemma U16Field(b: seq<Byte>, at: nat, n: int)
    requires at + 2 <= |b| && b[at..at + 2] == Le16(n)
    ensures U16(b, at) == n % TWO_16
  {
    hide Le16;
    Le16ReadsBack(n);
    var f := b[at..at + 2];
    assert b[at] == f[0] && b[at + 1] == f[1];
  }

  /** The ASCII text stands at this offset. */
  predicate IsText(b: seq<Byte>, at: nat, text: string) {
    at + |text| <= |b| && forall i | 0 <= i < |text| :: b[at + i] == text[i] as int
  }

  lemma TagsAreText(b: seq<Byte>, at: nat)
    requires at + 4 <= |b|
    ensures b[at..at + 4] == RIFF ==> IsText(b, at, "RIFF")
    ensures b[at..at + 4] == WAVE ==> IsText(b, at, "WAVE")
    ensures b[at..at + 4] == FMT ==> IsText(b, at, "fmt ")
    ensures b[at..at + 4] == DATA ==> IsText(b, at, "data")
  {
    var tag := b[at..at + 4];
    assert tag[0] == b[at] && tag[1] == b[at + 1] && tag[2] == b[at + 2] && tag[3] == b[at + 3];
  }

  /** Where the thirteen fields stand. */
  lemma HeaderSlices(samples: seq<real>, rate: nat)
    ensures var b, size := WavBytes(samples, rate), 2 * |samples|;
            && |b| == 44 + size
            && b[0..4] == RIFF && b[4..8] == Le32(36 + size) && b[8..12] == WAVE && b[12..16] == FMT
            && b[16..20] == Le32(16) && b[20..22] == Le16(1) && b[22..24] == Le16(1) && b[24..28] == Le32(rate)
            && b[28..32] == Le32(2 * rate) && b[32..34] == Le16(2) && b[34..36] == Le16(16) && b[36..40] == DATA
            && b[40..44] == Le32(size)
  {
    hide Join, SampleBytes, Le32, Le16;
    var fields, tail := HeaderFields(rate, |samples|), SampleBytes(samples);
    HeaderSize(rate, |samples|);
    FieldOffsets(fields);
    FieldAt(fields, 0, tail);
    FieldAt(fields, 1, tail);
    FieldAt(fields, 2, tail);
    FieldAt(fields, 3, tail);
    FieldAt(fields, 4, tail);
    FieldAt(fields, 5, tail);
    FieldAt(fields, 6, tail);
    FieldAt(fields, 7, tail);
    FieldAt(fields, 8, tail);
    FieldAt(fields, 9, tail);
    FieldAt(fields, 10, tail);
    FieldAt(fields, 11, tail);
    FieldAt(fields, 12, tail);
  }

  /** Reading the header back: the tags, one channel of 16-bit PCM, the sample rate and byte rate modulo 2^32; the
      two size fields describe the file exactly when it is below the 4 GiB limit of the format. */
  lemma HeaderReadsBack(samples: seq<real>, rate: nat)
    ensures var b := WavBytes(samples, rate);
            && |b| == 44 + 2 * |samples|
            && IsText(b, 0, "RIFF") && IsText(b, 8, "WAVE") && IsText(b, 12, "fmt ") && IsText(b, 36, "data")
            && U32(b, 16) == 16 && U16(b, 20) == 1 && U16(b, 22) == 1 && U16(b, 32) == 2 && U16(b, 34) == 16
            && U32(b, 24) == rate % 0x1_0000_0000 && U32(b, 28) == 2 * rate % 0x1_0000_0000
            && U32(b, 40) == 2 * |samples| % 0x1_0000_0000
            && (U32(b, 4) == |b| - 8 <==> 36 + 2 * |samples| < 0x1_0000_0000)
  {
    hide WavBytes, Le32, Le16, U32, U16, IsText;
    var b := WavBytes(samples, rate);
    HeaderSlices(samples, rate);
    U32Field(b, 4, 36 + 2 * |samples|);
    U32Field(b, 16, 16);
    U16Field(b, 20, 1);
    U16Field(b, 22, 1);
    U32Field(b, 24, rate);
    U32Field(b, 28, 2 * rate);
    U16Field(b, 32, 2);
    U16Field(b, 34, 16);
    U32Field(b, 40, 2 * |samples|);
    TagsAreText(b, 0);
    TagsAreText(b, 8);
    TagsAreText(b, 12);
    TagsAreText(b, 36);
  }

  lemma {:induction false} SampleBytesAt(samples: seq<real>, i: nat)
    requires i < |samples|
    ensures SampleBytes(samples)[2 * i..2 * i + 2] == Le16(Quantise(samples[i]))
  {
    hide Le16, Quantise;
    var n := |samples| - 1;
    if i < n {
      SampleBytesAt(samples[..n], i);
      assert SampleBytes(samples)[2 * i..2 * i + 2] == SampleBytes(samples[..n])[2 * i..2 * i + 2];
    }
  }

  /** Reading sample `i` back gives its quantised value. */
  lemma SampleReadsBack(samples: seq<real>, rate: nat, i: nat)
    requires i < |samples|
    ensures |WavBytes(samples, rate)| == HEADER_SIZE + 2 * |samples|
    ensures I16(WavBytes(samples, rate), HEADER_SIZE + 2 * i) == Quantise(samples[i])
  {
    hide Join, SampleBytes, HeaderFields, Quantise, Le16;
    var b, at := WavBytes(samples, rate), HEADER_SIZE + 2 * i;
    HeaderSize(rate, |samples|);
    SampleBytesAt(samples, i);
    assert b[at..at + 2] == SampleBytes(samples)[2 * i..2 * i + 2];
    U16Field(b, at, Quantise(samples[i]));
    QuantiseRange(samples[i]);
  }
}
