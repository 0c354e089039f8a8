/** The stored form of face samples: little-endian 32-bit words, 512 to a sample, back to back. */
module Embeddings {
  import opened Wrappers
  import opened Hex
  import opened Crypto

  const EMBEDDING_DIM: nat := 512
  const STRIDE_BYTES: nat := 2048
  /** What encryption adds to a file. */
  const OVERHEAD: nat := NONCE_LEN + TAG_LEN

  /** An f32 as its 32 bits. */
  type Word = w: int | 0 <= w < 0x1_0000_0000

  type Sample = v: seq<Word> | |v| == EMBEDDING_DIM witness seq(EMBEDDING_DIM, _ => 0)

  function ToLe(w: Word): (b: seq<byte>)
    ensures |b| == 4
  {
    [w % 256, w / 256 % 256, w / 65536 % 256, w / 16777216]
  }

  function FromLe(b: seq<byte>): Word
    requires |b| == 4
  {
    var b0: int, b1: int, b2: int, b3: int := b[0], b[1], b[2], b[3];
    b0 + 256 * b1 + 65536 * b2 + 16777216 * b3
  }

  lemma LeRoundTrip(w: Word)
    ensures FromLe(ToLe(w)) == w
  {
    assert w == w % 256 + 256 * (w / 256);
    assert w / 256 == w / 256 % 256 + 256 * (w / 65536);
    assert w / 65536 == w / 65536 % 256 + 256 * (w / 16777216);
  }

  /** Least significant byte first. */
  lemma LeastFirst(w: Word)
    ensures var b: seq<int> := ToLe(w); w == b[0] + 256 * b[1] + 65536 * b[2] + 16777216 * b[3]
  {
    LeRoundTrip(w);
    assert w == w % 256 + 256 * (w / 256);
    assert w / 256 == w / 256 % 256 + 256 * (w / 65536);
    assert w / 65536 == w / 65536 % 256 + 256 * (w / 16777216);
  }

  function WordBytes(v: seq<Word>): (b: seq<byte>)
    ensures |b| == 4 * |v|
  {
    if v == [] then [] else ToLe(v[0]) + WordBytes(v[1..])
  }

  /** The loop that extends a byte buffer word by word. */
  method EmbeddingBytes(v: seq<Word>) returns (b: seq<byte>)
    ensures b == WordBytes(v)
  {
    b := [];
    for i := 0 to |v|
      invariant b + WordBytes(v[i..]) == WordBytes(v)
    {
      b := b + ToLe(v[i]);
      assert v[i..][1..] == v[i + 1..];
    }
    assert v[|v|..] == [];
  }

  function Words(b: seq<byte>): (v: seq<Word>)
    requires |b| % 4 == 0
    ensures |b| == 4 * |v|
  {
    if b == [] then [] else [FromLe(b[..4])] + Words(b[4..])
  }

  function Chunks(b: seq<byte>): (samples: seq<Sample>)
    requires |b| % STRIDE_BYTES == 0
    ensures |b| == STRIDE_BYTES * |samples|
  {
    if b == [] then [] else [Words(b[..STRIDE_BYTES])] + Chunks(b[STRIDE_BYTES..])
  }

  function Parse(b: seq<byte>): Result<seq<Sample>> {
    if b == [] || |b| % STRIDE_BYTES != 0 then Err(Biometrics) else Ok(Chunks(b))
  }

  /** What a history of captures looks like on disk before encryption. */
  function SampleBytes(samples: seq<Sample>): (b: seq<byte>)
    ensures |b| == STRIDE_BYTES * |samples|
  {
    if samples == [] then [] else WordBytes(samples[0]) + SampleBytes(samples[1..])
  }

  lemma {:induction false} WordsRoundTrip(v: seq<Word>)
    ensures Words(WordBytes(v)) == v
  {
    if v != [] {
      LeRoundTrip(v[0]);
      WordsRoundTrip(v[1..]);
      var b := WordBytes(v);
      assert b[..4] == ToLe(v[0]) && b[4..] == WordBytes(v[1..]);
      assert [v[0]] + v[1..] == v;
    }
  }

  lemma {:induction false} ChunksRoundTrip(samples: seq<Sample>)
    ensures Chunks(SampleBytes(samples)) == samples
  {
    if samples != [] {
      WordsRoundTrip(samples[0]);
      ChunksRoundTrip(samples[1..]);
      var b := SampleBytes(samples);
      assert b[..STRIDE_BYTES] == WordBytes(samples[0]) && b[STRIDE_BYTES..] == SampleBytes(samples[1..]);
      assert [samples[0]] + samples[1..] == samples;
    }
  }

  /** Parsing the stored bytes gives back the captures, in order; an empty file is refused. */
  lemma ParseRoundTrip(samples: seq<Sample>)
    ensures Parse(SampleBytes(samples)) == if samples == [] then Err(Biometrics) else Ok(samples)
  {
    ChunksRoundTrip(samples);
  }

  /** Appending a capture's bytes is appending the capture. */
  lemma {:induction false} SampleBytesAppend(samples: seq<Sample>, v: Sample)
    ensures SampleBytes(samples + [v]) == SampleBytes(samples) + WordBytes(v)
  {
    if samples == [] {
      assert samples + [v] == [v] && [v][1..] == [];
      assert SampleBytes([v]) == WordBytes(v) + [];
    } else {
      SampleBytesAppend(samples[1..], v);
      assert (samples + [v])[1..] == samples[1..] + [v];
      assert SampleBytes(samples) + WordBytes(v) == WordBytes(samples[0]) + (SampleBytes(samples[1..]) + WordBytes(v));
    }
  }

  /** Word i is at offset 4 i. */
  lemma {:induction false} WordIsAt(v: seq<Word>, i: nat)
    requires i < |v|
    ensures WordBytes(v)[4 * i..4 * i + 4] == ToLe(v[i])
  {
    if i > 0 {
      WordIsAt(v[1..], i - 1);
      var rest := WordBytes(v[1..]);
      assert WordBytes(v)[4..] == rest;
      assert WordBytes(v)[4 * i..4 * i + 4] == rest[4 * (i - 1)..4 * (i - 1) + 4];
    }
  }

  /** The sample count read off an encrypted file's length. */
  function SampleCount(fileLength: nat): nat {
    (if fileLength >= OVERHEAD then fileLength - OVERHEAD else 0) / STRIDE_BYTES
  }
}
