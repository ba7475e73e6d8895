/** The CThead volume: its fixed shape, the byte-pair decoding of a sample,
    the order in which samples are stored, and the running minimum and
    maximum kept while the file is scanned. */
module Volume {

  /** Shape of the dataset: 113 slices of 256 rows by 256 columns. */
  const SLICES := 113
  const ROWS := 256
  const COLS := 256
  const SAMPLE_COUNT := SLICES * ROWS * COLS

  /** Short.MIN_VALUE and Short.MAX_VALUE. */
  const SHORT_MIN := -32768
  const SHORT_MAX := 32767

  type byte = b: int | 0 <= b < 256

  /** A Java short: a signed 16-bit value. */
  type short = s: int | SHORT_MIN <= s <= SHORT_MAX

  function Min(a: int, b: int): int { if a < b then a else b }

  function Max(a: int, b: int): int { if a > b then a else b }

  /** Java's narrowing cast `(short) v`: keep the low 16 bits of v and read them
      as a two's complement number. */
  function ToShort(v: int): (r: short)
    ensures (r - v) % 65536 == 0
    ensures SHORT_MIN <= v <= SHORT_MAX ==> r == v
  {
    var low := v % 65536;
    if low <= SHORT_MAX then low else low - 65536
  }

  /** The sample held by the byte pair (b1, b2) of the file: b1 is the low-order
      byte and b2 the high-order byte, `(short) ((b2 << 8) | b1)`; since b1 < 256
      the bitwise or is the sum b2 * 256 + b1. */
  function DecodeSample(b1: byte, b2: byte): (r: short)
    ensures (r - (b2 * 256 + b1)) % 65536 == 0
    ensures r < 0 <==> b2 >= 128
  {
    ToShort(b2 * 256 + b1)
  }

  /** The byte pair that stores the sample s, low-order byte first. */
  function EncodeSample(s: short): (bytes: (byte, byte))
  {
    var unsigned := s % 65536;
    (unsigned % 256, unsigned / 256)
  }

  /** Decoding is the inverse of encoding ... */
  lemma DecodeEncode(s: short)
    ensures DecodeSample(EncodeSample(s).0, EncodeSample(s).1) == s
  {
  }

  /** ... and every byte pair is the encoding of the sample it decodes to. */
  lemma EncodeDecode(b1: byte, b2: byte)
    ensures EncodeSample(DecodeSample(b1, b2)) == (b1, b2)
  {
    var unsigned := b2 * 256 + b1;
    var r: int := DecodeSample(b1, b2);
    if unsigned <= SHORT_MAX {
      assert r == unsigned;
    } else {
      assert r == unsigned - 65536;
    }
    assert r % 65536 == unsigned;
    assert unsigned % 256 == b1 && unsigned / 256 == b2;
  }

  /** The bytes [0x01, 0x02] store the sample 0x0201; [0xFF, 0xFF] stores -1. */
  lemma DecodeExamples()
    ensures DecodeSample(0x01, 0x02) == 0x0201
    ensures DecodeSample(0xFF, 0xFF) == -1
    ensures DecodeSample(0x00, 0x80) == SHORT_MIN
  {
  }

  /** The samples of a byte stream, one per whole pair of bytes, in stream order. */
  function Decoded(data: seq<byte>): (s: seq<short>)
    ensures |s| == |data| / 2
  {
    if |data| < 2 then []
    else [DecodeSample(data[0], data[1])] + Decoded(data[2..])
  }

  /** Sample n of the stream is decoded from bytes 2n and 2n + 1. */
  lemma {:induction false} DecodedAt(data: seq<byte>, n: nat)
    requires n < |data| / 2
    ensures Decoded(data)[n] == DecodeSample(data[2 * n], data[2 * n + 1])
  {
    if n > 0 {
      DecodedAt(data[2..], n - 1);
    }
  }

  /** A cell cthead[k][j][i] of the volume: slice k, row j, column i. */
  predicate InVolume(k: int, j: int, i: int)
  {
    0 <= k < SLICES && 0 <= j < ROWS && 0 <= i < COLS
  }

  /** Position in the stream of the sample stored in cthead[k][j][i]: slices in
      order, each slice row by row, each row column by column. */
  function SampleIndex(k: int, j: int, i: int): (n: int)
    ensures InVolume(k, j, i) ==> 0 <= n < SAMPLE_COUNT
  {
    (k * ROWS + j) * COLS + i
  }

  /** Two distinct cells are filled from two distinct stream positions. */
  lemma SampleIndexInjective(k: int, j: int, i: int, k': int, j': int, i': int)
    requires InVolume(k, j, i) && InVolume(k', j', i')
    requires SampleIndex(k, j, i) == SampleIndex(k', j', i')
    ensures k == k' && j == j' && i == i'
  {
  }

  /** Every stream position below SAMPLE_COUNT is stored in some cell, so with
      SampleIndexInjective the storage order is a bijection between the first
      SAMPLE_COUNT samples of the stream and the cells of the volume. */
  lemma SampleIndexOnto(n: int)
    requires 0 <= n < SAMPLE_COUNT
    ensures InVolume(n / (ROWS * COLS), n / COLS % ROWS, n % COLS)
    ensures SampleIndex(n / (ROWS * COLS), n / COLS % ROWS, n % COLS) == n
  {
    var k, j, i := n / (ROWS * COLS), n / COLS % ROWS, n % COLS;
    assert n / COLS == k * ROWS + j;
  }

  /** The minimum kept while scanning the first n samples of s in order: it
      starts at Short.MAX_VALUE and is lowered by every smaller sample, so it
      never exceeds the latest sample. */
  function RunningMin(s: seq<short>, n: nat): (r: short)
    requires n <= |s|
    ensures n > 0 ==> r <= s[n - 1]
  {
    if n == 0 then SHORT_MAX else Min(RunningMin(s, n - 1), s[n - 1])
  }

  /** The maximum kept while scanning: starts at Short.MIN_VALUE and is never
      below the latest sample. */
  function RunningMax(s: seq<short>, n: nat): (r: short)
    requires n <= |s|
    ensures n > 0 ==> s[n - 1] <= r
  {
    if n == 0 then SHORT_MIN else Max(RunningMax(s, n - 1), s[n - 1])
  }

  /** The running minimum is the minimum of the samples scanned: a lower bound of
      all of them, attained by one of them unless nothing was scanned. */
  lemma {:induction false} RunningMinIsMinimum(s: seq<short>, n: nat)
    requires n <= |s|
    ensures forall p :: 0 <= p < n ==> RunningMin(s, n) <= s[p]
    ensures n > 0 ==> exists p :: 0 <= p < n && RunningMin(s, n) == s[p]
    ensures n == 0 ==> RunningMin(s, n) == SHORT_MAX
  {
    if n > 0 {
      RunningMinIsMinimum(s, n - 1);
      if n == 1 || s[n - 1] <= RunningMin(s, n - 1) {
        assert RunningMin(s, n) == s[n - 1];
      } else {
        var p :| 0 <= p < n - 1 && RunningMin(s, n - 1) == s[p];
        assert RunningMin(s, n) == s[p];
      }
    }
  }

  /** The running maximum is the maximum of the samples scanned. */
  lemma {:induction false} RunningMaxIsMaximum(s: seq<short>, n: nat)
    requires n <= |s|
    ensures forall p :: 0 <= p < n ==> s[p] <= RunningMax(s, n)
    ensures n > 0 ==> exists p :: 0 <= p < n && RunningMax(s, n) == s[p]
    ensures n == 0 ==> RunningMax(s, n) == SHORT_MIN
  {
    if n > 0 {
      RunningMaxIsMaximum(s, n - 1);
      if n == 1 || s[n - 1] >= RunningMax(s, n - 1) {
        assert RunningMax(s, n) == s[n - 1];
      } else {
        var p :| 0 <= p < n - 1 && RunningMax(s, n - 1) == s[p];
        assert RunningMax(s, n) == s[p];
      }
    }
  }

  /** After at least one sample, the running minimum never exceeds the running maximum. */
  lemma RunningMinBelowMax(s: seq<short>, n: nat)
    requires 0 < n <= |s|
    ensures RunningMin(s, n) <= RunningMax(s, n)
  {
    RunningMinIsMinimum(s, n);
    RunningMaxIsMaximum(s, n);
    assert RunningMin(s, n) <= s[0] <= RunningMax(s, n);
  }
}
