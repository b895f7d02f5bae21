/**
 * rat/src/io_util.rs: the block-size oracle `io_blksize` (a port of GNU
 * coreutils' ioblksize.h) and the single-threaded buffered writer that every
 * formatted and verbatim byte passes through on its way to standard output.
 */
module IoUtil {
  import opened Bytes

  /** `IO_BUFSIZE`: 256 KiB, the default transfer size and the buffer capacity. */
  const IO_BUFSIZE: nat := 256 * 1024

  const USIZE_BITS: nat := 64

  /** A 64-bit `usize`. */
  type usize = x: int | 0 <= x < 0x1_0000_0000_0000_0000

  /** A 64-bit `blksize_t`, the type of `st_blksize`. */
  type i64 = x: int | -0x8000_0000_0000_0000 <= x < 0x8000_0000_0000_0000

  /** The file-type mask and the regular-file type of `st_mode`. */
  const S_IFMT: bv32 := 0xF000
  const S_IFREG: bv32 := 0x8000

  /** The two fields of `struct stat` that `io_blksize` reads. */
  datatype Stat = Stat(stBlksize: i64, stMode: bv32)

  predicate IsRegularFile(mode: bv32) {
    mode & S_IFMT == S_IFREG
  }

  // ---------------------------------------------------------------------
  // Powers of two and the bit operations `io_blksize` uses, on naturals.
  // ---------------------------------------------------------------------

  function Pow2(k: nat): (r: nat)
    ensures r >= 1
  {
    if k == 0 then 1 else 2 * Pow2(k - 1)
  }

  /** A power of two, defined without exponents: 1, or twice a power of two. */
  predicate IsPow2(x: nat)
  {
    x == 1 || (x >= 2 && x % 2 == 0 && IsPow2(x / 2))
  }

  /** Bitwise AND of two naturals, bit by bit from the least significant one. */
  function BitAnd(a: nat, b: nat): nat
  {
    if a == 0 || b == 0 then 0
    else 2 * BitAnd(a / 2, b / 2) + (if a % 2 == 1 && b % 2 == 1 then 1 else 0)
  }

  /** The number of significant bits of `x` (0 for 0). */
  function BitLength(x: nat): nat
  {
    if x == 0 then 0 else 1 + BitLength(x / 2)
  }

  /** `usize::leading_zeros`. */
  function LeadingZeros(x: usize): (r: nat)
    ensures r <= USIZE_BITS
  {
    Pow2Is64();
    BitLengthBelow(x, USIZE_BITS);
    USIZE_BITS - BitLength(x)
  }

  lemma {:induction false} Pow2Add(a: nat, b: nat)
    ensures Pow2(a + b) == Pow2(a) * Pow2(b)
  {
    if b > 0 {
      Pow2Add(a, b - 1);
    }
  }

  lemma Pow2Is64()
    ensures Pow2(18) == IO_BUFSIZE
    ensures Pow2(64) == 0x1_0000_0000_0000_0000
  {
    Pow2Of16();
    Pow2Add(16, 2);
    Pow2Add(16, 16);
    Pow2Add(32, 32);
  }

  /** Every power of two below `2^64` is a `usize`. */
  lemma Pow2BelowWord(k: nat)
    requires k < USIZE_BITS
    ensures Pow2(k) < 0x1_0000_0000_0000_0000
  {
    Pow2Monotone(k, USIZE_BITS - 1);
    Pow2Is64();
    assert Pow2(USIZE_BITS) == 2 * Pow2(USIZE_BITS - 1);
  }

  lemma Pow2Of16()
    ensures Pow2(16) == 0x1_0000
  {
    assert Pow2(8) == 256;
    Pow2Add(8, 8);
  }

  lemma {:induction false} Pow2Monotone(j: nat, k: nat)
    requires j <= k
    ensures Pow2(j) <= Pow2(k)
  {
    if j < k {
      Pow2Monotone(j, k - 1);
    }
  }

  lemma {:induction false} Pow2IsPow2(k: nat)
    ensures IsPow2(Pow2(k))
  {
    if k > 0 {
      Pow2IsPow2(k - 1);
      assert Pow2(k) / 2 == Pow2(k - 1);
    }
  }

  lemma {:induction false} BitAndSelf(a: nat)
    ensures BitAnd(a, a) == a
  {
    if a > 0 {
      BitAndSelf(a / 2);
    }
  }

  lemma {:induction false} BitLengthBelow(x: nat, k: nat)
    requires x < Pow2(k)
    ensures BitLength(x) <= k
  {
    if x > 0 {
      BitLengthBelow(x / 2, k - 1);
    }
  }

  /** `x` lies between the powers of two around its top bit. */
  lemma {:induction false} BitLengthBounds(x: nat)
    requires x >= 1
    ensures BitLength(x) >= 1
    ensures Pow2(BitLength(x) - 1) <= x < Pow2(BitLength(x))
  {
    if x >= 2 {
      BitLengthBounds(x / 2);
    }
  }

  /**
   * The test `x & (x - 1) != 0` used in io_blksize is exactly "x is not a
   * power of two".
   */
  lemma {:induction false} AndPredecessorIsZeroIffPow2(x: nat)
    requires x >= 1
    ensures BitAnd(x, x - 1) == 0 <==> IsPow2(x)
  {
    if x == 1 {
    } else if x % 2 == 1 {
      assert (x - 1) / 2 == x / 2;
      BitAndSelf(x / 2);
      assert BitAnd(x, x - 1) == 2 * (x / 2);
    } else {
      assert (x - 1) / 2 == x / 2 - 1;
      assert BitAnd(x, x - 1) == 2 * BitAnd(x / 2, x / 2 - 1);
      AndPredecessorIsZeroIffPow2(x / 2);
    }
  }

  /** Every power of two above `x` is at least the one right above its top bit. */
  lemma {:induction false} NextPow2IsLeast(x: nat, k: nat)
    requires x >= 1 && Pow2(k) > x
    ensures Pow2(k) >= Pow2(BitLength(x))
  {
    BitLengthBounds(x);
    if k < BitLength(x) {
      Pow2Monotone(k, BitLength(x) - 1);
    } else {
      Pow2Monotone(BitLength(x), k);
    }
  }

  // ---------------------------------------------------------------------
  // io_blksize (io_util.rs:30-50; ioblksize.rs:13-33 is the same text).
  // ---------------------------------------------------------------------

  /** The starting value: `st_blksize` when positive, else `IO_BUFSIZE`. */
  function StartSize(st: Stat): usize
  {
    if st.stBlksize > 0 then st.stBlksize as usize else IO_BUFSIZE
  }

  /** `blksize += (IO_BUFSIZE - 1) - (IO_BUFSIZE - 1) % blksize` */
  function RoundUp(b: usize): usize
    requires 0 < b < 0x8000_0000_0000_0000
  {
    b + ((IO_BUFSIZE - 1) - (IO_BUFSIZE - 1) % b)
  }

  /** The power-of-two step, applied to regular files only. */
  function PowerRound(b: usize, regular: bool): usize
    requires b >= 1
  {
    if regular && BitAnd(b, b - 1) != 0 then
      var leadingZeros := LeadingZeros(b);
      if leadingZeros != 0 then
        Pow2BelowWord(USIZE_BITS - leadingZeros);
        Pow2(USIZE_BITS - leadingZeros)
      else
        b
    else
      b
  }

  function IoBlksize(st: Stat): usize
  {
    PowerRound(RoundUp(StartSize(st)), IsRegularFile(st.stMode))
  }

  /**
   * After the padding step the size is the least multiple of the starting
   * value that reaches `IO_BUFSIZE`, and it cannot overflow.
   */
  lemma RoundUpIsLeastMultiple(b: usize)
    requires 0 < b < 0x8000_0000_0000_0000
    ensures RoundUp(b) == ((IO_BUFSIZE - 1) / b + 1) * b
    ensures RoundUp(b) >= IO_BUFSIZE
    ensures RoundUp(b) - b < IO_BUFSIZE
  {
    var q, m := (IO_BUFSIZE - 1) / b, (IO_BUFSIZE - 1) % b;
    assert IO_BUFSIZE - 1 == q * b + m;
    assert (q + 1) * b == q * b + b;
  }

  /**
   * The power-of-two step: a power of two (or a non-regular file) is left
   * alone; otherwise the result is the least power of two strictly above the
   * value, unless the top bit is already set, in which case nothing changes.
   */
  lemma PowerRoundSpec(b: usize, regular: bool)
    requires b >= 1
    ensures !regular || IsPow2(b) ==> PowerRound(b, regular) == b
    ensures regular && !IsPow2(b) && BitLength(b) == USIZE_BITS ==> PowerRound(b, regular) == b
    ensures regular && !IsPow2(b) && BitLength(b) < USIZE_BITS ==>
      var r := PowerRound(b, regular);
      IsPow2(r) && r > b && forall k: nat :: Pow2(k) > b ==> Pow2(k) >= r
  {
    AndPredecessorIsZeroIffPow2(b);
    BitLengthBounds(b);
    if regular && !IsPow2(b) && BitLength(b) < USIZE_BITS {
      assert PowerRound(b, regular) == Pow2(BitLength(b));
      Pow2IsPow2(BitLength(b));
      forall k: nat | Pow2(k) > b
        ensures Pow2(k) >= Pow2(BitLength(b))
      {
        NextPow2IsLeast(b, k);
      }
    }
  }

  /** The result of io_blksize never drops below `IO_BUFSIZE`. */
  lemma IoBlksizeAtLeastBufsize(st: Stat)
    ensures IoBlksize(st) >= IO_BUFSIZE
  {
    var b := RoundUp(StartSize(st));
    RoundUpIsLeastMultiple(StartSize(st));
    PowerRoundSpec(b, IsRegularFile(st.stMode));
  }

  /** A non-positive `st_blksize` yields exactly `IO_BUFSIZE`, for every file type. */
  lemma NonPositiveBlksizeGivesDefault(st: Stat)
    requires st.stBlksize <= 0
    ensures IoBlksize(st) == IO_BUFSIZE
  {
    assert RoundUp(StartSize(st)) == IO_BUFSIZE;
    Pow2Is64();
    Pow2IsPow2(18);
    PowerRoundSpec(IO_BUFSIZE, IsRegularFile(st.stMode));
  }

  /**
   * For a regular file the result is a power of two unless the padded value
   * already has its top bit set; for any other file it is the padded value.
   */
  lemma IoBlksizeByFileType(st: Stat)
    ensures var b := RoundUp(StartSize(st));
      if !IsRegularFile(st.stMode) then IoBlksize(st) == b
      else IsPow2(IoBlksize(st)) || (IoBlksize(st) == b && BitLength(b) == USIZE_BITS)
  {
    var b := RoundUp(StartSize(st));
    RoundUpIsLeastMultiple(StartSize(st));
    PowerRoundSpec(b, IsRegularFile(st.stMode));
    Pow2Is64();
    BitLengthBelow(b, USIZE_BITS);
  }

  /** A multiple of `m` plus `m` is still a multiple of `m`. */
  lemma AddBlock(k: int, m: nat)
    requires m > 0 && k % m == 0
    ensures (k + m) % m == 0
  {
    var q, q', r := k / m, (k + m) / m, (k + m) % m;
    assert k == m * q;
    assert k + m == m * q' + r;
    var t := q + 1 - q';
    assert r == m * t by {
      assert m * t == m * q + m - m * q';
    }
  }

  // ---------------------------------------------------------------------
  // BufferedWriterSingleThread (io_util.rs:127-180).
  // ---------------------------------------------------------------------

  /**
   * A byte buffer of capacity `maxSize` in front of standard output.
   * `sink` is everything standard output has received so far; the buffer
   * holds what has been written but not yet emitted. The capacity of the
   * underlying `Vec` is taken to be `maxSize` (both start at `IO_BUFSIZE`).
   */
  class BufferedWriterSingleThread {
    var buffer: seq<byte>
    const maxSize: nat := IO_BUFSIZE
    ghost var sink: seq<byte>
    /** What standard output held when the writer was made: nothing emitted is ever taken back. */
    ghost const initial: seq<byte>

    ghost predicate Valid()
      reads this
    {
      |buffer| <= maxSize && initial <= sink
    }

    /** Everything written so far, in order: the sink, then the buffer. */
    ghost function Contents(): seq<byte>
      reads this
    {
      sink + buffer
    }

    constructor (ghost written: seq<byte>)
      ensures Valid() && buffer == [] && sink == written && initial == written
    {
      buffer := [];
      sink := written;
      initial := written;
    }

    method Write(data: seq<byte>)
      requires Valid()
      modifies this
      ensures Valid()
      ensures Contents() == old(Contents()) + data
      ensures (|sink| - |old(sink)|) % maxSize == 0
      ensures |old(buffer)| + |data| <= maxSize && |data| != maxSize ==> sink == old(sink)
      ensures old(buffer) == [] && |data| == maxSize ==> sink == old(sink) + data && buffer == []
      ensures |buffer| == maxSize ==> sink == old(sink)
    {
      var rest := data;
      ghost var flushed := false;
      while |buffer| + |rest| > maxSize
        invariant Valid()
        invariant sink + buffer + rest == old(Contents()) + data
        invariant (|sink| - |old(sink)|) % maxSize == 0
        invariant !flushed ==> sink == old(sink) && buffer == old(buffer) && rest == data
        invariant flushed ==> buffer == [] && |old(buffer)| + |data| > maxSize
        decreases |buffer| + |rest|
      {
        ghost var emitted := |sink| - |old(sink)|;
        rest := FillAndFlush(rest);
        flushed := true;
        AddBlock(emitted, maxSize);
      }
      ghost var emitted := |sink| - |old(sink)|;
      Place(rest);
      if |rest| == maxSize {
        AddBlock(emitted, maxSize);
      }
    }

    /**
     * The tail of `write`, once what is left fits: exactly a full buffer's
     * worth goes straight out (the buffer is then empty), anything shorter
     * is appended to the buffer.
     */
    method Place(rest: seq<byte>)
      requires Valid() && |buffer| + |rest| <= maxSize
      modifies this
      ensures Valid() && Contents() == old(Contents()) + rest
      ensures if |rest| == maxSize then sink == old(sink) + rest && buffer == []
              else sink == old(sink) && buffer == old(buffer) + rest
    {
      if |rest| == maxSize {
        Flush();
        sink := sink + rest;
      } else {
        buffer := buffer + rest;
      }
    }

    /**
     * One pass of the loop in `write`: the buffer is topped up to
     * `maxSize` from the front of `rest` and flushed; the remainder is
     * returned.
     */
    method FillAndFlush(rest: seq<byte>) returns (rest': seq<byte>)
      requires Valid() && |buffer| + |rest| > maxSize
      modifies this
      ensures Valid() && buffer == [] && |sink| == |old(sink)| + maxSize
      ensures sink + rest' == old(sink) + old(buffer) + rest
      ensures |rest'| < |old(buffer)| + |rest|
    {
      var processLen := maxSize - |buffer|;
      ghost var before := sink + buffer + rest;
      SliceSplit(rest, 0, processLen);
      assert rest[0..] == rest && rest[0..processLen] == rest[..processLen];
      buffer := buffer + rest[..processLen];
      rest' := rest[processLen..];
      ConcatAssoc(sink + old(buffer), rest[..processLen], rest');
      Flush();
    }

    method WriteByte(b: byte)
      requires Valid()
      modifies this
      ensures Valid()
      ensures Contents() == old(Contents()) + [b]
      ensures if |old(buffer)| == maxSize
              then sink == old(sink) + old(buffer) && buffer == [b]
              else sink == old(sink) && buffer == old(buffer) + [b]
    {
      if |buffer| == maxSize {
        Flush();
      }
      buffer := buffer + [b];
    }

    method Flush()
      requires Valid()
      modifies this
      ensures Valid()
      ensures sink == old(sink) + old(buffer) && buffer == []
    {
      if buffer != [] {
        sink := sink + buffer;
        buffer := [];
      }
    }

    /** The single-threaded writer has nothing to wait for. */
    method Wait()
      ensures buffer == old(buffer) && sink == old(sink)
    {
    }
  }
}
