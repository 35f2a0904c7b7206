/** The bitmap page-frame allocator (src/mm/frame_allocator.rs).

    One bit per frame, packed into 64-bit words kept in the first frames of the
    managed region. A ghost set of live frames is tied to every bit, so the
    words refine a plain set and each operation is specified on that set. */
module FrameAllocator {
  import opened Arithmetic
  import opened Bits

  const NULL: nat := 0
  const WORD_BITS: nat := 64
  const WORD_BYTES: nat := 8

  // ----- rounding to a multiple -----

  /** `x.next_multiple_of(m)`. */
  function NextMultiple(x: nat, m: nat): nat
    requires m > 0
  {
    (x + m - 1) / m * m
  }

  // ----- the derived sizes -----

  function TotalFrames(start: nat, size: nat, m: nat): nat
    requires m > 0
  {
    var startAligned := NextMultiple(start, m);
    var endUp := NextMultiple(start + size, m);
    var endAligned := if endUp > start + size then endUp - m else endUp;
    if endAligned < startAligned then 0 else (endAligned - startAligned) / m
  }

  function BitmapFrames(total: nat, m: nat): nat
    requires m > 0
  {
    ((total + 7) / 8 + m - 1) / m
  }

  /** Rounding up and stepping back one frame when it moved is rounding down. */
  lemma EndAligned(x: nat, m: nat)
    requires m > 0
    ensures var up := NextMultiple(x, m); up >= x && (if up > x then up - m else up) == x / m * m
  {
    DivBounds(x, m);
    var q, r := x / m, x % m;
    assert x == q * m + r;
    if r == 0 {
      DivUnique(q, m - 1, m);
    } else {
      assert x + m - 1 == (q + 1) * m + (r - 1);
      DivUnique(q + 1, r - 1, m);
      assert (q + 1) * m == q * m + m;
    }
  }

  /** Two multiples of m more than eight apart enclose at least nine frames. */
  lemma FrameGap(s: nat, e: nat, m: nat)
    requires m > 0 && s * m + 8 * m < e * m
    ensures s + 9 <= e && (e * m - s * m) / m == e - s && (e - s) * m == e * m - s * m
  {
    assert (s + 8) * m == s * m + 8 * m;
    MulCancel(s + 8, e, m);
    assert (e - s) * m == e * m - s * m;
    DivUnique(e - s, 0, m);
  }

  /** The managed frames are exactly the whole frames inside the given region:
      they lie in it, and neither end has room for another. */
  lemma RegionShape(start: nat, size: nat, m: nat)
    requires m >= WORD_BYTES && size > 10 * m
    ensures var s, total := NextMultiple(start, m), TotalFrames(start, size, m);
            && s % m == 0 && start <= s < start + m
            && s + total * m <= start + size < s + total * m + m
            && total >= 9
  {
    CeilReaches(start, m);
    DivBounds(start + size, m);
    EndAligned(start + size, m);
    MultipleMod((start + m - 1) / m, m);
    FrameGap((start + m - 1) / m, (start + size) / m, m);
  }

  lemma BitmapShape(total: nat, m: nat)
    requires m >= WORD_BYTES && total >= 9
    ensures 1 <= BitmapFrames(total, m) < total <= 8 * (BitmapFrames(total, m) * m)
  {
    var bytes, frames := (total + 7) / 8, BitmapFrames(total, m);
    CeilReaches(bytes, m);
    MulCancel(0, frames, m);
    MulLe(bytes, bytes, m);
    assert (bytes + 1) * m == bytes * m + m;
    MulMonotone(bytes, bytes, 1, m);
    MulCancel(frames, bytes + 1, m);
  }

  /** The bitmap takes as few frames as can hold a bit for every frame. */
  lemma BitmapSmallest(total: nat, m: nat)
    requires m > 0 && total > 0
    ensures BitmapFrames(total, m) >= 1
    ensures 8 * (BitmapFrames(total, m) * m) - 8 * m < total <= 8 * (BitmapFrames(total, m) * m)
  {
    var bytes, frames := (total + 7) / 8, BitmapFrames(total, m);
    CeilReaches(bytes, m);
    MulCancel(0, frames, m);
  }

  /** The bitmap words have a bit for every frame, and one for every bitmap frame. */
  lemma WordCount(frames: nat, m: nat)
    requires m % WORD_BYTES == 0 && m > 0 && frames >= 1
    ensures WORD_BITS * (frames * m / WORD_BYTES) == 8 * (frames * m) && frames < 8 * (frames * m)
  {
    assert frames * m == frames * (m / 8) * 8;
    MulMonotone(frames, frames, 1, m);
  }

  lemma {:induction false} IntervalSize(s: set<nat>, a: nat, b: nat)
    requires a <= b && forall f: nat :: f in s <==> a <= f < b
    ensures |s| == b - a
    decreases b
  {
    if a < b {
      IntervalSize(s - {b - 1}, a, b - 1);
      assert s == (s - {b - 1}) + {b - 1};
    } else {
      assert s == {};
    }
  }

  class BitMapFrameAllocator {
    const frameSize: nat
    const totalFrames: nat
    const bitmapFrames: nat
    const start: nat
    const words: array<u64>
    ghost var live: set<nat>

    /** Frame f is handed out, or holds the bitmap itself. */
    ghost predicate Used(f: nat)
      reads this
    {
      f < bitmapFrames || f in live
    }

    ghost predicate Valid()
      reads this, words
    {
      && WORD_BYTES <= frameSize && frameSize % WORD_BYTES == 0
      && 1 <= bitmapFrames <= totalFrames <= WORD_BITS * words.Length
      && start % frameSize == 0 && start + totalFrames * frameSize < U64_LIMIT
      && (forall f | f in live :: bitmapFrames <= f < totalFrames)
      && (forall i: nat, j: nat | i < words.Length && j < WORD_BITS ::
            Bit(words[i], j) <==> Used(WORD_BITS * i + j))
    }

    /** The abstract state: every frame that may still be handed out. */
    ghost function Free(): set<nat>
      reads this
    {
      set f: nat | bitmapFrames <= f < totalFrames && f !in live
    }

    function FrameAddr(f: nat): nat
    {
      start + f * frameSize
    }

    function FrameIndex(ptr: nat): nat
      requires frameSize > 0 && start <= ptr
    {
      (ptr - start) / frameSize
    }

    /** Every byte of frame f belongs to frame f alone, so distinct frames never overlap. */
    lemma FrameIndexOfAddr(f: nat, offset: nat)
      requires offset < frameSize
      ensures FrameIndex(FrameAddr(f) + offset) == f
    {
      DivUnique(f, offset, frameSize);
    }

    /** Handed-out addresses are aligned to the frame size. */
    lemma FrameAligned(f: nat)
      requires frameSize > 0 && start % frameSize == 0
      ensures FrameAddr(f) % frameSize == 0
    {
      var q := start / frameSize;
      assert FrameAddr(f) == (q + f) * frameSize by {
        assert (q + f) * frameSize == q * frameSize + f * frameSize;
      }
      MultipleMod(q + f, frameSize);
    }

    /** No byte belongs to two frames. */
    lemma FramesDisjoint(f: nat, g: nat, a: nat, b: nat)
      requires a < frameSize && b < frameSize && f != g
      ensures FrameAddr(f) + a != FrameAddr(g) + b
    {
      FrameIndexOfAddr(f, a);
      FrameIndexOfAddr(g, b);
    }

    lemma FrameInRegion(f: nat)
      requires f < totalFrames
      ensures start <= FrameAddr(f) && FrameAddr(f) + frameSize <= start + totalFrames * frameSize
    {
      MulLe(f + 1, totalFrames, frameSize);
      assert (f + 1) * frameSize == f * frameSize + frameSize;
    }

    constructor (regionStart: nat, size: nat, frameSize: nat)
      requires exists k :: frameSize == Pow2(k)
      requires frameSize > 0 && frameSize % WORD_BYTES == 0
      requires size > 10 * frameSize
      requires regionStart + size + frameSize < U64_LIMIT
      ensures Valid() && fresh(words)
      ensures this.frameSize == frameSize
      ensures start == NextMultiple(regionStart, frameSize)
      ensures regionStart <= start && start + totalFrames * frameSize <= regionStart + size
      ensures start < regionStart + frameSize && regionStart + size < start + totalFrames * frameSize + frameSize
      ensures WORD_BITS * words.Length == 8 * (bitmapFrames * frameSize) && live == {}
      ensures 8 * (bitmapFrames * frameSize) - 8 * frameSize < totalFrames <= 8 * (bitmapFrames * frameSize)
      ensures (forall f: nat :: f in Free() <==> bitmapFrames <= f < totalFrames) && |Free()| == totalFrames - bitmapFrames
    {
      hide NextMultiple, TotalFrames, BitmapFrames, Bit;
      RegionShape(regionStart, size, frameSize);
      var total := TotalFrames(regionStart, size, frameSize);
      BitmapShape(total, frameSize);
      BitmapSmallest(total, frameSize);
      var bitmap := BitmapFrames(total, frameSize);
      WordCount(bitmap, frameSize);
      var a := new u64[bitmap * frameSize / WORD_BYTES];
      this.frameSize := frameSize;
      totalFrames := total;
      bitmapFrames := bitmap;
      start := NextMultiple(regionStart, frameSize);
      words := a;
      live := {};
      new;
      InitBitmap(a, bitmap);
      IntervalSize(Free(), bitmap, total);
    }

    /** Sets one bit of the bitmap. */
    method MarkUsed(index: nat, chunkIndex: nat)
      requires Valid() && index < words.Length && chunkIndex < WORD_BITS
      requires bitmapFrames <= WORD_BITS * index + chunkIndex < totalFrames
      modifies words, `live
      ensures Valid() && live == old(live) + {WORD_BITS * index + chunkIndex}
    {
      SetBit(words[index], chunkIndex);
      words[index] := Or(words[index], Pow2(chunkIndex));
      live := live + {WORD_BITS * index + chunkIndex};
    }

    /** Lowest-numbered free frame, or null exactly when no frame is free. */
    method AllocFrame() returns (ptr: nat, ghost frame: nat)
      requires Valid()
      modifies words, `live
      ensures Valid()
      ensures ptr == NULL <==> old(Free()) == {}
      ensures ptr == NULL ==> live == old(live)
      ensures ptr != NULL ==>
        && frame in old(Free()) && (forall g | g in old(Free()) :: frame <= g)
        && ptr == FrameAddr(frame) && live == old(live) + {frame} && Free() == old(Free()) - {frame}
    {
      var index := 0;
      while index < words.Length && words[index] == U64_MAX
        modifies {}
        invariant index <= words.Length
        invariant forall i: nat, j: nat | i < index && j < WORD_BITS :: Bit(words[i], j)
      {
        MaxWordBits();
        index := index + 1;
      }
      if index == words.Length {
        LowerFramesUsed(index, 0);
        return NULL, 0;
      }
      var chunkIndex := TrailingOnes(words[index]);
      FirstClear(words[index]);
      LowerFramesUsed(index, chunkIndex);
      var frameIndex := WORD_BITS * index + chunkIndex;
      if frameIndex >= totalFrames {
        return NULL, 0;
      }
      assert !Used(frameIndex);
      assert frameIndex in Free();
      assert FrameAddr(frameIndex) != NULL by { MulMonotone(1, frameIndex, 1, frameSize); }
      MarkUsed(index, chunkIndex);
      ptr, frame := FrameAddr(frameIndex), frameIndex;
    }

    /** If every bit before word i, and the first j bits of word i, are set, then all those frames are used. */
    lemma LowerFramesUsed(i: nat, j: nat)
      requires Valid() && i <= words.Length && j < WORD_BITS && (i == words.Length ==> j == 0)
      requires forall i': nat, j': nat | i' < i && j' < WORD_BITS :: Bit(words[i'], j')
      requires forall j': nat | j' < j :: Bit(words[i], j')
      ensures forall f | f in Free() :: i * WORD_BITS + j <= f
      ensures totalFrames <= i * WORD_BITS + j ==> Free() == {}
    {
      forall f: nat | f < i * WORD_BITS + j
        ensures Used(f)
      {
        assert f == WORD_BITS * (f / WORD_BITS) + f % WORD_BITS;
        assert Bit(words[f / WORD_BITS], f % WORD_BITS);
      }
      forall f | f in Free()
        ensures i * WORD_BITS + j <= f
      {
        assert !Used(f);
      }
    }

    /** Returns the frame holding `ptr`; only frames handed out before may come back. */
    method DeallocFrame(ptr: nat)
      requires Valid() && start <= ptr && FrameIndex(ptr) in live
      modifies words, `live
      ensures Valid() && live == old(live) - {FrameIndex(ptr)} && Free() == old(Free()) + {FrameIndex(ptr)}
    {
      var frameIndex := FrameIndex(ptr);
      var index := frameIndex / WORD_BITS;
      var chunkIndex := frameIndex % WORD_BITS;
      ClearBit(words[index], chunkIndex);
      words[index] := And(words[index], Not(Pow2(chunkIndex)));
      live := live - {frameIndex};
    }
  }

  lemma MaxWordBits()
    ensures forall j: nat | j < WORD_BITS :: Bit(U64_MAX, j)
  {
    Pow2Of64();
    forall j: nat | j < WORD_BITS
      ensures Bit(U64_MAX, j)
    {
      BitLowMask(WORD_BITS, j);
    }
  }

  lemma FirstClear(w: u64)
    requires w != U64_MAX
    ensures TrailingOnes(w) < WORD_BITS && !Bit(w, TrailingOnes(w))
    ensures forall j: nat | j < TrailingOnes(w) :: Bit(w, j)
  {
    Pow2Of64();
    TrailingOnesIsFirstClear(w, WORD_BITS);
  }

  /** Zeroes the bitmap, then marks the bitmap's own frames: whole words first, then the remaining bits. */
  method InitBitmap(words: array<u64>, bitmapFrames: nat)
    requires bitmapFrames < WORD_BITS * words.Length
    modifies words
    ensures forall i: nat, j: nat | i < words.Length && j < WORD_BITS ::
              Bit(words[i], j) <==> WORD_BITS * i + j < bitmapFrames
  {
    for i := 0 to words.Length
      invariant forall i': nat | i' < i :: words[i'] == 0
    {
      words[i] := 0;
    }
    var full, rest := bitmapFrames / WORD_BITS, bitmapFrames % WORD_BITS;
    for i := 0 to full
      invariant forall i': nat | i' < i :: words[i'] == U64_MAX
      invariant forall i': nat | i <= i' < words.Length :: words[i'] == 0
    {
      words[i] := U64_MAX;
    }
    if rest > 0 {
      Pow2Of64();
      Pow2Monotone(rest, WORD_BITS);
      words[full] := Pow2(rest) - 1;
    }
    BitmapWords(words[..], bitmapFrames);
  }

  /** Full words, then one of low ones, then empty words: that is the first `n` bits. */
  lemma BitmapWords(words: seq<u64>, n: nat)
    requires forall i: nat | i < |words| ::
               words[i] == if i < n / WORD_BITS then U64_MAX
                           else if i == n / WORD_BITS && n % WORD_BITS > 0 then Pow2(n % WORD_BITS) - 1 else 0
    ensures forall i: nat, j: nat | i < |words| && j < WORD_BITS :: Bit(words[i], j) <==> WORD_BITS * i + j < n
  {
    Pow2Of64();
    forall i: nat, j: nat | i < |words| && j < WORD_BITS
      ensures Bit(words[i], j) <==> WORD_BITS * i + j < n
    {
      BitZero(j);
      BitLowMask(WORD_BITS, j);
      BitLowMask(n % WORD_BITS, j);
    }
  }
}
