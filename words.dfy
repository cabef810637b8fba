/** The packed storage of a bit array: a sequence of 32-bit words, bit position
    p living in word p / W at offset p % W (offset 0 is the least significant
    bit of the word).  The operations here work on storage values; the class in
    module BitArrays owns one such value and replaces it. */
module Words {
  import opened BitSeq

  /** Bits per storage word: the storage vector holds 32-bit `unsigned` cells. */
  const W: nat := 32

  type Word = bv32

  // ---------------------------------------------------------------------------
  // One word.  The primitives take the offset as a bit-vector; the lemmas lift
  // them to natural-number offsets.
  // ---------------------------------------------------------------------------

  function TestBit(w: Word, k: bv32): bool
    requires k < 32
  {
    (w >> k) & 1 == 1
  }

  function Mask(k: bv32): Word
    requires k < 32
  {
    1 << k
  }

  lemma OffsetAsBv(o: nat)
    requires o < W
    ensures (o as bv32) < 32 && (o as bv32) as int == o
  {
  }

  /** Bit `o` of word `w`: `(w >> o) & 1`. */
  function Bit(w: Word, o: nat): bool
    requires o < W
  {
    TestBit(w, o as bv32)
  }

  function SetTestBit(w: Word, k: bv32, v: bool): Word
    requires k < 32
  {
    if v then w | Mask(k) else w & !Mask(k)
  }

  /** Word `w` with bit `o` set (`w | mask`) or cleared (`w & ~mask`). */
  function SetBit(w: Word, o: nat, v: bool): Word
    requires o < W
  {
    SetTestBit(w, o as bv32, v)
  }

  lemma SetTestBitAt(w: Word, k: bv32, v: bool, j: bv32)
    requires k < 32 && j < 32
    ensures TestBit(SetTestBit(w, k, v), j) == if j == k then v else TestBit(w, j)
  {
  }

  /** Setting or clearing one bit changes that bit and leaves the other W - 1 alone. */
  lemma SetBitAt(w: Word, o: nat, v: bool, j: nat)
    requires o < W && j < W
    ensures Bit(SetBit(w, o, v), j) == if j == o then v else Bit(w, j)
  {
    var k, i := o as bv32, j as bv32;
    OffsetAsBv(o);
    OffsetAsBv(j);
    SetTestBitAt(w, k, v, i);
  }

  lemma ZeroWordBit(o: nat)
    requires o < W
    ensures !Bit(0, o)
  {
    OffsetAsBv(o);
  }

  lemma ComplementTestBit(w: Word, k: bv32)
    requires k < 32
    ensures TestBit(!w, k) == !TestBit(w, k)
  {
  }

  lemma ComplementBit(w: Word, o: nat)
    requires o < W
    ensures Bit(!w, o) == !Bit(w, o)
  {
    OffsetAsBv(o);
    ComplementTestBit(w, o as bv32);
  }

  lemma NoTestBitMeansZero(w: Word)
    requires !TestBit(w, 0) && !TestBit(w, 1) && !TestBit(w, 2) && !TestBit(w, 3)
    requires !TestBit(w, 4) && !TestBit(w, 5) && !TestBit(w, 6) && !TestBit(w, 7)
    requires !TestBit(w, 8) && !TestBit(w, 9) && !TestBit(w, 10) && !TestBit(w, 11)
    requires !TestBit(w, 12) && !TestBit(w, 13) && !TestBit(w, 14) && !TestBit(w, 15)
    requires !TestBit(w, 16) && !TestBit(w, 17) && !TestBit(w, 18) && !TestBit(w, 19)
    requires !TestBit(w, 20) && !TestBit(w, 21) && !TestBit(w, 22) && !TestBit(w, 23)
    requires !TestBit(w, 24) && !TestBit(w, 25) && !TestBit(w, 26) && !TestBit(w, 27)
    requires !TestBit(w, 28) && !TestBit(w, 29) && !TestBit(w, 30) && !TestBit(w, 31)
    ensures w == 0
  {
  }

  /** A word is nonzero exactly when one of its W bits is set. */
  lemma NonzeroWordHasBit(w: Word)
    requires w != 0
    ensures exists o :: 0 <= o < W && Bit(w, o)
  {
    if forall o :: 0 <= o < W ==> !Bit(w, o) {
      forall k: bv32 | k < 32
        ensures !TestBit(w, k)
      {
        var o := k as int;
        assert (o as bv32) == k;
        assert !Bit(w, o);
      }
      NoTestBitMeansZero(w);
    }
  }

  // ---------------------------------------------------------------------------
  // Addressing a bit position
  // ---------------------------------------------------------------------------

  function WordIndex(p: nat): nat { p / W }

  function Offset(p: nat): (o: nat)
    ensures o < W
  {
    p % W
  }

  /** Every position has exactly one (word, offset) pair, with offset < W. */
  lemma AddressingIsUnique(p: nat, i: nat, o: nat)
    requires o < W
    ensures p == i * W + o <==> (i == WordIndex(p) && o == Offset(p))
  {
  }

  /** The number of words needed to hold `n` bits. */
  function WordsFor(n: nat): (k: nat)
    ensures n <= k * W && (k > 0 ==> (k - 1) * W < n)
  {
    (n + W - 1) / W
  }

  /** Bit `p` of the packed storage `ws`. */
  function BitAt(ws: seq<Word>, p: nat): bool
    requires p < |ws| * W
  {
    Bit(ws[WordIndex(p)], Offset(p))
  }

  lemma BitAtWord(ws: seq<Word>, i: nat, o: nat)
    requires i < |ws| && o < W
    ensures i * W + o < |ws| * W && BitAt(ws, i * W + o) == Bit(ws[i], o)
  {
    AddressingIsUnique(i * W + o, i, o);
  }

  /** Storage holding `n` logical bits: enough words, and every padding bit
      (in the last occupied word and in any trailing unused word) is zero. */
  ghost predicate WellFormed(ws: seq<Word>, n: nat)
  {
    n <= |ws| * W && forall p :: n <= p < |ws| * W ==> !BitAt(ws, p)
  }

  /** The logical bits the storage holds. */
  function Decode(ws: seq<Word>, n: nat): (r: seq<bool>)
    requires n <= |ws| * W
    ensures |r| == n
  {
    seq(n, p requires 0 <= p < n => BitAt(ws, p))
  }

  /** Words that are all zero hold only zero bits. */
  lemma ZeroWordsAt(k: nat, p: nat)
    requires p < k * W
    ensures !BitAt(seq(k, _ => 0), p)
  {
    ZeroWordBit(Offset(p));
  }

  lemma ZeroStorage(n: nat)
    ensures WellFormed(seq(WordsFor(n), _ => 0), n)
    ensures Decode(seq(WordsFor(n), _ => 0), n) == Zeros(n)
  {
    var ws: seq<Word> := seq(WordsFor(n), _ => 0);
    forall p | 0 <= p < |ws| * W
      ensures !BitAt(ws, p)
    {
      ZeroWordsAt(WordsFor(n), p);
    }
    forall p | 0 <= p < n
      ensures Decode(ws, n)[p] == Zeros(n)[p]
    {
      ZerosAt(n, p);
    }
  }

  /** Storage with bit `p` replaced by `v`. */
  function Written(ws: seq<Word>, p: nat, v: bool): (r: seq<Word>)
    requires p < |ws| * W
    ensures |r| == |ws|
  {
    ws[WordIndex(p) := SetBit(ws[WordIndex(p)], Offset(p), v)]
  }

  lemma WrittenAt(ws: seq<Word>, p: nat, v: bool, q: nat)
    requires p < |ws| * W && q < |ws| * W
    ensures BitAt(Written(ws, p, v), q) == if q == p then v else BitAt(ws, q)
  {
    if WordIndex(q) == WordIndex(p) {
      SetBitAt(ws[WordIndex(p)], Offset(p), v, Offset(q));
      if q != p {
        AddressingIsUnique(q, WordIndex(p), Offset(p));
      }
    }
  }

  /** Storage cut or padded with zero words to `k` words, enough for its `n` bits. */
  function Resized(ws: seq<Word>, k: nat): (r: seq<Word>)
    ensures |r| == k
  {
    if k <= |ws| then ws[..k] else ws + seq(k - |ws|, _ => 0)
  }

  lemma ResizedAt(ws: seq<Word>, k: nat, p: nat)
    requires p < k * W
    ensures BitAt(Resized(ws, k), p) == (p < |ws| * W && BitAt(ws, p))
  {
    if p >= |ws| * W {
      ZeroWordBit(Offset(p));
    }
  }

  /** Resizing to any word count that still holds the bits changes no bit. */
  lemma ResizePreserves(ws: seq<Word>, n: nat, k: nat)
    requires WellFormed(ws, n) && n <= k * W
    ensures WellFormed(Resized(ws, k), n) && Decode(Resized(ws, k), n) == Decode(ws, n)
  {
    var r := Resized(ws, k);
    forall p | 0 <= p < k * W
      ensures BitAt(r, p) == (p < |ws| * W && BitAt(ws, p))
    {
      ResizedAt(ws, k, p);
    }
  }

  // ---------------------------------------------------------------------------
  // Storage operations
  // ---------------------------------------------------------------------------

  /** assign_bit: store `v` at position `p` of the `n` logical bits. */
  method WriteBit(ws: seq<Word>, n: nat, p: nat, v: bool) returns (r: seq<Word>)
    requires WellFormed(ws, n) && p < n
    ensures |r| == |ws| && WellFormed(r, n)
    ensures Decode(r, n) == Decode(ws, n)[p := v]
  {
    var block := p / W;
    var offset := p % W;
    r := ws[block := SetBit(ws[block], offset, v)];
    assert r == Written(ws, p, v);
    forall q | 0 <= q < |ws| * W
      ensures BitAt(r, q) == if q == p then v else BitAt(ws, q)
    {
      WrittenAt(ws, p, v, q);
    }
  }

  /** operator+=(bool): one more bit at the end, with a fresh zero word when
      the last word is full. */
  method PushBit(ws: seq<Word>, n: nat, v: bool) returns (r: seq<Word>, m: nat)
    requires WellFormed(ws, n)
    ensures m == n + 1 && WellFormed(r, m)
    ensures Decode(r, m) == Decode(ws, n) + [v]
    ensures |r| == if n == |ws| * W then |ws| + 1 else |ws|
  {
    var grown := ws;
    if n == |ws| * W {
      grown := ws + [0];
    }
    assert grown == Resized(ws, |grown|);
    ResizePreserves(ws, n, |grown|);
    r := Written(grown, n, v);
    m := n + 1;
    forall q | 0 <= q < |r| * W
      ensures BitAt(r, q) == if q == n then v else BitAt(grown, q)
    {
      WrittenAt(grown, n, v, q);
    }
    assert Decode(r, m) == Decode(grown, n) + [v];
  }

  /** Append bits [from, to) of the storage `src` (holding `sn` bits) to `dst`. */
  method AppendRange(dst: seq<Word>, dn: nat, src: seq<Word>, sn: nat, from: nat, to: nat)
    returns (r: seq<Word>, m: nat)
    requires WellFormed(dst, dn) && WellFormed(src, sn) && from <= to <= sn
    ensures WellFormed(r, m) && m == dn + (to - from)
    ensures Decode(r, m) == Decode(dst, dn) + Decode(src, sn)[from..to]
  {
    r, m := dst, dn;
    var k := from;
    while k < to
      invariant from <= k <= to
      invariant WellFormed(r, m) && m == dn + (k - from)
      invariant Decode(r, m) == Decode(dst, dn) + Decode(src, sn)[from..k]
    {
      var b := BitAt(src, k);
      assert Decode(src, sn)[from..k + 1] == Decode(src, sn)[from..k] + [b];
      r, m := PushBit(r, m, b);
      k := k + 1;
    }
  }

  /** Append `k` zero bits. */
  method AppendZeros(dst: seq<Word>, dn: nat, k: nat) returns (r: seq<Word>, m: nat)
    requires WellFormed(dst, dn)
    ensures WellFormed(r, m) && m == dn + k
    ensures Decode(r, m) == Decode(dst, dn) + Zeros(k)
  {
    r, m := dst, dn;
    var i := 0;
    while i < k
      invariant i <= k
      invariant WellFormed(r, m) && m == dn + i
      invariant Decode(r, m) == Decode(dst, dn) + Zeros(i)
    {
      r, m := PushBit(r, m, false);
      i := i + 1;
    }
  }

  /** toggle(): flip every word, then clear the padding bits the flip set. */
  method ComplementWords(ws: seq<Word>, n: nat) returns (r: seq<Word>)
    requires WellFormed(ws, n)
    ensures |r| == |ws| && WellFormed(r, n)
    ensures Decode(r, n) == Complement(Decode(ws, n))
  {
    r := [];
    var i := 0;
    while i < |ws|
      invariant i <= |ws| && |r| == i
      invariant forall j :: 0 <= j < i ==> r[j] == !ws[j]
    {
      r := r + [!ws[i]];
      i := i + 1;
    }
    forall q | 0 <= q < |ws| * W
      ensures BitAt(r, q) == !BitAt(ws, q)
    {
      ComplementBit(ws[WordIndex(q)], Offset(q));
    }
    var p := n;
    while p < |ws| * W
      invariant n <= p <= |ws| * W && |r| == |ws|
      invariant forall q :: 0 <= q < |ws| * W ==> BitAt(r, q) == (if n <= q < p then false else !BitAt(ws, q))
    {
      forall q | 0 <= q < |ws| * W
        ensures BitAt(Written(r, p, false), q) == if q == p then false else BitAt(r, q)
      {
        WrittenAt(r, p, false, q);
      }
      r := Written(r, p, false);
      p := p + 1;
    }
  }

  /** insert: the bits of `src` spliced in at `pos`, by rebuilding the storage. */
  method InsertRange(ws: seq<Word>, n: nat, pos: nat, src: seq<Word>, sn: nat)
    returns (r: seq<Word>, m: nat)
    requires WellFormed(ws, n) && WellFormed(src, sn) && pos <= n
    ensures WellFormed(r, m) && m == n + sn
    ensures Decode(r, m) == Inserted(Decode(ws, n), pos, Decode(src, sn))
  {
    ghost var bits, other := Decode(ws, n), Decode(src, sn);
    assert other[0..sn] == other;
    r, m := AppendRange([], 0, ws, n, 0, pos);
    assert Decode(r, m) == bits[..pos];
    r, m := AppendRange(r, m, src, sn, 0, sn);
    assert Decode(r, m) == bits[..pos] + other;
    r, m := AppendRange(r, m, ws, n, pos, n);
    assert bits[pos..n] == bits[pos..];
    assert Decode(r, m) == bits[..pos] + other + bits[pos..];
  }

  /** erase: the bits [pos, pos + cnt) removed, by rebuilding the storage and
      keeping its word count. */
  method EraseRange(ws: seq<Word>, n: nat, pos: nat, cnt: nat) returns (r: seq<Word>, m: nat)
    requires WellFormed(ws, n) && pos + cnt <= n
    ensures WellFormed(r, m) && m == n - cnt && |r| == |ws|
    ensures Decode(r, m) == Erased(Decode(ws, n), pos, cnt)
  {
    ghost var bits := Decode(ws, n);
    r, m := AppendRange([], 0, ws, n, 0, pos);
    assert Decode(r, m) == bits[..pos];
    r, m := AppendRange(r, m, ws, n, pos + cnt, n);
    assert bits[pos + cnt..n] == bits[pos + cnt..];
    assert Decode(r, m) == bits[..pos] + bits[pos + cnt..];
    ResizePreserves(r, m, |ws|);
    r := Resized(r, |ws|);
  }

  /** operator<<=: every bit moved `k` places toward index 0, keeping the word count. */
  method ShiftLeftRange(ws: seq<Word>, n: nat, k: nat) returns (r: seq<Word>)
    requires WellFormed(ws, n)
    ensures WellFormed(r, n) && |r| == |ws|
    ensures Decode(r, n) == ShiftedLeft(Decode(ws, n), k)
  {
    ghost var bits := Decode(ws, n);
    var m;
    if k >= n {
      r, m := AppendZeros([], 0, n);
      assert Decode(r, m) == Zeros(n);
    } else {
      r, m := AppendRange([], 0, ws, n, k, n);
      assert Decode(r, m) == bits[k..];
      r, m := AppendZeros(r, m, k);
      assert Decode(r, m) == bits[k..] + Zeros(k);
    }
    ResizePreserves(r, m, |ws|);
    r := Resized(r, |ws|);
  }

  /** operator>>=: every bit moved `k` places toward the high end, keeping the word count. */
  method ShiftRightRange(ws: seq<Word>, n: nat, k: nat) returns (r: seq<Word>)
    requires WellFormed(ws, n)
    ensures WellFormed(r, n) && |r| == |ws|
    ensures Decode(r, n) == ShiftedRight(Decode(ws, n), k)
  {
    ghost var bits := Decode(ws, n);
    var m;
    if k >= n {
      r, m := AppendZeros([], 0, n);
      assert Decode(r, m) == Zeros(n);
    } else {
      r, m := AppendZeros([], 0, k);
      assert Decode(r, m) == Zeros(k);
      r, m := AppendRange(r, m, ws, n, 0, n - k);
      assert bits[0..n - k] == bits[..n - k];
      assert Decode(r, m) == Zeros(k) + bits[..n - k];
    }
    ResizePreserves(r, m, |ws|);
    r := Resized(r, |ws|);
  }

  /** A nonzero word in clean storage holds a bit in use. */
  lemma NonzeroWordHoldsBit(ws: seq<Word>, n: nat, i: nat)
    requires WellFormed(ws, n) && i < |ws| && ws[i] != 0
    ensures exists p :: 0 <= p < n && Decode(ws, n)[p]
  {
    NonzeroWordHasBit(ws[i]);
    var o :| 0 <= o < W && Bit(ws[i], o);
    BitAtWord(ws, i, o);
    assert Decode(ws, n)[i * W + o];
  }

  /** Storage whose words are all zero holds no set bit. */
  lemma ZeroWordsHoldNoBit(ws: seq<Word>, n: nat)
    requires WellFormed(ws, n) && forall j :: 0 <= j < |ws| ==> ws[j] == 0
    ensures forall p :: 0 <= p < n ==> !Decode(ws, n)[p]
  {
    forall p | 0 <= p < n
      ensures !Decode(ws, n)[p]
    {
      ZeroWordBit(Offset(p));
    }
  }
}
