/** The BitArray class: a growable sequence of bits packed into a vector of
    32-bit words, with an explicit logical length.  Its abstract value is
    Bits(), a sequence of booleans (bit 0 first); every mutator states its new
    value in terms of the old one, and every query states its answer in terms of
    the functions of module BitSeq. */
module BitArrays {
  import opened Results
  import opened BitSeq
  import opened Words

  class BitArray {
    /** The storage vector (`bits_`). */
    var words: seq<Word>
    /** The number of bits in use, which size() reports. */
    var len: nat

    /** The storage holds `len` bits and every padding bit is zero. */
    ghost predicate Valid()
      reads this
    {
      WellFormed(words, len)
    }

    /** The bits in use, bit 0 first. */
    function Bits(): seq<bool>
      reads this
      requires Valid()
    {
      Decode(words, len)
    }

    // -------------------------------------------------------------------------
    // Object management
    // -------------------------------------------------------------------------

    /** BitArray(nbits): `nbits` zero bits, in just enough words. */
    constructor (nbits: nat := 0)
      ensures Valid() && Bits() == Zeros(nbits)
      ensures |words| == WordsFor(nbits)
    {
      words := seq(WordsFor(nbits), _ => 0);
      len := nbits;
      ZeroStorage(nbits);
    }

    /** The copy constructor: an independent array with the same bits and storage. */
    constructor Copy(other: BitArray)
      requires other.Valid()
      ensures Valid() && Bits() == other.Bits() && |words| == |other.words|
    {
      words := other.words;
      len := other.len;
    }

    /** capacity(): the number of bits the current allocation can hold. */
    function Capacity(): (c: nat)
      reads this
      requires Valid()
      ensures c >= |Bits()| && c % W == 0
    {
      |words| * W
    }

    /** shrink_to_fit(): drop the storage words that no bit uses. */
    method ShrinkToFit()
      requires Valid()
      modifies this
      ensures Valid() && Bits() == old(Bits())
      ensures words == old(words)[..WordsFor(len)]
    {
      var k := WordsFor(len);
      ResizePreserves(words, len, k);
      if k < |words| {
        words := Resized(words, k);
      }
    }

    // -------------------------------------------------------------------------
    // Reading and writing single bits
    // -------------------------------------------------------------------------

    /** read_bit / operator[] const: the bit at `pos`, or OutOfRange. */
    method ReadBit(pos: nat) returns (r: Result<bool>)
      requires Valid()
      ensures r.Ok? <==> pos < |Bits()|
      ensures r.Ok? ==> r.value == Bits()[pos]
      ensures r.Err? ==> r.error == OutOfRange
    {
      if pos >= len {
        return Err(OutOfRange);
      }
      var block := pos / W;
      var offset := pos % W;
      r := Ok(Bit(words[block], offset));
    }

    /** assign_bit / operator[] used as a target: store `val` at `pos`. */
    method AssignBit(pos: nat, val: bool) returns (r: Outcome)
      requires Valid()
      modifies this
      ensures Valid() && |words| == |old(words)|
      ensures r == if pos < |old(Bits())| then Done else Failed(OutOfRange)
      ensures Bits() == if r.Done? then old(Bits())[pos := val] else old(Bits())
    {
      if pos >= len {
        return Failed(OutOfRange);
      }
      words := WriteBit(words, len, pos, val);
      r := Done;
    }

    /** toggle(pos): flip the bit at `pos`. */
    method Toggle(pos: nat) returns (r: Outcome)
      requires Valid()
      modifies this
      ensures Valid() && |words| == |old(words)|
      ensures r == if pos < |old(Bits())| then Done else Failed(OutOfRange)
      ensures Bits() == if r.Done? then old(Bits())[pos := !old(Bits())[pos]] else old(Bits())
    {
      if pos >= len {
        return Failed(OutOfRange);
      }
      words := WriteBit(words, len, pos, !BitAt(words, pos));
      r := Done;
    }

    /** toggle(): flip every bit in use; the padding stays zero. */
    method ToggleAll()
      requires Valid()
      modifies this
      ensures Valid() && |words| == |old(words)|
      ensures Bits() == Complement(old(Bits()))
    {
      words := ComplementWords(words, len);
    }

    /** operator~: a new array holding the complement; this one is unchanged. */
    method Complemented() returns (c: BitArray)
      requires Valid()
      ensures fresh(c) && c.Valid() && c.Bits() == Complement(Bits())
    {
      c := new BitArray.Copy(this);
      c.ToggleAll();
    }

    // -------------------------------------------------------------------------
    // Growing and shrinking
    // -------------------------------------------------------------------------

    /** operator+=(bool): append one bit. */
    method Append(val: bool)
      requires Valid()
      modifies this
      ensures Valid() && Bits() == old(Bits()) + [val]
      ensures |words| == if old(len) == |old(words)| * W then |old(words)| + 1 else |old(words)|
    {
      words, len := PushBit(words, len, val);
    }

    /** operator+=(BitArray): append all of `b`'s bits (`b` may be this array). */
    method AppendArray(b: BitArray)
      requires Valid() && b.Valid()
      modifies this
      ensures Valid() && Bits() == old(Bits()) + old(b.Bits())
    {
      var src, n := b.words, b.len;
      assert Decode(src, n)[0..n] == Decode(src, n);
      words, len := AppendRange(words, len, src, n, 0, n);
    }

    /** insert(pos, val): put `val` at `pos`, sliding the bits from `pos` on up by one. */
    method Insert(pos: nat, val: bool) returns (r: Outcome)
      requires Valid()
      modifies this
      ensures Valid()
      ensures r == if pos <= |old(Bits())| then Done else Failed(OutOfRange)
      ensures Bits() == if r.Done? then Inserted(old(Bits()), pos, [val]) else old(Bits())
    {
      if pos > len {
        return Failed(OutOfRange);
      }
      var one, m := PushBit([], 0, val);
      assert Decode(one, m) == [val];
      words, len := InsertRange(words, len, pos, one, m);
      r := Done;
    }

    /** insert(pos, b): splice all of `b`'s bits in at `pos`. */
    method InsertArray(pos: nat, b: BitArray) returns (r: Outcome)
      requires Valid() && b.Valid()
      modifies this
      ensures Valid()
      ensures r == if pos <= |old(Bits())| then Done else Failed(OutOfRange)
      ensures Bits() == if r.Done? then Inserted(old(Bits()), pos, old(b.Bits())) else old(Bits())
    {
      if pos > len {
        return Failed(OutOfRange);
      }
      words, len := InsertRange(words, len, pos, b.words, b.len);
      r := Done;
    }

    /** erase(pos, nbits): remove the bits [pos, pos + nbits) and close the gap.
        The storage keeps its size; shrink_to_fit() gives back the unused words. */
    method Erase(pos: nat, nbits: nat := 1) returns (r: Outcome)
      requires Valid()
      modifies this
      ensures Valid() && |words| == |old(words)|
      ensures r == if pos + nbits <= |old(Bits())| then Done else Failed(OutOfRange)
      ensures Bits() == if r.Done? then Erased(old(Bits()), pos, nbits) else old(Bits())
    {
      if pos + nbits > len {
        return Failed(OutOfRange);
      }
      words, len := EraseRange(words, len, pos, nbits);
      r := Done;
    }

    // -------------------------------------------------------------------------
    // Shifts (see module BitSeq for the direction convention)
    // -------------------------------------------------------------------------

    /** operator<<=: shift every bit toward index 0 by `k`, zero-filling the top. */
    method ShiftLeftAssign(k: nat)
      requires Valid()
      modifies this
      ensures Valid() && |words| == |old(words)|
      ensures Bits() == ShiftedLeft(old(Bits()), k)
    {
      words := ShiftLeftRange(words, len, k);
    }

    /** operator>>=: shift every bit toward the high end by `k`, zero-filling the bottom. */
    method ShiftRightAssign(k: nat)
      requires Valid()
      modifies this
      ensures Valid() && |words| == |old(words)|
      ensures Bits() == ShiftedRight(old(Bits()), k)
    {
      words := ShiftRightRange(words, len, k);
    }

    /** operator<<: a shifted copy; this array is unchanged. */
    method ShiftLeft(k: nat) returns (c: BitArray)
      requires Valid()
      ensures fresh(c) && c.Valid() && c.Bits() == ShiftedLeft(Bits(), k)
    {
      c := new BitArray.Copy(this);
      c.ShiftLeftAssign(k);
    }

    /** operator>>: a shifted copy; this array is unchanged. */
    method ShiftRight(k: nat) returns (c: BitArray)
      requires Valid()
      ensures fresh(c) && c.Valid() && c.Bits() == ShiftedRight(Bits(), k)
    {
      c := new BitArray.Copy(this);
      c.ShiftRightAssign(k);
    }

    // -------------------------------------------------------------------------
    // Extraction
    // -------------------------------------------------------------------------

    /** slice(pos, count): a new array with the bits [pos, pos + count). */
    method Slice(pos: nat, count: nat) returns (r: Result<BitArray>)
      requires Valid()
      ensures r.Ok? <==> pos + count <= |Bits()|
      ensures r.Err? ==> r.error == OutOfRange
      ensures r.Ok? ==> fresh(r.value) && r.value.Valid() && BitSeq.Slice(Bits(), pos, count) == Ok(r.value.Bits())
    {
      if pos + count > len {
        return Err(OutOfRange);
      }
      var ws, n := AppendRange([], 0, words, len, pos, pos + count);
      assert Decode(ws, n) == Bits()[pos..pos + count];
      var c := new BitArray(0);
      c.words, c.len := ws, n;
      r := Ok(c);
    }

    // -------------------------------------------------------------------------
    // Counting
    // -------------------------------------------------------------------------

    /** size(): the number of bits in use. */
    function Size(): (n: nat)
      reads this
      requires Valid()
      ensures n == |Bits()|
    {
      len
    }

    /** count(): the number of 1-bits among the bits in use. */
    method Count() returns (c: nat)
      requires Valid()
      ensures c == BitSeq.Count(Bits())
    {
      ghost var bits := Bits();
      c := 0;
      var p := 0;
      while p < len
        invariant p <= len
        invariant c == BitSeq.Count(bits[..p])
      {
        assert bits[..p + 1][..p] == bits[..p];
        if BitAt(words, p) {
          c := c + 1;
        }
        p := p + 1;
      }
      assert bits[..len] == bits;
    }

    /** any(): some bit is set; decided word by word, which is sound because
        the padding bits are kept zero. */
    method Any() returns (r: bool)
      requires Valid()
      ensures r == (BitSeq.Count(Bits()) > 0)
    {
      ghost var bits := Bits();
      AnyIffCountPositive(bits);
      var i := 0;
      while i < |words|
        invariant i <= |words|
        invariant forall j :: 0 <= j < i ==> words[j] == 0
      {
        if words[i] != 0 {
          NonzeroWordHoldsBit(words, len, i);
          return true;
        }
        i := i + 1;
      }
      ZeroWordsHoldNoBit(words, len);
      r := false;
    }

    // -------------------------------------------------------------------------
    // Comparison: every operator derives from one three-way comparison
    // -------------------------------------------------------------------------

    /** Lexicographic three-way comparison with `b`: -1, 0 or 1. */
    method CompareTo(b: BitArray) returns (c: int)
      requires Valid() && b.Valid()
      ensures c == Compare(Bits(), b.Bits())
    {
      ghost var x, y := Bits(), b.Bits();
      var m := if len < b.len then len else b.len;
      var i := 0;
      while i < m
        invariant i <= m
        invariant Compare(x, y) == Compare(x[i..], y[i..])
      {
        var p, q := BitAt(words, i), BitAt(b.words, i);
        assert x[i..][0] == p && y[i..][0] == q;
        if p != q {
          return if q then -1 else 1;
        }
        assert x[i..][1..] == x[i + 1..] && y[i..][1..] == y[i + 1..];
        i := i + 1;
      }
      c := if len == b.len then 0 else if len < b.len then -1 else 1;
    }

    method Equals(b: BitArray) returns (r: bool)
      requires Valid() && b.Valid()
      ensures r == Equal(Bits(), b.Bits())
    {
      var c := CompareTo(b);
      r := c == 0;
    }

    method NotEquals(b: BitArray) returns (r: bool)
      requires Valid() && b.Valid()
      ensures r == NotEqual(Bits(), b.Bits())
    {
      var c := CompareTo(b);
      r := c != 0;
    }

    method LessThan(b: BitArray) returns (r: bool)
      requires Valid() && b.Valid()
      ensures r == Less(Bits(), b.Bits())
    {
      var c := CompareTo(b);
      r := c < 0;
    }

    method AtMost(b: BitArray) returns (r: bool)
      requires Valid() && b.Valid()
      ensures r == LessEq(Bits(), b.Bits())
    {
      var c := CompareTo(b);
      r := c <= 0;
    }

    method GreaterThan(b: BitArray) returns (r: bool)
      requires Valid() && b.Valid()
      ensures r == Greater(Bits(), b.Bits())
    {
      var c := CompareTo(b);
      r := c > 0;
    }

    method AtLeast(b: BitArray) returns (r: bool)
      requires Valid() && b.Valid()
      ensures r == GreaterEq(Bits(), b.Bits())
    {
      var c := CompareTo(b);
      r := c >= 0;
    }

    // -------------------------------------------------------------------------
    // Text
    // -------------------------------------------------------------------------

    /** to_string(): one '0' or '1' per bit in use, bit 0 first. */
    method ToString() returns (s: string)
      requires Valid()
      ensures s == BitSeq.ToString(Bits())
    {
      ghost var bits := Bits();
      s := [];
      var p := 0;
      while p < len
        invariant p <= len && |s| == p
        invariant forall q :: 0 <= q < p ==> s[q] == CharOf(bits[q])
      {
        s := s + [CharOf(BitAt(words, p))];
        p := p + 1;
      }
    }

    /** operator>>: skip whitespace, then read the maximal run of '0'/'1'
        characters into this array, replacing its contents.  Fails, and leaves
        the array as it was, when no bit character follows the whitespace. */
    method ReadFrom(input: string) returns (ok: bool, rest: string)
      requires Valid()
      modifies this
      ensures Valid()
      ensures ok == Extract(input).Extracted? && rest == Extract(input).rest
      ensures Bits() == if ok then Extract(input).bits else old(Bits())
      ensures !ok ==> words == old(words) && len == old(len)
    {
      var i := 0;
      while i < |input| && IsSpace(input[i])
        invariant i <= |input| && unchanged(this)
        invariant SkipSpaces(input, i) == SkipSpaces(input, 0)
      {
        i := i + 1;
      }
      var j := i;
      var ws: seq<Word>, n := [], 0;
      while j < |input| && IsBitChar(input[j])
        invariant i <= j <= |input| && unchanged(this)
        invariant BitRunEnd(input, j) == BitRunEnd(input, i)
        invariant WellFormed(ws, n) && Decode(ws, n) == BitsOfChars(input[i..j])
      {
        assert BitsOfChars(input[i..j + 1]) == BitsOfChars(input[i..j]) + [input[j] == '1'];
        ws, n := PushBit(ws, n, input[j] == '1');
        j := j + 1;
      }
      if j == i {
        return false, input[i..];
      }
      words, len := ws, n;
      return true, input[j..];
    }
  }

  /** BitArray(string): accept only '0' and '1'; otherwise report the first
      other character, before any bit is stored. */
  method FromString(s: string) returns (r: Result<BitArray>)
    ensures r.Ok? <==> Parse(s).Ok?
    ensures r.Err? ==> Parse(s) == Err(r.error)
    ensures r.Ok? ==> fresh(r.value) && r.value.Valid() && Parse(s) == Ok(r.value.Bits())
  {
    var i := 0;
    while i < |s| && IsBitChar(s[i])
      invariant i <= |s|
      invariant forall k :: 0 <= k < i ==> IsBitChar(s[k])
    {
      i := i + 1;
    }
    if i < |s| {
      ParseRejects(s, i);
      return Err(BadChar(s[i]));
    }
    ParseAccepts(s);
    var a := new BitArray(0);
    var j := 0;
    while j < |s|
      invariant j <= |s|
      invariant fresh(a) && a.Valid() && a.Bits() == BitsOfChars(s[..j])
    {
      assert BitsOfChars(s[..j + 1]) == BitsOfChars(s[..j]) + [s[j] == '1'];
      a.Append(s[j] == '1');
      j := j + 1;
    }
    assert s[..j] == s;
    r := Ok(a);
  }
}
