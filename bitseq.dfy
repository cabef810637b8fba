/** The abstract value of a bit array: the sequence of its bits, bit 0 first.
    Every `const` query of the class (counting, complement, shifts, slicing,
    comparison, string conversion) is defined here as a function of that
    sequence, together with the properties the class promises about it. */
module BitSeq {
  import opened Results

  // ---------------------------------------------------------------------------
  // Counting: count() and any()
  // ---------------------------------------------------------------------------

  /** The number of 1-bits in `s`. */
  function Count(s: seq<bool>): (c: nat)
    ensures c <= |s|
  {
    if s == [] then 0 else Count(s[..|s| - 1]) + (if s[|s| - 1] then 1 else 0)
  }

  lemma {:induction false} CountAppend(a: seq<bool>, b: seq<bool>)
    ensures Count(a + b) == Count(a) + Count(b)
    decreases |b|
  {
    if b == [] {
      assert a + b == a;
    } else {
      assert (a + b)[..|a + b| - 1] == a + b[..|b| - 1];
      CountAppend(a, b[..|b| - 1]);
    }
  }

  /** any() is "count() > 0": some bit is set exactly when the count is positive. */
  lemma {:induction false} AnyIffCountPositive(s: seq<bool>)
    ensures Count(s) > 0 <==> exists i :: 0 <= i < |s| && s[i]
  {
    if s != [] {
      var t := s[..|s| - 1];
      AnyIffCountPositive(t);
      if Count(t) > 0 {
        var i :| 0 <= i < |t| && t[i];
        assert s[i];
      }
      if exists i :: 0 <= i < |s| && s[i] {
        var i :| 0 <= i < |s| && s[i];
        if i < |t| { assert t[i]; }
      }
    }
  }

  /** A sequence of `n` zero bits: what the sized constructor holds. */
  function Zeros(n: nat): (z: seq<bool>)
    ensures |z| == n && Count(z) == 0
  {
    if n == 0 then [] else Zeros(n - 1) + [false]
  }

  lemma {:induction false} ZerosAt(n: nat, i: nat)
    requires i < n
    ensures !Zeros(n)[i]
  {
    if i < n - 1 {
      ZerosAt(n - 1, i);
    }
  }

  // ---------------------------------------------------------------------------
  // Complement: operator~ and toggle()
  // ---------------------------------------------------------------------------

  /** Every bit flipped. */
  function Complement(s: seq<bool>): (r: seq<bool>)
    ensures |r| == |s|
  {
    seq(|s|, i requires 0 <= i < |s| => !s[i])
  }

  lemma ComplementInvolution(s: seq<bool>)
    ensures Complement(Complement(s)) == s
  {
  }

  /** Complementing turns every 0 into a 1 and back: the 1-bits of ~s are the 0-bits of s. */
  lemma {:induction false} CountComplement(s: seq<bool>)
    ensures Count(Complement(s)) == |s| - Count(s)
  {
    if s != [] {
      var t := s[..|s| - 1];
      assert Complement(s)[..|s| - 1] == Complement(t);
      CountComplement(t);
    }
  }

  // ---------------------------------------------------------------------------
  // Insertion, erasure and extraction
  // ---------------------------------------------------------------------------

  /** `t` spliced in at `pos`; the bits at and after `pos` slide up by |t|. */
  function Inserted(s: seq<bool>, pos: nat, t: seq<bool>): (r: seq<bool>)
    requires pos <= |s|
    ensures |r| == |s| + |t|
  {
    s[..pos] + t + s[pos..]
  }

  /** The bits [pos, pos + n) removed and the gap closed. */
  function Erased(s: seq<bool>, pos: nat, n: nat): (r: seq<bool>)
    requires pos + n <= |s|
    ensures |r| == |s| - n
  {
    s[..pos] + s[pos + n..]
  }

  lemma InsertedAt(s: seq<bool>, pos: nat, t: seq<bool>, i: nat)
    requires pos <= |s| && i < |s| + |t|
    ensures |Inserted(s, pos, t)| == |s| + |t|
    ensures Inserted(s, pos, t)[i] ==
              if i < pos then s[i] else if i < pos + |t| then t[i - pos] else s[i - |t|]
  {
  }

  lemma ErasedAt(s: seq<bool>, pos: nat, n: nat, i: nat)
    requires pos + n <= |s| && i < |s| - n
    ensures |Erased(s, pos, n)| == |s| - n
    ensures Erased(s, pos, n)[i] == if i < pos then s[i] else s[i + n]
  {
  }

  /** Erasing what was just inserted, at the same position, restores the original. */
  lemma EraseUndoesInsert(s: seq<bool>, pos: nat, t: seq<bool>)
    requires pos <= |s|
    ensures Erased(Inserted(s, pos, t), pos, |t|) == s
  {
    var u := Inserted(s, pos, t);
    assert u[..pos] == s[..pos];
    assert u[pos + |t|..] == s[pos..];
    assert s[..pos] + s[pos..] == s;
  }

  /** The sub-array [pos, pos + n), or OutOfRange when that span leaves the array. */
  function Slice(s: seq<bool>, pos: nat, n: nat): (r: Result<seq<bool>>)
    ensures r.Ok? <==> pos + n <= |s|
    ensures r.Ok? ==> |r.value| == n && forall i :: 0 <= i < n ==> r.value[i] == s[pos + i]
  {
    if pos + n <= |s| then Ok(s[pos..pos + n]) else Err(OutOfRange)
  }

  // ---------------------------------------------------------------------------
  // Logical shifts.  Convention: `<<` moves every bit toward index 0 and fills
  // the high end with zeros; `>>` moves every bit toward the high end and fills
  // the low end with zeros.  The length never changes.
  // ---------------------------------------------------------------------------

  function ShiftedLeft(s: seq<bool>, k: nat): (r: seq<bool>)
    ensures |r| == |s|
  {
    if k >= |s| then Zeros(|s|) else s[k..] + Zeros(k)
  }

  function ShiftedRight(s: seq<bool>, k: nat): (r: seq<bool>)
    ensures |r| == |s|
  {
    if k >= |s| then Zeros(|s|) else Zeros(k) + s[..|s| - k]
  }

  /** Bit i of s << k is bit i + k of s, or 0 past the end. */
  lemma ShiftedLeftAt(s: seq<bool>, k: nat, i: nat)
    requires i < |s|
    ensures ShiftedLeft(s, k)[i] == (i + k < |s| && s[i + k])
  {
    if k >= |s| {
      ZerosAt(|s|, i);
    } else {
      var kept := s[k..];
      assert ShiftedLeft(s, k) == kept + Zeros(k);
      if i < |kept| {
        assert kept[i] == s[i + k];
      } else {
        ZerosAt(k, i - |kept|);
      }
    }
  }

  /** Bit i of s >> k is bit i - k of s, or 0 below k. */
  lemma ShiftedRightAt(s: seq<bool>, k: nat, i: nat)
    requires i < |s|
    ensures ShiftedRight(s, k)[i] == (i >= k && s[i - k])
  {
    if k >= |s| {
      ZerosAt(|s|, i);
    } else {
      var z, kept := Zeros(k), s[..|s| - k];
      assert ShiftedRight(s, k) == z + kept;
      if i < k {
        ZerosAt(k, i);
        assert (z + kept)[i] == z[i];
      } else {
        assert (z + kept)[i] == kept[i - k] == s[i - k];
      }
    }
  }

  lemma ShiftByZero(s: seq<bool>)
    ensures ShiftedLeft(s, 0) == s && ShiftedRight(s, 0) == s
  {
    assert s[0..] == s;
    assert s[..|s| - 0] == s;
  }

  /** Shifting by the length or more clears every bit and keeps the length. */
  lemma ShiftSaturates(s: seq<bool>, k: nat)
    requires k >= |s|
    ensures ShiftedLeft(s, k) == Zeros(|s|) && ShiftedRight(s, k) == Zeros(|s|)
  {
  }

  lemma ShiftLeftTwiceAt(s: seq<bool>, a: nat, b: nat, i: nat)
    requires i < |s|
    ensures ShiftedLeft(ShiftedLeft(s, a), b)[i] == ShiftedLeft(s, a + b)[i]
  {
    ShiftedLeftAt(ShiftedLeft(s, a), b, i);
    ShiftedLeftAt(s, a + b, i);
    if i + b < |s| {
      ShiftedLeftAt(s, a, i + b);
    }
  }

  lemma ShiftRightTwiceAt(s: seq<bool>, a: nat, b: nat, i: nat)
    requires i < |s|
    ensures ShiftedRight(ShiftedRight(s, a), b)[i] == ShiftedRight(s, a + b)[i]
  {
    ShiftedRightAt(ShiftedRight(s, a), b, i);
    ShiftedRightAt(s, a + b, i);
    if i >= b {
      ShiftedRightAt(s, a, i - b);
    }
  }

  /** Two shifts in the same direction are one shift by the sum (saturating at all zeros). */
  lemma ShiftLeftTwice(s: seq<bool>, a: nat, b: nat)
    ensures ShiftedLeft(ShiftedLeft(s, a), b) == ShiftedLeft(s, a + b)
  {
    forall i | 0 <= i < |s|
      ensures ShiftedLeft(ShiftedLeft(s, a), b)[i] == ShiftedLeft(s, a + b)[i]
    {
      ShiftLeftTwiceAt(s, a, b, i);
    }
  }

  lemma ShiftRightTwice(s: seq<bool>, a: nat, b: nat)
    ensures ShiftedRight(ShiftedRight(s, a), b) == ShiftedRight(s, a + b)
  {
    forall i | 0 <= i < |s|
      ensures ShiftedRight(ShiftedRight(s, a), b)[i] == ShiftedRight(s, a + b)[i]
    {
      ShiftRightTwiceAt(s, a, b, i);
    }
  }

  // ---------------------------------------------------------------------------
  // Comparison: dictionary order on the 0/1 strings
  // ---------------------------------------------------------------------------

  /** Three-way lexicographic comparison, 0 before 1, a proper prefix first.
      All six comparison operators are derived from this one function. */
  function Compare(a: seq<bool>, b: seq<bool>): (c: int)
    ensures -1 <= c <= 1
  {
    if a == [] then (if b == [] then 0 else -1)
    else if b == [] then 1
    else if a[0] != b[0] then (if b[0] then -1 else 1)
    else Compare(a[1..], b[1..])
  }

  predicate Equal(a: seq<bool>, b: seq<bool>)     { Compare(a, b) == 0 }
  predicate NotEqual(a: seq<bool>, b: seq<bool>)  { Compare(a, b) != 0 }
  predicate Less(a: seq<bool>, b: seq<bool>)      { Compare(a, b) < 0 }
  predicate LessEq(a: seq<bool>, b: seq<bool>)    { Compare(a, b) <= 0 }
  predicate Greater(a: seq<bool>, b: seq<bool>)   { Compare(a, b) > 0 }
  predicate GreaterEq(a: seq<bool>, b: seq<bool>) { Compare(a, b) >= 0 }

  /** Dictionary order stated directly: `a` is a proper prefix of `b`, or at the
      first position where they differ `a` has a 0 and `b` a 1. */
  ghost predicate LexLess(a: seq<bool>, b: seq<bool>)
  {
    (|a| < |b| && a == b[..|a|]) ||
    exists k :: 0 <= k < |a| && k < |b| && a[..k] == b[..k] && !a[k] && b[k]
  }

  lemma LexLessTail(a: seq<bool>, b: seq<bool>)
    requires a != [] && b != [] && a[0] == b[0]
    ensures LexLess(a, b) <==> LexLess(a[1..], b[1..])
  {
    var a', b' := a[1..], b[1..];
    if |a| < |b| {
      if a == b[..|a|] {
        assert a' == b'[..|a'|];
      }
      if a' == b'[..|a'|] {
        assert a == [a[0]] + a' && b[..|a|] == [b[0]] + b'[..|a'|];
      }
    }
    if k :| 0 <= k < |a| && k < |b| && a[..k] == b[..k] && !a[k] && b[k] {
      assert k > 0;
      assert a'[..k - 1] == a[1..k] && b'[..k - 1] == b[1..k];
      assert a'[k - 1] == a[k] && b'[k - 1] == b[k];
    }
    if k :| 0 <= k < |a'| && k < |b'| && a'[..k] == b'[..k] && !a'[k] && b'[k] {
      assert a[..k + 1] == [a[0]] + a'[..k] && b[..k + 1] == [b[0]] + b'[..k];
      assert !a[k + 1] && b[k + 1];
    }
  }

  lemma LexLessHead(a: seq<bool>, b: seq<bool>)
    requires a != [] && b != [] && !a[0] && b[0]
    ensures LexLess(a, b) && !LexLess(b, a)
  {
    assert a[..0] == b[..0];
  }

  /** Compare agrees with dictionary order, in all three outcomes. */
  lemma {:induction false} CompareIsLexOrder(a: seq<bool>, b: seq<bool>)
    ensures Compare(a, b) == 0 <==> a == b
    ensures Compare(a, b) < 0 <==> LexLess(a, b)
    ensures Compare(a, b) > 0 <==> LexLess(b, a)
  {
    if a == [] || b == [] {
      assert a == [] ==> a == b[..|a|];
      assert b == [] ==> b == a[..|b|];
    } else if a[0] != b[0] {
      if b[0] { LexLessHead(a, b); } else { LexLessHead(b, a); }
    } else {
      CompareIsLexOrder(a[1..], b[1..]);
      LexLessTail(a, b);
      LexLessTail(b, a);
      if a[1..] == b[1..] {
        assert a == [a[0]] + a[1..] && b == [b[0]] + b[1..];
      }
    }
  }

  lemma {:induction false} CompareAntisymmetric(a: seq<bool>, b: seq<bool>)
    ensures Compare(b, a) == -Compare(a, b)
  {
    if a != [] && b != [] && a[0] == b[0] {
      CompareAntisymmetric(a[1..], b[1..]);
    }
  }

  lemma {:induction false} LessTransitive(a: seq<bool>, b: seq<bool>, c: seq<bool>)
    requires Less(a, b) && Less(b, c)
    ensures Less(a, c)
  {
    if a != [] && a[0] == b[0] && b[0] == c[0] {
      LessTransitive(a[1..], b[1..], c[1..]);
    }
  }

  /** The six operators are mutually consistent and totally order bit arrays. */
  lemma OperatorsConsistent(a: seq<bool>, b: seq<bool>)
    ensures Equal(a, b) <==> a == b
    ensures NotEqual(a, b) <==> !Equal(a, b)
    ensures LessEq(a, b) <==> Less(a, b) || Equal(a, b)
    ensures Greater(a, b) <==> Less(b, a)
    ensures GreaterEq(a, b) <==> !Less(a, b)
    ensures GreaterEq(a, b) <==> LessEq(b, a)
    ensures Less(a, b) || Equal(a, b) || Greater(a, b)
    ensures !(Less(a, b) && Less(b, a))
  {
    CompareIsLexOrder(a, b);
    CompareAntisymmetric(a, b);
  }

  // ---------------------------------------------------------------------------
  // String conversion: to_string() and the string constructor
  // ---------------------------------------------------------------------------

  predicate IsBitChar(c: char) { c == '0' || c == '1' }

  function CharOf(b: bool): (c: char)
  {
    if b then '1' else '0'
  }

  /** One '0' or '1' per bit, bit 0 first. */
  function ToString(s: seq<bool>): (r: string)
    ensures |r| == |s|
  {
    seq(|s|, i requires 0 <= i < |s| => CharOf(s[i]))
  }

  /** The bits a string of '0'/'1' characters spells out ('1' is a set bit). */
  function BitsOfChars(str: string): (r: seq<bool>)
    ensures |r| == |str|
  {
    seq(|str|, i requires 0 <= i < |str| => str[i] == '1')
  }

  /** The string constructor: only '0' and '1' are accepted; the first other
      character, whitespace included, is reported. */
  function Parse(str: string): (r: Result<seq<bool>>)
    ensures r.Ok? ==> |r.value| == |str|
    ensures r.Err? ==> r.error.BadChar? && r.error.c in str && !IsBitChar(r.error.c)
  {
    if str == [] then Ok([])
    else if !IsBitChar(str[0]) then Err(BadChar(str[0]))
    else match Parse(str[1..])
      case Ok(t) => Ok([str[0] == '1'] + t)
      case Err(e) => Err(e)
  }

  /** Parse accepts exactly the all-bit strings, and then yields their bits. */
  lemma {:induction false} ParseAccepts(str: string)
    requires forall i :: 0 <= i < |str| ==> IsBitChar(str[i])
    ensures Parse(str) == Ok(BitsOfChars(str))
  {
    if str != [] {
      ParseAccepts(str[1..]);
      assert BitsOfChars(str) == [str[0] == '1'] + BitsOfChars(str[1..]);
    }
  }

  /** Parse rejects a string at its first non-bit character, and names it. */
  lemma {:induction false} ParseRejects(str: string, k: nat)
    requires k < |str| && !IsBitChar(str[k])
    requires forall i :: 0 <= i < k ==> IsBitChar(str[i])
    ensures Parse(str) == Err(BadChar(str[k]))
  {
    if k > 0 {
      ParseRejects(str[1..], k - 1);
    }
  }

  /** Reading back what to_string() wrote reproduces the bits. */
  lemma ParseToString(s: seq<bool>)
    ensures Parse(ToString(s)) == Ok(s)
  {
    ParseAccepts(ToString(s));
    assert BitsOfChars(ToString(s)) == s;
  }

  /** A successful parse is undone by to_string(). */
  lemma {:induction false} ToStringParse(str: string)
    requires Parse(str).Ok?
    ensures ToString(Parse(str).value) == str
  {
    if str != [] {
      ToStringParse(str[1..]);
      var t := Parse(str[1..]).value;
      assert ToString([str[0] == '1'] + t) == [str[0]] + ToString(t);
    }
  }

  /** The number of occurrences of character `c` in `str`. */
  function Occurrences(c: char, str: string): (n: nat)
    ensures n <= |str|
  {
    if str == [] then 0 else Occurrences(c, str[..|str| - 1]) + (if str[|str| - 1] == c then 1 else 0)
  }

  /** count() is the number of '1' characters in to_string(). */
  lemma {:induction false} CountIsOnesInString(s: seq<bool>)
    ensures Count(s) == Occurrences('1', ToString(s))
  {
    if s != [] {
      assert ToString(s)[..|s| - 1] == ToString(s[..|s| - 1]);
      CountIsOnesInString(s[..|s| - 1]);
    }
  }

  /** Character order on strings, the order the comparisons imitate. */
  function StrCompare(x: string, y: string): (c: int)
    ensures -1 <= c <= 1
  {
    if x == [] then (if y == [] then 0 else -1)
    else if y == [] then 1
    else if x[0] != y[0] then (if x[0] < y[0] then -1 else 1)
    else StrCompare(x[1..], y[1..])
  }

  /** Bit arrays compare "as if they were strings": exactly as their to_string() images do. */
  lemma {:induction false} CompareAsStrings(a: seq<bool>, b: seq<bool>)
    ensures Compare(a, b) == StrCompare(ToString(a), ToString(b))
  {
    if a != [] && b != [] {
      assert ToString(a)[1..] == ToString(a[1..]);
      assert ToString(b)[1..] == ToString(b[1..]);
      CompareAsStrings(a[1..], b[1..]);
    }
  }

  // ---------------------------------------------------------------------------
  // Stream extraction: operator>>
  // ---------------------------------------------------------------------------

  /** The characters the stream's whitespace skipping passes over. */
  predicate IsSpace(c: char)
  {
    c == ' ' || c == '\t' || c == '\n' || c == '\r' || c == '\U{000B}' || c == '\U{000C}'
  }

  /** The index of the first non-whitespace character at or after `i`. */
  function SkipSpaces(str: string, i: nat): (j: nat)
    requires i <= |str|
    ensures i <= j <= |str|
    ensures forall k :: i <= k < j ==> IsSpace(str[k])
    ensures j == |str| || !IsSpace(str[j])
    decreases |str| - i
  {
    if i == |str| || !IsSpace(str[i]) then i else SkipSpaces(str, i + 1)
  }

  /** The end of the maximal run of '0'/'1' characters that starts at `i`. */
  function BitRunEnd(str: string, i: nat): (j: nat)
    requires i <= |str|
    ensures i <= j <= |str|
    ensures forall k :: i <= k < j ==> IsBitChar(str[k])
    ensures j == |str| || !IsBitChar(str[j])
    decreases |str| - i
  {
    if i == |str| || !IsBitChar(str[i]) then i else BitRunEnd(str, i + 1)
  }

  /** What operator>> makes of its input: the bits read and the unconsumed rest,
      or a failure (with the whitespace consumed) when no bit character follows. */
  datatype Extraction = Extracted(bits: seq<bool>, rest: string) | NoBits(rest: string)

  function Extract(input: string): (r: Extraction)
    ensures |r.rest| <= |input|
    ensures r.Extracted? ==> r.bits != [] && |r.bits| + |r.rest| <= |input|
  {
    var j := SkipSpaces(input, 0);
    var e := BitRunEnd(input, j);
    if e == j then NoBits(input[j..]) else Extracted(BitsOfChars(input[j..e]), input[e..])
  }

  /** Extract skips leading whitespace, reads a non-empty maximal run of bits
      and leaves everything after it; it fails exactly when that run is empty. */
  lemma ExtractSplits(input: string)
    ensures var j := SkipSpaces(input, 0);
      (forall k :: 0 <= k < j ==> IsSpace(input[k])) &&
      match Extract(input)
      case Extracted(bits, rest) =>
        bits != [] && input == input[..j] + ToString(bits) + rest &&
        (rest == [] || !IsBitChar(rest[0]))
      case NoBits(rest) =>
        rest == input[j..] && (rest == [] || !IsBitChar(rest[0]))
  {
    var j := SkipSpaces(input, 0);
    var e := BitRunEnd(input, j);
    if e != j {
      var str := input[j..e];
      assert ToString(BitsOfChars(str)) == str;
      assert input == input[..j] + str + input[e..];
    }
  }
}
