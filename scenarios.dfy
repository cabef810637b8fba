/** Worked cases of the bit array's contract, on concrete bit strings. */
module Scenarios {
  import opened Results
  import opened BitSeq
  import opened BitArrays
  import opened Words

  lemma CountExample()
    ensures Parse("1011") == Ok([true, false, true, true])
    ensures Count([true, false, true, true]) == 3
  {
    var s := [true, false, true, true];
    ParseAccepts("1011");
    assert BitsOfChars("1011") == s;
    assert [true][..0] == [] && Count([true]) == 1;
    assert [true, false][..1] == [true] && Count([true, false]) == 1;
    assert [true, false, true][..2] == [true, false] && Count([true, false, true]) == 2;
    assert s[..3] == [true, false, true];
  }

  lemma ParseRejectsSpace()
    ensures Parse("10 1") == Err(BadChar(' '))
    ensures Parse("") == Ok([])
  {
  }

  /** "10" > "01", a proper prefix sorts first ("1" < "10"), and "0" == "0". */
  lemma CompareExamples()
    ensures Greater([true, false], [false, true])
    ensures Less([true], [true, false])
    ensures Equal([false], [false])
  {
  }

  /** 1100 << 1 is 1000 and 1100 >> 1 is 0110: the length stays 4. */
  lemma ShiftExamples()
    ensures ShiftedLeft([true, true, false, false], 1) == [true, false, false, false]
    ensures ShiftedRight([true, true, false, false], 1) == [false, true, true, false]
  {
    var s := [true, true, false, false];
    assert Zeros(1) == [false];
    assert s[1..] == [true, false, false];
    assert s[..3] == [true, true, false];
  }

  /** Reading "  101xyz" skips the blanks, takes 101 and leaves xyz. */
  lemma ExtractExample()
    ensures Extract("  101xyz") == Extracted([true, false, true], "xyz")
  {
    var input := "  101xyz";
    assert SkipSpaces(input, 0) == 2;
    assert BitRunEnd(input, 2) == 5;
    assert input[2..5] == "101";
    assert input[5..] == "xyz";
  }

  /** Erasing 2 bits at position 1 of 10110 leaves 110. */
  lemma EraseExample()
    ensures Erased([true, false, true, true, false], 1, 2) == [true, true, false]
  {
  }

  /** Build "101" from its string, append a 1, and read back "1011" with count 3. */
  method AppendScenario() returns (s: string, n: nat)
    ensures s == "1011" && n == 3
  {
    var r := FromString("101");
    ParseAccepts("101");
    assert BitsOfChars("101") == [true, false, true];
    var a := r.value;
    a.Append(true);
    s := a.ToString();
    assert a.Bits() == [true, false, true, true];
    assert s == "1011";
    n := a.Count();
    CountExample();
    assert n == 3;
  }

  /** Write then read at the same position returns what was written. */
  method WriteThenRead(a: BitArray, pos: nat, v: bool) returns (r: Result<bool>)
    requires a.Valid() && pos < a.Size()
    modifies a
    ensures r == Ok(v)
  {
    var _ := a.AssignBit(pos, v);
    r := a.ReadBit(pos);
  }

  /** insert(pos, v) followed by erase(pos) restores the array. */
  method InsertThenErase(a: BitArray, pos: nat, v: bool)
    requires a.Valid() && pos <= a.Size()
    modifies a
    ensures a.Valid() && a.Bits() == old(a.Bits())
  {
    ghost var before := a.Bits();
    var _ := a.Insert(pos, v);
    var _ := a.Erase(pos);
    EraseUndoesInsert(before, pos, [v]);
  }

  /** shrink_to_fit() is idempotent: a second call changes nothing. */
  method ShrinkTwice(a: BitArray)
    requires a.Valid()
    modifies a
    ensures a.Valid() && a.Bits() == old(a.Bits()) && |a.words| == WordsFor(a.len)
  {
    a.ShrinkToFit();
    ghost var once := a.words;
    a.ShrinkToFit();
    assert a.words == once;
  }
}
