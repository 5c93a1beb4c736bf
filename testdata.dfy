/**
 * The output of make-test-data, the generator of the tool's test files:
 * the integers 0..max, in order, without the one given as the empty slot,
 * written with %d and separated by ", " (",\n" after every sixteenth value).
 * Parsing that text and running the finder on it gives the empty slot back.
 */
module TestData {
  import opened Finder
  import opened NumberParser

  /** The values printed for i = from, ..., count - 1, skipping emptySlot. */
  function Values(count: nat, emptySlot: int, from: nat): seq<int>
    decreases count - from
  {
    if from >= count then []
    else (if from == emptySlot then [] else [from as int]) + Values(count, emptySlot, from + 1)
  }

  /** What follows the value i: nothing after the last one, else ", " or, every sixteenth, ",\n". */
  function Separator(count: nat, i: nat): string {
    if i == count - 1 then ""
    else if i % 16 != 0 || i == 0 then ", "
    else ",\n"
  }

  /** The text the printing loop writes for i = from, ..., count - 1. */
  function Body(count: nat, emptySlot: int, from: nat): string
    decreases count - from
  {
    if from >= count then []
    else (if from == emptySlot then [] else Decimal(from) + Separator(count, from)) + Body(count, emptySlot, from + 1)
  }

  /**
   * The whole output for options -m max and -e emptySlot: the loop runs
   * i over 0..max (the option's value plus one is its bound), and a final
   * newline follows.
   */
  function GeneratedText(max: nat, emptySlot: int): string {
    Body(max + 1, emptySlot, 0) + "\n"
  }

  lemma {:induction false} MemberOfValues(count: nat, emptySlot: int, from: nat, k: int)
    ensures k in Values(count, emptySlot, from) <==> from <= k < count && k != emptySlot
    decreases count - from
  {
    if from < count {
      MemberOfValues(count, emptySlot, from + 1, k);
    }
  }

  /** The finder's answer on the generated values is the empty slot, or max + 1 when the slot is outside 0..max. */
  lemma SmallestFreeOfValues(max: nat, emptySlot: int)
    ensures SmallestFree(Values(max + 1, emptySlot, 0)) == if 0 <= emptySlot <= max then emptySlot else max + 1
  {
    var s := Values(max + 1, emptySlot, 0);
    var r := if 0 <= emptySlot <= max then emptySlot else max + 1;
    MemberOfValues(max + 1, emptySlot, 0, r);
    forall k | 0 <= k < r
      ensures k in s
    {
      MemberOfValues(max + 1, emptySlot, 0, k);
    }
    SmallestFreeUnique(s, r);
  }

  lemma SeparatorIsDelimiters(count: nat, i: nat)
    ensures forall j :: 0 <= j < |Separator(count, i)| ==> IsDelimiter(Separator(count, i)[j])
  {
  }

  /** Parsing the text the loop writes from i = from on, with the final newline, gives the values it prints. */
  lemma {:induction false} ParsedBody(count: nat, emptySlot: int, from: nat)
    ensures ParsedValues(Body(count, emptySlot, from) + "\n") == Values(count, emptySlot, from)
    decreases count - from
  {
    var text := Body(count, emptySlot, from) + "\n";
    if from >= count {
      assert text == "\n" + [];
      TokensSkipDelimiters("\n", []);
    } else {
      ParsedBody(count, emptySlot, from + 1);
      var later := Body(count, emptySlot, from + 1) + "\n";
      if from == emptySlot {
        assert text == later;
      } else {
        var sep := Separator(count, from);
        var rest := sep + later;
        assert text == Decimal(from) + rest;
        SeparatorIsDelimiters(count, from);
        if sep == "" {
          assert Body(count, emptySlot, from + 1) == [];
          assert rest == "\n";
        }
        TokensAfterToken(Decimal(from), rest);
        TokensSkipDelimiters(sep, later);
        AtoiOfDecimal(from, []);
        assert Decimal(from) + [] == Decimal(from);
        var ts := Tokens(later);
        assert ([Decimal(from)] + ts)[1..] == ts;
      }
    }
  }

  /**
   * Round trip through the test-data generator: the file written for -m max
   * -e emptySlot parses to the integers 0..max without emptySlot, and the
   * smallest free number of those is emptySlot (max + 1 if it is not in 0..max).
   */
  lemma GeneratedFileRoundTrip(max: nat, emptySlot: int)
    ensures ParsedValues(GeneratedText(max, emptySlot)) == Values(max + 1, emptySlot, 0)
    ensures SmallestFree(ParsedValues(GeneratedText(max, emptySlot))) ==
      if 0 <= emptySlot <= max then emptySlot else max + 1
  {
    ParsedBody(max + 1, emptySlot, 0);
    SmallestFreeOfValues(max, emptySlot);
  }
}
