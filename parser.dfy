/**
 * The tokenizer of ReadNumbersFile, over the text of the numbers file held in
 * memory: strtok splits the text on the delimiter set " ,;|\t\n", atoi turns
 * each token into an int, and the values are appended to a heap array that
 * grows by 4096 slots whenever it fills up.
 */
module NumberParser {
  import opened CInt

  // ---------------------------------------------------------------------
  // strtok
  // ---------------------------------------------------------------------

  /** TOKEN_DELIMITERS */
  const TokenDelimiters: string := " ,;|\t\n"

  predicate IsDelimiter(c: char) {
    c in TokenDelimiters
  }

  /** What strtok can return: a non-empty run of non-delimiters. */
  predicate IsToken(t: string) {
    |t| > 0 && forall i :: 0 <= i < |t| ==> !IsDelimiter(t[i])
  }

  /** The length of the longest prefix of s free of delimiters. */
  function TokenLength(s: string): (n: nat)
    ensures n <= |s|
    ensures forall i :: 0 <= i < n ==> !IsDelimiter(s[i])
    ensures n == |s| || IsDelimiter(s[n])
  {
    if s == [] || IsDelimiter(s[0]) then 0 else 1 + TokenLength(s[1..])
  }

  /**
   * The successive results of strtok(s, TOKEN_DELIMITERS), strtok(NULL, ...),
   * ...: delimiters are skipped, each maximal run of other characters is one
   * token, and so no token is empty.
   */
  function Tokens(s: string): seq<string>
    decreases |s|
  {
    if s == [] then []
    else if IsDelimiter(s[0]) then Tokens(s[1..])
    else
      var n := TokenLength(s);
      [s[..n]] + Tokens(s[n..])
  }

  /** A delimiter-free prefix that ends at a delimiter or at the end is the token's full length. */
  lemma TokenLengthExact(s: string, k: nat)
    requires k <= |s|
    requires forall i :: 0 <= i < k ==> !IsDelimiter(s[i])
    requires k == |s| || IsDelimiter(s[k])
    ensures TokenLength(s) == k
  {
  }

  /** A token followed by a delimiter (or by nothing) is strtok's next result. */
  lemma TokensAfterToken(t: string, rest: string)
    requires IsToken(t)
    requires rest == [] || IsDelimiter(rest[0])
    ensures Tokens(t + rest) == [t] + Tokens(rest)
  {
    var s := t + rest;
    TokenLengthExact(s, |t|);
    assert s[..|t|] == t && s[|t|..] == rest;
  }

  /** Leading delimiters produce no token. */
  lemma {:induction false} TokensSkipDelimiters(ds: string, rest: string)
    requires forall i :: 0 <= i < |ds| ==> IsDelimiter(ds[i])
    ensures Tokens(ds + rest) == Tokens(rest)
  {
    if ds != [] {
      assert (ds + rest)[0] == ds[0] && (ds + rest)[1..] == ds[1..] + rest;
      TokensSkipDelimiters(ds[1..], rest);
    } else {
      assert ds + rest == rest;
    }
  }

  /** Every token strtok returns is non-empty and free of delimiters. */
  lemma {:induction false} TokensAreTokens(s: string)
    ensures forall i :: 0 <= i < |Tokens(s)| ==> IsToken(Tokens(s)[i])
    decreases |s|
  {
    if s == [] {
    } else if IsDelimiter(s[0]) {
      TokensAreTokens(s[1..]);
    } else {
      var n := TokenLength(s);
      TokensAreTokens(s[n..]);
      assert IsToken(s[..n]);
    }
  }

  /** All characters of s but the delimiters, in order. */
  function NonDelimiters(s: string): string {
    if s == [] then []
    else if IsDelimiter(s[0]) then NonDelimiters(s[1..])
    else [s[0]] + NonDelimiters(s[1..])
  }

  function Concat(ts: seq<string>): string {
    if ts == [] then [] else ts[0] + Concat(ts[1..])
  }

  lemma {:induction false} NonDelimitersOfToken(s: string, n: nat)
    requires n <= |s|
    requires forall i :: 0 <= i < n ==> !IsDelimiter(s[i])
    ensures NonDelimiters(s) == s[..n] + NonDelimiters(s[n..])
  {
    if n > 0 {
      NonDelimitersOfToken(s[1..], n - 1);
      assert s[1..][..n - 1] == s[1..n];
      assert s[1..][n - 1..] == s[n..];
    }
  }

  /** Splitting loses and reorders nothing: the tokens, put together, are the text without its delimiters. */
  lemma {:induction false} TokensKeepText(s: string)
    ensures Concat(Tokens(s)) == NonDelimiters(s)
    decreases |s|
  {
    if s == [] {
    } else if IsDelimiter(s[0]) {
      TokensKeepText(s[1..]);
    } else {
      var n := TokenLength(s);
      TokensKeepText(s[n..]);
      NonDelimitersOfToken(s, n);
      assert ([s[..n]] + Tokens(s[n..]))[1..] == Tokens(s[n..]);
    }
  }

  /** ts written out with d between neighbours. */
  function Join(ts: seq<string>, d: char): string {
    if ts == [] then []
    else if |ts| == 1 then ts[0]
    else ts[0] + [d] + Join(ts[1..], d)
  }

  /** Tokenizing tokens joined by any delimiter gives the tokens back. */
  lemma {:induction false} TokensOfJoin(ts: seq<string>, d: char)
    requires forall i :: 0 <= i < |ts| ==> IsToken(ts[i])
    requires IsDelimiter(d)
    ensures Tokens(Join(ts, d)) == ts
  {
    if |ts| == 1 {
      TokensAfterToken(ts[0], []);
      assert ts[0] + [] == ts[0];
    } else if |ts| > 1 {
      var tail := Join(ts[1..], d);
      assert Join(ts, d) == ts[0] + ([d] + tail);
      TokensAfterToken(ts[0], [d] + tail);
      TokensSkipDelimiters([d], tail);
      TokensOfJoin(ts[1..], d);
      assert ts == [ts[0]] + ts[1..];
    }
  }

  // ---------------------------------------------------------------------
  // atoi
  // ---------------------------------------------------------------------

  /** isspace in the C locale: space, \t, \n, \v, \f and \r. */
  predicate IsSpace(c: char) {
    c == ' ' || c == '\t' || c == '\n' || c == '\U{B}' || c == '\U{C}' || c == '\r'
  }

  predicate IsDigit(c: char) {
    '0' <= c <= '9'
  }

  predicate AllDigits(d: string) {
    forall i :: 0 <= i < |d| ==> IsDigit(d[i])
  }

  /** The number of leading white-space characters. */
  function SpaceLength(s: string): (n: nat)
    ensures n <= |s|
  {
    if s != [] && IsSpace(s[0]) then 1 + SpaceLength(s[1..]) else 0
  }

  /** The length of the longest prefix of s that is all digits. */
  function DigitLength(s: string): (n: nat)
    ensures n <= |s|
    ensures AllDigits(s[..n])
    ensures n == |s| || !IsDigit(s[n])
  {
    if s != [] && IsDigit(s[0]) then 1 + DigitLength(s[1..]) else 0
  }

  /** The value of a string of decimal digits, most significant first. */
  function DigitsValue(d: string): nat
    requires AllDigits(d)
  {
    if d == [] then 0
    else 10 * DigitsValue(d[..|d| - 1]) + (d[|d| - 1] as int - '0' as int)
  }

  /** The value of the leading digits of s (0 when there are none). */
  function LeadingValue(s: string): nat {
    DigitsValue(s[..DigitLength(s)])
  }

  /**
   * atoi: skip white space, read an optional sign, then as many digits as
   * follow. Anything after them is ignored; with no digits the result is 0.
   * The result is the mathematical value: C leaves atoi undefined when it
   * does not fit an int, and ReadNumbers requires that it does.
   */
  function Atoi(s: string): int {
    var t := s[SpaceLength(s)..];
    if t != [] && t[0] == '-' then -(LeadingValue(t[1..]) as int)
    else if t != [] && t[0] == '+' then LeadingValue(t[1..])
    else LeadingValue(t)
  }

  /** printf's %d of a non-negative value. */
  function Decimal(n: nat): (d: string)
    ensures |d| > 0 && AllDigits(d)
  {
    if n < 10 then [(('0' as int) + n) as char]
    else Decimal(n / 10) + [(('0' as int) + n % 10) as char]
  }

  lemma {:induction false} DigitsValueOfDecimal(n: nat)
    ensures DigitsValue(Decimal(n)) == n
  {
    if n >= 10 {
      DigitsValueOfDecimal(n / 10);
      var d := Decimal(n);
      assert d[..|d| - 1] == Decimal(n / 10);
    }
  }

  lemma DigitLengthOfDigits(d: string, rest: string)
    requires AllDigits(d)
    requires rest == [] || !IsDigit(rest[0])
    ensures DigitLength(d + rest) == |d|
    ensures (d + rest)[..|d|] == d
  {
  }

  lemma LeadingValueOfDigits(d: string, rest: string)
    requires AllDigits(d)
    requires rest == [] || !IsDigit(rest[0])
    ensures LeadingValue(d + rest) == DigitsValue(d)
  {
    DigitLengthOfDigits(d, rest);
  }

  /** atoi of a digit string, unsigned or signed, followed by anything but a digit. */
  lemma AtoiOfDigits(d: string, rest: string)
    requires |d| > 0 && AllDigits(d)
    requires rest == [] || !IsDigit(rest[0])
    ensures Atoi(d + rest) == DigitsValue(d)
    ensures Atoi("-" + d + rest) == -(DigitsValue(d) as int)
    ensures Atoi("+" + d + rest) == DigitsValue(d)
  {
    LeadingValueOfDigits(d, rest);
    var s := d + rest;
    assert s[0] == d[0];
    assert SpaceLength(s) == 0;
    assert s[0..] == s;
    var minus := "-" + s;
    assert minus == "-" + d + rest;
    assert SpaceLength(minus) == 0 && minus[0..] == minus && minus[1..] == s;
    var plus := "+" + s;
    assert plus == "+" + d + rest;
    assert SpaceLength(plus) == 0 && plus[0..] == plus && plus[1..] == s;
  }

  /**
   * atoi reads back what %d writes, with or without a sign, and ignores
   * whatever follows the digits: "12", "-12", "+12" and "12abc" give 12,
   * -12, 12 and 12.
   */
  lemma AtoiOfDecimal(n: nat, rest: string)
    requires rest == [] || !IsDigit(rest[0])
    ensures Atoi(Decimal(n) + rest) == n
    ensures Atoi("-" + Decimal(n) + rest) == -(n as int)
    ensures Atoi("+" + Decimal(n) + rest) == n
  {
    AtoiOfDigits(Decimal(n), rest);
    DigitsValueOfDecimal(n);
  }

  lemma {:induction false} SpaceLengthOfSpaces(sp: string, s: string)
    requires forall i :: 0 <= i < |sp| ==> IsSpace(sp[i])
    ensures SpaceLength(sp + s) == |sp| + SpaceLength(s)
  {
    if sp != [] {
      assert (sp + s)[0] == sp[0] && (sp + s)[1..] == sp[1..] + s;
      SpaceLengthOfSpaces(sp[1..], s);
    } else {
      assert sp + s == s;
    }
  }

  /** Leading white space does not change atoi's result. */
  lemma AtoiSkipsSpace(sp: string, s: string)
    requires forall i :: 0 <= i < |sp| ==> IsSpace(sp[i])
    ensures Atoi(sp + s) == Atoi(s)
  {
    SpaceLengthOfSpaces(sp, s);
    assert (sp + s)[|sp| + SpaceLength(s)..] == s[SpaceLength(s)..];
  }

  /** A token that does not start, after white space, with a sign or a digit gives 0, and so does a lone sign. */
  lemma AtoiNonNumeric(s: string)
    requires var t := s[SpaceLength(s)..];
      t == [] || (t[0] != '-' && t[0] != '+' && !IsDigit(t[0])) ||
      ((t[0] == '-' || t[0] == '+') && (|t| == 1 || !IsDigit(t[1])))
    ensures Atoi(s) == 0
  {
  }

  // ---------------------------------------------------------------------
  // ReadNumbersFile
  // ---------------------------------------------------------------------

  /** The values of a sequence of tokens, each converted by atoi. */
  function AtoiAll(ts: seq<string>): (vs: seq<int>)
    ensures |vs| == |ts|
    ensures forall i :: 0 <= i < |ts| ==> vs[i] == Atoi(ts[i])
  {
    if ts == [] then [] else [Atoi(ts[0])] + AtoiAll(ts[1..])
  }

  /** The elements the numbers file yields: its tokens, in order, each converted by atoi. */
  function ParsedValues(text: string): seq<int> {
    AtoiAll(Tokens(text))
  }

  /** Skipping one leading delimiter keeps the remaining values. */
  lemma ParsedValuesSkipDelimiter(text: string, pos: nat)
    requires pos < |text| && IsDelimiter(text[pos])
    ensures ParsedValues(text[pos..]) == ParsedValues(text[pos + 1..])
  {
  }

  /** A maximal run text[start..pos] of non-delimiters is the next token. */
  lemma ParsedValuesTakeToken(text: string, start: nat, pos: nat)
    requires start < pos <= |text|
    requires forall i :: start <= i < pos ==> !IsDelimiter(text[i])
    requires pos == |text| || IsDelimiter(text[pos])
    ensures Tokens(text[start..]) == [text[start..pos]] + Tokens(text[pos..])
    ensures ParsedValues(text[start..]) == [Atoi(text[start..pos])] + ParsedValues(text[pos..])
  {
    var rest := text[start..];
    TokenLengthExact(rest, pos - start);
    assert rest[..pos - start] == text[start..pos] && rest[pos - start..] == text[pos..];
    var ts := Tokens(text[pos..]);
    assert ([text[start..pos]] + ts)[1..] == ts;
  }

  /** The capacity rule: after an append, and a growth step when the array is full, the capacity is the next multiple of 4096 above the count. */
  lemma CapacityAfterAppend(count: nat, capacity: nat)
    requires capacity == 4096 * (count / 4096 + 1)
    ensures count + 1 < capacity ==> capacity == 4096 * ((count + 1) / 4096 + 1)
    ensures count + 1 >= capacity ==> capacity + 4096 == 4096 * ((count + 1) / 4096 + 1)
  {
  }

  /** A one-character token, a delimiter, and the rest of the text. */
  lemma ParsedValuesStep(c: char, d: char, rest: string)
    requires '0' <= c <= '9' && IsDelimiter(d)
    ensures ParsedValues([c, d] + rest) == [c as int - '0' as int] + ParsedValues(rest)
  {
    var n: nat := c as int - '0' as int;
    assert Decimal(n) == [c];
    assert [c, d] + rest == [c] + ([d] + rest);
    TokensAfterToken([c], [d] + rest);
    TokensSkipDelimiters([d], rest);
    AtoiOfDecimal(n, []);
    assert [c] + [] == [c];
    var ts := Tokens(rest);
    assert ([[c]] + ts)[1..] == ts;
  }

  /** The tail "4 5\t6" of the mixed-delimiter example. */
  lemma ParsedValuesOfChainTail(s4: string, s5: string, s6: string)
    requires s6 == "6" && s5 == ['5', '\t'] + s6 && s4 == ['4', ' '] + s5
    ensures ParsedValues(s4) == [4, 5, 6]
  {
    assert ParsedValues(s6) == [6] by {
      TokensAfterToken(s6, []);
      assert s6 + [] == s6;
      AtoiOfDecimal(6, []);
      assert Decimal(6) + [] == s6;
      assert ([s6] + [])[1..] == [];
    }
    ParsedValuesStep('5', '\t', s6);
    ParsedValuesStep('4', ' ', s5);
  }

  /** Two one-digit tokens, each followed by one delimiter, then that tail. */
  lemma ParsedValuesOfChainMiddle(s2: string, s3: string, s4: string)
    requires ParsedValues(s4) == [4, 5, 6]
    requires s3 == ['3', '|'] + s4 && s2 == ['2', ';'] + s3
    ensures ParsedValues(s2) == [2, 3, 4, 5, 6]
  {
    ParsedValuesStep('3', '|', s4);
    ParsedValuesStep('2', ';', s3);
  }

  /** How the mixed-delimiter example splits into its one-digit tokens. */
  lemma MixedDelimitersShape(text: string)
    requires text == "1,2;3|4 5\t6"
    ensures text[10..] == "6" && text[8..] == ['5', '\t'] + text[10..]
    ensures text[6..] == ['4', ' '] + text[8..] && text[4..] == ['3', '|'] + text[6..]
    ensures text[2..] == ['2', ';'] + text[4..] && text == ['1', ','] + text[2..]
  {
  }

  /** Mixed delimiters: "1,2;3|4 5\t6" parses to [1, 2, 3, 4, 5, 6]. */
  lemma MixedDelimiters(text: string)
    requires text == "1,2;3|4 5\t6"
    ensures ParsedValues(text) == [1, 2, 3, 4, 5, 6]
  {
    MixedDelimitersShape(text);
    ParsedValuesOfChainTail(text[6..], text[8..], text[10..]);
    ParsedValuesOfChainMiddle(text[2..], text[4..], text[6..]);
    ParsedValuesStep('1', ',', text[2..]);
    PrependOne();
  }

  /** Kept apart: in the context of the example above this equation is costly to prove. */
  lemma PrependOne()
    ensures [1] + [2, 3, 4, 5, 6] == [1, 2, 3, 4, 5, 6]
  {
  }

  /** The growth step of the element array: realloc to newLength, keeping the contents. */
  method Realloc(elements: array<int>, newLength: nat) returns (grown: array<int>)
    requires elements.Length <= newLength
    ensures fresh(grown)
    ensures grown.Length == newLength
    ensures grown[..elements.Length] == elements[..]
  {
    grown := new int[newLength];
    forall i | 0 <= i < elements.Length {
      grown[i] := elements[i];
    }
  }

  /**
   * strtok's scan for the end of the token starting at text[start]: the
   * first delimiter after it, or the end of the text.
   */
  method TokenEnd(text: string, start: nat) returns (pos: nat)
    requires start < |text| && !IsDelimiter(text[start])
    ensures start < pos <= |text|
    ensures forall i :: start <= i < pos ==> !IsDelimiter(text[i])
    ensures pos == |text| || IsDelimiter(text[pos])
  {
    pos := start + 1;
    while pos < |text| && !IsDelimiter(text[pos])
      invariant start < pos <= |text|
      invariant forall i :: start <= i < pos ==> !IsDelimiter(text[i])
    {
      pos := pos + 1;
    }
  }

  /**
   * Store value in the next free slot, then, if that filled the array, grow
   * it by 4096 slots (a realloc, which hands back a new array).
   */
  method Append(elements: array<int>, numElements: nat, value: int) returns (grown: array<int>, count: nat)
    requires elements.Length == 4096 * (numElements / 4096 + 1)
    modifies elements
    ensures count == numElements + 1
    ensures grown == elements || fresh(grown)
    ensures grown.Length == 4096 * (count / 4096 + 1)
    ensures grown[..count] == old(elements[..numElements]) + [value]
  {
    elements[numElements] := value;
    count := numElements + 1;
    grown := elements;
    CapacityAfterAppend(numElements, elements.Length);
    if count >= elements.Length {
      grown := Realloc(elements, elements.Length + 4096);
      assert grown[..count] == elements[..count];
    }
    assert grown[..count] == elements[..count];
    assert elements[..count] == old(elements[..numElements]) + [value];
  }

  /**
   * The body of ReadNumbersFile over the file's text. The first numElements
   * slots of elements hold the values of the tokens, in order; the array
   * starts with 4096 slots and gains 4096 more whenever an append fills it,
   * so it always has room for one more value. The count and the capacity
   * are C ints, so the text may hold fewer than INT_MAX - 4095 tokens: at
   * that count the capacity would grow past INT_MAX.
   */
  method ReadNumbers(text: string) returns (elements: array<int>, numElements: nat)
    requires forall i :: 0 <= i < |Tokens(text)| ==> IsInt32(Atoi(Tokens(text)[i]))
    requires |Tokens(text)| < INT_MAX - 4095
    ensures numElements == |Tokens(text)|
    ensures numElements < elements.Length <= INT_MAX
    ensures elements.Length == 4096 * (numElements / 4096 + 1)
    ensures elements[..numElements] == ParsedValues(text)
    ensures forall i :: 0 <= i < numElements ==> IsInt32(elements[i])
  {
    elements := new int[4096];
    numElements := 0;
    var pos := 0;
    while pos < |text|
      invariant 0 <= pos <= |text|
      invariant fresh(elements)
      invariant elements.Length == 4096 * (numElements / 4096 + 1)
      invariant elements[..numElements] + ParsedValues(text[pos..]) == ParsedValues(text)
      invariant numElements <= |Tokens(text)|
    {
      if IsDelimiter(text[pos]) {
        ParsedValuesSkipDelimiter(text, pos);
        pos := pos + 1;
      } else {
        var start := pos;
        ghost var prefix := elements[..numElements];
        pos := TokenEnd(text, start);
        var token := text[start..pos];
        ParsedValuesTakeToken(text, start, pos);
        var value := Atoi(token);
        elements, numElements := Append(elements, numElements, value);
        assert prefix + [value] + ParsedValues(text[pos..]) == prefix + ParsedValues(text[start..]);
      }
    }
    assert text[pos..] == [];
    assert elements[..numElements] == ParsedValues(text);
  }
}
