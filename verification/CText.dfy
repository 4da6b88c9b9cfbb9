/** The printed C text, read back. */
module CText {
  import opened Bytes
  import opened Numbers
  import opened HexText
  import opened CReader

  lemma NextLineIs(line: Text, rest: Text)
    requires NL !in line
    ensures NextLine(line + [NL] + rest) == Some((line, rest))
  {
    var s := line + [NL] + rest;
    assert s[0..|line|] == s[..|line|] == line && s[|line| + 1..] == rest;
    FindIs(s, NL, 0, |line|);
  }

  // ----- elements -----

  lemma DigitIsRead(d: nat)
    requires d < 16
    ensures IsHexDigit(DigitOf(d)) && HexValue(DigitOf(d)) == d
  {
  }

  lemma TokenIsElement(b: Byte, tail: Text)
    ensures var s := Token(b) + tail; IsElement(s) && s[5..] == tail && ElementValue(s) == b
  {
    var t := Token(b);
    DigitIsRead(b as int / 16);
    DigitIsRead(b as int % 16);
    assert t == ['0', 'x', DigitOf(b as int / 16), DigitOf(b as int % 16), ','];
  }

  lemma ElementStep(s: Text)
    requires IsElement(s) && ParseElements(s[5..]).Some?
    ensures var found := ParseElements(s[5..]).value;
            ParseElements(s) == Some(([ElementValue(s)] + found.0, found.1))
  {
  }

  lemma TokenStep(b: Byte, tail: Text, found: Text, rest: Text)
    requires ParseElements(tail) == Some((found, rest))
    ensures ParseElements(Token(b) + tail) == Some(([b] + found, rest))
  {
    TokenIsElement(b, tail);
    ElementStep(Token(b) + tail);
  }

  lemma {:induction false} ParseTokens(bs: Text, tail: Text, found: Text, rest: Text)
    requires ParseElements(tail) == Some((found, rest))
    ensures ParseElements(Tokens(bs) + tail) == Some((bs + found, rest))
  {
    if bs == [] {
      assert Tokens(bs) + tail == tail && bs + found == found;
    } else {
      var behind := Tokens(bs[1..]) + tail;
      ParseTokens(bs[1..], tail, found, rest);
      TokenStep(bs[0], behind, bs[1..] + found, rest);
      Assoc(Token(bs[0]), Tokens(bs[1..]), tail);
      Assoc([bs[0]], bs[1..], found);
      assert bs == [bs[0]] + bs[1..];
    }
  }

  lemma LineBreakStep(tail: Text)
    ensures ParseElements([NL] + tail) == ParseElements(tail)
  {
    assert ([NL] + tail)[1..] == tail;
    assert ([NL] + tail)[0] == NL;
  }

  lemma {:induction false} ParseLines(ls: seq<Text>, tail: Text, found: Text, rest: Text)
    requires ParseElements(tail) == Some((found, rest))
    ensures ParseElements(PrintLines(ls) + tail) == Some((Concat(ls) + found, rest))
  {
    if ls == [] {
      assert PrintLines(ls) + tail == tail && Concat(ls) + found == found;
    } else {
      var behind := PrintLines(ls[1..]) + tail;
      ParseLines(ls[1..], tail, found, rest);
      LineBreakStep(behind);
      ParseTokens(ls[0], [NL] + behind, Concat(ls[1..]) + found, rest);
      Assoc(Tokens(ls[0]) + [NL], PrintLines(ls[1..]), tail);
      Assoc(Tokens(ls[0]), [NL], behind);
      Assoc(ls[0], Concat(ls[1..]), found);
    }
  }

  /** The byte put behind the data. */
  function Zero(nullTerminate: bool): Text { if nullTerminate then [0 as char] else [] }

  lemma ParseEnd(nullTerminate: bool, rest: Text)
    ensures ParseElements((if nullTerminate then TERMINATOR else []) + (ARRAY_CLOSE + [NL] + rest)) ==
            Some((Zero(nullTerminate), rest))
  {
    var close := ARRAY_CLOSE + [NL] + rest;
    assert CLOSE == ARRAY_CLOSE + [NL] && close[|CLOSE|..] == rest && CLOSE <= close;
    assert ParseElements(close) == Some(([], rest));
    if nullTerminate {
      TokenStep(0 as char, close, [], rest);
      assert Token(0 as char) == TERMINATOR && [0 as char] + [] == Zero(true);
    } else {
      assert [] + close == close;
    }
  }

  /** The printed elements are the data, and a final 0 if there is to be one,
      whatever the layout. */
  lemma ParseBody(data: Text, nullTerminate: bool, bufferSize: nat, lineSize: nat, rest: Text)
    requires data != [] ==> bufferSize > 0 && lineSize > 0
    ensures ParseElements(HexBody(data, bufferSize, lineSize) +
                          ((if nullTerminate then TERMINATOR else []) + (ARRAY_CLOSE + [NL] + rest))) ==
            Some((data + Zero(nullTerminate), rest))
  {
    var end := (if nullTerminate then TERMINATOR else []) + (ARRAY_CLOSE + [NL] + rest);
    ParseEnd(nullTerminate, rest);
    ParseLines(Layout(data, bufferSize, lineSize), end, Zero(nullTerminate), rest);
    if data != [] {
      LayoutHolds(data, bufferSize, lineSize);
    }
  }

  // ----- the header -----

  lemma SizeParts(variable: Text, digits: Text)
    requires ' ' !in digits
    ensures var middle, k := variable + SIZE_NAME + digits, |variable| + |SIZE_NAME| - 1;
            && FindLast(middle, ' ') == Some(k) && middle[k + 1..] == digits
            && middle[|variable|..k + 1] == SIZE_NAME && middle[..|variable|] == variable
  {
    var middle, k := variable + SIZE_NAME + digits, |variable| + |SIZE_NAME| - 1;
    assert middle[k] == ' ' && middle[k + 1..] == digits;
    FindLastIs(middle, ' ', k);
  }

  lemma ParsePrintSizeOf(variable: Text, size: nat)
    requires IsIdentifier(variable)
    ensures ParseSizeOf(variable + SIZE_NAME + PrintNat(size, Dec)) == Some((variable, size))
  {
    ParsePrintNat(size);
    SizeParts(variable, PrintNat(size, Dec));
    assert SIZE_IS == SIZE_NAME;
  }

  lemma Middle(a: Text, t: Text, c: Byte)
    ensures var line := a + t + [c];
            a <= line && |line| > |a| && line[|line| - 1] == c && line[|a|..|line| - 1] == t
  {
  }

  lemma ParsePrintSize(variable: Text, size: nat)
    requires IsIdentifier(variable)
    ensures ParseSize(SizeLine(variable, size)) == Some((variable, size))
  {
    var t := variable + SIZE_NAME + PrintNat(size, Dec);
    Assoc4(SIZE_TYPE, variable, SIZE_NAME, PrintNat(size, Dec));
    assert SizeLine(variable, size) == SIZE_TYPE + t + [';'];
    Middle(SIZE_TYPE, t, ';');
    ParsePrintSizeOf(variable, size);
    assert DECLARE_SIZE == SIZE_TYPE;
  }

  lemma HeaderIsClean(variable: Text, size: nat)
    requires IsIdentifier(variable)
    ensures NL !in SizeLine(variable, size) && NL !in ArrayLine(variable)
  {
    assert !IsNameByte(NL);
    HeaderHasNoNewline(variable, size);
  }

  lemma ParseParts(name: Text, size: nat, body: Text, elements: Text, rest: Text)
    requires IsIdentifier(name) && ParseElements(body) == Some((elements, rest))
    ensures ParseArray(Header(name, size) + body) == Some((Array(name, size, elements), rest))
  {
    var first, second := SizeLine(name, size), ArrayLine(name);
    HeaderIsClean(name, size);
    ParsePrintSize(name, size);
    Assoc(first + [NL], second + [NL], body);
    NextLineIs(first, second + [NL] + body);
    NextLineIs(second, body);
    assert DECLARE_ARRAY == ARRAY_TYPE && OPEN == ARRAY_OPEN;
  }

  lemma DefinitionParts(data: Text, variable: Text, nullTerminate: bool, bufferSize: nat, lineSize: nat, rest: Text)
    requires data != [] ==> bufferSize > 0 && lineSize > 0
    requires variable != []
    ensures Definition(data, variable, nullTerminate, bufferSize, lineSize) + rest ==
            Header(variable, |data|)
            + (HexBody(data, bufferSize, lineSize)
               + ((if nullTerminate then TERMINATOR else []) + (ARRAY_CLOSE + [NL] + rest)))
  {
  }

  /** One definition, printed and parsed: the name, the exact size, and the data,
      followed by one 0x00 if the array is to end in a null, so one element more
      than the size says. */
  lemma ParseDefinition(data: Text, variable: Text, nullTerminate: bool, bufferSize: nat, lineSize: nat, rest: Text)
    requires data != [] ==> bufferSize > 0 && lineSize > 0
    requires IsIdentifier(variable)
    ensures ParseArray(Definition(data, variable, nullTerminate, bufferSize, lineSize) + rest) ==
            Some((Array(variable, |data|, data + Zero(nullTerminate)), rest))
  {
    var end := (if nullTerminate then TERMINATOR else []) + (ARRAY_CLOSE + [NL] + rest);
    DefinitionParts(data, variable, nullTerminate, bufferSize, lineSize, rest);
    ParseBody(data, nullTerminate, bufferSize, lineSize, rest);
    ParseParts(variable, |data|, HexBody(data, bufferSize, lineSize) + end, data + Zero(nullTerminate), rest);
  }

  /** Without a variable only the elements are printed, to stand in braces that
      are written by someone else. */
  lemma ParseNameless(data: Text, nullTerminate: bool, bufferSize: nat, lineSize: nat, rest: Text)
    requires data != [] ==> bufferSize > 0 && lineSize > 0
    ensures ParseElements(Definition(data, [], nullTerminate, bufferSize, lineSize) + (CLOSE + rest)) ==
            Some((data + Zero(nullTerminate), rest))
  {
    var zero := if nullTerminate then TERMINATOR else [];
    ParseBody(data, nullTerminate, bufferSize, lineSize, rest);
    assert CLOSE == ARRAY_CLOSE + [NL];
    assert Definition(data, [], nullTerminate, bufferSize, lineSize) == HexBody(data, bufferSize, lineSize) + zero;
    Assoc(HexBody(data, bufferSize, lineSize), zero, CLOSE + rest);
  }
}
