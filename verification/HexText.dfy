/** The text printed for a run of bytes, and how its lines are laid out. */
module HexText {
  import opened Bytes
  import opened Numbers

  function Token(b: Byte): (t: Text)
    ensures |t| == 5
  {
    "0x" + HexPair(b) + ","
  }

  function Tokens(bs: Text): (t: Text)
    ensures |t| == 5 * |bs|
  {
    if bs == [] then [] else Token(bs[0]) + Tokens(bs[1..])
  }

  function PrintLines(ls: seq<Text>): Text {
    if ls == [] then [] else Tokens(ls[0]) + [NL] + PrintLines(ls[1..])
  }

  /** `s` in pieces of `k`, the last one possibly shorter. */
  function Chunks(s: Text, k: nat): seq<Text>
    requires k > 0
    decreases |s|
  {
    if s == [] then []
    else if |s| <= k then [s]
    else [s[..k]] + Chunks(s[k..], k)
  }

  /** The bytes of each printed line: every block of `bufferSize` bytes is cut
      into lines of its own. */
  function Layout(data: Text, bufferSize: nat, lineSize: nat): seq<Text>
    requires data != [] ==> bufferSize > 0 && lineSize > 0
    decreases |data|
  {
    if data == [] then []
    else if |data| <= bufferSize then Chunks(data, lineSize)
    else Chunks(data[..bufferSize], lineSize) + Layout(data[bufferSize..], bufferSize, lineSize)
  }

  function HexBody(data: Text, bufferSize: nat, lineSize: nat): Text
    requires data != [] ==> bufferSize > 0 && lineSize > 0
  {
    PrintLines(Layout(data, bufferSize, lineSize))
  }

  const SIZE_TYPE: Text := "const size_t "
  const SIZE_NAME: Text := "_SIZE = "
  const ARRAY_TYPE: Text := "const unsigned char "
  const ARRAY_OPEN: Text := "[] = {"
  const ARRAY_CLOSE: Text := "};"
  const TERMINATOR: Text := "0x00,"

  function SizeLine(variable: Text, size: nat): Text {
    SIZE_TYPE + variable + SIZE_NAME + PrintNat(size, Dec) + [';']
  }

  function ArrayLine(variable: Text): Text {
    ARRAY_TYPE + variable + ARRAY_OPEN
  }

  function Header(variable: Text, size: nat): Text {
    SizeLine(variable, size) + [NL] + (ArrayLine(variable) + [NL])
  }

  function Footer(variable: Text, nullTerminate: bool): Text {
    (if nullTerminate then TERMINATOR else []) + (if variable == [] then [] else ARRAY_CLOSE + [NL])
  }

  /** All that is printed for `data`. */
  function Definition(data: Text, variable: Text, nullTerminate: bool, bufferSize: nat, lineSize: nat): Text
    requires data != [] ==> bufferSize > 0 && lineSize > 0
  {
    (if variable == [] then [] else Header(variable, |data|))
    + HexBody(data, bufferSize, lineSize)
    + Footer(variable, nullTerminate)
  }

  // ----- the lines hold the data -----

  function Concat(ls: seq<Text>): Text {
    if ls == [] then [] else ls[0] + Concat(ls[1..])
  }

  lemma {:induction false} ConcatAppend(a: seq<Text>, b: seq<Text>)
    ensures Concat(a + b) == Concat(a) + Concat(b)
  {
    if a == [] {
      assert a + b == b;
    } else {
      assert (a + b)[1..] == a[1..] + b;
      ConcatAppend(a[1..], b);
    }
  }

  lemma ConcatCons(head: Text, tail: seq<Text>)
    ensures Concat([head] + tail) == head + Concat(tail)
  {
    assert ([head] + tail)[1..] == tail;
  }

  lemma {:induction false} ChunksHold(s: Text, k: nat)
    requires k > 0
    ensures Concat(Chunks(s, k)) == s
    ensures forall c :: c in Chunks(s, k) ==> 1 <= |c| <= k && |c| <= |s|
    decreases |s|
  {
    if |s| > k {
      ChunksHold(s[k..], k);
      ConcatCons(s[..k], Chunks(s[k..], k));
    } else if s != [] {
      ConcatCons(s, []);
      assert [s] + [] == [s];
    }
  }

  /** Every byte is printed once, in order, whatever the sizes; every line holds
      at least one byte and at most what a line and a block can hold. */
  lemma {:induction false} LayoutHolds(data: Text, bufferSize: nat, lineSize: nat)
    requires bufferSize > 0 && lineSize > 0
    ensures Concat(Layout(data, bufferSize, lineSize)) == data
    ensures forall c :: c in Layout(data, bufferSize, lineSize) ==> 1 <= |c| <= lineSize && |c| <= bufferSize
    decreases |data|
  {
    if |data| > bufferSize {
      var chunks, rest := Chunks(data[..bufferSize], lineSize), Layout(data[bufferSize..], bufferSize, lineSize);
      ChunksHold(data[..bufferSize], lineSize);
      LayoutHolds(data[bufferSize..], bufferSize, lineSize);
      ConcatAppend(chunks, rest);
      assert data[..bufferSize] + data[bufferSize..] == data;
    } else {
      ChunksHold(data, lineSize);
    }
  }

  // ----- how many lines -----

  function CeilDiv(n: nat, d: nat): nat
    requires d > 0
  {
    (n + d - 1) / d
  }

  lemma {:induction false} MulGap(a: nat, b: nat, d: nat)
    requires a < b
    ensures a * d + d <= b * d
    decreases b
  {
    if a + 1 < b { MulGap(a, b - 1, d); }
  }

  lemma DivStep(n: nat, d: nat)
    requires n >= d > 0
    ensures n / d == (n - d) / d + 1 && n % d == (n - d) % d
  {
    var q, q' := (n - d) / d + 1, n / d;
    assert q * d == (n - d) / d * d + d;
    if q < q' { MulGap(q, q', d); }
    if q' < q { MulGap(q', q, d); }
  }

  /** `n % d == 0`, by subtraction. */
  predicate IsMultiple(n: nat, d: nat)
    requires d > 0
  {
    n == 0 || (n >= d && IsMultiple(n - d, d))
  }

  lemma {:induction false} MultipleIff(n: nat, d: nat)
    requires d > 0
    ensures IsMultiple(n, d) <==> n % d == 0
  {
    if n >= d {
      DivStep(n, d);
      MultipleIff(n - d, d);
    }
  }

  lemma {:induction false} ChunkCount(s: Text, k: nat)
    requires k > 0
    ensures |Chunks(s, k)| == CeilDiv(|s|, k)
    decreases |s|
  {
    if |s| > k {
      ChunkCount(s[k..], k);
      DivStep(|s| + k - 1, k);
    } else if s != [] {
      DivStep(|s| + k - 1, k);
    }
  }

  function LineTotal(n: nat, bufferSize: nat, full: nat, lineSize: nat): nat
    requires bufferSize > 0 && lineSize > 0
  {
    if n < bufferSize then CeilDiv(n, lineSize) else full + LineTotal(n - bufferSize, bufferSize, full, lineSize)
  }

  lemma {:induction false} LayoutTotal(data: Text, bufferSize: nat, lineSize: nat)
    requires bufferSize > 0 && lineSize > 0
    ensures |Layout(data, bufferSize, lineSize)| ==
            LineTotal(|data|, bufferSize, CeilDiv(bufferSize, lineSize), lineSize)
    decreases |data|
  {
    ChunkCount(data, lineSize);
    ChunkCount([], lineSize);
    if |data| > bufferSize {
      LayoutTotal(data[bufferSize..], bufferSize, lineSize);
      ChunkCount(data[..bufferSize], lineSize);
    }
  }

  lemma MulStep(a: nat, d: nat)
    ensures (a + 1) * d == a * d + d
  {
  }

  lemma {:induction false} LineTotalIs(n: nat, q: nat, r: nat, bufferSize: nat, full: nat, lineSize: nat)
    requires lineSize > 0 && r < bufferSize && n == q * bufferSize + r
    ensures LineTotal(n, bufferSize, full, lineSize) == q * full + CeilDiv(r, lineSize)
    decreases q
  {
    if q > 0 {
      MulStep(q - 1, bufferSize);
      MulStep(q - 1, full);
      LineTotalIs(n - bufferSize, q - 1, r, bufferSize, full, lineSize);
    }
  }

  /** With `full` full blocks and `rest` bytes behind them: each block takes the
      same number of lines, the rest what it needs. */
  lemma LayoutCount(data: Text, bufferSize: nat, lineSize: nat, full: nat, rest: nat)
    requires bufferSize > 0 && lineSize > 0
    requires |data| == full * bufferSize + rest && rest < bufferSize
    ensures |Layout(data, bufferSize, lineSize)| == full * CeilDiv(bufferSize, lineSize) + CeilDiv(rest, lineSize)
  {
    LayoutTotal(data, bufferSize, lineSize);
    LineTotalIs(|data|, full, rest, bufferSize, CeilDiv(bufferSize, lineSize), lineSize);
  }

  // ----- blocks against one single pass -----

  lemma {:induction false} ChunksAligned(x: Text, y: Text, k: nat)
    requires k > 0 && IsMultiple(|x|, k)
    ensures Chunks(x + y, k) == Chunks(x, k) + Chunks(y, k)
    decreases |x|
  {
    if x == [] {
      assert x + y == y;
    } else {
      ChunksAligned(x[k..], y, k);
      assert (x + y)[..k] == x[..k] && (x + y)[k..] == x[k..] + y;
      if |x| == k {
        assert x[..k] == x && x[k..] + y == y;
        if y == [] { assert x + y == x; }
      }
    }
  }

  lemma {:induction false} ChunksNotAligned(x: Text, y: Text, k: nat, rest: seq<Text>)
    requires k > 0 && !IsMultiple(|x|, k) && y != []
    ensures Chunks(x, k) + rest != Chunks(x + y, k)
    decreases |x|
  {
    if |x| < k {
      var first := Chunks(x + y, k)[0];
      assert |first| > |x|;
      assert (Chunks(x, k) + rest)[0] == x;
    } else {
      ChunksNotAligned(x[k..], y, k, rest);
      assert (x + y)[k..] == x[k..] + y;
      assert (Chunks(x, k) + rest)[1..] == Chunks(x[k..], k) + rest;
      assert Chunks(x + y, k)[1..] == Chunks(x[k..] + y, k);
    }
  }

  lemma {:induction false} LayoutIsSinglePass(data: Text, bufferSize: nat, lineSize: nat)
    requires bufferSize > 0 && lineSize > 0 && (|data| <= bufferSize || bufferSize % lineSize == 0)
    ensures Layout(data, bufferSize, lineSize) == Chunks(data, lineSize)
    decreases |data|
  {
    if |data| > bufferSize {
      var x, y := data[..bufferSize], data[bufferSize..];
      MultipleIff(bufferSize, lineSize);
      LayoutIsSinglePass(y, bufferSize, lineSize);
      ChunksAligned(x, y, lineSize);
      assert x + y == data;
    }
  }

  // ----- the text determines the layout -----

  lemma TokenInjective(a: Byte, b: Byte)
    requires Token(a) == Token(b)
    ensures a == b
  {
    assert Token(a)[2] == DigitOf(a as int / 16) && Token(a)[3] == DigitOf(a as int % 16);
    assert Token(b)[2] == DigitOf(b as int / 16) && Token(b)[3] == DigitOf(b as int % 16);
  }

  lemma {:induction false} TokensInjective(a: Text, b: Text)
    requires Tokens(a) == Tokens(b)
    ensures a == b
  {
    if a != [] {
      assert Tokens(a)[..5] == Token(a[0]) && Tokens(b)[..5] == Token(b[0]);
      assert Tokens(a)[5..] == Tokens(a[1..]) && Tokens(b)[5..] == Tokens(b[1..]);
      TokenInjective(a[0], b[0]);
      TokensInjective(a[1..], b[1..]);
      assert a == [a[0]] + a[1..] && b == [b[0]] + b[1..];
    }
  }

  lemma {:induction false} TokensAreClean(bs: Text)
    ensures NL !in Tokens(bs)
  {
    if bs != [] { TokensAreClean(bs[1..]); }
  }

  lemma {:induction false} PrintLinesInjective(x: seq<Text>, y: seq<Text>)
    requires PrintLines(x) == PrintLines(y)
    ensures x == y
    decreases |x|
  {
    if x != [] {
      var t := PrintLines(x);
      var i, j := |Tokens(x[0])|, |Tokens(y[0])|;
      TokensAreClean(x[0]);
      TokensAreClean(y[0]);
      assert t[..i] == Tokens(x[0]) && t[i] == NL && t[i + 1..] == PrintLines(x[1..]);
      assert t[..j] == Tokens(y[0]) && t[j] == NL && t[j + 1..] == PrintLines(y[1..]);
      assert t[0..i] == t[..i] && t[0..j] == t[..j];
      FindIs(t, NL, 0, i);
      FindIs(t, NL, 0, j);
      TokensInjective(x[0], y[0]);
      PrintLinesInjective(x[1..], y[1..]);
      assert x == [x[0]] + x[1..] && y == [y[0]] + y[1..];
    }
  }

  /** Printing block by block gives the text of a single pass over all the data
      exactly when one block holds it all or the line size divides the block
      size, as the defaults 16 and 512 do. */
  lemma BlockedIsSinglePassIff(data: Text, bufferSize: nat, lineSize: nat)
    requires bufferSize > 0 && lineSize > 0
    ensures HexBody(data, bufferSize, lineSize) == HexBody(data, |data|, lineSize) <==>
            |data| <= bufferSize || bufferSize % lineSize == 0
  {
    var blocked, single := Layout(data, bufferSize, lineSize), Layout(data, |data|, lineSize);
    if |data| <= bufferSize || bufferSize % lineSize == 0 {
      LayoutIsSinglePass(data, bufferSize, lineSize);
    } else {
      var x, y := data[..bufferSize], data[bufferSize..];
      assert x + y == data;
      MultipleIff(bufferSize, lineSize);
      ChunksNotAligned(x, y, lineSize, Layout(y, bufferSize, lineSize));
      if PrintLines(blocked) == PrintLines(single) {
        PrintLinesInjective(blocked, single);
      }
    }
  }

  /** Two bytes, printed in blocks of one: a line each, although a line has room
      for both. */
  lemma BlockedDiffers()
    ensures HexBody(['a', 'b'], 1, 2) != HexBody(['a', 'b'], 2, 2)
  {
    BlockedIsSinglePassIff(['a', 'b'], 1, 2);
  }

  // ----- the printed lines -----

  /** Every line with a newline behind it. */
  function Unlines(ls: seq<Text>): Text {
    if ls == [] then [] else ls[0] + [NL] + Unlines(ls[1..])
  }

  lemma {:induction false} SplitUnlines(ls: seq<Text>)
    requires forall l :: l in ls ==> NL !in l
    ensures Split(Unlines(ls)) == ls + [[]]
  {
    if ls != [] {
      var t, l := Unlines(ls), ls[0];
      assert l in ls && t[0..|l|] == l && t[|l| + 1..] == Unlines(ls[1..]);
      FindIs(t, NL, 0, |l|);
      SplitUnlines(ls[1..]);
      assert t[..|l|] == l && ls == [l] + ls[1..];
    }
  }

  lemma {:induction false} UnlinesAppend(a: seq<Text>, b: seq<Text>)
    ensures Unlines(a + b) == Unlines(a) + Unlines(b)
    decreases |a|
  {
    if a == [] {
      assert a + b == b;
    } else {
      assert (a + b)[1..] == a[1..] + b;
      UnlinesAppend(a[1..], b);
    }
  }

  /** The text of each line of hex bytes. */
  function HexLines(layout: seq<Text>): (ls: seq<Text>)
    ensures |ls| == |layout|
    ensures forall i :: 0 <= i < |layout| ==> ls[i] == Tokens(layout[i])
  {
    seq(|layout|, i requires 0 <= i < |layout| => Tokens(layout[i]))
  }

  lemma {:induction false} PrintLinesAreLines(layout: seq<Text>)
    ensures PrintLines(layout) == Unlines(HexLines(layout))
  {
    if layout != [] {
      PrintLinesAreLines(layout[1..]);
      assert HexLines(layout)[1..] == HexLines(layout[1..]);
    }
  }

  lemma UnlinesOne(l: Text)
    ensures Unlines([l]) == l + [NL]
  {
  }

  lemma UnlinesTwo(a: Text, b: Text)
    ensures Unlines([a, b]) == a + [NL] + (b + [NL])
  {
    assert [a, b][1..] == [b];
    UnlinesOne(b);
  }

  const END: Text := "};"
  const ZERO_END: Text := "0x00,};"

  /** The last line. */
  function LastLine(nullTerminate: bool): Text { if nullTerminate then ZERO_END else END }

  lemma FooterIsLine(variable: Text, nullTerminate: bool)
    requires variable != []
    ensures Footer(variable, nullTerminate) == Unlines([LastLine(nullTerminate)])
  {
    UnlinesOne(LastLine(nullTerminate));
    assert ZERO_END == TERMINATOR + ARRAY_CLOSE && END == ARRAY_CLOSE;
  }

  lemma {:induction false} DefinitionIsLines(data: Text, variable: Text, nullTerminate: bool,
                                             bufferSize: nat, lineSize: nat)
    requires data != [] ==> bufferSize > 0 && lineSize > 0
    requires variable != []
    ensures Definition(data, variable, nullTerminate, bufferSize, lineSize) ==
            Unlines([SizeLine(variable, |data|), ArrayLine(variable)]
                    + HexLines(Layout(data, bufferSize, lineSize)) + [LastLine(nullTerminate)])
  {
    var head, body := [SizeLine(variable, |data|), ArrayLine(variable)], HexLines(Layout(data, bufferSize, lineSize));
    UnlinesAppend(head + body, [LastLine(nullTerminate)]);
    UnlinesAppend(head, body);
    UnlinesTwo(head[0], head[1]);
    PrintLinesAreLines(Layout(data, bufferSize, lineSize));
    FooterIsLine(variable, nullTerminate);
  }

  lemma HeaderHasNoNewline(variable: Text, size: nat)
    requires NL !in variable
    ensures NL !in SizeLine(variable, size) && NL !in ArrayLine(variable)
  {
    ParsePrintNat(size);
  }

  /** A printed definition, line by line: the size, the array, one line for each
      line that the buffer and line sizes lay out, and the end. */
  lemma {:induction false} DefinitionLines(data: Text, variable: Text, nullTerminate: bool,
                                           bufferSize: nat, lineSize: nat)
    requires data != [] ==> bufferSize > 0 && lineSize > 0
    requires variable != [] && NL !in variable
    ensures Split(Definition(data, variable, nullTerminate, bufferSize, lineSize)) ==
            [SizeLine(variable, |data|), ArrayLine(variable)]
            + HexLines(Layout(data, bufferSize, lineSize)) + [LastLine(nullTerminate)] + [[]]
  {
    var layout := Layout(data, bufferSize, lineSize);
    var ls := [SizeLine(variable, |data|), ArrayLine(variable)] + HexLines(layout) + [LastLine(nullTerminate)];
    HeaderHasNoNewline(variable, |data|);
    forall i | 0 <= i < |layout| ensures NL !in HexLines(layout)[i] {
      TokensAreClean(layout[i]);
    }
    forall l | l in ls ensures NL !in l {
      assert l == ls[0] || l == ls[1] || l in HexLines(layout) || l == LastLine(nullTerminate);
    }
    DefinitionIsLines(data, variable, nullTerminate, bufferSize, lineSize);
    SplitUnlines(ls);
  }
}
