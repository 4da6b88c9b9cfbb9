/** The block-wise hex printer. */
module HexPrinter {
  import opened Bytes
  import opened Numbers
  import opened Streams
  import opened HexText

  method PrintFooter(target: OutputStream, variable: Text, nullTerminate: bool)
    requires target.width == 0
    modifies target`text, target`width
    ensures target.text == old(target.text) + Footer(variable, nullTerminate)
    ensures target.width == 0
  {
    if nullTerminate {
      target.Put(TERMINATOR);
    }
    if |variable| != 0 {
      target.Put(ARRAY_CLOSE);
      target.Endl();
      Assoc(old(target.text) + if nullTerminate then TERMINATOR else [], ARRAY_CLOSE, [NL]);
    }
  }

  lemma HeaderIsAppended(out: Text, variable: Text, size: nat)
    ensures out + SIZE_TYPE + variable + SIZE_NAME + PrintNat(size, Dec) + [';'] + [NL]
            + ARRAY_TYPE + variable + ARRAY_OPEN + [NL] == out + Header(variable, size)
  {
    var n := PrintNat(size, Dec);
    var line := SizeLine(variable, size) + [NL];
    Assoc4(out, SIZE_TYPE, variable, SIZE_NAME);
    Assoc4(out, SIZE_TYPE + variable + SIZE_NAME, n, [';']);
    Assoc(out, SizeLine(variable, size), [NL]);
    Assoc4(out + line, ARRAY_TYPE, variable, ARRAY_OPEN);
    Assoc(out + line, ArrayLine(variable), [NL]);
    Assoc(out, line, ArrayLine(variable) + [NL]);
  }

  method PrintHeader(target: OutputStream, variable: Text, sourceSize: nat)
    requires target.width == 0
    modifies target
    ensures target.text == old(target.text) + Header(variable, sourceSize)
    ensures target.width == 0
  {
    target.Put(SIZE_TYPE);
    target.Put(variable);
    target.Put(SIZE_NAME);
    target.base := Dec;
    target.PutNat(sourceSize);
    target.Put([';']);
    target.Endl();
    target.Put(ARRAY_TYPE);
    target.Put(variable);
    target.Put(ARRAY_OPEN);
    target.Endl();
    HeaderIsAppended(old(target.text), variable, sourceSize);
  }

  lemma {:induction false} PrintLinesAppend(x: seq<Text>, y: seq<Text>)
    ensures PrintLines(x + y) == PrintLines(x) + PrintLines(y)
    decreases |x|
  {
    if x == [] {
      assert x + y == y;
    } else {
      assert (x + y)[1..] == x[1..] + y;
      PrintLinesAppend(x[1..], y);
    }
  }

  lemma BlockStep(data: Text, blockSize: nat, bufferSize: nat, lineSize: nat)
    requires data != [] && bufferSize > 0 && lineSize > 0
    requires blockSize == if |data| < bufferSize then |data| else bufferSize
    ensures HexBody(data, bufferSize, lineSize) ==
            PrintLines(Chunks(data[..blockSize], lineSize)) + HexBody(data[blockSize..], bufferSize, lineSize)
  {
    if |data| <= bufferSize {
      assert data[..blockSize] == data && data[blockSize..] == [];
    } else {
      PrintLinesAppend(Chunks(data[..blockSize], lineSize), Layout(data[bufferSize..], bufferSize, lineSize));
    }
  }

  lemma LineStep(out: Text, block: Text, i: nat, end: nat, lineSize: nat)
    requires i < |block| && lineSize > 0
    requires end == if i + lineSize < |block| then i + lineSize else |block|
    ensures out + PrintLines(Chunks(block[i..], lineSize)) ==
            out + Tokens(block[i..end]) + [NL] + PrintLines(Chunks(block[end..], lineSize))
  {
    var rest := block[i..];
    var chunks := Chunks(rest, lineSize);
    assert rest[..end - i] == block[i..end] && rest[end - i..] == block[end..];
    assert chunks[0] == block[i..end] && chunks[1..] == Chunks(block[end..], lineSize);
    Assoc4(out, Tokens(block[i..end]), [NL], PrintLines(Chunks(block[end..], lineSize)));
  }

  method PrintBytes(target: OutputStream, buffer: array<Byte>, from: nat, end: nat)
    requires target.width == 0 && target.base == Hex && target.fill == '0'
    requires from <= end <= buffer.Length
    modifies target`text, target`width
    ensures target.text == old(target.text) + Tokens(buffer[from..end])
    ensures target.width == 0
  {
    var j := from;
    while j < end
      invariant from <= j <= end && target.width == 0
      invariant old(target.text) + Tokens(buffer[from..end]) == target.text + Tokens(buffer[j..end])
    {
      ghost var before, rest := target.text, Tokens(buffer[j + 1..end]);
      assert buffer[j..end][1..] == buffer[j + 1..end];
      HexPairIsPadded(buffer[j]);
      Assoc4(before, "0x", HexPair(buffer[j]), ",");
      Assoc(before, Token(buffer[j]), rest);
      target.Put("0x");
      target.width := 2;
      target.PutNat(buffer[j] as nat);
      target.Put(",");
      j := j + 1;
    }
  }

  /** The loops over the lines of a block and the bytes of a line. */
  method PrintBlock(target: OutputStream, buffer: array<Byte>, blockSize: nat, lineSize: nat)
    requires target.width == 0 && target.base == Hex && target.fill == '0'
    requires blockSize <= buffer.Length && lineSize > 0
    modifies target`text, target`width
    ensures target.text == old(target.text) + PrintLines(Chunks(buffer[..blockSize], lineSize))
    ensures target.width == 0
  {
    var i: nat := 0;
    ghost var block := buffer[..blockSize];
    while i < blockSize
      invariant i <= blockSize && target.width == 0
      invariant old(target.text) + PrintLines(Chunks(block, lineSize)) ==
                target.text + PrintLines(Chunks(block[i..], lineSize))
    {
      var end := if i + lineSize < blockSize then i + lineSize else blockSize;
      LineStep(target.text, block, i, end, lineSize);
      assert buffer[i..end] == block[i..end];
      PrintBytes(target, buffer, i, end);
      target.Endl();
      i := end;
    }
  }

  /** The loop over the blocks. `blockStart` is the number of bytes printed; after
      the last, short block the position is unknown (-1) and taken to be the end. */
  method PrintBlocks(source: InputStream, target: OutputStream, buffer: array<Byte>, sourceSize: nat, lineSize: nat)
    requires source.Valid() && source.Good() && source.pos == 0 && sourceSize == |source.data|
    requires target.width == 0 && target.base == Hex && target.fill == '0'
    requires source.data != [] ==> buffer.Length > 0 && lineSize > 0
    modifies source, buffer, target`text, target`width
    ensures target.text == old(target.text) + HexBody(source.data, buffer.Length, lineSize)
    ensures target.width == 0
  {
    var blockStart: nat := 0;
    ghost var data := source.data;
    assert data[0..] == data;
    while blockStart < sourceSize
      invariant source.Valid() && blockStart <= sourceSize && target.width == 0
      invariant blockStart < sourceSize ==> source.Good() && source.pos == blockStart
      invariant old(target.text) + HexBody(data, buffer.Length, lineSize) ==
                target.text + HexBody(data[blockStart..], buffer.Length, lineSize)
      decreases sourceSize - blockStart
    {
      source.Read(buffer);
      var pos := source.TellG();
      var blockSize := (if pos < 0 then sourceSize else pos) - blockStart;
      ghost var rest, block := data[blockStart..], buffer[..blockSize];
      assert block == data[blockStart..blockStart + blockSize] == rest[..blockSize];
      BlockStep(rest, blockSize, buffer.Length, lineSize);
      Assoc(target.text, PrintLines(Chunks(block, lineSize)), HexBody(rest[blockSize..], buffer.Length, lineSize));
      assert rest[blockSize..] == data[blockStart + blockSize..];
      PrintBlock(target, buffer, blockSize, lineSize);
      blockStart := blockStart + blockSize;
    }
    assert data[blockStart..] == [];
  }

  /** Appends the definition of `variable` for all of `source`, whatever base and
      fill `target` was left with, and leaves base 16 and fill '0' behind. With a
      size of zero the loops make no progress on data. */
  method Bin2Hex(source: InputStream, target: OutputStream, variable: Text, nullTerminate: bool,
                 bufferSize: nat, lineSize: nat)
    requires source.Valid() && source.Good() && target.width == 0
    requires source.data != [] ==> bufferSize > 0 && lineSize > 0
    modifies source, target
    ensures target.text == old(target.text) + Definition(source.data, variable, nullTerminate, bufferSize, lineSize)
    ensures target.width == 0 && target.base == Hex && target.fill == '0'
  {
    source.SeekG(|source.data|);
    var buffer := new Byte[bufferSize];
    var sourceSize := source.TellG();

    ghost var start := target.text;
    if |variable| != 0 {
      PrintHeader(target, variable, sourceSize);
    }
    ghost var header := if variable == [] then [] else Header(variable, |source.data|);
    assert target.text == start + header;
    target.base := Hex;
    target.fill := '0';
    source.SeekG(0);

    PrintBlocks(source, target, buffer, sourceSize, lineSize);

    ghost var body := HexBody(source.data, bufferSize, lineSize);
    Assoc(start, header, body);

    PrintFooter(target, variable, nullTerminate);
    Assoc(start, header + body, Footer(variable, nullTerminate));
  }
}
