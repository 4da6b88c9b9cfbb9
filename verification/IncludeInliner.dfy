/** The recursive include expander. */
module Inliner {
  import opened Bytes
  import opened Streams
  import opened SourceFiles
  import opened Directives
  import opened Expansions
  import opened Emission
  import opened Exceptions

  lemma FileIsItsLines(fs: FileSystem, cfg: Config, stack: SourceFileDesc, room: nat,
                       path: Text, includedLine: int, text: Text) returns (e: Expansion)
    requires room > 0
    ensures e == ExpandFile(fs, cfg, stack, room, path, includedLine, text)
    ensures e == ExpandLines(fs, cfg, Desc(path, stack, includedLine), room - 1, Split(text), 0, false)
    ensures Answers(fs, cfg, stack, room, path, includedLine, text, StatusOf(e.outcome))
  {
    StatusAnswers(fs, cfg, stack, room, path, includedLine, text);
    e := ExpandFile(fs, cfg, stack, room, path, includedLine, text);
  }

  /** Expanding and emitting lines, one line at a time. */
  lemma StepLines(fs: FileSystem, cfg: Config, here: SourceFileDesc, room: nat, out: Text,
                  line: Text, lines: seq<Text>, done: nat, marked: bool) returns (rest: Expansion)
    ensures rest == ExpandLines(fs, cfg, here, room, lines, done + 1, Classify(cfg, line).Marker?)
    ensures var all := ExpandLines(fs, cfg, here, room, [line] + lines, done, marked);
            var step := ExpandLine(fs, cfg, here, room, line, done + 1, marked);
            && all.outcome == (if step.outcome.Threw? then step else rest).outcome
            && EmitAll(out, all.lines) ==
                 if step.outcome.Threw? then EmitAll(out, step.lines) else EmitAll(EmitAll(out, step.lines), rest.lines)
  {
    var all := [line] + lines;
    assert all[0] == line && all[1..] == lines;
    var step := ExpandLine(fs, cfg, here, room, line, done + 1, marked);
    rest := ExpandLines(fs, cfg, here, room, lines, done + 1, Classify(cfg, line).Marker?);
    EmitAllAppend(out, step.lines, rest.lines);
  }

  /** The trace below the line of `item`. */
  ghost function TraceBelow(item: SourceFileDesc): Text
    requires item.Desc?
  {
    if item.includedFrom.Null? then []
    else "\n" + PrintPlace(FROM, Place(item.includedFrom.path, item.includedLine)) + TraceBelow(item.includedFrom)
  }

  lemma {:induction false} TraceJoins(prefix: Text, item: SourceFileDesc, line: int)
    requires item.Desc?
    ensures Join(TraceLines(prefix, Places(item, line))) ==
            PrintPlace(prefix, Place(item.path, line)) + TraceBelow(item)
    decreases item
  {
    var ps := Places(item, line);
    assert ps[1..] == Places(item.includedFrom, item.includedLine);
    assert TraceLines(prefix, ps)[1..] == TraceLines(FROM, ps[1..]);
    if item.includedFrom.Desc? {
      TraceJoins(FROM, item.includedFrom, item.includedLine);
    }
  }

  lemma {:induction false} TraceStarts(item: SourceFileDesc, line: int)
    requires item.Desc?
    ensures TraceText(item, line) == PrintPlace(AT, Place(item.path, line)) + TraceBelow(item)
  {
    TraceJoins(AT, item, line);
  }

  class IncludeInliner {
    var includeDepthLimit: int
    var includeDepth: int
    var includedStackHead: SourceFileDesc

    /** The counter and the linked stack always agree. */
    ghost predicate Valid() reads this {
      includeDepth == includedStackHead.Depth()
    }

    /** How many more files the stack may take. */
    ghost function Room(): nat reads this {
      if includeDepth < includeDepthLimit then includeDepthLimit - includeDepth else 0
    }

    constructor ()
      ensures Valid() && includeDepthLimit == 256 && includedStackHead == Null
    {
      includeDepthLimit, includeDepth, includedStackHead := 256, 0, Null;
    }

    /** Walks the stack, printing one line per file. */
    method GetIncludeStackTrace(line: int) returns (trace: Text)
      ensures trace == TraceText(includedStackHead, line)
    {
      if includedStackHead.Null? {
        return "";
      }
      var item := includedStackHead;
      trace := PrintPlace(AT, Place(item.path, line));
      TraceStarts(item, line);
      while item.includedFrom.Desc?
        invariant item.Desc? && TraceText(includedStackHead, line) == trace + TraceBelow(item)
        decreases item
      {
        var next := "\n" + PrintPlace(FROM, Place(item.includedFrom.path, item.includedLine));
        ghost var below := TraceBelow(item.includedFrom);
        assert trace + (next + below) == trace + next + below;
        trace := trace + next;
        item := item.includedFrom;
      }
    }

    /** The exception for line `line` of the file on top of the stack. */
    method Throw(fault: Fault, line: nat) returns (status: Status)
      ensures status == StatusOf(Threw(fault, line, includedStackHead))
    {
      var trace := GetIncludeStackTrace(line);
      status := Thrown(InlineException(fault, trace));
    }

    /** Adds to `output` what the reference expansion contributes and ends as it
        does. A normal return restores the depth and the stack; an exception
        leaves them describing the file that failed. Terminates for every file
        system, cyclic ones included. */
    method ProcessCore(fs: FileSystem, input: InputStream, output: OutputStream, root: Text, fileName: Text,
                       lineNumber: int, directive: Text, allowAngle: bool, recurse: bool) returns (status: Status)
      requires Valid() && input.Valid() && input.Good() && output.width == 0
      modifies this`includeDepth, this`includedStackHead, input, output`text, output`width
      ensures Valid() && output.width == 0 && (status.Normal? ==> input.eof)
      ensures var e := ExpandFile(fs, Config(root, directive, allowAngle, recurse), old(includedStackHead),
                                  old(Room()), fileName, lineNumber, old(input.data[input.pos..]));
              && output.text == EmitAll(old(output.text), e.lines)
              && status == StatusOf(e.outcome)
              && includedStackHead == if e.outcome.Threw? then e.outcome.stack else old(includedStackHead)
      ensures Answers(fs, Config(root, directive, allowAngle, recurse), old(includedStackHead), old(Room()),
                      fileName, lineNumber, old(input.data[input.pos..]), status)
      decreases Room(), 0
    {
      ghost var cfg, text := Config(root, directive, allowAngle, recurse), input.data[input.pos..];
      if includeDepth >= includeDepthLimit {
        ToldIs(includedStackHead, 0);
        status := Throw(StackOverflow, 0);
        return;
      }

      ghost var e := FileIsItsLines(fs, cfg, includedStackHead, Room(), fileName, lineNumber, text);

      includeDepth := includeDepth + 1;
      includedStackHead := Desc(fileName, includedStackHead, lineNumber);
      status := ProcessLines(fs, input, output, root, directive, allowAngle, recurse);
      if status.Normal? {
        includedStackHead := includedStackHead.includedFrom;
        includeDepth := includeDepth - 1;
      }
    }

    method Process(fs: FileSystem, input: InputStream, output: OutputStream, root: Text, fileName: Text,
                   directive: Text, allowAngle: bool, recurse: bool) returns (status: Status)
      requires Valid() && input.Valid() && input.Good() && output.width == 0
      modifies this`includeDepth, this`includedStackHead, input, output`text, output`width
      ensures Valid() && output.width == 0 && (status.Normal? ==> input.eof)
      ensures var e := ExpandFile(fs, Config(root, directive, allowAngle, recurse), old(includedStackHead),
                                  old(Room()), fileName, 0, old(input.data[input.pos..]));
              && output.text == EmitAll(old(output.text), e.lines)
              && status == StatusOf(e.outcome)
              && includedStackHead == if e.outcome.Threw? then e.outcome.stack else old(includedStackHead)
      ensures Answers(fs, Config(root, directive, allowAngle, recurse), old(includedStackHead), old(Room()),
                      fileName, 0, old(input.data[input.pos..]), status)
    {
      status := ProcessCore(fs, input, output, root, fileName, 0, directive, allowAngle, recurse);
    }

    /** The loop over the lines of the file on top of the stack. */
    method ProcessLines(fs: FileSystem, input: InputStream, output: OutputStream, root: Text,
                        directive: Text, allowAngle: bool, recurse: bool) returns (status: Status)
      requires Valid() && input.Valid() && input.Good() && output.width == 0
      modifies this`includeDepth, this`includedStackHead, input, output`text, output`width
      ensures Valid() && output.width == 0 && (status.Normal? ==> input.eof)
      ensures var e := ExpandLines(fs, Config(root, directive, allowAngle, recurse), old(includedStackHead),
                                   old(Room()), old(input.Rest()), 0, false);
              && output.text == EmitAll(old(output.text), e.lines)
              && status == StatusOf(e.outcome)
              && includedStackHead == if e.outcome.Threw? then e.outcome.stack else old(includedStackHead)
      decreases Room(), 2
    {
      var currentLine: nat := 0;
      var nextIncludeOptional := false;
      ghost var cfg := Config(root, directive, allowAngle, recurse);
      ghost var here, room := includedStackHead, Room();
      ghost var lines := input.Rest();
      ghost var rest := ExpandLines(fs, cfg, here, room, lines, 0, false);
      ghost var outcome, text := rest.outcome, EmitAll(output.text, rest.lines);

      while !input.eof
        invariant Valid() && includedStackHead == here && Room() == room && output.width == 0
        invariant input.Valid() && (input.eof || input.Good()) && lines == input.Rest()
        invariant rest == ExpandLines(fs, cfg, here, room, lines, currentLine, nextIncludeOptional)
        invariant rest.outcome == outcome && EmitAll(output.text, rest.lines) == text
        decreases |lines|
      {
        var line := input.GetLine();
        assert lines == [line] + input.Rest();
        ghost var next := StepLines(fs, cfg, here, room, output.text, line, input.Rest(), currentLine,
                                    nextIncludeOptional);
        currentLine := currentLine + 1;

        status, nextIncludeOptional := ProcessLine(fs, line, output, root, currentLine, nextIncludeOptional,
                                                   directive, allowAngle, recurse);
        if status.Thrown? {
          return;
        }
        lines, rest := input.Rest(), next;
      }
      return Normal;
    }

    method WriteLine(output: OutputStream, line: Text)
      requires output.width == 0
      modifies output`text, output`width
      ensures output.width == 0 && output.text == EmitAll(old(output.text), [line])
    {
      if |output.text| > 0 {
        output.Endl();
      }
      output.Put(line);
    }

    /** One turn of the loop: the line numbered `currentLine` of the file on top
        of the stack. */
    method ProcessLine(fs: FileSystem, line: Text, output: OutputStream, root: Text, currentLine: nat,
                       includeOptional: bool, directive: Text, allowAngle: bool, recurse: bool)
      returns (status: Status, nextIncludeOptional: bool)
      requires Valid() && output.width == 0
      modifies this`includeDepth, this`includedStackHead, output`text, output`width
      ensures Valid() && output.width == 0
      ensures var cfg := Config(root, directive, allowAngle, recurse);
              var e := ExpandLine(fs, cfg, old(includedStackHead), old(Room()), line, currentLine, includeOptional);
              && output.text == EmitAll(old(output.text), e.lines)
              && status == StatusOf(e.outcome)
              && nextIncludeOptional == (status.Normal? && Classify(cfg, line).Marker?)
              && includedStackHead == if e.outcome.Threw? then e.outcome.stack else old(includedStackHead)
      decreases Room(), 1, 1
    {
      nextIncludeOptional := false;
      var wordStart := SkipSpaces(line, 0);
      var wordEnd := SkipWord(line, wordStart);
      var word := Lower(line[wordStart..wordEnd]);

      if word != [] && word == OPTIONAL {
        if includeOptional {
          status := Throw(IncludeExpected, currentLine);
          return;
        }
        return Normal, true;
      }

      if word != [] && word == directive && recurse {
        status := ProcessDirective(fs, line, if wordEnd == |line| then 0 else wordEnd + 1, output, root, currentLine,
                                   includeOptional, directive, allowAngle, recurse);
      } else {
        if includeOptional {
          status := Throw(IncludeExpected, currentLine);
          return;
        }
        WriteLine(output, line);
        status := Normal;
      }
    }

    /** An active directive; `from` is where the search for its path starts. */
    method ProcessDirective(fs: FileSystem, line: Text, from: nat, output: OutputStream, root: Text, currentLine: nat,
                            includeOptional: bool, directive: Text, allowAngle: bool, recurse: bool)
      returns (status: Status)
      requires Valid() && output.width == 0
      requires IsActive(Config(root, directive, allowAngle, recurse), line) && from == PathFrom(line)
      modifies this`includeDepth, this`includedStackHead, output`text, output`width
      ensures Valid() && output.width == 0
      ensures var e := ExpandLine(fs, Config(root, directive, allowAngle, recurse), old(includedStackHead), old(Room()),
                                  line, currentLine, includeOptional);
              && output.text == EmitAll(old(output.text), e.lines)
              && status == StatusOf(e.outcome)
              && includedStackHead == if e.outcome.Threw? then e.outcome.stack else old(includedStackHead)
      decreases Room(), 1, 0
    {
      var target := Target(line, from, allowAngle);
      if target.None? {
        status := Throw(WrongDirective, currentLine);
        return;
      }
      var includeFilePath := target.value;
      var entry := fs(root + ['/'] + includeFilePath);

      if entry.Missing? {
        if includeOptional {
          return Normal;
        }
        status := Throw(NotFound(includeFilePath), currentLine);
        return;
      }
      if entry.Unopenable? {
        status := Throw(CantBeOpened(includeFilePath), currentLine);
        return;
      }
      var includeFile := new InputStream(entry.text);
      status := ProcessCore(fs, includeFile, output, root, includeFilePath, currentLine,
                            directive, allowAngle, recurse);
    }

  }
}
