/** How expansions compose, and what they do not depend on. */
module ExpansionLaws {
  import opened Bytes
  import opened SourceFiles
  import opened Directives
  import opened Expansions

  /** Whether the line behind `lines` stands under a marker. */
  function MarkedAfter(cfg: Config, lines: seq<Text>, marked: bool): bool {
    if lines == [] then marked else Classify(cfg, lines[|lines| - 1]).Marker?
  }

  lemma ExpandCons(fs: FileSystem, cfg: Config, here: SourceFileDesc, room: nat,
                   line: Text, lines: seq<Text>, done: nat, marked: bool)
    ensures ExpandLines(fs, cfg, here, room, [line] + lines, done, marked) ==
            ExpandLine(fs, cfg, here, room, line, done + 1, marked).Then(
              ExpandLines(fs, cfg, here, room, lines, done + 1, Classify(cfg, line).Marker?))
  {
  }

  lemma ThenAssociates(a: Expansion, b: Expansion, c: Expansion)
    ensures a.Then(b).Then(c) == a.Then(b.Then(c))
  {
  }

  lemma AppendParts(a: seq<Text>, b: seq<Text>)
    requires a != []
    ensures [a[0]] + a[1..] == a && [a[0]] + (a[1..] + b) == a + b
  {
  }

  lemma AppendCons(fs: FileSystem, cfg: Config, here: SourceFileDesc, room: nat,
                   line: Text, tail: seq<Text>, b: seq<Text>, done: nat, marked: bool, last: Expansion)
    requires var next := Classify(cfg, line).Marker?;
             ExpandLines(fs, cfg, here, room, tail + b, done + 1, next) ==
             ExpandLines(fs, cfg, here, room, tail, done + 1, next).Then(last)
    ensures ExpandLines(fs, cfg, here, room, [line] + (tail + b), done, marked) ==
            ExpandLines(fs, cfg, here, room, [line] + tail, done, marked).Then(last)
  {
    ExpandCons(fs, cfg, here, room, line, tail, done, marked);
    ExpandCons(fs, cfg, here, room, line, tail + b, done, marked);
    ThenAssociates(ExpandLine(fs, cfg, here, room, line, done + 1, marked),
                   ExpandLines(fs, cfg, here, room, tail, done + 1, Classify(cfg, line).Marker?), last);
  }

  /** Two runs of lines expand one after the other. */
  lemma {:induction false} ExpandAppend(fs: FileSystem, cfg: Config, here: SourceFileDesc, room: nat,
                                        a: seq<Text>, b: seq<Text>, done: nat, marked: bool)
    ensures ExpandLines(fs, cfg, here, room, a + b, done, marked) ==
            ExpandLines(fs, cfg, here, room, a, done, marked).Then(
              ExpandLines(fs, cfg, here, room, b, done + |a|, MarkedAfter(cfg, a, marked)))
    decreases |a|
  {
    if a == [] {
      assert a + b == b;
    } else {
      var line, tail := a[0], a[1..];
      var last := ExpandLines(fs, cfg, here, room, b, done + |a|, MarkedAfter(cfg, a, marked));
      ExpandAppend(fs, cfg, here, room, tail, b, done + 1, Classify(cfg, line).Marker?);
      AppendCons(fs, cfg, here, room, line, tail, b, done, marked, last);
      AppendParts(a, b);
    }
  }

  function Paths(stack: SourceFileDesc): seq<Text> {
    if stack.Null? then [] else [stack.path] + Paths(stack.includedFrom)
  }

  /** Same text and same kind of ending; the stack may differ. */
  ghost predicate Same(a: Expansion, b: Expansion) {
    && a.lines == b.lines
    && (a.outcome.Returned? <==> b.outcome.Returned?)
    && (a.outcome.Threw? ==> a.outcome.fault == b.outcome.fault)
  }

  /** ... and the same files on the stack; only line numbers may differ. */
  ghost predicate SameButLines(a: Expansion, b: Expansion) {
    Same(a, b) && (a.outcome.Threw? ==> Paths(a.outcome.stack) == Paths(b.outcome.stack))
  }

  /** What a file expands to does not depend on how it was reached. */
  lemma {:induction false} FileShift(fs: FileSystem, cfg: Config, room: nat, path: Text, text: Text,
                                     stack: SourceFileDesc, line: int, stack': SourceFileDesc, path': Text, line': int)
    ensures var a := ExpandFile(fs, cfg, stack, room, path, line, text);
            var b := ExpandFile(fs, cfg, stack', room, path', line', text);
            && Same(a, b)
            && (path == path' && Paths(stack) == Paths(stack') ==> SameButLines(a, b))
    decreases room, 0, 0
  {
    if room > 0 {
      var here, here' := Desc(path, stack, line), Desc(path', stack', line');
      LinesShift(fs, cfg, room - 1, Split(text), false, here, 0, here', 0);
    }
  }

  lemma {:induction false} LineShift(fs: FileSystem, cfg: Config, room: nat, line: Text, marked: bool,
                                     here: SourceFileDesc, n: nat, here': SourceFileDesc, n': nat)
    ensures var a := ExpandLine(fs, cfg, here, room, line, n, marked);
            var b := ExpandLine(fs, cfg, here', room, line, n', marked);
            && Same(a, b)
            && (Paths(here) == Paths(here') ==> SameButLines(a, b))
    decreases room, 1, 0
  {
    var kind := Classify(cfg, line);
    if kind.Include? && Resolve(fs, cfg, kind.path).Content? {
      FileShift(fs, cfg, room, kind.path, Resolve(fs, cfg, kind.path).text, here, n, here', kind.path, n');
    }
  }

  /** Nor do the lines of a file depend on their numbers. */
  lemma {:induction false} LinesShift(fs: FileSystem, cfg: Config, room: nat, lines: seq<Text>, marked: bool,
                                      here: SourceFileDesc, done: nat, here': SourceFileDesc, done': nat)
    ensures var a := ExpandLines(fs, cfg, here, room, lines, done, marked);
            var b := ExpandLines(fs, cfg, here', room, lines, done', marked);
            && Same(a, b)
            && (Paths(here) == Paths(here') ==> SameButLines(a, b))
    decreases room, |lines|, 1
  {
    if lines != [] {
      LineShift(fs, cfg, room, lines[0], marked, here, done + 1, here', done' + 1);
      LinesShift(fs, cfg, room, lines[1..], Classify(cfg, lines[0]).Marker?, here, done + 1, here', done' + 1);
    }
  }

  ghost predicate Overflows(e: Expansion) {
    e.outcome.Threw? && e.outcome.fault.StackOverflow?
  }

  /** A run that does not overflow the stack is the same under any larger limit. */
  lemma {:induction false} LimitStability(fs: FileSystem, cfg: Config, stack: SourceFileDesc, room: nat, room': nat,
                                          path: Text, line: int, text: Text)
    requires room <= room' && !Overflows(ExpandFile(fs, cfg, stack, room, path, line, text))
    ensures ExpandFile(fs, cfg, stack, room', path, line, text) == ExpandFile(fs, cfg, stack, room, path, line, text)
    decreases room, 0, 0
  {
    if room > 0 {
      LinesStability(fs, cfg, Desc(path, stack, line), room - 1, room' - 1, Split(text), 0, false);
    }
  }

  lemma {:induction false} LineStability(fs: FileSystem, cfg: Config, here: SourceFileDesc, room: nat, room': nat,
                                         line: Text, number: nat, marked: bool)
    requires room <= room' && !Overflows(ExpandLine(fs, cfg, here, room, line, number, marked))
    ensures ExpandLine(fs, cfg, here, room', line, number, marked) ==
            ExpandLine(fs, cfg, here, room, line, number, marked)
    decreases room, 1, 0
  {
    var kind := Classify(cfg, line);
    if kind.Include? && Resolve(fs, cfg, kind.path).Content? {
      LimitStability(fs, cfg, here, room, room', kind.path, number, Resolve(fs, cfg, kind.path).text);
    }
  }

  lemma {:induction false} LinesStability(fs: FileSystem, cfg: Config, here: SourceFileDesc, room: nat, room': nat,
                                          lines: seq<Text>, done: nat, marked: bool)
    requires room <= room' && !Overflows(ExpandLines(fs, cfg, here, room, lines, done, marked))
    ensures ExpandLines(fs, cfg, here, room', lines, done, marked) ==
            ExpandLines(fs, cfg, here, room, lines, done, marked)
    decreases room, |lines|, 1
  {
    if lines != [] {
      LineStability(fs, cfg, here, room, room', lines[0], done + 1, marked);
      if ExpandLine(fs, cfg, here, room, lines[0], done + 1, marked).outcome.Returned? {
        LinesStability(fs, cfg, here, room, room', lines[1..], done + 1, Classify(cfg, lines[0]).Marker?);
      }
    }
  }
}
