/** How a call of the inliner ends, and what its exception tells. */
module Exceptions {
  import opened Bytes
  import opened SourceFiles
  import opened Directives
  import opened Expansions
  import opened ReadingOrder
  import opened FirstFaults

  /** One constructor of `Fault` for each exception class. */
  datatype InlineException = InlineException(fault: Fault, trace: Text)

  /** How a call ends: normally, or by an exception passing through. */
  datatype Status = Normal | Thrown(exception: InlineException)

  function StatusOf(outcome: Outcome): Status {
    match outcome
    case Returned => Normal
    case Threw(fault, line, stack) => Thrown(InlineException(fault, TraceText(stack, line)))
  }

  // ----- what the status must be, without running anything -----

  /** `trace` is printed from `stack`, with `line` as the line of the file on top;
      it reads back as just that, unless a path has a newline. */
  ghost predicate Tells(trace: Text, stack: SourceFileDesc, line: int) {
    && trace == TraceText(stack, line)
    && (ParseTrace(trace) == Some(Places(stack, line)) <==> CleanPaths(stack))
  }

  /** Some line that can be reached is at fault. */
  ghost predicate Faulty(fs: FileSystem, cfg: Config, above: nat, lines: seq<Text>) {
    exists pos :: BadAt(fs, cfg, above, lines, pos)
  }

  /** `x` has the fault of the line at `pos`, the first at fault, and its trace
      leads there: `o` is what is to be reported. */
  ghost predicate Blamed(fs: FileSystem, cfg: Config, here: SourceFileDesc, above: nat, lines: seq<Text>,
                         pos: Position, o: Outcome, x: InlineException)
  {
    && FirstBad(fs, cfg, above, lines, 0, pos) && Reports(fs, cfg, here, above, lines, pos, o)
    && o.Threw? && x.fault == o.fault && Tells(x.trace, o.stack, o.line)
  }

  ghost predicate Raises(fs: FileSystem, cfg: Config, here: SourceFileDesc, above: nat, lines: seq<Text>,
                         x: InlineException)
  {
    exists pos, o :: Blamed(fs, cfg, here, above, lines, pos, o, x)
  }

  /** With room for its root and `above` more files, a call throws if some line
      that can be reached is at fault, and only then, and reports the first. */
  ghost predicate AnswersAbove(fs: FileSystem, cfg: Config, here: SourceFileDesc, above: nat, lines: seq<Text>,
                               status: Status)
  {
    && (status.Thrown? <==> Faulty(fs, cfg, above, lines))
    && (status.Thrown? ==> Raises(fs, cfg, here, above, lines, status.exception))
  }

  /** What a call over `text` must answer that begins on the stack `base` with
      room for `room` files. Without room for its root it overflows where it
      stands. */
  ghost predicate Answers(fs: FileSystem, cfg: Config, base: SourceFileDesc, room: nat, path: Text, line: int,
                          text: Text, status: Status)
  {
    if room == 0 then
      status.Thrown? && status.exception.fault == StackOverflow && Tells(status.exception.trace, base, 0)
    else AnswersAbove(fs, cfg, Desc(path, base, line), room - 1, Split(text), status)
  }

  lemma ToldIs(stack: SourceFileDesc, line: int)
    ensures Tells(TraceText(stack, line), stack, line)
  {
    TraceRoundTrip(stack, line);
  }

  lemma {:induction false} StatusIsRaised(fs: FileSystem, cfg: Config, base: SourceFileDesc, above: nat,
                                          path: Text, line: int, text: Text)
    ensures var o := ExpandFile(fs, cfg, base, above + 1, path, line, text).outcome;
            AnswersAbove(fs, cfg, Desc(path, base, line), above, Split(text), StatusOf(o))
  {
    var e, lines := ExpandFile(fs, cfg, base, above + 1, path, line, text), Split(text);
    if e.outcome.Threw? {
      var pos, ps := RunStops(fs, cfg, base, above, path, line, text);
      ToldIs(e.outcome.stack, e.outcome.line);
      assert Blamed(fs, cfg, Desc(path, base, line), above, lines, pos, e.outcome, StatusOf(e.outcome).exception);
    }
    if pos :| BadAt(fs, cfg, above, lines, pos) {
      BadThrows(fs, cfg, base, above, path, line, text, pos);
    }
  }

  /** The status of an expansion is what it must be. */
  lemma {:induction false} StatusAnswers(fs: FileSystem, cfg: Config, base: SourceFileDesc, room: nat,
                                         path: Text, line: int, text: Text)
    ensures Answers(fs, cfg, base, room, path, line, text,
                    StatusOf(ExpandFile(fs, cfg, base, room, path, line, text).outcome))
  {
    if room > 0 {
      StatusIsRaised(fs, cfg, base, room - 1, path, line, text);
    } else {
      ToldIs(base, 0);
    }
  }

  lemma {:induction false} RaisedIsUnique(fs: FileSystem, cfg: Config, here: SourceFileDesc, above: nat,
                                          lines: seq<Text>, x: InlineException, y: InlineException)
    requires Raises(fs, cfg, here, above, lines, x) && Raises(fs, cfg, here, above, lines, y)
    ensures x == y
  {
    var pos, o :| Blamed(fs, cfg, here, above, lines, pos, o, x);
    var pos', o' :| Blamed(fs, cfg, here, above, lines, pos', o', y);
    BadAreOrdered(fs, cfg, above, lines, pos, pos');
    ReportIsUnique(fs, cfg, here, above, lines, pos, o, o');
  }

  lemma AnswerAboveIsUnique(fs: FileSystem, cfg: Config, here: SourceFileDesc, above: nat, lines: seq<Text>,
                            a: Status, b: Status)
    requires AnswersAbove(fs, cfg, here, above, lines, a) && AnswersAbove(fs, cfg, here, above, lines, b)
    ensures a == b
  {
    if a.Thrown? {
      RaisedIsUnique(fs, cfg, here, above, lines, a.exception, b.exception);
    }
  }

  /** Nothing else is. */
  lemma {:induction false} AnswerAboveIs(fs: FileSystem, cfg: Config, base: SourceFileDesc, above: nat,
                                         path: Text, line: int, text: Text, status: Status)
    requires AnswersAbove(fs, cfg, Desc(path, base, line), above, Split(text), status)
    ensures status == StatusOf(ExpandFile(fs, cfg, base, above + 1, path, line, text).outcome)
  {
    StatusIsRaised(fs, cfg, base, above, path, line, text);
    AnswerAboveIsUnique(fs, cfg, Desc(path, base, line), above, Split(text), status,
                        StatusOf(ExpandFile(fs, cfg, base, above + 1, path, line, text).outcome));
  }
}
