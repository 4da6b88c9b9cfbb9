/** What an exception says is true: the stack it carries is a path of the
    include graph, and the line it blames has the fault it names. */
module Traces {
  import opened Bytes
  import opened SourceFiles
  import opened Directives
  import opened Expansions
  import opened ExpansionLaws
  import opened Reachability

  /** The text of the file on top of a stack on which `root` stands on `base`. */
  ghost function TextOf(fs: FileSystem, cfg: Config, root: Text, base: SourceFileDesc, stack: SourceFileDesc): Text
    requires stack.Desc?
  {
    if stack.includedFrom == base then root
    else
      match Resolve(fs, cfg, stack.path)
      case Content(text) => text
      case _ => []
  }

  /** `number` (counted from 1) is an active directive of `lines` for the file `path`. */
  ghost predicate IncludedAt(fs: FileSystem, cfg: Config, lines: seq<Text>, number: int, path: Text) {
    && 1 <= number <= |lines|
    && Classify(cfg, lines[number - 1]) == Include(path)
    && Resolve(fs, cfg, path).Content?
  }

  /** Down to `base`: below each file stands the one that includes it, at the
      recorded line; on `base` itself stands the root. */
  ghost predicate Truthful(fs: FileSystem, cfg: Config, name: Text, root: Text, base: SourceFileDesc,
                           stack: SourceFileDesc)
  {
    stack.Desc? &&
    if stack.includedFrom == base then stack.path == name && stack.includedLine == 0
    else
      && Truthful(fs, cfg, name, root, base, stack.includedFrom)
      && IncludedAt(fs, cfg, Split(TextOf(fs, cfg, root, base, stack.includedFrom)), stack.includedLine, stack.path)
  }

  /** `fault` is what is wrong with `line`. */
  ghost predicate HasFault(fs: FileSystem, cfg: Config, line: Text, marked: bool, fault: Fault) {
    var kind := Classify(cfg, line);
    match fault
    case IncludeExpected => marked && (kind.Marker? || kind.Plain?)
    case WrongDirective => kind.Malformed?
    case NotFound(file) => kind == Include(file) && Resolve(fs, cfg, file).Missing? && !marked
    case CantBeOpened(file) => kind == Include(file) && Resolve(fs, cfg, file).Unopenable?
    case StackOverflow => false
  }

  /** `fault` is what is wrong at line `number` of `lines`. An overflow names no
      line: one of them includes a file for which there is no room left. */
  ghost predicate Blames(fs: FileSystem, cfg: Config, lines: seq<Text>, fault: Fault, number: nat) {
    if fault.StackOverflow? then number == 0 && exists n, path :: IncludedAt(fs, cfg, lines, n, path)
    else
      && 1 <= number <= |lines|
      && HasFault(fs, cfg, lines[number - 1], MarkedAfter(cfg, lines[..number - 1], false), fault)
  }

  /** All that a throw claims about a run over `root` that began on the stack
      `base`. `limit` is the number of files the stack may hold. */
  ghost predicate Honest(fs: FileSystem, cfg: Config, name: Text, root: Text, base: SourceFileDesc, limit: nat,
                         o: Outcome)
  {
    o.Threw? ==>
      && Truthful(fs, cfg, name, root, base, o.stack)
      && Blames(fs, cfg, Split(TextOf(fs, cfg, root, base, o.stack)), o.fault, o.line)
      && base.Depth() < o.stack.Depth() <= limit
      && (o.fault.StackOverflow? ==> o.stack.Depth() == limit)
  }

  lemma OverflowIsHonest(fs: FileSystem, cfg: Config, name: Text, root: Text, base: SourceFileDesc, limit: nat,
                         stack: SourceFileDesc, path: Text, number: int)
    requires base.Depth() < stack.Depth() == limit && Truthful(fs, cfg, name, root, base, stack)
    requires IncludedAt(fs, cfg, Split(TextOf(fs, cfg, root, base, stack)), number, path)
    ensures Honest(fs, cfg, name, root, base, limit, Threw(StackOverflow, 0, stack))
  {
  }

  lemma FaultOfLine(fs: FileSystem, cfg: Config, here: SourceFileDesc, room: nat, line: Text, number: nat, marked: bool)
    requires var kind := Classify(cfg, line); kind.Include? ==> !Resolve(fs, cfg, kind.path).Content?
    ensures var o := ExpandLine(fs, cfg, here, room, line, number, marked).outcome;
            o.Threw? ==> o.stack == here && o.line == number && HasFault(fs, cfg, line, marked, o.fault)
  {
  }

  lemma OneMoreFrame(fs: FileSystem, cfg: Config, name: Text, root: Text, base: SourceFileDesc,
                     stack: SourceFileDesc, path: Text, number: int, text: Text)
    requires base.Depth() < stack.Depth() && Truthful(fs, cfg, name, root, base, stack)
    requires IncludedAt(fs, cfg, Split(TextOf(fs, cfg, root, base, stack)), number, path)
    requires Resolve(fs, cfg, path) == Content(text)
    ensures var here := Desc(path, stack, number);
            Truthful(fs, cfg, name, root, base, here) && TextOf(fs, cfg, root, base, here) == text
  {
  }

  lemma {:induction false} HonestFile(fs: FileSystem, cfg: Config, name: Text, root: Text, base: SourceFileDesc,
                                      limit: nat, stack: SourceFileDesc, room: nat, path: Text, number: int, text: Text)
    requires stack.Depth() + room == limit && base.Depth() < stack.Depth()
    requires Truthful(fs, cfg, name, root, base, stack)
    requires IncludedAt(fs, cfg, Split(TextOf(fs, cfg, root, base, stack)), number, path)
    requires Resolve(fs, cfg, path) == Content(text)
    ensures Honest(fs, cfg, name, root, base, limit, ExpandFile(fs, cfg, stack, room, path, number, text).outcome)
    decreases room, 0, 1
  {
    if room == 0 {
      OverflowIsHonest(fs, cfg, name, root, base, limit, stack, path, number);
    } else {
      OneMoreFrame(fs, cfg, name, root, base, stack, path, number, text);
      HonestAbove(fs, cfg, name, root, base, limit, stack, room, path, number, text);
    }
  }

  /** A file there is room for. */
  lemma {:induction false} HonestAbove(fs: FileSystem, cfg: Config, name: Text, root: Text, base: SourceFileDesc,
                                       limit: nat, stack: SourceFileDesc, room: nat, path: Text, number: int,
                                       text: Text)
    requires room > 0 && stack.Depth() + room == limit && base.Depth() <= stack.Depth()
    requires var here := Desc(path, stack, number);
             Truthful(fs, cfg, name, root, base, here) && TextOf(fs, cfg, root, base, here) == text
    ensures Honest(fs, cfg, name, root, base, limit, ExpandFile(fs, cfg, stack, room, path, number, text).outcome)
    decreases room, 0, 0
  {
    assert Split(text)[0..] == Split(text);
    HonestLines(fs, cfg, name, root, base, limit, Desc(path, stack, number), room - 1, Split(text), 0);
  }

  lemma {:induction false} HonestLine(fs: FileSystem, cfg: Config, name: Text, root: Text, base: SourceFileDesc,
                                      limit: nat, here: SourceFileDesc, room: nat, lines: seq<Text>, i: nat)
    requires here.Depth() + room == limit && base.Depth() < here.Depth()
    requires Truthful(fs, cfg, name, root, base, here)
    requires i < |lines| && lines == Split(TextOf(fs, cfg, root, base, here))
    ensures Honest(fs, cfg, name, root, base, limit,
                   ExpandLine(fs, cfg, here, room, lines[i], i + 1, MarkedAfter(cfg, lines[..i], false)).outcome)
    decreases room, 1, 0
  {
    var kind := Classify(cfg, lines[i]);
    if kind.Include? && Resolve(fs, cfg, kind.path).Content? {
      var text := Resolve(fs, cfg, kind.path).text;
      HonestFile(fs, cfg, name, root, base, limit, here, room, kind.path, i + 1, text);
    } else {
      FaultOfLine(fs, cfg, here, room, lines[i], i + 1, MarkedAfter(cfg, lines[..i], false));
    }
  }

  lemma {:induction false} HonestLines(fs: FileSystem, cfg: Config, name: Text, root: Text, base: SourceFileDesc,
                                       limit: nat, here: SourceFileDesc, room: nat, lines: seq<Text>, i: nat)
    requires here.Depth() + room == limit && base.Depth() < here.Depth()
    requires Truthful(fs, cfg, name, root, base, here)
    requires i <= |lines| && lines == Split(TextOf(fs, cfg, root, base, here))
    ensures Honest(fs, cfg, name, root, base, limit,
                   ExpandLines(fs, cfg, here, room, lines[i..], i, MarkedAfter(cfg, lines[..i], false)).outcome)
    decreases room, |lines| - i + 1, 1
  {
    if i < |lines| {
      HonestLine(fs, cfg, name, root, base, limit, here, room, lines, i);
      HonestLines(fs, cfg, name, root, base, limit, here, room, lines, i + 1);
      assert lines[i..][1..] == lines[i + 1..];
    }
  }

  /** Every exception is honest about the frames of its own run, whatever stack
      `base` the run began on. */
  lemma ExceptionsAreHonest(fs: FileSystem, cfg: Config, name: Text, base: SourceFileDesc, room: nat, text: Text)
    ensures var o := ExpandFile(fs, cfg, base, room, name, 0, text).outcome;
            if room == 0 then o == Threw(StackOverflow, 0, base)
            else Honest(fs, cfg, name, text, base, base.Depth() + room, o)
  {
    if room > 0 {
      HonestAbove(fs, cfg, name, text, base, base.Depth() + room, base, room, name, 0, text);
    }
  }

  lemma {:induction false} OneBase(fs: FileSystem, cfg: Config, name: Text, root: Text, base: SourceFileDesc,
                                   stack: SourceFileDesc)
    requires base.Desc? && Truthful(fs, cfg, name, root, base, stack)
    ensures !Truthful(fs, cfg, name, root, Null, stack)
    decreases stack
  {
    if stack.includedFrom != base {
      OneBase(fs, cfg, name, root, base, stack.includedFrom);
    }
  }

  /** The whole stack of an exception is a path of the include graph from the
      root exactly when the run began on an empty stack. On an inliner that has
      thrown before, the trace goes on to say that the new root was included
      from line 0 of the file that failed then, which never happened. With no
      room even for the root, the stack is the one the run began on. */
  lemma WholeStackTruthfulIff(fs: FileSystem, cfg: Config, name: Text, base: SourceFileDesc, room: nat, text: Text)
    requires ExpandFile(fs, cfg, base, room, name, 0, text).outcome.Threw?
    ensures Truthful(fs, cfg, name, text, Null, ExpandFile(fs, cfg, base, room, name, 0, text).outcome.stack) <==>
            if room > 0 then base.Null? else Truthful(fs, cfg, name, text, Null, base)
  {
    ExceptionsAreHonest(fs, cfg, name, base, room, text);
    if room > 0 && base.Desc? {
      OneBase(fs, cfg, name, text, base, ExpandFile(fs, cfg, base, room, name, 0, text).outcome.stack);
    }
  }

  lemma PathInLine(cfg: Config, line: Text)
    requires NL !in line && Classify(cfg, line).Include?
    ensures NL !in Classify(cfg, line).path
  {
  }

  lemma IncludedPathIsClean(fs: FileSystem, cfg: Config, parent: Text, number: int, path: Text)
    requires IncludedAt(fs, cfg, Split(parent), number, path)
    ensures NL !in path
  {
    SplitIsClean(parent);
    PathInLine(cfg, Split(parent)[number - 1]);
  }

  lemma {:induction false} TruthfulPathsAreClean(fs: FileSystem, cfg: Config, name: Text, root: Text,
                                                 base: SourceFileDesc, stack: SourceFileDesc)
    requires Truthful(fs, cfg, name, root, base, stack)
    ensures CleanPaths(stack) <==> NL !in name && CleanPaths(base)
    decreases stack
  {
    if stack.includedFrom != base {
      TruthfulPathsAreClean(fs, cfg, name, root, base, stack.includedFrom);
      var parent := TextOf(fs, cfg, root, base, stack.includedFrom);
      IncludedPathIsClean(fs, cfg, parent, stack.includedLine, stack.path);
    }
  }

  /** The printed trace of an exception, read back, is the stack it was thrown
      on, exactly when neither the root's name, if there was room for the root,
      nor a path left behind by an earlier failure has a newline. */
  lemma {:induction false} PrintedTraceIsTrue(fs: FileSystem, cfg: Config, name: Text, base: SourceFileDesc, room: nat,
                                              text: Text)
    ensures var o := ExpandFile(fs, cfg, base, room, name, 0, text).outcome;
            o.Threw? ==>
              && (room > 0 ==> Honest(fs, cfg, name, text, base, base.Depth() + room, o))
              && (ParseTrace(TraceText(o.stack, o.line)) == Some(Places(o.stack, o.line)) <==>
                  (room > 0 ==> NL !in name) && CleanPaths(base))
  {
    ExceptionsAreHonest(fs, cfg, name, base, room, text);
    var o := ExpandFile(fs, cfg, base, room, name, 0, text).outcome;
    if o.Threw? {
      TraceRoundTrip(o.stack, o.line);
      if room > 0 {
        TruthfulPathsAreClean(fs, cfg, name, text, base, o.stack);
      }
    }
  }

  // ----- an inliner used again -----

  /** An exception leaves its frames on the stack, so an inliner used again after
      one has that much less room: the next root must fit what is left, and
      after an overflow nothing does. */
  lemma ReuseAfterFailure(fs: FileSystem, cfg: Config, name: Text, base: SourceFileDesc, room: nat, text: Text,
                          fs': FileSystem, cfg': Config, name': Text, text': Text)
    requires room > 0 && ExpandFile(fs, cfg, base, room, name, 0, text).outcome.Threw?
    ensures var o := ExpandFile(fs, cfg, base, room, name, 0, text).outcome;
            && 0 < o.stack.Depth() - base.Depth() <= room
            && var left := room - (o.stack.Depth() - base.Depth());
               var again := ExpandFile(fs', cfg', o.stack, left, name', 0, text').outcome;
               && (again.Returned? <==> Fits(fs', cfg', left, text'))
               && (o.fault.StackOverflow? ==> again == Threw(StackOverflow, 0, o.stack))
  {
    ExceptionsAreHonest(fs, cfg, name, base, room, text);
    var o := ExpandFile(fs, cfg, base, room, name, 0, text).outcome;
    ExpandsIff(fs', cfg', o.stack, room - (o.stack.Depth() - base.Depth()), name', 0, text');
  }

  lemma MalformedFile(fs: FileSystem, cfg: Config, base: SourceFileDesc, room: nat, name: Text, text: Text)
    requires room > 0 && Split(text) == [text] && Classify(cfg, text).Malformed?
    ensures ExpandFile(fs, cfg, base, room, name, 0, text) == Fails(WrongDirective, 1, Desc(name, base, 0))
  {
    assert [text] + [] == [text];
    ExpandCons(fs, cfg, Desc(name, base, 0), room - 1, text, [], 0, false);
  }
}
