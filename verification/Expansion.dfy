/** What expanding a file means: the lines it contributes, and how it ends. */
module Expansions {
  import opened Bytes
  import opened SourceFiles
  import opened Directives

  /** What stands behind a path: nothing, something that does not open, or a file. */
  datatype Entry = Missing | Unopenable | Content(text: Text)

  type FileSystem = Text -> Entry

  datatype Fault =
    | StackOverflow
    | IncludeExpected
    | WrongDirective
    | NotFound(file: Text)
    | CantBeOpened(file: Text)

  /** `Threw` records the include stack at the throw and the line blamed in its
      innermost file. */
  datatype Outcome = Returned | Threw(fault: Fault, line: nat, stack: SourceFileDesc)

  /** The lines contributed before the end, in order. */
  datatype Expansion = Expansion(lines: seq<Text>, outcome: Outcome) {
    /** `this`, and then `next` unless this one threw. */
    function Then(next: Expansion): Expansion {
      if outcome.Threw? then this else Expansion(lines + next.lines, next.outcome)
    }
  }

  function Resolve(fs: FileSystem, cfg: Config, path: Text): Entry {
    fs(cfg.root + ['/'] + path)
  }

  function Fails(fault: Fault, line: nat, stack: SourceFileDesc): Expansion {
    Expansion([], Threw(fault, line, stack))
  }

  /** A whole file, `room` being how many more files the stack may take. */
  function ExpandFile(fs: FileSystem, cfg: Config, stack: SourceFileDesc, room: nat,
                      path: Text, includedLine: int, text: Text): Expansion
    decreases room, 0, 0
  {
    if room == 0 then Fails(StackOverflow, 0, stack)
    else ExpandLines(fs, cfg, Desc(path, stack, includedLine), room - 1, Split(text), 0, false)
  }

  /** The lines of file `here` that follow the first `done`; `marked` tells that
      the line just before them was an optional-include marker. */
  function ExpandLines(fs: FileSystem, cfg: Config, here: SourceFileDesc, room: nat,
                       lines: seq<Text>, done: nat, marked: bool): Expansion
    decreases room, |lines|, 1
  {
    if lines == [] then Expansion([], Returned)
    else ExpandLine(fs, cfg, here, room, lines[0], done + 1, marked).Then(
           ExpandLines(fs, cfg, here, room, lines[1..], done + 1, Classify(cfg, lines[0]).Marker?))
  }

  function ExpandLine(fs: FileSystem, cfg: Config, here: SourceFileDesc, room: nat,
                      line: Text, number: nat, marked: bool): Expansion
    decreases room, 1, 0
  {
    match Classify(cfg, line)
    case Marker => if marked then Fails(IncludeExpected, number, here) else Expansion([], Returned)
    case Plain => if marked then Fails(IncludeExpected, number, here) else Expansion([line], Returned)
    case Malformed => Fails(WrongDirective, number, here)
    case Include(path) =>
      match Resolve(fs, cfg, path)
      case Missing => if marked then Expansion([], Returned) else Fails(NotFound(path), number, here)
      case Unopenable => Fails(CantBeOpened(path), number, here)
      case Content(text) => ExpandFile(fs, cfg, here, room, path, number, text)
  }
}
