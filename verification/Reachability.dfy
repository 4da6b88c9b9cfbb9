/** The depth limit as a cycle detector: exactly which roots expand. */
module Reachability {
  import opened Bytes
  import opened SourceFiles
  import opened Directives
  import opened Expansions
  import opened ExpansionLaws

  /** Whether expanding `text` with room for `room` files, itself included,
      ends normally. By FileShift nothing else about the call matters. */
  ghost predicate Expands(fs: FileSystem, cfg: Config, room: nat, text: Text) {
    ExpandFile(fs, cfg, Null, room, [], 0, text).outcome.Returned?
  }

  lemma {:induction false} ExpandsAnywhere(fs: FileSystem, cfg: Config, stack: SourceFileDesc, room: nat,
                                           path: Text, line: int, text: Text)
    ensures ExpandFile(fs, cfg, stack, room, path, line, text).outcome.Returned? <==> Expands(fs, cfg, room, text)
  {
    FileShift(fs, cfg, room, path, text, stack, line, Null, [], 0);
  }

  // ----- the include graph -----

  /** `lines` hold an active directive that leads to the file `path`. */
  ghost predicate Includes(fs: FileSystem, cfg: Config, lines: seq<Text>, path: Text) {
    Resolve(fs, cfg, path).Content? && exists l :: l in lines && Classify(cfg, l) == Include(path)
  }

  /** The include graph, followed from `text` along `paths`. */
  ghost predicate Chain(fs: FileSystem, cfg: Config, text: Text, paths: seq<Text>)
    decreases |paths|
  {
    paths != [] ==>
      && Includes(fs, cfg, Split(text), paths[0])
      && Chain(fs, cfg, Resolve(fs, cfg, paths[0]).text, paths[1..])
  }

  /** The file a chain leads to. */
  ghost function EndOf(fs: FileSystem, cfg: Config, text: Text, paths: seq<Text>): Text
    requires Chain(fs, cfg, text, paths)
    decreases |paths|
  {
    if paths == [] then text else EndOf(fs, cfg, Resolve(fs, cfg, paths[0]).text, paths[1..])
  }

  /** A line that can be expanded at all: only includes stand under a marker,
      and a path that is missing has one. */
  ghost predicate GoodLine(fs: FileSystem, cfg: Config, line: Text, marked: bool) {
    match Classify(cfg, line)
    case Marker => !marked
    case Plain => !marked
    case Malformed => false
    case Include(path) =>
      match Resolve(fs, cfg, path)
      case Missing => marked
      case Unopenable => false
      case Content(_) => true
  }

  ghost predicate GoodAt(fs: FileSystem, cfg: Config, lines: seq<Text>, marked: bool, i: nat)
    requires i < |lines|
  {
    GoodLine(fs, cfg, lines[i], MarkedAfter(cfg, lines[..i], marked))
  }

  ghost predicate WellFormed(fs: FileSystem, cfg: Config, lines: seq<Text>, marked: bool) {
    forall i :: 0 <= i < |lines| ==> GoodAt(fs, cfg, lines, marked, i)
  }

  lemma WellFormedCons(fs: FileSystem, cfg: Config, lines: seq<Text>, marked: bool)
    requires lines != []
    ensures WellFormed(fs, cfg, lines, marked) <==>
            GoodLine(fs, cfg, lines[0], marked) && WellFormed(fs, cfg, lines[1..], Classify(cfg, lines[0]).Marker?)
  {
    var next := Classify(cfg, lines[0]).Marker?;
    forall i | 0 <= i < |lines|
      ensures GoodAt(fs, cfg, lines, marked, i) <==>
              if i == 0 then GoodLine(fs, cfg, lines[0], marked) else GoodAt(fs, cfg, lines[1..], next, i - 1)
    {
      if i > 0 { assert lines[1..][..i - 1] == lines[1..i]; }
    }
    if WellFormed(fs, cfg, lines, marked) {
      assert GoodAt(fs, cfg, lines, marked, 0);
      forall i | 0 <= i < |lines[1..]| ensures GoodAt(fs, cfg, lines[1..], next, i) {
        assert GoodAt(fs, cfg, lines, marked, i + 1);
      }
    }
  }

  /** Every file these lines include expands. */
  ghost predicate AllExpand(fs: FileSystem, cfg: Config, room: nat, lines: seq<Text>) {
    forall path :: Includes(fs, cfg, lines, path) ==> Expands(fs, cfg, room, Resolve(fs, cfg, path).text)
  }

  lemma AllExpandCons(fs: FileSystem, cfg: Config, room: nat, lines: seq<Text>)
    requires lines != []
    ensures AllExpand(fs, cfg, room, lines) <==>
            AllExpand(fs, cfg, room, [lines[0]]) && AllExpand(fs, cfg, room, lines[1..])
  {
  }

  lemma LineExpands(fs: FileSystem, cfg: Config, here: SourceFileDesc, room: nat, line: Text, n: nat, marked: bool)
    ensures ExpandLine(fs, cfg, here, room, line, n, marked).outcome.Returned? <==>
            GoodLine(fs, cfg, line, marked) && AllExpand(fs, cfg, room, [line])
  {
    var kind := Classify(cfg, line);
    assert line in [line];
    if kind.Include? && Resolve(fs, cfg, kind.path).Content? {
      var text := Resolve(fs, cfg, kind.path).text;
      assert Includes(fs, cfg, [line], kind.path);
      FileShift(fs, cfg, room, kind.path, text, here, n, Null, [], 0);
    }
  }

  lemma {:induction false} LinesExpand(fs: FileSystem, cfg: Config, here: SourceFileDesc, room: nat,
                                       lines: seq<Text>, done: nat, marked: bool)
    ensures ExpandLines(fs, cfg, here, room, lines, done, marked).outcome.Returned? <==>
            WellFormed(fs, cfg, lines, marked) && AllExpand(fs, cfg, room, lines)
    decreases |lines|
  {
    if lines != [] {
      LineExpands(fs, cfg, here, room, lines[0], done + 1, marked);
      LinesExpand(fs, cfg, here, room, lines[1..], done + 1, Classify(cfg, lines[0]).Marker?);
      WellFormedCons(fs, cfg, lines, marked);
      AllExpandCons(fs, cfg, room, lines);
    }
  }

  lemma FileExpands(fs: FileSystem, cfg: Config, room: nat, text: Text)
    ensures Expands(fs, cfg, room, text) <==>
            room > 0 && WellFormed(fs, cfg, Split(text), false) && AllExpand(fs, cfg, room - 1, Split(text))
  {
    if room > 0 {
      LinesExpand(fs, cfg, Desc([], Null, 0), room - 1, Split(text), 0, false);
    }
  }

  // ----- completeness and soundness of the limit -----

  lemma {:induction false} ExpandsAlong(fs: FileSystem, cfg: Config, room: nat, text: Text, paths: seq<Text>)
    requires Expands(fs, cfg, room, text) && Chain(fs, cfg, text, paths)
    ensures |paths| < room && Expands(fs, cfg, room - |paths|, EndOf(fs, cfg, text, paths))
    decreases |paths|
  {
    FileExpands(fs, cfg, room, text);
    if paths != [] {
      ExpandsAlong(fs, cfg, room - 1, Resolve(fs, cfg, paths[0]).text, paths[1..]);
    }
  }

  /** The file a chain leads to, if it is one, is well-formed and fewer than
      `room` includes deep. */
  ghost predicate FitsAlong(fs: FileSystem, cfg: Config, room: nat, text: Text, paths: seq<Text>) {
    Chain(fs, cfg, text, paths) ==> |paths| < room && WellFormed(fs, cfg, Split(EndOf(fs, cfg, text, paths)), false)
  }

  /** Every file reached is. */
  ghost predicate Fits(fs: FileSystem, cfg: Config, room: nat, text: Text) {
    forall paths :: FitsAlong(fs, cfg, room, text, paths)
  }

  lemma ChainAbove(fs: FileSystem, cfg: Config, text: Text, path: Text, paths: seq<Text>)
    requires Includes(fs, cfg, Split(text), path) && Chain(fs, cfg, Resolve(fs, cfg, path).text, paths)
    ensures Chain(fs, cfg, text, [path] + paths)
    ensures EndOf(fs, cfg, text, [path] + paths) == EndOf(fs, cfg, Resolve(fs, cfg, path).text, paths)
  {
  }

  lemma {:induction false} FitsBelow(fs: FileSystem, cfg: Config, room: nat, text: Text, path: Text)
    requires Fits(fs, cfg, room, text) && room > 0 && Includes(fs, cfg, Split(text), path)
    ensures Fits(fs, cfg, room - 1, Resolve(fs, cfg, path).text)
  {
    var child, above := Resolve(fs, cfg, path).text, room - 1;
    forall paths ensures FitsAlong(fs, cfg, above, child, paths) {
      if Chain(fs, cfg, child, paths) {
        ChainAbove(fs, cfg, text, path, paths);
        assert FitsAlong(fs, cfg, room, text, [path] + paths);
      }
    }
  }

  lemma FitsItself(fs: FileSystem, cfg: Config, room: nat, text: Text)
    requires Fits(fs, cfg, room, text)
    ensures room > 0 && WellFormed(fs, cfg, Split(text), false)
  {
    assert FitsAlong(fs, cfg, room, text, []);
    assert EndOf(fs, cfg, text, []) == text;
  }

  lemma {:induction false} ExpandsIfFits(fs: FileSystem, cfg: Config, room: nat, text: Text)
    requires Fits(fs, cfg, room, text)
    ensures Expands(fs, cfg, room, text)
    decreases room
  {
    FitsItself(fs, cfg, room, text);
    forall path | Includes(fs, cfg, Split(text), path)
      ensures Expands(fs, cfg, room - 1, Resolve(fs, cfg, path).text)
    {
      FitsBelow(fs, cfg, room, text, path);
      ExpandsIfFits(fs, cfg, room - 1, Resolve(fs, cfg, path).text);
    }
    FileExpands(fs, cfg, room, text);
  }

  /** A run ends normally exactly when every file that can be reached is
      well-formed and every chain of includes fits under the limit. */
  lemma {:induction false} ExpandsIff(fs: FileSystem, cfg: Config, stack: SourceFileDesc, room: nat,
                                      path: Text, line: int, text: Text)
    ensures ExpandFile(fs, cfg, stack, room, path, line, text).outcome.Returned? <==> Fits(fs, cfg, room, text)
  {
    FileShift(fs, cfg, room, path, text, stack, line, Null, [], 0);
    if Expands(fs, cfg, room, text) {
      forall paths ensures FitsAlong(fs, cfg, room, text, paths) {
        if Chain(fs, cfg, text, paths) {
          ExpandsAlong(fs, cfg, room, text, paths);
          FileExpands(fs, cfg, room - |paths|, EndOf(fs, cfg, text, paths));
        }
      }
    }
    if Fits(fs, cfg, room, text) {
      ExpandsIfFits(fs, cfg, room, text);
    }
  }

  // ----- cycles -----

  /** A file that reaches itself expands under no limit. */
  lemma {:induction false} NoLimitForCycles(fs: FileSystem, cfg: Config, room: nat, text: Text, paths: seq<Text>)
    requires paths != [] && Chain(fs, cfg, text, paths) && EndOf(fs, cfg, text, paths) == text
    ensures !Expands(fs, cfg, room, text)
    decreases room
  {
    if Expands(fs, cfg, room, text) {
      ExpandsAlong(fs, cfg, room, text, paths);
      NoLimitForCycles(fs, cfg, room - |paths|, text, paths);
    }
  }

  lemma {:induction false} ChainSplits(fs: FileSystem, cfg: Config, text: Text, paths: seq<Text>, i: nat)
    requires i <= |paths| && Chain(fs, cfg, text, paths)
    ensures Chain(fs, cfg, text, paths[..i])
    ensures Chain(fs, cfg, EndOf(fs, cfg, text, paths[..i]), paths[i..])
    ensures EndOf(fs, cfg, EndOf(fs, cfg, text, paths[..i]), paths[i..]) == EndOf(fs, cfg, text, paths)
    ensures i > 0 ==> Resolve(fs, cfg, paths[i - 1]) == Content(EndOf(fs, cfg, text, paths[..i]))
    decreases i
  {
    if i == 0 {
      assert paths[0..] == paths;
    } else {
      ChainSplits(fs, cfg, Resolve(fs, cfg, paths[0]).text, paths[1..], i - 1);
      assert paths[..i][1..] == paths[1..][..i - 1] && paths[1..][i - 1..] == paths[i..];
    }
  }

  /** When a run ends normally no chain of includes it followed comes back: the
      files along it, the root among them, all differ, and so do their paths. */
  lemma {:induction false} ExpandedIsAcyclic(fs: FileSystem, cfg: Config, room: nat, text: Text,
                                             paths: seq<Text>, i: nat, j: nat)
    requires Expands(fs, cfg, room, text) && Chain(fs, cfg, text, paths) && i < j <= |paths|
    ensures Chain(fs, cfg, text, paths[..i]) && Chain(fs, cfg, text, paths[..j])
    ensures EndOf(fs, cfg, text, paths[..i]) != EndOf(fs, cfg, text, paths[..j])
    ensures i > 0 ==> paths[i - 1] != paths[j - 1]
  {
    ChainSplits(fs, cfg, text, paths, i);
    ChainSplits(fs, cfg, text, paths, j);
    ChainSplits(fs, cfg, text, paths[..j], i);
    assert paths[..j][..i] == paths[..i];
    var start := EndOf(fs, cfg, text, paths[..i]);
    ExpandsAlong(fs, cfg, room, text, paths[..i]);
    if start == EndOf(fs, cfg, text, paths[..j]) {
      NoLimitForCycles(fs, cfg, room - i, start, paths[..j][i..]);
    }
  }

  // ----- what a cycle is reported as -----

  /** All that can be reached is well-formed, however deep. */
  ghost predicate Sound(fs: FileSystem, cfg: Config, text: Text) {
    forall paths :: Chain(fs, cfg, text, paths) ==> WellFormed(fs, cfg, Split(EndOf(fs, cfg, text, paths)), false)
  }

  lemma {:induction false} SoundBelow(fs: FileSystem, cfg: Config, text: Text, path: Text)
    requires Sound(fs, cfg, text) && Includes(fs, cfg, Split(text), path)
    ensures Sound(fs, cfg, Resolve(fs, cfg, path).text)
  {
    var child := Resolve(fs, cfg, path).text;
    forall paths | Chain(fs, cfg, child, paths)
      ensures WellFormed(fs, cfg, Split(EndOf(fs, cfg, child, paths)), false)
    {
      ChainAbove(fs, cfg, text, path, paths);
      assert Chain(fs, cfg, text, [path] + paths);
    }
  }

  lemma {:induction false} SoundFileFault(fs: FileSystem, cfg: Config, stack: SourceFileDesc, room: nat,
                                          path: Text, line: int, text: Text)
    requires Sound(fs, cfg, text)
    ensures var e := ExpandFile(fs, cfg, stack, room, path, line, text); e.outcome.Returned? || Overflows(e)
    decreases room, 0
  {
    assert Chain(fs, cfg, text, []) && EndOf(fs, cfg, text, []) == text;
    if room > 0 {
      forall p | Includes(fs, cfg, Split(text), p) ensures Sound(fs, cfg, Resolve(fs, cfg, p).text) {
        SoundBelow(fs, cfg, text, p);
      }
      SoundLinesFault(fs, cfg, Desc(path, stack, line), room - 1, Split(text), 0, false);
    }
  }

  lemma {:induction false} SoundLinesFault(fs: FileSystem, cfg: Config, here: SourceFileDesc, room: nat,
                                           lines: seq<Text>, done: nat, marked: bool)
    requires WellFormed(fs, cfg, lines, marked)
    requires forall p :: Includes(fs, cfg, lines, p) ==> Sound(fs, cfg, Resolve(fs, cfg, p).text)
    ensures var e := ExpandLines(fs, cfg, here, room, lines, done, marked); e.outcome.Returned? || Overflows(e)
    decreases room, |lines| + 1
  {
    if lines != [] {
      WellFormedCons(fs, cfg, lines, marked);
      var kind := Classify(cfg, lines[0]);
      assert lines[0] in lines;
      if kind.Include? && Resolve(fs, cfg, kind.path).Content? {
        assert Includes(fs, cfg, lines, kind.path);
        SoundFileFault(fs, cfg, here, room, kind.path, done + 1, Resolve(fs, cfg, kind.path).text);
      }
      forall p | Includes(fs, cfg, lines[1..], p) ensures Includes(fs, cfg, lines, p) {}
      SoundLinesFault(fs, cfg, here, room, lines[1..], done + 1, kind.Marker?);
    }
  }

  lemma SoundFits(fs: FileSystem, cfg: Config, room: nat, text: Text)
    requires Sound(fs, cfg, text)
    ensures Fits(fs, cfg, room, text) <==> !exists paths :: Chain(fs, cfg, text, paths) && |paths| >= room
  {
    if Fits(fs, cfg, room, text) {
      forall paths | Chain(fs, cfg, text, paths) ensures |paths| < room {
        assert FitsAlong(fs, cfg, room, text, paths);
      }
    } else {
      var paths :| !FitsAlong(fs, cfg, room, text, paths);
      assert Chain(fs, cfg, text, paths);
    }
  }

  /** Over well-formed files the stack-overflow exception is raised exactly when
      some chain of includes is too long for the limit. */
  lemma {:induction false} OverflowIff(fs: FileSystem, cfg: Config, stack: SourceFileDesc, room: nat,
                                       path: Text, line: int, text: Text)
    requires Sound(fs, cfg, text)
    ensures Overflows(ExpandFile(fs, cfg, stack, room, path, line, text)) <==>
            exists paths :: Chain(fs, cfg, text, paths) && |paths| >= room
  {
    SoundFileFault(fs, cfg, stack, room, path, line, text);
    ExpandsIff(fs, cfg, stack, room, path, line, text);
    SoundFits(fs, cfg, room, text);
  }

  /** A root that reaches a cycle of includes never ends normally, whatever the
      limit; over well-formed files the cycle is reported as such. */
  lemma CycleIsReported(fs: FileSystem, cfg: Config, stack: SourceFileDesc, room: nat, path: Text, line: int,
                        text: Text, lead: seq<Text>, cycle: seq<Text>)
    requires Chain(fs, cfg, text, lead) && cycle != []
    requires Chain(fs, cfg, EndOf(fs, cfg, text, lead), cycle)
    requires EndOf(fs, cfg, EndOf(fs, cfg, text, lead), cycle) == EndOf(fs, cfg, text, lead)
    ensures var e := ExpandFile(fs, cfg, stack, room, path, line, text);
            e.outcome.Threw? && (Sound(fs, cfg, text) ==> Overflows(e))
  {
    FileShift(fs, cfg, room, path, text, stack, line, Null, [], 0);
    if Expands(fs, cfg, room, text) {
      ExpandsAlong(fs, cfg, room, text, lead);
      NoLimitForCycles(fs, cfg, room - |lead|, EndOf(fs, cfg, text, lead), cycle);
    }
    if Sound(fs, cfg, text) {
      SoundFileFault(fs, cfg, stack, room, path, line, text);
    }
  }
}
