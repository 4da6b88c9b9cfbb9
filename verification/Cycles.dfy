/** When an overflow of the include stack means a cycle of includes. */
module Cycles {
  import opened Bytes
  import opened SourceFiles
  import opened Directives
  import opened Expansions
  import opened ExpansionLaws
  import opened Reachability
  import opened Markers
  import opened Fixpoints

  // ----- an overflow is a long chain -----

  lemma {:induction false} FileOverflow(fs: FileSystem, cfg: Config, stack: SourceFileDesc, room: nat,
                                        path: Text, line: int, text: Text) returns (paths: seq<Text>)
    requires Overflows(ExpandFile(fs, cfg, stack, room, path, line, text))
    ensures Chain(fs, cfg, text, paths) && |paths| == room
    decreases room, 0
  {
    paths := [];
    if room > 0 {
      var p, deeper := LinesOverflow(fs, cfg, Desc(path, stack, line), room - 1, Split(text), 0, false);
      ChainAbove(fs, cfg, text, p, deeper);
      paths := [p] + deeper;
    }
  }

  lemma {:induction false} LinesOverflow(fs: FileSystem, cfg: Config, here: SourceFileDesc, room: nat,
                                         lines: seq<Text>, done: nat, marked: bool)
    returns (path: Text, deeper: seq<Text>)
    requires Overflows(ExpandLines(fs, cfg, here, room, lines, done, marked))
    ensures Includes(fs, cfg, lines, path)
    ensures Chain(fs, cfg, Resolve(fs, cfg, path).text, deeper) && |deeper| == room
    decreases room, |lines| + 1
  {
    if ExpandLine(fs, cfg, here, room, lines[0], done + 1, marked).outcome.Threw? {
      path := Classify(cfg, lines[0]).path;
      assert lines[0] in lines;
      deeper := FileOverflow(fs, cfg, here, room, path, done + 1, Resolve(fs, cfg, path).text);
    } else {
      path, deeper := LinesOverflow(fs, cfg, here, room, lines[1..], done + 1, Classify(cfg, lines[0]).Marker?);
    }
  }

  // ----- a long chain comes back -----

  /** Among more texts than there are in `files`, one is met twice. */
  lemma {:induction false} SomeTwice(texts: seq<Text>, files: set<Text>) returns (i: nat, j: nat)
    requires |texts| > |files| && forall t :: t in texts ==> t in files
    ensures i < j < |texts| && texts[i] == texts[j]
    decreases |texts|
  {
    var k := |texts| - 1;
    var last, front := texts[k], texts[..k];
    if last in front {
      i :| 0 <= i < |front| && front[i] == last;
      j := k;
    } else {
      i, j := SomeTwice(front, files - {last});
    }
  }

  /** The files along a chain, its start among them. */
  ghost function Along(fs: FileSystem, cfg: Config, text: Text, paths: seq<Text>): (texts: seq<Text>)
    requires Chain(fs, cfg, text, paths)
    ensures |texts| == |paths| + 1
    decreases |paths|
  {
    [text] + if paths == [] then [] else Along(fs, cfg, Resolve(fs, cfg, paths[0]).text, paths[1..])
  }

  lemma {:induction false} AlongIs(fs: FileSystem, cfg: Config, text: Text, paths: seq<Text>, i: nat)
    requires Chain(fs, cfg, text, paths) && i <= |paths|
    ensures Chain(fs, cfg, text, paths[..i]) && Along(fs, cfg, text, paths)[i] == EndOf(fs, cfg, text, paths[..i])
    decreases i
  {
    if i > 0 {
      AlongIs(fs, cfg, Resolve(fs, cfg, paths[0]).text, paths[1..], i - 1);
      assert paths[..i][1..] == paths[1..][..i - 1];
    }
  }

  /** Every file that can be reached from `text` is one of `files`. */
  ghost predicate StaysIn(fs: FileSystem, cfg: Config, text: Text, files: set<Text>) {
    forall paths :: Chain(fs, cfg, text, paths) ==> EndOf(fs, cfg, text, paths) in files
  }

  /** From `text`, `lead` leads to a file that `cycle` leads back to. */
  ghost predicate Cycle(fs: FileSystem, cfg: Config, text: Text, lead: seq<Text>, cycle: seq<Text>) {
    && Chain(fs, cfg, text, lead) && cycle != []
    && Chain(fs, cfg, EndOf(fs, cfg, text, lead), cycle)
    && EndOf(fs, cfg, EndOf(fs, cfg, text, lead), cycle) == EndOf(fs, cfg, text, lead)
  }

  ghost predicate ReachesCycle(fs: FileSystem, cfg: Config, text: Text) {
    exists lead, cycle :: Cycle(fs, cfg, text, lead, cycle)
  }

  lemma {:induction false} EndsWithCycle(fs: FileSystem, cfg: Config, text: Text, paths: seq<Text>, i: nat)
    requires Chain(fs, cfg, text, paths) && i < |paths|
    requires Chain(fs, cfg, text, paths[..i]) && EndOf(fs, cfg, text, paths[..i]) == EndOf(fs, cfg, text, paths)
    ensures Cycle(fs, cfg, text, paths[..i], paths[i..])
  {
    ChainSplits(fs, cfg, text, paths, i);
    assert |paths[i..]| > 0;
  }

  lemma AlongStays(fs: FileSystem, cfg: Config, text: Text, paths: seq<Text>, files: set<Text>)
    requires StaysIn(fs, cfg, text, files) && Chain(fs, cfg, text, paths)
    ensures forall t :: t in Along(fs, cfg, text, paths) ==> t in files
  {
    var texts := Along(fs, cfg, text, paths);
    forall k | 0 <= k < |texts| ensures texts[k] in files {
      AlongIs(fs, cfg, text, paths, k);
    }
  }

  lemma {:induction false} LongChainComesBack(fs: FileSystem, cfg: Config, text: Text, paths: seq<Text>,
                                              files: set<Text>)
    requires StaysIn(fs, cfg, text, files) && Chain(fs, cfg, text, paths) && |paths| >= |files|
    ensures ReachesCycle(fs, cfg, text)
  {
    AlongStays(fs, cfg, text, paths, files);
    var i, j := SomeTwice(Along(fs, cfg, text, paths), files);
    AlongIs(fs, cfg, text, paths, i);
    AlongIs(fs, cfg, text, paths, j);
    var front := paths[..j];
    assert front[..i] == paths[..i];
    EndsWithCycle(fs, cfg, text, front, i);
  }

  /** The include graph has a cycle whenever a run overflows although the limit
      is no smaller than the number of files there are; if these are all
      well-formed, a cycle and an overflow are the same thing. */
  lemma {:induction false} OverflowMeansCycle(fs: FileSystem, cfg: Config, stack: SourceFileDesc, room: nat,
                                              path: Text, line: int, text: Text, files: set<Text>)
    requires StaysIn(fs, cfg, text, files) && |files| <= room
    ensures var e := ExpandFile(fs, cfg, stack, room, path, line, text);
            && (Overflows(e) ==> ReachesCycle(fs, cfg, text))
            && (Sound(fs, cfg, text) ==> (Overflows(e) <==> ReachesCycle(fs, cfg, text)))
  {
    if Overflows(ExpandFile(fs, cfg, stack, room, path, line, text)) {
      var paths := FileOverflow(fs, cfg, stack, room, path, line, text);
      LongChainComesBack(fs, cfg, text, paths, files);
    }
    if ReachesCycle(fs, cfg, text) {
      var lead, cycle :| Cycle(fs, cfg, text, lead, cycle);
      CycleIsReported(fs, cfg, stack, room, path, line, text, lead, cycle);
    }
  }

  // ----- an overflow without a cycle -----

  lemma PlainIncludesNothing(fs: FileSystem, cfg: Config, text: Text, paths: seq<Text>)
    requires AllPlain(cfg, Split(text))
    ensures Chain(fs, cfg, text, paths) <==> paths == []
  {
  }

  lemma OneIncludeChain(fs: FileSystem, cfg: Config, line: Text, text: Text, paths: seq<Text>)
    requires Split(line) == [line] && Classify(cfg, line).Include? && AllPlain(cfg, Split(text))
    requires Resolve(fs, cfg, Classify(cfg, line).path) == Content(text)
    requires Chain(fs, cfg, line, paths)
    ensures EndOf(fs, cfg, line, paths) == if paths == [] then line else text
    ensures |paths| <= 1
  {
    if paths != [] {
      assert paths[0] == Classify(cfg, line).path;
      PlainIncludesNothing(fs, cfg, text, paths[1..]);
    }
  }

  lemma OneIncludeIsAcyclic(fs: FileSystem, cfg: Config, line: Text, text: Text)
    requires Split(line) == [line] && Classify(cfg, line).Include? && AllPlain(cfg, Split(text))
    requires Resolve(fs, cfg, Classify(cfg, line).path) == Content(text)
    ensures StaysIn(fs, cfg, line, {line, text}) && !ReachesCycle(fs, cfg, line)
  {
    forall paths | Chain(fs, cfg, line, paths) ensures EndOf(fs, cfg, line, paths) in {line, text} {
      OneIncludeChain(fs, cfg, line, text, paths);
    }
    forall lead, cycle ensures !Cycle(fs, cfg, line, lead, cycle) {
      if Chain(fs, cfg, line, lead) && Chain(fs, cfg, EndOf(fs, cfg, line, lead), cycle) {
        OneIncludeChain(fs, cfg, line, text, lead);
        PlainIncludesNothing(fs, cfg, text, cycle);
        if lead == [] {
          OneIncludeChain(fs, cfg, line, text, cycle);
        }
      }
    }
  }

  /** One file more than the limit is enough for an overflow without a cycle:
      a file that includes an empty one, under a limit of one. */
  lemma OverflowWithoutCycle(fs: FileSystem, cfg: Config, stack: SourceFileDesc, path: Text, line: int)
    requires cfg.directive == DIRECTIVE && cfg.recurse && Resolve(fs, cfg, ['x']) == Content([])
    ensures Overflows(ExpandFile(fs, cfg, stack, 1, path, line, INCLUDE_X))
    ensures StaysIn(fs, cfg, INCLUDE_X, {INCLUDE_X, []}) && !ReachesCycle(fs, cfg, INCLUDE_X)
  {
    IncludeXIsInclude(cfg);
    EmptyTextIsInert(cfg);
    FindNone(INCLUDE_X, NL, 0);
    assert Split(INCLUDE_X) == [INCLUDE_X] && [INCLUDE_X] + [] == [INCLUDE_X];
    OneIncludeIsAcyclic(fs, cfg, INCLUDE_X, []);
    ExpandCons(fs, cfg, Desc(path, stack, line), 0, INCLUDE_X, [], 0, false);
  }
}
