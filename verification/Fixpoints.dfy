/** Text the inliner passes through, and running it on its own output. */
module Fixpoints {
  import opened Bytes
  import opened SourceFiles
  import opened Directives
  import opened Expansions
  import opened Emission

  ghost predicate AllPlain(cfg: Config, lines: seq<Text>) {
    forall l :: l in lines ==> Classify(cfg, l).Plain?
  }

  lemma {:induction false} PlainLines(fs: FileSystem, cfg: Config, here: SourceFileDesc, room: nat,
                                      lines: seq<Text>, done: nat)
    requires AllPlain(cfg, lines)
    ensures ExpandLines(fs, cfg, here, room, lines, done, false) == Expansion(lines, Returned)
    decreases |lines|
  {
    if lines != [] {
      assert lines[0] in lines;
      PlainLines(fs, cfg, here, room, lines[1..], done + 1);
      assert [lines[0]] + lines[1..] == lines;
    }
  }

  lemma PlainFile(fs: FileSystem, cfg: Config, stack: SourceFileDesc, room: nat, path: Text, line: int, text: Text)
    requires room > 0 && AllPlain(cfg, Split(text))
    ensures ExpandFile(fs, cfg, stack, room, path, line, text) == Expansion(Split(text), Returned)
  {
    PlainLines(fs, cfg, Desc(path, stack, line), room - 1, Split(text), 0);
  }

  /** A file without markers and active directives comes out as it went in,
      less the newlines it begins with. */
  lemma PassThrough(fs: FileSystem, cfg: Config, stack: SourceFileDesc, room: nat, path: Text, line: int, text: Text)
    requires room > 0 && AllPlain(cfg, Split(text))
    ensures var e := ExpandFile(fs, cfg, stack, room, path, line, text);
            e.outcome.Returned? && EmitAll([], e.lines) == DropNewlines(text)
  {
    PlainFile(fs, cfg, stack, room, path, line, text);
    EmitSplit(text);
  }

  // ----- what is emitted -----

  /** Lines that a second run would only copy. */
  ghost predicate Inert(cfg: Config, lines: seq<Text>) {
    forall l :: l in lines ==> NL !in l && Classify(cfg, l).Plain?
  }

  lemma {:induction false} FileEmitsInert(fs: FileSystem, cfg: Config, stack: SourceFileDesc, room: nat,
                                          path: Text, line: int, text: Text)
    ensures Inert(cfg, ExpandFile(fs, cfg, stack, room, path, line, text).lines)
    decreases room, 0, 0
  {
    if room > 0 {
      SplitIsClean(text);
      LinesEmitInert(fs, cfg, Desc(path, stack, line), room - 1, Split(text), 0, false);
    }
  }

  lemma {:induction false} LineEmitsInert(fs: FileSystem, cfg: Config, here: SourceFileDesc, room: nat,
                                          line: Text, number: nat, marked: bool)
    requires NL !in line
    ensures Inert(cfg, ExpandLine(fs, cfg, here, room, line, number, marked).lines)
    decreases room, 1, 0
  {
    var kind := Classify(cfg, line);
    if kind.Include? && Resolve(fs, cfg, kind.path).Content? {
      FileEmitsInert(fs, cfg, here, room, kind.path, number, Resolve(fs, cfg, kind.path).text);
    }
  }

  lemma {:induction false} LinesEmitInert(fs: FileSystem, cfg: Config, here: SourceFileDesc, room: nat,
                                          lines: seq<Text>, done: nat, marked: bool)
    requires forall l :: l in lines ==> NL !in l
    ensures Inert(cfg, ExpandLines(fs, cfg, here, room, lines, done, marked).lines)
    decreases room, |lines|, 1
  {
    if lines != [] {
      LineEmitsInert(fs, cfg, here, room, lines[0], done + 1, marked);
      LinesEmitInert(fs, cfg, here, room, lines[1..], done + 1, Classify(cfg, lines[0]).Marker?);
    }
  }

  lemma EmptyTextIsInert(cfg: Config)
    ensures AllPlain(cfg, Split([]))
  {
  }

  lemma StartsWithFirst(lines: seq<Text>)
    requires lines != [] && lines[0] != [] && forall l :: l in lines ==> NL !in l
    ensures DropNewlines(Join(lines)) == Join(lines)
  {
    assert lines[0] in lines && lines[0] <= Join(lines);
    assert Join(lines)[0] == lines[0][0];
  }

  /** Text written from inert lines splits into inert lines again, and has no
      newline in front. */
  lemma InertText(cfg: Config, lines: seq<Text>)
    requires Inert(cfg, lines)
    ensures AllPlain(cfg, Split(EmitAll([], lines)))
    ensures DropNewlines(EmitAll([], lines)) == EmitAll([], lines)
  {
    var kept := DropEmpty(lines);
    EmitAllFrame([], lines);
    assert EmitAll([], lines) == Join(kept);
    if kept == [] {
      EmptyTextIsInert(cfg);
    } else {
      forall l | l in kept ensures l in lines {}
      SplitJoin(kept);
      StartsWithFirst(kept);
    }
  }

  /** A second run over the output of a first that ended normally, with any
      root, any file system, any limit there is, changes nothing. */
  lemma Idempotence(fs: FileSystem, cfg: Config, room: nat, name: Text, text: Text,
                    fs': FileSystem, root': Text, room': nat, name': Text)
    requires ExpandFile(fs, cfg, Null, room, name, 0, text).outcome.Returned? && room' > 0
    ensures var out := EmitAll([], ExpandFile(fs, cfg, Null, room, name, 0, text).lines);
            var again := ExpandFile(fs', cfg.(root := root'), Null, room', name', 0, out);
            again.outcome.Returned? && EmitAll([], again.lines) == out
  {
    var e := ExpandFile(fs, cfg, Null, room, name, 0, text);
    FileEmitsInert(fs, cfg, Null, room, name, 0, text);
    InertText(cfg, e.lines);
    var out, cfg' := EmitAll([], e.lines), cfg.(root := root');
    forall l | l in Split(out) ensures Classify(cfg', l) == Classify(cfg, l) {}
    PassThrough(fs', cfg', Null, room', name', 0, out);
  }

  /** So exactly the texts without markers, active directives and leading
      newlines are reproduced; with recursion off no line is active. */
  lemma FixpointIff(fs: FileSystem, cfg: Config, room: nat, name: Text, text: Text)
    requires room > 0
    ensures var e := ExpandFile(fs, cfg, Null, room, name, 0, text);
            (e.outcome.Returned? && EmitAll([], e.lines) == text) <==>
            (AllPlain(cfg, Split(text)) && (text == [] || text[0] != NL))
  {
    var e := ExpandFile(fs, cfg, Null, room, name, 0, text);
    if e.outcome.Returned? && EmitAll([], e.lines) == text {
      FileEmitsInert(fs, cfg, Null, room, name, 0, text);
      InertText(cfg, e.lines);
    }
    if AllPlain(cfg, Split(text)) && (text == [] || text[0] != NL) {
      PassThrough(fs, cfg, Null, room, name, 0, text);
    }
  }

  /** The text of a single newline, for one, comes out empty. */
  lemma NewlineIsLost(fs: FileSystem, cfg: Config, stack: SourceFileDesc, room: nat, path: Text, line: int)
    requires room > 0
    ensures var e := ExpandFile(fs, cfg, stack, room, path, line, [NL]);
            e.outcome.Returned? && EmitAll([], e.lines) == []
  {
    EmptyTextIsInert(cfg);
    FindIs([NL], NL, 0, 0);
    assert [NL][..0] == [] && [NL][1..] == [];
    assert Split([NL]) == [[]] + Split([]);
    PassThrough(fs, cfg, stack, room, path, line, [NL]);
  }
}
