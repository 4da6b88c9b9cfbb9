/** Changing one file, seen from every file that includes it. */
module Replacement {
  import opened Bytes
  import opened SourceFiles
  import opened Directives
  import opened Expansions
  import opened ExpansionLaws
  import opened Markers

  /** `t` in one run stands where `t'` stands in the other; all else is equal. */
  predicate Exchanges(t: Text, t': Text, text: Text, text': Text) {
    text == text' || (text == t && text' == t')
  }

  /** `fs'` is `fs` with a file exchanged, under as many of the spellings of its
      path, and of its copies, as one likes: under all of them when the file
      itself has changed. */
  ghost predicate Exchanged(fs: FileSystem, fs': FileSystem, t: Text, t': Text) {
    forall path :: fs(path) == fs'(path) || (fs(path) == Content(t) && fs'(path) == Content(t'))
  }

  /** As files of `fs`, the two expand alike wherever they are included. */
  ghost predicate Interchangeable(fs: FileSystem, cfg: Config, t: Text, t': Text) {
    forall here, room: nat ::
      SameButLines(Whole(fs, cfg, here, room, Split(t)), Whole(fs, cfg, here, room, Split(t')))
  }

  lemma {:induction false} ReplaceInFile(fs: FileSystem, fs': FileSystem, cfg: Config, t: Text, t': Text,
                                         room: nat, path: Text, text: Text, text': Text,
                                         stack: SourceFileDesc, line: int, stack': SourceFileDesc, line': int)
    requires Exchanged(fs, fs', t, t') && Interchangeable(fs, cfg, t, t') && Exchanges(t, t', text, text')
    requires Paths(stack) == Paths(stack')
    ensures SameButLines(ExpandFile(fs, cfg, stack, room, path, line, text),
                         ExpandFile(fs', cfg, stack', room, path, line', text'))
    decreases room, 0, 0
  {
    if room > 0 {
      var here, here' := Desc(path, stack, line), Desc(path, stack', line');
      var left := room - 1;
      ReplaceInLines(fs, fs', cfg, t, t', left, Split(text'), false, here, 0, here', 0);
      if text != text' {
        assert SameButLines(Whole(fs, cfg, here, left, Split(t)), Whole(fs, cfg, here, left, Split(t')));
      }
    }
  }

  lemma {:induction false} ReplaceInLine(fs: FileSystem, fs': FileSystem, cfg: Config, t: Text, t': Text,
                                         room: nat, line: Text, marked: bool,
                                         here: SourceFileDesc, n: nat, here': SourceFileDesc, n': nat)
    requires Exchanged(fs, fs', t, t') && Interchangeable(fs, cfg, t, t') && Paths(here) == Paths(here')
    ensures SameButLines(ExpandLine(fs, cfg, here, room, line, n, marked),
                         ExpandLine(fs', cfg, here', room, line, n', marked))
    decreases room, 1, 0
  {
    var kind := Classify(cfg, line);
    if kind.Include? {
      var entry, entry' := Resolve(fs, cfg, kind.path), Resolve(fs', cfg, kind.path);
      assert entry == entry' || (entry == Content(t) && entry' == Content(t'));
      if entry.Content? {
        ReplaceInFile(fs, fs', cfg, t, t', room, kind.path, entry.text, entry'.text, here, n, here', n');
      }
    }
  }

  lemma {:induction false} ReplaceInLines(fs: FileSystem, fs': FileSystem, cfg: Config, t: Text, t': Text,
                                          room: nat, lines: seq<Text>, marked: bool,
                                          here: SourceFileDesc, done: nat, here': SourceFileDesc, done': nat)
    requires Exchanged(fs, fs', t, t') && Interchangeable(fs, cfg, t, t') && Paths(here) == Paths(here')
    ensures SameButLines(ExpandLines(fs, cfg, here, room, lines, done, marked),
                         ExpandLines(fs', cfg, here', room, lines, done', marked))
    decreases room, |lines|, 1
  {
    if lines != [] {
      var next := Classify(cfg, lines[0]).Marker?;
      ReplaceInLine(fs, fs', cfg, t, t', room, lines[0], marked, here, done + 1, here', done' + 1);
      ReplaceInLines(fs, fs', cfg, t, t', room, lines[1..], next, here, done + 1, here', done' + 1);
    }
  }

  /** A marker put before an unmarked directive of any file whose target is not
      missing changes no run over any root, but for line numbers. */
  lemma MarkerMasksNothingAnywhere(fs: FileSystem, fs': FileSystem, cfg: Config, t: Text, t': Text,
                                   before: seq<Text>, marker: Text, line: Text, after: seq<Text>,
                                   stack: SourceFileDesc, room: nat, path: Text, number: int, text: Text, text': Text)
    requires Exchanged(fs, fs', t, t') && Exchanges(t, t', text, text')
    requires Split(t) == before + ([line] + after) && Split(t') == before + ([marker, line] + after)
    requires Classify(cfg, marker).Marker? && !MarkedAfter(cfg, before, false)
    requires var kind := Classify(cfg, line);
             kind.Malformed? || (kind.Include? && !Resolve(fs, cfg, kind.path).Missing?)
    ensures SameButLines(ExpandFile(fs, cfg, stack, room, path, number, text),
                         ExpandFile(fs', cfg, stack, room, path, number, text'))
  {
    forall here, left: nat
      ensures SameButLines(Whole(fs, cfg, here, left, Split(t)), Whole(fs, cfg, here, left, Split(t')))
    {
      MarkerMasksNothing(fs, cfg, here, left, before, marker, line, after);
    }
    ReplaceInFile(fs, fs', cfg, t, t', room, path, text, text', stack, number, stack, number);
  }

  /** A marked include of any file whose target is missing can be removed from
      that file together with its marker: no run over any root changes, but for
      line numbers. */
  lemma MarkerForgivesMissingAnywhere(fs: FileSystem, fs': FileSystem, cfg: Config, t: Text, t': Text,
                                      before: seq<Text>, marker: Text, line: Text, after: seq<Text>,
                                      stack: SourceFileDesc, room: nat, path: Text, number: int,
                                      text: Text, text': Text)
    requires Exchanged(fs, fs', t, t') && Exchanges(t, t', text, text')
    requires Split(t) == before + ([marker, line] + after) && Split(t') == before + after
    requires Classify(cfg, marker).Marker? && !MarkedAfter(cfg, before, false)
    requires Classify(cfg, line).Include? && Resolve(fs, cfg, Classify(cfg, line).path).Missing?
    ensures SameButLines(ExpandFile(fs, cfg, stack, room, path, number, text),
                         ExpandFile(fs', cfg, stack, room, path, number, text'))
  {
    forall here, left: nat
      ensures SameButLines(Whole(fs, cfg, here, left, Split(t)), Whole(fs, cfg, here, left, Split(t')))
    {
      MarkerForgivesMissing(fs, cfg, here, left, before, marker, line, after);
    }
    ReplaceInFile(fs, fs', cfg, t, t', room, path, text, text', stack, number, stack, number);
  }

  /** A marker on the last line of any file can be removed without a trace. */
  lemma LastMarkerIsForgottenAnywhere(fs: FileSystem, fs': FileSystem, cfg: Config, t: Text, t': Text,
                                      marker: Text, stack: SourceFileDesc, room: nat, path: Text, number: int,
                                      text: Text, text': Text)
    requires Exchanged(fs, fs', t, t') && Exchanges(t, t', text, text')
    requires Split(t) == Split(t') + [marker]
    requires Classify(cfg, marker).Marker? && !MarkedAfter(cfg, Split(t'), false)
    ensures SameButLines(ExpandFile(fs, cfg, stack, room, path, number, text),
                         ExpandFile(fs', cfg, stack, room, path, number, text'))
  {
    forall here, left: nat
      ensures SameButLines(Whole(fs, cfg, here, left, Split(t)), Whole(fs, cfg, here, left, Split(t')))
    {
      LastMarkerIsForgotten(fs, cfg, here, left, Split(t'), marker);
    }
    ReplaceInFile(fs, fs', cfg, t, t', room, path, text, text', stack, number, stack, number);
  }
}
