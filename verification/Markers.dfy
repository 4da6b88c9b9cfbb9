/** What an optional-include marker does, and what it does not. */
module Markers {
  import opened Bytes
  import opened SourceFiles
  import opened Directives
  import opened Expansions
  import opened ExpansionLaws

  /** The lines of file `here`, from its first. */
  function Whole(fs: FileSystem, cfg: Config, here: SourceFileDesc, room: nat, lines: seq<Text>): Expansion {
    ExpandLines(fs, cfg, here, room, lines, 0, false)
  }

  lemma ThenKeepsSame(a: Expansion, b: Expansion, c: Expansion)
    requires Same(b, c)
    ensures Same(a.Then(b), a.Then(c))
    ensures SameButLines(b, c) ==> SameButLines(a.Then(b), a.Then(c))
  {
  }

  lemma {:induction false} WholeBehind(fs: FileSystem, cfg: Config, here: SourceFileDesc, room: nat,
                                       before: seq<Text>, x: seq<Text>)
    requires !MarkedAfter(cfg, before, false)
    ensures Whole(fs, cfg, here, room, before + x) ==
            Whole(fs, cfg, here, room, before).Then(ExpandLines(fs, cfg, here, room, x, |before|, false))
  {
    ExpandAppend(fs, cfg, here, room, before, x, 0, false);
  }

  /** Lines that expand alike can be exchanged behind the same beginning. */
  lemma {:induction false} Exchange(fs: FileSystem, cfg: Config, here: SourceFileDesc, room: nat,
                                    before: seq<Text>, x: seq<Text>, y: seq<Text>)
    requires !MarkedAfter(cfg, before, false)
    requires Same(ExpandLines(fs, cfg, here, room, x, |before|, false),
                  ExpandLines(fs, cfg, here, room, y, |before|, false))
    ensures Same(Whole(fs, cfg, here, room, before + x), Whole(fs, cfg, here, room, before + y))
    ensures SameButLines(ExpandLines(fs, cfg, here, room, x, |before|, false),
                         ExpandLines(fs, cfg, here, room, y, |before|, false))
        ==> SameButLines(Whole(fs, cfg, here, room, before + x), Whole(fs, cfg, here, room, before + y))
  {
    WholeBehind(fs, cfg, here, room, before, x);
    WholeBehind(fs, cfg, here, room, before, y);
    ThenKeepsSame(Whole(fs, cfg, here, room, before), ExpandLines(fs, cfg, here, room, x, |before|, false),
                  ExpandLines(fs, cfg, here, room, y, |before|, false));
  }

  lemma MarkerStep(fs: FileSystem, cfg: Config, here: SourceFileDesc, room: nat,
                   marker: Text, rest: seq<Text>, done: nat)
    requires Classify(cfg, marker).Marker?
    ensures ExpandLines(fs, cfg, here, room, [marker] + rest, done, false) ==
            ExpandLines(fs, cfg, here, room, rest, done + 1, true)
  {
  }

  lemma DirectiveIgnoresMarker(fs: FileSystem, cfg: Config, here: SourceFileDesc, room: nat,
                               line: Text, after: seq<Text>, n: nat)
    requires var kind := Classify(cfg, line);
             kind.Malformed? || (kind.Include? && !Resolve(fs, cfg, kind.path).Missing?)
    ensures SameButLines(ExpandLines(fs, cfg, here, room, [line] + after, n + 1, true),
                         ExpandLines(fs, cfg, here, room, [line] + after, n, false))
  {
    var lines := [line] + after;
    assert lines[1..] == after;
    assert ExpandLine(fs, cfg, here, room, line, n + 2, true) == ExpandLine(fs, cfg, here, room, line, n + 2, false);
    LineShift(fs, cfg, room, line, false, here, n + 2, here, n + 1);
    LinesShift(fs, cfg, room, after, false, here, n + 2, here, n + 1);
  }

  /** A marker in front of an unmarked directive changes nothing but the line
      numbers behind it, as long as the directive's path is not missing: an
      include that cannot be opened, a malformed directive, a full stack and
      every error inside the included file come through as before. */
  lemma {:induction false} MarkerMasksNothing(fs: FileSystem, cfg: Config, here: SourceFileDesc, room: nat,
                                              before: seq<Text>, marker: Text, line: Text, after: seq<Text>)
    requires Classify(cfg, marker).Marker? && !MarkedAfter(cfg, before, false)
    requires var kind := Classify(cfg, line);
             kind.Malformed? || (kind.Include? && !Resolve(fs, cfg, kind.path).Missing?)
    ensures SameButLines(Whole(fs, cfg, here, room, before + ([marker, line] + after)),
                         Whole(fs, cfg, here, room, before + ([line] + after)))
  {
    assert [marker, line] + after == [marker] + ([line] + after);
    MarkerStep(fs, cfg, here, room, marker, [line] + after, |before|);
    DirectiveIgnoresMarker(fs, cfg, here, room, line, after, |before|);
    Exchange(fs, cfg, here, room, before, [marker, line] + after, [line] + after);
  }

  lemma MissingSteps(fs: FileSystem, cfg: Config, here: SourceFileDesc, room: nat,
                     marker: Text, line: Text, after: seq<Text>, n: nat)
    requires Classify(cfg, marker).Marker?
    requires Classify(cfg, line).Include? && Resolve(fs, cfg, Classify(cfg, line).path).Missing?
    ensures SameButLines(ExpandLines(fs, cfg, here, room, [marker, line] + after, n, false),
                         ExpandLines(fs, cfg, here, room, after, n, false))
    ensures ExpandLines(fs, cfg, here, room, [line] + after, n, false) ==
            Fails(NotFound(Classify(cfg, line).path), n + 1, here)
  {
    assert [marker, line] + after == [marker] + ([line] + after) && ([line] + after)[1..] == after;
    MarkerStep(fs, cfg, here, room, marker, [line] + after, n);
    LinesShift(fs, cfg, room, after, false, here, n + 2, here, n);
  }

  /** When the path is missing, the marker turns exactly that error into
      nothing: the file reads as if both lines were absent. */
  lemma MarkerForgivesMissing(fs: FileSystem, cfg: Config, here: SourceFileDesc, room: nat,
                              before: seq<Text>, marker: Text, line: Text, after: seq<Text>)
    requires Classify(cfg, marker).Marker? && !MarkedAfter(cfg, before, false)
    requires Classify(cfg, line).Include? && Resolve(fs, cfg, Classify(cfg, line).path).Missing?
    ensures SameButLines(Whole(fs, cfg, here, room, before + ([marker, line] + after)),
                         Whole(fs, cfg, here, room, before + after))
    ensures Whole(fs, cfg, here, room, before + ([line] + after)) ==
            Whole(fs, cfg, here, room, before).Then(Fails(NotFound(Classify(cfg, line).path), |before| + 1, here))
  {
    MissingSteps(fs, cfg, here, room, marker, line, after, |before|);
    Exchange(fs, cfg, here, room, before, [marker, line] + after, after);
    ExpandAppend(fs, cfg, here, room, before, [line] + after, 0, false);
  }

  /** A marker on the last line of a file is forgotten: it neither fails nor
      reaches the file that includes this one. */
  lemma LastMarkerIsForgotten(fs: FileSystem, cfg: Config, here: SourceFileDesc, room: nat,
                              lines: seq<Text>, marker: Text)
    requires Classify(cfg, marker).Marker? && !MarkedAfter(cfg, lines, false)
    ensures Whole(fs, cfg, here, room, lines + [marker]) == Whole(fs, cfg, here, room, lines)
  {
    ExpandAppend(fs, cfg, here, room, lines, [marker], 0, false);
    assert [marker] + [] == [marker];
    MarkerStep(fs, cfg, here, room, marker, [], |lines|);
    var whole := Whole(fs, cfg, here, room, lines);
    assert whole.lines + [] == whole.lines;
  }

  lemma {:induction false} SpliceFile(fs: FileSystem, cfg: Config, here: SourceFileDesc, room: nat,
                                      path: Text, text: Text, n: nat)
    requires !Overflows(ExpandFile(fs, cfg, here, room, path, n + 1, text))
    ensures Same(ExpandLines(fs, cfg, here, room, Split(text), n, false),
                 ExpandFile(fs, cfg, here, room, path, n + 1, text))
  {
    var child := Desc(path, here, n + 1);
    LinesStability(fs, cfg, child, room - 1, room, Split(text), 0, false);
    LinesShift(fs, cfg, room, Split(text), false, child, 0, here, n);
  }

  /** `lines` can stand in front of `after`: no marker at their end comes to
      stand before anything it has an effect on. */
  predicate Joins(fs: FileSystem, cfg: Config, lines: seq<Text>, after: seq<Text>) {
    MarkedAfter(cfg, lines, false) && after != [] ==>
      var kind := Classify(cfg, after[0]);
      kind.Malformed? || (kind.Include? && !Resolve(fs, cfg, kind.path).Missing?)
  }

  /** Lines behind others expand as on their own if they join; if they do not
      and would expand, they fail. */
  lemma JoinedLines(fs: FileSystem, cfg: Config, here: SourceFileDesc, room: nat,
                    lines: seq<Text>, after: seq<Text>, n: nat)
    ensures var joined := ExpandLines(fs, cfg, here, room, after, n, MarkedAfter(cfg, lines, false));
            var alone := ExpandLines(fs, cfg, here, room, after, n, false);
            if Joins(fs, cfg, lines, after) then joined == alone
            else alone.outcome.Returned? ==> joined.outcome.Threw?
  {
  }

  lemma ThenSame(a: Expansion, a': Expansion, b: Expansion, b': Expansion)
    requires Same(a, a')
    ensures a'.outcome.Threw? || Same(b, b') ==> Same(a.Then(b), a'.Then(b'))
    ensures b.outcome.Threw? ==> a.Then(b).outcome.Threw?
  {
  }

  /** Lines in place of one line that contributes the same. */
  lemma {:induction false} SpliceLines(fs: FileSystem, cfg: Config, here: SourceFileDesc, room: nat,
                                       line: Text, lines: seq<Text>, after: seq<Text>, n: nat)
    requires !Classify(cfg, line).Marker?
    requires Same(ExpandLines(fs, cfg, here, room, lines, n, false),
                  ExpandLine(fs, cfg, here, room, line, n + 1, false))
    ensures var e := ExpandLines(fs, cfg, here, room, lines + after, n, false);
            var d := ExpandLines(fs, cfg, here, room, [line] + after, n, false);
            var joins := Joins(fs, cfg, lines, after);
            && (ExpandLine(fs, cfg, here, room, line, n + 1, false).outcome.Threw? || joins ==> Same(e, d))
            && (d.outcome.Returned? && !joins ==> e.outcome.Threw?)
  {
    var m := n + |lines|;
    ExpandCons(fs, cfg, here, room, line, after, n, false);
    ExpandAppend(fs, cfg, here, room, lines, after, n, false);
    LinesShift(fs, cfg, room, after, false, here, n + 1, here, m);
    JoinedLines(fs, cfg, here, room, lines, after, m);
    ThenSame(ExpandLines(fs, cfg, here, room, lines, n, false),
             ExpandLine(fs, cfg, here, room, line, n + 1, false),
             ExpandLines(fs, cfg, here, room, after, m, MarkedAfter(cfg, lines, false)),
             ExpandLines(fs, cfg, here, room, after, n + 1, false));
  }

  lemma {:induction false} InlineAt(fs: FileSystem, cfg: Config, here: SourceFileDesc, room: nat,
                                    line: Text, text: Text, after: seq<Text>, n: nat)
    requires Classify(cfg, line).Include? && Resolve(fs, cfg, Classify(cfg, line).path) == Content(text)
    requires !Overflows(ExpandLines(fs, cfg, here, room, [line] + after, n, false))
    ensures var e := ExpandLines(fs, cfg, here, room, Split(text) + after, n, false);
            var d := ExpandLines(fs, cfg, here, room, [line] + after, n, false);
            var joins := Joins(fs, cfg, Split(text), after);
            && (ExpandLine(fs, cfg, here, room, line, n + 1, false).outcome.Threw? || joins ==> Same(e, d))
            && (d.outcome.Returned? && !joins ==> e.outcome.Threw?)
  {
    ExpandCons(fs, cfg, here, room, line, after, n, false);
    SpliceFile(fs, cfg, here, room, Classify(cfg, line).path, text, n);
    SpliceLines(fs, cfg, here, room, line, Split(text), after, n);
  }

  /** What a beginning makes of two endings. */
  lemma InlineBehind(begin: Expansion, step: Expansion, e: Expansion, d: Expansion, joins: bool)
    requires begin.outcome.Returned? ==>
               && (step.outcome.Threw? || joins ==> Same(e, d))
               && (d.outcome.Returned? && !joins ==> e.outcome.Threw?)
    ensures begin.Then(step).outcome.Threw? || joins ==> Same(begin.Then(e), begin.Then(d))
    ensures begin.Then(d).outcome.Returned? ==> (Same(begin.Then(e), begin.Then(d)) <==> joins)
  {
  }

  lemma WholeUpTo(fs: FileSystem, cfg: Config, here: SourceFileDesc, room: nat, before: seq<Text>, line: Text)
    requires !MarkedAfter(cfg, before, false)
    ensures Whole(fs, cfg, here, room, before + [line]) ==
            Whole(fs, cfg, here, room, before).Then(ExpandLine(fs, cfg, here, room, line, |before| + 1, false))
  {
    WholeBehind(fs, cfg, here, room, before, [line]);
    assert [line] + [] == [line];
    ExpandCons(fs, cfg, here, room, line, [], |before|, false);
    var step := ExpandLine(fs, cfg, here, room, line, |before| + 1, false);
    assert step.lines + [] == step.lines;
  }

  /** In a run that does not overflow, replacing a directive by the lines of the
      file it includes preserves the text and the fault if the run does not come
      past the directive, or that file does not end in a marker which then stands
      before a line of the includer it has an effect on. For a run that ends
      normally nothing else preserves it. (Under a limit the replacement makes
      room for one more file, so what overflows may no longer do so.) */
  lemma {:induction false} InlineByHand(fs: FileSystem, cfg: Config, here: SourceFileDesc, room: nat,
                                        before: seq<Text>, line: Text, text: Text, after: seq<Text>)
    requires !MarkedAfter(cfg, before, false)
    requires Classify(cfg, line).Include? && Resolve(fs, cfg, Classify(cfg, line).path) == Content(text)
    requires !Overflows(Whole(fs, cfg, here, room, before + ([line] + after)))
    ensures var byHand := Whole(fs, cfg, here, room, before + (Split(text) + after));
            var directed := Whole(fs, cfg, here, room, before + ([line] + after));
            var joins := Joins(fs, cfg, Split(text), after);
            && (Whole(fs, cfg, here, room, before + [line]).outcome.Threw? || joins ==> Same(byHand, directed))
            && (directed.outcome.Returned? ==> (Same(byHand, directed) <==> joins))
  {
    var begin := Whole(fs, cfg, here, room, before);
    WholeUpTo(fs, cfg, here, room, before, line);
    WholeBehind(fs, cfg, here, room, before, Split(text) + after);
    WholeBehind(fs, cfg, here, room, before, [line] + after);
    if begin.outcome.Returned? {
      InlineAt(fs, cfg, here, room, line, text, after, |before|);
    }
    InlineBehind(begin, ExpandLine(fs, cfg, here, room, line, |before| + 1, false),
                 ExpandLines(fs, cfg, here, room, Split(text) + after, |before|, false),
                 ExpandLines(fs, cfg, here, room, [line] + after, |before|, false), Joins(fs, cfg, Split(text), after));
  }

  const DIRECTIVE: Text := "#include"
  const INCLUDE_X: Text := "#include \"x\""
  const QUOTED_X: Text := "\"x\""
  const PLAIN: Text := "y"

  lemma DirectiveIsWord()
    ensures NoUpper(DIRECTIVE) && NoBlank(DIRECTIVE) && SameButCase(DIRECTIVE, DIRECTIVE) && |DIRECTIVE| < |MARKER|
  {
    forall i | 0 <= i < |DIRECTIVE| ensures !('A' <= DIRECTIVE[i] <= 'Z') && !IsBlank(DIRECTIVE[i]) {
    }
  }

  lemma {:induction false} IncludeXIsInclude(cfg: Config)
    requires cfg.directive == DIRECTIVE && cfg.recurse
    ensures Classify(cfg, INCLUDE_X) == Include(['x'])
  {
    DirectiveIsWord();
    assert Framed(QUOTED_X, [], '"', ['x'], '"', []);
    DirectiveLine(cfg, [], DIRECTIVE, ' ', QUOTED_X);
    assert INCLUDE_X == [] + DIRECTIVE + [' '] + QUOTED_X;
  }

  lemma SameInSmalls(s: Text, t: Text)
    requires NoUpper(s)
    ensures NoUpper(t) && SameButCase(s, t) <==> s == t
  {
    LowerIff(s, t);
    LowerIff(s, s);
  }

  lemma {:induction false} WordLine(cfg: Config, word: Text)
    requires word != [] && NoBlank(word) && NoUpper(word)
    ensures Classify(cfg, word).Marker? <==> word == MARKER
    ensures Classify(cfg, word).Plain? <==> word != MARKER && (!cfg.recurse || word != cfg.directive)
    ensures Split(word) == [word]
  {
    assert [] + word + [] == word && word[0..] == word;
    OtherLine(cfg, [], word, []);
    SameInSmalls(word, MARKER);
    SameInSmalls(word, cfg.directive);
    MarkerIsSmall();
    assert IsBlank(NL);
    FindNone(word, NL, 0);
  }

  lemma IncludeThenPlain(fs: FileSystem, cfg: Config, here: SourceFileDesc, room: nat,
                         line: Text, text: Text, plain: Text)
    requires room > 0 && Classify(cfg, line).Include? && Classify(cfg, plain).Plain?
    requires Resolve(fs, cfg, Classify(cfg, line).path) == Content(text)
    requires Split(text) == [text] && Classify(cfg, text).Marker?
    ensures Whole(fs, cfg, here, room, [] + ([line] + [plain])) == Expansion([plain], Returned)
  {
    var child := Desc(Classify(cfg, line).path, here, 1);
    assert [text] + [] == [text] && [plain] + [] == [plain];
    MarkerStep(fs, cfg, child, room - 1, text, [], 0);
    assert ExpandFile(fs, cfg, here, room, child.path, 1, text) == Expansion([], Returned);
    ExpandCons(fs, cfg, here, room, plain, [], 1, false);
    ExpandCons(fs, cfg, here, room, line, [plain], 0, false);
    assert [] + ([line] + [plain]) == [line] + [plain];
  }

  /** Such a file: a marker and nothing else, included before a plain line. */
  lemma InlineByHandFails(fs: FileSystem, cfg: Config, here: SourceFileDesc)
    requires cfg.directive == DIRECTIVE && cfg.recurse && Resolve(fs, cfg, ['x']) == Content(MARKER)
    ensures Whole(fs, cfg, here, 1, [] + ([INCLUDE_X] + [PLAIN])) == Expansion([PLAIN], Returned)
    ensures !Same(Whole(fs, cfg, here, 1, [] + ([MARKER] + [PLAIN])),
                  Whole(fs, cfg, here, 1, [] + ([INCLUDE_X] + [PLAIN])))
  {
    IncludeXIsInclude(cfg);
    MarkerIsSmall();
    WordLine(cfg, MARKER);
    WordLine(cfg, PLAIN);
    IncludeThenPlain(fs, cfg, here, 1, INCLUDE_X, MARKER, PLAIN);
    InlineByHand(fs, cfg, here, 1, [], INCLUDE_X, MARKER, [PLAIN]);
  }
}
