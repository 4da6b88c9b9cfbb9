/** An inliner that has thrown and is used again. */
module Reuse {
  import opened Bytes
  import opened Numbers
  import opened SourceFiles
  import opened Directives
  import opened Expansions
  import opened Fixpoints
  import opened Traces
  import opened Sources

  const FIRST: Text := "a"
  const SECOND: Text := "b"
  const SECOND_LINE: Text := "    b:1"
  const FIRST_LINE: Text := "    from a:0"

  lemma FalseTrace()
    ensures TraceText(Desc(SECOND, Desc(FIRST, Null, 0), 0), 1) == SECOND_LINE + [NL] + FIRST_LINE
  {
    var top, below := Place(SECOND, 1), Place(FIRST, 0);
    assert PrintInt(1) == ['1'] && PrintInt(0) == ['0'];
    assert PrintPlace(AT, top) == SECOND_LINE && PrintPlace(FROM, below) == FIRST_LINE;
    assert Places(Desc(FIRST, Null, 0), 0) == [below];
    assert Places(Desc(SECOND, Desc(FIRST, Null, 0), 0), 1) == [top, below];
    assert TraceLines(FROM, [below]) == [FIRST_LINE];
    assert [top, below][1..] == [below];
    assert TraceLines(AT, [top, below]) == [SECOND_LINE, FIRST_LINE];
    assert [SECOND_LINE, FIRST_LINE][1..] == [FIRST_LINE];
    assert Join([SECOND_LINE, FIRST_LINE]) == SECOND_LINE + [NL] + Join([FIRST_LINE]);
  }

  lemma BareFileFails(fs: FileSystem, cfg: Config, base: SourceFileDesc, room: nat, name: Text)
    requires cfg.directive == HASH_INCLUDE && cfg.recurse && room > 0
    ensures ExpandFile(fs, cfg, base, room, name, 0, HASH_INCLUDE) == Fails(WrongDirective, 1, Desc(name, base, 0))
  {
    assert [] + HASH_INCLUDE == HASH_INCLUDE && NoBlank(HASH_INCLUDE) && SameButCase(HASH_INCLUDE, HASH_INCLUDE);
    BareToolDirective(cfg, [], HASH_INCLUDE);
    IsOneLine(HASH_INCLUDE);
    MalformedFile(fs, cfg, base, room, name, HASH_INCLUDE);
  }

  /** Two files that are a bare directive, given to one inliner in turn: the
      second trace says that `b` was included from line 0 of `a`. */
  lemma ReuseTellsAFalseTrace(fs: FileSystem, cfg: Config)
    requires cfg.directive == HASH_INCLUDE && cfg.recurse
    ensures var first := ExpandFile(fs, cfg, Null, 256, FIRST, 0, HASH_INCLUDE).outcome;
            && first.Threw?
            && var second := ExpandFile(fs, cfg, first.stack, 255, SECOND, 0, HASH_INCLUDE).outcome;
               && second.Threw?
               && TraceText(second.stack, second.line) == SECOND_LINE + [NL] + FIRST_LINE
               && !Truthful(fs, cfg, SECOND, HASH_INCLUDE, Null, second.stack)
  {
    var base := Desc(FIRST, Null, 0);
    BareFileFails(fs, cfg, Null, 256, FIRST);
    BareFileFails(fs, cfg, base, 255, SECOND);
    WholeStackTruthfulIff(fs, cfg, SECOND, base, 255, HASH_INCLUDE);
    FalseTrace();
  }

  /** With a limit of one file, the inliner that has failed on `a` overflows on an
      empty file, which a fresh inliner expands. */
  lemma ReuseRunsOutOfRoom(fs: FileSystem, cfg: Config)
    requires cfg.directive == HASH_INCLUDE && cfg.recurse
    ensures ExpandFile(fs, cfg, Null, 1, SECOND, 0, []).outcome.Returned?
    ensures var first := ExpandFile(fs, cfg, Null, 1, FIRST, 0, HASH_INCLUDE).outcome;
            && first.Threw? && first.stack.Depth() == 1
            && ExpandFile(fs, cfg, first.stack, 0, SECOND, 0, []).outcome == Threw(StackOverflow, 0, first.stack)
  {
    BareFileFails(fs, cfg, Null, 1, FIRST);
    EmptyTextIsInert(cfg);
    PassThrough(fs, cfg, Null, 1, SECOND, 0, []);
    assert Desc(FIRST, Null, 0).Depth() == 1;
  }
}
