/** A failing run described without running anything: it stops at the first bad
    line in reading order, with the plain lines before it written. */
module FirstFaults {
  import opened Bytes
  import opened SourceFiles
  import opened Directives
  import opened Expansions
  import opened ExpansionLaws
  import opened Reachability
  import opened ReadingOrder
  import opened Traces

  /** The line at a position is at fault: it is malformed, not under the marker
      it needs or under one it must not have, or it includes a file when there
      is no room for another. `room` is for files above the one of `lines`. */
  ghost predicate BadAt(fs: FileSystem, cfg: Config, room: nat, lines: seq<Text>, pos: Position)
    decreases |pos|
  {
    && pos != [] && pos[0] < |lines|
    && var kind := Classify(cfg, lines[pos[0]]);
       if kind.Include? && Resolve(fs, cfg, kind.path).Content? then
         if room == 0 then |pos| == 1
         else BadAt(fs, cfg, room - 1, Split(Resolve(fs, cfg, kind.path).text), pos[1..])
       else |pos| == 1 && !GoodAt(fs, cfg, lines, false, pos[0])
  }

  /** ... and the fault is the missing room. */
  ghost predicate TooDeepAt(fs: FileSystem, cfg: Config, room: nat, lines: seq<Text>, pos: Position)
    requires BadAt(fs, cfg, room, lines, pos)
    decreases |pos|
  {
    var kind := Classify(cfg, lines[pos[0]]);
    && kind.Include? && Resolve(fs, cfg, kind.path).Content?
    && (room == 0 || TooDeepAt(fs, cfg, room - 1, Split(Resolve(fs, cfg, kind.path).text), pos[1..]))
  }

  /** `o` is the exception for the line at `pos` of file `here`: the stack goes
      down the position, each component giving the line of the include. */
  ghost predicate Reports(fs: FileSystem, cfg: Config, here: SourceFileDesc, room: nat, lines: seq<Text>,
                          pos: Position, o: Outcome)
    requires BadAt(fs, cfg, room, lines, pos)
    decreases |pos|
  {
    var i := pos[0];
    var kind := Classify(cfg, lines[i]);
    if kind.Include? && Resolve(fs, cfg, kind.path).Content? then
      if room == 0 then o == Threw(StackOverflow, 0, here)
      else
        Reports(fs, cfg, Desc(kind.path, here, i + 1), room - 1, Split(Resolve(fs, cfg, kind.path).text), pos[1..], o)
    else
      && o.Threw? && o.stack == here && o.line == i + 1
      && HasFault(fs, cfg, lines[i], MarkedAfter(cfg, lines[..i], false), o.fault)
  }

  /** No line is at fault before `pos`, from index `lo` on. */
  ghost predicate FirstBad(fs: FileSystem, cfg: Config, room: nat, lines: seq<Text>, lo: nat, pos: Position) {
    && Within(pos, lo, |lines|) && BadAt(fs, cfg, room, lines, pos)
    && forall q :: Within(q, lo, |lines|) && BadAt(fs, cfg, room, lines, q) ==> !Before(q, pos)
  }

  /** `ps` lists, in reading order, the plain lines from index `lo` up to `pos`,
      and `ts` is what stands there. */
  ghost predicate ReadsUpTo(fs: FileSystem, cfg: Config, lines: seq<Text>, lo: nat, pos: Position,
                            ps: seq<Position>, ts: seq<Text>)
  {
    && |ps| == |ts|
    && InOrder(ps)
    && (forall k :: 0 <= k < |ps| ==>
          Within(ps[k], lo, |lines|) && Before(ps[k], pos) && At(fs, cfg, lines, ps[k]) == Some(ts[k]))
    && (forall q :: Within(q, lo, |lines|) && Before(q, pos) && At(fs, cfg, lines, q).Some? ==> q in ps)
  }

  /** What a failing run over `lines` must be, with the positions that show it. */
  ghost predicate Stops(fs: FileSystem, cfg: Config, here: SourceFileDesc, room: nat, lines: seq<Text>, lo: nat,
                        pos: Position, ps: seq<Position>, e: Expansion)
  {
    && FirstBad(fs, cfg, room, lines, lo, pos)
    && ReadsUpTo(fs, cfg, lines, lo, pos, ps, e.lines)
    && Reports(fs, cfg, here, room, lines, pos, e.outcome)
  }

  ghost predicate StopsAtFirst(fs: FileSystem, cfg: Config, here: SourceFileDesc, room: nat, lines: seq<Text>,
                               e: Expansion)
  {
    exists pos, ps :: Stops(fs, cfg, here, room, lines, 0, pos, ps, e)
  }

  // ----- lines that expand are not at fault -----

  /** A line that expands, wherever it stands. */
  ghost predicate FineAt(fs: FileSystem, cfg: Config, room: nat, lines: seq<Text>, i: nat)
    requires i < |lines|
  {
    var kind := Classify(cfg, lines[i]);
    && GoodAt(fs, cfg, lines, false, i)
    && (kind.Include? && Resolve(fs, cfg, kind.path).Content? ==>
          Expands(fs, cfg, room, Resolve(fs, cfg, kind.path).text))
  }

  lemma IncludeIsFollowed(fs: FileSystem, cfg: Config, room: nat, lines: seq<Text>, line: Text)
    requires AllExpand(fs, cfg, room, lines) && line in lines
    ensures var kind := Classify(cfg, line);
            kind.Include? && Resolve(fs, cfg, kind.path).Content? ==>
              Expands(fs, cfg, room, Resolve(fs, cfg, kind.path).text)
  {
    var kind := Classify(cfg, line);
    if kind.Include? && Resolve(fs, cfg, kind.path).Content? {
      assert Includes(fs, cfg, lines, kind.path);
    }
  }

  lemma ReturnedIsFine(fs: FileSystem, cfg: Config, here: SourceFileDesc, room: nat, lines: seq<Text>, i: nat)
    requires i < |lines|
    requires ExpandLine(fs, cfg, here, room, lines[i], i + 1, MarkedAfter(cfg, lines[..i], false)).outcome.Returned?
    ensures FineAt(fs, cfg, room, lines, i)
  {
    LineExpands(fs, cfg, here, room, lines[i], i + 1, MarkedAfter(cfg, lines[..i], false));
    IncludeIsFollowed(fs, cfg, room, [lines[i]], lines[i]);
  }

  lemma {:induction false} FineIsNotBad(fs: FileSystem, cfg: Config, room: nat, lines: seq<Text>, i: nat, pos: Position)
    requires i < |lines| && FineAt(fs, cfg, room, lines, i) && Within(pos, i, i + 1)
    ensures !BadAt(fs, cfg, room, lines, pos)
    decreases |pos|, 0
  {
    var kind := Classify(cfg, lines[i]);
    if kind.Include? && Resolve(fs, cfg, kind.path).Content? && room > 0 {
      ExpandedHasNoBad(fs, cfg, room - 1, Resolve(fs, cfg, kind.path).text, pos[1..]);
    }
  }

  lemma {:induction false} ExpandedIsFine(fs: FileSystem, cfg: Config, above: nat, text: Text, i: nat)
    requires Expands(fs, cfg, above + 1, text) && i < |Split(text)|
    ensures FineAt(fs, cfg, above, Split(text), i)
  {
    FileExpands(fs, cfg, above + 1, text);
    assert GoodAt(fs, cfg, Split(text), false, i);
    IncludeIsFollowed(fs, cfg, above, Split(text), Split(text)[i]);
  }

  lemma {:induction false} ExpandedHasNoBad(fs: FileSystem, cfg: Config, above: nat, text: Text, pos: Position)
    requires Expands(fs, cfg, above + 1, text)
    ensures !BadAt(fs, cfg, above, Split(text), pos)
    decreases |pos|, 1
  {
    if pos != [] && pos[0] < |Split(text)| {
      ExpandedIsFine(fs, cfg, above, text, pos[0]);
      FineIsNotBad(fs, cfg, above, Split(text), pos[0], pos);
    }
  }

  // ----- from a file to the line that includes it -----

  lemma FirstBadInclude(fs: FileSystem, cfg: Config, room: nat, lines: seq<Text>, i: nat, text: Text, pos: Position)
    requires i < |lines| && room > 0 && Classify(cfg, lines[i]).Include?
    requires Resolve(fs, cfg, Classify(cfg, lines[i]).path) == Content(text)
    requires FirstBad(fs, cfg, room - 1, Split(text), 0, pos)
    ensures FirstBad(fs, cfg, room, lines, i, [i] + pos)
  {
    var all := [i] + pos;
    assert all[1..] == pos;
    forall q | Within(q, i, |lines|) && BadAt(fs, cfg, room, lines, q) ensures !Before(q, all) {
      if q[0] == i {
        assert BadAt(fs, cfg, room - 1, Split(text), q[1..]);
        assert Within(q[1..], 0, |Split(text)|);
      }
    }
  }

  lemma ReadsUpToInclude(fs: FileSystem, cfg: Config, lines: seq<Text>, i: nat, text: Text, pos: Position,
                         ps: seq<Position>, ts: seq<Text>)
    requires i < |lines| && Classify(cfg, lines[i]).Include?
    requires Resolve(fs, cfg, Classify(cfg, lines[i]).path) == Content(text)
    requires ReadsUpTo(fs, cfg, Split(text), 0, pos, ps, ts)
    ensures ReadsUpTo(fs, cfg, lines, i, [i] + pos, Under(i, ps), ts)
  {
    var us, all := Under(i, ps), [i] + pos;
    assert all[1..] == pos;
    forall k | 0 <= k < |us|
      ensures Within(us[k], i, |lines|) && us[k][1..] == ps[k] && Before(us[k], all)
      ensures At(fs, cfg, lines, us[k]) == Some(ts[k])
    {
    }
    forall j, k | 0 <= j < k < |us| ensures Before(us[j], us[k]) {
      assert Before(ps[j], ps[k]);
    }
    forall q | Within(q, i, |lines|) && Before(q, all) && At(fs, cfg, lines, q).Some? ensures q in us {
      assert q == [i] + q[1..];
      PlainIsWithin(fs, cfg, Split(text), q[1..]);
      var k :| 0 <= k < |ps| && ps[k] == q[1..];
      assert us[k] == q;
    }
  }

  lemma ReportsInclude(fs: FileSystem, cfg: Config, here: SourceFileDesc, room: nat, lines: seq<Text>, i: nat,
                       text: Text, pos: Position, o: Outcome)
    requires i < |lines| && room > 0 && Classify(cfg, lines[i]).Include?
    requires Resolve(fs, cfg, Classify(cfg, lines[i]).path) == Content(text)
    requires BadAt(fs, cfg, room - 1, Split(text), pos)
    requires Reports(fs, cfg, Desc(Classify(cfg, lines[i]).path, here, i + 1), room - 1, Split(text), pos, o)
    ensures BadAt(fs, cfg, room, lines, [i] + pos) && Reports(fs, cfg, here, room, lines, [i] + pos, o)
  {
    assert ([i] + pos)[1..] == pos;
  }

  // ----- from a line to the lines before it -----

  lemma FirstBadBehind(fs: FileSystem, cfg: Config, here: SourceFileDesc, room: nat, lines: seq<Text>, i: nat,
                       pos: Position)
    requires i < |lines| && FirstBad(fs, cfg, room, lines, i + 1, pos)
    requires ExpandLine(fs, cfg, here, room, lines[i], i + 1, MarkedAfter(cfg, lines[..i], false)).outcome.Returned?
    ensures FirstBad(fs, cfg, room, lines, i, pos)
  {
    forall q | Within(q, i, |lines|) && BadAt(fs, cfg, room, lines, q) ensures !Before(q, pos) {
      if q[0] == i {
        ReturnedIsFine(fs, cfg, here, room, lines, i);
        FineIsNotBad(fs, cfg, room, lines, i, q);
      } else {
        assert Within(q, i + 1, |lines|);
      }
    }
  }

  lemma ReadsUpToBehind(fs: FileSystem, cfg: Config, lines: seq<Text>, i: nat, pos: Position,
                        ps: seq<Position>, ts: seq<Text>, qs: seq<Position>, us: seq<Text>)
    requires i < |lines| && Within(pos, i + 1, |lines|)
    requires Reads(fs, cfg, lines, i, i + 1, ps, ts) && ReadsUpTo(fs, cfg, lines, i + 1, pos, qs, us)
    ensures ReadsUpTo(fs, cfg, lines, i, pos, ps + qs, ts + us)
  {
    var all, ws := ps + qs, ts + us;
    forall q | Within(q, i, |lines|) && Before(q, pos) && At(fs, cfg, lines, q).Some? ensures q in all {
      assert Within(q, i, i + 1) || Within(q, i + 1, |lines|);
    }
    forall k | 0 <= k < |all|
      ensures Within(all[k], i, |lines|) && Before(all[k], pos) && At(fs, cfg, lines, all[k]) == Some(ws[k])
    {
      if k < |ps| {
        assert all[k] == ps[k] && ws[k] == ts[k];
      } else {
        assert all[k] == qs[k - |ps|] && ws[k] == us[k - |ps|];
      }
    }
    InOrderConcat(i + 1, ps, qs);
  }

  // ----- a run that throws -----

  lemma LocalFault(fs: FileSystem, cfg: Config, here: SourceFileDesc, room: nat, lines: seq<Text>, i: nat)
    requires i < |lines|
    requires ExpandLine(fs, cfg, here, room, lines[i], i + 1, MarkedAfter(cfg, lines[..i], false)).outcome.Threw?
    requires var kind := Classify(cfg, lines[i]);
             kind.Include? && Resolve(fs, cfg, kind.path).Content? ==> room == 0
    ensures Stops(fs, cfg, here, room, lines, i, [i], [],
                  ExpandLine(fs, cfg, here, room, lines[i], i + 1, MarkedAfter(cfg, lines[..i], false)))
  {
    var marked := MarkedAfter(cfg, lines[..i], false);
    var kind := Classify(cfg, lines[i]);
    if kind.Include? && Resolve(fs, cfg, kind.path).Content? {
      assert BadAt(fs, cfg, room, lines, [i]);
    } else {
      FaultOfLine(fs, cfg, here, room, lines[i], i + 1, marked);
      assert !GoodAt(fs, cfg, lines, false, i);
    }
    forall q | Within(q, i, |lines|) ensures !Before(q, [i]) {}
  }

  lemma {:induction false} FileStops(fs: FileSystem, cfg: Config, stack: SourceFileDesc, room: nat,
                                     path: Text, line: int, text: Text) returns (pos: Position, ps: seq<Position>)
    requires room > 0 && ExpandFile(fs, cfg, stack, room, path, line, text).outcome.Threw?
    ensures Stops(fs, cfg, Desc(path, stack, line), room - 1, Split(text), 0, pos, ps,
                  ExpandFile(fs, cfg, stack, room, path, line, text))
    decreases room, 0
  {
    assert Split(text)[0..] == Split(text);
    pos, ps := LinesStop(fs, cfg, Desc(path, stack, line), room - 1, Split(text), 0);
  }

  lemma {:induction false} LineStops(fs: FileSystem, cfg: Config, here: SourceFileDesc, room: nat,
                                     lines: seq<Text>, i: nat) returns (pos: Position, ps: seq<Position>)
    requires i < |lines|
    requires ExpandLine(fs, cfg, here, room, lines[i], i + 1, MarkedAfter(cfg, lines[..i], false)).outcome.Threw?
    ensures Stops(fs, cfg, here, room, lines, i, pos, ps,
                  ExpandLine(fs, cfg, here, room, lines[i], i + 1, MarkedAfter(cfg, lines[..i], false)))
    decreases room, 1
  {
    var kind := Classify(cfg, lines[i]);
    if kind.Include? && Resolve(fs, cfg, kind.path).Content? && room > 0 {
      var text := Resolve(fs, cfg, kind.path).text;
      var inner, qs := FileStops(fs, cfg, here, room, kind.path, i + 1, text);
      var e := ExpandFile(fs, cfg, here, room, kind.path, i + 1, text);
      FirstBadInclude(fs, cfg, room, lines, i, text, inner);
      ReadsUpToInclude(fs, cfg, lines, i, text, inner, qs, e.lines);
      ReportsInclude(fs, cfg, here, room, lines, i, text, inner, e.outcome);
      pos, ps := [i] + inner, Under(i, qs);
    } else {
      LocalFault(fs, cfg, here, room, lines, i);
      pos, ps := [i], [];
    }
  }

  lemma {:induction false} LinesStop(fs: FileSystem, cfg: Config, here: SourceFileDesc, room: nat,
                                     lines: seq<Text>, i: nat) returns (pos: Position, ps: seq<Position>)
    requires i <= |lines|
    requires ExpandLines(fs, cfg, here, room, lines[i..], i, MarkedAfter(cfg, lines[..i], false)).outcome.Threw?
    ensures Stops(fs, cfg, here, room, lines, i, pos, ps,
                  ExpandLines(fs, cfg, here, room, lines[i..], i, MarkedAfter(cfg, lines[..i], false)))
    decreases room, 2, |lines| - i
  {
    var step := ExpandLine(fs, cfg, here, room, lines[i], i + 1, MarkedAfter(cfg, lines[..i], false));
    assert lines[i..][1..] == lines[i + 1..];
    if step.outcome.Threw? {
      pos, ps := LineStops(fs, cfg, here, room, lines, i);
    } else {
      var rest := ExpandLines(fs, cfg, here, room, lines[i + 1..], i + 1, MarkedAfter(cfg, lines[..i + 1], false));
      var first := ReadLine(fs, cfg, here, room, lines, i, i + 1, MarkedAfter(cfg, lines[..i], false));
      var qs;
      pos, qs := LinesStop(fs, cfg, here, room, lines, i + 1);
      FirstBadBehind(fs, cfg, here, room, lines, i, pos);
      ReadsUpToBehind(fs, cfg, lines, i, pos, first, step.lines, qs, rest.lines);
      ps := first + qs;
    }
  }

  // ----- only one thing to report -----

  lemma {:induction false} Compare(p: Position, q: Position)
    ensures p <= q || q <= p || Before(p, q) || Before(q, p)
    decreases |p|
  {
    if p != [] && q != [] && p[0] == q[0] {
      Compare(p[1..], q[1..]);
      assert p == [p[0]] + p[1..] && q == [q[0]] + q[1..];
    }
  }

  lemma {:induction false} NoBadAbove(fs: FileSystem, cfg: Config, room: nat, lines: seq<Text>,
                                      p: Position, q: Position)
    requires BadAt(fs, cfg, room, lines, p) && BadAt(fs, cfg, room, lines, q) && p <= q
    ensures |p| == |q|
    decreases |p|
  {
    var kind := Classify(cfg, lines[p[0]]);
    if kind.Include? && Resolve(fs, cfg, kind.path).Content? && room > 0 {
      NoBadAbove(fs, cfg, room - 1, Split(Resolve(fs, cfg, kind.path).text), p[1..], q[1..]);
    }
  }

  lemma BadAreOrdered(fs: FileSystem, cfg: Config, room: nat, lines: seq<Text>, p: Position, q: Position)
    requires BadAt(fs, cfg, room, lines, p) && BadAt(fs, cfg, room, lines, q)
    ensures p == q || Before(p, q) || Before(q, p)
  {
    Compare(p, q);
    if p <= q {
      NoBadAbove(fs, cfg, room, lines, p, q);
    } else if q <= p {
      NoBadAbove(fs, cfg, room, lines, q, p);
    }
  }

  lemma {:induction false} ReportIsUnique(fs: FileSystem, cfg: Config, here: SourceFileDesc, room: nat,
                                          lines: seq<Text>, pos: Position, o: Outcome, o': Outcome)
    requires BadAt(fs, cfg, room, lines, pos)
    requires Reports(fs, cfg, here, room, lines, pos, o) && Reports(fs, cfg, here, room, lines, pos, o')
    ensures o == o'
    ensures o.Threw? && (o.fault.StackOverflow? <==> TooDeepAt(fs, cfg, room, lines, pos))
    decreases |pos|
  {
    var kind := Classify(cfg, lines[pos[0]]);
    if kind.Include? && Resolve(fs, cfg, kind.path).Content? && room > 0 {
      ReportIsUnique(fs, cfg, Desc(kind.path, here, pos[0] + 1), room - 1,
                     Split(Resolve(fs, cfg, kind.path).text), pos[1..], o, o');
    }
  }

  lemma ReadUpToIsUnique(fs: FileSystem, cfg: Config, lines: seq<Text>, pos: Position,
                         ps: seq<Position>, ts: seq<Text>, qs: seq<Position>, us: seq<Text>)
    requires ReadsUpTo(fs, cfg, lines, 0, pos, ps, ts) && ReadsUpTo(fs, cfg, lines, 0, pos, qs, us)
    ensures ts == us
  {
    forall p ensures p in ps <==> p in qs {
      if p in ps { var k :| 0 <= k < |ps| && ps[k] == p; }
      if p in qs { var k :| 0 <= k < |qs| && qs[k] == p; }
    }
    OrderIsUnique(ps, qs);
    forall k | 0 <= k < |ts| ensures ts[k] == us[k] {
      assert At(fs, cfg, lines, ps[k]) == Some(ts[k]);
    }
  }

  lemma StopIsUnique(fs: FileSystem, cfg: Config, here: SourceFileDesc, room: nat, lines: seq<Text>,
                     pos: Position, ps: seq<Position>, e: Expansion, pos': Position, ps': seq<Position>, e': Expansion)
    requires Stops(fs, cfg, here, room, lines, 0, pos, ps, e) && Stops(fs, cfg, here, room, lines, 0, pos', ps', e')
    ensures pos == pos' && e == e'
  {
    BadAreOrdered(fs, cfg, room, lines, pos, pos');
    ReadUpToIsUnique(fs, cfg, lines, pos, ps, e.lines, ps', e'.lines);
    ReportIsUnique(fs, cfg, here, room, lines, pos, e.outcome, e'.outcome);
  }

  lemma {:induction false} BadDoesNotExpand(fs: FileSystem, cfg: Config, above: nat, text: Text, pos: Position)
    requires BadAt(fs, cfg, above, Split(text), pos)
    ensures !Expands(fs, cfg, above + 1, text)
  {
    if Expands(fs, cfg, above + 1, text) {
      ExpandedHasNoBad(fs, cfg, above, text, pos);
    }
  }

  lemma {:induction false} BadThrows(fs: FileSystem, cfg: Config, stack: SourceFileDesc, above: nat,
                                     path: Text, line: int, text: Text, pos: Position)
    requires BadAt(fs, cfg, above, Split(text), pos)
    ensures ExpandFile(fs, cfg, stack, above + 1, path, line, text).outcome.Threw?
  {
    ExpandsAnywhere(fs, cfg, stack, above + 1, path, line, text);
    BadDoesNotExpand(fs, cfg, above, text, pos);
  }

  lemma RunStops(fs: FileSystem, cfg: Config, stack: SourceFileDesc, above: nat, path: Text, line: int, text: Text)
    returns (pos: Position, ps: seq<Position>)
    requires ExpandFile(fs, cfg, stack, above + 1, path, line, text).outcome.Threw?
    ensures BadAt(fs, cfg, above, Split(text), pos)
    ensures Stops(fs, cfg, Desc(path, stack, line), above, Split(text), 0, pos, ps,
                  ExpandFile(fs, cfg, stack, above + 1, path, line, text))
  {
    pos, ps := FileStops(fs, cfg, stack, above + 1, path, line, text);
  }

  lemma StopsIff(fs: FileSystem, cfg: Config, here: SourceFileDesc, room: nat, lines: seq<Text>,
                 pos: Position, ps: seq<Position>, e: Expansion, e': Expansion)
    requires Stops(fs, cfg, here, room, lines, 0, pos, ps, e)
    ensures StopsAtFirst(fs, cfg, here, room, lines, e') <==> e' == e
  {
    if StopsAtFirst(fs, cfg, here, room, lines, e') {
      var pos', ps' :| Stops(fs, cfg, here, room, lines, 0, pos', ps', e');
      StopIsUnique(fs, cfg, here, room, lines, pos, ps, e, pos', ps', e');
    }
  }

  /** The run `e` over `lines` throws if any line it can reach is at fault, and
      only then. It then is what the first such line in reading order makes it:
      the exception for that line, on the stack that leads to it, after exactly
      the plain lines before it. Nothing else fits that description. */
  ghost predicate FailsFirst(fs: FileSystem, cfg: Config, here: SourceFileDesc, above: nat, lines: seq<Text>,
                             e: Expansion)
  {
    && (forall pos :: BadAt(fs, cfg, above, lines, pos) ==> e.outcome.Threw?)
    && (forall e' :: StopsAtFirst(fs, cfg, here, above, lines, e') <==> e.outcome.Threw? && e' == e)
  }

  lemma {:induction false} ThrowsAtFirstFault(fs: FileSystem, cfg: Config, stack: SourceFileDesc, above: nat,
                                              path: Text, line: int, text: Text)
    ensures FailsFirst(fs, cfg, Desc(path, stack, line), above, Split(text),
                       ExpandFile(fs, cfg, stack, above + 1, path, line, text))
  {
    var e, lines, here := ExpandFile(fs, cfg, stack, above + 1, path, line, text), Split(text), Desc(path, stack, line);
    forall e' ensures StopsAtFirst(fs, cfg, here, above, lines, e') <==> e.outcome.Threw? && e' == e {
      if e.outcome.Threw? {
        var q, qs := RunStops(fs, cfg, stack, above, path, line, text);
        StopsIff(fs, cfg, here, above, lines, q, qs, e, e');
      } else if StopsAtFirst(fs, cfg, here, above, lines, e') {
        var pos, ps :| Stops(fs, cfg, here, above, lines, 0, pos, ps, e');
        BadThrows(fs, cfg, stack, above, path, line, text, pos);
      }
    }
    forall pos | BadAt(fs, cfg, above, lines, pos) ensures e.outcome.Threw? {
      BadThrows(fs, cfg, stack, above, path, line, text, pos);
    }
  }

  /** With room for its root a run fails at the first line at fault; without it,
      it overflows where it stands. */
  lemma {:induction false} FailsAtFirstFault(fs: FileSystem, cfg: Config, stack: SourceFileDesc, room: nat,
                                             path: Text, line: int, text: Text)
    ensures var e := ExpandFile(fs, cfg, stack, room, path, line, text);
            if room == 0 then e == Fails(StackOverflow, 0, stack)
            else FailsFirst(fs, cfg, Desc(path, stack, line), room - 1, Split(text), e)
  {
    if room > 0 {
      ThrowsAtFirstFault(fs, cfg, stack, room - 1, path, line, text);
    }
  }

  /** The first line at fault is an include for which there is no room. */
  ghost predicate FirstIsTooDeep(fs: FileSystem, cfg: Config, above: nat, lines: seq<Text>) {
    exists pos :: FirstBad(fs, cfg, above, lines, 0, pos) && TooDeepAt(fs, cfg, above, lines, pos)
  }

  lemma {:induction false} OverflowsAtFirstFault(fs: FileSystem, cfg: Config, stack: SourceFileDesc, above: nat,
                                                 path: Text, line: int, text: Text)
    ensures Overflows(ExpandFile(fs, cfg, stack, above + 1, path, line, text)) <==>
            FirstIsTooDeep(fs, cfg, above, Split(text))
  {
    var e, lines, here := ExpandFile(fs, cfg, stack, above + 1, path, line, text), Split(text), Desc(path, stack, line);
    forall pos | FirstBad(fs, cfg, above, lines, 0, pos) ensures e.outcome.Threw? {
      BadThrows(fs, cfg, stack, above, path, line, text, pos);
    }
    if e.outcome.Threw? {
      var q, qs := RunStops(fs, cfg, stack, above, path, line, text);
      ReportIsUnique(fs, cfg, here, above, lines, q, e.outcome, e.outcome);
      forall pos | FirstBad(fs, cfg, above, lines, 0, pos) ensures pos == q {
        BadAreOrdered(fs, cfg, above, lines, pos, q);
      }
    }
  }

  /** The stack overflows exactly when there is no room for the root, or the
      first line at fault is an include for which there is none, whatever faults
      come later. */
  lemma OverflowIsFirstFault(fs: FileSystem, cfg: Config, stack: SourceFileDesc, room: nat,
                             path: Text, line: int, text: Text)
    ensures Overflows(ExpandFile(fs, cfg, stack, room, path, line, text)) <==>
            (room > 0 ==> FirstIsTooDeep(fs, cfg, room - 1, Split(text)))
  {
    if room > 0 {
      OverflowsAtFirstFault(fs, cfg, stack, room - 1, path, line, text);
    }
  }
}
