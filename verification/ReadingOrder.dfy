/** The emitted lines described without running anything: they are the plain
    lines that can be reached, each once for every way to reach it, in the order
    in which they would be read. */
module ReadingOrder {
  import opened Bytes
  import opened SourceFiles
  import opened Directives
  import opened Expansions

  /** A way to a line: an index into the root's lines, then into the lines of
      the file included there, and so on. */
  type Position = seq<nat>

  /** The plain line at a position, if there is one. */
  ghost function At(fs: FileSystem, cfg: Config, lines: seq<Text>, pos: Position): Option<Text>
    decreases |pos|
  {
    if pos == [] || pos[0] >= |lines| then None
    else
      match Classify(cfg, lines[pos[0]])
      case Plain => if |pos| == 1 then Some(lines[pos[0]]) else None
      case Include(path) =>
        (match Resolve(fs, cfg, path)
         case Content(text) => At(fs, cfg, Split(text), pos[1..])
         case _ => None)
      case _ => None
  }

  /** Reading order. */
  ghost predicate Before(p: Position, q: Position) {
    p != [] && q != [] && (p[0] < q[0] || (p[0] == q[0] && Before(p[1..], q[1..])))
  }

  ghost predicate InOrder(ps: seq<Position>) {
    forall j, k :: 0 <= j < k < |ps| ==> Before(ps[j], ps[k])
  }

  ghost predicate Within(pos: Position, lo: nat, hi: nat) { pos != [] && lo <= pos[0] < hi }

  /** `ps` lists, in reading order, every position of a plain line that starts
      at an index from `lo` to `hi`, and `ts` is what stands there. */
  ghost predicate Reads(fs: FileSystem, cfg: Config, lines: seq<Text>, lo: nat, hi: nat,
                        ps: seq<Position>, ts: seq<Text>) {
    && |ps| == |ts|
    && InOrder(ps)
    && (forall k :: 0 <= k < |ps| ==> Within(ps[k], lo, hi) && At(fs, cfg, lines, ps[k]) == Some(ts[k]))
    && (forall pos :: Within(pos, lo, hi) && At(fs, cfg, lines, pos).Some? ==> pos in ps)
  }

  lemma InOrderConcat(mid: nat, ps: seq<Position>, qs: seq<Position>)
    requires InOrder(ps) && InOrder(qs)
    requires forall k :: 0 <= k < |ps| ==> ps[k] != [] && ps[k][0] < mid
    requires forall k :: 0 <= k < |qs| ==> qs[k] != [] && mid <= qs[k][0]
    ensures InOrder(ps + qs)
  {
  }

  lemma {:induction false} ReadsConcat(fs: FileSystem, cfg: Config, lines: seq<Text>, lo: nat, mid: nat, hi: nat,
                                       ps: seq<Position>, ts: seq<Text>, qs: seq<Position>, us: seq<Text>)
    requires lo <= mid <= hi && Reads(fs, cfg, lines, lo, mid, ps, ts) && Reads(fs, cfg, lines, mid, hi, qs, us)
    ensures Reads(fs, cfg, lines, lo, hi, ps + qs, ts + us)
  {
    var all, ws := ps + qs, ts + us;
    InOrderConcat(mid, ps, qs);
    forall pos | Within(pos, lo, hi) && At(fs, cfg, lines, pos).Some? ensures pos in all {
      assert Within(pos, lo, mid) || Within(pos, mid, hi);
    }
    forall k | 0 <= k < |all| ensures Within(all[k], lo, hi) && At(fs, cfg, lines, all[k]) == Some(ws[k]) {
      if k < |ps| {
        assert all[k] == ps[k] && ws[k] == ts[k];
      } else {
        assert all[k] == qs[k - |ps|] && ws[k] == us[k - |ps|];
      }
    }
  }

  function Under(i: nat, ps: seq<Position>): (r: seq<Position>)
    ensures |r| == |ps|
    ensures forall k :: 0 <= k < |ps| ==> r[k] == [i] + ps[k]
  {
    seq(|ps|, k requires 0 <= k < |ps| => [i] + ps[k])
  }

  lemma PlainIsWithin(fs: FileSystem, cfg: Config, lines: seq<Text>, pos: Position)
    requires At(fs, cfg, lines, pos).Some?
    ensures Within(pos, 0, |lines|)
  {
  }

  lemma ReadsInclude(fs: FileSystem, cfg: Config, lines: seq<Text>, i: nat, text: Text,
                     ps: seq<Position>, ts: seq<Text>)
    requires i < |lines| && Classify(cfg, lines[i]).Include?
    requires Resolve(fs, cfg, Classify(cfg, lines[i]).path) == Content(text)
    requires Reads(fs, cfg, Split(text), 0, |Split(text)|, ps, ts)
    ensures Reads(fs, cfg, lines, i, i + 1, Under(i, ps), ts)
  {
    var us := Under(i, ps);
    forall k | 0 <= k < |us|
      ensures Within(us[k], i, i + 1) && At(fs, cfg, lines, us[k]) == Some(ts[k]) && us[k][1..] == ps[k]
    {
    }
    forall j, k | 0 <= j < k < |us| ensures Before(us[j], us[k]) {
      assert Before(ps[j], ps[k]);
    }
    forall pos | Within(pos, i, i + 1) && At(fs, cfg, lines, pos).Some? ensures pos in us {
      assert pos == [i] + pos[1..];
      assert At(fs, cfg, lines, pos) == At(fs, cfg, Split(text), pos[1..]);
      PlainIsWithin(fs, cfg, Split(text), pos[1..]);
      var k :| 0 <= k < |ps| && ps[k] == pos[1..];
      assert us[k] == pos;
    }
  }

  lemma ReadsLine(fs: FileSystem, cfg: Config, lines: seq<Text>, i: nat)
    requires i < |lines|
    requires var kind := Classify(cfg, lines[i]); kind.Include? ==> !Resolve(fs, cfg, kind.path).Content?
    ensures if Classify(cfg, lines[i]).Plain? then Reads(fs, cfg, lines, i, i + 1, [[i]], [lines[i]])
            else Reads(fs, cfg, lines, i, i + 1, [], [])
  {
    forall pos | Within(pos, i, i + 1) && At(fs, cfg, lines, pos).Some? ensures pos == [i] {}
  }

  lemma {:induction false} ReadFile(fs: FileSystem, cfg: Config, stack: SourceFileDesc, room: nat,
                                    path: Text, line: int, text: Text) returns (ps: seq<Position>)
    requires ExpandFile(fs, cfg, stack, room, path, line, text).outcome.Returned?
    ensures Reads(fs, cfg, Split(text), 0, |Split(text)|, ps, ExpandFile(fs, cfg, stack, room, path, line, text).lines)
    decreases room, 0
  {
    assert Split(text)[0..] == Split(text);
    ps := ReadLines(fs, cfg, Desc(path, stack, line), room - 1, Split(text), 0, 0, false);
  }

  lemma {:induction false} ReadLine(fs: FileSystem, cfg: Config, here: SourceFileDesc, room: nat,
                                    lines: seq<Text>, i: nat, number: nat, marked: bool) returns (ps: seq<Position>)
    requires i < |lines| && ExpandLine(fs, cfg, here, room, lines[i], number, marked).outcome.Returned?
    ensures Reads(fs, cfg, lines, i, i + 1, ps, ExpandLine(fs, cfg, here, room, lines[i], number, marked).lines)
    decreases room, 1
  {
    var kind := Classify(cfg, lines[i]);
    if kind.Include? && Resolve(fs, cfg, kind.path).Content? {
      var text := Resolve(fs, cfg, kind.path).text;
      var inner := ReadFile(fs, cfg, here, room, kind.path, number, text);
      ReadsInclude(fs, cfg, lines, i, text, inner, ExpandFile(fs, cfg, here, room, kind.path, number, text).lines);
      ps := Under(i, inner);
    } else {
      ReadsLine(fs, cfg, lines, i);
      ps := if kind.Plain? then [[i]] else [];
    }
  }

  lemma {:induction false} ReadLines(fs: FileSystem, cfg: Config, here: SourceFileDesc, room: nat,
                                     lines: seq<Text>, i: nat, done: nat, marked: bool) returns (ps: seq<Position>)
    requires i <= |lines| && ExpandLines(fs, cfg, here, room, lines[i..], done, marked).outcome.Returned?
    ensures Reads(fs, cfg, lines, i, |lines|, ps, ExpandLines(fs, cfg, here, room, lines[i..], done, marked).lines)
    decreases room, 2, |lines| - i
  {
    if i == |lines| {
      ps := [];
    } else {
      var next := Classify(cfg, lines[i]).Marker?;
      assert lines[i..][1..] == lines[i + 1..];
      var first := ReadLine(fs, cfg, here, room, lines, i, done + 1, marked);
      var rest := ReadLines(fs, cfg, here, room, lines, i + 1, done + 1, next);
      ReadsConcat(fs, cfg, lines, i, i + 1, |lines|,
                  first, ExpandLine(fs, cfg, here, room, lines[i], done + 1, marked).lines,
                  rest, ExpandLines(fs, cfg, here, room, lines[i + 1..], done + 1, next).lines);
      ps := first + rest;
    }
  }

  // ----- there is only one reading order -----

  lemma {:induction false} BeforeIsStrict(p: Position, q: Position)
    requires Before(p, q)
    ensures p != q && !Before(q, p)
    decreases |p|
  {
    if p[0] == q[0] {
      BeforeIsStrict(p[1..], q[1..]);
    }
  }

  lemma FirstIsUnique(ps: seq<Position>, qs: seq<Position>)
    requires ps != [] && qs != [] && InOrder(ps) && InOrder(qs) && forall p :: p in ps <==> p in qs
    ensures ps[0] == qs[0]
  {
    assert ps[0] in qs && qs[0] in ps;
    var j :| 0 <= j < |qs| && qs[j] == ps[0];
    var i :| 0 <= i < |ps| && ps[i] == qs[0];
    if i > 0 && j > 0 {
      BeforeIsStrict(ps[0], ps[i]);
    }
  }

  lemma TailOf(ps: seq<Position>, p: Position)
    requires ps != [] && InOrder(ps)
    ensures p in ps[1..] <==> p in ps && p != ps[0]
  {
    if p in ps[1..] {
      var k :| 0 <= k < |ps[1..]| && ps[1..][k] == p;
      BeforeIsStrict(ps[0], ps[k + 1]);
    }
  }

  lemma {:induction false} OrderIsUnique(ps: seq<Position>, qs: seq<Position>)
    requires InOrder(ps) && InOrder(qs) && forall p :: p in ps <==> p in qs
    ensures ps == qs
    decreases |ps|
  {
    assert qs == [] || qs[0] in qs;
    if ps != [] {
      assert ps[0] in ps;
      FirstIsUnique(ps, qs);
      forall p ensures p in ps[1..] <==> p in qs[1..] {
        TailOf(ps, p);
        TailOf(qs, p);
      }
      OrderIsUnique(ps[1..], qs[1..]);
      assert ps == [ps[0]] + ps[1..] && qs == [qs[0]] + qs[1..];
    }
  }

  lemma SameReading(fs: FileSystem, cfg: Config, lines: seq<Text>,
                    ps: seq<Position>, ts: seq<Text>, qs: seq<Position>, us: seq<Text>)
    requires Reads(fs, cfg, lines, 0, |lines|, ps, ts) && Reads(fs, cfg, lines, 0, |lines|, qs, us)
    ensures ts == us
  {
    forall p ensures p in ps <==> p in qs {
      if p in ps { var k :| 0 <= k < |ps| && ps[k] == p; }
      if p in qs { var k :| 0 <= k < |qs| && qs[k] == p; }
    }
    OrderIsUnique(ps, qs);
    forall k | 0 <= k < |ts| ensures ts[k] == us[k] {
      assert At(fs, cfg, lines, ps[k]) == Some(ts[k]);
    }
  }

  /** A run that ends normally emits exactly the plain lines that can be reached,
      in reading order; no other list of lines fits that description. */
  lemma EmitsReadingOrder(fs: FileSystem, cfg: Config, stack: SourceFileDesc, room: nat,
                          path: Text, line: int, text: Text)
    requires ExpandFile(fs, cfg, stack, room, path, line, text).outcome.Returned?
    ensures var e := ExpandFile(fs, cfg, stack, room, path, line, text);
            && (exists ps :: Reads(fs, cfg, Split(text), 0, |Split(text)|, ps, e.lines))
            && (forall ps, ts :: Reads(fs, cfg, Split(text), 0, |Split(text)|, ps, ts) ==> ts == e.lines)
  {
    var lines, es := Split(text), ExpandFile(fs, cfg, stack, room, path, line, text).lines;
    var qs := ReadFile(fs, cfg, stack, room, path, line, text);
    forall ps, ts | Reads(fs, cfg, lines, 0, |lines|, ps, ts) ensures ts == es {
      SameReading(fs, cfg, lines, ps, ts, qs, es);
    }
  }
}
