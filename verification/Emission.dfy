/** The inliner's separator rule: a newline goes before a line only when
    something has been written already. */
module Emission {
  import opened Bytes

  function Emit(out: Text, line: Text): Text {
    if |out| > 0 then out + [NL] + line else line
  }

  function EmitAll(out: Text, lines: seq<Text>): Text
    decreases |lines|
  {
    if lines == [] then out else EmitAll(Emit(out, lines[0]), lines[1..])
  }

  /** Emitting two runs of lines in turn is emitting their concatenation. */
  lemma {:induction false} EmitAllAppend(out: Text, a: seq<Text>, b: seq<Text>)
    ensures EmitAll(out, a + b) == EmitAll(EmitAll(out, a), b)
    decreases |a|
  {
    if a == [] {
      assert a + b == b;
    } else {
      assert (a + b)[1..] == a[1..] + b;
      EmitAllAppend(Emit(out, a[0]), a[1..], b);
    }
  }

  /** `lines` from the first one that is not empty. */
  function DropEmpty(lines: seq<Text>): (r: seq<Text>)
    ensures |r| <= |lines| && r == lines[|lines| - |r|..]
    ensures r != [] ==> r[0] != []
    ensures forall i :: 0 <= i < |lines| - |r| ==> lines[i] == []
    decreases |lines|
  {
    if lines != [] && lines[0] == [] then DropEmpty(lines[1..]) else lines
  }

  /** What a run of lines adds behind text that is not empty. */
  function Behind(lines: seq<Text>): Text {
    if lines == [] then [] else [NL] + lines[0] + Behind(lines[1..])
  }

  lemma {:induction false} EmitAllBehind(out: Text, lines: seq<Text>)
    requires out != []
    ensures EmitAll(out, lines) == out + Behind(lines)
    decreases |lines|
  {
    if lines != [] {
      EmitAllBehind(Emit(out, lines[0]), lines[1..]);
    }
  }

  lemma {:induction false} BehindIsJoin(out: Text, lines: seq<Text>)
    ensures out + Behind(lines) == Join([out] + lines)
    decreases |lines|
  {
    if lines != [] {
      BehindIsJoin(lines[0], lines[1..]);
      assert [lines[0]] + lines[1..] == lines == ([out] + lines)[1..];
    }
  }

  /** The rule in one piece: lines are joined by newlines, except that empty
      lines vanish as long as nothing has been written. */
  lemma {:induction false} EmitAllIsJoin(out: Text, lines: seq<Text>)
    ensures EmitAll(out, lines) == Join(DropEmpty([out] + lines))
    decreases |lines|
  {
    if out != [] {
      EmitAllBehind(out, lines);
      BehindIsJoin(out, lines);
    } else {
      assert ([out] + lines)[1..] == lines;
      if lines != [] {
        EmitAllIsJoin(lines[0], lines[1..]);
        assert [lines[0]] + lines[1..] == lines;
      }
    }
  }

  /** What was written stays, and what is added depends on it only through
      whether it was empty. */
  lemma EmitAllFrame(out: Text, lines: seq<Text>)
    ensures EmitAll(out, lines) == out + if out == [] then Join(DropEmpty(lines)) else Behind(lines)
  {
    if out == [] {
      EmitAllIsJoin(out, lines);
      assert ([out] + lines)[1..] == lines;
    } else {
      EmitAllBehind(out, lines);
    }
  }

  /** `t` without its leading newlines. */
  function DropNewlines(t: Text): (r: Text)
    ensures |r| <= |t| && r == t[|t| - |r|..] && (r != [] ==> r[0] != NL)
    ensures forall i :: 0 <= i < |t| - |r| ==> t[i] == NL
  {
    if t != [] && t[0] == NL then DropNewlines(t[1..]) else t
  }

  /** Emitting the lines of a text gives the text less its leading newlines. */
  lemma {:induction false} EmitSplit(t: Text)
    ensures EmitAll([], Split(t)) == DropNewlines(t)
  {
    var ls := Split(t);
    JoinSplit(t);
    if t != [] && t[0] == NL {
      FindIs(t, NL, 0, 0);
      assert ls == [[]] + Split(t[1..]);
      EmitSplit(t[1..]);
      assert ls[1..] == Split(t[1..]);
    } else {
      EmitAllFrame([], ls);
      if ls[0] == [] {
        assert Find(t, NL, 0).None?;
      }
    }
  }
}
