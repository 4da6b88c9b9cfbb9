/** The linked include-stack record, and the trace printed from it. */
module SourceFiles {
  import opened Bytes
  import opened Numbers

  /** `Null` is the null pointer; `includedLine` is a line of `includedFrom`. */
  datatype SourceFileDesc = Null | Desc(path: Text, includedFrom: SourceFileDesc, includedLine: int) {
    function Depth(): nat {
      if Null? then 0 else 1 + includedFrom.Depth()
    }
  }

  datatype Place = Place(path: Text, line: int)

  /** Where each file on the stack currently is, innermost file first. */
  function Places(head: SourceFileDesc, line: int): (ps: seq<Place>)
    ensures |ps| == head.Depth()
  {
    if head.Null? then [] else [Place(head.path, line)] + Places(head.includedFrom, head.includedLine)
  }

  /** The frame `k` below the top. */
  function Frame(head: SourceFileDesc, k: nat): (f: SourceFileDesc)
    requires k < head.Depth()
    ensures f.Desc?
    decreases k
  {
    if k == 0 then head else Frame(head.includedFrom, k - 1)
  }

  /** The file on top is at `line`, every other one at the line it includes the
      file above it from. */
  lemma {:induction false} PlaceAt(head: SourceFileDesc, line: int, k: nat)
    requires k < head.Depth()
    ensures Places(head, line)[k] ==
            Place(Frame(head, k).path, if k == 0 then line else Frame(head, k - 1).includedLine)
    decreases k
  {
    if k > 0 {
      PlaceAt(head.includedFrom, head.includedLine, k - 1);
    }
  }

  predicate CleanPaths(head: SourceFileDesc) {
    head.Desc? ==> NL !in head.path && CleanPaths(head.includedFrom)
  }

  const AT: Text := "    "
  const FROM: Text := "    from "

  function PrintPlace(prefix: Text, p: Place): Text {
    prefix + p.path + ":" + PrintInt(p.line)
  }

  function TraceLines(prefix: Text, ps: seq<Place>): (ls: seq<Text>)
    ensures |ls| == |ps|
    decreases |ps|
  {
    if ps == [] then [] else [PrintPlace(prefix, ps[0])] + TraceLines(FROM, ps[1..])
  }

  /** One line per file on the stack, innermost first. */
  function TraceText(head: SourceFileDesc, line: int): Text {
    Join(TraceLines(AT, Places(head, line)))
  }

  // ----- reading a trace back -----

  const ON_TOP: Text := "    "
  const BELOW: Text := "    from "

  function ParsePlace(prefix: Text, l: Text): Option<Place> {
    if !(prefix <= l) then None
    else
      var body := l[|prefix|..];
      match FindLast(body, ':')
      case None => None
      case Some(k) =>
        match ParseInt(body[k + 1..])
        case None => None
        case Some(n) => Some(Place(body[..k], n))
  }

  function ParseTraceLines(prefix: Text, ls: seq<Text>): Option<seq<Place>>
    decreases |ls|
  {
    if ls == [] then Some([])
    else
      var first := ParsePlace(prefix, ls[0]);
      var rest := ParseTraceLines(BELOW, ls[1..]);
      if first.None? || rest.None? then None else Some([first.value] + rest.value)
  }

  function ParseTrace(t: Text): Option<seq<Place>> {
    if t == [] then Some([]) else ParseTraceLines(ON_TOP, Split(t))
  }

  lemma PlaceParts(path: Text, number: Text)
    requires ':' !in number
    ensures var body := path + ":" + number;
            FindLast(body, ':') == Some(|path|) && body[|path| + 1..] == number && body[..|path|] == path
  {
    var body := path + ":" + number;
    assert body[|path|] == ':' && body[|path| + 1..] == number;
    FindLastIs(body, ':', |path|);
  }

  lemma ParsePrintPlace(prefix: Text, p: Place)
    ensures ParsePlace(prefix, PrintPlace(prefix, p)) == Some(p)
  {
    var number := PrintInt(p.line);
    var body := p.path + ":" + number;
    Assoc4(prefix, p.path, ":", number);
    assert (prefix + body)[|prefix|..] == body;
    ParsePrintInt(p.line);
    PlaceParts(p.path, number);
  }

  lemma PrintedPlaceIsClean(prefix: Text, p: Place)
    requires NL !in prefix && NL !in p.path
    ensures NL !in PrintPlace(prefix, p)
  {
    ParsePrintInt(p.line);
  }

  lemma {:induction false} ParsePrintLines(prefix: Text, head: SourceFileDesc, line: int)
    requires CleanPaths(head) && NL !in prefix
    ensures var ls := TraceLines(prefix, Places(head, line));
            && (forall l :: l in ls ==> NL !in l)
            && ParseTraceLines(prefix, ls) == Some(Places(head, line))
    decreases head
  {
    if head.Desc? {
      var ps := Places(head, line);
      assert ps[1..] == Places(head.includedFrom, head.includedLine);
      ParsePrintLines(FROM, head.includedFrom, head.includedLine);
      ParsePrintPlace(prefix, ps[0]);
      PrintedPlaceIsClean(prefix, ps[0]);
      assert TraceLines(prefix, ps)[1..] == TraceLines(FROM, ps[1..]) && BELOW == FROM;
    }
  }

  lemma {:induction false} ParsedPathsAreClean(prefix: Text, ls: seq<Text>, head: SourceFileDesc, line: int)
    requires forall l :: l in ls ==> NL !in l
    requires ParseTraceLines(prefix, ls) == Some(Places(head, line))
    ensures CleanPaths(head)
    decreases head
  {
    if head.Desc? {
      var ps := Places(head, line);
      assert ls != [] && ls[0] in ls && ParsePlace(prefix, ls[0]) == Some(ps[0]);
      assert ps[1..] == Places(head.includedFrom, head.includedLine);
      ParsedPathsAreClean(BELOW, ls[1..], head.includedFrom, head.includedLine);
    }
  }

  /** A trace reads back as every path and line number it was printed from,
      whatever else the paths contain, exactly when no path has a newline; it
      then has one line per file on the stack. */
  lemma TraceRoundTrip(head: SourceFileDesc, line: int)
    ensures ParseTrace(TraceText(head, line)) == Some(Places(head, line)) <==> CleanPaths(head)
    ensures CleanPaths(head) && head.Desc? ==> |Split(TraceText(head, line))| == head.Depth()
  {
    var t := TraceText(head, line);
    if CleanPaths(head) && head.Desc? {
      var ls := TraceLines(AT, Places(head, line));
      ParsePrintLines(AT, head, line);
      SplitJoin(ls);
      assert ls[0][..4] == AT == ON_TOP;
      assert |Join(ls)| >= |ls[0]|;
    }
    if ParseTrace(t) == Some(Places(head, line)) && head.Desc? {
      SplitIsClean(t);
      ParsedPathsAreClean(ON_TOP, Split(t), head, line);
    }
  }
}
