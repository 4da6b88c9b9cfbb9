/** The tool from end to end: what a reader of the generated C text finds. */
module Pipeline {
  import opened Bytes
  import opened Expansions
  import opened HexText
  import opened CReader
  import opened CText
  import opened AddKernels
  import opened Sources

  // ----- reading a generated file -----

  /** A definition reads back as its array exactly when its name is an
      identifier. */
  lemma NamedIff(data: Text, variable: Text, nullTerminate: bool, bufferSize: nat, lineSize: nat, rest: Text)
    requires data != [] ==> bufferSize > 0 && lineSize > 0
    ensures (ParseArray(Definition(data, variable, nullTerminate, bufferSize, lineSize) + rest) ==
             Some((Array(variable, |data|, data + Zero(nullTerminate)), rest))) <==> IsIdentifier(variable)
  {
    if IsIdentifier(variable) {
      ParseDefinition(data, variable, nullTerminate, bufferSize, lineSize, rest);
    }
  }

  /** The array for a source: the name and the bytes that the source stands for,
      their number as its size, and one 0x00 behind them. */
  ghost predicate Represents(fs: FileSystem, path: Text, recurse: bool, a: Array) {
    && |a.elements| == a.size + 1 && a.elements[a.size] == 0 as char
    && StandsFor(fs, path, recurse, a.name, a.elements[..a.size])
  }

  ghost predicate AllRepresent(fs: FileSystem, paths: seq<Text>, recurse: bool, arrays: seq<Array>) {
    |arrays| == |paths| && forall i :: 0 <= i < |paths| ==> Represents(fs, paths[i], recurse, arrays[i])
  }

  function ArrayOf(p: Payload): Array
    requires p.Ready?
  {
    Array(p.variable, |p.data|, p.data + Zero(true))
  }

  lemma TakenApart(a: Array)
    requires |a.elements| == a.size + 1 && a.elements[a.size] == 0 as char
    ensures a == Array(a.name, a.size, a.elements[..a.size] + Zero(true))
  {
  }

  lemma PutTogether(name: Text, data: Text)
    ensures var a := Array(name, |data|, data + Zero(true));
            |a.elements| == a.size + 1 && a.elements[a.size] == 0 as char && a.elements[..a.size] == data
  {
  }

  lemma {:induction false} RepresentsIff(fs: FileSystem, path: Text, recurse: bool, a: Array)
    ensures var p := PayloadOf(fs, path, recurse);
            Represents(fs, path, recurse, a) <==> p.Ready? && a == ArrayOf(p)
  {
    var p := PayloadOf(fs, path, recurse);
    if Represents(fs, path, recurse, a) {
      PrintedIff(fs, path, recurse, a.name, a.elements[..a.size]);
      TakenApart(a);
    }
    if p.Ready? {
      PrintedIff(fs, path, recurse, p.variable, p.data);
      PutTogether(p.variable, p.data);
    }
  }

  /** A source has one array, or one error that stops the program. */
  lemma ArrayOrExit(fs: FileSystem, path: Text, recurse: bool)
    ensures (exists a :: Represents(fs, path, recurse, a)) <==> !exists exit :: FailsWith(fs, path, recurse, exit)
    ensures forall a, b :: Represents(fs, path, recurse, a) && Represents(fs, path, recurse, b) ==> a == b
    ensures forall x, y :: FailsWith(fs, path, recurse, x) && FailsWith(fs, path, recurse, y) ==> x == y
  {
    var p := PayloadOf(fs, path, recurse);
    forall a ensures Represents(fs, path, recurse, a) <==> p.Ready? && a == ArrayOf(p) {
      RepresentsIff(fs, path, recurse, a);
    }
    forall x ensures FailsWith(fs, path, recurse, x) <==> p == Failed(x) {
      FailsIff(fs, path, recurse, x);
    }
    if p.Ready? {
      assert Represents(fs, path, recurse, ArrayOf(p));
    } else {
      assert FailsWith(fs, path, recurse, p.exit);
    }
  }

  /** The text printed for one source, line by line, laid out by the buffer and
      line sizes that are asked for. */
  lemma PrintedLines(fs: FileSystem, path: Text, recurse: bool, a: Array, bufferSize: nat, lineSize: nat)
    requires Represents(fs, path, recurse, a) && a.name != [] && NL !in a.name
    requires a.size > 0 ==> bufferSize > 0 && lineSize > 0
    ensures SizesFit(fs, path, recurse, bufferSize, lineSize)
    ensures Split(Printed(PayloadOf(fs, path, recurse), bufferSize, lineSize)) ==
            [SizeLine(a.name, a.size), ArrayLine(a.name)]
            + HexLines(Layout(a.elements[..a.size], bufferSize, lineSize)) + [ZERO_END] + [[]]
  {
    RepresentsIff(fs, path, recurse, a);
    var p := PayloadOf(fs, path, recurse);
    PutTogether(p.variable, p.data);
    DefinitionLines(p.data, p.variable, true, bufferSize, lineSize);
  }

  function NamesOf(arrays: seq<Array>): (names: seq<Text>)
    ensures |names| == |arrays|
  {
    seq(|arrays|, i requires 0 <= i < |arrays| => arrays[i].name)
  }

  /** No array of one name takes a name of the other's. */
  ghost predicate Apart(a: Text, b: Text) {
    a != b && a != b + SIZE_SUFFIX && b != a + SIZE_SUFFIX
  }

  lemma NamesApart(a: Text, b: Text)
    ensures NamesFor(a) !! NamesFor(b) <==> Apart(a, b)
  {
    if a + SIZE_SUFFIX == b + SIZE_SUFFIX {
      assert a == (a + SIZE_SUFFIX)[..|a|] == (b + SIZE_SUFFIX)[..|b|] == b;
    }
    assert a in NamesFor(a) && b in NamesFor(b);
  }

  /** A program may declare an array, and its size, under each of these names:
      they are identifiers not yet `taken`, no two are equal, and none is the
      size of another. */
  ghost predicate Declarable(names: seq<Text>, taken: set<Text>) {
    && (forall i :: 0 <= i < |names| ==> IsIdentifier(names[i]) && NamesFor(names[i]) !! taken)
    && (forall i, j :: 0 <= i < j < |names| ==> Apart(names[i], names[j]))
  }

  lemma DeclarableTail(names: seq<Text>, taken: set<Text>)
    requires names != [] && Declarable(names, taken)
    ensures Declarable(names[1..], taken + NamesFor(names[0]))
  {
    var rest := names[1..];
    forall i | 0 <= i < |rest|
      ensures IsIdentifier(rest[i]) && NamesFor(rest[i]) !! taken + NamesFor(names[0])
    {
      NamesApart(names[0], names[i + 1]);
    }
  }

  lemma DeclarableCons(name: Text, rest: seq<Text>, taken: set<Text>)
    requires IsIdentifier(name) && NamesFor(name) !! taken && Declarable(rest, taken + NamesFor(name))
    ensures Declarable([name] + rest, taken)
  {
    var names := [name] + rest;
    forall i, j | 0 <= i < j < |names| ensures Apart(names[i], names[j]) {
      assert names[j] == rest[j - 1];
      if i == 0 { NamesApart(name, rest[j - 1]); }
    }
  }

  lemma DeclarableIff(names: seq<Text>, taken: set<Text>)
    requires names != []
    ensures Declarable(names, taken) <==>
            IsIdentifier(names[0]) && NamesFor(names[0]) !! taken && Declarable(names[1..], taken + NamesFor(names[0]))
  {
    if Declarable(names, taken) {
      DeclarableTail(names, taken);
    }
    if IsIdentifier(names[0]) && NamesFor(names[0]) !! taken && Declarable(names[1..], taken + NamesFor(names[0])) {
      DeclarableCons(names[0], names[1..], taken);
      assert [names[0]] + names[1..] == names;
    }
  }

  lemma DefinitionStart(p: Payload, bufferSize: nat, lineSize: nat)
    requires p.Ready? && (p.data != [] ==> bufferSize > 0 && lineSize > 0)
    ensures var t := Printed(p, bufferSize, lineSize); t != [] && t[0] != '#'
  {
  }

  lemma ParseArraysStep(s: Text, taken: set<Text>, end: Text, found: Array, rest: Text, more: seq<Array>)
    requires |s| > |end| && ParseArray(s) == Some((found, rest))
    ensures ParseArrays(s, taken, end) == Some([found] + more) <==>
            NamesFor(found.name) !! taken && ParseArrays(rest, taken + NamesFor(found.name), end) == Some(more)
  {
    var r := ParseArrays(rest, taken + NamesFor(found.name), end);
    if r.Some? && [found] + r.value == [found] + more {
      assert r.value == ([found] + r.value)[1..] == ([found] + more)[1..] == more;
    }
  }

  lemma ParseArraysFirst(s: Text, taken: set<Text>, end: Text, first: Array, more: seq<Array>)
    requires ParseArrays(s, taken, end) == Some([first] + more)
    ensures IsIdentifier(first.name)
  {
    assert ParseArray(s).value.0 == ([first] + more)[0];
  }

  /** One source in front of text that reads back. */
  lemma ArrayStepIff(p: Payload, bufferSize: nat, lineSize: nat, rest: Text, taken: set<Text>, end: Text,
                     arrays: seq<Array>)
    requires p.Ready? && (p.data != [] ==> bufferSize > 0 && lineSize > 0)
    requires |end| <= |rest|
    ensures ParseArrays(Printed(p, bufferSize, lineSize) + rest, taken, end) == Some([ArrayOf(p)] + arrays) <==>
            && IsIdentifier(p.variable) && NamesFor(p.variable) !! taken
            && ParseArrays(rest, taken + NamesFor(p.variable), end) == Some(arrays)
  {
    var s := Printed(p, bufferSize, lineSize) + rest;
    if IsIdentifier(p.variable) {
      DefinitionStart(p, bufferSize, lineSize);
      ParseDefinition(p.data, p.variable, true, bufferSize, lineSize, rest);
      ParseArraysStep(s, taken, end, ArrayOf(p), rest, arrays);
    } else if ParseArrays(s, taken, end) == Some([ArrayOf(p)] + arrays) {
      ParseArraysFirst(s, taken, end, ArrayOf(p), arrays);
    }
  }

  lemma DeclarableFirst(arrays: seq<Array>, taken: set<Text>)
    requires arrays != []
    ensures var name := arrays[0].name;
            Declarable(NamesOf(arrays), taken) <==>
            && IsIdentifier(name) && NamesFor(name) !! taken
            && Declarable(NamesOf(arrays[1..]), taken + NamesFor(name))
  {
    assert NamesOf(arrays)[1..] == NamesOf(arrays[1..]);
    DeclarableIff(NamesOf(arrays), taken);
  }

  lemma {:induction false} FirstParsesIff(p: Payload, bufferSize: nat, lineSize: nat, rest: Text, taken: set<Text>,
                                          end: Text, arrays: seq<Array>)
    requires p.Ready? && (p.data != [] ==> bufferSize > 0 && lineSize > 0)
    requires arrays != [] && arrays[0] == ArrayOf(p)
    requires var more := taken + NamesFor(p.variable);
             ParseArrays(rest + end, more, end) == Some(arrays[1..]) <==> Declarable(NamesOf(arrays[1..]), more)
    ensures ParseArrays(Printed(p, bufferSize, lineSize) + rest + end, taken, end) == Some(arrays) <==>
            Declarable(NamesOf(arrays), taken)
  {
    DeclarableFirst(arrays, taken);
    assert arrays == [ArrayOf(p)] + arrays[1..];
    Assoc(Printed(p, bufferSize, lineSize), rest, end);
    ArrayStepIff(p, bufferSize, lineSize, rest + end, taken, end, arrays[1..]);
  }

  /** The first of the sources and the others. */
  lemma UnitFirst(fs: FileSystem, paths: seq<Text>, recurse: bool, bufferSize: nat, lineSize: nat)
    requires AllSizesFit(fs, paths, recurse, bufferSize, lineSize) && paths != []
    ensures SizesFit(fs, paths[0], recurse, bufferSize, lineSize)
    ensures AllSizesFit(fs, paths[1..], recurse, bufferSize, lineSize)
    ensures var p, rest := PayloadOf(fs, paths[0], recurse), UnitOf(fs, paths[1..], recurse, bufferSize, lineSize);
            UnitOf(fs, paths, recurse, bufferSize, lineSize) ==
            if p.Failed? then Unit([], p.exit) else Unit(Printed(p, bufferSize, lineSize) + rest.text, rest.exit)
  {
    assert SizesFit(fs, paths[0], recurse, bufferSize, lineSize);
  }

  lemma AllRepresentFirst(fs: FileSystem, paths: seq<Text>, recurse: bool, arrays: seq<Array>)
    requires AllRepresent(fs, paths, recurse, arrays) && paths != []
    ensures arrays != [] && AllRepresent(fs, paths[1..], recurse, arrays[1..])
    ensures PayloadOf(fs, paths[0], recurse).Ready? && arrays[0] == ArrayOf(PayloadOf(fs, paths[0], recurse))
  {
    RepresentsIff(fs, paths[0], recurse, arrays[0]);
  }

  lemma {:induction false} UnitParsesIff(fs: FileSystem, paths: seq<Text>, recurse: bool, arrays: seq<Array>,
                                         bufferSize: nat, lineSize: nat, taken: set<Text>, end: Text)
    requires AllSizesFit(fs, paths, recurse, bufferSize, lineSize) && AllRepresent(fs, paths, recurse, arrays)
    ensures var unit := UnitOf(fs, paths, recurse, bufferSize, lineSize);
            && unit.exit == Done
            && (ParseArrays(unit.text + end, taken, end) == Some(arrays) <==> Declarable(NamesOf(arrays), taken))
    decreases |paths|
  {
    var unit := UnitOf(fs, paths, recurse, bufferSize, lineSize);
    if paths == [] {
      assert unit.text + end == end;
    } else {
      UnitFirst(fs, paths, recurse, bufferSize, lineSize);
      AllRepresentFirst(fs, paths, recurse, arrays);
      var p := PayloadOf(fs, paths[0], recurse);
      var rest := UnitOf(fs, paths[1..], recurse, bufferSize, lineSize);
      UnitParsesIff(fs, paths[1..], recurse, arrays[1..], bufferSize, lineSize, taken + NamesFor(p.variable), end);
      FirstParsesIff(p, bufferSize, lineSize, rest.text, taken, end, arrays);
    }
  }

  /** The names a guard takes. */
  function GuardNames(guard: Text): set<Text> {
    if guard == [] then {} else {guard}
  }

  lemma {:induction false} UnitStart(fs: FileSystem, paths: seq<Text>, recurse: bool, bufferSize: nat, lineSize: nat)
    requires AllSizesFit(fs, paths, recurse, bufferSize, lineSize)
    ensures var text := UnitOf(fs, paths, recurse, bufferSize, lineSize).text; text != [] ==> text[0] != '#'
  {
    if paths != [] && PayloadOf(fs, paths[0], recurse).Ready? {
      assert SizesFit(fs, paths[0], recurse, bufferSize, lineSize);
      DefinitionStart(PayloadOf(fs, paths[0], recurse), bufferSize, lineSize);
    }
  }

  lemma ParseGuardOpen(guard: Text, rest: Text)
    requires guard != [] && NL !in guard
    ensures ParseGuard(GuardOpen(guard) + rest) == Some((guard, rest))
  {
    var a, b, c := IFNDEF + guard, DEFINE + guard, INCLUDE_STDDEF;
    Assoc(a + [NL], b + [NL] + (c + [NL]), rest);
    Assoc(b + [NL], c + [NL], rest);
    NextLineIs(a, b + [NL] + (c + [NL]) + rest);
    NextLineIs(b, c + [NL] + rest);
    NextLineIs(c, rest);
  }

  lemma ParseGuarded(guard: Text, text: Text)
    requires IsIdentifier(guard)
    ensures ParseGuard(GuardOpen(guard) + text + GuardClose(guard)) == Some((guard, text + GuardClose(guard)))
  {
    assert !IsNameByte(NL);
    ParseGuardOpen(guard, text + GuardClose(guard));
    Assoc(GuardOpen(guard), text, GuardClose(guard));
  }

  lemma ParsedGuard(s: Text)
    ensures ParseFile(s).Some? ==>
              var guard := ParseFile(s).value.guard;
              if s == [] || s[0] != '#' then guard == [] else IsIdentifier(guard)
  {
  }

  lemma {:induction false} ParseFileIs(s: Text, guard: Text, rest: Text, arrays: seq<Array>)
    requires s != [] && s[0] == '#' && ParseGuard(s) == Some((guard, rest)) && IsIdentifier(guard)
    ensures ParseFile(s) == Some(CFile(guard, arrays)) <==> ParseArrays(rest, {guard}, END_UNLESS) == Some(arrays)
  {
  }

  lemma {:induction false} ParseFileWithGuard(guard: Text, text: Text, arrays: seq<Array>)
    requires IsIdentifier(guard)
    ensures ParseFile(GuardOpen(guard) + text + GuardClose(guard)) == Some(CFile(guard, arrays)) <==>
            ParseArrays(text + GuardClose(guard), {guard}, GuardClose(guard)) == Some(arrays)
  {
    ParseGuarded(guard, text);
    assert GuardOpen(guard)[0] == '#';
    assert END_UNLESS == GuardClose(guard);
    ParseFileIs(GuardOpen(guard) + text + GuardClose(guard), guard, text + GuardClose(guard), arrays);
  }

  lemma {:induction false} ParseFileIff(guard: Text, text: Text, arrays: seq<Array>)
    requires text != [] ==> text[0] != '#'
    ensures ParseFile(GuardOpen(guard) + text + GuardClose(guard)) == Some(CFile(guard, arrays)) <==>
            && (guard == [] || IsIdentifier(guard))
            && ParseArrays(text + GuardClose(guard), GuardNames(guard), GuardClose(guard)) == Some(arrays)
  {
    var s := GuardOpen(guard) + text + GuardClose(guard);
    if guard == [] {
      assert s == text == text + GuardClose(guard);
    } else if IsIdentifier(guard) {
      ParseFileWithGuard(guard, text, arrays);
    } else {
      ParsedGuard(s);
    }
  }

  /** End to end: the file generated for any list of sources that can be printed,
      read back, is the guard and the array of each source, in order, exactly
      when a program may declare their names and may define the guard. */
  lemma {:induction false} GeneratedRoundTrip(fs: FileSystem, paths: seq<Text>, recurse: bool, arrays: seq<Array>,
                                              bufferSize: nat, lineSize: nat, guard: Text)
    requires AllSizesFit(fs, paths, recurse, bufferSize, lineSize) && AllRepresent(fs, paths, recurse, arrays)
    ensures var unit := UnitOf(fs, paths, recurse, bufferSize, lineSize);
            && unit.exit == Done
            && (ParseFile(GuardOpen(guard) + unit.text + GuardClose(guard)) == Some(CFile(guard, arrays)) <==>
                (guard == [] || IsIdentifier(guard)) && Declarable(NamesOf(arrays), GuardNames(guard)))
  {
    UnitParsesIff(fs, paths, recurse, arrays, bufferSize, lineSize, GuardNames(guard), GuardClose(guard));
    UnitStart(fs, paths, recurse, bufferSize, lineSize);
    ParseFileIff(guard, UnitOf(fs, paths, recurse, bufferSize, lineSize).text, arrays);
  }

  ghost predicate AllReady(fs: FileSystem, paths: seq<Text>, recurse: bool) {
    forall i :: 0 <= i < |paths| ==> PayloadOf(fs, paths[i], recurse).Ready?
  }

  lemma AllRepresentAreReady(fs: FileSystem, paths: seq<Text>, recurse: bool, arrays: seq<Array>)
    requires AllRepresent(fs, paths, recurse, arrays)
    ensures AllReady(fs, paths, recurse)
  {
    forall i | 0 <= i < |paths| ensures PayloadOf(fs, paths[i], recurse).Ready? {
      RepresentsIff(fs, paths[i], recurse, arrays[i]);
    }
  }

  lemma SizesFitParts(fs: FileSystem, a: seq<Text>, b: seq<Text>, recurse: bool, bufferSize: nat, lineSize: nat)
    requires AllSizesFit(fs, a + b, recurse, bufferSize, lineSize)
    ensures AllSizesFit(fs, a, recurse, bufferSize, lineSize) && AllSizesFit(fs, b, recurse, bufferSize, lineSize)
  {
    forall i | 0 <= i < |a| ensures SizesFit(fs, a[i], recurse, bufferSize, lineSize) {
      assert (a + b)[i] == a[i];
    }
    forall i | 0 <= i < |b| ensures SizesFit(fs, b[i], recurse, bufferSize, lineSize) {
      assert (a + b)[|a| + i] == b[i];
    }
  }

  /** Two lists of sources, the first of which can be printed. */
  lemma {:induction false} UnitAppend(fs: FileSystem, a: seq<Text>, b: seq<Text>, recurse: bool,
                                      bufferSize: nat, lineSize: nat)
    requires AllSizesFit(fs, a + b, recurse, bufferSize, lineSize) && AllReady(fs, a, recurse)
    ensures AllSizesFit(fs, a, recurse, bufferSize, lineSize) && AllSizesFit(fs, b, recurse, bufferSize, lineSize)
    ensures var x, y := UnitOf(fs, a, recurse, bufferSize, lineSize), UnitOf(fs, b, recurse, bufferSize, lineSize);
            UnitOf(fs, a + b, recurse, bufferSize, lineSize) == Unit(x.text + y.text, y.exit)
    decreases |a|
  {
    SizesFitParts(fs, a, b, recurse, bufferSize, lineSize);
    if a == [] {
      var text := UnitOf(fs, b, recurse, bufferSize, lineSize).text;
      assert a + b == b && [] + text == text;
    } else {
      assert (a + b)[1..] == a[1..] + b;
      UnitFirst(fs, a, recurse, bufferSize, lineSize);
      UnitFirst(fs, a + b, recurse, bufferSize, lineSize);
      UnitAppend(fs, a[1..], b, recurse, bufferSize, lineSize);
      Assoc(Printed(PayloadOf(fs, a[0], recurse), bufferSize, lineSize),
            UnitOf(fs, a[1..], recurse, bufferSize, lineSize).text, UnitOf(fs, b, recurse, bufferSize, lineSize).text);
    }
  }

  lemma {:induction false} StopsHere(fs: FileSystem, paths: seq<Text>, recurse: bool, exit: Exit,
                                     bufferSize: nat, lineSize: nat)
    requires AllSizesFit(fs, paths, recurse, bufferSize, lineSize) && paths != []
    requires FailsWith(fs, paths[0], recurse, exit)
    ensures UnitOf(fs, paths, recurse, bufferSize, lineSize) == Unit([], exit)
  {
    UnitFirst(fs, paths, recurse, bufferSize, lineSize);
    FailsIff(fs, paths[0], recurse, exit);
  }

  /** A list with a source that cannot be printed gives what the sources before
      the first such one give, and stops with its error. */
  lemma {:induction false} StopsAtFailure(fs: FileSystem, before: seq<Text>, rest: seq<Text>, recurse: bool,
                                          arrays: seq<Array>, exit: Exit, bufferSize: nat, lineSize: nat)
    requires AllSizesFit(fs, before + rest, recurse, bufferSize, lineSize) && rest != []
    requires AllRepresent(fs, before, recurse, arrays) && FailsWith(fs, rest[0], recurse, exit)
    ensures AllSizesFit(fs, before, recurse, bufferSize, lineSize)
    ensures UnitOf(fs, before + rest, recurse, bufferSize, lineSize) ==
            Unit(UnitOf(fs, before, recurse, bufferSize, lineSize).text, exit)
  {
    AllRepresentAreReady(fs, before, recurse, arrays);
    UnitAppend(fs, before, rest, recurse, bufferSize, lineSize);
    StopsHere(fs, rest, recurse, exit, bufferSize, lineSize);
    var text := UnitOf(fs, before, recurse, bufferSize, lineSize).text;
    assert text + [] == text;
  }

  // ----- sources that do not go together -----

  const HIDDEN_SOURCE: Text := ".cl"

  /** The source `.cl` has no name, so its array has none either. */
  lemma HiddenSourceIsNotNameable()
    ensures SplitPath(HIDDEN_SOURCE) == Some(PathParts([], [], ['c', 'l']))
    ensures forall name :: SameButCase(SplitPath(HIDDEN_SOURCE).value.name, name) ==> !IsIdentifier(name)
  {
    FindLastIs(HIDDEN_SOURCE, '.', 0);
    assert FindLast(HIDDEN_SOURCE, '/') == None;
  }

  const FIRST_TWIN: Text := "a/x.cl"
  const SECOND_TWIN: Text := "b/x.cl"

  lemma NameOfTwin(path: Text)
    requires path == FIRST_TWIN || path == SECOND_TWIN
    ensures SplitPath(path).Some? && SplitPath(path).value.name == ['x']
  {
    FindLastIs(path, '.', 3);
    FindLastIs(path, '/', 1);
    assert path[..3][2..] == ['x'];
  }

  /** Two sources of one name in different directories: both arrays are `X`. */
  lemma TwinSourcesClash(fs: FileSystem, recurse: bool, arrays: seq<Array>)
    requires AllRepresent(fs, [FIRST_TWIN, SECOND_TWIN], recurse, arrays)
    ensures forall taken :: !Declarable(NamesOf(arrays), taken)
  {
    var paths := [FIRST_TWIN, SECOND_TWIN];
    var names := NamesOf(arrays);
    forall i | 0 <= i < 2 ensures names[i] == Upper(['x']) {
      assert Represents(fs, paths[i], recurse, arrays[i]);
      NameOfTwin(paths[i]);
      UpperIff(['x'], names[i]);
    }
    assert !Apart(names[0], names[1]);
  }
}
