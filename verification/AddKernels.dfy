/** The tool: source files in, one C text out. */
module AddKernels {
  import opened Bytes
  import opened Streams
  import opened SourceFiles
  import opened Directives
  import opened Expansions
  import opened Emission
  import opened Exceptions
  import opened Inliner
  import opened HexText
  import opened HexPrinter

  // ----- the parts of a path -----

  datatype PathParts = PathParts(root: Text, name: Text, extension: Text)

  /** None when `substr` throws `out_of_range`: the extension is cut off first,
      and the last slash may then lie behind what is left. */
  function SplitPath(path: Text): Option<PathParts> {
    var dot, slash := FindLast(path, '.'), FindLast(path, '/');
    var extension := if dot.Some? then path[dot.value + 1..] else [];
    var fileName := if dot.Some? then path[..dot.value] else path;
    if slash.None? then Some(PathParts([], fileName, extension))
    else if slash.value + 1 > |fileName| then None
    else Some(PathParts(fileName[..slash.value + 1], fileName[slash.value + 1..], extension))
  }

  function JoinPath(p: PathParts, dotted: bool): Text {
    p.root + p.name + if dotted then ['.'] + p.extension else []
  }

  lemma JoinParts(path: Text)
    requires SplitPath(path).Some?
    ensures JoinPath(SplitPath(path).value, '.' in path) == path
  {
  }

  lemma CleanParts(path: Text)
    requires SplitPath(path).Some?
    ensures var p := SplitPath(path).value;
            && (p.root == [] || p.root[|p.root| - 1] == '/')
            && '/' !in p.name && '/' !in p.extension && '.' !in p.extension
  {
  }

  /** A path has parts exactly when its last dot is not inside a directory name;
      put together again they are the path, and each is what it is called. */
  lemma {:induction false} SplitPathIff(path: Text)
    ensures var dot, slash := FindLast(path, '.'), FindLast(path, '/');
            SplitPath(path).None? <==> dot.Some? && slash.Some? && dot.value < slash.value
    ensures SplitPath(path).Some? ==>
              var p := SplitPath(path).value;
              && JoinPath(p, '.' in path) == path
              && (p.root == [] || p.root[|p.root| - 1] == '/')
              && '/' !in p.name && '/' !in p.extension && '.' !in p.extension
              && ('.' !in path ==> p.extension == [])
  {
    if SplitPath(path).Some? {
      JoinParts(path);
      CleanParts(path);
    }
  }

  const DOTTED_DIRECTORY: Text := "a.b/c"

  /** Such a path: a file without extension below a directory with a dot. */
  lemma DottedDirectoryThrows()
    ensures SplitPath(DOTTED_DIRECTORY) == None
  {
    FindLastIs(DOTTED_DIRECTORY, '.', 1);
    FindLastIs(DOTTED_DIRECTORY, '/', 3);
  }

  // ----- one source file -----

  const ASM_INCLUDE: Text := ".include"
  const C_INCLUDE: Text := "#include"
  const NO_INCLUDE: Text := "<#not_include>"

  /** How the inliner is run on a file, by extension; None: it is not. */
  function InlinerConfig(extension: Text, root: Text, recurse: bool): Option<Config> {
    if extension == "s" then Some(Config(root, ASM_INCLUDE, false, recurse))
    else if extension == "cl" || extension == "hpp" then Some(Config(root, C_INCLUDE, true, recurse))
    else if extension == "cpp" then Some(Config(root, NO_INCLUDE, true, false))
    else None
  }

  datatype Exit = Done | BadPath | SourceNotFound | InlineFailed(exception: InlineException)

  datatype Payload = Ready(variable: Text, data: Text) | Failed(exit: Exit)

  /** The variable and the bytes to be printed for a source file. */
  function PayloadOf(fs: FileSystem, path: Text, recurse: bool): (p: Payload)
    ensures p.Failed? ==> p.exit != Done
  {
    match SplitPath(path)
    case None => Failed(BadPath)
    case Some(parts) =>
      match fs(path)
      case Missing => Failed(SourceNotFound)
      case Unopenable => Failed(SourceNotFound)
      case Content(text) =>
        match InlinerConfig(parts.extension, parts.root, recurse)
        case None => Ready(Upper(parts.name), text)
        case Some(cfg) =>
          var e := ExpandFile(fs, cfg, Null, 256, path, 0, text);
          match StatusOf(e.outcome)
          case Normal => Ready(Upper(parts.name), EmitAll([], e.lines))
          case Thrown(exception) => Failed(InlineFailed(exception))
  }

  /** The sizes under which the hex printer terminates on a source file. */
  predicate SizesFit(fs: FileSystem, path: Text, recurse: bool, bufferSize: nat, lineSize: nat) {
    var p := PayloadOf(fs, path, recurse);
    p.Ready? && p.data != [] ==> bufferSize > 0 && lineSize > 0
  }

  /** What is printed for a source file. */
  function Printed(p: Payload, bufferSize: nat, lineSize: nat): Text
    requires p.Ready? && p.data != [] ==> bufferSize > 0 && lineSize > 0
  {
    if p.Failed? then [] else Definition(p.data, p.variable, true, bufferSize, lineSize)
  }

  function ExitOf(p: Payload): Exit {
    if p.Failed? then p.exit else Done
  }

  /** Appends one definition, or stops the program and appends nothing. */
  method Process(fs: FileSystem, sourcePath: Text, target: OutputStream, bufferSize: nat, lineSize: nat, recurse: bool)
    returns (exit: Exit)
    requires target.width == 0 && SizesFit(fs, sourcePath, recurse, bufferSize, lineSize)
    modifies target
    ensures target.width == 0
    ensures exit == ExitOf(PayloadOf(fs, sourcePath, recurse))
    ensures target.text == old(target.text) + Printed(PayloadOf(fs, sourcePath, recurse), bufferSize, lineSize)
  {
    var split := SplitPath(sourcePath);
    if split.None? {
      return BadPath;
    }
    var PathParts(root, fileName, extension) := split.value;
    var variable := fileName;
    var entry := fs(sourcePath);
    if !entry.Content? {
      return SourceNotFound;
    }
    var source := new InputStream(entry.text);

    if extension == "s" || extension == "cl" || extension == "cpp" || extension == "hpp" {
      var inlinerTemp := new OutputStream();
      var status := Inline(fs, source, inlinerTemp, root, sourcePath, extension, recurse);
      if status.Thrown? {
        return InlineFailed(status.exception);
      }
      source := new InputStream(inlinerTemp.text);
    }

    variable := Upper(variable);
    Bin2Hex(source, target, variable, true, bufferSize, lineSize);
    return Done;
  }

  /** The choice of directive, each with an inliner of its own. */
  method Inline(fs: FileSystem, source: InputStream, inlinerTemp: OutputStream, root: Text, sourcePath: Text,
                extension: Text, recurse: bool) returns (status: Status)
    requires source.Valid() && source.Good() && source.pos == 0 && inlinerTemp.text == [] && inlinerTemp.width == 0
    requires InlinerConfig(extension, root, recurse).Some?
    modifies source, inlinerTemp
    ensures var cfg := InlinerConfig(extension, root, recurse).value;
            var e := ExpandFile(fs, cfg, Null, 256, sourcePath, 0, source.data);
            status == StatusOf(e.outcome) && inlinerTemp.text == EmitAll([], e.lines)
    ensures Answers(fs, InlinerConfig(extension, root, recurse).value, Null, 256, sourcePath, 0, source.data, status)
  {
    var inliner := new IncludeInliner();
    assert source.data[0..] == source.data;
    if extension == "s" {
      status := inliner.Process(fs, source, inlinerTemp, root, sourcePath, ASM_INCLUDE, false, recurse);
    } else if extension == "cl" || extension == "hpp" {
      status := inliner.Process(fs, source, inlinerTemp, root, sourcePath, C_INCLUDE, true, recurse);
    } else {
      status := inliner.Process(fs, source, inlinerTemp, root, sourcePath, NO_INCLUDE, true, false);
    }
  }

  // ----- many source files -----

  /** What a run over all sources prints, and how it ends. */
  datatype Unit = Unit(text: Text, exit: Exit)

  ghost predicate AllSizesFit(fs: FileSystem, paths: seq<Text>, recurse: bool, bufferSize: nat, lineSize: nat) {
    forall i :: 0 <= i < |paths| ==> SizesFit(fs, paths[i], recurse, bufferSize, lineSize)
  }

  ghost function UnitOf(fs: FileSystem, paths: seq<Text>, recurse: bool, bufferSize: nat, lineSize: nat): Unit
    requires AllSizesFit(fs, paths, recurse, bufferSize, lineSize)
    decreases |paths|
  {
    if paths == [] then Unit([], Done)
    else
      assert SizesFit(fs, paths[0], recurse, bufferSize, lineSize);
      var p := PayloadOf(fs, paths[0], recurse);
      if p.Failed? then Unit([], p.exit)
      else
        var rest := UnitOf(fs, paths[1..], recurse, bufferSize, lineSize);
        Unit(Printed(p, bufferSize, lineSize) + rest.text, rest.exit)
  }

  lemma UnitStep(fs: FileSystem, paths: seq<Text>, i: nat, recurse: bool, bufferSize: nat, lineSize: nat, out: Text)
    requires AllSizesFit(fs, paths, recurse, bufferSize, lineSize) && i < |paths|
    ensures SizesFit(fs, paths[i], recurse, bufferSize, lineSize)
    ensures var p := PayloadOf(fs, paths[i], recurse);
            var here := UnitOf(fs, paths[i..], recurse, bufferSize, lineSize);
            var next := UnitOf(fs, paths[i + 1..], recurse, bufferSize, lineSize);
            if p.Failed? then here == Unit([], p.exit)
            else here.exit == next.exit && out + here.text == out + Printed(p, bufferSize, lineSize) + next.text
  {
  }

  /** The loop over the sources, up to the first that fails. */
  method ProcessAll(fs: FileSystem, paths: seq<Text>, target: OutputStream,
                    bufferSize: nat, lineSize: nat, recurse: bool)
    returns (exit: Exit)
    requires target.width == 0 && AllSizesFit(fs, paths, recurse, bufferSize, lineSize)
    modifies target
    ensures target.width == 0
    ensures var unit := UnitOf(fs, paths, recurse, bufferSize, lineSize);
            exit == unit.exit && target.text == old(target.text) + unit.text
  {
    ghost var unit := UnitOf(fs, paths, recurse, bufferSize, lineSize);
    ghost var rest := unit;
    assert paths[0..] == paths;
    var i := 0;
    while i < |paths|
      invariant i <= |paths| && target.width == 0
      invariant rest == UnitOf(fs, paths[i..], recurse, bufferSize, lineSize)
      invariant old(target.text) + unit.text == target.text + rest.text && unit.exit == rest.exit
    {
      UnitStep(fs, paths, i, recurse, bufferSize, lineSize, target.text);
      exit := Process(fs, paths[i], target, bufferSize, lineSize, recurse);
      if exit != Done {
        return;
      }
      rest := UnitOf(fs, paths[i + 1..], recurse, bufferSize, lineSize);
      i := i + 1;
    }
    return Done;
  }

  const IFNDEF: Text := "#ifndef "
  const DEFINE: Text := "#define "
  const INCLUDE_STDDEF: Text := "#include <stddef.h>"
  const ENDIF: Text := "#endif"

  function GuardOpen(guard: Text): Text {
    if guard == [] then []
    else IFNDEF + guard + [NL] + (DEFINE + guard + [NL] + (INCLUDE_STDDEF + [NL]))
  }

  function GuardClose(guard: Text): Text {
    if guard == [] then [] else ENDIF + [NL]
  }

  method OpenGuard(target: OutputStream, guard: Text)
    requires target.width == 0
    modifies target`text, target`width
    ensures target.width == 0 && target.text == old(target.text) + GuardOpen(guard)
  {
    if |guard| > 0 {
      ghost var t := target.text;
      target.Put(IFNDEF);
      target.Put(guard);
      target.Endl();
      Assoc4(t, IFNDEF, guard, [NL]);
      t := target.text;
      target.Put(DEFINE);
      target.Put(guard);
      target.Endl();
      Assoc4(t, DEFINE, guard, [NL]);
      t := target.text;
      target.Put(INCLUDE_STDDEF);
      target.Endl();
      Assoc(t, INCLUDE_STDDEF, [NL]);
      Assoc(old(target.text) + (IFNDEF + guard + [NL]), DEFINE + guard + [NL], INCLUDE_STDDEF + [NL]);
      Assoc(old(target.text), IFNDEF + guard + [NL], DEFINE + guard + [NL] + (INCLUDE_STDDEF + [NL]));
    }
  }

  /** The `-source` branch of `main`. Each definition comes out as on a fresh
      stream, whatever formatting state the target starts with or the files
      before have left behind. */
  method Generate(fs: FileSystem, paths: seq<Text>, target: OutputStream, guard: Text,
                  bufferSize: nat, lineSize: nat, recurse: bool) returns (exit: Exit)
    requires target.width == 0 && AllSizesFit(fs, paths, recurse, bufferSize, lineSize)
    modifies target
    ensures target.width == 0
    ensures var unit := UnitOf(fs, paths, recurse, bufferSize, lineSize);
            && exit == unit.exit
            && target.text == old(target.text) + GuardOpen(guard) + unit.text +
                              if unit.exit.Done? then GuardClose(guard) else []
  {
    OpenGuard(target, guard);
    exit := ProcessAll(fs, paths, target, bufferSize, lineSize, recurse);
    if exit == Done && |guard| > 0 {
      ghost var all := target.text;
      target.Put(ENDIF);
      target.Endl();
      Assoc(all, ENDIF, [NL]);
    }
  }
}
