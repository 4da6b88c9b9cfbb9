/** What a source file stands for, told from its path and the file system. */
module Sources {
  import opened Bytes
  import opened SourceFiles
  import opened Directives
  import opened Expansions
  import opened Emission
  import opened ExpansionLaws
  import opened Fixpoints
  import opened Reachability
  import opened ReadingOrder
  import opened Traces
  import opened Exceptions
  import opened AddKernels

  // ----- which lines are directives -----

  const HASH_INCLUDE: Text := "#include"
  const DOT_INCLUDE: Text := ".include"

  /** A line that is not blank, in three parts. */
  predicate Shaped(blanks: Text, word: Text, rest: Text) {
    AllBlank(blanks) && word != [] && NoBlank(word) && (rest != [] ==> IsBlank(rest[0]))
  }

  ghost predicate Treats(cfg: Config, directive: Text, angle: bool, active: bool,
                         blanks: Text, word: Text, rest: Text) {
    var kind := Classify(cfg, blanks + word + rest);
    if SameButCase(word, MARKER) then kind == Marker
    else if !active || !SameButCase(word, directive) then kind == Plain
    else if rest == [] then kind == Malformed
    else
      && (forall p :: kind == Include(p) <==> NamesPath(rest[1..], angle, p))
      && (kind == Malformed <==> forall p :: !NamesPath(rest[1..], angle, p))
  }

  /** Under `cfg` lines that begin with `directive`, in any letter case, include
      what is quoted behind it, or in angle brackets if `angle`, and are refused
      if nothing is; if not `active` they are copied. Markers are understood in
      any case, and all other lines are copied. */
  ghost predicate Honours(cfg: Config, directive: Text, angle: bool, active: bool) {
    && (forall blanks, word, rest :: Shaped(blanks, word, rest) ==>
          Treats(cfg, directive, angle, active, blanks, word, rest))
    && (forall blanks :: AllBlank(blanks) ==> Classify(cfg, blanks) == Plain)
  }

  lemma NotNamed(t: Text, angle: bool)
    requires '"' !in t && '<' !in t
    ensures forall p :: !NamesPath(t, angle, p)
  {
  }

  lemma {:induction false} TreatsDirective(cfg: Config, blanks: Text, word: Text, rest: Text)
    requires cfg.recurse && cfg.directive != MARKER && NoUpper(cfg.directive)
    requires '"' !in cfg.directive && '<' !in cfg.directive
    requires Shaped(blanks, word, rest) && SameButCase(word, cfg.directive)
    ensures Treats(cfg, cfg.directive, cfg.allowAngle, true, blanks, word, rest)
  {
    OtherLine(cfg, blanks, word, rest);
    if rest == [] {
      BareDirective(cfg, blanks, word);
      NotNamed(cfg.directive, cfg.allowAngle);
      assert blanks + word + rest == blanks + word;
    } else {
      DirectiveLine(cfg, blanks, word, rest[0], rest[1..]);
      assert rest == [rest[0]] + rest[1..];
      Assoc(blanks + word, [rest[0]], rest[1..]);
    }
  }

  lemma ActiveHonours(cfg: Config)
    requires cfg.recurse && cfg.directive != MARKER && NoUpper(cfg.directive)
    requires '"' !in cfg.directive && '<' !in cfg.directive
    ensures Honours(cfg, cfg.directive, cfg.allowAngle, true)
  {
    forall blanks, word, rest | Shaped(blanks, word, rest)
      ensures Treats(cfg, cfg.directive, cfg.allowAngle, true, blanks, word, rest)
    {
      OtherLine(cfg, blanks, word, rest);
      if SameButCase(word, cfg.directive) {
        TreatsDirective(cfg, blanks, word, rest);
      }
    }
    forall blanks | AllBlank(blanks) ensures Classify(cfg, blanks) == Plain {
      OtherLine(cfg, blanks, ['x'], []);
    }
  }

  lemma PassiveHonours(cfg: Config, directive: Text, angle: bool)
    requires !cfg.recurse
    ensures Honours(cfg, directive, angle, false)
  {
    forall blanks, word, rest | Shaped(blanks, word, rest)
      ensures Treats(cfg, directive, angle, false, blanks, word, rest)
    {
      OtherLine(cfg, blanks, word, rest);
    }
    forall blanks | AllBlank(blanks) ensures Classify(cfg, blanks) == Plain {
      OtherLine(cfg, blanks, ['x'], []);
    }
  }

  lemma ToolHonours(cfg: Config)
    requires cfg.directive == HASH_INCLUDE || cfg.directive == DOT_INCLUDE
    ensures Honours(cfg, cfg.directive, cfg.allowAngle, cfg.recurse)
  {
    if cfg.recurse {
      assert NoUpper(HASH_INCLUDE) && NoUpper(DOT_INCLUDE);
      assert HASH_INCLUDE[0] != MARKER[0] && DOT_INCLUDE[0] != MARKER[0];
      ActiveHonours(cfg);
    } else {
      PassiveHonours(cfg, cfg.directive, cfg.allowAngle);
    }
  }

  /** OpenCL sources and headers are inlined with `#include`, quotes and angle
      brackets; assembly with `.include` and quotes only; HIP sources are read
      for markers only, whatever is asked for; nothing else is inlined. */
  lemma DirectivesOf(extension: Text, root: Text, recurse: bool)
    ensures var inliner := InlinerConfig(extension, root, recurse);
            && (inliner.Some? <==> extension == "cl" || extension == "hpp" || extension == "s" || extension == "cpp")
            && (inliner.Some? ==> inliner.value.root == root)
            && (extension == "cl" || extension == "hpp" ==> Honours(inliner.value, HASH_INCLUDE, true, recurse))
            && (extension == "s" ==> Honours(inliner.value, DOT_INCLUDE, false, recurse))
            && (extension == "cpp" ==> Honours(inliner.value, HASH_INCLUDE, true, false))
  {
    var inliner := InlinerConfig(extension, root, recurse);
    assert C_INCLUDE == HASH_INCLUDE && ASM_INCLUDE == DOT_INCLUDE;
    if extension == "cpp" {
      PassiveHonours(inliner.value, HASH_INCLUDE, true);
    } else if inliner.Some? {
      ToolHonours(inliner.value);
    }
  }

  function Quoted(p: Text): Text { ['"'] + p + ['"'] }

  function Angled(p: Text): Text { ['<'] + p + ['>'] }

  lemma QuotedNames(p: Text, angle: bool)
    requires '"' !in p
    ensures NamesPath(Quoted(p), angle, p)
  {
    assert Quoted(p) == [] + ['"'] + p + ['"'] + [];
    assert Framed(Quoted(p), [], '"', p, '"', []);
  }

  lemma AngledNames(p: Text, angle: bool)
    requires '"' !in p && '>' !in p
    ensures if angle then NamesPath(Angled(p), angle, p) else forall q :: !NamesPath(Angled(p), angle, q)
  {
    assert Angled(p) == [] + ['<'] + p + ['>'] + [];
    assert Framed(Angled(p), [], '<', p, '>', []);
    assert '"' !in Angled(p);
  }

  lemma BehindWord(cfg: Config, directive: Text, angle: bool, active: bool, blanks: Text, word: Text, blank: Byte,
                   behind: Text)
    requires Honours(cfg, directive, angle, active) && Shaped(blanks, word, [blank])
    ensures var kind := Classify(cfg, blanks + word + ([blank] + behind));
            if SameButCase(word, MARKER) then kind == Marker
            else if !active || !SameButCase(word, directive) then kind == Plain
            else
              && (forall p :: kind == Include(p) <==> NamesPath(behind, angle, p))
              && (kind == Malformed <==> forall p :: !NamesPath(behind, angle, p))
  {
    var rest := [blank] + behind;
    assert rest[1..] == behind && rest[0] == [blank][0];
    assert Shaped(blanks, word, rest);
    assert Treats(cfg, directive, angle, active, blanks, word, rest);
  }

  /** A directive with a quoted path, and one with a path in angle brackets. */
  lemma {:induction false} IncludeLines(cfg: Config, directive: Text, angle: bool, active: bool,
                                        blanks: Text, word: Text, blank: Byte, p: Text)
    requires Honours(cfg, directive, angle, active)
    requires Shaped(blanks, word, [blank]) && '"' !in p && '>' !in p
    ensures var quoted := Classify(cfg, blanks + word + ([blank] + Quoted(p)));
            var angled := Classify(cfg, blanks + word + ([blank] + Angled(p)));
            if SameButCase(word, MARKER) then quoted == angled == Marker
            else if !active || !SameButCase(word, directive) then quoted == angled == Plain
            else quoted == Include(p) && angled == if angle then Include(p) else Malformed
  {
    BehindWord(cfg, directive, angle, active, blanks, word, blank, Quoted(p));
    BehindWord(cfg, directive, angle, active, blanks, word, blank, Angled(p));
    QuotedNames(p, angle);
    AngledNames(p, angle);
  }

  // ----- what is printed for a source -----

  /** What inlining makes of a text: the plain lines it reaches, in reading order,
      joined by newlines, without the empty ones before all others. */
  ghost predicate InlinesTo(fs: FileSystem, cfg: Config, text: Text, data: Text) {
    && Fits(fs, cfg, 256, text)
    && exists ps, ts :: Reads(fs, cfg, Split(text), 0, |Split(text)|, ps, ts) && data == Join(DropEmpty(ts))
  }

  /** The source `path` stands for these bytes under this name. */
  ghost predicate StandsFor(fs: FileSystem, path: Text, recurse: bool, name: Text, data: Text) {
    && SplitPath(path).Some? && fs(path).Content?
    && var parts, text := SplitPath(path).value, fs(path).text;
       var inliner := InlinerConfig(parts.extension, parts.root, recurse);
       && NoLower(name) && SameButCase(parts.name, name)
       && if inliner.None? then data == text else InlinesTo(fs, inliner.value, text, data)
  }

  /** The source `path` cannot be printed, and the program stops with `exit`. */
  ghost predicate FailsWith(fs: FileSystem, path: Text, recurse: bool, exit: Exit) {
    if SplitPath(path).None? then exit == BadPath
    else if !fs(path).Content? then exit == SourceNotFound
    else
      var parts := SplitPath(path).value;
      var inliner := InlinerConfig(parts.extension, parts.root, recurse);
      && inliner.Some? && exit.InlineFailed?
      && Raises(fs, inliner.value, Desc(path, Null, 0), 255, Split(fs(path).text), exit.exception)
  }

  lemma {:induction false} InlinesToIff(fs: FileSystem, cfg: Config, path: Text, text: Text, data: Text)
    ensures var e := ExpandFile(fs, cfg, Null, 256, path, 0, text);
            InlinesTo(fs, cfg, text, data) <==> e.outcome.Returned? && data == EmitAll([], e.lines)
  {
    var e, lines := ExpandFile(fs, cfg, Null, 256, path, 0, text), Split(text);
    ExpandsIff(fs, cfg, Null, 256, path, 0, text);
    if e.outcome.Returned? {
      EmitsReadingOrder(fs, cfg, Null, 256, path, 0, text);
      EmitAllFrame([], e.lines);
      var ps :| Reads(fs, cfg, lines, 0, |lines|, ps, e.lines);
    }
  }

  lemma {:induction false} RaisesIff(fs: FileSystem, cfg: Config, path: Text, text: Text, x: InlineException)
    ensures Raises(fs, cfg, Desc(path, Null, 0), 255, Split(text), x) <==>
            StatusOf(ExpandFile(fs, cfg, Null, 256, path, 0, text).outcome) == Thrown(x)
  {
    StatusIsRaised(fs, cfg, Null, 255, path, 0, text);
    var o := ExpandFile(fs, cfg, Null, 256, path, 0, text).outcome;
    if Raises(fs, cfg, Desc(path, Null, 0), 255, Split(text), x) {
      var pos, report :| Blamed(fs, cfg, Desc(path, Null, 0), 255, Split(text), pos, report, x);
      assert Faulty(fs, cfg, 255, Split(text));
      RaisedIsUnique(fs, cfg, Desc(path, Null, 0), 255, Split(text), x, StatusOf(o).exception);
    }
  }

  /** A source is printed under the name and with the bytes that it stands for,
      and under and with no others. */
  lemma {:induction false} PrintedIff(fs: FileSystem, path: Text, recurse: bool, name: Text, data: Text)
    ensures PayloadOf(fs, path, recurse) == Ready(name, data) <==> StandsFor(fs, path, recurse, name, data)
  {
    if SplitPath(path).Some? && fs(path).Content? {
      var parts, text := SplitPath(path).value, fs(path).text;
      var inliner := InlinerConfig(parts.extension, parts.root, recurse);
      UpperIff(parts.name, name);
      if inliner.Some? {
        InlinesToIff(fs, inliner.value, path, text, data);
      }
    }
  }

  /** A source that cannot be printed stops the program with the one error that
      it has: the path, the file, or the exception of the inliner. */
  lemma {:induction false} FailsIff(fs: FileSystem, path: Text, recurse: bool, exit: Exit)
    ensures PayloadOf(fs, path, recurse) == Failed(exit) <==> FailsWith(fs, path, recurse, exit)
  {
    if SplitPath(path).Some? && fs(path).Content? {
      var parts, text := SplitPath(path).value, fs(path).text;
      var inliner := InlinerConfig(parts.extension, parts.root, recurse);
      if inliner.Some? && exit.InlineFailed? {
        RaisesIff(fs, inliner.value, path, text, exit.exception);
      }
    }
  }

  /** A source of any other extension is printed as it is. */
  lemma RawSource(fs: FileSystem, path: Text, recurse: bool, text: Text, name: Text)
    requires SplitPath(path).Some? && fs(path) == Content(text)
    requires var extension := SplitPath(path).value.extension;
             extension != "cl" && extension != "hpp" && extension != "s" && extension != "cpp"
    requires NoLower(name) && SameButCase(SplitPath(path).value.name, name)
    ensures PayloadOf(fs, path, recurse) == Ready(name, text)
  {
    UpperIff(SplitPath(path).value.name, name);
  }

  lemma InlinedPayload(fs: FileSystem, path: Text, recurse: bool, text: Text, cfg: Config)
    requires SplitPath(path).Some? && fs(path) == Content(text)
    requires InlinerConfig(SplitPath(path).value.extension, SplitPath(path).value.root, recurse) == Some(cfg)
    ensures var e, p := ExpandFile(fs, cfg, Null, 256, path, 0, text), PayloadOf(fs, path, recurse);
            if e.outcome.Returned? then p == Ready(Upper(SplitPath(path).value.name), EmitAll([], e.lines))
            else p.Failed?
  {
  }

  /** A source that is inlined is printed exactly when all it reaches is
      well-formed and fits in 256 files; what is printed then are the plain lines
      it reaches, in reading order. */
  lemma {:induction false} InlinedSourceIff(fs: FileSystem, path: Text, recurse: bool, text: Text, cfg: Config)
    requires SplitPath(path).Some? && fs(path) == Content(text)
    requires InlinerConfig(SplitPath(path).value.extension, SplitPath(path).value.root, recurse) == Some(cfg)
    ensures var p, lines := PayloadOf(fs, path, recurse), Split(text);
            && (p.Ready? <==> Fits(fs, cfg, 256, text))
            && (p.Ready? ==>
                  && (exists ps, ts :: Reads(fs, cfg, lines, 0, |lines|, ps, ts))
                  && (forall ps, ts :: Reads(fs, cfg, lines, 0, |lines|, ps, ts) ==> p.data == EmitAll([], ts)))
  {
    InlinedPayload(fs, path, recurse, text, cfg);
    ExpandsIff(fs, cfg, Null, 256, path, 0, text);
    if PayloadOf(fs, path, recurse).Ready? {
      EmitsReadingOrder(fs, cfg, Null, 256, path, 0, text);
    }
  }

  // ----- sources of a single line -----

  lemma IsOneLine(line: Text)
    requires NL !in line
    ensures Split(line) == [line]
  {
    assert line[0..] == line;
    FindNone(line, NL, 0);
  }

  lemma OneInclude(fs: FileSystem, cfg: Config, path: Text, line: Text, p: Text, body: Text)
    requires NL !in line && Classify(cfg, line) == Include(p)
    requires Resolve(fs, cfg, p) == Content(body) && AllPlain(cfg, Split(body))
    ensures ExpandFile(fs, cfg, Null, 256, path, 0, line) == Expansion(Split(body), Returned)
  {
    var here := Desc(path, Null, 0);
    IsOneLine(line);
    PlainFile(fs, cfg, here, 255, p, 1, body);
    assert [line] + [] == [line] && Split(body) + [] == Split(body);
    ExpandCons(fs, cfg, here, 255, line, [], 0, false);
  }

  const BODY: Text := ['y']

  lemma {:induction false} BodyIsEmitted()
    ensures Split(BODY) == [BODY] && EmitAll([], Split(BODY)) == BODY
  {
    IsOneLine(BODY);
    EmitSplit(BODY);
  }

  lemma {:induction false} BodyIsPlain(cfg: Config, directive: Text, angle: bool, active: bool)
    requires Honours(cfg, directive, angle, active) && |directive| != 1
    ensures AllPlain(cfg, Split(BODY))
  {
    IsOneLine(BODY);
    assert [] + BODY + [] == BODY && |MARKER| != 1;
    assert Shaped([], BODY, []);
    assert Treats(cfg, directive, angle, active, [], BODY, []);
  }

  lemma OneLine(fs: FileSystem, cfg: Config, directive: Text, angle: bool, active: bool, path: Text, line: Text,
                p: Text)
    requires Honours(cfg, directive, angle, active) && |directive| != 1
    requires NL !in line && Resolve(fs, cfg, p) == Content(BODY)
    ensures var e, kind := ExpandFile(fs, cfg, Null, 256, path, 0, line), Classify(cfg, line);
            && (kind == Include(p) ==> e.outcome.Returned? && EmitAll([], e.lines) == BODY)
            && (kind == Plain ==> e.outcome.Returned? && EmitAll([], e.lines) == line)
            && (kind == Malformed ==> e.outcome == Threw(WrongDirective, 1, Desc(path, Null, 0)))
  {
    IsOneLine(line);
    match Classify(cfg, line)
    case Include(q) =>
      BodyIsPlain(cfg, directive, angle, active);
      BodyIsEmitted();
      if q == p { OneInclude(fs, cfg, path, line, p, BODY); }
    case Plain =>
      PassThrough(fs, cfg, Null, 256, path, 0, line);
    case Malformed =>
      MalformedFile(fs, cfg, Null, 256, path, line);
    case Marker =>
  }

  /** A source that is one directive for the file `p`, whatever the blanks and
      the letter case, quoted or in angle brackets. */
  ghost predicate OneDirective(fs: FileSystem, path: Text, word: Text, p: Text, quoted: bool, line: Text) {
    && SplitPath(path).Some? && fs(path) == Content(line) && NL !in line
    && fs(SplitPath(path).value.root + ['/'] + p) == Content(BODY) && '"' !in p && '>' !in p
    && exists blanks, blank: Byte ::
         Shaped(blanks, word, [blank]) && line == blanks + word + ([blank] + if quoted then Quoted(p) else Angled(p))
  }

  lemma {:induction false} KindOfDirective(fs: FileSystem, path: Text, word: Text, p: Text, quoted: bool, line: Text,
                                           cfg: Config, directive: Text, angle: bool, active: bool)
    requires OneDirective(fs, path, word, p, quoted, line) && |word| != |MARKER|
    requires Honours(cfg, directive, angle, active)
    ensures Classify(cfg, line) == if !active || !SameButCase(word, directive) then Plain
                                   else if quoted || angle then Include(p) else Malformed
  {
    var blanks, blank: Byte :|
      Shaped(blanks, word, [blank]) && line == blanks + word + ([blank] + if quoted then Quoted(p) else Angled(p));
    IncludeLines(cfg, directive, angle, active, blanks, word, blank, p);
  }

  lemma {:induction false} PayloadOfLine(fs: FileSystem, path: Text, recurse: bool, line: Text, p: Text,
                                         cfg: Config, directive: Text, angle: bool)
    requires SplitPath(path).Some? && fs(path) == Content(line) && NL !in line
    requires InlinerConfig(SplitPath(path).value.extension, SplitPath(path).value.root, recurse) == Some(cfg)
    requires Honours(cfg, directive, angle, recurse) && |directive| != 1 && Resolve(fs, cfg, p) == Content(BODY)
    ensures var payload, kind := PayloadOf(fs, path, recurse), Classify(cfg, line);
            && (kind == Plain ==> payload.Ready? && payload.data == line)
            && (kind == Include(p) ==> payload.Ready? && payload.data == BODY)
            && (kind == Malformed ==>
                  payload.Failed? && payload.exit.InlineFailed? && payload.exit.exception.fault == WrongDirective)
  {
    OneLine(fs, cfg, directive, angle, recurse, path, line, p);
  }

  lemma {:induction false} OneDirectiveSource(fs: FileSystem, path: Text, recurse: bool, word: Text, p: Text,
                                              quoted: bool, line: Text, cfg: Config, directive: Text, angle: bool)
    requires OneDirective(fs, path, word, p, quoted, line) && |word| != |MARKER| && |directive| != 1
    requires InlinerConfig(SplitPath(path).value.extension, SplitPath(path).value.root, recurse) == Some(cfg)
    requires cfg.root == SplitPath(path).value.root && Honours(cfg, directive, angle, recurse)
    ensures var payload := PayloadOf(fs, path, recurse);
            if !recurse || !SameButCase(word, directive) then payload.Ready? && payload.data == line
            else if quoted || angle then payload.Ready? && payload.data == BODY
            else payload.Failed? && payload.exit.InlineFailed? && payload.exit.exception.fault == WrongDirective
  {
    KindOfDirective(fs, path, word, p, quoted, line, cfg, directive, angle, recurse);
    PayloadOfLine(fs, path, recurse, line, p, cfg, directive, angle);
  }

  /** The one line of an OpenCL source or header is replaced by the file if it is
      an `#include` and recursion is on, and is printed as it is if it is an
      `.include`. In assembly it is the other way round, and an `.include` in
      angle brackets is an error. */
  lemma {:induction false} DirectiveSources(fs: FileSystem, path: Text, recurse: bool, word: Text, p: Text,
                                            quoted: bool, line: Text)
    requires OneDirective(fs, path, word, p, quoted, line)
    requires SameButCase(word, HASH_INCLUDE) || SameButCase(word, DOT_INCLUDE)
    ensures var extension, payload := SplitPath(path).value.extension, PayloadOf(fs, path, recurse);
            && (extension == "cl" || extension == "hpp" ==>
                  payload.Ready? && payload.data == if recurse && SameButCase(word, HASH_INCLUDE) then BODY else line)
            && (extension == "s" ==>
                  if !recurse || !SameButCase(word, DOT_INCLUDE) then payload.Ready? && payload.data == line
                  else if quoted then payload.Ready? && payload.data == BODY
                  else payload.Failed? && payload.exit.InlineFailed? && payload.exit.exception.fault == WrongDirective)
  {
    var parts := SplitPath(path).value;
    var inliner := InlinerConfig(parts.extension, parts.root, recurse);
    DirectivesOf(parts.extension, parts.root, recurse);
    if parts.extension == "cl" || parts.extension == "hpp" {
      OneDirectiveSource(fs, path, recurse, word, p, quoted, line, inliner.value, HASH_INCLUDE, true);
    } else if parts.extension == "s" {
      OneDirectiveSource(fs, path, recurse, word, p, quoted, line, inliner.value, DOT_INCLUDE, false);
    }
  }

  // ----- where includes are looked for -----

  const SLASHES: Text := "//"

  /** Two slashes in a path stand for one, as `realpath` has it. */
  ghost predicate OneSlash(fs: FileSystem) {
    forall a: Text, b: Text :: fs(a + SLASHES + b) == fs(a + SLASHES[1..] + b)
  }

  /** The path `target` as seen from the directory of the source `path`. */
  function Beside(path: Text, target: Text): Text {
    match FindLast(path, '/')
    case None => target
    case Some(i) => path[..i + 1] + target
  }

  lemma RootOf(path: Text)
    requires SplitPath(path).Some?
    ensures match FindLast(path, '/')
            case None => SplitPath(path).value.root == []
            case Some(i) => SplitPath(path).value.root == path[..i] + ['/'] == path[..i + 1]
  {
  }

  lemma FoundBeside(fs: FileSystem, cfg: Config, path: Text, target: Text)
    requires SplitPath(path).Some? && cfg.root == SplitPath(path).value.root && '/' in path && OneSlash(fs)
    ensures Resolve(fs, cfg, target) == fs(Beside(path, target))
  {
    RootOf(path);
    var i := FindLast(path, '/').value;
    assert SLASHES[1..] == ['/'];
    assert cfg.root + ['/'] + target == path[..i] + SLASHES + target;
    assert Beside(path, target) == path[..i] + SLASHES[1..] + target;
  }

  /** A file system without a root directory. */
  function Rootless(path: Text): Entry {
    if path != [] && path[0] == '/' then Missing else Content([])
  }

  lemma FoundAtRoot(fs: FileSystem, cfg: Config, path: Text, target: Text)
    requires SplitPath(path).Some? && cfg.root == SplitPath(path).value.root && '/' !in path
    ensures Resolve(fs, cfg, target) == fs(['/'] + target) && Beside(path, target) == target
  {
    RootOf(path);
    assert cfg.root + ['/'] + target == ['/'] + target;
  }

  /** What a source includes is looked for in the directory of that source
      exactly when the path of the source names one. Otherwise it is looked for
      in the root directory. */
  lemma BesideIff(path: Text, cfg: Config)
    requires SplitPath(path).Some? && cfg.root == SplitPath(path).value.root
    ensures (forall fs: FileSystem, target :: OneSlash(fs) ==>
               Resolve(fs, cfg, target) == fs(Beside(path, target))) <==> '/' in path
    ensures '/' !in path ==> forall fs: FileSystem, target :: Resolve(fs, cfg, target) == fs(['/'] + target)
  {
    forall fs: FileSystem, target | OneSlash(fs) && '/' in path
      ensures Resolve(fs, cfg, target) == fs(Beside(path, target))
    {
      FoundBeside(fs, cfg, path, target);
    }
    if '/' !in path {
      forall fs: FileSystem, target ensures Resolve(fs, cfg, target) == fs(['/'] + target) {
        FoundAtRoot(fs, cfg, path, target);
      }
      FoundAtRoot(Rootless, cfg, path, ['x']);
      assert OneSlash(Rootless);
      assert Resolve(Rootless, cfg, ['x']) != Rootless(Beside(path, ['x']));
    }
  }

  const BARE_SOURCE: Text := "a.cl"

  /** The file `x` that the source `a.cl` includes is looked for as `/x`. */
  lemma BareSourceLooksAtRoot(fs: FileSystem, cfg: Config)
    requires cfg.root == []
    ensures SplitPath(BARE_SOURCE) == Some(PathParts([], ['a'], ['c', 'l']))
    ensures Resolve(fs, cfg, ['x']) == fs(['/', 'x'])
  {
    FindLastIs(BARE_SOURCE, '.', 1);
    assert FindLast(BARE_SOURCE, '/') == None;
    assert BARE_SOURCE[..1] == ['a'] && BARE_SOURCE[2..] == ['c', 'l'];
    FoundAtRoot(fs, cfg, BARE_SOURCE, ['x']);
    assert ['/'] + ['x'] == ['/', 'x'];
  }

  // ----- HIP sources -----

  lemma CppConfig(root: Text, recurse: bool)
    ensures InlinerConfig("cpp", root, recurse) == Some(Config(root, NO_INCLUDE, true, false))
  {
  }

  /** A line that announces an optional include. */
  ghost predicate IsMarkerLine(l: Text) {
    exists blanks, word, rest :: Shaped(blanks, word, rest) && SameButCase(word, MARKER) && l == blanks + word + rest
  }

  lemma PassiveLine(cfg: Config, l: Text)
    requires !cfg.recurse
    ensures Classify(cfg, l) == if IsMarkerLine(l) then Marker else Plain
  {
    var blanks, word, rest := LineShape(l);
    if word == [] {
      OtherLine(cfg, blanks, ['x'], []);
      assert l == blanks;
    } else {
      OtherLine(cfg, blanks, word, rest);
    }
    if IsMarkerLine(l) {
      var b, w, r :| Shaped(b, w, r) && SameButCase(w, MARKER) && l == b + w + r;
      OtherLine(cfg, b, w, r);
    }
  }

  /** A `.cpp` source is printed as it is exactly when it has no optional-include
      marker and does not begin with a newline. */
  lemma HipSourceIff(fs: FileSystem, path: Text, recurse: bool, text: Text, name: Text)
    requires SplitPath(path).Some? && SplitPath(path).value.extension == "cpp" && fs(path) == Content(text)
    requires NoLower(name) && SameButCase(SplitPath(path).value.name, name)
    ensures PayloadOf(fs, path, recurse) == Ready(name, text) <==>
            (text == [] || text[0] != NL) && forall l :: l in Split(text) ==> !IsMarkerLine(l)
  {
    var parts := SplitPath(path).value;
    var cfg := Config(parts.root, NO_INCLUDE, true, false);
    CppConfig(parts.root, recurse);
    InlinedPayload(fs, path, recurse, text, cfg);
    FixpointIff(fs, cfg, 256, path, text);
    UpperIff(parts.name, name);
    forall l ensures Classify(cfg, l) == if IsMarkerLine(l) then Marker else Plain {
      PassiveLine(cfg, l);
    }
  }

  const HIP_SOURCE: Text := "a.cpp"

  /** A `.cpp` source that is one newline is printed as no bytes at all. */
  lemma HipSourceLosesNewline(fs: FileSystem, recurse: bool)
    requires fs(HIP_SOURCE) == Content([NL])
    ensures PayloadOf(fs, HIP_SOURCE, recurse) == Ready(['A'], [])
  {
    FindLastIs(HIP_SOURCE, '.', 1);
    assert FindLast(HIP_SOURCE, '/') == None;
    var parts := SplitPath(HIP_SOURCE).value;
    assert parts == PathParts([], ['a'], ['c', 'p', 'p']) && Upper(parts.name) == ['A'];
    var cfg := Config([], NO_INCLUDE, true, false);
    CppConfig([], recurse);
    InlinedPayload(fs, HIP_SOURCE, recurse, [NL], cfg);
    NewlineIsLost(fs, cfg, Null, 256, HIP_SOURCE, 0);
  }

  // ----- a directive alone on its line -----

  /** With the directives the tool uses, a directive alone on its line is
      refused, whatever its letter case. */
  lemma BareToolDirective(cfg: Config, blanks: Text, word: Text)
    requires cfg.directive == HASH_INCLUDE || cfg.directive == DOT_INCLUDE
    requires cfg.recurse && AllBlank(blanks) && word != [] && NoBlank(word) && SameButCase(word, cfg.directive)
    ensures Classify(cfg, blanks + word) == Malformed
  {
    ToolHonours(cfg);
    assert Shaped(blanks, word, []);
    assert Treats(cfg, cfg.directive, cfg.allowAngle, true, blanks, word, []);
    assert |word| != |MARKER| && blanks + word + [] == blanks + word;
  }
}
