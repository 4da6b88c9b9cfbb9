/** What the include inliner makes of a single line. */
module Directives {
  import opened Bytes

  /** The arguments of `IncludeInliner::Process` that stay fixed during a run. */
  datatype Config = Config(root: Text, directive: Text, allowAngle: bool, recurse: bool)

  const OPTIONAL: Text := "//inliner-include-optional"

  datatype LineKind =
    | Marker               // announces that the include on the next line is optional
    | Include(path: Text)
    | Malformed            // an active directive without a readable path
    | Plain                // copied to the output

  function WordStart(line: Text): (i: nat)
    ensures i <= |line|
  {
    SkipSpaces(line, 0)
  }

  function WordEnd(line: Text): (i: nat)
    ensures WordStart(line) <= i <= |line|
  {
    SkipWord(line, WordStart(line))
  }

  function FirstWord(line: Text): Text {
    Lower(line[WordStart(line)..WordEnd(line)])
  }

  /** `tellg() + 1` after the first word was read: past the blank behind it, or
      the very beginning of the line when the word was the last thing on it
      (`tellg` is then -1). */
  function PathFrom(line: Text): (i: nat)
    ensures i <= |line|
  {
    if WordEnd(line) == |line| then 0 else WordEnd(line) + 1
  }

  function Delimited(line: Text, open: Byte, close: Byte, from: nat): (r: Option<Text>) {
    match Find(line, open, from)
    case None => None
    case Some(i) =>
      match Find(line, close, i + 1)
      case None => None
      case Some(j) => Some(line[i + 1..j])
  }

  /** The path an active directive line names. A double quote anywhere rules out
      angle brackets, even when it is not closed. */
  function Target(line: Text, from: nat, allowAngle: bool): Option<Text> {
    if Find(line, '"', from).Some? then Delimited(line, '"', '"', from)
    else if allowAngle then Delimited(line, '<', '>', from)
    else None
  }

  predicate IsActive(cfg: Config, line: Text) {
    && cfg.recurse
    && FirstWord(line) != []
    && FirstWord(line) == cfg.directive
    && FirstWord(line) != OPTIONAL
  }

  function Classify(cfg: Config, line: Text): LineKind {
    if FirstWord(line) == OPTIONAL then Marker
    else if IsActive(cfg, line) then
      match Target(line, PathFrom(line), cfg.allowAngle)
      case None => Malformed
      case Some(p) => Include(p)
    else Plain
  }

  // ----- the directive grammar, without searching -----

  /** `s` is `p` between its delimiters, each the first that could be meant. */
  ghost predicate Framed(s: Text, before: Text, open: Byte, p: Text, close: Byte, after: Text) {
    s == before + [open] + p + [close] + after && open !in before && close !in p
  }

  ghost predicate Names(s: Text, open: Byte, close: Byte, p: Text) {
    exists before, after :: Framed(s, before, open, p, close, after)
  }

  /** The text behind the directive word names `p`. */
  ghost predicate NamesPath(s: Text, allowAngle: bool, p: Text) {
    || Names(s, '"', '"', p)
    || (allowAngle && '"' !in s && Names(s, '<', '>', p))
  }

  lemma FramedParts(s: Text, before: Text, open: Byte, p: Text, close: Byte, after: Text)
    requires Framed(s, before, open, p, close, after)
    ensures var i := |before|;
            var j := i + 1 + |p|;
            && j < |s| && s[..i] == before && s[i] == open && s[i + 1..j] == p && s[j] == close
  {
  }

  lemma {:induction false} FramedIsFound(line: Text, from: nat, before: Text, open: Byte, p: Text, close: Byte,
                                         after: Text)
    requires from <= |line| && Framed(line[from..], before, open, p, close, after)
    ensures Find(line, open, from).Some?
    ensures Delimited(line, open, close, from) == Some(p)
  {
    var s := line[from..];
    var i := from + |before|;
    var j := i + 1 + |p|;
    FramedParts(s, before, open, p, close, after);
    assert line[i] == open && line[from..i] == s[..|before|];
    FindIs(line, open, from, i);
    assert line[j] == close && line[i + 1..j] == s[|before| + 1..|before| + 1 + |p|];
    FindIs(line, close, i + 1, j);
  }

  lemma FoundIsFramed(line: Text, from: nat, open: Byte, close: Byte, p: Text)
    requires from <= |line| && Delimited(line, open, close, from) == Some(p)
    ensures Names(line[from..], open, close, p)
  {
    var s := line[from..];
    var i := Find(line, open, from).value;
    var j := Find(line, close, i + 1).value;
    var before, after := line[from..i], line[j + 1..];
    assert s == before + [open] + p + [close] + after;
    assert Framed(s, before, open, p, close, after);
  }

  /** Searching finds a path exactly when the grammar names it. */
  lemma TargetIff(line: Text, from: nat, allowAngle: bool, p: Text)
    requires from <= |line|
    ensures Target(line, from, allowAngle) == Some(p) <==> NamesPath(line[from..], allowAngle, p)
  {
    var s := line[from..];
    if Names(s, '"', '"', p) {
      var before, after :| Framed(s, before, '"', p, '"', after);
      FramedIsFound(line, from, before, '"', p, '"', after);
    } else if allowAngle && '"' !in s && Names(s, '<', '>', p) {
      var before, after :| Framed(s, before, '<', p, '>', after);
      FindNone(line, '"', from);
      FramedIsFound(line, from, before, '<', p, '>', after);
    }
    if Target(line, from, allowAngle) == Some(p) {
      if Find(line, '"', from).Some? {
        FoundIsFramed(line, from, '"', '"', p);
      } else {
        FoundIsFramed(line, from, '<', '>', p);
      }
    }
  }

  lemma SkipSpacesIs(t: Text, i: nat, k: nat)
    requires i <= k <= |t| && (forall j :: i <= j < k ==> IsSpace(t[j])) && (k < |t| ==> !IsSpace(t[k]))
    ensures SkipSpaces(t, i) == k
    decreases k - i
  {
  }

  lemma SkipWordIs(t: Text, i: nat, k: nat)
    requires i <= k <= |t| && (forall j :: i <= j < k ==> !IsSpace(t[j])) && (k < |t| ==> IsSpace(t[k]))
    ensures SkipWord(t, i) == k
    decreases k - i
  {
  }

  lemma WordOf(blanks: Text, word: Text, rest: Text)
    requires AllBlank(blanks) && word != [] && NoBlank(word)
    requires rest != [] ==> IsBlank(rest[0])
    ensures var line := blanks + word + rest;
            && FirstWord(line) == Lower(word)
            && PathFrom(line) == if rest == [] then 0 else |blanks| + |word| + 1
  {
    var line := blanks + word + rest;
    var i, k := |blanks|, |blanks| + |word|;
    forall c ensures IsBlank(c) <==> IsSpace(c) { BlankIsSpace(c); }
    assert forall j :: 0 <= j < i ==> line[j] == blanks[j];
    assert forall j :: i <= j < k ==> line[j] == word[j - i];
    SkipSpacesIs(line, 0, i);
    SkipWordIs(line, i, k);
    assert line[i..k] == word;
  }

  /** Every line is blank, or a word between blanks and what a blank begins. */
  lemma LineShape(line: Text) returns (blanks: Text, word: Text, rest: Text)
    ensures line == blanks + word + rest && AllBlank(blanks) && NoBlank(word)
    ensures if word == [] then rest == [] else rest != [] ==> IsBlank(rest[0])
  {
    var i, k := WordStart(line), WordEnd(line);
    forall c ensures IsBlank(c) <==> IsSpace(c) { BlankIsSpace(c); }
    blanks, word, rest := line[..i], line[i..k], line[k..];
  }

  /** The word of a marker line, in small letters. */
  const MARKER: Text := "//inliner-include-optional"

  /** Directive lines, parsed and printed: whatever blanks come first and
      whatever letter case the directive has, the line is an include of `p`
      exactly when the text behind the blank names `p`, and is malformed
      exactly when that text names nothing. */
  lemma {:induction false} DirectiveLine(cfg: Config, blanks: Text, word: Text, blank: Byte, rest: Text)
    requires cfg.recurse && cfg.directive != MARKER && NoUpper(cfg.directive)
    requires AllBlank(blanks) && word != [] && NoBlank(word) && SameButCase(word, cfg.directive) && IsBlank(blank)
    ensures var kind := Classify(cfg, blanks + word + [blank] + rest);
            && (forall p :: kind == Include(p) <==> NamesPath(rest, cfg.allowAngle, p))
            && (kind == Malformed <==> forall p :: !NamesPath(rest, cfg.allowAngle, p))
  {
    var line := blanks + word + [blank] + rest;
    Assoc(blanks + word, [blank], rest);
    WordOf(blanks, word, [blank] + rest);
    LowerIff(word, cfg.directive);
    var from := PathFrom(line);
    assert line[from..] == rest;
    forall p ensures Target(line, from, cfg.allowAngle) == Some(p) <==> NamesPath(rest, cfg.allowAngle, p) {
      TargetIff(line, from, cfg.allowAngle, p);
    }
    var r := Target(line, from, cfg.allowAngle);
    assert r.Some? ==> NamesPath(rest, cfg.allowAngle, r.value);
  }

  lemma MarkerIsSmall()
    ensures NoUpper(MARKER) && NoBlank(MARKER)
  {
    forall i | 0 <= i < |MARKER| ensures !('A' <= MARKER[i] <= 'Z') && !IsBlank(MARKER[i]) {
    }
  }

  lemma BlankLine(cfg: Config, blanks: Text)
    requires AllBlank(blanks)
    ensures Classify(cfg, blanks) == Plain
  {
    forall c ensures IsBlank(c) <==> IsSpace(c) { BlankIsSpace(c); }
    SkipSpacesIs(blanks, 0, |blanks|);
    assert FirstWord(blanks) == [];
  }

  /** The lines that are not active directives: markers whatever the directive
      and the flags are, and lines to be copied. The word is compared in small
      letters, so a directive that has a capital is never active. */
  lemma {:induction false} OtherLine(cfg: Config, blanks: Text, word: Text, rest: Text)
    requires AllBlank(blanks) && word != [] && NoBlank(word)
    requires rest != [] ==> IsBlank(rest[0])
    ensures var kind := Classify(cfg, blanks + word + rest);
            && (kind.Marker? <==> SameButCase(word, MARKER))
            && (kind.Plain? <==>
                !SameButCase(word, MARKER)
                && !(cfg.recurse && NoUpper(cfg.directive) && SameButCase(word, cfg.directive)))
    ensures Classify(cfg, blanks).Plain?
  {
    WordOf(blanks, word, rest);
    LowerIff(word, MARKER);
    LowerIff(word, cfg.directive);
    MarkerIsSmall();
    BlankLine(cfg, blanks);
  }

  // ----- a directive with nothing behind it -----

  lemma {:induction false} FindLower(t: Text, c: Byte, from: nat)
    requires LowerByte(c) == c && !('a' <= c <= 'z')
    ensures Find(Lower(t), c, from) == Find(t, c, from)
    decreases |t| - from
  {
    if from < |t| { FindLower(t, c, from + 1); }
  }

  lemma {:induction false} FindFurther(a: Text, t: Text, c: Byte, from: nat)
    ensures var r, q := Find(a + t, c, |a| + from), Find(t, c, from);
            r == if q.None? then None else Some(|a| + q.value)
    decreases |t| - from
  {
    if from < |t| {
      assert (a + t)[|a| + from] == t[from];
      FindFurther(a, t, c, from + 1);
    }
  }

  lemma FindSkips(t: Text, c: Byte, from: nat, k: nat)
    requires from <= k <= |t| && forall j :: from <= j < k ==> t[j] != c
    ensures Find(t, c, from) == Find(t, c, k)
    decreases k - from
  {
  }

  lemma {:induction false} FindBehind(blanks: Text, t: Text, c: Byte)
    requires AllBlank(blanks) && !IsBlank(c)
    ensures var r, q := Find(blanks + t, c, 0), Find(t, c, 0);
            r == if q.None? then None else Some(|blanks| + q.value)
  {
    assert forall j :: 0 <= j < |blanks| ==> (blanks + t)[j] == blanks[j];
    FindSkips(blanks + t, c, 0, |blanks|);
    FindFurther(blanks, t, c, 0);
  }

  lemma {:induction false} FindInWord(blanks: Text, word: Text, c: Byte, from: nat)
    requires LowerByte(c) == c && !('a' <= c <= 'z')
    ensures var r, q := Find(blanks + word, c, |blanks| + from), Find(Lower(word), c, from);
            r == if q.None? then None else Some(|blanks| + q.value)
  {
    FindLower(word, c, from);
    FindFurther(blanks, word, c, from);
  }

  lemma {:induction false} DelimitedInWord(blanks: Text, word: Text, open: Byte, close: Byte)
    requires AllBlank(blanks)
    requires open in ['"', '<'] && close in ['"', '>']
    ensures Delimited(blanks + word, open, close, 0).None? <==> Delimited(Lower(word), open, close, 0).None?
  {
    FindLower(word, open, 0);
    FindBehind(blanks, word, open);
    var q := Find(word, open, 0);
    if q.Some? {
      FindInWord(blanks, word, close, q.value + 1);
      assert |blanks| + (q.value + 1) == |blanks| + q.value + 1;
    }
  }

  lemma {:induction false} TargetInWord(blanks: Text, word: Text, allowAngle: bool)
    requires AllBlank(blanks)
    ensures Target(blanks + word, 0, allowAngle).None? <==> Target(Lower(word), 0, allowAngle).None?
  {
    FindLower(word, '"', 0);
    FindBehind(blanks, word, '"');
    DelimitedInWord(blanks, word, '"', '"');
    DelimitedInWord(blanks, word, '<', '>');
  }

  /** A directive alone on its line is not always refused: the search for a
      path then starts over at the beginning of the line and may find one in
      the directive itself. It is refused exactly when the directive has none. */
  lemma BareDirective(cfg: Config, blanks: Text, word: Text)
    requires cfg.recurse && cfg.directive != MARKER && NoUpper(cfg.directive)
    requires AllBlank(blanks) && word != [] && NoBlank(word) && SameButCase(word, cfg.directive)
    ensures var kind := Classify(cfg, blanks + word);
            && (forall p :: kind == Include(p) <==> NamesPath(blanks + word, cfg.allowAngle, p))
            && (kind == Malformed <==> forall p :: !NamesPath(cfg.directive, cfg.allowAngle, p))
  {
    var line := blanks + word;
    assert blanks + word + [] == line && line[0..] == line && cfg.directive[0..] == cfg.directive;
    WordOf(blanks, word, []);
    LowerIff(word, cfg.directive);
    forall p ensures Target(line, 0, cfg.allowAngle) == Some(p) <==> NamesPath(line, cfg.allowAngle, p) {
      TargetIff(line, 0, cfg.allowAngle, p);
    }
    forall p ensures Target(cfg.directive, 0, cfg.allowAngle) == Some(p) <==>
                     NamesPath(cfg.directive, cfg.allowAngle, p)
    {
      TargetIff(cfg.directive, 0, cfg.allowAngle, p);
    }
    TargetInWord(blanks, word, cfg.allowAngle);
    var r := Target(cfg.directive, 0, cfg.allowAngle);
    assert r.Some? ==> NamesPath(cfg.directive, cfg.allowAngle, r.value);
  }

  const BARE: Text := "<x>"

  /** Such a directive: `<x>` alone on a line includes the file `x`. */
  lemma BareDirectiveIncludes(root: Text)
    ensures Classify(Config(root, BARE, true, true), BARE) == Include(['x'])
  {
  }
}
