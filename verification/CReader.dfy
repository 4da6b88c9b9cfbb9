/** A reader of C text, which knows no block or line size and shares nothing with
    the printer. Names are those that a C program may use, each for one thing
    only. */
module CReader {
  import opened Bytes
  import opened Numbers

  /** A size constant and the array that follows it. */
  datatype Array = Array(name: Text, size: nat, elements: Text)

  /** What is read from a whole file; no guard is the empty one. */
  datatype CFile = CFile(guard: Text, arrays: seq<Array>)

  const NEWLINE: Byte := '\n'
  const DECLARE_SIZE: Text := "const size_t "
  const SIZE_IS: Text := "_SIZE = "
  const DECLARE_ARRAY: Text := "const unsigned char "
  const OPEN: Text := "[] = {"
  const CLOSE: Text := "};\n"
  const UNLESS_DEFINED: Text := "#ifndef "
  const MACRO: Text := "#define "
  const STDDEF: Text := "#include <stddef.h>"
  const END_UNLESS: Text := "#endif\n"

  /** Words that are no names for arrays or macros: the keywords, `defined`, and
      what `<stddef.h>` defines (sections 6.4.1, 6.10.8 and 7.19 of ISO/IEC
      9899:2011). Keywords with an underscore in front are no identifiers here
      anyway. */
  const RESERVED: set<Text> := {
    "auto", "break", "case", "char", "const", "continue", "default", "do", "double", "else", "enum", "extern",
    "float", "for", "goto", "if", "inline", "int", "long", "register", "restrict", "return", "short", "signed",
    "sizeof", "static", "struct", "switch", "typedef", "union", "unsigned", "void", "volatile", "while",
    "NULL", "offsetof", "size_t", "ptrdiff_t", "wchar_t", "max_align_t", "defined"
  }

  predicate IsLetter(c: Byte) { 'a' <= c <= 'z' || 'A' <= c <= 'Z' }

  predicate IsNameByte(c: Byte) { IsLetter(c) || '0' <= c <= '9' || c == '_' }

  /** A name that a program may declare or define at file scope; those with an
      underscore in front belong to the implementation (section 7.1.3). */
  predicate IsIdentifier(t: Text) {
    t != [] && IsLetter(t[0]) && (forall c :: c in t ==> IsNameByte(c)) && t !in RESERVED
  }

  /** `NAME_SIZE = 123` */
  function ParseSizeOf(t: Text): (r: Option<(Text, nat)>)
    ensures r.Some? ==> IsIdentifier(r.value.0)
  {
    match FindLast(t, ' ')
    case None => None
    case Some(k) =>
      var name := k + 1 - |SIZE_IS|;
      if name < 0 || t[name..k + 1] != SIZE_IS || !IsIdentifier(t[..name]) then None
      else
        match ParseNat(t[k + 1..])
        case None => None
        case Some(n) => Some((t[..name], n))
  }

  /** `const size_t NAME_SIZE = 123;` */
  function ParseSize(line: Text): (r: Option<(Text, nat)>)
    ensures r.Some? ==> IsIdentifier(r.value.0)
  {
    if !(DECLARE_SIZE <= line) || |line| == |DECLARE_SIZE| || line[|line| - 1] != ';' then None
    else ParseSizeOf(line[|DECLARE_SIZE|..|line| - 1])
  }

  predicate IsHexDigit(c: Byte) { '0' <= c <= '9' || 'a' <= c <= 'f' }

  function HexValue(c: Byte): (v: nat)
    requires IsHexDigit(c)
    ensures v < 16
  {
    if '0' <= c <= '9' then c as int - 48 else c as int - 97 + 10
  }

  predicate IsElement(s: Text) {
    |s| >= 5 && s[0] == '0' && s[1] == 'x' && IsHexDigit(s[2]) && IsHexDigit(s[3]) && s[4] == ','
  }

  function ElementValue(s: Text): Byte
    requires IsElement(s)
  {
    (16 * HexValue(s[2]) + HexValue(s[3])) as char
  }

  /** Two-digit hex elements, line breaks anywhere between them, up to the
      closing brace; what is behind it is returned as well. */
  function ParseElements(s: Text): (r: Option<(Text, Text)>)
    ensures r.Some? ==> |r.value.1| < |s|
  {
    if CLOSE <= s then Some(([], s[|CLOSE|..]))
    else if s != [] && s[0] == NEWLINE then ParseElements(s[1..])
    else if IsElement(s) then
      match ParseElements(s[5..])
      case None => None
      case Some(found) =>
        Some(([ElementValue(s)] + found.0, found.1))
    else None
  }

  /** The first line, without its newline, and what follows. */
  function NextLine(s: Text): (r: Option<(Text, Text)>)
    ensures r.Some? ==> |r.value.1| < |s|
  {
    match Find(s, NEWLINE, 0)
    case None => None
    case Some(i) => Some((s[..i], s[i + 1..]))
  }

  function ParseArray(s: Text): (r: Option<(Array, Text)>)
    ensures r.Some? ==> |r.value.1| < |s| && IsIdentifier(r.value.0.name)
  {
    match NextLine(s)
    case None => None
    case Some((first, s1)) =>
      match NextLine(s1)
      case None => None
      case Some((second, s2)) =>
        match (ParseSize(first), ParseElements(s2))
        case (Some((name, size)), Some((elements, rest))) =>
          if second == DECLARE_ARRAY + name + OPEN then Some((Array(name, size, elements), rest)) else None
        case _ => None
  }

  const SIZE_SUFFIX: Text := "_SIZE"

  /** The two names an array takes. */
  function NamesFor(name: Text): set<Text> { {name, name + SIZE_SUFFIX} }

  /** Arrays up to `end`, none of them with a name that is `taken`. */
  function ParseArrays(s: Text, taken: set<Text>, end: Text): Option<seq<Array>>
    decreases |s|
  {
    if s == end then Some([])
    else
      match ParseArray(s)
      case None => None
      case Some((found, rest)) =>
        if NamesFor(found.name) !! taken then
          match ParseArrays(rest, taken + NamesFor(found.name), end)
          case None => None
          case Some(more) => Some([found] + more)
        else None
  }

  /** The lines a guard puts in front, and the guard they name. */
  function ParseGuard(s: Text): Option<(Text, Text)> {
    match NextLine(s)
    case None => None
    case Some((first, s1)) =>
      match NextLine(s1)
      case None => None
      case Some((second, s2)) =>
        match NextLine(s2)
        case None => None
        case Some((third, rest)) =>
          if UNLESS_DEFINED <= first && second == MACRO + first[|UNLESS_DEFINED|..] && third == STDDEF
          then Some((first[|UNLESS_DEFINED|..], rest)) else None
  }

  /** A whole generated file, guarded or not. */
  function ParseFile(s: Text): Option<CFile> {
    if s == [] || s[0] != '#' then
      match ParseArrays(s, {}, [])
      case None => None
      case Some(arrays) => Some(CFile([], arrays))
    else
      match ParseGuard(s)
      case None => None
      case Some((guard, rest)) =>
        if !IsIdentifier(guard) then None
        else
          match ParseArrays(rest, {guard}, END_UNLESS)
          case None => None
          case Some(arrays) => Some(CFile(guard, arrays))
  }
}
