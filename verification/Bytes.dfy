/** Byte strings and the pieces of the C++ library the build tool leans on:
    searching, splitting into lines, words, and letter case ("C" locale). */
module Bytes {

  /** One `char` of a C++ stream. */
  type Byte = c: char | c as int < 256 witness ' '

  type Text = seq<Byte>

  datatype Option<+T> = None | Some(value: T)

  const NL: Byte := '\n'

  lemma Assoc(a: Text, b: Text, c: Text)
    ensures a + b + c == a + (b + c)
  {
  }

  lemma Assoc4(a: Text, b: Text, c: Text, d: Text)
    ensures a + b + c + d == a + (b + c + d)
  {
  }

  // ----- searching -----

  /** `std::string::find(c, from)`; None is `npos`. */
  function Find(t: Text, c: Byte, from: nat): (r: Option<nat>)
    ensures r.Some? ==> from <= r.value < |t| && t[r.value] == c && c !in t[from..r.value]
    ensures r.None? ==> forall j :: from <= j < |t| ==> t[j] != c
    decreases |t| - from
  {
    if from >= |t| then None
    else if t[from] == c then Some(from)
    else Find(t, c, from + 1)
  }

  /** The first occurrence is the only answer Find can give. */
  lemma FindIs(t: Text, c: Byte, from: nat, k: nat)
    requires from <= k < |t| && t[k] == c && c !in t[from..k]
    ensures Find(t, c, from) == Some(k)
    decreases k - from
  {
  }

  lemma FindNone(t: Text, c: Byte, from: nat)
    requires from <= |t| && c !in t[from..]
    ensures Find(t, c, from) == None
    decreases |t| - from
  {
  }

  /** `std::string::rfind(c)`. */
  function FindLast(t: Text, c: Byte): (r: Option<nat>)
    ensures r.Some? ==> r.value < |t| && t[r.value] == c
    ensures r.Some? ==> forall j :: r.value < j < |t| ==> t[j] != c
    ensures r.None? ==> c !in t
  {
    if t == [] then None
    else if t[|t| - 1] == c then Some(|t| - 1)
    else FindLast(t[..|t| - 1], c)
  }

  lemma FindLastIs(t: Text, c: Byte, k: nat)
    requires k < |t| && t[k] == c && c !in t[k + 1..]
    ensures FindLast(t, c) == Some(k)
  {
  }

  // ----- lines -----

  /** The lines a `getline` loop sees: the text cut at every newline. A final
      newline, and the empty text, both give a last empty line. */
  function Split(t: Text): (ls: seq<Text>)
    ensures ls != []
    decreases |t|
  {
    match Find(t, NL, 0)
    case None => [t]
    case Some(k) => [t[..k]] + Split(t[k + 1..])
  }

  function Join(ls: seq<Text>): Text {
    if ls == [] then []
    else if |ls| == 1 then ls[0]
    else ls[0] + [NL] + Join(ls[1..])
  }

  lemma {:induction false} JoinSplit(t: Text)
    ensures Join(Split(t)) == t
    decreases |t|
  {
    match Find(t, NL, 0)
    case None =>
    case Some(k) =>
      var rest := Split(t[k + 1..]);
      JoinSplit(t[k + 1..]);
      assert ([t[..k]] + rest)[1..] == rest;
      assert t == t[..k] + [NL] + t[k + 1..];
  }

  lemma {:induction false} SplitJoin(ls: seq<Text>)
    requires ls != [] && forall l :: l in ls ==> NL !in l
    ensures Split(Join(ls)) == ls
  {
    assert ls[0] in ls;
    if |ls| == 1 {
      FindNone(ls[0], NL, 0);
    } else {
      var t := Join(ls);
      SplitJoin(ls[1..]);
      assert t[0..|ls[0]|] == ls[0];
      FindIs(t, NL, 0, |ls[0]|);
      assert t[|ls[0]| + 1..] == Join(ls[1..]);
    }
  }

  /** No line of a split text contains a newline. */
  lemma {:induction false} SplitIsClean(t: Text)
    ensures forall l :: l in Split(t) ==> NL !in l
    decreases |t|
  {
    match Find(t, NL, 0)
    case None =>
    case Some(k) =>
      SplitIsClean(t[k + 1..]);
      assert t[..k] == t[0..k];
  }

  // ----- words -----

  /** `isspace` in the "C" locale. */
  predicate IsSpace(c: Byte) { c == ' ' || 9 <= c as int <= 13 }

  /** Blank, tab, newline, carriage return, vertical tab, form feed. */
  const BLANKS: Text := [' ', '\t', '\n', '\r', 11 as char, 12 as char]

  predicate IsBlank(c: Byte) { c in BLANKS }

  predicate AllBlank(t: Text) { forall c :: c in t ==> IsBlank(c) }

  predicate NoBlank(t: Text) { forall c :: c in t ==> !IsBlank(c) }

  lemma BlankIsSpace(c: Byte)
    ensures IsBlank(c) <==> IsSpace(c)
  {
  }

  function SkipSpaces(t: Text, i: nat): (r: nat)
    requires i <= |t|
    ensures i <= r <= |t|
    ensures forall j :: i <= j < r ==> IsSpace(t[j])
    ensures r < |t| ==> !IsSpace(t[r])
    decreases |t| - i
  {
    if i < |t| && IsSpace(t[i]) then SkipSpaces(t, i + 1) else i
  }

  function SkipWord(t: Text, i: nat): (r: nat)
    requires i <= |t|
    ensures i <= r <= |t|
    ensures forall j :: i <= j < r ==> !IsSpace(t[j])
    ensures r < |t| ==> IsSpace(t[r])
    decreases |t| - i
  {
    if i < |t| && !IsSpace(t[i]) then SkipWord(t, i + 1) else i
  }

  // ----- letter case -----

  function LowerByte(c: Byte): Byte { if 'A' <= c <= 'Z' then (c as int + 32) as char else c }

  function UpperByte(c: Byte): Byte { if 'a' <= c <= 'z' then (c as int - 32) as char else c }

  function Lower(t: Text): Text { seq(|t|, i requires 0 <= i < |t| => LowerByte(t[i])) }

  function Upper(t: Text): Text { seq(|t|, i requires 0 <= i < |t| => UpperByte(t[i])) }

  predicate NoUpper(t: Text) { forall c :: c in t ==> !('A' <= c <= 'Z') }

  predicate NoLower(t: Text) { forall c :: c in t ==> !('a' <= c <= 'z') }

  const CAPITALS: Text := "ABCDEFGHIJKLMNOPQRSTUVWXYZ"
  const SMALLS: Text := "abcdefghijklmnopqrstuvwxyz"

  /** The same byte, or the two cases of one letter. */
  predicate SameLetter(c: Byte, d: Byte) {
    c == d || exists i :: 0 <= i < 26 && ((c == CAPITALS[i] && d == SMALLS[i]) || (c == SMALLS[i] && d == CAPITALS[i]))
  }

  predicate SameButCase(s: Text, t: Text) {
    |s| == |t| && forall i :: 0 <= i < |s| ==> SameLetter(s[i], t[i])
  }

  lemma AlphabetIs(i: nat)
    requires i < 26
    ensures CAPITALS[i] as int == 65 + i && SMALLS[i] as int == 97 + i
  {
  }

  lemma SameLetterIs(c: Byte, d: Byte)
    ensures SameLetter(c, d) <==> c == d || ('A' <= c <= 'Z' && d as int == c as int + 32)
                                         || ('A' <= d <= 'Z' && c as int == d as int + 32)
  {
    if 'A' <= c <= 'Z' { AlphabetIs(c as int - 65); }
    if 'A' <= d <= 'Z' { AlphabetIs(d as int - 65); }
    forall i | 0 <= i < 26 ensures CAPITALS[i] as int == 65 + i && SMALLS[i] as int == 97 + i {
      AlphabetIs(i);
    }
  }

  /** Lowering gives the text without capitals that differs only in case. */
  lemma LowerIff(s: Text, t: Text)
    ensures Lower(s) == t <==> NoUpper(t) && SameButCase(s, t)
  {
    forall c: Byte, d: Byte ensures LowerByte(c) == d <==> !('A' <= d <= 'Z') && SameLetter(c, d) {
      SameLetterIs(c, d);
    }
    if NoUpper(t) && SameButCase(s, t) {
      forall i | 0 <= i < |s| ensures Lower(s)[i] == t[i] {
        assert t[i] in t && SameLetter(s[i], t[i]);
      }
    }
    if Lower(s) == t {
      forall i | 0 <= i < |s| ensures LowerByte(s[i]) == t[i] {}
    }
  }

  /** Raising, the text without small letters. */
  lemma UpperIff(s: Text, t: Text)
    ensures Upper(s) == t <==> NoLower(t) && SameButCase(s, t)
  {
    forall c: Byte, d: Byte ensures UpperByte(c) == d <==> !('a' <= d <= 'z') && SameLetter(c, d) {
      SameLetterIs(c, d);
    }
    if NoLower(t) && SameButCase(s, t) {
      forall i | 0 <= i < |s| ensures Upper(s)[i] == t[i] {
        assert t[i] in t && SameLetter(s[i], t[i]);
      }
    }
    if Upper(s) == t {
      forall i | 0 <= i < |s| ensures UpperByte(s[i]) == t[i] {}
    }
  }
}
