/** The `std::istream` and `std::ostream` state the build tool depends on. */
module Streams {
  import opened Bytes
  import opened Numbers

  /** A file or string stream opened for reading. */
  class InputStream {
    const data: Text
    var pos: nat
    var eof: bool
    var fail: bool

    ghost predicate Valid() reads this { pos <= |data| }

    /** `std::ios::good()`. */
    predicate Good() reads this { !eof && !fail }

    /** The lines `GetLine` has still to deliver. */
    ghost function Rest(): seq<Text>
      requires Valid()
      reads this
    {
      if eof then [] else Split(data[pos..])
    }

    constructor (data: Text)
      ensures Valid() && Good() && pos == 0 && this.data == data
    {
      this.data, pos, eof, fail := data, 0, false, false;
    }

    /** `std::getline`: up to the next newline, which is consumed, or to the end. */
    method GetLine() returns (line: Text)
      requires Valid() && Good()
      modifies this
      ensures Valid() && (eof || Good())
      ensures [line] + Rest() == old(Rest())
    {
      ghost var rest := data[pos..];
      var start := pos;
      while pos < |data| && data[pos] != NL
        invariant start <= pos <= |data| && NL !in data[start..pos] && !eof && !fail
        decreases |data| - pos
      {
        pos := pos + 1;
      }
      line := data[start..pos];
      assert rest[0..pos - start] == line;
      if pos == |data| {
        assert rest == line;
        FindNone(rest, NL, 0);
        eof, fail := true, line == [];
      } else {
        FindIs(rest, NL, 0, pos - start);
        pos := pos + 1;
        assert rest[pos - start..] == data[pos..] && rest[..pos - start - 1] == line;
      }
    }

    /** `seekg`: clears the end flag, moves unless the stream has failed. */
    method SeekG(to: nat)
      requires Valid() && to <= |data|
      modifies this
      ensures Valid() && !eof && fail == old(fail)
      ensures pos == if fail then old(pos) else to
    {
      eof := false;
      if !fail {
        pos := to;
      }
    }

    /** `tellg`: -1 once the stream is not good, which it then marks as failed. */
    method TellG() returns (where: int)
      requires Valid()
      modifies this
      ensures Valid() && pos == old(pos) && eof == old(eof)
      ensures fail == !old(Good())
      ensures where == if old(Good()) then pos else -1
    {
      if eof {
        fail := true;
      }
      where := if fail then -1 else pos;
    }

    /** `read`: fills the front of `buffer`; a short read raises both flags. */
    method Read(buffer: array<Byte>)
      requires Valid() && Good()
      modifies this, buffer
      ensures Valid()
      ensures pos == if old(pos) + buffer.Length <= |data| then old(pos) + buffer.Length else |data|
      ensures Good() <==> old(pos) + buffer.Length <= |data|
      ensures old(pos) <= pos && buffer[..pos - old(pos)] == data[old(pos)..pos]
    {
      var k := 0;
      while k < buffer.Length && pos < |data|
        invariant Valid() && Good() && pos == old(pos) + k && k <= buffer.Length
        invariant buffer[..k] == data[old(pos)..pos]
      {
        buffer[k] := data[pos];
        k, pos := k + 1, pos + 1;
      }
      if k < buffer.Length {
        eof, fail := true, true;
      }
    }
  }

  /** A stream being written: its text and its formatting state. `base` and
      `fill` persist from one insertion to the next, `width` serves only one. */
  class OutputStream {
    var text: Text
    var base: Base
    var fill: Byte
    var width: nat

    constructor ()
      ensures text == [] && base == Dec && fill == ' ' && width == 0
    {
      text, base, fill, width := [], Dec, ' ', 0;
    }

    method Put(t: Text)
      modifies this`text, this`width
      ensures text == old(text) + Pad(t, old(width), fill) && width == 0
    {
      text, width := text + Pad(t, width, fill), 0;
    }

    method PutNat(n: nat)
      modifies this`text, this`width
      ensures text == old(text) + Pad(PrintNat(n, base), old(width), fill) && width == 0
    {
      Put(PrintNat(n, base));
    }

    /** `std::endl` is an unformatted write: it leaves a pending width alone. */
    method Endl()
      modifies this`text
      ensures text == old(text) + [NL]
    {
      text := text + [NL];
    }
  }
}
