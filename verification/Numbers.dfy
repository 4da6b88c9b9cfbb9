/** How an output stream prints integers, and how decimals are read. */
module Numbers {
  import opened Bytes

  /** The `std::setbase` setting of a stream. */
  datatype Base = Oct | Dec | Hex {
    function Radix(): (r: nat)
      ensures 8 <= r <= 16
    {
      match this case Oct => 8 case Dec => 10 case Hex => 16
    }
  }

  function DigitOf(d: nat): (c: Byte)
    requires d < 16
  {
    if d < 10 then (48 + d) as char else (87 + d) as char
  }

  function PrintNat(n: nat, base: Base): (t: Text)
    ensures t != []
    decreases n
  {
    var r := base.Radix();
    if n < r then [DigitOf(n)] else PrintNat(n / r, base) + [DigitOf(n % r)]
  }

  /** Signed decimal, as `ostream << int` prints it. */
  function PrintInt(n: int): (t: Text)
    ensures t != []
  {
    if n < 0 then ['-'] + PrintNat(-n, Dec) else PrintNat(n, Dec)
  }

  // ----- reading decimals -----

  predicate IsDecimal(c: Byte) { '0' <= c <= '9' }

  /** Each digit counts ten times the one behind it. */
  function DecimalValue(t: Text): nat
    requires forall c :: c in t ==> IsDecimal(c)
  {
    if t == [] then 0
    else
      var d := t[|t| - 1];
      assert IsDecimal(d);
      10 * DecimalValue(t[..|t| - 1]) + (d as int - 48)
  }

  /** A decimal numeral; a zero in front of other digits would make it octal. */
  function ParseNat(t: Text): Option<nat> {
    if t == [] || (exists c :: c in t && !IsDecimal(c)) || (|t| > 1 && t[0] == '0') then None
    else Some(DecimalValue(t))
  }

  function ParseInt(t: Text): Option<int> {
    if t != [] && t[0] == '-' then
      match ParseNat(t[1..])
      case None => None
      case Some(n) => Some(-(n as int))
    else
      match ParseNat(t)
      case None => None
      case Some(n) => Some(n as int)
  }

  lemma {:induction false} DecimalOf(n: nat)
    ensures var t := PrintNat(n, Dec);
            && (forall c :: c in t ==> IsDecimal(c))
            && DecimalValue(t) == n
            && (n > 0 ==> t[0] != '0') && (n == 0 ==> |t| == 1)
    decreases n
  {
    if n >= 10 {
      var high, t := PrintNat(n / 10, Dec), PrintNat(n, Dec);
      DecimalOf(n / 10);
      assert t == high + [DigitOf(n % 10)] && t[..|t| - 1] == high;
      assert t[0] == high[0];
    }
  }

  /** A number printed in base `Dec` is the decimal numeral for it. */
  lemma ParsePrintNat(n: nat)
    ensures ParseNat(PrintNat(n, Dec)) == Some(n)
    ensures forall c :: c in PrintNat(n, Dec) ==> IsDecimal(c)
  {
    DecimalOf(n);
  }

  lemma ParsePrintInt(n: int)
    ensures ParseInt(PrintInt(n)) == Some(n)
    ensures forall c :: c in PrintInt(n) ==> IsDecimal(c) || c == '-'
  {
    var t := PrintInt(n);
    if n < 0 {
      ParsePrintNat(-n);
      assert t[0] == '-' && t[1..] == PrintNat(-n, Dec);
    } else {
      ParsePrintNat(n);
      assert t[0] in t;
    }
  }

  // ----- padding -----

  /** `c`, `n` times over. */
  function Repeat(c: Byte, n: nat): (t: Text)
    ensures |t| == n
  {
    seq(n, _ => c)
  }

  /** `t` right-adjusted in a field of `width`, as under `std::setw`/`setfill`. */
  function Pad(t: Text, width: nat, fill: Byte): Text {
    if |t| < width then Repeat(fill, width - |t|) + t else t
  }

  /** The two lower-case hex digits of a byte. */
  function HexPair(b: Byte): (t: Text)
    ensures |t| == 2
  {
    [DigitOf(b as int / 16), DigitOf(b as int % 16)]
  }

  /** Printing a byte in base 16, width 2, fill '0' gives its two hex digits. */
  lemma HexPairIsPadded(b: Byte)
    ensures Pad(PrintNat(b as int, Hex), 2, '0') == HexPair(b)
  {
  }
}
