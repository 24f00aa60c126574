/** Byte-level building blocks of the strings the caches hash: ASCII labels, newline-ended
    lines, and decimal numbers, each with its reader. */
module Framing {
  import opened Options

  newtype byte = x: int | 0 <= x < 256
  type Bytes = seq<byte>

  const NUL: byte := 0
  const NEWLINE: byte := 10
  const COLON: byte := 58
  const MINUS: byte := 45

  function Ascii(s: string): Bytes {
    seq(|s|, i requires 0 <= i < |s| => (s[i] as int % 256) as byte)
  }

  // ---- labels and lines -------------------------------------------------------

  /** `s` without the label it starts with. */
  function AfterLabel(lead: Bytes, s: Bytes): Option<Bytes> {
    if |lead| <= |s| && s[..|lead|] == lead then Some(s[|lead|..]) else None
  }

  lemma AfterLabelOf(lead: Bytes, rest: Bytes)
    ensures AfterLabel(lead, lead + rest) == Some(rest)
  {
  }

  /** The part of `s` before its first `sep`, and the part after it. */
  function Cut(sep: byte, s: Bytes): Option<(Bytes, Bytes)> {
    if s == [] then None
    else if s[0] == sep then Some(([], s[1..]))
    else match Cut(sep, s[1..])
      case None => None
      case Some((a, b)) => Some(([s[0]] + a, b))
  }

  lemma {:induction false} CutAt(sep: byte, line: Bytes, rest: Bytes)
    requires sep !in line
    ensures Cut(sep, line + [sep] + rest) == Some((line, rest))
  {
    var s := line + [sep] + rest;
    if line == [] {
      assert s[1..] == rest;
    } else {
      CutAt(sep, line[1..], rest);
      assert s[1..] == line[1..] + [sep] + rest;
      assert [line[0]] + line[1..] == line;
    }
  }

  lemma {:induction false} CutNone(sep: byte, s: Bytes)
    requires sep !in s
    ensures Cut(sep, s) == None
  {
    if s == [] {
    } else {
      CutNone(sep, s[1..]);
    }
  }

  /** Cutting is joining, read backwards. */
  lemma {:induction false} CutRejoins(sep: byte, s: Bytes)
    requires Cut(sep, s).Some?
    ensures var (line, rest) := Cut(sep, s).value; sep !in line && s == line + [sep] + rest
  {
    if s[0] == sep {
    } else {
      CutRejoins(sep, s[1..]);
    }
  }

  lemma {:induction false} CutMissing(sep: byte, s: Bytes)
    requires Cut(sep, s).None?
    ensures sep !in s
  {
    if s == [] {
    } else {
      CutMissing(sep, s[1..]);
    }
  }

  lemma {:induction false} CutShrinks(sep: byte, s: Bytes)
    requires Cut(sep, s).Some?
    ensures |Cut(sep, s).value.1| < |s|
  {
    if s[0] == sep {
    } else {
      CutShrinks(sep, s[1..]);
    }
  }

  // ---- decimal numbers ----------------------------------------------------------

  /** `str(n)` */
  function Decimal(n: nat): Bytes {
    if n < 10 then [(48 + n) as byte] else Decimal(n / 10) + [(48 + n % 10) as byte]
  }

  predicate IsDigit(b: byte) { 48 <= b <= 57 }

  function DigitsValue(s: Bytes): nat
    requires forall i :: 0 <= i < |s| ==> IsDigit(s[i])
  {
    if s == [] then 0 else
      assert IsDigit(s[|s| - 1]);
      DigitsValue(s[..|s| - 1]) * 10 + (s[|s| - 1] as int - 48)
  }

  function ReadDecimal(s: Bytes): (r: Option<int>)
    ensures r.Some? ==> r.value >= 0
  {
    if s != [] && forall i :: 0 <= i < |s| ==> IsDigit(s[i]) then Some(DigitsValue(s)) else None
  }

  lemma {:induction false} DecimalReads(n: nat)
    ensures ReadDecimal(Decimal(n)) == Some(n)
  {
    var d := Decimal(n);
    if n < 10 {
      assert IsDigit(d[0]);
      assert DigitsValue(d[..|d| - 1]) == 0;
      assert DigitsValue(d) == n;
    } else {
      DecimalReads(n / 10);
      assert d[..|d| - 1] == Decimal(n / 10);
      assert forall i :: 0 <= i < |d| ==> IsDigit(d[i]);
    }
  }

  lemma DecimalDigits(n: nat, b: byte)
    requires !IsDigit(b)
    ensures b !in Decimal(n)
  {
  }

  /** `str(z)` for a possibly negative number. */
  function SignedDecimal(z: int): Bytes {
    if z < 0 then [MINUS] + Decimal(-z) else Decimal(z)
  }

  function ReadSignedDecimal(s: Bytes): Option<int> {
    if s != [] && s[0] == MINUS then
      var n := ReadDecimal(s[1..]);
      if n.None? then None else Some(0 - n.value)
    else ReadDecimal(s)
  }

  lemma SignedDecimalReads(z: int)
    ensures ReadSignedDecimal(SignedDecimal(z)) == Some(z)
    ensures NEWLINE !in SignedDecimal(z) && COLON !in SignedDecimal(z)
  {
    if z < 0 {
      DecimalReads(-z);
      DecimalDigits(-z, NEWLINE);
      DecimalDigits(-z, COLON);
      assert SignedDecimal(z)[1..] == Decimal(-z);
    } else {
      DecimalReads(z);
      DecimalDigits(z, NEWLINE);
      DecimalDigits(z, COLON);
      DecimalDigits(z, MINUS);
      assert SignedDecimal(z)[0] in SignedDecimal(z);
    }
  }
}
