/** Character-level helpers shared by the card, pile and game renderings:
    decimal numbers, and joining/splitting on a one-character separator. */
module Text {

  predicate IsDigit(ch: char) {
    '0' <= ch <= '9'
  }

  function DigitChar(d: nat): (ch: char)
    requires d < 10
    ensures IsDigit(ch)
  {
    (48 + d) as char
  }

  function DigitValue(ch: char): (d: nat)
    requires IsDigit(ch)
    ensures d < 10
  {
    ch as int - 48
  }

  /** Decimal digits of n, most significant first, with no leading zero. */
  function NatToDecimal(n: nat): (r: string)
    ensures |r| >= 1
    ensures forall i :: 0 <= i < |r| ==> IsDigit(r[i])
    ensures n > 0 ==> r[0] != '0'
  {
    if n < 10 then [DigitChar(n)] else NatToDecimal(n / 10) + [DigitChar(n % 10)]
  }

  /** Java's `value + ""` for an int: a minus sign, then the digits of the magnitude. */
  function IntToDecimal(v: int): (r: string)
    ensures |r| >= 1
    ensures forall i :: 0 <= i < |r| ==> IsDigit(r[i]) || r[i] == '-'
    ensures v > 0 ==> r[0] != '0' && r[0] != '-'
    ensures v < 0 ==> r[0] == '-'
    ensures v >= 0 ==> AllDigits(r) && DecimalValue(r) == v
    ensures v < 0 ==> AllDigits(r[1..]) && DecimalValue(r[1..]) == -v
  {
    if v < 0 then
      DecimalRoundTrip(-v);
      assert ("-" + NatToDecimal(-v))[1..] == NatToDecimal(-v);
      "-" + NatToDecimal(-v)
    else
      DecimalRoundTrip(v);
      NatToDecimal(v)
  }

  predicate AllDigits(s: string) {
    forall i :: 0 <= i < |s| ==> IsDigit(s[i])
  }

  /** Reads a string of decimal digits back as a number. */
  function DecimalValue(s: string): nat
    requires AllDigits(s)
  {
    if |s| == 0 then 0 else 10 * DecimalValue(s[..|s| - 1]) + DigitValue(s[|s| - 1])
  }

  lemma {:induction false} DecimalRoundTrip(n: nat)
    ensures DecimalValue(NatToDecimal(n)) == n
  {
    if n >= 10 {
      var s := NatToDecimal(n);
      assert s[..|s| - 1] == NatToDecimal(n / 10);
      DecimalRoundTrip(n / 10);
    }
  }

  /** pieces[0] + sep + pieces[1] + ... + sep + pieces[k]; the empty list joins to "". */
  function Join(pieces: seq<string>, sep: char): string
  {
    if |pieces| == 0 then ""
    else if |pieces| == 1 then pieces[0]
    else pieces[0] + [sep] + Join(pieces[1..], sep)
  }

  /** Index of the first occurrence of ch in s. */
  function IndexOf(s: string, ch: char): (k: nat)
    requires ch in s
    ensures k < |s| && s[k] == ch
    ensures forall i :: 0 <= i < k ==> s[i] != ch
  {
    if s[0] == ch then 0 else 1 + IndexOf(s[1..], ch)
  }

  /** Cuts s at every occurrence of sep; keeps empty pieces, so the result is never empty. */
  function Split(s: string, sep: char): (r: seq<string>)
    ensures |r| >= 1
    decreases |s|
  {
    if sep !in s then [s]
    else
      var k := IndexOf(s, sep);
      [s[..k]] + Split(s[k + 1..], sep)
  }

  /** Where the first separator of a + [sep] + b sits, and what lies on either side of it. */
  lemma SeparatorAt(a: string, sep: char, b: string)
    requires sep !in a
    ensures sep in a + [sep] + b
    ensures IndexOf(a + [sep] + b, sep) == |a|
    ensures (a + [sep] + b)[..|a|] == a
    ensures (a + [sep] + b)[|a| + 1..] == b
  {
    var s := a + [sep] + b;
    assert s[|a|] == sep;
  }

  /** Splitting undoes joining when no piece contains the separator. */
  lemma {:induction false} SplitJoin(pieces: seq<string>, sep: char)
    requires |pieces| >= 1
    requires forall i :: 0 <= i < |pieces| ==> sep !in pieces[i]
    ensures Split(Join(pieces, sep), sep) == pieces
  {
    if |pieces| > 1 {
      var head, tail := pieces[0], pieces[1..];
      var rest := Join(tail, sep);
      var s := head + [sep] + rest;
      assert Join(pieces, sep) == s;
      SeparatorAt(head, sep, rest);
      assert Split(s, sep) == [head] + Split(rest, sep);
      SplitJoin(tail, sep);
      assert pieces == [head] + tail;
    }
  }

  /** Appending one more piece adds one separator and the piece. */
  lemma {:induction false} JoinSnoc(pieces: seq<string>, p: string, sep: char)
    requires |pieces| >= 1
    ensures Join(pieces + [p], sep) == Join(pieces, sep) + [sep] + p
  {
    if |pieces| > 1 {
      assert (pieces + [p])[1..] == pieces[1..] + [p];
      JoinSnoc(pieces[1..], p, sep);
    } else {
      assert (pieces + [p])[1..] == [p];
    }
  }

  /** A joined string holds the separator only where Join put it. */
  lemma {:induction false} JoinAvoids(pieces: seq<string>, sep: char, ch: char)
    requires ch != sep
    requires forall i :: 0 <= i < |pieces| ==> ch !in pieces[i]
    ensures ch !in Join(pieces, sep)
  {
    if |pieces| > 1 {
      JoinAvoids(pieces[1..], sep, ch);
    }
  }
}
