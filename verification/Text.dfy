/** Decimal and hexadecimal printing, with the parsers that undo them. */
module Text {

  datatype Option<+T> = None | Some(value: T)

  function Digit(d: nat): char
    requires d < 16
  {
    "0123456789abcdef"[d]
  }

  function DigitValue(c: char): Option<nat> {
    if '0' <= c <= '9' then Some((c - '0') as nat)
    else if 'a' <= c <= 'f' then Some(10 + (c - 'a') as nat)
    else None
  }

  lemma DigitRoundTrip(d: nat)
    requires d < 16
    ensures DigitValue(Digit(d)) == Some(d)
  {
  }

  function Decimal(n: nat): string {
    if n < 10 then [Digit(n)] else Decimal(n / 10) + [Digit(n % 10)]
  }

  /** The %d verb for integers of either sign. */
  function DecimalInt(i: int): string {
    if i < 0 then "-" + Decimal(-i) else Decimal(i)
  }

  function ParseDecimal(s: string): Option<nat> {
    if s == [] then None
    else
      match DigitValue(s[|s| - 1])
      case None => None
      case Some(d) =>
        if d >= 10 then None
        else if |s| == 1 then Some(d)
        else
          match ParseDecimal(s[..|s| - 1])
          case None => None
          case Some(n) => Some(10 * n + d)
  }

  /** Base-10 parsing with an optional sign. */
  function ParseInt(s: string): Option<int> {
    var negative := s != [] && s[0] == '-';
    var digits := if s != [] && (s[0] == '-' || s[0] == '+') then s[1..] else s;
    match ParseDecimal(digits)
    case None => None
    case Some(n) => Some(if negative then -(n as int) else n as int)
  }

  ghost predicate AllDigits(s: string) {
    forall i :: 0 <= i < |s| ==> '0' <= s[i] <= '9'
  }

  lemma ParseAppends(s: string, n: nat, d: nat)
    requires s != [] && ParseDecimal(s) == Some(n) && d < 10
    ensures ParseDecimal(s + [Digit(d)]) == Some(10 * n + d)
  {
    DigitRoundTrip(d);
    var t := s + [Digit(d)];
    assert t[..|t| - 1] == s && t[|t| - 1] == Digit(d);
  }

  lemma {:induction false} DecimalRoundTrip(n: nat)
    ensures Decimal(n) != [] && ParseDecimal(Decimal(n)) == Some(n)
    ensures AllDigits(Decimal(n))
  {
    if n < 10 {
      DigitRoundTrip(n);
    } else {
      DecimalRoundTrip(n / 10);
      ParseAppends(Decimal(n / 10), n / 10, n % 10);
    }
  }

  /** n without its last i decimal digits. */
  ghost function Shifted(n: nat, i: nat): nat {
    if i == 0 then n else Shifted(n / 10, i - 1)
  }

  /** Base ten, most significant digit first, without leading zeros: the i-th character from the right is the i-th
      decimal digit of n. */
  lemma {:induction false} DecimalShape(n: nat)
    ensures n < 10 ==> Decimal(n) == ['0' + n as char]
    ensures n >= 10 ==> |Decimal(n)| > 1 && Decimal(n)[0] != '0'
    ensures forall i: nat :: i < |Decimal(n)| ==> Decimal(n)[|Decimal(n)| - 1 - i] == '0' + (Shifted(n, i) % 10) as char
    ensures Shifted(n, |Decimal(n)|) == 0
  {
    if n >= 10 {
      DecimalShape(n / 10);
      forall i: nat | i < |Decimal(n)| ensures Decimal(n)[|Decimal(n)| - 1 - i] == '0' + (Shifted(n, i) % 10) as char {
        if i > 0 {
          assert Decimal(n)[|Decimal(n)| - 1 - i] == Decimal(n / 10)[|Decimal(n / 10)| - 1 - (i - 1)];
        }
      }
    }
  }

  lemma ParseSigned(s: string, n: nat)
    requires s != [] && AllDigits(s) && ParseDecimal(s) == Some(n)
    ensures ParseInt(s) == Some(n) && ParseInt("-" + s) == Some(-(n as int))
  {
    assert '0' <= s[0] <= '9';
    assert ("-" + s)[1..] == s;
  }

  lemma DecimalIntRoundTrip(i: int)
    ensures ParseInt(DecimalInt(i)) == Some(i)
    ensures forall k :: 0 <= k < |DecimalInt(i)| ==> DecimalInt(i)[k] == '-' || '0' <= DecimalInt(i)[k] <= '9'
  {
    var n: nat := if i < 0 then -i else i;
    DecimalRoundTrip(n);
    ParseSigned(Decimal(n), n);
  }

  type Byte = b: int | 0 <= b < 256

  function Hex(bytes: seq<Byte>): string {
    if bytes == [] then [] else [Digit(bytes[0] / 16), Digit(bytes[0] % 16)] + Hex(bytes[1..])
  }

  function ParseHex(s: string): Option<seq<Byte>> {
    if s == [] then Some([])
    else if |s| == 1 then None
    else
      match (DigitValue(s[0]), DigitValue(s[1]), ParseHex(s[2..]))
      case (Some(h), Some(l), Some(rest)) => if h < 16 && l < 16 then Some([16 * h + l] + rest) else None
      case _ => None
  }

  lemma ParsePrepends(b: Byte, s: string, rest: seq<Byte>)
    requires ParseHex(s) == Some(rest)
    ensures ParseHex([Digit(b / 16), Digit(b % 16)] + s) == Some([b] + rest)
  {
    DigitRoundTrip(b / 16);
    DigitRoundTrip(b % 16);
    var t := [Digit(b / 16), Digit(b % 16)] + s;
    assert t[2..] == s;
    assert 16 * (b / 16) + b % 16 == b;
  }

  lemma {:induction false} HexRoundTrip(bytes: seq<Byte>)
    ensures ParseHex(Hex(bytes)) == Some(bytes)
  {
    if bytes != [] {
      HexRoundTrip(bytes[1..]);
      ParsePrepends(bytes[0], Hex(bytes[1..]), bytes[1..]);
      assert [bytes[0]] + bytes[1..] == bytes;
    }
  }

  lemma {:induction false} HexDigits(bytes: seq<Byte>)
    ensures forall i :: 0 <= i < |Hex(bytes)| ==> '0' <= Hex(bytes)[i] <= '9' || 'a' <= Hex(bytes)[i] <= 'f'
  {
    if bytes != [] {
      HexDigits(bytes[1..]);
    }
  }

  /** Two digits per byte, the high half first. */
  lemma {:induction false} HexShape(bytes: seq<Byte>, i: nat)
    requires i < |bytes|
    ensures |Hex(bytes)| == 2 * |bytes|
    ensures Hex(bytes)[2 * i] == "0123456789abcdef"[bytes[i] / 16]
    ensures Hex(bytes)[2 * i + 1] == "0123456789abcdef"[bytes[i] % 16]
  {
    if i > 0 {
      HexShape(bytes[1..], i - 1);
    } else if |bytes| > 1 {
      HexShape(bytes[1..], 0);
    }
  }

  ghost predicate Lacks(s: string, c: char) {
    forall i :: 0 <= i < |s| ==> s[i] != c
  }

  ghost function LastIndex(s: string, c: char): int {
    if s == [] || s[|s| - 1] == c then |s| - 1 else LastIndex(s[..|s| - 1], c)
  }

  ghost function FirstIndex(s: string, c: char): int {
    if s == [] || s[0] == c then 0 else 1 + FirstIndex(s[1..], c)
  }

  lemma {:induction false} LastIndexSplits(a: string, c: char, x: string)
    requires Lacks(x, c)
    ensures LastIndex(a + [c] + x, c) == |a|
  {
    var s := a + [c] + x;
    if x != [] {
      LastIndexSplits(a, c, x[..|x| - 1]);
      assert s[..|s| - 1] == a + [c] + x[..|x| - 1];
      assert s[|s| - 1] == x[|x| - 1];
    }
  }

  lemma {:induction false} FirstIndexSplits(a: string, c: char, x: string)
    requires Lacks(a, c)
    ensures FirstIndex(a + [c] + x, c) == |a|
  {
    var s := a + [c] + x;
    if a != [] {
      FirstIndexSplits(a[1..], c, x);
      assert s[1..] == a[1..] + [c] + x;
      assert s[0] == a[0];
    }
  }

  lemma SplitAt(a: string, c: char, x: string, b: string, y: string)
    requires a + [c] + x == b + [c] + y && |a| == |b|
    ensures a == b && x == y
  {
    var s := a + [c] + x;
    assert s[..|a|] == a && s[|a| + 1..] == x;
    assert s[..|b|] == b && s[|b| + 1..] == y by {
      assert s == b + [c] + y;
    }
  }

  /** Splitting at the last separator is unambiguous when the right parts lack it. */
  lemma SplitAtLast(a: string, c: char, x: string, b: string, y: string)
    requires a + [c] + x == b + [c] + y && Lacks(x, c) && Lacks(y, c)
    ensures a == b && x == y
  {
    LastIndexSplits(a, c, x);
    LastIndexSplits(b, c, y);
    SplitAt(a, c, x, b, y);
  }

  /** Splitting at the first separator is unambiguous when the left parts lack it. */
  lemma SplitAtFirst(a: string, c: char, x: string, b: string, y: string)
    requires a + [c] + x == b + [c] + y && Lacks(a, c) && Lacks(b, c)
    ensures a == b && x == y
  {
    FirstIndexSplits(a, c, x);
    FirstIndexSplits(b, c, y);
    SplitAt(a, c, x, b, y);
  }
}
