/** Strings and numbers as the C++ runtime treats them: ASCII case folding
    (the model of CharLowerW / CharLowerA), suffix tests, splitting on a
    delimiter, decimal and hexadecimal digits, std::stoi, and the
    lexicographic order of std::vector / std::basic_string. */
module Text {

  datatype Option<+T> = None | Some(value: T)

  /** A value or the message of the exception the source throws instead. */
  datatype Result<+T> = Ok(value: T) | Err(message: string)

  /** Success, or the message of the exception thrown. */
  datatype Outcome = Pass | Fail(message: string)

  type byte = b: int | 0 <= b < 0x100

  // ---------------------------------------------------------------------
  // ASCII case folding

  predicate IsUpper(c: char) { 'A' <= c <= 'Z' }

  function LowerChar(c: char): (r: char)
    ensures !IsUpper(r)
    ensures IsUpper(c) ==> r as int == c as int + 32
    ensures !IsUpper(c) ==> r == c
  {
    if IsUpper(c) then (c as int + 32) as char else c
  }

  /** The string with every ASCII capital replaced by its small letter. */
  function Lower(s: string): (r: string)
    ensures |r| == |s|
    ensures forall i :: 0 <= i < |s| ==> r[i] == LowerChar(s[i])
  {
    seq(|s|, i requires 0 <= i < |s| => LowerChar(s[i]))
  }

  predicate IsLowered(s: string) { forall i :: 0 <= i < |s| ==> !IsUpper(s[i]) }

  lemma LowerIsLowered(s: string)
    ensures IsLowered(Lower(s))
  {
  }

  /** Lowering changes nothing in a string that has no capitals. */
  lemma LowerOfLowered(s: string)
    requires IsLowered(s)
    ensures Lower(s) == s
  {
  }

  /** Folding twice is folding once. */
  lemma LowerIdempotent(s: string)
    ensures Lower(Lower(s)) == Lower(s)
  {
    LowerIsLowered(s);
    LowerOfLowered(Lower(s));
  }

  lemma LowerAppend(a: string, b: string)
    ensures Lower(a + b) == Lower(a) + Lower(b)
  {
  }

  // ---------------------------------------------------------------------
  // Suffixes

  predicate EndsWith(s: string, suffix: string)
  {
    |suffix| <= |s| && s[|s| - |suffix|..] == suffix
  }

  // ---------------------------------------------------------------------
  // Splitting on a one-character delimiter, keeping empty pieces

  /** Utils::StringSplit with a one-character delimiter. Its body is not part
      of this model; the split assumed here keeps empty pieces: every delimiter
      ends a piece, so adjacent delimiters and delimiters at either end give
      empty pieces, and the empty string is one empty piece. */
  function Split(s: string, d: char): (r: seq<string>)
    ensures |r| >= 1
    ensures forall i :: 0 <= i < |r| ==> d !in r[i]
    decreases |s|
  {
    if |s| == 0 then [""]
    else
      var tail := Split(s[1..], d);
      if s[0] == d then [""] + tail
      else [[s[0]] + tail[0]] + tail[1..]
  }

  /** The pieces glued back together with the delimiter between them. */
  function Join(parts: seq<string>, d: char): string
    requires |parts| >= 1
    decreases |parts|
  {
    if |parts| == 1 then parts[0] else parts[0] + [d] + Join(parts[1..], d)
  }

  lemma JoinThree(a: string, b: string, c: string, d: char)
    ensures Join([a, b, c], d) == a + [d] + b + [d] + c
  {
    assert [a, b, c][1..] == [b, c];
    assert [b, c][1..] == [c];
    assert Join([b, c], d) == b + [d] + c;
    AppendAssoc(a + [d], b + [d], c);
  }

  lemma JoinFour(a: string, b: string, c: string, e: string, d: char)
    ensures Join([a, b, c, e], d) == a + [d] + b + [d] + c + [d] + e
  {
    assert [a, b, c, e][1..] == [b, c, e];
    JoinThree(b, c, e, d);
    AppendAssoc(a + [d], b + [d] + c + [d], e);
    AppendAssoc(a + [d], b + [d], c + [d]);
  }

  /** Splitting loses nothing: joining the pieces gives the input back. */
  lemma {:induction false} JoinSplit(s: string, d: char)
    ensures Join(Split(s, d), d) == s
    decreases |s|
  {
    if |s| > 0 {
      var tail := Split(s[1..], d);
      JoinSplit(s[1..], d);
      if s[0] == d {
        assert ([""] + tail)[1..] == tail;
      } else if |tail| == 1 {
      } else {
        var r := [[s[0]] + tail[0]] + tail[1..];
        assert r[1..] == tail[1..];
        assert Join(tail, d) == tail[0] + [d] + Join(tail[1..], d);
        assert s == [s[0]] + s[1..];
      }
    }
  }

  /** A string without the delimiter is one piece. */
  lemma {:induction false} SplitNoDelimiter(p: string, d: char)
    requires d !in p
    ensures Split(p, d) == [p]
    decreases |p|
  {
    if |p| > 0 {
      SplitNoDelimiter(p[1..], d);
      assert [p[0]] + p[1..] == p;
    }
  }

  /** A delimiter-free prefix followed by the delimiter is the first piece. */
  lemma {:induction false} SplitAfterPiece(p: string, rest: string, d: char)
    requires d !in p
    ensures Split(p + [d] + rest, d) == [p] + Split(rest, d)
    decreases |p|
  {
    var s := p + [d] + rest;
    if |p| == 0 {
      assert s[1..] == rest;
    } else {
      assert s[1..] == p[1..] + [d] + rest;
      SplitAfterPiece(p[1..], rest, d);
      assert [p[0]] + p[1..] == p;
    }
  }

  /** Joining pieces that hold no delimiter and splitting again gives the pieces back. */
  lemma {:induction false} SplitJoin(parts: seq<string>, d: char)
    requires |parts| >= 1
    requires forall i :: 0 <= i < |parts| ==> d !in parts[i]
    ensures Split(Join(parts, d), d) == parts
    decreases |parts|
  {
    if |parts| == 1 {
      SplitNoDelimiter(parts[0], d);
    } else {
      SplitJoin(parts[1..], d);
      SplitAfterPiece(parts[0], Join(parts[1..], d), d);
      assert [parts[0]] + parts[1..] == parts;
    }
  }

  // ---------------------------------------------------------------------
  // Decimal digits

  predicate IsDigit(c: char) { '0' <= c <= '9' }

  predicate AllDigits(s: string) { forall i :: 0 <= i < |s| ==> IsDigit(s[i]) }

  function DigitValue(c: char): nat
    requires IsDigit(c)
  {
    c as int - '0' as int
  }

  function DigitChar(n: nat): (c: char)
    requires n < 10
    ensures IsDigit(c) && DigitValue(c) == n
  {
    ('0' as int + n) as char
  }

  /** The value of a string of decimal digits, most significant first. */
  function DecimalValue(s: string): nat
    requires AllDigits(s)
    decreases |s|
  {
    if |s| == 0 then 0 else DecimalValue(s[..|s| - 1]) * 10 + DigitValue(s[|s| - 1])
  }

  /** The shortest decimal numeral of n, as "{}" formats an unsigned value. */
  function Decimal(n: nat): (r: string)
    ensures |r| >= 1 && AllDigits(r)
    ensures DecimalValue(r) == n
    ensures |r| > 1 ==> r[0] != '0'
    decreases n
  {
    if n < 10 then [DigitChar(n)]
    else
      var r := Decimal(n / 10) + [DigitChar(n % 10)];
      assert r[..|r| - 1] == Decimal(n / 10);
      r
  }

  /** n in decimal, padded on the left with zeros to at least width digits
      ("{:0w}"); a number too wide for the field keeps all its digits. */
  function ZeroPad(n: nat, width: nat): (r: string)
    ensures n < Pow10(width) ==> |r| == width || (width == 0 && |r| == 1)
    decreases n + width
  {
    if n < 10 && width <= 1 then [DigitChar(n)]
    else ZeroPad(n / 10, if width == 0 then 0 else width - 1) + [DigitChar(n % 10)]
  }

  /** The padded field is a numeral that reads back as n. */
  lemma {:induction false} ZeroPadValue(n: nat, width: nat)
    ensures |ZeroPad(n, width)| >= 1 && AllDigits(ZeroPad(n, width))
    ensures DecimalValue(ZeroPad(n, width)) == n
    decreases n + width
  {
    if !(n < 10 && width <= 1) {
      var head := ZeroPad(n / 10, if width == 0 then 0 else width - 1);
      ZeroPadValue(n / 10, if width == 0 then 0 else width - 1);
      DigitAppended(head, n % 10);
      assert n == (n / 10) * 10 + n % 10;
    }
  }

  /** Appending a digit multiplies the value by ten and adds the digit. */
  lemma DigitAppended(s: string, d: nat)
    requires AllDigits(s) && d < 10
    ensures AllDigits(s + [DigitChar(d)])
    ensures DecimalValue(s + [DigitChar(d)]) == DecimalValue(s) * 10 + d
  {
    DropAppended(s, DigitChar(d));
  }

  /** A numeral below 10^k has at most k digits. */
  lemma {:induction false} DecimalLength(n: nat, k: nat)
    requires n < Pow10(k)
    ensures |Decimal(n)| <= if k == 0 then 1 else k
    decreases k
  {
    if n >= 10 {
      assert Pow10(0) == 1 && Pow10(1) == 10;
      assert k >= 2;
      DecimalLength(n / 10, k - 1);
    }
  }

  function Pow10(k: nat): (r: nat)
    ensures r >= 1
  {
    if k == 0 then 1 else 10 * Pow10(k - 1)
  }

  // ---------------------------------------------------------------------
  // std::stoi: skip isspace, optional sign, at least one digit, int range

  predicate IsSpace(c: char) { c == ' ' || '\t' <= c <= '\r' }

  function LeadingSpaceCount(s: string): (n: nat)
    ensures n <= |s|
    ensures forall i :: 0 <= i < n ==> IsSpace(s[i])
    ensures n < |s| ==> !IsSpace(s[n])
    decreases |s|
  {
    if |s| == 0 || !IsSpace(s[0]) then 0 else 1 + LeadingSpaceCount(s[1..])
  }

  function LeadingDigitCount(s: string): (n: nat)
    ensures n <= |s|
    ensures AllDigits(s[..n])
    ensures n < |s| ==> !IsDigit(s[n])
    decreases |s|
  {
    if |s| == 0 || !IsDigit(s[0]) then 0
    else
      var n := 1 + LeadingDigitCount(s[1..]);
      assert s[..n] == [s[0]] + s[1..][..n - 1];
      n
  }

  const IntMin: int := -0x8000_0000
  const IntMax: int := 0x7fff_ffff

  /** What std::stoi returns and how many characters it consumed. */
  datatype Parsed = Parsed(value: int, consumed: nat)

  /** std::stoi(s, &idx): None where it throws (no digits: invalid_argument;
      outside the range of int: out_of_range). */
  function Stoi(s: string): (r: Option<Parsed>)
    ensures r.Some? ==> 0 < r.value.consumed <= |s|
    ensures r.Some? ==> IntMin <= r.value.value <= IntMax
    ensures r.Some? ==> IsDigit(s[r.value.consumed - 1])
  {
    var w := LeadingSpaceCount(s);
    var t := s[w..];
    var sign := if |t| > 0 && (t[0] == '+' || t[0] == '-') then 1 else 0;
    var n := LeadingDigitCount(t[sign..]);
    if n == 0 then None
    else
      var magnitude: int := DecimalValue(t[sign..][..n]);
      var v: int := if sign == 1 && t[0] == '-' then -magnitude else magnitude;
      if v < IntMin || v > IntMax then None
      else
        assert IsDigit(t[sign..][..n][n - 1]);
        Some(Parsed(v, w + sign + n))
  }

  /** The what() of the exception std::stoi throws where Stoi gives None. */
  function StoiError(s: string): string
  {
    var t := s[LeadingSpaceCount(s)..];
    var sign := if |t| > 0 && (t[0] == '+' || t[0] == '-') then 1 else 0;
    if LeadingDigitCount(t[sign..]) == 0 then "invalid stoi argument" else "stoi argument out of range"
  }

  lemma {:induction false} DigitCountOfDigits(s: string)
    requires AllDigits(s)
    ensures LeadingDigitCount(s) == |s|
    decreases |s|
  {
    if |s| > 0 {
      DigitCountOfDigits(s[1..]);
    }
  }

  /** std::stoi reads a decimal numeral back completely. */
  lemma StoiDecimal(n: nat)
    requires n <= IntMax
    ensures Stoi(Decimal(n)) == Some(Parsed(n, |Decimal(n)|))
  {
    StoiDigits(Decimal(n));
  }

  /** A run of digits with no sign and no leading space is consumed whole. */
  lemma StoiDigits(s: string)
    requires |s| > 0 && AllDigits(s) && DecimalValue(s) <= IntMax
    ensures Stoi(s) == Some(Parsed(DecimalValue(s), |s|))
  {
    assert !IsSpace(s[0]) && s[0] != '+' && s[0] != '-';
    assert LeadingSpaceCount(s) == 0;
    assert s[0..] == s;
    DigitCountOfDigits(s);
    assert s[..|s|] == s;
  }

  /** A sign in front of a run of digits is consumed with it. */
  lemma StoiSignedDigits(t: string)
    requires |t| > 1 && (t[0] == '+' || t[0] == '-')
    requires AllDigits(t[1..]) && DecimalValue(t[1..]) <= IntMax
    ensures var m: int := DecimalValue(t[1..]);
      Stoi(t) == Some(Parsed(if t[0] == '-' then -m else m, |t|))
  {
    assert LeadingSpaceCount(t) == 0 by {
      assert !IsSpace(t[0]);
    }
    assert t[0..] == t;
    var digits := t[1..];
    DigitCountOfDigits(digits);
    assert digits[..|digits|] == digits;
  }

  /** Leading white space is skipped: it changes only how much is consumed. */
  lemma StoiAfterSpace(c: char, s: string)
    requires IsSpace(c)
    ensures Stoi([c] + s).Some? <==> Stoi(s).Some?
    ensures Stoi(s).Some? ==> Stoi([c] + s) == Some(Parsed(Stoi(s).value.value, Stoi(s).value.consumed + 1))
  {
    var t := [c] + s;
    assert t[1..] == s;
    var w := LeadingSpaceCount(s);
    assert LeadingSpaceCount(t) == 1 + w;
    assert t[1 + w..] == s[w..];
  }

  /** A run of digits beyond the range of int makes stoi throw. */
  lemma StoiOutOfRange(s: string)
    requires |s| > 0 && AllDigits(s) && DecimalValue(s) > IntMax
    ensures Stoi(s).None?
  {
    assert LeadingSpaceCount(s) == 0;
    assert s[0..] == s;
    DigitCountOfDigits(s);
    assert s[..|s|] == s;
  }

  // ---------------------------------------------------------------------
  // Hexadecimal digits

  predicate IsHexDigit(c: char) { '0' <= c <= '9' || 'a' <= c <= 'f' }

  /** The lowercase hexadecimal digit for d. */
  function HexDigit(d: nat): (c: char)
    requires d < 16
    ensures IsHexDigit(c) && HexDigitValue(c) == d
  {
    if d < 10 then ('0' as int + d) as char else ('a' as int + d - 10) as char
  }

  function HexDigitValue(c: char): nat
    requires IsHexDigit(c)
  {
    if '0' <= c <= '9' then c as int - '0' as int else c as int - 'a' as int + 10
  }

  function HexValue(s: string): nat
    requires forall i :: 0 <= i < |s| ==> IsHexDigit(s[i])
    decreases |s|
  {
    if |s| == 0 then 0 else HexValue(s[..|s| - 1]) * 16 + HexDigitValue(s[|s| - 1])
  }

  function Pow16(k: nat): (r: nat)
    ensures r >= 1
  {
    if k == 0 then 1 else 16 * Pow16(k - 1)
  }

  /** v as exactly width lowercase hexadecimal digits, zero-padded ("{:0wx}"). */
  function HexPad(v: nat, width: nat): (r: string)
    requires v < Pow16(width)
    ensures |r| == width
    ensures forall i :: 0 <= i < |r| ==> IsHexDigit(r[i])
    ensures HexValue(r) == v
    decreases width
  {
    if width == 0 then ""
    else
      var r := HexPad(v / 16, width - 1) + [HexDigit(v % 16)];
      assert r[..|r| - 1] == HexPad(v / 16, width - 1);
      r
  }

  // ---------------------------------------------------------------------
  // Lexicographic order (std::vector<int>::operator<, std::wstring::compare)

  predicate LexLess(a: seq<int>, b: seq<int>)
    decreases |a|
  {
    if |a| == 0 then |b| > 0
    else if |b| == 0 then false
    else if a[0] != b[0] then a[0] < b[0]
    else LexLess(a[1..], b[1..])
  }

  lemma {:induction false} LexIrreflexive(a: seq<int>)
    ensures !LexLess(a, a)
    decreases |a|
  {
    if |a| > 0 { LexIrreflexive(a[1..]); }
  }

  /** Exactly one of a < b, a == b, b < a holds. */
  lemma {:induction false} LexTrichotomy(a: seq<int>, b: seq<int>)
    ensures a == b || LexLess(a, b) || LexLess(b, a)
    ensures !(LexLess(a, b) && LexLess(b, a))
    ensures a == b ==> !LexLess(a, b)
    decreases |a|
  {
    LexIrreflexive(a);
    if |a| > 0 && |b| > 0 && a[0] == b[0] {
      LexTrichotomy(a[1..], b[1..]);
      if a[1..] == b[1..] {
        assert a == [a[0]] + a[1..] && b == [b[0]] + b[1..];
      }
    }
  }

  lemma {:induction false} LexTransitive(a: seq<int>, b: seq<int>, c: seq<int>)
    requires LexLess(a, b) && LexLess(b, c)
    ensures LexLess(a, c)
    decreases |a|
  {
    if |a| > 0 && a[0] == b[0] && b[0] == c[0] {
      LexTransitive(a[1..], b[1..], c[1..]);
    }
  }

  /** The code units of a string, compared as numbers. */
  function Codes(s: string): (r: seq<int>)
    ensures |r| == |s|
    ensures forall i :: 0 <= i < |s| ==> r[i] == s[i] as int
  {
    seq(|s|, i requires 0 <= i < |s| => s[i] as int)
  }

  lemma CodesInjective(a: string, b: string)
    requires Codes(a) == Codes(b)
    ensures a == b
  {
    assert |a| == |b|;
    forall i | 0 <= i < |a| ensures a[i] == b[i] {
      assert Codes(a)[i] == Codes(b)[i];
    }
  }

  /** std::wstring's operator<. A Dafny char is a whole code point where the
      source compares UTF-16 code units; the two orders differ only between a
      character above U+FFFF and one in U+E000..U+FFFF, which country names
      and paths here do not mix. */
  predicate StrLess(a: string, b: string) { LexLess(Codes(a), Codes(b)) }

  /** String order is a strict total order. */
  lemma StrTotal(a: string, b: string)
    ensures a == b || StrLess(a, b) || StrLess(b, a)
    ensures !(StrLess(a, b) && StrLess(b, a))
    ensures !StrLess(a, a)
  {
    LexTrichotomy(Codes(a), Codes(b));
    LexIrreflexive(Codes(a));
    if Codes(a) == Codes(b) { CodesInjective(a, b); }
  }

  lemma StrTransitive(a: string, b: string, c: string)
    requires StrLess(a, b) && StrLess(b, c)
    ensures StrLess(a, c)
  {
    LexTransitive(Codes(a), Codes(b), Codes(c));
  }

  /** A non-empty sequence is its front followed by its last element. */
  lemma SplitLast<T>(s: seq<T>)
    requires |s| > 0
    ensures s == s[..|s| - 1] + [s[|s| - 1]]
  {
  }

  /** Dropping the element just appended gives the sequence back. */
  lemma DropAppended<T>(s: seq<T>, x: T)
    ensures (s + [x])[..|s|] == s
  {
  }

  lemma AppendAssoc<T>(a: seq<T>, b: seq<T>, c: seq<T>)
    ensures a + (b + c) == (a + b) + c
  {
  }

  /** Equal sequences with equal tails have equal heads. */
  lemma AppendCancel<T>(a: seq<T>, b: seq<T>, c: seq<T>)
    requires a + c == b + c
    ensures a == b
  {
    assert a == (a + c)[..|a|];
    assert b == (b + c)[..|b|];
  }
}
