/** The C library's text formatting as the watch face uses it: printf's
    `%i` conversion with a field width (space- or zero-padded) and
    `snprintf`'s bounded write into a fixed-capacity character buffer.
    Every char of a buffer stands for one byte of the C array. */
module CFormat {

  datatype Option<T> = None | Some(value: T)

  /** The terminator of a C string. */
  const NUL: char := '\0'

  predicate IsDigit(c: char) {
    '0' <= c <= '9'
  }

  predicate AllDigits(s: seq<char>) {
    forall i :: 0 <= i < |s| ==> IsDigit(s[i])
  }

  function DigitChar(d: nat): (c: char)
    requires d < 10
    ensures IsDigit(c)
  {
    ('0' as int + d) as char
  }

  function DigitValue(c: char): (d: nat)
    requires IsDigit(c)
    ensures d < 10
  {
    c as int - '0' as int
  }

  function Pow10(k: nat): (p: nat)
    ensures p >= 1
  {
    if k == 0 then 1 else 10 * Pow10(k - 1)
  }

  /** The decimal numeral of n, most significant digit first, without
      leading zeros ("0" for zero). */
  function Digits(n: nat): (r: seq<char>)
    ensures 1 <= |r| && AllDigits(r)
    ensures |r| > 1 ==> r[0] != '0'
  {
    if n < 10 then [DigitChar(n)] else Digits(n / 10) + [DigitChar(n % 10)]
  }

  /** The value of a string of decimal digits; leading zeros are allowed. */
  function DigitsValue(s: seq<char>): nat
    requires AllDigits(s)
  {
    if s == [] then 0 else 10 * DigitsValue(s[..|s| - 1]) + DigitValue(s[|s| - 1])
  }

  function Repeat(c: char, k: nat): (r: seq<char>)
    ensures |r| == k
    ensures forall i :: 0 <= i < k ==> r[i] == c
  {
    seq(k, _ => c)
  }

  /** printf's `%<width>i` (zeroPad false: spaces before the sign) or
      `%0<width>i` (zeroPad true: zeros between the sign and the digits). */
  function FormatInt(v: int, width: nat, zeroPad: bool): (r: seq<char>)
    ensures |r| >= width
  {
    var sign := if v < 0 then "-" else "";
    var digits := Digits(if v < 0 then -v else v);
    var pad := if width > |sign| + |digits| then width - (|sign| + |digits|) else 0;
    if zeroPad then sign + Repeat('0', pad) + digits else Repeat(' ', pad) + sign + digits
  }

  /** The length of v's numeral without padding: its digits and its sign. */
  function NumeralLength(v: int): nat
  {
    (if v < 0 then 1 else 0) + |Digits(if v < 0 then -v else v)|
  }

  /** An independent reader of formatted integers, in the manner of C's
      `atoi`: leading spaces are skipped, then an optional '-', then the
      remaining characters must all be decimal digits. */
  function ParseInt(s: seq<char>): Option<int>
  {
    if |s| > 0 && s[0] == ' ' then ParseInt(s[1..])
    else if |s| > 1 && s[0] == '-' && AllDigits(s[1..]) then Some(0 - DigitsValue(s[1..]) as int)
    else if |s| > 0 && AllDigits(s) then Some(DigitsValue(s))
    else None
  }

  lemma {:induction false} DigitsValueOfDigits(n: nat)
    ensures DigitsValue(Digits(n)) == n
  {
    if n >= 10 {
      var s := Digits(n);
      assert s[..|s| - 1] == Digits(n / 10);
      DigitsValueOfDigits(n / 10);
    }
  }

  lemma {:induction false} DigitsValueOfZeros(k: nat)
    ensures DigitsValue(Repeat('0', k)) == 0
  {
    if k > 0 {
      assert Repeat('0', k)[..k - 1] == Repeat('0', k - 1);
      DigitsValueOfZeros(k - 1);
    }
  }

  /** Leading zeros do not change the value of a numeral. */
  lemma {:induction false} DigitsValueLeadingZeros(k: nat, s: seq<char>)
    requires AllDigits(s)
    ensures AllDigits(Repeat('0', k) + s)
    ensures DigitsValue(Repeat('0', k) + s) == DigitsValue(s)
  {
    var t := Repeat('0', k) + s;
    if s == [] {
      assert t == Repeat('0', k);
      DigitsValueOfZeros(k);
    } else {
      assert t[..|t| - 1] == Repeat('0', k) + s[..|s| - 1];
      DigitsValueLeadingZeros(k, s[..|s| - 1]);
    }
  }

  /** A numeral of k digits or fewer is exactly a number below 10^k. */
  lemma {:induction false} DigitsLength(n: nat, k: nat)
    requires k >= 1
    ensures |Digits(n)| <= k <==> n < Pow10(k)
  {
    if n >= 10 {
      if k == 1 {
        assert |Digits(n)| == |Digits(n / 10)| + 1;
      } else {
        DigitsLength(n / 10, k - 1);
      }
    }
  }

  lemma {:induction false} ParseSkipsSpaces(k: nat, s: seq<char>)
    ensures ParseInt(Repeat(' ', k) + s) == ParseInt(s)
  {
    if k > 0 {
      assert (Repeat(' ', k) + s)[1..] == Repeat(' ', k - 1) + s;
      ParseSkipsSpaces(k - 1, s);
    } else {
      assert Repeat(' ', k) + s == s;
    }
  }

  /** The unpadded numeral of a negative number reads back. */
  lemma ParseNegative(n: nat, pad: nat)
    requires n > 0
    ensures ParseInt(['-'] + Repeat('0', pad) + Digits(n)) == Some(0 - n as int)
  {
    var body := Repeat('0', pad) + Digits(n);
    DigitsValueOfDigits(n);
    DigitsValueLeadingZeros(pad, Digits(n));
    assert (['-'] + body)[1..] == body;
    assert ['-'] + Repeat('0', pad) + Digits(n) == ['-'] + body;
  }

  lemma ParseNonNegative(n: nat, pad: nat)
    ensures ParseInt(Repeat('0', pad) + Digits(n)) == Some(n)
  {
    var body := Repeat('0', pad) + Digits(n);
    DigitsValueOfDigits(n);
    DigitsValueLeadingZeros(pad, Digits(n));
    assert body[0] == '0' || body[0] == Digits(n)[0];
  }

  /** Formatting with any width and either padding reads back as the same
      integer: the padding never changes the value shown. */
  lemma FormatIntRoundTrip(v: int, width: nat, zeroPad: bool)
    ensures ParseInt(FormatInt(v, width, zeroPad)) == Some(v)
  {
    var sign := if v < 0 then "-" else "";
    var n: nat := if v < 0 then -v else v;
    var digits := Digits(n);
    var pad := if width > |sign| + |digits| then width - (|sign| + |digits|) else 0;
    if zeroPad {
      if v < 0 {
        assert FormatInt(v, width, zeroPad) == ['-'] + Repeat('0', pad) + digits;
        ParseNegative(n, pad);
      } else {
        assert FormatInt(v, width, zeroPad) == Repeat('0', pad) + digits;
        ParseNonNegative(n, pad);
      }
    } else {
      assert FormatInt(v, width, zeroPad) == Repeat(' ', pad) + (sign + digits);
      ParseSkipsSpaces(pad, sign + digits);
      if v < 0 {
        assert sign + digits == ['-'] + Repeat('0', 0) + digits;
        ParseNegative(n, 0);
      } else {
        assert sign + digits == Repeat('0', 0) + digits;
        ParseNonNegative(n, 0);
      }
    }
  }

  /** The field width is a minimum: the result is exactly as long as the
      wider of the width and the numeral itself. */
  lemma FormatIntLength(v: int, width: nat, zeroPad: bool)
    ensures |FormatInt(v, width, zeroPad)| == if width > NumeralLength(v) then width else NumeralLength(v)
  {
  }

  /** The padding character: `%0Wi` puts zeros after the optional '-', so
      every character but the sign is a digit; `%Wi` puts spaces before the
      numeral, which follows them with its sign. */
  lemma FormatIntPadding(v: int, width: nat, zeroPad: bool)
    ensures var r := FormatInt(v, width, zeroPad);
      var lead := |r| - NumeralLength(v);
      0 <= lead < |r| &&
      (zeroPad ==> if v < 0 then r[0] == '-' && AllDigits(r[1..]) else AllDigits(r)) &&
      (!zeroPad ==> (forall i :: 0 <= i < lead ==> r[i] == ' ') &&
                    if v < 0 then r[lead] == '-' && AllDigits(r[lead + 1..]) else AllDigits(r[lead..]))
  {
    var r := FormatInt(v, width, zeroPad);
    var sign := if v < 0 then "-" else "";
    var digits := Digits(if v < 0 then -v else v);
    var pad := if width > |sign| + |digits| then width - (|sign| + |digits|) else 0;
    if zeroPad {
      assert r == sign + (Repeat('0', pad) + digits);
      DigitsValueLeadingZeros(pad, digits);
    } else {
      assert r == Repeat(' ', pad) + (sign + digits);
      assert r[pad..] == sign + digits;
    }
  }

  lemma FormatIntHasNoNul(v: int, width: nat, zeroPad: bool)
    ensures NUL !in FormatInt(v, width, zeroPad)
  {
    var s := FormatInt(v, width, zeroPad);
    forall i | 0 <= i < |s| ensures s[i] != NUL {
    }
  }

  /** What snprintf keeps of a text in a buffer of `capacity` bytes: at
      most capacity - 1 characters, the last byte being reserved for NUL. */
  function Truncate(text: seq<char>, capacity: nat): (r: seq<char>)
    requires capacity > 0
    ensures |r| < capacity && r <= text
    ensures |text| < capacity ==> r == text
    ensures |text| >= capacity ==> |r| == capacity - 1
  {
    if |text| < capacity then text else text[..capacity - 1]
  }

  /** The bytes of `buf` after `snprintf(buf, sizeof(buf), ...)` produced
      `text`: the kept prefix of the text and a NUL are written, every byte
      beyond is left as it was. With a zero size nothing is written. */
  function Snprintf(buf: seq<char>, text: seq<char>): (r: seq<char>)
    ensures |r| == |buf|
    ensures |buf| > 0 ==> NUL in r
  {
    if |buf| == 0 then buf
    else
      var kept := Truncate(text, |buf|);
      assert (kept + [NUL])[|kept|] == NUL;
      kept + [NUL] + buf[|kept| + 1..]
  }

  /** The C string held by a buffer: its bytes up to the first NUL. */
  function CString(buf: seq<char>): (r: seq<char>)
    ensures NUL !in r
    ensures r <= buf
    ensures NUL in buf ==> |r| < |buf| && buf[|r|] == NUL
  {
    if buf == [] || buf[0] == NUL then [] else [buf[0]] + CString(buf[1..])
  }

  lemma {:induction false} CStringOfTerminated(p: seq<char>, q: seq<char>)
    requires NUL !in p
    ensures CString(p + [NUL] + q) == p
  {
    if p != [] {
      assert (p + [NUL] + q)[1..] == p[1..] + [NUL] + q;
      CStringOfTerminated(p[1..], q);
    }
  }

  /** After snprintf, the buffer holds exactly the truncated text as its
      C string, whatever it held before. */
  lemma CStringOfSnprintf(buf: seq<char>, text: seq<char>)
    requires |buf| > 0 && NUL !in text
    ensures CString(Snprintf(buf, text)) == Truncate(text, |buf|)
  {
    var kept := Truncate(text, |buf|);
    assert NUL !in kept by {
      forall i | 0 <= i < |kept| ensures kept[i] != NUL {
        assert kept[i] == text[i];
      }
    }
    CStringOfTerminated(kept, buf[|kept| + 1..]);
  }

  /** Formatting the same text twice in a row leaves the buffer as once. */
  lemma SnprintfIdempotent(buf: seq<char>, text: seq<char>)
    ensures Snprintf(Snprintf(buf, text), text) == Snprintf(buf, text)
  {
  }

  /** snprintf into a C array of `buf.Length` bytes, once the format has
      produced `text`: copies the characters that fit, terminates them with
      NUL, and returns the length the whole text would have had. The text
      is copied as it is; every text the watch face writes is a formatted
      number or clock time, which holds no NUL (FormatIntHasNoNul). */
  method WriteSnprintf(buf: array<char>, text: seq<char>) returns (length: nat)
    modifies buf
    ensures length == |text|
    ensures buf[..] == Snprintf(old(buf[..]), text)
  {
    length := |text|;
    if buf.Length == 0 {
      return;
    }
    var n := if |text| < buf.Length then |text| else buf.Length - 1;
    var i := 0;
    while i < n
      invariant 0 <= i <= n
      invariant forall j :: 0 <= j < i ==> buf[j] == text[j]
      invariant forall j :: i <= j < buf.Length ==> buf[j] == old(buf[j])
    {
      buf[i] := text[i];
      i := i + 1;
    }
    buf[n] := NUL;
  }
}
