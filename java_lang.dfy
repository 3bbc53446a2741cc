/** The few pieces of the Java standard library the validation core relies on:
    32- and 64-bit integers, `Integer.toString`, `Integer.valueOf`, `Pattern.split`
    on a one-character literal pattern, and `String.trim`. */
module JavaLang {
  import opened Wrappers

  newtype int32 = x: int | -0x8000_0000 <= x < 0x8000_0000
  newtype int64 = x: int | -0x8000_0000_0000_0000 <= x < 0x8000_0000_0000_0000

  predicate InInt32Range(n: int) {
    -0x8000_0000 <= n < 0x8000_0000
  }

  // ---------------------------------------------------------------------------
  // Decimal digits

  /** `\d` in a Java regular expression (without UNICODE_CHARACTER_CLASS). */
  predicate IsDigit(c: char) {
    '0' <= c <= '9'
  }

  predicate AllDigits(s: string) {
    forall i :: 0 <= i < |s| ==> IsDigit(s[i])
  }

  function DigitChar(d: nat): (c: char)
    requires d < 10
    ensures IsDigit(c) && (c as int) - ('0' as int) == d
  {
    (('0' as int) + d) as char
  }

  function DigitValue(c: char): nat
    requires IsDigit(c)
  {
    (c as int) - ('0' as int)
  }

  /** The number a run of decimal digits denotes (leading zeros allowed). */
  function DigitsValue(s: string): nat
    requires AllDigits(s)
  {
    if |s| == 0 then 0 else DigitsValue(s[..|s| - 1]) * 10 + DigitValue(s[|s| - 1])
  }

  /** The digits of a natural number, most significant first, without leading zeros. */
  function NaturalDigits(n: nat): (s: string)
    ensures |s| > 0 && AllDigits(s)
    ensures s[0] != '0' || n == 0
    ensures n == 0 ==> s == "0"
  {
    if n < 10 then [DigitChar(n)] else NaturalDigits(n / 10) + [DigitChar(n % 10)]
  }

  /** `Integer.toString`, `Long.toString` and `BigInteger.toString` in base 10. */
  function DecimalString(n: int): (s: string)
    ensures |s| > 0
    ensures n < 0 <==> s[0] == '-'
    ensures n >= 0 ==> AllDigits(s) && (s[0] != '0' || s == "0")
    ensures n < 0 ==> |s| >= 2 && AllDigits(s[1..]) && s[1] != '0'
  {
    if n < 0 then "-" + NaturalDigits(-n) else NaturalDigits(n)
  }

  lemma {:induction false} NaturalDigitsValue(n: nat)
    ensures DigitsValue(NaturalDigits(n)) == n
  {
    if n >= 10 {
      NaturalDigitsValue(n / 10);
      var s := NaturalDigits(n);
      assert s[..|s| - 1] == NaturalDigits(n / 10);
    }
  }

  /** `Integer.valueOf(s)` (radix 10): an optional sign, then at least one digit, and the value
      must fit in 32 bits; anything else raises NumberFormatException, modelled as `None`. */
  function ParseInt32(s: string): (r: Option<int32>)
    ensures r.Some? ==> |s| > 0
  {
    if |s| == 0 then None
    else
      var negative := s[0] == '-';
      var body := if s[0] == '-' || s[0] == '+' then s[1..] else s;
      if |body| == 0 || !AllDigits(body) then None
      else
        var v: int := if negative then 0 - DigitsValue(body) else DigitsValue(body);
        if InInt32Range(v) then Some(v as int32) else None
  }

  /** Rendering a 32-bit integer in decimal and reading it back with `Integer.valueOf`
      gives the same integer. */
  lemma DecimalRoundTrip(n: int32)
    ensures ParseInt32(DecimalString(n as int)) == Some(n)
  {
    var m: nat := if n < 0 then -(n as int) else n as int;
    NaturalDigitsValue(m);
    if n < 0 {
      assert DecimalString(n as int)[1..] == NaturalDigits(m);
    }
  }

  // ---------------------------------------------------------------------------
  // Pattern.split(input) with limit 0, for a pattern that matches one literal character

  /** The pieces between the occurrences of `sep`, all of them, including empty ones. */
  function Pieces(s: string, sep: char): (r: seq<string>)
    ensures |r| > 0
  {
    if |s| == 0 then [""]
    else
      var rest := Pieces(s[1..], sep);
      if s[0] == sep then [""] + rest else [[s[0]] + rest[0]] + rest[1..]
  }

  /** Split with limit 0 drops the empty strings at the end of the result. */
  function DropTrailingEmpty(parts: seq<string>): (r: seq<string>)
    ensures |r| <= |parts| && r == parts[..|r|]
    ensures |r| > 0 ==> r[|r| - 1] != ""
    ensures forall i :: |r| <= i < |parts| ==> parts[i] == ""
  {
    if |parts| > 0 && parts[|parts| - 1] == "" then DropTrailingEmpty(parts[..|parts| - 1]) else parts
  }

  /** `Pattern.compile(quote(sep)).split(s)`: the input itself when `sep` does not occur,
      otherwise the pieces between separators without the trailing empty ones. */
  function Split(s: string, sep: char): seq<string> {
    if sep !in s then [s] else DropTrailingEmpty(Pieces(s, sep))
  }

  /** No piece contains the separator, and joining the pieces with it gives back the input. */
  lemma {:induction false} PiecesJoin(s: string, sep: char)
    ensures forall i :: 0 <= i < |Pieces(s, sep)| ==> sep !in Pieces(s, sep)[i]
    ensures JoinWith(Pieces(s, sep), [sep]) == s
  {
    if |s| > 0 {
      PiecesJoin(s[1..], sep);
      var rest := Pieces(s[1..], sep);
      if s[0] == sep {
        assert Pieces(s, sep) == [""] + rest;
        JoinWithCons("", rest, [sep]);
        assert JoinWith(Pieces(s, sep), [sep]) == [sep] + s[1..];
      } else {
        var r := Pieces(s, sep);
        assert r == [[s[0]] + rest[0]] + rest[1..];
        JoinWithConsHead(rest, [s[0]], [sep]);
        assert JoinWith(r, [sep]) == [s[0]] + s[1..];
        forall i | 0 <= i < |r| ensures sep !in r[i] {
          if i > 0 { assert r[i] == rest[i]; }
        }
      }
    } else {
      assert Pieces(s, sep) == [""];
    }
  }

  /** Joining strings that contain no separator and splitting again gives back the strings. */
  lemma {:induction false} PiecesOfJoin(parts: seq<string>, sep: char)
    requires |parts| > 0
    requires forall i :: 0 <= i < |parts| ==> sep !in parts[i]
    ensures Pieces(JoinWith(parts, [sep]), sep) == parts
  {
    if |parts| == 1 {
      PiecesOfPlain(parts[0], sep);
    } else {
      PiecesOfJoin(parts[1..], sep);
      JoinWithCons(parts[0], parts[1..], [sep]);
      assert parts == [parts[0]] + parts[1..];
      PiecesPrefix(parts[0], JoinWith(parts[1..], [sep]), sep);
    }
  }

  lemma {:induction false} PiecesOfPlain(s: string, sep: char)
    requires sep !in s
    ensures Pieces(s, sep) == [s]
  {
    if |s| > 0 {
      PiecesOfPlain(s[1..], sep);
      assert [s[0]] + s[1..] == s;
    }
  }

  /** A separator-free prefix followed by a separator becomes the first piece. */
  lemma {:induction false} PiecesPrefix(a: string, b: string, sep: char)
    requires sep !in a
    ensures Pieces(a + [sep] + b, sep) == [a] + Pieces(b, sep)
  {
    if |a| == 0 {
      assert a + [sep] + b == [sep] + b;
      assert ([sep] + b)[1..] == b;
    } else {
      PiecesPrefix(a[1..], b, sep);
      assert (a + [sep] + b)[1..] == a[1..] + [sep] + b;
      assert [a[0]] + a[1..] == a;
    }
  }

  /** `String.join(sep, parts)`. */
  function JoinWith(parts: seq<string>, sep: string): string {
    if |parts| == 0 then ""
    else if |parts| == 1 then parts[0]
    else parts[0] + sep + JoinWith(parts[1..], sep)
  }

  lemma JoinWithCons(head: string, tail: seq<string>, sep: string)
    requires |tail| > 0
    ensures JoinWith([head] + tail, sep) == head + sep + JoinWith(tail, sep)
  {
    assert ([head] + tail)[1..] == tail;
  }

  lemma JoinWithConsHead(parts: seq<string>, prefix: string, sep: string)
    requires |parts| > 0
    ensures JoinWith([prefix + parts[0]] + parts[1..], sep) == prefix + JoinWith(parts, sep)
  {
    var q := [prefix + parts[0]] + parts[1..];
    if |parts| > 1 {
      assert q[1..] == parts[1..];
    }
  }

  /** Joining two non-empty runs of strings: the separator appears once between them. */
  lemma {:induction false} JoinWithAppend(a: seq<string>, b: seq<string>, sep: string)
    requires |a| > 0 && |b| > 0
    ensures JoinWith(a + b, sep) == JoinWith(a, sep) + sep + JoinWith(b, sep)
  {
    if |a| == 1 {
      JoinWithCons(a[0], b, sep);
      assert [a[0]] + b == a + b;
    } else {
      JoinWithAppend(a[1..], b, sep);
      assert (a + b)[1..] == a[1..] + b;
      JoinWithCons(a[0], a[1..] + b, sep);
      assert [a[0]] + (a[1..] + b) == a + b;
    }
  }

  /** `s.replace(String.valueOf(c), "")`. */
  function RemoveAll(s: string, c: char): (r: string)
    ensures c !in r
    ensures |r| <= |s|
  {
    if |s| == 0 then ""
    else if s[0] == c then RemoveAll(s[1..], c)
    else [s[0]] + RemoveAll(s[1..], c)
  }

  lemma {:induction false} RemoveAllAbsent(s: string, c: char)
    requires c !in s
    ensures RemoveAll(s, c) == s
  {
    if |s| > 0 {
      RemoveAllAbsent(s[1..], c);
      assert [s[0]] + s[1..] == s;
    }
  }

  // ---------------------------------------------------------------------------
  // String.trim()

  /** `trim` strips every character whose code is at most that of the space character. */
  predicate IsTrimmed(c: char) {
    c <= ' '
  }

  function TrimStart(s: string): (r: string)
    ensures |r| <= |s| && r == s[|s| - |r|..]
    ensures |r| > 0 ==> !IsTrimmed(r[0])
    ensures forall i :: 0 <= i < |s| - |r| ==> IsTrimmed(s[i])
  {
    if |s| > 0 && IsTrimmed(s[0]) then TrimStart(s[1..]) else s
  }

  function TrimEnd(s: string): (r: string)
    ensures |r| <= |s| && r == s[..|r|]
    ensures |r| > 0 ==> !IsTrimmed(r[|r| - 1])
    ensures forall i :: |r| <= i < |s| ==> IsTrimmed(s[i])
  {
    if |s| > 0 && IsTrimmed(s[|s| - 1]) then TrimEnd(s[..|s| - 1]) else s
  }

  /** `String.trim()`. */
  function Trim(s: string): string {
    TrimEnd(TrimStart(s))
  }

  /** A string trims to the empty string exactly when all its characters are blanks. */
  lemma TrimEmptyIffBlank(s: string)
    ensures Trim(s) == "" <==> forall i :: 0 <= i < |s| ==> IsTrimmed(s[i])
  {
  }

  /** Line terminators, which `.` in a Java regular expression does not match. */
  predicate IsLineTerminator(c: char) {
    c == '\n' || c == '\r' || c == '\U{0085}' || c == '\U{2028}' || c == '\U{2029}'
  }
}
