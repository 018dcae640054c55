/**
 * The parts of Java's String, Integer and Boolean behaviour that the library relies on,
 * restricted to ASCII: trimming, lower-casing, substring search, splitting on a literal
 * delimiter, decimal printing and parsing, and `String.format("%04d", n)`.
 */
module Text {
  import opened Wrappers

  const IntMin: int := -0x8000_0000
  const IntMax: int := 0x7FFF_FFFF

  /** Java's `int`. */
  type int32 = x: int | -0x8000_0000 <= x <= 0x7FFF_FFFF

  /** Java's `n + 1` on an `int`: one past `Integer.MAX_VALUE` wraps around to `Integer.MIN_VALUE`. */
  function Inc32(n: int32): int32
  {
    if n as int == IntMax then IntMin as int32 else n + 1
  }

  /** The increment is two's-complement addition: it agrees with `n + 1` modulo 2^32 and stays an `int`. */
  lemma {:induction false} Inc32Wraps(n: int32)
    ensures (Inc32(n) as int - (n as int + 1)) % 0x1_0000_0000 == 0
    ensures n as int < IntMax ==> Inc32(n) as int == n as int + 1
  {
  }

  // ---------------------------------------------------------------- characters

  predicate IsDigit(c: char) { '0' <= c <= '9' }
  predicate IsUpper(c: char) { 'A' <= c <= 'Z' }
  predicate IsLower(c: char) { 'a' <= c <= 'z' }
  predicate IsLetter(c: char) { IsUpper(c) || IsLower(c) }
  predicate IsLetterOrDigit(c: char) { IsLetter(c) || IsDigit(c) }

  /** The regex class `\s` of java.util.regex: space, \t, \n, \x0B, \f, \r. */
  predicate IsRegexSpace(c: char) { c == ' ' || c == '\t' || c == '\n' || c == '\U{000B}' || c == '\U{000C}' || c == '\r' }

  /** Characters that `String.trim` removes: every code point up to U+0020. */
  predicate IsTrimmed(c: char) { c <= ' ' }

  function LowerChar(c: char): (r: char)
    ensures IsUpper(c) ==> IsLower(r)
    ensures !IsUpper(c) ==> r == c
  {
    if IsUpper(c) then (c as int + 32) as char else c
  }

  /** `String.toLowerCase`, on ASCII letters only. */
  function ToLower(s: string): (r: string)
    ensures |r| == |s|
    ensures forall i :: 0 <= i < |s| ==> r[i] == LowerChar(s[i])
  {
    seq(|s|, i requires 0 <= i < |s| => LowerChar(s[i]))
  }

  lemma {:induction false} LowerCharTrimmed(c: char)
    ensures IsTrimmed(LowerChar(c)) <==> IsTrimmed(c)
  {
  }

  lemma {:induction false} ToLowerIdempotent(s: string)
    ensures ToLower(ToLower(s)) == ToLower(s)
  {
  }

  // ---------------------------------------------------------------- trim

  function TrimStart(s: string): (r: string)
    ensures |r| <= |s| && r == s[|s| - |r|..]
    ensures forall i :: 0 <= i < |s| - |r| ==> IsTrimmed(s[i])
    ensures r != [] ==> !IsTrimmed(r[0])
  {
    if |s| > 0 && IsTrimmed(s[0]) then TrimStart(s[1..]) else s
  }

  function TrimEnd(s: string): (r: string)
    ensures |r| <= |s| && r == s[..|r|]
    ensures forall i :: |r| <= i < |s| ==> IsTrimmed(s[i])
    ensures r != [] ==> !IsTrimmed(r[|r| - 1])
  {
    if |s| > 0 && IsTrimmed(s[|s| - 1]) then TrimEnd(s[..|s| - 1]) else s
  }

  /** `String.trim`: drops every leading and trailing character up to U+0020. */
  function Trim(s: string): (r: string)
    ensures r != [] ==> !IsTrimmed(r[0]) && !IsTrimmed(r[|r| - 1])
    ensures r == [] <==> forall i :: 0 <= i < |s| ==> IsTrimmed(s[i])
  {
    TrimEnd(TrimStart(s))
  }

  /** `s == null || s.trim().isEmpty()` without the null. */
  predicate IsBlank(s: string) { Trim(s) == [] }

  lemma {:induction false} TrimToLower(s: string)
    ensures IsBlank(ToLower(s)) <==> IsBlank(s)
  {
    forall i | 0 <= i < |s| ensures IsTrimmed(ToLower(s)[i]) <==> IsTrimmed(s[i]) {
      LowerCharTrimmed(s[i]);
    }
  }

  // ---------------------------------------------------------------- substring search

  /** `s.contains(t)`. */
  predicate Contains(s: string, t: string)
  {
    exists i :: 0 <= i <= |s| && t <= s[i..]
  }

  lemma {:induction false} ContainsEmpty(s: string)
    ensures Contains(s, [])
  {
    assert [] <= s[0..];
  }

  // ---------------------------------------------------------------- split and join

  /** Every piece between delimiters, including empty ones: one more than the count of `sep`. */
  function Pieces(s: string, sep: char): (r: seq<string>)
    ensures |r| >= 1
  {
    if s == [] then [[]]
    else if s[0] == sep then [[]] + Pieces(s[1..], sep)
    else
      var p := Pieces(s[1..], sep);
      [[s[0]] + p[0]] + p[1..]
  }

  function DropTrailingEmpty(ps: seq<string>): (r: seq<string>)
    ensures |r| <= |ps| && r == ps[..|r|]
    ensures r != [] ==> r[|r| - 1] != []
    ensures forall i :: |r| <= i < |ps| ==> ps[i] == []
  {
    if ps == [] then []
    else if ps[|ps| - 1] == [] then DropTrailingEmpty(ps[..|ps| - 1])
    else ps
  }

  /**
   * `s.split(sep)` for a one-character literal delimiter, as Java computes it: a string
   * without the delimiter splits into itself (even the empty string); otherwise every piece
   * is kept except the trailing empty ones.
   */
  function Split(s: string, sep: char): seq<string>
  {
    if sep !in s then [s] else DropTrailingEmpty(Pieces(s, sep))
  }

  /** `String.join(sep, ps)`. */
  function Join(ps: seq<string>, sep: char): (r: string)
  {
    if ps == [] then []
    else if |ps| == 1 then ps[0]
    else ps[0] + [sep] + Join(ps[1..], sep)
  }

  lemma {:induction false} PiecesNoSep(p: string, sep: char)
    requires sep !in p
    ensures Pieces(p, sep) == [p]
  {
    if p != [] {
      PiecesNoSep(p[1..], sep);
      assert [p[0]] + p[1..] == p;
    }
  }

  lemma {:induction false} PiecesAfterPiece(p: string, sep: char, t: string)
    requires sep !in p
    ensures Pieces(p + [sep] + t, sep) == [p] + Pieces(t, sep)
  {
    if p == [] {
      assert p + [sep] + t == [sep] + t;
      assert ([sep] + t)[1..] == t;
    } else {
      var s := p + [sep] + t;
      assert s[0] == p[0];
      assert s[1..] == p[1..] + [sep] + t;
      PiecesAfterPiece(p[1..], sep, t);
      assert [p[0]] + p[1..] == p;
    }
  }

  lemma {:induction false} PiecesJoin(ps: seq<string>, sep: char)
    requires |ps| >= 1
    requires forall i :: 0 <= i < |ps| ==> sep !in ps[i]
    ensures Pieces(Join(ps, sep), sep) == ps
  {
    if |ps| == 1 {
      PiecesNoSep(ps[0], sep);
    } else {
      PiecesJoin(ps[1..], sep);
      PiecesAfterPiece(ps[0], sep, Join(ps[1..], sep));
      assert [ps[0]] + ps[1..] == ps;
    }
  }

  lemma {:induction false} JoinHasSep(ps: seq<string>, sep: char)
    requires |ps| >= 2
    ensures sep in Join(ps, sep)
  {
    assert Join(ps, sep)[|ps[0]|] == sep;
  }

  /** A character that is neither the delimiter nor in any piece is not in the joined text. */
  lemma {:induction false} JoinAvoids(ps: seq<string>, sep: char, c: char)
    requires c != sep
    requires forall i :: 0 <= i < |ps| ==> c !in ps[i]
    ensures c !in Join(ps, sep)
  {
    if |ps| > 1 {
      JoinAvoids(ps[1..], sep, c);
    }
  }

  /**
   * Splitting what was joined gives the pieces back, less the trailing empty ones,
   * provided no piece contains the delimiter.
   */
  lemma {:induction false} SplitJoin(ps: seq<string>, sep: char)
    requires |ps| >= 2
    requires forall i :: 0 <= i < |ps| ==> sep !in ps[i]
    ensures Split(Join(ps, sep), sep) == DropTrailingEmpty(ps)
  {
    JoinHasSep(ps, sep);
    PiecesJoin(ps, sep);
  }

  /** The round trip used by the flat-file codec: nothing is lost when the last piece is non-empty. */
  lemma {:induction false} SplitJoinExact(ps: seq<string>, sep: char)
    requires |ps| >= 1 && ps[|ps| - 1] != []
    requires forall i :: 0 <= i < |ps| ==> sep !in ps[i]
    ensures Split(Join(ps, sep), sep) == ps
  {
    if |ps| == 1 {
    } else {
      SplitJoin(ps, sep);
    }
  }

  // ---------------------------------------------------------------- decimal numbers

  function DigitChar(d: nat): (c: char)
    requires d < 10
    ensures IsDigit(c)
  {
    ('0' as int + d) as char
  }

  function DigitValue(c: char): nat
    requires IsDigit(c)
  {
    c as int - '0' as int
  }

  predicate AllDigits(s: string) { forall i :: 0 <= i < |s| ==> IsDigit(s[i]) }

  /** The value of a string of decimal digits, most significant first. */
  function DigitsValue(s: string): nat
    requires AllDigits(s)
  {
    if s == [] then 0 else DigitsValue(s[..|s| - 1]) * 10 + DigitValue(s[|s| - 1])
  }

  /** Decimal digits of `n` without leading zeros, as `Integer.toString` prints them. */
  function NatToString(n: nat): (r: string)
    ensures r != [] && AllDigits(r)
  {
    if n < 10 then [DigitChar(n)] else NatToString(n / 10) + [DigitChar(n % 10)]
  }

  /** `Integer.toString` / `String.valueOf(int)`. */
  function IntToString(n: int): (r: string)
    ensures r != [] && '|' !in r && ',' !in r
  {
    if n < 0 then "-" + NatToString(-n) else NatToString(n)
  }

  function Zeros(k: nat): (r: string)
    ensures |r| == k && AllDigits(r)
    ensures forall i :: 0 <= i < k ==> r[i] == '0'
  {
    if k == 0 then [] else "0" + Zeros(k - 1)
  }

  /** `String.format("%04d", n)`: zero-padded after the sign to a width of four. */
  function Pad4(n: int): (r: string)
  {
    if n >= 0 then
      var d := NatToString(n);
      (if |d| < 4 then Zeros(4 - |d|) else []) + d
    else
      var d := NatToString(-n);
      "-" + (if |d| < 3 then Zeros(3 - |d|) else []) + d
  }

  /** The value of a signed decimal numeral of any size: an optional sign and at least one digit. */
  function DecimalValue(s: string): Option<int>
  {
    if s == [] then None
    else if s[0] == '-' || s[0] == '+' then
      var rest := s[1..];
      if rest != [] && AllDigits(rest) then
        var v: int := DigitsValue(rest);
        Some(if s[0] == '-' then -v else v)
      else None
    else if AllDigits(s) then Some(DigitsValue(s))
    else None
  }

  /** `Integer.parseInt(s)` on ASCII digits: `None` where Java throws NumberFormatException. */
  function ParseInt(s: Option<string>): (r: Option<int32>)
    ensures r.Some? ==> s.Some? && DecimalValue(s.value) == Some(r.value as int)
    ensures s.Some? && DecimalValue(s.value).Some? && IntMin <= DecimalValue(s.value).value <= IntMax ==> r.Some?
  {
    match s
    case None => None
    case Some(t) =>
      match DecimalValue(t)
      case Some(v) => if IntMin <= v <= IntMax then Some(v as int32) else None
      case None => None
  }

  lemma {:induction false} DigitsValueAppend(s: string, c: char)
    requires AllDigits(s) && IsDigit(c)
    ensures AllDigits(s + [c]) && DigitsValue(s + [c]) == DigitsValue(s) * 10 + DigitValue(c)
  {
    assert (s + [c])[..|s + [c]| - 1] == s;
  }

  lemma {:induction false} DigitsValueLeadingZero(s: string)
    requires AllDigits(s)
    ensures AllDigits("0" + s) && DigitsValue("0" + s) == DigitsValue(s)
  {
    if s != [] {
      var s' := s[..|s| - 1];
      DigitsValueLeadingZero(s');
      assert ("0" + s)[..|"0" + s| - 1] == "0" + s';
    }
  }

  lemma {:induction false} DigitsValueZeros(k: nat, s: string)
    requires AllDigits(s)
    ensures AllDigits(Zeros(k) + s) && DigitsValue(Zeros(k) + s) == DigitsValue(s)
  {
    if k > 0 {
      DigitsValueZeros(k - 1, s);
      var t := Zeros(k - 1) + s;
      assert Zeros(k) + s == "0" + t;
      DigitsValueLeadingZero(t);
      calc {
        DigitsValue(Zeros(k) + s);
        DigitsValue("0" + t);
        DigitsValue(t);
        DigitsValue(s);
      }
    } else {
      assert Zeros(k) + s == s;
    }
  }

  lemma {:induction false} NatToStringValue(n: nat)
    ensures DigitsValue(NatToString(n)) == n
  {
    if n >= 10 {
      NatToStringValue(n / 10);
      DigitsValueAppend(NatToString(n / 10), DigitChar(n % 10));
    }
  }

  lemma {:induction false} NatToStringNoSign(n: nat)
    ensures NatToString(n)[0] != '-' && NatToString(n)[0] != '+'
  {
    assert IsDigit(NatToString(n)[0]);
  }

  /** Reading back what `Integer.toString` printed gives the number. */
  lemma {:induction false} IntToStringValue(n: int)
    ensures DecimalValue(IntToString(n)) == Some(n)
  {
    if n < 0 {
      var s := IntToString(n);
      assert s[1..] == NatToString(-n);
      NatToStringValue(-n);
    } else {
      NatToStringNoSign(n);
      NatToStringValue(n);
    }
  }

  lemma {:induction false} ParseIntToString(n: int32)
    ensures ParseInt(Some(IntToString(n))) == Some(n)
  {
    IntToStringValue(n);
  }

  lemma {:induction false} DecimalValueDigits(x: string)
    requires x != [] && AllDigits(x)
    ensures DecimalValue(x) == Some(DigitsValue(x))
  {
    assert IsDigit(x[0]);
  }

  lemma {:induction false} DecimalValueNegative(x: string)
    requires x != [] && AllDigits(x)
    ensures DecimalValue("-" + x) == Some(0 - DigitsValue(x))
  {
    assert ("-" + x)[1..] == x;
  }

  /** `%04d` loses nothing: its text reads back as the number, for every integer. */
  lemma {:induction false} Pad4Value(n: int)
    ensures DecimalValue(Pad4(n)) == Some(n)
  {
    if n >= 0 {
      Pad4ValueNatural(n);
    } else {
      Pad4ValueNegative(n);
    }
  }

  lemma {:induction false} Pad4ValueNatural(n: int)
    requires n >= 0
    ensures DecimalValue(Pad4(n)) == Some(n)
  {
    var d := NatToString(n);
    var k: nat := if |d| < 4 then 4 - |d| else 0;
    var x := Zeros(k) + d;
    assert x != [] && AllDigits(x) && DigitsValue(x) == n by {
      NatToStringValue(n);
      DigitsValueZeros(k, d);
    }
    assert Pad4(n) == x;
    DecimalValueDigits(x);
  }

  lemma {:induction false} Pad4ValueNegative(n: int)
    requires n < 0
    ensures DecimalValue(Pad4(n)) == Some(n)
  {
    var d := NatToString(-n);
    var k: nat := if |d| < 3 then 3 - |d| else 0;
    var x := Zeros(k) + d;
    assert x != [] && AllDigits(x) && DigitsValue(x) == -n by {
      NatToStringValue(-n);
      DigitsValueZeros(k, d);
    }
    assert Pad4(n) == "-" + x;
    DecimalValueNegative(x);
  }


  lemma {:induction false} Pad4Injective(m: int, n: int)
    ensures Pad4(m) == Pad4(n) ==> m == n
  {
    Pad4Value(m);
    Pad4Value(n);
  }

  lemma {:induction false} Pad4Width(n: int)
    ensures |Pad4(n)| >= 4
    ensures 0 <= n < 10000 ==> |Pad4(n)| == 4
  {
    if 0 <= n < 10000 {
      NatToStringLength(n);
    }
  }

  lemma {:induction false} NatToStringLength(n: nat)
    ensures n < 10000 ==> |NatToString(n)| <= 4
    ensures n < 1000 ==> |NatToString(n)| <= 3
    ensures n < 100 ==> |NatToString(n)| <= 2
  {
    if n >= 10 {
      NatToStringLength(n / 10);
    }
  }

  // ---------------------------------------------------------------- booleans and dates

  /** `String.valueOf(boolean)`. */
  function BoolToString(b: bool): string { if b then "true" else "false" }

  /** `Boolean.parseBoolean`: "true" in any letter case, everything else (never an error) false. */
  function ParseBoolean(s: string): (b: bool)
    ensures b <==> |s| == 4 && ToLower(s) == "true"
  {
    ToLower(s) == "true"
  }

  lemma {:induction false} ParseBooleanToString(b: bool)
    ensures ParseBoolean(BoolToString(b)) == b
  {
    if !b {
      assert ToLower("false") != "true" by { assert |ToLower("false")| == 5; }
    }
  }

  /**
   * Dates are day numbers. Their text form, standing for ISO `yyyy-MM-dd`, is the signed
   * decimal of the day number; parsing is its inverse and rejects every other text.
   */
  function DateToString(d: int): (r: string)
    ensures r != [] && '|' !in r && ',' !in r
  {
    IntToString(d)
  }

  function ParseDate(s: string): Option<int>
  {
    DecimalValue(s)
  }

  lemma {:induction false} ParseDateToString(d: int)
    ensures ParseDate(DateToString(d)) == Some(d)
  {
    IntToStringValue(d);
  }
}
