/**
  The string operations the write page relies on: `String.prototype.trim`,
  `String.prototype.includes`, and the decimal rendering a template literal
  (`Note ${id}`) gives an integer.
*/
module Text {

  /**
    The characters `String.prototype.trim` strips: ECMAScript's WhiteSpace (tab,
    vertical tab, form feed, the byte order mark and the Unicode space separators)
    and LineTerminator (line feed, carriage return, line and paragraph separators).
  */
  predicate IsTrimmable(c: char) {
    || c == '\t' || c == '\n' || c == '\U{000B}' || c == '\U{000C}' || c == '\r' || c == ' '
    || c == '\U{00A0}' || c == '\U{1680}' || ('\U{2000}' <= c <= '\U{200A}')
    || c == '\U{2028}' || c == '\U{2029}' || c == '\U{202F}' || c == '\U{205F}'
    || c == '\U{3000}' || c == '\U{FEFF}'
  }

  /** Drop the leading trimmable characters. */
  function TrimStart(s: string): (r: string)
    ensures |r| <= |s| && r == s[|s| - |r|..]
    ensures forall k :: 0 <= k < |s| - |r| ==> IsTrimmable(s[k])
    ensures r == [] || !IsTrimmable(r[0])
  {
    if s != [] && IsTrimmable(s[0]) then TrimStart(s[1..]) else s
  }

  /** Drop the trailing trimmable characters. */
  function TrimEnd(s: string): (r: string)
    ensures |r| <= |s| && r == s[..|r|]
    ensures forall k :: |r| <= k < |s| ==> IsTrimmable(s[k])
    ensures r == [] || !IsTrimmable(r[|r| - 1])
  {
    if s != [] && IsTrimmable(s[|s| - 1]) then TrimEnd(s[..|s| - 1]) else s
  }

  /**
    `s.trim()`: the part of `s` left after stripping the longest trimmable prefix
    and suffix.
  */
  function Trim(s: string): (r: string)
    ensures exists i, j ::
      && 0 <= i <= j <= |s| && r == s[i..j]
      && (forall k :: 0 <= k < i ==> IsTrimmable(s[k]))
      && (forall k :: j <= k < |s| ==> IsTrimmable(s[k]))
    ensures r == [] || (!IsTrimmable(r[0]) && !IsTrimmable(r[|r| - 1]))
  {
    var t := TrimStart(s);
    var r := TrimEnd(t);
    var i := |s| - |t|;
    assert r == s[i..i + |r|];
    r
  }

  /** Trimming twice is trimming once. */
  lemma TrimIdempotent(s: string)
    ensures Trim(Trim(s)) == Trim(s)
  {
    var r := Trim(s);
    assert TrimStart(r) == r;
    assert TrimEnd(r) == r;
  }

  /** A string trims to nothing exactly when every character in it is trimmable. */
  lemma TrimEmpty(s: string)
    ensures Trim(s) == [] <==> forall k :: 0 <= k < |s| ==> IsTrimmable(s[k])
  {
    if forall k :: 0 <= k < |s| ==> IsTrimmable(s[k]) {
      var i, j :| 0 <= i <= j <= |s| && Trim(s) == s[i..j];
    }
  }

  /** `hay.includes(needle)`: `needle` occurs in `hay` at some index. */
  predicate Contains(hay: string, needle: string) {
    exists i | 0 <= i <= |hay| - |needle| :: OccursAt(hay, needle, i)
  }

  /** `needle` occurs in `hay` starting at index `i`. */
  predicate OccursAt(hay: string, needle: string, i: int) {
    0 <= i <= |hay| - |needle| && hay[i..i + |needle|] == needle
  }

  /**
    `String.prototype.length`, which counts UTF-16 code units: a character above
    U+FFFF is a surrogate pair and counts twice.
  */
  function Utf16Length(s: string): (n: nat)
    ensures |s| <= n <= 2 * |s|
    ensures n == |s| <==> forall i :: 0 <= i < |s| ==> s[i] <= '\U{FFFF}'
  {
    if s == [] then 0
    else (if s[0] > '\U{FFFF}' then 2 else 1) + Utf16Length(s[1..])
  }

  /** The length of a concatenation is the sum of the lengths. */
  lemma {:induction false} Utf16LengthAppend(a: string, b: string)
    ensures Utf16Length(a + b) == Utf16Length(a) + Utf16Length(b)
  {
    if a != [] {
      assert (a + b)[1..] == a[1..] + b;
      Utf16LengthAppend(a[1..], b);
    } else {
      assert a + b == b;
    }
  }

  /** One character outside the Basic Multilingual Plane is as long as two inside it. */
  lemma Utf16LengthPair()
    ensures Utf16Length("\U{1F4DD}") == Utf16Length("ab") == 2
  {
    assert "\U{1F4DD}"[1..] == [] && "ab"[1..] == "b" && "b"[1..] == [];
  }

  /** `Contains` means that `hay` splits around an occurrence of `needle`. */
  lemma ContainsSplit(hay: string, needle: string)
    ensures Contains(hay, needle) <==> exists pre, post :: hay == pre + needle + post
  {
    if Contains(hay, needle) {
      var i :| 0 <= i <= |hay| - |needle| && OccursAt(hay, needle, i);
      assert hay == hay[..i] + needle + hay[i + |needle|..];
    }
    if exists pre, post :: hay == pre + needle + post {
      var pre, post :| hay == pre + needle + post;
      assert hay[|pre|..|pre| + |needle|] == needle;
      assert OccursAt(hay, needle, |pre|);
    }
  }

  /** The empty string occurs in every string: `"abc".includes("")` holds. */
  lemma ContainsEmpty(hay: string)
    ensures Contains(hay, "")
  {
    assert OccursAt(hay, "", 0);
  }

  /** The decimal digit for `d`. */
  function DigitChar(d: nat): (c: char)
    requires d < 10
    ensures '0' <= c <= '9' && c as int - '0' as int == d
  {
    ['0', '1', '2', '3', '4', '5', '6', '7', '8', '9'][d]
  }

  /** The decimal digits of `n`, with no leading zero. */
  function Digits(n: nat): (r: string)
    ensures r != [] && forall k :: 0 <= k < |r| ==> '0' <= r[k] <= '9'
    ensures |r| > 1 ==> r[0] != '0'
  {
    if n < 10 then [DigitChar(n)] else Digits(n / 10) + [DigitChar(n % 10)]
  }

  /** The value of a string of decimal digits. */
  function DigitsValue(s: string): nat
    requires forall k :: 0 <= k < |s| ==> '0' <= s[k] <= '9'
  {
    if s == [] then 0 else DigitsValue(s[..|s| - 1]) * 10 + (s[|s| - 1] as int - '0' as int)
  }

  /** How JavaScript writes an integer: an optional minus sign and the digits. */
  function Decimal(n: int): string {
    if n < 0 then "-" + Digits(-n) else Digits(n)
  }

  /** Reading back the digits of `n` gives `n`. */
  lemma {:induction false} DigitsRoundTrip(n: nat)
    ensures DigitsValue(Digits(n)) == n
  {
    if n >= 10 {
      DigitsRoundTrip(n / 10);
      var d := Digits(n);
      assert d[..|d| - 1] == Digits(n / 10);
    }
  }

  /** Different integers are written differently, so the generated names `Note ${id}` never repeat. */
  lemma {:induction false} DigitsInjective(m: nat, n: nat)
    requires Digits(m) == Digits(n)
    ensures m == n
  {
    DigitsRoundTrip(m);
    DigitsRoundTrip(n);
  }

  /** Different integers are written differently, so the generated names `Note ${id}` never repeat. */
  lemma {:induction false} DecimalInjective(a: int, b: int)
    requires a != b
    ensures Decimal(a) != Decimal(b)
  {
    if a < 0 && b < 0 {
      var da, db := Digits(-a), Digits(-b);
      if da == db { DigitsInjective(-a, -b); }
      assert Decimal(a) == "-" + da && Decimal(b) == "-" + db;
      assert ("-" + da)[1..] == da && ("-" + db)[1..] == db;
    } else if a >= 0 && b >= 0 {
      if Digits(a) == Digits(b) { DigitsInjective(a, b); }
    } else if a < 0 {
      var db := Digits(b);
      assert '0' <= db[0] <= '9';
      assert Decimal(a)[0] == '-';
    } else {
      var da := Digits(a);
      assert '0' <= da[0] <= '9';
      assert Decimal(b)[0] == '-';
    }
  }
}
