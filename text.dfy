/**
 * The JavaScript string built-ins the handlers and the client lean on:
 * `String.prototype.trim`, `parseInt` and `String.prototype.replace` with a
 * string pattern.
 */
module Text {
  import opened Wrappers

  /** The characters `trim` removes: white space and line terminators. */
  predicate IsSpace(c: char) {
    c == '\t' || c == '\n' || c == '\U{000B}' || c == '\U{000C}' || c == '\r' || c == ' '
    || c == '\U{00A0}' || c == '\U{1680}' || ('\U{2000}' <= c <= '\U{200A}')
    || c == '\U{2028}' || c == '\U{2029}' || c == '\U{202F}' || c == '\U{205F}'
    || c == '\U{3000}' || c == '\U{FEFF}'
  }

  /** `s.trimStart()`: drops the leading white space and nothing else. */
  function TrimStart(s: string): (r: string)
    ensures |r| <= |s| && r == s[|s| - |r|..]
    ensures forall i | 0 <= i < |s| - |r| :: IsSpace(s[i])
    ensures r == "" || !IsSpace(r[0])
  {
    if s != "" && IsSpace(s[0]) then TrimStart(s[1..]) else s
  }

  /** `s.trimEnd()`: drops the trailing white space and nothing else. */
  function TrimEnd(s: string): (r: string)
    ensures |r| <= |s| && r == s[..|r|]
    ensures forall i | |r| <= i < |s| :: IsSpace(s[i])
    ensures r == "" || !IsSpace(r[|r| - 1])
  {
    if s != "" && IsSpace(s[|s| - 1]) then TrimEnd(s[..|s| - 1]) else s
  }

  /** `s.trim()`. */
  function Trim(s: string): string {
    TrimEnd(TrimStart(s))
  }

  /** `!s.trim()`: a string trims to nothing exactly when it is all white space. */
  lemma TrimBlank(s: string)
    ensures Trim(s) == "" <==> forall i | 0 <= i < |s| :: IsSpace(s[i])
  {
    var t := TrimStart(s);
    if Trim(s) != "" {
      assert t != "" && t[0] == s[|s| - |t|];
    }
    if exists i | 0 <= i < |s| :: !IsSpace(s[i]) {
      var i :| 0 <= i < |s| && !IsSpace(s[i]);
      assert i >= |s| - |t|;
      assert t[i - (|s| - |t|)] == s[i];
    }
  }

  /** A trimmed string neither starts nor ends with white space. */
  lemma TrimTrims(s: string)
    ensures Trim(s) == "" || (!IsSpace(Trim(s)[0]) && !IsSpace(Trim(s)[|Trim(s)| - 1]))
  {
    var t := TrimStart(s);
    var r := TrimEnd(t);
    if r != "" {
      assert r[0] == t[0];
    }
  }

  /** Trimming a trimmed string changes nothing. */
  lemma TrimIdempotent(s: string)
    ensures Trim(Trim(s)) == Trim(s)
  {
    TrimTrims(s);
    var t := Trim(s);
    if t != "" {
      assert TrimStart(t) == t;
      assert TrimEnd(t) == t;
    }
  }

  predicate IsDigit(c: char) {
    '0' <= c <= '9'
  }

  /** The longest prefix of `s` made of decimal digits. */
  function DigitPrefix(s: string): (d: string)
    ensures |d| <= |s| && d == s[..|d|]
    ensures forall i | 0 <= i < |d| :: IsDigit(d[i])
    ensures |d| == |s| || !IsDigit(s[|d|])
  {
    if s != "" && IsDigit(s[0]) then [s[0]] + DigitPrefix(s[1..]) else ""
  }

  /** The value of a run of decimal digits, most significant first. */
  function DecimalValue(d: string): nat
    requires forall i | 0 <= i < |d| :: IsDigit(d[i])
  {
    if d == "" then 0
    else
      assert IsDigit(d[|d| - 1]);
      DecimalValue(d[..|d| - 1]) * 10 + (d[|d| - 1] as int - '0' as int)
  }

  /**
   * `parseInt` once the white space is skipped: one sign, then the longest
   * run of decimal digits; no digit at all gives `NaN`, here `None`.
   */
  function ParseSigned(t: string): (r: Option<int>)
    ensures r.Some? ==> exists i | 0 <= i < |t| :: IsDigit(t[i])
  {
    var negative := t != "" && t[0] == '-';
    var body := if t != "" && (t[0] == '-' || t[0] == '+') then t[1..] else t;
    var d := DigitPrefix(body);
    if d == "" then None
    else
      assert d[0] == t[|t| - |body|];
      var magnitude: int := DecimalValue(d);
      Some(if negative then -magnitude else magnitude)
  }

  /** `parseInt(s)` with no radix: leading white space is skipped first. */
  function ParseInt(s: string): (r: Option<int>)
    ensures r.Some? ==> exists i | 0 <= i < |s| :: IsDigit(s[i])
  {
    var t := TrimStart(s);
    var r := ParseSigned(t);
    if r.Some? then
      var i :| 0 <= i < |t| && IsDigit(t[i]);
      assert t[i] == s[|s| - |t| + i];
      r
    else r
  }

  /**
   * An age typed into the app keeps only its digits, so `parseInt` reads all
   * of it, and its value is never negative.
   */
  lemma ParseDigits(s: string)
    requires s != "" && forall i | 0 <= i < |s| :: IsDigit(s[i])
    ensures ParseInt(s) == Some(DecimalValue(s))
  {
    assert !IsSpace(s[0]);
    assert TrimStart(s) == s;
    assert s[0] != '-' && s[0] != '+';
    DigitsArePrefix(s);
  }

  /** White space followed by something that does not start with it trims to that something. */
  lemma {:induction false} TrimStartSkips(w: string, x: string)
    requires forall i | 0 <= i < |w| :: IsSpace(w[i])
    requires x == "" || !IsSpace(x[0])
    ensures TrimStart(w + x) == x
  {
    if w != "" {
      assert (w + x)[1..] == w[1..] + x;
      TrimStartSkips(w[1..], x);
    } else {
      assert w + x == x;
    }
  }

  /** A run of digits followed by a non-digit is the whole digit prefix. */
  lemma {:induction false} DigitPrefixOf(d: string, rest: string)
    requires forall i | 0 <= i < |d| :: IsDigit(d[i])
    requires rest == "" || !IsDigit(rest[0])
    ensures DigitPrefix(d + rest) == d
  {
    if d != "" {
      assert (d + rest)[1..] == d[1..] + rest;
      DigitPrefixOf(d[1..], rest);
    } else {
      assert d + rest == rest;
    }
  }

  /** Once the white space is skipped, `parseInt` reads the rest as `ParseSigned` does. */
  lemma ParseIntSkips(w: string, x: string)
    requires forall i | 0 <= i < |w| :: IsSpace(w[i])
    requires x == "" || !IsSpace(x[0])
    ensures ParseInt(w + x) == ParseSigned(x)
  {
    TrimStartSkips(w, x);
  }

  /** Digits right at the start are read with no sign. */
  lemma UnsignedDigits(body: string, d: string)
    requires d != "" && DigitPrefix(body) == d
    ensures ParseSigned(body) == Some(DecimalValue(d))
  {
  }

  /** A sign followed by digits: the digits' value, negated after a minus. */
  lemma SignedDigits(x: string, body: string, d: string)
    requires x != "" && (x[0] == '-' || x[0] == '+') && x[1..] == body
    requires d != "" && DigitPrefix(body) == d
    ensures ParseSigned(x) == Some(if x[0] == '-' then -(DecimalValue(d) as int) else DecimalValue(d))
  {
  }

  /** A sign, or a digit when there is no sign, is not white space. */
  lemma StartsUnspaced(sign: string, x: string)
    requires sign == "" || sign == "-" || sign == "+"
    requires sign == "" ==> x != "" && IsDigit(x[0])
    ensures !IsSpace((sign + x)[0])
  {
    assert (sign + x)[0] == if sign == "" then x[0] else sign[0];
  }

  /** A sign, if any, then a run of digits ended by a non-digit. */
  lemma SignedRunReads(sign: string, d: string, rest: string)
    requires sign == "" || sign == "-" || sign == "+"
    requires d != "" && forall i | 0 <= i < |d| :: IsDigit(d[i])
    requires rest == "" || !IsDigit(rest[0])
    ensures ParseSigned(sign + (d + rest)) == Some(if sign == "-" then -(DecimalValue(d) as int) else DecimalValue(d))
  {
    var body := d + rest;
    var x := sign + body;
    DigitPrefixOf(d, rest);
    if sign == "" {
      assert x == body;
      UnsignedDigits(body, d);
    } else {
      assert x[0] == sign[0] && x[1..] == body;
      SignedDigits(x, body, d);
    }
  }

  /**
   * `parseInt` skips the leading white space, reads one sign, and takes the
   * longest run of digits after it, ignoring whatever follows: the value of
   * those digits, negated after a minus.
   */
  lemma ParseIntReads(w: string, sign: string, d: string, rest: string)
    requires forall i | 0 <= i < |w| :: IsSpace(w[i])
    requires sign == "" || sign == "-" || sign == "+"
    requires d != "" && forall i | 0 <= i < |d| :: IsDigit(d[i])
    requires rest == "" || !IsDigit(rest[0])
    ensures ParseInt(w + (sign + (d + rest))) == Some(if sign == "-" then -(DecimalValue(d) as int) else DecimalValue(d))
  {
    StartsUnspaced(sign, d + rest);
    ParseIntSkips(w, sign + (d + rest));
    SignedRunReads(sign, d, rest);
  }

  /** With no digit right after the white space and the sign, `parseInt` gives `NaN`. */
  lemma ParseIntNaN(w: string, sign: string, rest: string)
    requires forall i | 0 <= i < |w| :: IsSpace(w[i])
    requires sign == "" || sign == "-" || sign == "+"
    requires rest == "" || !IsDigit(rest[0])
    requires sign == "" ==> rest == "" || (!IsSpace(rest[0]) && rest[0] != '-' && rest[0] != '+')
    ensures ParseInt(w + (sign + rest)) == None
  {
    var x := sign + rest;
    assert x == "" || !IsSpace(x[0]);
    ParseIntSkips(w, x);
    NoDigitsAfterSign(x, sign, rest);
  }

  /** A sign, if any, and then no digit. */
  lemma NoDigitsAfterSign(x: string, sign: string, rest: string)
    requires sign == "" || sign == "-" || sign == "+"
    requires rest == "" || !IsDigit(rest[0])
    requires sign == "" ==> rest == "" || (rest[0] != '-' && rest[0] != '+')
    requires x == sign + rest
    ensures ParseSigned(x) == None
  {
    assert DigitPrefix(rest) == "";
    if sign != "" {
      assert x[0] == sign[0] && x[1..] == rest;
    } else {
      assert x == rest;
    }
  }

  lemma {:induction false} DigitsArePrefix(s: string)
    requires forall i | 0 <= i < |s| :: IsDigit(s[i])
    ensures DigitPrefix(s) == s
  {
    if s != "" {
      DigitsArePrefix(s[1..]);
    }
  }

  /**
   * `s.replace(' ', '_')`: a string pattern replaces its first occurrence
   * only, so exactly the first space becomes an underscore.
   */
  function ReplaceFirstSpace(s: string): (r: string)
    ensures |r| == |s|
    ensures forall i | 0 <= i < |s| ::
      r[i] == if s[i] == ' ' && ' ' !in s[..i] then '_' else s[i]
  {
    if s == "" then ""
    else if s[0] == ' ' then
      LeadingSpace(s);
      "_" + s[1..]
    else
      LeadingOther(s);
      [s[0]] + ReplaceFirstSpace(s[1..])
  }

  /** After a leading space, every longer prefix has a space. */
  lemma LeadingSpace(s: string)
    requires s != "" && s[0] == ' '
    ensures forall i | 1 <= i <= |s| :: ' ' in s[..i]
  {
    forall i | 1 <= i <= |s| ensures ' ' in s[..i] {
      assert s[..i][0] == ' ';
    }
  }

  /** After a leading non-space, a prefix has a space exactly when the same prefix of the tail has. */
  lemma LeadingOther(s: string)
    requires s != "" && s[0] != ' '
    ensures forall i | 1 <= i <= |s| :: (' ' in s[..i] <==> ' ' in s[1..][..i - 1])
  {
    forall i | 1 <= i <= |s| ensures ' ' in s[..i] <==> ' ' in s[1..][..i - 1] {
      assert s[..i] == [s[0]] + s[1..][..i - 1];
    }
  }

  /** In `a + " " + b` with no space in `a`, that space is the one replaced. */
  lemma ReplaceAtFirstSpace(a: string, b: string)
    requires ' ' !in a
    ensures ReplaceFirstSpace(a + " " + b) == a + "_" + b
  {
    var s, t := a + " " + b, a + "_" + b;
    var r := ReplaceFirstSpace(s);
    forall i | 0 <= i < |s| ensures r[i] == t[i] {
      if i < |a| {
        assert s[i] == a[i];
      } else if i > |a| {
        assert s[..i][|a|] == ' ';
      } else {
        assert s[..i] == a;
      }
    }
  }

  /** A string without a space is left alone. */
  lemma ReplaceWithoutSpace(s: string)
    requires ' ' !in s
    ensures ReplaceFirstSpace(s) == s
  {
    var r := ReplaceFirstSpace(s);
    forall i | 0 <= i < |s| ensures r[i] == s[i] {
      assert s[i] != ' ';
    }
  }
}
