/** `esPuertoValido`: the check `main` applies to its port argument before
    opening any socket. The string is handed to `strtol` in base 10 through
    `c_str()`, so the model first cuts it at its first NUL byte, then follows
    `strtol` as section 7.22.1.4 of the C11 standard describes it for a
    64-bit `long`. Strings are byte strings: one `char` per byte. */
module PortValidation {

  const LongMax: int := 0x7FFF_FFFF_FFFF_FFFF
  const LongMin: int := -0x8000_0000_0000_0000
  const PortMax: int := 65535

  /** `isspace` in the C locale: space, \t, \n, \v, \f, \r. */
  predicate IsSpace(c: char)
  {
    c == ' ' || '\t' <= c <= '\r'
  }

  predicate IsDigit(c: char)
  {
    '0' <= c <= '9'
  }

  predicate AllDigits(d: string)
  {
    forall k :: 0 <= k < |d| ==> IsDigit(d[k])
  }

  /** What a C routine sees of s through `c_str()`: everything before the
      first NUL byte. */
  function CString(s: string): (c: string)
    ensures |c| <= |s| && c == s[..|c|]
    ensures forall k :: 0 <= k < |c| ==> c[k] != '\0'
    ensures |c| < |s| ==> s[|c|] == '\0'
  {
    if s == [] || s[0] == '\0' then [] else [s[0]] + CString(s[1..])
  }

  /** The number of whitespace characters at the front of s. */
  function LeadingSpaces(s: string): (n: nat)
    ensures n <= |s|
    ensures forall k :: 0 <= k < n ==> IsSpace(s[k])
    ensures n < |s| ==> !IsSpace(s[n])
  {
    if s != [] && IsSpace(s[0]) then 1 + LeadingSpaces(s[1..]) else 0
  }

  /** The number of decimal digits at the front of s. */
  function LeadingDigits(s: string): (n: nat)
    ensures n <= |s|
    ensures AllDigits(s[..n])
    ensures n < |s| ==> !IsDigit(s[n])
  {
    if s != [] && IsDigit(s[0]) then 1 + LeadingDigits(s[1..]) else 0
  }

  /** The value of a run of decimal digits, most significant first. */
  function DecimalValue(d: string): nat
    requires AllDigits(d)
  {
    if d == [] then 0
    else 10 * DecimalValue(d[..|d| - 1]) + (d[|d| - 1] as int - '0' as int)
  }

  /** What `strtol(c, &end, 10)` produces for a NUL-free string c: the value,
      how many characters `end` lies past the start, and whether `errno` was
      set to ERANGE. With no digits after the optional whitespace and sign,
      nothing is consumed and the value is 0; an out-of-range value is
      clamped to LONG_MAX or LONG_MIN. */
  datatype Conversion = Conversion(value: int, end: nat, rangeError: bool)

  function Strtol(c: string): (r: Conversion)
    ensures r.end <= |c|
    ensures LongMin <= r.value <= LongMax
    ensures r.end == 0 ==> r.value == 0 && !r.rangeError
  {
    var i := LeadingSpaces(c);
    var signed := i < |c| && (c[i] == '+' || c[i] == '-');
    var j := if signed then i + 1 else i;
    var n := LeadingDigits(c[j..]);
    if n == 0 then Conversion(0, 0, false)
    else
      var magnitude: int := DecimalValue(c[j..][..n]);
      var v := if signed && c[i] == '-' then -magnitude else magnitude;
      if v > LongMax then Conversion(LongMax, j + n, true)
      else if v < LongMin then Conversion(LongMin, j + n, true)
      else Conversion(v, j + n, false)
  }

  /** `esPuertoValido`: rejected when errno is set, when `*endptr` is not the
      terminating NUL, when nothing was consumed, or when the value is outside
      1..65535. */
  predicate IsValidPort(s: string)
  {
    var c := CString(s);
    var r := Strtol(c);
    !(r.rangeError || r.end != |c| || r.end == 0 || r.value <= 0 || r.value > PortMax)
  }

  // An independent description of the accepted strings.

  predicate AllSpace(t: string)
  {
    forall k :: 0 <= k < |t| ==> IsSpace(t[k])
  }

  /** A non-empty run of digits whose value is a port number. */
  predicate PortNumeral(d: string)
  {
    d != [] && AllDigits(d) && 1 <= DecimalValue(d) <= PortMax
  }

  /** A port numeral, possibly preceded by '+'. */
  predicate SignedNumeral(t: string)
  {
    PortNumeral(t) || (t != [] && t[0] == '+' && PortNumeral(t[1..]))
  }

  /** Some whitespace, an optional '+', then a port numeral, and nothing else. */
  ghost predicate PortText(c: string)
  {
    exists i :: 0 <= i <= |c| && AllSpace(c[..i]) && SignedNumeral(c[i..])
  }

  lemma {:induction false} LeadingDigitsOfDigits(d: string)
    requires AllDigits(d)
    ensures LeadingDigits(d) == |d|
    decreases |d|
  {
    if d != [] {
      LeadingDigitsOfDigits(d[1..]);
    }
  }

  lemma {:induction false} CStringOfNulFree(s: string)
    requires forall k :: 0 <= k < |s| ==> s[k] != '\0'
    ensures CString(s) == s
    decreases |s|
  {
    if s != [] {
      CStringOfNulFree(s[1..]);
    }
  }

  lemma {:induction false} LeadingSpacesExact(c: string, i: nat)
    requires i <= |c|
    requires forall k :: 0 <= k < i ==> IsSpace(c[k])
    requires i < |c| ==> !IsSpace(c[i])
    ensures LeadingSpaces(c) == i
    decreases i
  {
    if i > 0 {
      LeadingSpacesExact(c[1..], i - 1);
    }
  }

  /** A NUL-free string that is whitespace, an optional '+' and a run of
      digits converts to the value of those digits, consuming everything. */
  lemma StrtolOfNumeral(c: string, i: nat)
    requires i <= |c| && AllSpace(c[..i])
    requires SignedNumeral(c[i..])
    ensures i < |c|
    ensures var j := if c[i] == '+' then i + 1 else i;
      Strtol(c) == Conversion(DecimalValue(c[j..]), |c|, false)
  {
    var t := c[i..];
    assert c[i] == t[0];
    var j := if c[i] == '+' then i + 1 else i;
    assert PortNumeral(c[j..]) by {
      assert c[j..] == if c[i] == '+' then t[1..] else t;
    }
    assert LeadingSpaces(c) == i by {
      assert forall k :: 0 <= k < i ==> IsSpace(c[..i][k]);
      LeadingSpacesExact(c, i);
    }
    StrtolOfDigits(c, i, j);
  }

  /** With the whitespace counted, and an optional '+' followed by nothing
      but digits, `strtol` consumes everything. */
  lemma StrtolOfDigits(c: string, i: nat, j: nat)
    requires LeadingSpaces(c) == i && i < |c|
    requires (c[i] == '+' && j == i + 1) || (IsDigit(c[i]) && j == i)
    requires j < |c| && AllDigits(c[j..]) && DecimalValue(c[j..]) <= LongMax
    ensures Strtol(c) == Conversion(DecimalValue(c[j..]), |c|, false)
  {
    var d := c[j..];
    LeadingDigitsOfDigits(d);
    assert d[..|d|] == d;
    assert (c[i] == '+' || c[i] == '-') <==> j == i + 1;
    assert c[i] != '-';
  }

  /** The port check accepts exactly the strings whose part before the first
      NUL is whitespace, an optional '+' and a decimal numeral in 1..65535:
      so the empty string, trailing non-digits, a '-' sign, 0 and anything
      above 65535 are all rejected. */
  lemma PortCharacterisation(s: string)
    ensures IsValidPort(s) <==> PortText(CString(s))
  {
    if IsValidPort(s) {
      ValidIsPortText(s);
    }
    if PortText(CString(s)) {
      var c := CString(s);
      var i :| 0 <= i <= |c| && AllSpace(c[..i]) && SignedNumeral(c[i..]);
      StrtolOfNumeral(c, i);
      assert c[i..][0] == c[i];
      assert PortNumeral(c[i..]) || PortNumeral(c[i..][1..]);
      if c[i] == '+' {
        assert c[i + 1..] == c[i..][1..];
      }
    }
  }

  lemma ValidIsPortText(s: string)
    requires IsValidPort(s)
    ensures PortText(CString(s))
  {
    var c := CString(s);
    var i := LeadingSpaces(c);
    var signed := i < |c| && (c[i] == '+' || c[i] == '-');
    var j := if signed then i + 1 else i;
    var n := LeadingDigits(c[j..]);
    assert n > 0 && j + n == |c|;
    assert c[j..][..n] == c[j..];
    assert AllSpace(c[..i]);
    var t := c[i..];
    assert t[0] == c[i];
    if signed {
      assert c[i] == '+';
      assert t[1..] == c[j..];
    } else {
      assert t == c[j..];
    }
    assert SignedNumeral(t);
  }

  /** A string of nothing but digits is a valid port exactly when its value
      lies in 1..65535. */
  lemma DigitsValidIffInRange(d: string)
    requires d != [] && AllDigits(d)
    ensures IsValidPort(d) <==> 1 <= DecimalValue(d) <= PortMax
  {
    CStringOfNulFree(d);
    assert !IsSpace(d[0]) && !(d[0] == '+' || d[0] == '-');
    assert LeadingSpaces(d) == 0;
    LeadingDigitsOfDigits(d);
    assert d[0..][..|d|] == d;
  }

  /** An accepted string ends, before any NUL, in a decimal digit. */
  lemma ValidEndsInDigit(s: string)
    requires IsValidPort(s)
    ensures CString(s) != [] && IsDigit(CString(s)[|CString(s)| - 1])
  {
    var c := CString(s);
    ValidIsPortText(s);
    var i :| 0 <= i <= |c| && AllSpace(c[..i]) && SignedNumeral(c[i..]);
    var t := c[i..];
    assert t[|t| - 1] == c[|c| - 1];
    if !PortNumeral(t) {
      assert t[1..][|t| - 2] == t[|t| - 1];
    }
  }

  /** A NUL-free string made of whitespace and a signed port numeral passes. */
  lemma NumeralAccepted(t: string, i: nat)
    requires forall k :: 0 <= k < |t| ==> t[k] != '\0'
    requires i <= |t| && AllSpace(t[..i]) && SignedNumeral(t[i..])
    ensures IsValidPort(t)
  {
    CStringOfNulFree(t);
    PortCharacterisation(t);
  }

  /** Leading whitespace and a '+' sign in front of a port numeral are
      tolerated. */
  lemma PrefixTolerated(ws: string, d: string)
    requires AllSpace(ws) && PortNumeral(d)
    ensures IsValidPort(ws + d) && IsValidPort(ws + "+" + d)
  {
    var t, u := ws + d, ws + "+" + d;
    assert t[..|ws|] == ws && t[|ws|..] == d;
    assert u[..|ws|] == ws && u[|ws|..][1..] == d;
    assert forall k :: 0 <= k < |t| ==> t[k] != '\0' by {
      forall k | 0 <= k < |t|
        ensures t[k] != '\0'
      {
        if k >= |ws| {
          assert t[k] == d[k - |ws|];
        }
      }
    }
    NumeralAccepted(t, |ws|);
    assert forall k :: 0 <= k < |u| ==> u[k] != '\0' by {
      forall k | 0 <= k < |u|
        ensures u[k] != '\0'
      {
        if k > |ws| {
          assert u[k] == d[k - |ws| - 1];
        }
      }
    }
    NumeralAccepted(u, |ws|);
  }

  /** The empty string, 0 and 65536 are refused. */
  lemma RejectedExamples()
    ensures !IsValidPort("") && !IsValidPort("0") && !IsValidPort("65536")
  {
    assert !IsValidPort("0") by {
      DigitsValidIffInRange("0");
    }
    assert !IsValidPort("65536") by {
      assert "65536"[..4] == "6553" && "6553"[..3] == "655" && "655"[..2] == "65";
      assert "65"[..1] == "6" && "6"[..0] == "";
      DigitsValidIffInRange("65536");
    }
  }

  /** No string with a '-' sign is accepted. */
  lemma NegativeRejected(s: string)
    requires s != [] && s[0] == '-'
    ensures !IsValidPort(s)
  {
    var c := CString(s);
    if c != [] {
      assert c[0] == '-';
      LeadingSpacesExact(c, 0);
    }
  }
}
