/** The `ip:port` destination argument: it is split at ':' into exactly two
    parts and the second must be an integer in 1..65535. Nothing else about
    the address is checked before the socket is used. */
module Destination {

  datatype Option<T> = None | Some(value: T)
  datatype Result<T, E> = Success(value: T) | Failure(error: E)

  /** Where every datagram of the run is sent. */
  datatype Address = Address(ip: string, port: int)

  /** Why a destination string is rejected (each case a ValueError in the player). */
  datatype AddressError =
    | WrongPartCount(parts: nat)       // the two-value unpacking of the split fails
    | PortNotInteger(portText: string) // int() refuses the port text
    | PortOutOfRange(port: int)        // the port is not in 1..65535

  /** Number of occurrences of `c` in `s`. */
  function Count(s: string, c: char): nat
  {
    if |s| == 0 then 0 else (if s[0] == c then 1 else 0) + Count(s[1..], c)
  }

  /** Python's `s.split(sep)` for a one-character separator: the pieces
      between the occurrences of `sep`, empty pieces included. */
  function Split(s: string, sep: char): (parts: seq<string>)
    ensures |parts| == Count(s, sep) + 1
    ensures forall i :: 0 <= i < |parts| ==> sep !in parts[i]
  {
    if |s| == 0 then [""]
    else
      var rest := Split(s[1..], sep);
      if s[0] == sep then [""] + rest
      else [[s[0]] + rest[0]] + rest[1..]
  }

  /** Python's `sep.join(parts)`, the inverse of `Split`. */
  function Join(parts: seq<string>, sep: char): string
    requires |parts| > 0
  {
    if |parts| == 1 then parts[0] else parts[0] + [sep] + Join(parts[1..], sep)
  }

  /** Joining the pieces of a split gives back the original string. */
  lemma {:induction false} JoinSplit(s: string, sep: char)
    ensures Join(Split(s, sep), sep) == s
  {
    if |s| > 0 {
      var rest := Split(s[1..], sep);
      JoinSplit(s[1..], sep);
      if s[0] != sep && |rest| > 1 {
        assert Join(rest, sep) == rest[0] + [sep] + Join(rest[1..], sep);
      }
    }
  }

  /** Splitting a string that starts with a separator-free prefix `a`. */
  lemma {:induction false} SplitPrefix(a: string, t: string, sep: char)
    requires sep !in a
    ensures Split(a + t, sep) == [a + Split(t, sep)[0]] + Split(t, sep)[1..]
  {
    var st := Split(t, sep);
    if |a| == 0 {
      assert a + t == t;
      assert a + st[0] == st[0];
      assert st == [st[0]] + st[1..];
    } else {
      var rest := Split(a[1..] + t, sep);
      assert rest == [a[1..] + st[0]] + st[1..] by {
        SplitPrefix(a[1..], t, sep);
      }
      assert (a + t)[0] == a[0] && (a + t)[1..] == a[1..] + t;
      assert Split(a + t, sep) == [[a[0]] + rest[0]] + rest[1..];
      assert [a[0]] + (a[1..] + st[0]) == a + st[0];
    }
  }

  /** Splitting a join of separator-free pieces gives back the pieces. */
  lemma {:induction false} SplitJoin(parts: seq<string>, sep: char)
    requires |parts| > 0
    requires forall i :: 0 <= i < |parts| ==> sep !in parts[i]
    ensures Split(Join(parts, sep), sep) == parts
  {
    if |parts| == 1 {
      SplitPrefix(parts[0], [], sep);
      assert parts[0] + [] == parts[0];
    } else {
      var t := Join(parts[1..], sep);
      SplitJoin(parts[1..], sep);
      SplitPrefix(parts[0], [sep] + t, sep);
      assert parts[0] + [sep] + t == parts[0] + ([sep] + t);
      assert ([sep] + t)[1..] == t;
      assert Split([sep] + t, sep) == [""] + Split(t, sep);
      assert parts[0] + "" == parts[0];
    }
  }

  predicate IsDigit(c: char)
  {
    '0' <= c <= '9'
  }

  /** The characters that `int()` strips from both ends of an ASCII
      argument: space, tab, line feed, vertical tab, form feed, carriage
      return. */
  predicate IsSpace(c: char)
  {
    c == ' ' || 9 <= c as int <= 13
  }

  function TrimStart(s: string): string
  {
    if |s| > 0 && IsSpace(s[0]) then TrimStart(s[1..]) else s
  }

  function TrimEnd(s: string): string
  {
    if |s| > 0 && IsSpace(s[|s| - 1]) then TrimEnd(s[..|s| - 1]) else s
  }

  /** A decimal literal as `int()` takes it: a digit, followed by digits
      each optionally preceded by a single underscore. */
  predicate IsNumeral(s: string)
  {
    |s| > 0 && IsDigit(s[|s| - 1]) &&
    (|s| == 1 || IsNumeral(s[..|s| - 1]) || (s[|s| - 2] == '_' && IsNumeral(s[..|s| - 2])))
  }

  /** A numeral starts with a digit. */
  lemma {:induction false} NumeralStartsWithDigit(s: string)
    requires IsNumeral(s)
    ensures IsDigit(s[0])
    decreases |s|
  {
    if |s| > 1 {
      if IsNumeral(s[..|s| - 1]) {
        NumeralStartsWithDigit(s[..|s| - 1]);
      } else {
        NumeralStartsWithDigit(s[..|s| - 2]);
      }
    }
  }

  /** Number of digits in `s`, underscores not counted. */
  function DigitCount(s: string): nat
  {
    if |s| == 0 then 0 else DigitCount(s[..|s| - 1]) + (if IsDigit(s[|s| - 1]) then 1 else 0)
  }

  /** The most digits `int()` converts from a decimal string: the default of
      `sys.int_info.default_max_str_digits` since CPython 3.11 (and the
      3.7-3.10 security releases that introduced it). */
  const MaxStrDigits: nat := 4300

  /** The value of the digits of `s`, underscores skipped. The `% 10` only
      keeps the result a `nat` for characters that are not digits, which a
      numeral does not hold. */
  function NumeralValue(s: string): nat
  {
    if |s| == 0 then 0
    else if s[|s| - 1] == '_' then NumeralValue(s[..|s| - 1])
    else NumeralValue(s[..|s| - 1]) * 10 + ((s[|s| - 1] as int - '0' as int) % 10)
  }

  /** Python's `int(text)` in base 10: surrounding whitespace is stripped,
      the rest is read by `ParseSigned`; a refusal is a ValueError (`None`). */
  function ParseInt(text: string): Option<int>
  {
    ParseSigned(TrimEnd(TrimStart(text)))
  }

  /** An optional sign, then a decimal literal. */
  function ParseSigned(t: string): Option<int>
  {
    if |t| > 0 && (t[0] == '+' || t[0] == '-') then
      match ReadNumeral(t[1..])
      case None => None
      case Some(v) => Some(if t[0] == '-' then -(v as int) else v)
    else
      match ReadNumeral(t)
      case None => None
      case Some(v) => Some(v)
  }

  /** A decimal literal of at most `MaxStrDigits` digits; a longer literal is
      refused like a malformed one. */
  function ReadNumeral(d: string): Option<nat>
  {
    if IsNumeral(d) && DigitCount(d) <= MaxStrDigits then Some(NumeralValue(d)) else None
  }

  /** The `ip:port` check: exactly two parts around ':' and an integer port
      strictly between 0 and 65536. */
  function ParseDestination(destination: string): Result<Address, AddressError>
  {
    var parts := Split(destination, ':');
    if |parts| != 2 then Failure(WrongPartCount(|parts|))
    else
      match ParseInt(parts[1])
      case None => Failure(PortNotInteger(parts[1]))
      case Some(port) =>
        if 0 < port < 65536 then Success(Address(parts[0], port))
        else Failure(PortOutOfRange(port))
  }

  /** Canonical decimal rendering of a natural number. */
  function DecimalString(n: nat): string
  {
    if n < 10 then [DigitChar(n)] else DecimalString(n / 10) + [DigitChar(n % 10)]
  }

  function DigitChar(d: nat): char
    requires d < 10
  {
    (d + '0' as int) as char
  }

  /** A canonical decimal rendering is a numeral with the number's value. */
  lemma {:induction false} DecimalStringNumeral(n: nat)
    ensures |DecimalString(n)| > 0
    ensures IsDigit(DecimalString(n)[0])
    ensures forall i :: 0 <= i < |DecimalString(n)| ==> IsDigit(DecimalString(n)[i])
    ensures IsNumeral(DecimalString(n))
    ensures NumeralValue(DecimalString(n)) == n
    ensures DigitCount(DecimalString(n)) == |DecimalString(n)|
  {
    if n >= 10 {
      DecimalStringNumeral(n / 10);
      var s := DecimalString(n);
      assert s[..|s| - 1] == DecimalString(n / 10);
    }
  }

  /** `int()` reads back what the canonical decimal rendering writes, unless
      the rendering has more than `MaxStrDigits` digits, which `int()`
      refuses. */
  lemma ParseIntDecimal(n: nat)
    ensures ParseInt(DecimalString(n)) ==
      if |DecimalString(n)| <= MaxStrDigits then Some(n) else None
  {
    DecimalStringNumeral(n);
    UnsignedNumeral(DecimalString(n));
  }

  /** `int()` reads a bare numeral as its value. */
  lemma UnsignedNumeral(s: string)
    requires IsNumeral(s)
    ensures ParseInt(s) == if DigitCount(s) <= MaxStrDigits then Some(NumeralValue(s) as int) else None
  {
    NumeralStartsWithDigit(s);
    NothingToTrim(s);
  }

  /** The same with a minus sign: `int()` reads `-` and the rendering of `n`
      as `-n`, within the same digit limit. */
  lemma ParseIntNegatedDecimal(n: nat)
    ensures ParseInt("-" + DecimalString(n)) ==
      if |DecimalString(n)| <= MaxStrDigits then Some(-(n as int)) else None
  {
    DecimalStringNumeral(n);
    NegatedNumeral(DecimalString(n));
  }

  /** `int()` reads `-` and a numeral as the negated value of the numeral. */
  lemma NegatedNumeral(s: string)
    requires IsNumeral(s)
    ensures ParseInt("-" + s) ==
      if DigitCount(s) <= MaxStrDigits then Some(-(NumeralValue(s) as int)) else None
  {
    var m := "-" + s;
    assert m[0] == '-' && m[1..] == s && m[|m| - 1] == s[|s| - 1];
    NothingToTrim(m);
  }

  /** A text that neither starts nor ends with whitespace is not trimmed. */
  lemma NothingToTrim(t: string)
    requires |t| > 0 && !IsSpace(t[0]) && !IsSpace(t[|t| - 1])
    ensures ParseInt(t) == ParseSigned(t)
  {
    assert TrimStart(t) == t;
  }

  /** Leading whitespace is skipped up to the first other character. */
  lemma {:induction false} TrimStartSpaces(lead: string, rest: string)
    requires forall i :: 0 <= i < |lead| ==> IsSpace(lead[i])
    requires |rest| > 0 && !IsSpace(rest[0])
    ensures TrimStart(lead + rest) == rest
    decreases |lead|
  {
    if |lead| == 0 {
      assert lead + rest == rest;
    } else {
      assert (lead + rest)[1..] == lead[1..] + rest;
      TrimStartSpaces(lead[1..], rest);
    }
  }

  /** Trailing whitespace is skipped back to the last other character. */
  lemma {:induction false} TrimEndSpaces(body: string, trail: string)
    requires forall i :: 0 <= i < |trail| ==> IsSpace(trail[i])
    requires |body| > 0 && !IsSpace(body[|body| - 1])
    ensures TrimEnd(body + trail) == body
    decreases |trail|
  {
    if |trail| == 0 {
      assert body + trail == body;
    } else {
      assert (body + trail)[..|body + trail| - 1] == body + trail[..|trail| - 1];
      TrimEndSpaces(body, trail[..|trail| - 1]);
    }
  }

  /** Whitespace on both sides of `body` is stripped, and nothing else. */
  lemma TrimSurrounding(text: string, lead: string, body: string, trail: string)
    requires forall i :: 0 <= i < |lead| ==> IsSpace(lead[i])
    requires forall i :: 0 <= i < |trail| ==> IsSpace(trail[i])
    requires |body| > 0 && !IsSpace(body[0]) && !IsSpace(body[|body| - 1])
    requires text == lead + body + trail
    ensures TrimEnd(TrimStart(text)) == body
  {
    assert TrimStart(text) == body + trail by {
      assert text == lead + (body + trail);
      TrimStartSpaces(lead, body + trail);
    }
    TrimEndSpaces(body, trail);
  }

  /** `int()` accepts a numeral of at most `MaxStrDigits` digits with an
      optional sign and surrounding whitespace, and reads it as the numeral's
      value, negated after '-'; it refuses a longer numeral. */
  lemma ParseIntNumeral(text: string, lead: string, sign: string, digits: string, trail: string)
    requires forall i :: 0 <= i < |lead| ==> IsSpace(lead[i])
    requires forall i :: 0 <= i < |trail| ==> IsSpace(trail[i])
    requires sign == "" || sign == "+" || sign == "-"
    requires IsNumeral(digits)
    requires text == lead + sign + digits + trail
    ensures ParseInt(text) ==
      if DigitCount(digits) <= MaxStrDigits then
        Some(if sign == "-" then -(NumeralValue(digits) as int) else NumeralValue(digits) as int)
      else None
  {
    var body := sign + digits;
    assert TrimEnd(TrimStart(text)) == body by {
      NumeralStartsWithDigit(digits);
      assert body[|body| - 1] == digits[|digits| - 1];
      assert body[0] == if sign == "" then digits[0] else sign[0];
      TrimSurrounding(text, lead, body, trail);
    }
    SignedNumeral(sign, digits);
  }

  /** A numeral with an optional sign is read as its value, negated after
      '-', unless it has too many digits. */
  lemma SignedNumeral(sign: string, digits: string)
    requires sign == "" || sign == "+" || sign == "-"
    requires IsNumeral(digits)
    ensures ParseSigned(sign + digits) ==
      if DigitCount(digits) <= MaxStrDigits then
        Some(if sign == "-" then -(NumeralValue(digits) as int) else NumeralValue(digits) as int)
      else None
  {
    var t := sign + digits;
    var r := ReadNumeral(digits);
    assert r == if DigitCount(digits) <= MaxStrDigits then Some(NumeralValue(digits)) else None;
    if sign == "" {
      NumeralStartsWithDigit(digits);
      assert t == digits && IsDigit(t[0]);
      assert ParseSigned(t) == match r case None => None case Some(v) => Some(v as int);
    } else {
      assert t[0] == sign[0] && t[1..] == digits;
      assert ParseSigned(t) == match r case None => None case Some(v) => Some(if sign == "-" then -(v as int) else v);
    }
  }

  /** Leading whitespace: `s` is a run of whitespace followed by `TrimStart(s)`. */
  lemma {:induction false} TrimStartSplit(s: string) returns (lead: string)
    ensures forall i :: 0 <= i < |lead| ==> IsSpace(lead[i])
    ensures s == lead + TrimStart(s)
    decreases |s|
  {
    if |s| > 0 && IsSpace(s[0]) {
      var rest := TrimStartSplit(s[1..]);
      lead := [s[0]] + rest;
      assert s == [s[0]] + s[1..];
    } else {
      lead := "";
    }
  }

  /** Trailing whitespace: `s` is `TrimEnd(s)` followed by a run of whitespace. */
  lemma {:induction false} TrimEndSplit(s: string) returns (trail: string)
    ensures forall i :: 0 <= i < |trail| ==> IsSpace(trail[i])
    ensures s == TrimEnd(s) + trail
    decreases |s|
  {
    if |s| > 0 && IsSpace(s[|s| - 1]) {
      var rest := TrimEndSplit(s[..|s| - 1]);
      trail := rest + [s[|s| - 1]];
      assert s == s[..|s| - 1] + [s[|s| - 1]];
    } else {
      trail := "";
    }
  }

  /** The converse of `ParseIntNumeral`: every text `int()` accepts is
      whitespace, an optional sign, a numeral of at most `MaxStrDigits`
      digits and whitespace, and is read as that numeral's value, negated
      after '-'. */
  lemma ParseIntAccepted(text: string) returns (lead: string, sign: string, digits: string, trail: string)
    requires ParseInt(text).Some?
    ensures forall i :: 0 <= i < |lead| ==> IsSpace(lead[i])
    ensures forall i :: 0 <= i < |trail| ==> IsSpace(trail[i])
    ensures sign == "" || sign == "+" || sign == "-"
    ensures IsNumeral(digits) && DigitCount(digits) <= MaxStrDigits
    ensures text == lead + sign + digits + trail
    ensures ParseInt(text) ==
      Some(if sign == "-" then -(NumeralValue(digits) as int) else NumeralValue(digits) as int)
  {
    lead := TrimStartSplit(text);
    var start := TrimStart(text);
    trail := TrimEndSplit(start);
    var body := TrimEnd(start);
    sign, digits := SignedAccepted(body);
    assert text == lead + sign + digits + trail by {
      assert text == lead + (sign + digits + trail);
    }
  }

  /** What `ParseSigned` accepts: an optional sign and a numeral of at most
      `MaxStrDigits` digits. */
  lemma SignedAccepted(t: string) returns (sign: string, digits: string)
    requires ParseSigned(t).Some?
    ensures sign == "" || sign == "+" || sign == "-"
    ensures IsNumeral(digits) && DigitCount(digits) <= MaxStrDigits
    ensures t == sign + digits
    ensures ParseSigned(t) ==
      Some(if sign == "-" then -(NumeralValue(digits) as int) else NumeralValue(digits) as int)
  {
    if |t| > 0 && (t[0] == '+' || t[0] == '-') {
      sign := t[..1];
      digits := t[1..];
      assert t == sign + digits;
    } else {
      sign := "";
      digits := t;
      assert t == sign + digits;
    }
  }

  /** An accepted destination is `ip + ":" + portText` with no other ':' and a
      port text that `int()` reads as the accepted port, which is in 1..65535. */
  lemma AcceptedDestination(destination: string)
    requires ParseDestination(destination).Success?
    ensures var a := ParseDestination(destination).value;
      ':' !in a.ip && 0 < a.port < 65536 &&
      |a.ip| < |destination| && destination[..|a.ip|] == a.ip && destination[|a.ip|] == ':' &&
      ':' !in destination[|a.ip| + 1..] &&
      ParseInt(destination[|a.ip| + 1..]) == Some(a.port)
  {
    var parts := Split(destination, ':');
    JoinSplit(destination, ':');
    assert Join(parts, ':') == parts[0] + [':'] + parts[1];
    assert destination == parts[0] + [':'] + parts[1];
    assert destination[|parts[0]| + 1..] == parts[1];
  }

  /** `ip + ":" + portText` with no other ':' is decided by the port text
      alone: rejected as not an integer when `int()` refuses it, accepted with
      the value `int()` reads when that is in 1..65535, and rejected as out of
      range otherwise. */
  lemma DestinationDecided(ip: string, portText: string)
    requires ':' !in ip && ':' !in portText
    ensures ParseDestination(ip + ":" + portText) ==
      match ParseInt(portText)
      case None => Failure(PortNotInteger(portText))
      case Some(port) =>
        if 0 < port < 65536 then Success(Address(ip, port)) else Failure(PortOutOfRange(port))
  {
    SplitJoin([ip, portText], ':');
    assert Join([ip, portText], ':') == ip + ":" + portText;
  }

  /** `ip + ":" + port`, with a separator-free ip and a port written in
      decimal, is accepted with that ip and port when the port is in
      1..65535, and rejected as out of range otherwise (as not an integer
      when the port has more than `MaxStrDigits` digits). */
  lemma FormattedDestination(ip: string, port: nat)
    requires ':' !in ip
    ensures ParseDestination(ip + ":" + DecimalString(port)) ==
      if |DecimalString(port)| > MaxStrDigits then Failure(PortNotInteger(DecimalString(port)))
      else if 0 < port < 65536 then Success(Address(ip, port))
      else Failure(PortOutOfRange(port))
  {
    var portText := DecimalString(port);
    assert ParseInt(portText) == (if |portText| <= MaxStrDigits then Some(port) else None) && ':' !in portText by {
      DecimalStringNumeral(port);
      ParseIntDecimal(port);
      forall i | 0 <= i < |portText| ensures portText[i] != ':' {
        assert IsDigit(portText[i]);
      }
    }
    DestinationDecided(ip, portText);
  }

  /** A port text of more than `MaxStrDigits` digits is refused by `int()`,
      even when its value, such as a zero-padded 80, is a valid port. */
  lemma OverlongPortRejected(ip: string, portText: string)
    requires ':' !in ip && ':' !in portText
    requires IsNumeral(portText) && DigitCount(portText) > MaxStrDigits
    ensures ParseDestination(ip + ":" + portText) == Failure(PortNotInteger(portText))
  {
    ParseIntNumeral(portText, "", "", portText, "");
    DestinationDecided(ip, portText);
  }

  /** A destination without exactly one ':' is rejected, whatever its port. */
  lemma WrongColonCountRejected(destination: string)
    requires Count(destination, ':') != 1
    ensures ParseDestination(destination) == Failure(WrongPartCount(Count(destination, ':') + 1))
  {
  }

  /** The destination named in the player's usage text is accepted. */
  lemma DocumentedDestinationAccepted()
    ensures ParseDestination("127.0.0.1:9090") == Success(Address("127.0.0.1", 9090))
  {
    assert DecimalString(9090) == "9090" by {
      assert DecimalString(9) == "9";
      assert DecimalString(90) == "90";
      assert DecimalString(909) == "909";
    }
    FormattedDestination("127.0.0.1", 9090);
    assert "127.0.0.1" + ":" + "9090" == "127.0.0.1:9090";
  }

  /** Illustrative invalid destinations: one without ':', two with a port
      out of range, and one whose port text is not an integer. */
  lemma MissingPortRejected()
    ensures ParseDestination("bad") == Failure(WrongPartCount(1))
  {
    assert Count("bad", ':') == 0;
    WrongColonCountRejected("bad");
  }

  lemma PortZeroRejected()
    ensures ParseDestination("1.2.3.4:0") == Failure(PortOutOfRange(0))
  {
    assert DecimalString(0) == "0";
    FormattedDestination("1.2.3.4", 0);
    assert "1.2.3.4" + ":" + "0" == "1.2.3.4:0";
  }

  lemma PortTooLargeRejected()
    ensures ParseDestination("1.2.3.4:99999") == Failure(PortOutOfRange(99999))
  {
    assert DecimalString(99999) == "99999" by {
      assert DecimalString(9) == "9";
      assert DecimalString(99) == "99";
      assert DecimalString(999) == "999";
      assert DecimalString(9999) == "9999";
    }
    FormattedDestination("1.2.3.4", 99999);
    assert "1.2.3.4" + ":" + "99999" == "1.2.3.4:99999";
  }

  lemma PortTextNotIntegerRejected()
    ensures ParseDestination("1.2.3.4:8o") == Failure(PortNotInteger("8o"))
  {
    assert !IsSpace('8') && !IsSpace('o') && !IsDigit('o');
    assert TrimEnd(TrimStart("8o")) == "8o";
    assert !IsNumeral("8o");
    DestinationDecided("1.2.3.4", "8o");
    assert "1.2.3.4" + ":" + "8o" == "1.2.3.4:8o";
  }

  /** `int()` reads a port text that is not in canonical form: surrounding
      whitespace, a '+' sign and an underscore between digits. */
  lemma ParseIntNonCanonical()
    ensures ParseInt(" +8_0 ") == Some(80)
  {
    assert IsNumeral("8_0");
    assert DigitCount("8_0") == 2 by {
      assert "8_0"[..2] == "8_" && "8_"[..1] == "8";
    }
    assert NumeralValue("8_0") == 80 by {
      assert "8_0"[..2] == "8_" && "8_"[..1] == "8";
    }
    ParseIntNumeral(" +8_0 ", " ", "+", "8_0", " ");
  }
}
