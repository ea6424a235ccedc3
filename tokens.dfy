/** The token validators of the cache: the signal-strength check (on a parsed
    number, and on the raw `s-70` style DNS token), the MAC-address check with
    its canonical colon form, and the decimal-id check. Both versions of the
    cache use the same checks; a failed check is an `Err` carrying the kind of
    error the source throws. */
module Tokens {
  import opened JsText

  datatype Error =
    | TooFewTokens       // "Too few tokens"
    | InvalidDbm         // "Invalid dbm string"
    | MacWrongSize       // "Invalid mac string ... (wrong size)"
    | MacNotHex          // "Invalid mac string ... (not hex)"
    | IntegerWrongSize   // "Invalid integer string ... (wrong size)"
    | IntegerNotDecimal  // "Invalid integer string ... (not decimal)"

  datatype Result<T> = Ok(value: T) | Err(error: Error) {
    predicate IsFailure() { Err? }

    function PropagateFailure<U>(): Result<U>
      requires Err?
    {
      Err(error)
    }

    function Extract(): T
      requires Ok?
    {
      value
    }
  }

  const MIN_DBM := -100
  const MAX_DBM := -30
  const MAC_LENGTH := 12
  const MAX_DECIMAL_LENGTH := 20

  // ---------------------------------------------------------------- signal strength

  /** JavaScript's `v > k` and `v < k`: every comparison with NaN is false. */
  predicate Above(v: JsNumber, k: int) { v.Int? && v.n > k }
  predicate Below(v: JsNumber, k: int) { v.Int? && v.n < k }

  /** `CheckDbm` on a number: refuse what lies above -30 or below -100, and
      hand back everything else unchanged, NaN included. */
  function CheckDbm(v: JsNumber): (r: Result<JsNumber>)
    ensures r.Ok? <==> v.NaN? || MIN_DBM <= v.n <= MAX_DBM
    ensures r.Ok? ==> r.value == v
    ensures r.Err? ==> r.error == InvalidDbm
  {
    if Above(v, MAX_DBM) then Err(InvalidDbm)
    else if Below(v, MIN_DBM) then Err(InvalidDbm)
    else Ok(v)
  }

  /** `dbm.substr(1, dbm.length - 1)`: the token without its tag character. */
  function DropTag(token: string): string
  {
    if |token| <= 1 then "" else token[1..]
  }

  /** `checkDbm` on a DNS token: the tag character is discarded and the rest
      goes through `parseInt` before the range check. */
  function CheckDbmToken(token: string): Result<JsNumber>
  {
    CheckDbm(ParseInt(DropTag(token)))
  }

  /** A tag character followed by a written integer is accepted exactly when
      the integer is a signal strength in [-100, -30], and yields it. */
  lemma CheckDbmTokenOfInt(tag: char, n: int)
    ensures CheckDbmToken([tag] + ShowInt(n)) ==
            if MIN_DBM <= n <= MAX_DBM then Ok(Int(n)) else Err(InvalidDbm)
  {
    var token := [tag] + ShowInt(n);
    assert DropTag(token) == ShowInt(n);
    ParseShowInt(n);
  }

  /** The NaN loophole: a tail with no number in it is not refused. */
  lemma CheckDbmTokenNaN(tag: char, tail: string)
    requires tail != [] && !IsJsWhitespace(tail[0]) && !IsDigit(tail[0]) && tail[0] != '-' && tail[0] != '+'
    ensures CheckDbmToken([tag] + tail) == Ok(NaN)
  {
    assert DropTag([tag] + tail) == tail;
    ParseIntNaN(tail);
  }

  /** The NaN loophole in full: any token whose tail holds no digit at all is
      accepted with strength NaN. That includes the one-character token `s`
      and the empty first label of a name such as `.98fc1182a159.1.2`. */
  lemma CheckDbmTokenNoDigits(token: string)
    requires forall i :: 0 <= i < |DropTag(token)| ==> !IsDigit(DropTag(token)[i])
    ensures CheckDbmToken(token) == Ok(NaN)
  {
    ParseIntNoDigits(DropTag(token));
  }

  // ---------------------------------------------------------------- MAC address

  predicate IsHexDigit(c: char) { '0' <= c <= '9' || 'a' <= c <= 'f' || 'A' <= c <= 'F' }

  predicate IsLowerHexDigit(c: char) { '0' <= c <= '9' || 'a' <= c <= 'f' }

  /** Twelve hexadecimal digits, in either case. */
  predicate IsMacToken(mac: string)
  {
    |mac| == MAC_LENGTH && forall i :: 0 <= i < |mac| ==> IsHexDigit(mac[i])
  }

  /** `aa:bb:cc:dd:ee:ff`: six lower-case octets separated by colons. */
  predicate IsCanonicalMac(m: string)
  {
    |m| == 17 &&
    forall o :: 0 <= o < 6 ==>
      IsLowerHexDigit(m[3 * o]) && IsLowerHexDigit(m[3 * o + 1]) && (o < 5 ==> m[3 * o + 2] == ':')
  }

  /** The six `substr(k, 2)` pieces joined by colons. */
  function Colonize(s: string): string
    requires |s| == MAC_LENGTH
  {
    s[0..2] + ":" + s[2..4] + ":" + s[4..6] + ":" + s[6..8] + ":" + s[8..10] + ":" + s[10..12]
  }

  lemma ColonizeCanonical(s: string)
    requires |s| == MAC_LENGTH && forall i :: 0 <= i < |s| ==> IsLowerHexDigit(s[i])
    ensures IsCanonicalMac(Colonize(s))
  {
    var m := Colonize(s);
    assert m == [s[0], s[1], ':', s[2], s[3], ':', s[4], s[5], ':', s[6], s[7], ':', s[8], s[9], ':', s[10], s[11]];
    forall o | 0 <= o < 6
      ensures m[3 * o] == s[2 * o] && m[3 * o + 1] == s[2 * o + 1] && (o < 5 ==> m[3 * o + 2] == ':')
    {
      if o == 0 {} else if o == 1 {} else if o == 2 {} else if o == 3 {} else if o == 4 {} else {}
    }
  }

  function CanonicalMac(mac: string): (r: string)
    requires IsMacToken(mac)
    ensures IsCanonicalMac(r)
  {
    var lower := Lower(mac);
    assert forall i :: 0 <= i < |lower| ==> IsLowerHexDigit(lower[i]);
    ColonizeCanonical(lower);
    Colonize(lower)
  }

  /** What `checkMac` returns: the length is checked first, then the
      characters; an accepted token comes back in canonical form. */
  function MacCheck(mac: string): Result<string>
  {
    if |mac| != MAC_LENGTH then Err(MacWrongSize)
    else if !IsMacToken(mac) then Err(MacNotHex)
    else Ok(CanonicalMac(mac))
  }

  /** A token is accepted exactly when it is twelve hexadecimal digits in
      either case; a token of the wrong size is reported as such before its
      characters are looked at. */
  lemma MacCheckRule(mac: string)
    ensures MacCheck(mac).Ok? <==> IsMacToken(mac)
    ensures MacCheck(mac).Ok? ==> MacCheck(mac).value == CanonicalMac(mac)
    ensures MacCheck(mac).Err? ==>
              MacCheck(mac).error == if |mac| != MAC_LENGTH then MacWrongSize else MacNotHex
  {
  }

  /** `checkMac`: the lower-cased token is scanned for a character outside
      `0-9a-f`, and an accepted one is split into colon-separated octets. */
  method CheckMac(mac: string) returns (r: Result<string>)
    ensures r == MacCheck(mac)
  {
    if |mac| != MAC_LENGTH {
      return Err(MacWrongSize);
    }
    var lower := Lower(mac);
    var i := 0;
    while i < MAC_LENGTH
      invariant 0 <= i <= MAC_LENGTH
      invariant forall j :: 0 <= j < i ==> IsHexDigit(mac[j])
    {
      if !IsLowerHexDigit(lower[i]) {
        return Err(MacNotHex);
      }
      i := i + 1;
    }
    return Ok(Colonize(lower));
  }

  /** Removing every colon. */
  function StripColons(s: string): string
    decreases |s|
  {
    if s == [] then [] else (if s[0] == ':' then [] else [s[0]]) + StripColons(s[1..])
  }

  lemma {:induction false} StripColonsAppend(a: string, b: string)
    ensures StripColons(a + b) == StripColons(a) + StripColons(b)
    decreases |a|
  {
    if a == [] {
      assert a + b == b;
    } else {
      assert (a + b)[0] == a[0];
      assert (a + b)[1..] == a[1..] + b;
      StripColonsAppend(a[1..], b);
    }
  }

  lemma StripColonsOctet(s: string)
    requires |s| == 2 && s[0] != ':' && s[1] != ':'
    ensures StripColons(s) == s
  {
    assert StripColons(s[1..][1..]) == [];
    assert StripColons(s[1..]) == [s[1]];
    assert [s[0]] + [s[1]] == s;
  }

  /** A colon between two pieces disappears and the pieces stay. */
  lemma StripColonsJoin(x: string, y: string)
    ensures StripColons(x + ":" + y) == StripColons(x) + StripColons(y)
  {
    var colon := ":";
    assert StripColons(colon) == [] by {
      assert colon[0] == ':' && colon[1..] == [];
    }
    StripColonsAppend(x, colon);
    assert StripColons(x + colon) == StripColons(x);
    StripColonsAppend(x + colon, y);
  }

  /** The canonical form loses nothing but the case: dropping its colons gives
      back the lower-cased token. */
  lemma StripCanonicalMac(mac: string)
    requires IsMacToken(mac)
    ensures StripColons(CanonicalMac(mac)) == Lower(mac)
  {
    var s := Lower(mac);
    var o0, o1, o2, o3, o4, o5 := s[0..2], s[2..4], s[4..6], s[6..8], s[8..10], s[10..12];
    forall k | 0 <= k < 12 ensures s[k] != ':' {
    }
    var p1 := o0 + ":" + o1;
    var p2 := p1 + ":" + o2;
    var p3 := p2 + ":" + o3;
    var p4 := p3 + ":" + o4;
    var p5 := p4 + ":" + o5;
    assert p5 == CanonicalMac(mac);
    assert StripColons(p1) == o0 + o1 by {
      StripColonsJoin(o0, o1);
      StripColonsOctet(o0);
      StripColonsOctet(o1);
    }
    assert StripColons(p2) == o0 + o1 + o2 by {
      StripColonsJoin(p1, o2);
      StripColonsOctet(o2);
    }
    assert StripColons(p3) == o0 + o1 + o2 + o3 by {
      StripColonsJoin(p2, o3);
      StripColonsOctet(o3);
    }
    assert StripColons(p4) == o0 + o1 + o2 + o3 + o4 by {
      StripColonsJoin(p3, o4);
      StripColonsOctet(o4);
    }
    assert StripColons(p5) == o0 + o1 + o2 + o3 + o4 + o5 by {
      StripColonsJoin(p4, o5);
      StripColonsOctet(o5);
    }
    assert o0 + o1 + o2 + o3 + o4 + o5 == s;
  }

  /** Two tokens get the same canonical form exactly when they differ only in
      the case of their letters. */
  lemma CanonicalMacSameIffSameLower(a: string, b: string)
    requires IsMacToken(a) && IsMacToken(b)
    ensures CanonicalMac(a) == CanonicalMac(b) <==> Lower(a) == Lower(b)
  {
    if CanonicalMac(a) == CanonicalMac(b) {
      StripCanonicalMac(a);
      StripCanonicalMac(b);
    }
  }

  /** An upper-case spelling of a token is accepted too and canonicalises to
      the same address. */
  lemma CanonicalMacIgnoresCase(mac: string)
    requires IsMacToken(mac)
    ensures IsMacToken(Upper(mac)) && CanonicalMac(Upper(mac)) == CanonicalMac(mac)
  {
    assert Lower(Upper(mac)) == Lower(mac);
  }

  // ---------------------------------------------------------------- decimal ids

  /** One to twenty decimal digits. */
  predicate IsDecimalToken(t: string)
  {
    1 <= |t| <= MAX_DECIMAL_LENGTH && forall i :: 0 <= i < |t| ==> IsDigit(t[i])
  }

  /** What `checkBigInt` returns: the length is checked first, then the
      characters; an accepted token comes back as it is. */
  function DecimalCheck(t: string): Result<string>
  {
    if |t| < 1 || |t| > MAX_DECIMAL_LENGTH then Err(IntegerWrongSize)
    else if !IsDecimalToken(t) then Err(IntegerNotDecimal)
    else Ok(t)
  }

  /** A token is accepted exactly when it is one to twenty decimal digits,
      and is returned unchanged; a token of the wrong size is reported as such
      before its characters are looked at. */
  lemma DecimalCheckRule(t: string)
    ensures DecimalCheck(t).Ok? <==> IsDecimalToken(t)
    ensures DecimalCheck(t).Ok? ==> DecimalCheck(t).value == t
    ensures DecimalCheck(t).Err? ==>
              DecimalCheck(t).error == if |t| < 1 || |t| > MAX_DECIMAL_LENGTH then IntegerWrongSize else IntegerNotDecimal
  {
  }

  /** `checkBigInt`: every character must be a decimal digit. */
  method CheckBigInt(t: string) returns (r: Result<string>)
    ensures r == DecimalCheck(t)
  {
    var len := |t|;
    if len < 1 || len > MAX_DECIMAL_LENGTH {
      return Err(IntegerWrongSize);
    }
    var i := 0;
    while i < len
      invariant 0 <= i <= len
      invariant forall j :: 0 <= j < i ==> IsDigit(t[j])
    {
      if !IsDigit(t[i]) {
        return Err(IntegerNotDecimal);
      }
      i := i + 1;
    }
    return Ok(t);
  }
}
