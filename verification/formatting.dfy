/** Display helpers for amounts, statuses, identifiers, durations and hex-encoded descriptions. */
module Formatting {
  import opened Wrappers
  import opened Seqs
  import opened Text
  import opened Numerals
  import opened Escrow

  // ---------------------------------------------------------------- satoshi input

  /**
   * What `parseSatoshis` makes of user input. Input mentioning "bsv" goes
   * through floating-point parsing, which is not modelled: `BsvInput` carries
   * the string of digits and dots handed to `parseFloat`.
   */
  datatype SatoshiInput = Satoshis(value: nat) | BsvInput(numeral: string)

  predicate IsDigitOrDot(c: char) {
    IsDigit(c) || c == '.'
  }

  /** `parseSatoshis`. */
  function ParseSatoshis(input: string): (r: SatoshiInput)
    ensures r.BsvInput? <==> Contains(ToLower(Trim(input)), "bsv")
    ensures r.Satoshis? ==> r.value == DecimalValue(Filter(input, IsDigit))
  {
    var trimmed := Trim(input);
    if Contains(ToLower(trimmed), "bsv") then BsvInput(Filter(trimmed, IsDigitOrDot))
    else
      var digits := Filter(trimmed, IsDigit);
      TrimKeepsDigits(input);
      Satoshis(ParseDigitRun(digits))
  }

  /** `parseInt` of the digits kept from the input, with NaN and 0 both read as 0. */
  function ParseDigitRun(digits: string): (v: nat)
    requires AllDigits(digits)
    ensures v == DecimalValue(digits)
  {
    if |digits| == 0 then 0
    else
      ParseIntOfDigits(digits);
      ParseInt(digits).value
  }

  /** Trimming removes only whitespace, so it keeps every digit of the input. */
  lemma TrimKeepsDigits(s: string)
    ensures Filter(Trim(s), IsDigit) == Filter(s, IsDigit)
  {
    TrimStartKeepsDigits(s);
    TrimEndKeepsDigits(TrimStart(s));
  }

  lemma TrimStartKeepsDigits(s: string)
    ensures Filter(TrimStart(s), IsDigit) == Filter(s, IsDigit)
  {
    var t := TrimStart(s);
    var a := s[..|s| - |t|];
    assert s == a + t;
    DigitsAfterWhitespace(a, t);
  }

  lemma TrimEndKeepsDigits(t: string)
    ensures Filter(TrimEnd(t), IsDigit) == Filter(t, IsDigit)
  {
    var r := TrimEnd(t);
    var b := t[|r|..];
    assert t == r + b;
    DigitsBeforeWhitespace(r, b);
  }

  lemma DigitsAfterWhitespace(a: string, t: string)
    requires AllWhitespace(a)
    ensures Filter(a + t, IsDigit) == Filter(t, IsDigit)
  {
    var f := Filter(t, IsDigit);
    FilterConcat(a, t, IsDigit);
    NoDigitsIn(a);
    assert [] + f == f;
  }

  lemma DigitsBeforeWhitespace(r: string, b: string)
    requires AllWhitespace(b)
    ensures Filter(r + b, IsDigit) == Filter(r, IsDigit)
  {
    NoDigitsIn(b);
    FilterConcat(r, b, IsDigit);
    assert Filter(r, IsDigit) + [] == Filter(r, IsDigit);
  }

  lemma {:induction false} NoDigitsIn(w: string)
    requires AllWhitespace(w)
    ensures Filter(w, IsDigit) == []
    decreases |w|
  {
    if |w| > 0 {
      assert !IsDigit(w[0]);
      NoDigitsIn(w[1..]);
    }
  }

  /** A printed amount, alone or followed by a unit word without digits, is read back exactly. */
  lemma ParseSatoshisRoundTrip(n: nat)
    ensures ParseSatoshis(NatToDecimal(n)) == Satoshis(n)
    ensures ParseSatoshis(NatToDecimal(n) + " sats") == Satoshis(n)
  {
    var s := NatToDecimal(n);
    DecimalRoundTrip(n);
    FilterAll(s, IsDigit);
    NoBsvInDigits(s);
    DigitsBeforeUnit(s);
    NoBsvInAmountWithUnit(s);
  }

  lemma DigitsBeforeUnit(s: string)
    requires AllDigits(s)
    ensures Filter(s + " sats", IsDigit) == s
  {
    FilterAll(s, IsDigit);
    FilterConcat(s, " sats", IsDigit);
    NoDigitsInUnit();
    assert s + [] == s;
  }

  lemma NoDigitsInUnit()
    ensures Filter(" sats", IsDigit) == []
  {
    var f := Filter(" sats", IsDigit);
    assert forall c :: c in f ==> c in " sats" && IsDigit(c);
  }

  lemma NoBsvInDigits(s: string)
    requires |s| > 0 && AllDigits(s)
    ensures !Contains(ToLower(Trim(s)), "bsv")
  {
    TrimNoop(s);
    NoLetterBNoBsv(ToLower(s));
  }

  lemma NoBsvInAmountWithUnit(s: string)
    requires |s| > 0 && AllDigits(s)
    ensures !Contains(ToLower(Trim(s + " sats")), "bsv")
  {
    var t := s + " sats";
    assert t[0] == s[0];
    UnitEndsWithLetter();
    assert t[|t| - 1] == " sats"[4];
    TrimNoop(t);
    UnitHasNoLetterB();
    assert NoLetterB(s);
    NoLetterBConcat(s, " sats");
    NoLetterBNoBsv(ToLower(t));
  }

  /** No character of `s` lower-cases to 'b'. */
  predicate NoLetterB(s: string) {
    forall i :: 0 <= i < |s| ==> LowerChar(s[i]) != 'b'
  }

  lemma NoLetterBConcat(a: string, b: string)
    requires NoLetterB(a) && NoLetterB(b)
    ensures NoLetterB(a + b)
  {
    var t := a + b;
    forall i | 0 <= i < |t| ensures LowerChar(t[i]) != 'b' {
      if i < |a| {
        assert t[i] == a[i];
      } else {
        assert t[i] == b[i - |a|];
      }
    }
  }

  lemma UnitHasNoLetterB()
    ensures NoLetterB(" sats")
  {
    assert " sats" == [' ', 's', 'a', 't', 's'];
  }

  lemma UnitEndsWithLetter()
    ensures " sats"[4] == 's'
  {
    assert " sats" == [' ', 's', 'a', 't', 's'];
  }

  lemma NoLetterBNoBsv(l: string)
    requires forall i :: 0 <= i < |l| ==> l[i] != 'b'
    ensures !Contains(l, "bsv")
  {
    ContainsIffOccurs(l, "bsv");
    forall i | 0 <= i <= |l| - 3 ensures !OccursAt(l, "bsv", i) {
      assert l[i..i + 3][0] == l[i] != 'b' == "bsv"[0];
    }
  }

  // ---------------------------------------------------------------- hex text

  /** Bytes the decoder accepts: tab, line feed, carriage return, and everything from 32 up. */
  predicate IsDecodableByte(b: nat) {
    b == 9 || b == 10 || b == 13 || b >= 32
  }

  /** The byte spelled by the `i`-th pair of hex digits of `t`. */
  function PairValue(t: string, i: nat): (b: nat)
    requires AllHexDigits(t) && 2 * i + 1 < |t|
    ensures b < 256
  {
    16 * HexDigitValue(t[2 * i]) + HexDigitValue(t[2 * i + 1])
  }

  ghost predicate AllPairsDecodable(t: string)
    requires AllHexDigits(t) && |t| % 2 == 0
  {
    forall i :: 0 <= i < |t| / 2 ==> IsDecodableByte(PairValue(t, i))
  }

  /** Decodes the hex pairs of `t`; None when some byte is a disallowed control byte. */
  function DecodePairs(t: string): (r: Option<string>)
    requires AllHexDigits(t) && |t| % 2 == 0
    ensures r.Some? <==> AllPairsDecodable(t)
    ensures r.Some? ==> |r.value| == |t| / 2 && forall i :: 0 <= i < |r.value| ==> r.value[i] as int == PairValue(t, i)
    decreases |t|
  {
    if |t| == 0 then Some("")
    else
      var b := PairValue(t, 0);
      PairsOfTail(t);
      if !IsDecodableByte(b) then None
      else match DecodePairs(t[2..])
        case None => None
        case Some(rest) => Some([b as char] + rest)
  }

  /** The pairs of `t[2..]` are the pairs of `t` after the first. */
  lemma PairsOfTail(t: string)
    requires AllHexDigits(t) && |t| % 2 == 0 && |t| > 0
    ensures forall i :: 0 <= i < |t[2..]| / 2 ==> PairValue(t[2..], i) == PairValue(t, i + 1)
    ensures AllPairsDecodable(t) <==> IsDecodableByte(PairValue(t, 0)) && AllPairsDecodable(t[2..])
  {
    var u := t[2..];
    assert forall i :: 0 <= i < |u| / 2 ==> PairValue(u, i) == PairValue(t, i + 1);
    if IsDecodableByte(PairValue(t, 0)) && AllPairsDecodable(u) {
      forall i | 0 <= i < |t| / 2 ensures IsDecodableByte(PairValue(t, i)) {
        if i > 0 {
          assert PairValue(u, i - 1) == PairValue(t, i);
        }
      }
    }
  }

  /**
   * `hexToAscii`: fail-soft decoding of a hex-encoded text. The input comes
   * back unchanged unless its trimmed form is a non-empty, even-length run of
   * hex digits whose every byte is decodable.
   */
  function HexToAscii(hex: string): (r: string)
    ensures |hex| == 0 ==> r == ""
    ensures !IsHexString(Trim(hex)) || |Trim(hex)| % 2 != 0 ==> r == hex
    ensures IsHexString(Trim(hex)) && |Trim(hex)| % 2 == 0 ==>
      if AllPairsDecodable(Trim(hex)) then DecodePairs(Trim(hex)) == Some(r) else r == hex
  {
    if |hex| == 0 then ""
    else
      var clean := Trim(hex);
      if !IsHexString(clean) then hex
      else if |clean| % 2 != 0 then hex
      else match DecodePairs(clean)
        case None => hex
        case Some(s) => s
  }

  /** Lower-case hex encoding of a text whose characters are bytes. */
  function HexEncode(text: string): (r: string)
    requires forall i :: 0 <= i < |text| ==> text[i] as int < 256
    ensures |r| == 2 * |text| && AllHexDigits(r)
    ensures forall i :: 0 <= i < |text| ==> PairValue(r, i) == text[i] as int
    decreases |text|
  {
    if |text| == 0 then ""
    else
      var c := text[0] as int;
      var rest := HexEncode(text[1..]);
      var r := [HexDigitChar(c / 16), HexDigitChar(c % 16)] + rest;
      assert forall i :: 1 <= i < |text| ==> PairValue(r, i) == PairValue(rest, i - 1);
      r
  }

  /** Hex-encoding a text of decodable characters and decoding it gives the text back. */
  lemma HexRoundTrip(text: string)
    requires forall i :: 0 <= i < |text| ==> text[i] as int < 256 && IsDecodableByte(text[i] as int)
    ensures HexToAscii(HexEncode(text)) == text
  {
    var e := HexEncode(text);
    if |text| > 0 {
      HexHasNoWhitespace(e);
      TrimNoop(e);
      EncodedPairsDecode(text);
      HexToAsciiDecodes(e);
    }
  }

  lemma HexToAsciiDecodes(e: string)
    requires IsHexString(Trim(e)) && |Trim(e)| % 2 == 0 && AllPairsDecodable(Trim(e))
    ensures Some(HexToAscii(e)) == DecodePairs(Trim(e))
  {
  }

  /** Decoding inverts encoding pair by pair. */
  lemma EncodedPairsDecode(text: string)
    requires forall i :: 0 <= i < |text| ==> text[i] as int < 256 && IsDecodableByte(text[i] as int)
    ensures DecodePairs(HexEncode(text)) == Some(text)
  {
    PairsSpellingDecode(HexEncode(text), text);
  }

  /** Hex digits whose pairs spell the codes of a decodable text decode to that text. */
  lemma PairsSpellingDecode(e: string, text: string)
    requires AllHexDigits(e) && |e| == 2 * |text|
    requires forall i :: 0 <= i < |text| ==> PairValue(e, i) == text[i] as int
    requires forall i :: 0 <= i < |text| ==> IsDecodableByte(text[i] as int)
    ensures DecodePairs(e) == Some(text)
  {
    assert AllPairsDecodable(e) by {
      forall i | 0 <= i < |e| / 2 ensures IsDecodableByte(PairValue(e, i)) {
        assert PairValue(e, i) == text[i] as int;
      }
    }
    var d := DecodePairs(e).value;
    forall i | 0 <= i < |d| ensures d[i] == text[i] {
      assert d[i] as int == PairValue(e, i) == text[i] as int;
    }
    assert d == text;
  }

  lemma HexHasNoWhitespace(e: string)
    requires |e| > 0 && AllHexDigits(e)
    ensures !IsWhitespace(e[0]) && !IsWhitespace(e[|e| - 1])
  {
    assert IsHexDigit(e[0]) && IsHexDigit(e[|e| - 1]);
  }

  // ---------------------------------------------------------------- truncation

  /** The first `max` characters followed by "..." when longer than `max`; otherwise unchanged. */
  function TruncateWithEllipsis(s: string, max: nat): (r: string)
    ensures |r| <= max + 3
    ensures |s| <= max ==> r == s
    ensures |s| > max ==> r == s[..max] + "..."
  {
    if |s| > max then s[..max] + "..." else s
  }

  /** `address.slice(-n)`: a negative zero start counts from the beginning, so n = 0 yields the whole string. */
  function SliceFromEnd(s: string, n: nat): string
    requires n <= |s|
  {
    if n == 0 then s else s[|s| - n..]
  }

  /** `truncateAddress` as written, including the `slice(-0)` behaviour for `endChars` = 0. */
  function TruncateAddressAsWritten(address: string, startChars: nat, endChars: nat): (r: string)
    ensures |address| <= startChars + endChars ==> r == address
    ensures |address| > startChars + endChars ==> r == address[..startChars] + "..." + SliceFromEnd(address, endChars)
  {
    if |address| == 0 || |address| <= startChars + endChars then address
    else address[..startChars] + "..." + SliceFromEnd(address, endChars)
  }

  /** With no trailing characters requested, the as-written truncation appends the whole address. */
  lemma TruncateAddressZeroEndFinding()
    ensures TruncateAddressAsWritten("abcdefghijk", 6, 0) == "abcdef...abcdefghijk"
    ensures |TruncateAddressAsWritten("abcdefghijk", 6, 0)| == 20 > 6 + 0 + 3
  {
    assert "abcdefghijk"[..6] == "abcdef";
  }

  /**
   * `truncateAddress` with the evident intent: the first `startChars` and the
   * last `endChars` characters around "...", or the address itself when short.
   */
  function TruncateAddress(address: string, startChars: nat, endChars: nat): (r: string)
    ensures |address| <= startChars + endChars ==> r == address
    ensures |address| > startChars + endChars ==>
      && |r| == startChars + endChars + 3
      && r[..startChars] == address[..startChars]
      && r[startChars..startChars + 3] == "..."
      && r[startChars + 3..] == address[|address| - endChars..]
  {
    if |address| == 0 || |address| <= startChars + endChars then address
    else address[..startChars] + "..." + address[|address| - endChars..]
  }

  /** The two agree whenever at least one trailing character is kept, as in every call with the defaults. */
  lemma TruncateAddressAgrees(address: string, startChars: nat, endChars: nat)
    requires endChars > 0
    ensures TruncateAddress(address, startChars, endChars) == TruncateAddressAsWritten(address, startChars, endChars)
  {
  }

  /** `truncateTxid`: eight leading and eight trailing characters. */
  function TruncateTxid(txid: string): (r: string)
    ensures |txid| <= 16 ==> r == txid
    ensures |txid| > 16 ==> |r| == 19 && r[..8] == txid[..8] && r[8..11] == "..." && r[11..] == txid[|txid| - 8..]
  {
    TruncateAddress(txid, 8, 8)
  }

  // ---------------------------------------------------------------- durations

  /** JavaScript's `%` on whole numbers: the remainder takes the sign of the dividend. */
  function JsRemainder(a: int, b: int): (r: int)
    requires b > 0
    ensures a >= 0 ==> 0 <= r < b
    ensures a < 0 ==> -b < r <= 0
  {
    if a >= 0 then a % b else -((-a) % b)
  }

  /** `Math.floor(seconds / 86400)`; Dafny's division by a positive divisor already rounds down. */
  function DurationDays(seconds: int): int {
    seconds / 86400
  }

  function DurationHours(seconds: int): int {
    JsRemainder(seconds, 86400) / 3600
  }

  function DurationMinutes(seconds: int): int {
    JsRemainder(seconds, 3600) / 60
  }

  /** For a non-negative duration the three components are a days/hours/minutes decomposition rounded down to the minute. */
  lemma DurationComponents(seconds: nat)
    ensures 0 <= DurationHours(seconds) < 24 && 0 <= DurationMinutes(seconds) < 60
    ensures var total := DurationDays(seconds) * 86400 + DurationHours(seconds) * 3600 + DurationMinutes(seconds) * 60;
      total <= seconds < total + 60
  {
    var d := seconds / 86400;
    var r1 := seconds % 86400;
    assert seconds == 86400 * d + r1;
    var h := r1 / 3600;
    var x := r1 % 3600;
    assert r1 == 3600 * h + x && 0 <= x < 3600;
    assert seconds == 3600 * (24 * d + h) + x;
    DivModUnique(seconds, 3600, 24 * d + h, x);
    var m := x / 60;
    assert x == 60 * m + x % 60;
  }

  /** Which units `formatDuration` shows, in order: days and hours when positive, minutes when positive or when nothing else is shown. */
  function DurationUnits(seconds: int): (units: string)
    ensures |units| > 0
    ensures 'd' in units <==> DurationDays(seconds) > 0
    ensures 'h' in units <==> DurationHours(seconds) > 0
    ensures 'm' in units <==> DurationMinutes(seconds) > 0 || (DurationDays(seconds) <= 0 && DurationHours(seconds) <= 0)
    ensures forall i :: 0 <= i < |units| ==> units[i] in "dhm"
    ensures IsSubsequence(units, "dhm")
  {
    var showDays := DurationDays(seconds) > 0;
    var showHours := DurationHours(seconds) > 0;
    var showMinutes := DurationMinutes(seconds) > 0 || (!showDays && !showHours);
    var fromMinutes := if showMinutes then "m" else "";
    var fromHours := (if showHours then "h" else "") + fromMinutes;
    var units := (if showDays then "d" else "") + fromHours;
    assert IsSubsequence(units, "dhm") by {
      assert IsSubsequence(fromMinutes, "m") by { SubsequenceRefl(fromMinutes); }
      assert "hm" == ['h'] + "m" && "dhm" == ['d'] + "hm";
      MaybeCons('h', showHours, fromMinutes, "m");
      MaybeCons('d', showDays, fromHours, "hm");
    }
    units
  }

  /** Putting an optional `x` in front of a subsequence of `b` gives a subsequence of `[x] + b`. */
  lemma MaybeCons<T>(x: T, on: bool, a: seq<T>, b: seq<T>)
    requires IsSubsequence(a, b)
    ensures IsSubsequence((if on then [x] else []) + a, [x] + b)
  {
    var c := (if on then [x] else []) + a;
    if on {
      assert c[0] == x && c[1..] == a;
    } else {
      assert c == a;
      assert ([x] + b)[1..] == b;
    }
  }

  /** The amount `formatDuration` shows for a unit letter. */
  function UnitAmount(seconds: int, unit: char): (amount: int)
    requires unit in "dhm"
    ensures seconds >= 0 ==> amount >= 0
  {
    if unit == 'd' then DurationDays(seconds)
    else if unit == 'h' then DurationHours(seconds)
    else DurationMinutes(seconds)
  }

  /** The rendering of one unit: its amount as `${n}` followed by the unit letter. */
  function RenderUnit(seconds: int, unit: char): (part: string)
    requires unit in "dhm"
    ensures |part| > 0 && part[|part| - 1] == unit
    ensures ' ' !in part
  {
    var number := IntToDecimal(UnitAmount(seconds, unit));
    assert ' ' !in number by { DecimalHasNoSpace(UnitAmount(seconds, unit)); }
    number + [unit]
  }

  lemma DecimalHasNoSpace(n: int)
    ensures ' ' !in IntToDecimal(n)
  {
    var s := IntToDecimal(n);
    if n >= 0 {
      assert AllDigits(s);
    } else {
      assert AllDigits(s[1..]);
      assert s == "-" + s[1..];
    }
  }

  /** The rendered parts of `formatDuration`, one per shown unit. */
  function DurationParts(seconds: int): (parts: seq<string>)
    ensures |parts| == |DurationUnits(seconds)|
    ensures forall i :: 0 <= i < |parts| ==> parts[i] == RenderUnit(seconds, DurationUnits(seconds)[i])
  {
    var units := DurationUnits(seconds);
    seq(|units|, i requires 0 <= i < |units| => RenderUnit(seconds, units[i]))
  }

  /** `formatDuration`: the shown units, space-separated; each letter appears exactly when its unit is shown. */
  function FormatDuration(seconds: int): (r: string)
    ensures |r| > 0
    ensures 'd' in r <==> DurationDays(seconds) > 0
    ensures 'h' in r <==> DurationHours(seconds) > 0
    ensures 'm' in r <==> DurationMinutes(seconds) > 0 || (DurationDays(seconds) <= 0 && DurationHours(seconds) <= 0)
    ensures 0 <= seconds < 60 ==> r == "0m"
  {
    var units := DurationUnits(seconds);
    var parts := DurationParts(seconds);
    UnitLettersOfJoin(seconds, units, parts);
    if 0 <= seconds < 60 then
      ShortDuration(seconds);
      Join(parts, ' ')
    else Join(parts, ' ')
  }

  /** Under a minute, only the minutes are shown, and they are zero. */
  lemma ShortDuration(seconds: int)
    requires 0 <= seconds < 60
    ensures DurationParts(seconds) == ["0m"]
  {
    assert DurationDays(seconds) == 0 && DurationHours(seconds) == 0 && DurationMinutes(seconds) == 0;
    assert DurationUnits(seconds) == "m";
    assert NatToDecimal(0) == "0";
    assert RenderUnit(seconds, 'm') == "0m";
  }

  /**
   * Reading `formatDuration` back: splitting on spaces gives one part per shown
   * unit, in order, each the unit's amount as `${n}` followed by its letter; for
   * a non-negative duration, `parseInt` of a part recovers the amount.
   */
  lemma FormatDurationReadBack(seconds: int)
    ensures var units := DurationUnits(seconds);
      var parts := Split(FormatDuration(seconds), ' ');
      && |parts| == |units|
      && (forall i :: 0 <= i < |parts| ==> parts[i] == IntToDecimal(UnitAmount(seconds, units[i])) + [units[i]])
      && (seconds >= 0 ==> forall i :: 0 <= i < |parts| ==> ParseInt(parts[i]) == Some(UnitAmount(seconds, units[i])))
  {
    var units := DurationUnits(seconds);
    var parts := DurationParts(seconds);
    SplitJoin(parts, ' ');
    if seconds >= 0 {
      forall i | 0 <= i < |parts|
        ensures ParseInt(parts[i]) == Some(UnitAmount(seconds, units[i]))
      {
        var n := UnitAmount(seconds, units[i]);
        assert parts[i] == NatToDecimal(n) + [units[i]];
        ParseIntOfDecimalThen(n, [units[i]]);
      }
    }
  }

  lemma UnitLettersOfJoin(seconds: int, units: string, parts: seq<string>)
    requires |units| > 0 && forall i :: 0 <= i < |units| ==> units[i] in "dhm"
    requires |parts| == |units| && forall i :: 0 <= i < |parts| ==> parts[i] == RenderUnit(seconds, units[i])
    ensures |Join(parts, ' ')| > 0
    ensures forall c :: c in "dhm" ==> (c in Join(parts, ' ') <==> c in units)
  {
    assert |parts[0]| > 0;
    forall c | c in "dhm" ensures c in Join(parts, ' ') <==> c in units {
      InJoin(parts, ' ', c);
      forall i | 0 <= i < |parts| ensures c in parts[i] <==> units[i] == c {
        UnitLetterOfPart(seconds, units[i], c);
      }
      if c in units {
        var i :| 0 <= i < |units| && units[i] == c;
        assert c in parts[i];
      }
    }
  }

  lemma UnitLetterOfPart(seconds: int, unit: char, c: char)
    requires unit in "dhm" && c in "dhm"
    ensures c in RenderUnit(seconds, unit) <==> unit == c
  {
    var part := RenderUnit(seconds, unit);
    var number := part[..|part| - 1];
    assert part == number + [unit];
    assert c !in number by {
      var n := UnitAmount(seconds, unit);
      assert number == IntToDecimal(n);
      if n >= 0 {
        assert AllDigits(number);
      } else {
        assert AllDigits(number[1..]);
      }
    }
  }

  /** A character other than the separator occurs in a join exactly when it occurs in one of the pieces. */
  lemma {:induction false} InJoin(parts: seq<string>, sep: char, c: char)
    requires c != sep
    ensures c in Join(parts, sep) <==> exists i :: 0 <= i < |parts| && c in parts[i]
    decreases |parts|
  {
    if |parts| > 1 {
      InJoin(parts[1..], sep, c);
      assert Join(parts, sep) == parts[0] + [sep] + Join(parts[1..], sep);
      if exists i :: 0 <= i < |parts[1..]| && c in parts[1..][i] {
        var i :| 0 <= i < |parts[1..]| && c in parts[1..][i];
        assert c in parts[i + 1];
      }
      if exists i :: 0 <= i < |parts| && c in parts[i] {
        var i :| 0 <= i < |parts| && c in parts[i];
        if i > 0 {
          assert c in parts[1..][i - 1];
        }
      }
    }
  }

  // ---------------------------------------------------------------- titles and descriptions

  /** The text before the first line feed, or the whole text when there is none. */
  function LineBeforeBreak(s: string): (line: string)
    ensures |line| <= |s| && '\n' !in line && line == s[..|line|]
  {
    if '\n' in s then s[..IndexOf(s, '\n')] else s
  }

  /** The text after the first line feed. */
  function TextAfterBreak(s: string): (rest: string)
    requires '\n' in s
    ensures s == LineBeforeBreak(s) + "\n" + rest
  {
    var i := IndexOf(s, '\n');
    assert s == s[..i] + [s[i]] + s[i + 1..];
    s[i + 1..]
  }

  /** What `split('\n')` yields, in terms of the first line feed. */
  lemma SplitLines(s: string)
    ensures Split(s, '\n')[0] == LineBeforeBreak(s)
    ensures |Split(s, '\n')| > 1 <==> '\n' in s
    ensures '\n' in s ==> Split(s, '\n')[1..] == Split(TextAfterBreak(s), '\n')
  {
  }

  /** When there is a line feed, `split('\n')[1]` is the line after the first. */
  lemma SplitSecondLine(s: string)
    ensures Split(s, '\n')[0] == LineBeforeBreak(s)
    ensures |Split(s, '\n')| > 1 <==> '\n' in s
    ensures '\n' in s ==> Split(s, '\n')[1] == LineBeforeBreak(TextAfterBreak(s))
  {
    SplitLines(s);
    if '\n' in s {
      SplitLines(TextAfterBreak(s));
    }
  }

  /** `lines.slice(1).join('\n')` is the text after the first line feed. */
  lemma LinesAfterFirst(s: string)
    requires '\n' in s
    ensures Join(Split(s, '\n')[1..], '\n') == TextAfterBreak(s)
  {
    SplitLines(s);
    JoinSplit(TextAfterBreak(s), '\n');
  }

  const UntitledContract := "Untitled Contract"

  /**
   * `extractContractTitle`: the trimmed first line of the decoded description,
   * else its trimmed second line, else the whole decoded text, each cut to
   * `maxLength` characters plus an ellipsis.
   */
  function ExtractContractTitle(workDescription: string, maxLength: nat): (r: string)
    ensures AllWhitespace(workDescription) ==> r == UntitledContract
    ensures !AllWhitespace(workDescription) ==> |r| <= maxLength + 3
    ensures !AllWhitespace(workDescription) ==>
      var text := HexToAscii(workDescription);
      var first := Trim(LineBeforeBreak(text));
      if |first| > 0 then r == TruncateWithEllipsis(first, maxLength)
      else if '\n' in text && |Trim(LineBeforeBreak(TextAfterBreak(text)))| > 0
      then r == TruncateWithEllipsis(Trim(LineBeforeBreak(TextAfterBreak(text))), maxLength)
      else r == TruncateWithEllipsis(text, maxLength)
  {
    if |workDescription| == 0 || |Trim(workDescription)| == 0 then UntitledContract
    else TitleOfText(HexToAscii(workDescription), maxLength)
  }

  /** The title `extractContractTitle` picks from decoded text. */
  function TitleOfText(asciiText: string, maxLength: nat): (r: string)
    ensures |r| <= maxLength + 3
    ensures
      var first := Trim(LineBeforeBreak(asciiText));
      if |first| > 0 then r == TruncateWithEllipsis(first, maxLength)
      else if '\n' in asciiText && |Trim(LineBeforeBreak(TextAfterBreak(asciiText)))| > 0
      then r == TruncateWithEllipsis(Trim(LineBeforeBreak(TextAfterBreak(asciiText))), maxLength)
      else r == TruncateWithEllipsis(asciiText, maxLength)
  {
    var lines := Split(asciiText, '\n');
    SplitSecondLine(asciiText);
    var firstLine := Trim(lines[0]);
    if |firstLine| > 0 && |firstLine| <= maxLength then firstLine
    else if |firstLine| > maxLength then TruncateWithEllipsis(firstLine, maxLength)
    else if |firstLine| == 0 && |lines| > 1 && |Trim(lines[1])| > 0 then
      TruncateWithEllipsis(Trim(lines[1]), maxLength)
    else TruncateWithEllipsis(asciiText, maxLength)
  }

  /**
   * `extractContractDescription`: the trimmed text after the first line of
   * the decoded description, cut to `maxLength` characters plus an ellipsis;
   * empty when there is no second line.
   */
  function ExtractContractDescription(workDescription: string, maxLength: nat): (r: string)
    ensures |r| <= maxLength + 3
    ensures AllWhitespace(workDescription) || '\n' !in HexToAscii(workDescription) ==> r == ""
    ensures !AllWhitespace(workDescription) && '\n' in HexToAscii(workDescription) ==>
      r == TruncateWithEllipsis(Trim(TextAfterBreak(HexToAscii(workDescription))), maxLength)
  {
    if |workDescription| == 0 || |Trim(workDescription)| == 0 then ""
    else BodyOfText(HexToAscii(workDescription), maxLength)
  }

  /** The description `extractContractDescription` takes from decoded text. */
  function BodyOfText(asciiText: string, maxLength: nat): (r: string)
    ensures |r| <= maxLength + 3
    ensures '\n' !in asciiText ==> r == ""
    ensures '\n' in asciiText ==> r == TruncateWithEllipsis(Trim(TextAfterBreak(asciiText)), maxLength)
  {
    var lines := Split(asciiText, '\n');
    LinesAfterFirstOrNone(asciiText);
    if |lines| <= 1 then ""
    else
      var descriptionWithoutTitle := Trim(Join(lines[1..], '\n'));
      if |descriptionWithoutTitle| == 0 then ""
      else TruncateWithEllipsis(descriptionWithoutTitle, maxLength)
  }

  /** The lines after the first exist exactly when there is a line feed, and rejoined they are the text after it. */
  lemma LinesAfterFirstOrNone(s: string)
    ensures |Split(s, '\n')| > 1 <==> '\n' in s
    ensures '\n' in s ==> Join(Split(s, '\n')[1..], '\n') == TextAfterBreak(s)
  {
    SplitLines(s);
    if '\n' in s {
      LinesAfterFirst(s);
    }
  }

  /**
   * A plain-text description written as a title line and a body is taken
   * apart again: the title is the first line and the description the body.
   */
  lemma TitleAndDescription(title: string, body: string, titleMax: nat, bodyMax: nat)
    requires 0 < |title| <= titleMax && '\n' !in title
    requires !IsWhitespace(title[0]) && !IsWhitespace(title[|title| - 1])
    requires 0 < |body| <= bodyMax
    requires !IsWhitespace(body[0]) && !IsWhitespace(body[|body| - 1])
    ensures ExtractContractTitle(title + "\n" + body, titleMax) == title
    ensures ExtractContractDescription(title + "\n" + body, bodyMax) == body
  {
    var text := title + "\n" + body;
    assert text[0] == title[0] && text[|text| - 1] == body[|body| - 1];
    TrimNoop(text);
    assert !AllWhitespace(text);
    assert !IsHexDigit(text[|title|]);
    assert !IsHexString(Trim(text));
    assert HexToAscii(text) == text;
    IndexOfAfter(title, '\n', body);
    assert LineBeforeBreak(text) == title;
    TrimNoop(title);
    assert TextAfterBreak(text) == body;
    TrimNoop(body);
  }

  // ---------------------------------------------------------------- statuses

  /** `formatStatus`: the label shown for each status. */
  function FormatStatus(status: Status): (name: string)
    ensures |name| > 0
  {
    match status
    case Initial => "Open for Bids"
    case BidAccepted => "Bid Accepted"
    case WorkStarted => "Work in Progress"
    case WorkSubmitted => "Work Submitted"
    case Resolved => "Completed"
    case DisputedBySeeker => "Disputed by Seeker"
    case DisputedByFurnisher => "Disputed by Furnisher"
  }

  /** The label of a status can be read back: no two statuses share one. */
  function StatusOfLabel(name: string): (r: Option<Status>)
    ensures r.Some? ==> FormatStatus(r.value) == name
  {
    if name == "Open for Bids" then Some(Initial)
    else if name == "Bid Accepted" then Some(BidAccepted)
    else if name == "Work in Progress" then Some(WorkStarted)
    else if name == "Work Submitted" then Some(WorkSubmitted)
    else if name == "Completed" then Some(Resolved)
    else if name == "Disputed by Seeker" then Some(DisputedBySeeker)
    else if name == "Disputed by Furnisher" then Some(DisputedByFurnisher)
    else None
  }

  lemma FormatStatusInjective(a: Status, b: Status)
    ensures StatusOfLabel(FormatStatus(a)) == Some(a)
    ensures FormatStatus(a) == FormatStatus(b) ==> a == b
  {
    assert StatusOfLabel(FormatStatus(b)) == Some(b);
  }

  /** The Material UI palette names `getStatusColor` chooses from. */
  datatype Color = DefaultColor | Primary | Secondary | ErrorColor | Warning | Info | SuccessColor

  /** `getStatusColor`. */
  function StatusColor(status: Status): (c: Color)
    ensures c == ErrorColor <==> IsDisputed(status)
    ensures c != DefaultColor
  {
    match status
    case Initial => Info
    case BidAccepted => Primary
    case WorkStarted => Warning
    case WorkSubmitted => Secondary
    case Resolved => SuccessColor
    case DisputedBySeeker => ErrorColor
    case DisputedByFurnisher => ErrorColor
  }

  /** The status a colour stands for in `getStatusColor`'s table; the error colour is shared by both disputes and the default colour by none. */
  function StatusOfColor(c: Color): Option<Status> {
    match c
    case Info => Some(Initial)
    case Primary => Some(BidAccepted)
    case Warning => Some(WorkStarted)
    case Secondary => Some(WorkSubmitted)
    case SuccessColor => Some(Resolved)
    case _ => None
  }

  /** Each status that is not a dispute has a colour of its own, which reads back to it. */
  lemma StatusColorTable(status: Status)
    ensures !IsDisputed(status) <==> StatusOfColor(StatusColor(status)) == Some(status)
  {
  }

  /** Only the two dispute statuses share a color. */
  lemma StatusColorDistinguishes(a: Status, b: Status)
    ensures StatusColor(a) == StatusColor(b) <==> a == b || (IsDisputed(a) && IsDisputed(b))
  {
  }
}
