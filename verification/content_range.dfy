/** The `Content-Range` value the uploader attaches to every chunk:
    `bytes <first>-<last>/<complete-length>`, the byte-range syntax of
    section 4.2 of RFC 7233. */
module ContentRange {
  import opened Wrappers
  import opened Decimal

  /** One chunk's position in the file. `last` is an `int` because the
      uploader writes `first + length - 1`, which is -1 for an empty chunk
      at offset 0. */
  datatype ByteRange = ByteRange(first: nat, last: int, completeLength: nat)
  {
    /** Number of bytes the range covers (zero for an empty chunk). */
    function Length(): int {
      last + 1 - first
    }
  }

  const Unit: string := "bytes "

  /** The header value, with every number rendered as a decimal numeral. */
  function Format(r: ByteRange): (s: string)
    ensures |s| > |Unit| && s[..|Unit|] == Unit
  {
    Unit + NatToString(r.first) + "-" + IntToString(r.last) + "/" + NatToString(r.completeLength)
  }

  /** A header assembled from numerals already known. */
  lemma FormatOfNumerals(r: ByteRange, first: string, last: string, length: string)
    requires NatToString(r.first) == first && IntToString(r.last) == last
    requires NatToString(r.completeLength) == length
    ensures Format(r) == Unit + first + "-" + last + "/" + length
  {
  }

  /** Reads a non-empty run of leading digits; returns its value and the rest. */
  function ParseNumber(s: string): (r: Option<(nat, string)>)
    ensures r.Some? ==> |r.value.1| < |s|
  {
    var k := DigitRun(s);
    if k == 0 then None else Some((DigitsValue(s[..k]), s[k..]))
  }

  /** Reads `-<last>` (the last position may itself carry a minus sign)
      and returns the value and the rest. */
  function ParseLast(s: string): Option<(int, string)> {
    if s == [] || s[0] != '-' then None
    else
      var negative := |s| > 1 && s[1] == '-';
      match ParseNumber(if negative then s[2..] else s[1..])
      case None => None
      case Some((magnitude, rest)) =>
        var last := if negative then 0 - magnitude as int else magnitude as int;
        Some((last, rest))
  }

  /** Reads `/<complete-length>` up to the end of the value. */
  function ParseCompleteLength(s: string): Option<nat> {
    if s == [] || s[0] != '/' then None
    else match ParseNumber(s[1..])
      case None => None
      case Some((length, rest)) => if rest != [] then None else Some(length)
  }

  /** Reads a header value back; a negative last position is accepted
      because the uploader produces one for an empty file. */
  function Parse(s: string): Option<ByteRange> {
    if |s| < |Unit| || s[..|Unit|] != Unit then None
    else match ParseNumber(s[|Unit|..])
      case None => None
      case Some((first, r1)) =>
        match ParseLast(r1)
        case None => None
        case Some((last, r2)) =>
          match ParseCompleteLength(r2)
          case None => None
          case Some(length) => Some(ByteRange(first, last, length))
  }

  /** A numeral followed by a non-digit is read as that number. */
  lemma ParseNumberOfNumeral(n: nat, t: string)
    requires t == [] || !IsDigit(t[0])
    ensures ParseNumber(NatToString(n) + t) == Some((n, t))
  {
    DigitRunOfNumeral(n, t);
    DigitsValueOfNumeral(n);
  }

  lemma ParseCompleteLengthOfNumeral(n: nat)
    ensures ParseCompleteLength("/" + NatToString(n)) == Some(n)
  {
    var s := "/" + NatToString(n);
    assert s[1..] == NatToString(n) + [];
    ParseNumberOfNumeral(n, []);
  }

  lemma ParseLastOfNumeral(i: int, t: string)
    requires t != [] && t[0] == '/'
    ensures ParseLast("-" + IntToString(i) + t) == Some((i, t))
  {
    if i < 0 {
      ParseLastOfNegative(i, t);
    } else {
      ParseLastOfNonNegative(i, t);
    }
  }

  lemma ParseLastOfNegative(i: int, t: string)
    requires i < 0 && t != [] && t[0] == '/'
    ensures ParseLast("-" + IntToString(i) + t) == Some((i, t))
  {
    var d := NatToString(-i);
    var s := "-" + IntToString(i) + t;
    assert IntToString(i) == "-" + d;
    assert s[0] == '-' && |s| > 1 && s[1] == '-';
    assert s[2..] == d + t;
    ParseNumberOfNumeral(-i, t);
  }

  lemma ParseLastOfNonNegative(n: nat, t: string)
    requires t != [] && t[0] == '/'
    ensures ParseLast("-" + IntToString(n) + t) == Some((n, t))
  {
    var d := NatToString(n);
    var s := "-" + d + t;
    assert IntToString(n) == d;
    assert s[0] == '-' && |s| > 1 && s[1] == d[0] && IsDigit(d[0]);
    assert s[1..] == d + t;
    ParseNumberOfNumeral(n, t);
  }

  /** The header determines the range it was formatted from: reading it
      back gives the same positions, including a negative last position. */
  lemma ParseFormat(r: ByteRange)
    ensures Parse(Format(r)) == Some(r)
  {
    var tail := "/" + NatToString(r.completeLength);
    var r1 := "-" + IntToString(r.last) + tail;
    var s := Format(r);
    assert s == Unit + (NatToString(r.first) + r1);
    assert s[..|Unit|] == Unit && s[|Unit|..] == NatToString(r.first) + r1;
    ParseNumberOfNumeral(r.first, r1);
    ParseLastOfNumeral(r.last, tail);
    ParseCompleteLengthOfNumeral(r.completeLength);
  }

  /** Distinct ranges give distinct headers. */
  lemma FormatInjective(r1: ByteRange, r2: ByteRange)
    requires Format(r1) == Format(r2)
    ensures r1 == r2
  {
    ParseFormat(r1);
    ParseFormat(r2);
  }

  /** Section 4.2 of RFC 7233: a byte range is invalid when its last
      position is below its first, or when the complete length does not
      exceed the last position. */
  predicate ValidRangeResp(r: ByteRange) {
    r.first <= r.last < r.completeLength
  }
}
