/** The HTTP byte-range header value `bytes=first-last`, both ends inclusive
    (section 2.1 of RFC 7233). */
module HttpRange {
  import opened Types
  import opened Decimal

  datatype ByteRange = ByteRange(first: nat, last: nat)
  {
    /** A byte-range-spec whose last position is below its first is syntactically
        invalid, and a server ignores the whole Range header. */
    predicate Valid()
    {
      first <= last
    }

    /** How many bytes the inclusive window names (counted as none when it is not valid). */
    function Length(): nat
    {
      if last < first then 0 else last - first + 1
    }
  }

  /** The f-string f'bytes={first}-{last}': the unit, then two decimal numbers
      separated by the only dash. */
  function RangeHeader(first: nat, last: nat): (s: string)
    ensures |s| > 6 && s[..6] == "bytes="
    ensures exists k :: 6 < k < |s| - 1 && s[k] == '-' && AllDigits(s[6..k]) && AllDigits(s[k + 1..])
  {
    var a, b := NatToString(first), NatToString(last);
    var s := "bytes=" + a + "-" + b;
    assert s[6..6 + |a|] == a && s[6 + |a| + 1..] == b;
    s
  }

  /** The first position of c in s, if any. */
  function IndexOf(s: string, c: char): (r: Option<nat>)
    ensures r.Some? ==> r.value < |s| && s[r.value] == c
    ensures r.Some? ==> forall j :: 0 <= j < r.value ==> s[j] != c
    ensures r.None? ==> forall j :: 0 <= j < |s| ==> s[j] != c
  {
    if |s| == 0 then None
    else if s[0] == c then Some(0)
    else match IndexOf(s[1..], c)
      case None => None
      case Some(k) => Some(k + 1)
  }

  /** Reads a `bytes=first-last` value back into its window. */
  function ParseRange(s: string): (r: Option<ByteRange>)
  {
    if |s| < 6 || s[..6] != "bytes=" then None
    else
      var spec := s[6..];
      match IndexOf(spec, '-')
      case None => None
      case Some(k) =>
        match (ParseNat(spec[..k]), ParseNat(spec[k + 1..]))
        case (Some(first), Some(last)) => Some(ByteRange(first, last))
        case _ => None
  }

  /** The header value names exactly the window it was built from. */
  lemma RangeHeaderRoundTrip(first: nat, last: nat)
    ensures ParseRange(RangeHeader(first, last)) == Some(ByteRange(first, last))
  {
    var a, b := NatToString(first), NatToString(last);
    var s := RangeHeader(first, last);
    assert s[..6] == "bytes=";
    var spec := s[6..];
    assert spec == a + "-" + b;
    assert forall j :: 0 <= j < |a| ==> spec[j] == a[j] && IsDigit(a[j]);
    assert spec[|a|] == '-';
    assert IndexOf(spec, '-') == Some(|a|);
    assert spec[..|a|] == a;
    assert spec[|a| + 1..] == b;
    ParseNatToString(first);
    ParseNatToString(last);
  }
}
