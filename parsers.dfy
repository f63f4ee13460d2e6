// The two scanners VfxEnc.cpp runs over ffmpeg's text output: the
// container bitrate in the banner of `ffmpeg -i` (ParseBitrateKbps) and the
// `out_time_ms=` lines of `-progress pipe:1` (ParseOutTimeMs).

module Parsers {
  import opened Strings

  // ---------------------------------------------------------------
  // Scanning primitives
  // ---------------------------------------------------------------

  predicate OccursAt(text: string, pat: string, k: nat)
  {
    k + |pat| <= |text| && text[k..k + |pat|] == pat
  }

  /** std::string::find(pat, from): the first occurrence starting at or
      after `from`. */
  function FindFrom(text: string, pat: string, from: nat): (r: Option<nat>)
    decreases |text| - from
    ensures r.Some? ==> from <= r.value && OccursAt(text, pat, r.value)
    ensures r.Some? ==> forall j :: from <= j < r.value ==> !OccursAt(text, pat, j)
    ensures r.None? ==> forall j :: from <= j ==> !OccursAt(text, pat, j)
  {
    if from + |pat| > |text| then None
    else if text[from..from + |pat|] == pat then Some(from)
    else FindFrom(text, pat, from + 1)
  }

  predicate IsBlank(c: char) { c == ' ' || c == '\t' }

  /** The first position at or after p that is not a space or a tab. */
  function SkipBlanks(text: string, p: nat): (q: nat)
    requires p <= |text|
    decreases |text| - p
    ensures p <= q <= |text|
    ensures forall i :: p <= i < q ==> IsBlank(text[i])
    ensures q < |text| ==> !IsBlank(text[q])
  {
    if p < |text| && IsBlank(text[p]) then SkipBlanks(text, p + 1) else p
  }

  /** The end of the run of decimal digits starting at p. */
  function DigitsEnd(text: string, p: nat): (q: nat)
    requires p <= |text|
    decreases |text| - p
    ensures p <= q <= |text|
    ensures AllDigits(text[p..q])
    ensures q < |text| ==> !IsDigit(text[q])
  {
    if p < |text| && IsDigit(text[p]) then
      var q := DigitsEnd(text, p + 1);
      assert text[p..q] == [text[p]] + text[p + 1..q];
      q
    else p
  }

  /** A digit run followed by a non-digit (or the end) ends where it seems. */
  lemma {:induction false} DigitsEndOfRun(text: string, p: nat, n: nat)
    requires p + n <= |text|
    requires AllDigits(text[p..p + n])
    requires p + n == |text| || !IsDigit(text[p + n])
    ensures DigitsEnd(text, p) == p + n
    decreases n
  {
    if n > 0 {
      assert IsDigit(text[p..p + n][0]);
      assert text[p + 1..p + n] == text[p..p + n][1..];
      DigitsEndOfRun(text, p + 1, n - 1);
    }
  }

  // ---------------------------------------------------------------
  // ParseBitrateKbps
  // ---------------------------------------------------------------

  const BitrateMarker: string := "bitrate:"

  /** `N/A` at position p, as compare(p, 3, "N/A") sees it when at
      least three characters remain. */
  predicate NotAvailableAt(text: string, p: nat)
  {
    p + 2 < |text| && text[p] == 'N' && text[p + 1] == '/' && text[p + 2] == 'A'
  }

  /** What follows one marker: `N/A`, or the digit run's value (0 when
      there are no digits) and the position after it. */
  datatype Reading = NotAvailable | Value(v: nat, next: nat)

  function ReadAfterMarker(text: string, m: nat): (rd: Reading)
    requires m + 8 <= |text|
    ensures rd.Value? ==> m + 8 <= rd.next <= |text|
  {
    var p := SkipBlanks(text, m + 8);
    if NotAvailableAt(text, p) then NotAvailable
    else
      var q := DigitsEnd(text, p);
      Value(DecimalValue(text[p..q]), q)
  }

  /** The scan from `from` on: find the next marker, skip blanks; `N/A`
      there gives 0 at once; a positive digit run is the answer; otherwise
      search again after the digits. No further marker gives 0. */
  function ScanBitrate(text: string, from: nat): (r: nat)
    requires from <= |text|
    decreases |text| - from
  {
    match FindFrom(text, BitrateMarker, from)
    case None => 0
    case Some(m) =>
      match ReadAfterMarker(text, m)
      case NotAvailable => 0
      case Value(v, next) => if v > 0 then v else ScanBitrate(text, next)
  }

  /** The blank skip, the `N/A` test and the digit loop after one marker. */
  method ReadMarker(text: string, m: nat) returns (rd: Reading)
    requires OccursAt(text, BitrateMarker, m)
    ensures rd == ReadAfterMarker(text, m)
  {
    var pos := m + 8;
    while pos < |text| && (text[pos] == ' ' || text[pos] == '\t')
      invariant m + 8 <= pos <= |text|
      invariant SkipBlanks(text, pos) == SkipBlanks(text, m + 8)
    {
      pos := pos + 1;
    }
    if pos + 2 < |text| && text[pos..pos + 3] == "N/A" {
      return NotAvailable;
    }
    var val, q := ReadDigits(text, pos);
    return Value(val, q);
  }

  /** The digit loop: the value of the digit run at `p` and where it ends. */
  method ReadDigits(text: string, p: nat) returns (val: nat, q: nat)
    requires p <= |text|
    ensures q == DigitsEnd(text, p) && val == DecimalValue(text[p..q])
  {
    val, q := 0, p;
    while q < |text| && '0' <= text[q] <= '9'
      invariant p <= q <= |text|
      invariant DigitsEnd(text, q) == DigitsEnd(text, p)
      invariant AllDigits(text[p..q]) && val == DecimalValue(text[p..q])
    {
      assert text[p..q + 1][..q - p] == text[p..q];
      val := val * 10 + (text[q] as int - '0' as int);
      q := q + 1;
    }
  }

  /** ParseBitrateKbps: the kb/s figure of the first marker with a
      positive value, 0 for none or for `N/A`. */
  method ParseBitrateKbps(text: string) returns (r: int)
    ensures r == ScanBitrate(text, 0)
  {
    ghost var from: nat := 0;
    var found := FindFrom(text, BitrateMarker, 0);
    while found.Some?
      invariant from <= |text|
      invariant found == FindFrom(text, BitrateMarker, from)
      invariant ScanBitrate(text, from) == ScanBitrate(text, 0)
      decreases |text| - from
    {
      var rd := ReadMarker(text, found.value);
      if rd.NotAvailable? {
        return 0;
      }
      if rd.v > 0 {
        return rd.v;
      }
      from := rd.next;
      found := FindFrom(text, BitrateMarker, rd.next);
    }
    return 0;
  }

  /** The digits after marker m, past its blanks, read as a number. */
  predicate ReportsAt(text: string, m: nat, v: nat)
  {
    OccursAt(text, BitrateMarker, m)
    && var p := SkipBlanks(text, m + 8);
       var q := DigitsEnd(text, p);
       v == DecimalValue(text[p..q])
  }

  /** A positive answer is the value written after some marker. */
  lemma {:induction false} PositiveBitrateIsReported(text: string, from: nat)
    requires from <= |text|
    ensures ScanBitrate(text, from) > 0 ==>
      exists m :: from <= m && ReportsAt(text, m, ScanBitrate(text, from))
    decreases |text| - from
  {
    match FindFrom(text, BitrateMarker, from)
    case None =>
    case Some(m) =>
      match ReadAfterMarker(text, m)
      case NotAvailable =>
      case Value(v, next) =>
        if v > 0 {
          assert ReportsAt(text, m, v);
        } else {
          PositiveBitrateIsReported(text, next);
        }
  }

  /** Without a marker there is no bitrate. */
  lemma NoMarkerNoBitrate(text: string)
    requires forall j :: !OccursAt(text, BitrateMarker, j)
    ensures ScanBitrate(text, 0) == 0
  {
    assert FindFrom(text, BitrateMarker, 0).None?;
  }

  lemma MarkerAtStart(text: string)
    requires StartsWith(text, BitrateMarker)
    ensures FindFrom(text, BitrateMarker, 0) == Some(0)
  {
  }

  /** A banner reporting `bitrate: <n>` with n > 0 yields n. */
  lemma BitrateOfReport(n: nat, rest: string)
    requires n > 0
    requires rest == [] || !IsDigit(rest[0])
    ensures ScanBitrate("bitrate: " + FormatNat(n) + rest, 0) == n
  {
    var ds := FormatNat(n);
    var text := "bitrate: " + ds + rest;
    assert text[..8] == BitrateMarker;
    MarkerAtStart(text);
    assert text[8] == ' ' && text[9] == ds[0];
    assert SkipBlanks(text, 9) == 9;
    assert text[9..9 + |ds|] == ds;
    DigitsEndOfRun(text, 9, |ds|);
    DecimalValueOfFormatNat(n);
    assert ReadAfterMarker(text, 0) == Value(n, 9 + |ds|);
  }

  /** An `N/A` after the first marker ends the scan with 0, whatever
      follows, a later positive report included. */
  lemma NotAvailableEndsScan(rest: string)
    ensures ScanBitrate("bitrate:  N/A" + rest, 0) == 0
  {
    var text := "bitrate:  N/A" + rest;
    assert text[..8] == BitrateMarker;
    MarkerAtStart(text);
    assert SkipBlanks(text, 10) == 10;
    assert ReadAfterMarker(text, 0) == NotAvailable;
  }

  /** One step of the scan, at a marker found from `from`. */
  lemma ScanBitrateAt(text: string, from: nat, m: nat)
    requires from <= |text|
    requires FindFrom(text, BitrateMarker, from) == Some(m)
    ensures ReadAfterMarker(text, m).NotAvailable? ==> ScanBitrate(text, from) == 0
    ensures ReadAfterMarker(text, m).Value? ==>
      var rd := ReadAfterMarker(text, m);
      ScanBitrate(text, from) == if rd.v > 0 then rd.v else ScanBitrate(text, rd.next)
  {
  }

  /** Marker m reads the positive value v, and every marker from `from`
      up to m reads 0: m is the first report the scan accepts. */
  predicate FirstPositiveAt(text: string, from: nat, m: nat, v: nat)
  {
    && from <= m && OccursAt(text, BitrateMarker, m)
    && v > 0 && ReadAfterMarker(text, m).Value? && ReadAfterMarker(text, m).v == v
    && forall j :: from <= j < m && OccursAt(text, BitrateMarker, j) ==>
         ReadAfterMarker(text, j).Value? && ReadAfterMarker(text, j).v == 0
  }

  /** No marker starts inside a marker or inside the blanks and digits
      read after it. */
  lemma NoMarkerInsideReading(text: string, k: nat, j: nat)
    requires OccursAt(text, BitrateMarker, k) && ReadAfterMarker(text, k).Value?
    requires k < j < ReadAfterMarker(text, k).next
    ensures text[j] != 'b' && !OccursAt(text, BitrateMarker, j)
  {
    assert OccursAt(text, BitrateMarker, j) ==> text[j] == text[j..j + 8][0] == 'b';
    if j < k + 8 {
      assert text[j] == text[k..k + 8][j - k];
    } else {
      var p := SkipBlanks(text, k + 8);
      if j < p {
        assert IsBlank(text[j]);
      } else {
        var q := DigitsEnd(text, p);
        assert text[j] == text[p..q][j - p];
      }
    }
  }

  /** A positive answer comes from the first marker that reads a positive
      value; the markers before it all read 0. */
  lemma {:induction false} ScanIsFirstPositive(text: string, from: nat) returns (m: nat)
    requires from <= |text| && ScanBitrate(text, from) > 0
    ensures FirstPositiveAt(text, from, m, ScanBitrate(text, from))
    decreases |text| - from
  {
    var k := FindFrom(text, BitrateMarker, from).value;
    var rd := ReadAfterMarker(text, k);
    ScanBitrateAt(text, from, k);
    assert rd.Value?;
    if rd.v > 0 {
      m := k;
      FirstFoundIsFirstPositive(text, from, k);
    } else {
      m := ScanIsFirstPositive(text, rd.next);
      ZeroReadingExtends(text, from, k, m, ScanBitrate(text, from));
    }
  }

  lemma FirstFoundIsFirstPositive(text: string, from: nat, k: nat)
    requires FindFrom(text, BitrateMarker, from) == Some(k)
    requires ReadAfterMarker(text, k).Value? && ReadAfterMarker(text, k).v > 0
    ensures FirstPositiveAt(text, from, k, ReadAfterMarker(text, k).v)
  {
  }

  /** A marker found from `from` that reads 0 joins the markers before a
      first positive report found after its reading. */
  lemma ZeroReadingExtends(text: string, from: nat, k: nat, m: nat, v: nat)
    requires FindFrom(text, BitrateMarker, from) == Some(k)
    requires ReadAfterMarker(text, k).Value? && ReadAfterMarker(text, k).v == 0
    requires FirstPositiveAt(text, ReadAfterMarker(text, k).next, m, v)
    ensures FirstPositiveAt(text, from, m, v)
  {
    var next := ReadAfterMarker(text, k).next;
    forall j | from <= j < m && OccursAt(text, BitrateMarker, j)
      ensures ReadAfterMarker(text, j).Value? && ReadAfterMarker(text, j).v == 0
    {
      if k < j < next {
        NoMarkerInsideReading(text, k, j);
      }
    }
  }

  /** The first marker that reads a positive value gives the answer. */
  lemma {:induction false} FirstPositiveIsScanned(text: string, from: nat, m: nat, v: nat)
    requires from <= |text| && FirstPositiveAt(text, from, m, v)
    ensures ScanBitrate(text, from) == v
    decreases |text| - from
  {
    var k := FindFrom(text, BitrateMarker, from).value;
    ScanBitrateAt(text, from, k);
    if k < m {
      var rd := ReadAfterMarker(text, k);
      assert rd.Value? && rd.v == 0;
      if m < rd.next {
        NoMarkerInsideReading(text, k, m);
      }
      FirstPositiveFromLater(text, from, rd.next, m, v);
      FirstPositiveIsScanned(text, rd.next, m, v);
    }
  }

  /** A first positive report stays the first when the scan starts later,
      but not after it. */
  lemma FirstPositiveFromLater(text: string, from: nat, n: nat, m: nat, v: nat)
    requires from <= n <= m && FirstPositiveAt(text, from, m, v)
    ensures FirstPositiveAt(text, n, m, v)
  {
  }

  /** ParseBitrateKbps answers v > 0 exactly when some marker is the first
      to read a positive value and that value is v: every earlier marker
      reads 0, none reads `N/A`. */
  lemma ScanFindsFirstPositive(text: string, v: nat)
    ensures ScanBitrate(text, 0) == v && v > 0 <==> exists m :: FirstPositiveAt(text, 0, m, v)
  {
    if ScanBitrate(text, 0) == v && v > 0 {
      var m := ScanIsFirstPositive(text, 0);
    }
    if exists m :: FirstPositiveAt(text, 0, m, v) {
      var m :| FirstPositiveAt(text, 0, m, v);
      FirstPositiveIsScanned(text, 0, m, v);
    }
  }

  /** A marker whose value is 0 does not end the scan: it goes on right
      after the digit, so the next marker decides. */
  lemma ZeroBitrateIsSkipped(rest: string)
    requires rest == [] || !IsDigit(rest[0])
    ensures ScanBitrate("bitrate: 0" + rest, 0) == ScanBitrate("bitrate: 0" + rest, 10)
  {
    var text := "bitrate: 0" + rest;
    assert text[..8] == BitrateMarker;
    MarkerAtStart(text);
    assert text[8] == ' ' && text[9] == '0';
    assert SkipBlanks(text, 9) == 9;
    assert AllDigits(text[9..10]);
    DigitsEndOfRun(text, 9, 1);
    assert text[9..10] == "0";
    assert DecimalValue("0") == 0 by {
      assert "0"[..0] == [];
    }
    assert ReadAfterMarker(text, 0) == Value(0, 10);
    ScanBitrateAt(text, 0, 0);
  }

  // ---------------------------------------------------------------
  // ParseOutTimeMs
  // ---------------------------------------------------------------

  const OutTimeKey: string := "out_time_ms="

  /** A progress line starts with the key and then at least one digit. */
  predicate IsProgressLine(line: string)
  {
    StartsWith(line, OutTimeKey) && |line| > 12 && IsDigit(line[12])
  }

  /** The value of the digit run after the key, -1 for any other line;
      whatever follows the digits is ignored. */
  function OutTimeMs(line: string): (r: int)
    ensures r == -1 <==> !IsProgressLine(line)
    ensures r >= -1
  {
    if !StartsWith(line, OutTimeKey) then -1
    else
      var q := DigitsEnd(line, 12);
      if q == 12 then -1 else DecimalValue(line[12..q])
  }

  /** ParseOutTimeMs: the loop over the characters after the key. */
  method ParseOutTimeMs(line: string) returns (r: int)
    ensures r == OutTimeMs(line)
  {
    if !StartsWith(line, OutTimeKey) {
      return -1;
    }
    var v := 0;
    var any := false;
    for i := |OutTimeKey| to |line|
      invariant DigitsEnd(line, i) == DigitsEnd(line, 12)
      invariant AllDigits(line[12..i]) && v == DecimalValue(line[12..i])
      invariant any <==> 12 < i
    {
      var c := line[i];
      if c < '0' || c > '9' {
        return if any then v else -1;
      }
      assert line[12..i + 1][..i - 12] == line[12..i];
      any := true;
      v := v * 10 + (c as int - '0' as int);
    }
    return if any then v else -1;
  }

  /** What ffmpeg writes reads back: the key, the decimal digits of n,
      and any tail that does not start with a digit. */
  lemma OutTimeRoundTrip(n: nat, rest: string)
    requires rest == [] || !IsDigit(rest[0])
    ensures OutTimeMs(OutTimeKey + FormatNat(n) + rest) == n
  {
    var ds := FormatNat(n);
    var line := OutTimeKey + ds + rest;
    assert line[..12] == OutTimeKey;
    assert line[12..12 + |ds|] == ds;
    DigitsEndOfRun(line, 12, |ds|);
    DecimalValueOfFormatNat(n);
  }
}
