// Planning of one encode job in RunEncode: the encoder candidates and
// their ffmpeg options, the target bitrate, the libplacebo filter graph
// with the escaped temp-script name and the 1440p width, the output and
// log names and the command line of one attempt. Every query RunEncode
// makes of mpv, the clock or the file system arrives as a parameter.

module Plan {
  import opened Strings
  import opened Paths

  // ---------------------------------------------------------------
  // Encoders and their options
  // ---------------------------------------------------------------

  /** The candidates `auto` expands to, in the order they are tried. */
  const AutoEncoders: seq<string> := ["hevc_amf", "hevc_nvenc", "hevc_qsv", "hevc_mf", "libx265"]

  /** The encoder BuildEncoderArgs selects: one of the four hardware
      encoders by name, the software encoder for every other name. */
  function CodecName(enc: string): (name: string)
    ensures name == (if enc in AutoEncoders then enc else "libx265")
  {
    if enc == "hevc_amf" || enc == "hevc_nvenc" || enc == "hevc_qsv" || enc == "hevc_mf" then enc
    else "libx265"
  }

  /** The rate-control options that follow the encoder name. */
  function RateControl(enc: string): string
  {
    if enc == "hevc_amf" then " -rc cbr "
    else if enc == "hevc_nvenc" then " -preset p5 -rc vbr -cq 23 "
    else " "
  }

  /** The codec and rate-control options BuildEncoderArgs starts with. */
  function CodecOptions(enc: string): string
  {
    "-c:v " + CodecName(enc) + RateControl(enc)
  }

  /** `%dM`, the rate format of the encoder options. */
  function Rate(mbps: int): string
  {
    FormatInt(mbps) + "M"
  }

  /** The rate options that end the arguments: -b:v at the target, and for
      every encoder except hevc_mf a -maxrate of the same rate and a
      -bufsize of twice the rate. */
  function RateOptions(enc: string, targetMbps: int): string
  {
    var rate := Rate(targetMbps);
    if enc == "hevc_mf" then "-b:v " + rate
    else "-b:v " + rate + " -maxrate " + rate + " -bufsize " + Rate(targetMbps * 2)
  }

  /** BuildEncoderArgs: the codec options followed by the rate options. */
  function BuildEncoderArgs(enc: string, targetMbps: int): string
  {
    CodecOptions(enc) + RateOptions(enc, targetMbps)
  }

  /** A name that is not one of the five encoders gets exactly the software
      encoder's options. */
  lemma UnknownEncoderIsSoftware(enc: string, targetMbps: int)
    requires enc !in AutoEncoders
    ensures BuildEncoderArgs(enc, targetMbps) == BuildEncoderArgs("libx265", targetMbps)
  {
  }

  /** The arguments select the named encoder when it is one of the five,
      and the software encoder otherwise. */
  lemma ArgsSelectEncoder(enc: string, targetMbps: int)
    ensures StartsWith(BuildEncoderArgs(enc, targetMbps), "-c:v " + CodecName(enc) + " ")
  {
    var head := "-c:v " + CodecName(enc);
    assert RateControl(enc)[0] == ' ';
    StartsWithJoined(head, RateControl(enc), RateOptions(enc, targetMbps));
  }

  lemma StartsWithJoined(head: string, s: string, t: string)
    requires |s| > 0
    ensures StartsWith(head + s + t, head + [s[0]])
  {
    assert (head + s + t)[..|head| + 1] == head + [s[0]];
  }

  /** The rate printed by `%dM` reads back as the number, followed by M. */
  lemma {:induction false} RateReadsBack(mbps: nat)
    ensures LeadingDigits(Rate(mbps)) == FormatNat(mbps)
    ensures DecimalValue(LeadingDigits(Rate(mbps))) == mbps
    ensures Rate(mbps)[|FormatNat(mbps)|] == 'M'
  {
    LeadingDigitsOfRun(FormatNat(mbps), "M");
    DecimalValueOfFormatNat(mbps);
  }

  /** Every encoder but hevc_mf ends its arguments with a buffer size that
      reads back as twice the target rate. */
  lemma BufferIsTwiceRate(enc: string, targetMbps: nat)
    requires enc != "hevc_mf"
    ensures var buf := Rate(targetMbps * 2);
      && EndsWith(BuildEncoderArgs(enc, targetMbps), " -bufsize " + buf)
      && DecimalValue(LeadingDigits(buf)) == 2 * targetMbps
  {
    ArgsEndWithBuffer(enc, targetMbps);
    RateReadsBack(targetMbps * 2);
  }

  lemma ArgsEndWithBuffer(enc: string, targetMbps: int)
    requires enc != "hevc_mf"
    ensures EndsWith(BuildEncoderArgs(enc, targetMbps), " -bufsize " + Rate(targetMbps * 2))
  {
    var codec, rate, buf := CodecOptions(enc), Rate(targetMbps), Rate(targetMbps * 2);
    var head, t := "-b:v " + rate + " -maxrate " + rate, " -bufsize " + buf;
    ConcatAssoc(head, " -bufsize ", buf);
    assert RateOptions(enc, targetMbps) == head + t;
    ConcatAssoc(codec, head, t);
    EndsWithJoined(codec + head, t);
  }

  /** The arguments of each encoder, written out as one string: rate
      control for hevc_amf and hevc_nvenc, -b:v and -maxrate at the target
      and -bufsize at twice the target, and for hevc_mf only -b:v. */
  lemma EncoderArgsSpelledOut(t: int)
    ensures var r, b := Rate(t), Rate(t * 2);
      && BuildEncoderArgs("hevc_amf", t)
           == "-c:v hevc_amf -rc cbr -b:v " + r + " -maxrate " + r + " -bufsize " + b
      && BuildEncoderArgs("hevc_nvenc", t)
           == "-c:v hevc_nvenc -preset p5 -rc vbr -cq 23 -b:v " + r + " -maxrate " + r + " -bufsize " + b
      && BuildEncoderArgs("hevc_qsv", t)
           == "-c:v hevc_qsv -b:v " + r + " -maxrate " + r + " -bufsize " + b
      && BuildEncoderArgs("hevc_mf", t) == "-c:v hevc_mf -b:v " + r
      && BuildEncoderArgs("libx265", t)
           == "-c:v libx265 -b:v " + r + " -maxrate " + r + " -bufsize " + b
  {
    AmfLeadingOptions();
    NvencLeadingOptions();
    QsvLeadingOptions();
    MfLeadingOptions();
    SoftwareLeadingOptions();
    SpelledArgs("hevc_amf", "-c:v hevc_amf -rc cbr -b:v ", t);
    SpelledArgs("hevc_nvenc", "-c:v hevc_nvenc -preset p5 -rc vbr -cq 23 -b:v ", t);
    SpelledArgs("hevc_qsv", "-c:v hevc_qsv -b:v ", t);
    SpelledArgs("libx265", "-c:v libx265 -b:v ", t);
    ConcatAssoc(CodecOptions("hevc_mf"), "-b:v ", Rate(t));
  }

  /** The text before the rate for hevc_amf. */
  lemma AmfLeadingOptions()
    ensures CodecOptions("hevc_amf") + "-b:v " == "-c:v hevc_amf -rc cbr -b:v "
  {
    assert CodecName("hevc_amf") == "hevc_amf" && RateControl("hevc_amf") == " -rc cbr ";
    assert "-c:v " + "hevc_amf" == "-c:v hevc_amf";
    assert "-c:v hevc_amf" + " -rc cbr " == "-c:v hevc_amf -rc cbr ";
  }

  /** The text before the rate for hevc_nvenc. */
  lemma NvencLeadingOptions()
    ensures CodecOptions("hevc_nvenc") + "-b:v " == "-c:v hevc_nvenc -preset p5 -rc vbr -cq 23 -b:v "
  {
    assert CodecName("hevc_nvenc") == "hevc_nvenc" && RateControl("hevc_nvenc") == " -preset p5 -rc vbr -cq 23 ";
    NvencOptionsText();
  }

  /** The literal half of NvencLeadingOptions, one short piece at a time. */
  lemma NvencOptionsText()
    ensures "-c:v " + "hevc_nvenc" + " -preset p5 -rc vbr -cq 23 " == "-c:v hevc_nvenc -preset p5 -rc vbr -cq 23 "
  {
    assert "-c:v " + "hevc_nvenc" == "-c:v hevc_nvenc";
  }

  /** The text before the rate for hevc_qsv. */
  lemma QsvLeadingOptions()
    ensures CodecOptions("hevc_qsv") + "-b:v " == "-c:v hevc_qsv -b:v "
  {
    assert CodecName("hevc_qsv") == "hevc_qsv" && RateControl("hevc_qsv") == " ";
    assert "-c:v " + "hevc_qsv" == "-c:v hevc_qsv";
  }

  /** The text before the rate for hevc_mf. */
  lemma MfLeadingOptions()
    ensures CodecOptions("hevc_mf") + "-b:v " == "-c:v hevc_mf -b:v "
  {
    assert CodecName("hevc_mf") == "hevc_mf" && RateControl("hevc_mf") == " ";
    assert "-c:v " + "hevc_mf" == "-c:v hevc_mf";
  }

  /** The text before the rate for libx265. */
  lemma SoftwareLeadingOptions()
    ensures CodecOptions("libx265") + "-b:v " == "-c:v libx265 -b:v "
  {
    assert CodecName("libx265") == "libx265" && RateControl("libx265") == " ";
    assert "-c:v " + "libx265" == "-c:v libx265";
  }

  /** The arguments of an encoder with all three rate options, from the
      text that precedes the rate. */
  lemma SpelledArgs(enc: string, lead: string, t: int)
    requires enc != "hevc_mf" && CodecOptions(enc) + "-b:v " == lead
    ensures BuildEncoderArgs(enc, t)
         == lead + Rate(t) + " -maxrate " + Rate(t) + " -bufsize " + Rate(t * 2)
  {
    Reassociate(CodecOptions(enc), "-b:v ", Rate(t), " -maxrate ", " -bufsize ", Rate(t * 2));
  }

  lemma Reassociate(c: string, v: string, r: string, m: string, s: string, b: string)
    ensures c + ((((v + r) + m) + r) + s + b) == ((((c + v) + r) + m) + r) + s + b
  {
    ConcatAssoc(c, (((v + r) + m) + r) + s, b);
    ConcatAssoc(c, ((v + r) + m) + r, s);
    ConcatAssoc(c, (v + r) + m, r);
    ConcatAssoc(c, v + r, m);
    ConcatAssoc(c, v, r);
  }

  /** Right after the codec options every encoder asks for -b:v at the
      target; hevc_mf stops there, the others go on with -maxrate at the
      same target. The rate reads back as the target. */
  lemma ArgsCarryTarget(enc: string, t: nat)
    ensures var o, r := BuildEncoderArgs(enc, t)[|CodecOptions(enc)|..], Rate(t);
      && 5 + |r| <= |o| && o[..5 + |r|] == "-b:v " + r
      && (enc == "hevc_mf" ==> |o| == 5 + |r|)
      && (enc != "hevc_mf" ==> 15 + 2 * |r| <= |o| && o[5 + |r|..15 + 2 * |r|] == " -maxrate " + r)
      && DecimalValue(LeadingDigits(r)) == t
  {
    assert BuildEncoderArgs(enc, t)[|CodecOptions(enc)|..] == RateOptions(enc, t);
    RateOptionsCarryTarget(enc, t);
    RateReadsBack(t);
  }

  lemma RateOptionsCarryTarget(enc: string, t: int)
    ensures var o, r := RateOptions(enc, t), Rate(t);
      && 5 + |r| <= |o| && o[..5 + |r|] == "-b:v " + r
      && (enc == "hevc_mf" ==> |o| == 5 + |r|)
      && (enc != "hevc_mf" ==> 15 + 2 * |r| <= |o| && o[5 + |r|..15 + 2 * |r|] == " -maxrate " + r)
  {
    var r := Rate(t);
    var bv, mx, tail := "-b:v " + r, " -maxrate " + r, " -bufsize " + Rate(t * 2);
    if enc != "hevc_mf" {
      ConcatAssoc(bv, " -maxrate ", r);
      ConcatAssoc(bv + mx, " -bufsize ", Rate(t * 2));
      assert RateOptions(enc, t) == bv + mx + tail;
      ThreeParts(bv, mx, tail);
    } else {
      assert RateOptions(enc, t) == bv;
    }
  }

  lemma ThreeParts(a: string, b: string, c: string)
    ensures (a + b + c)[..|a|] == a && (a + b + c)[|a|..|a| + |b|] == b
  {
  }

  lemma EndsWithJoined(s: string, t: string)
    ensures EndsWith(s + t, t)
  {
    assert (s + t)[|s|..] == t;
  }

  lemma EndsWithTrans(s: string, t: string, u: string)
    requires EndsWith(s, t) && EndsWith(t, u)
    ensures EndsWith(s, u)
  {
    assert s[|s| - |u|..] == s[|s| - |t|..][|t| - |u|..];
  }

  /** The candidate list: `auto` tries the five encoders in order, any other
      choice only itself. */
  function Candidates(choice: string): (encs: seq<string>)
    ensures |encs| >= 1
    ensures choice == "auto" ==> encs == AutoEncoders
    ensures choice != "auto" ==> encs == [choice]
  {
    if choice != "auto" then [choice] else AutoEncoders
  }

  // ---------------------------------------------------------------
  // The two combo boxes
  // ---------------------------------------------------------------

  /** The bitrate combo: entry 0 is "Auto (match input)", entry 1 is 5
      Mbps, entries 2 to 11 are 10 to 100 Mbps; anything else is Auto. */
  function BitrateForCombo(sel: int): (mbps: int)
    ensures 1 <= sel <= 11 ==> mbps == (if sel == 1 then 5 else (sel - 1) * 10)
    ensures !(1 <= sel <= 11) ==> mbps == 0
  {
    match sel
    case 1 => 5
    case 2 => 10
    case 3 => 20
    case 4 => 30
    case 5 => 40
    case 6 => 50
    case 7 => 60
    case 8 => 70
    case 9 => 80
    case 10 => 90
    case 11 => 100
    case _ => 0
  }

  /** The encoder combo: entry 0 is auto, entries 1 to 5 are the encoders
      in the order `auto` tries them; anything else is auto. */
  function EncoderForCombo(sel: int): (choice: string)
    ensures 1 <= sel <= 5 ==> choice == AutoEncoders[sel - 1]
    ensures !(1 <= sel <= 5) ==> choice == "auto"
  {
    match sel
    case 1 => "hevc_amf"
    case 2 => "hevc_nvenc"
    case 3 => "hevc_qsv"
    case 4 => "hevc_mf"
    case 5 => "libx265"
    case _ => "auto"
  }

  /** Whatever the combo selection, every candidate is one of the five
      encoders. */
  lemma ComboCandidatesAreKnown(sel: int, i: nat)
    requires i < |Candidates(EncoderForCombo(sel))|
    ensures Candidates(EncoderForCombo(sel))[i] in AutoEncoders
  {
  }

  // ---------------------------------------------------------------
  // Bitrates
  // ---------------------------------------------------------------

  /** The rounding of GetInputBitrateMbps: add half the unit, divide, and
      never go below 1. All operands are positive, so C++ division and
      Dafny's agree. */
  function RoundToUnit(x: int, unit: int): (r: int)
    requires x > 0 && unit >= 2 && unit % 2 == 0
    ensures r >= 1
    ensures x >= unit / 2 ==> r * unit - unit / 2 <= x < r * unit + unit / 2
    ensures x < unit / 2 ==> r == 1
  {
    var q := (x + unit / 2) / unit;
    if q < 1 then 1 else q
  }

  /** mpv's video-bitrate in bits per second, to whole Mbps. */
  function MbpsOfBps(bps: int): (mbps: int)
    requires bps > 0
    ensures mbps >= 1
  {
    RoundToUnit(bps, 1000000)
  }

  /** ffmpeg's reported container bitrate in kb/s, to whole Mbps. */
  function MbpsOfKbps(kbps: int): (mbps: int)
    requires kbps > 0
    ensures mbps >= 1
  {
    RoundToUnit(kbps, 1000)
  }

  /** GetInputBitrateMbps with its three sources given: mpv's video-bitrate
      (bits per second, not positive when unknown), the size-over-duration
      estimate already rounded (None without a duration or a file size), and
      ffmpeg's container bitrate in kb/s (0 when it reports none). The first
      source that knows wins, raised to at least 1 Mbps; 0 means none does. */
  function InputBitrateMbps(mpvBps: int, estimate: Option<int>, probeKbps: int): (mbps: int)
    ensures mbps >= 0
    ensures mbps == 0 <==> mpvBps <= 0 && estimate.None? && probeKbps <= 0
    ensures mpvBps > 0 ==> mbps == MbpsOfBps(mpvBps)
    ensures mpvBps <= 0 && estimate.Some? ==>
      && (estimate.value >= 1 ==> mbps == estimate.value)
      && (estimate.value < 1 ==> mbps == 1)
    ensures mpvBps <= 0 && estimate.None? && probeKbps > 0 ==> mbps == MbpsOfKbps(probeKbps)
  {
    if mpvBps > 0 then MbpsOfBps(mpvBps)
    else if estimate.Some? then (if estimate.value < 1 then 1 else estimate.value)
    else if probeKbps > 0 then MbpsOfKbps(probeKbps)
    else 0
  }

  /** The target bitrate: the combo's choice, else the input's bitrate,
      else 20 Mbps. */
  function TargetMbps(chosen: int, input: int): (mbps: int)
    ensures mbps > 0
    ensures chosen > 0 ==> mbps == chosen
    ensures chosen <= 0 && input > 0 ==> mbps == input
    ensures chosen <= 0 && input <= 0 ==> mbps == 20
  {
    if chosen > 0 then chosen
    else if input > 0 then input
    else 20
  }

  /** A fixed combo bitrate is used as is; Auto follows the input and falls
      back to 20 Mbps. */
  lemma TargetFromCombo(sel: int, mpvBps: int, estimate: Option<int>, probeKbps: int)
    ensures var t := TargetMbps(BitrateForCombo(sel), InputBitrateMbps(mpvBps, estimate, probeKbps));
      && (1 <= sel <= 11 ==> t == BitrateForCombo(sel) && 5 <= t <= 100)
      && (!(1 <= sel <= 11) && mpvBps <= 0 && estimate.None? && probeKbps <= 0 ==> t == 20)
      && (!(1 <= sel <= 11) && mpvBps > 0 ==> t == MbpsOfBps(mpvBps))
  {
  }

  // ---------------------------------------------------------------
  // Escaping a filter option value
  // ---------------------------------------------------------------

  /** The characters that separate filter options and must be escaped. */
  predicate IsFilterSpecial(c: char)
  {
    c == ':' || c == ',' || c == '='
  }

  /** What FfmpegEscapeFilterValue writes for one character: a backslash
      becomes a forward slash, a separator gets a backslash in front. */
  function EscapeChar(c: char): string
  {
    if c == '\\' then "/"
    else if IsFilterSpecial(c) then ['\\', c]
    else [c]
  }

  /** The escaped value, character by character. */
  function EscapeFilterValue(s: string): string
  {
    if s == [] then [] else EscapeChar(s[0]) + EscapeFilterValue(s[1..])
  }

  /** FfmpegEscapeFilterValue: one pass over the value, appending the
      escape of each character. */
  method FfmpegEscapeFilterValue(value: string) returns (out: string)
    ensures out == EscapeFilterValue(value)
  {
    out := [];
    for i := 0 to |value|
      invariant out + EscapeFilterValue(value[i..]) == EscapeFilterValue(value)
    {
      var c := value[i];
      ghost var before := out;
      assert value[i..][1..] == value[i + 1..];
      if c == '\\' {
        out := out + "/";
      } else if c == ':' {
        out := out + "\\:";
      } else if c == ',' {
        out := out + "\\,";
      } else if c == '=' {
        out := out + "\\=";
      } else {
        out := out + [c];
      }
      assert out == before + EscapeChar(c);
      ConcatAssoc(before, EscapeChar(c), EscapeFilterValue(value[i + 1..]));
    }
  }

  /** Option-level unescaping, as ffmpeg's option parser reads a value: a
      backslash takes the next character literally. ffmpeg's quote
      character and the second, graph-level escaping are not modelled;
      TempNameNeedsNoEscaping shows the value RunEncode escapes never
      needs either. */
  function UnescapeFilterValue(t: string): string
  {
    if t == [] then []
    else if t[0] == '\\' && |t| >= 2 then [t[1]] + UnescapeFilterValue(t[2..])
    else [t[0]] + UnescapeFilterValue(t[1..])
  }

  /** The value with every backslash turned into a forward slash. */
  function Slashed(s: string): (r: string)
    ensures |r| == |s|
  {
    seq(|s|, i requires 0 <= i < |s| => if s[i] == '\\' then '/' else s[i])
  }

  /** No separator is left bare: each one follows a backslash, and every
      backslash escapes a separator. */
  predicate WellEscaped(t: string)
  {
    if t == [] then true
    else if t[0] == '\\' then |t| >= 2 && IsFilterSpecial(t[1]) && WellEscaped(t[2..])
    else !IsFilterSpecial(t[0]) && WellEscaped(t[1..])
  }

  lemma UnescapeChar(c: char, rest: string)
    ensures UnescapeFilterValue(EscapeChar(c) + rest) == Slashed([c]) + UnescapeFilterValue(rest)
    ensures WellEscaped(rest) ==> WellEscaped(EscapeChar(c) + rest)
  {
    var t := EscapeChar(c) + rest;
    if IsFilterSpecial(c) {
      assert t[2..] == rest;
    } else {
      assert t[1..] == rest;
    }
  }

  /** Backslash (option-level) unescaping reads the escaped value back as
      the value with forward slashes. */
  lemma {:induction false} UnescapeEscape(s: string)
    ensures UnescapeFilterValue(EscapeFilterValue(s)) == Slashed(s)
  {
    if s != [] {
      UnescapeEscape(s[1..]);
      UnescapeChar(s[0], EscapeFilterValue(s[1..]));
      assert Slashed(s) == Slashed([s[0]]) + Slashed(s[1..]);
    }
  }

  /** The escaped value leaves no separator bare. */
  lemma {:induction false} EscapedIsWellEscaped(s: string)
    ensures WellEscaped(EscapeFilterValue(s))
  {
    if s != [] {
      EscapedIsWellEscaped(s[1..]);
      UnescapeChar(s[0], EscapeFilterValue(s[1..]));
    }
  }

  // ---------------------------------------------------------------
  // The 1440p width
  // ---------------------------------------------------------------

  /** The output height of the 1440p mode. */
  const OutHeight: int := 1440

  /** The aspect-correct width for 1440p: iw * 1440 / ih rounded half up,
      then the low bit cleared to keep it even. Without a known positive
      size the video counts as 1920x1080. */
  function ScaledWidth(videoW: int, videoH: int): (w: int)
    ensures w >= 0 && w % 2 == 0
    ensures videoW > 0 && videoH > 0 ==>
      2 * videoH * w <= 2 * OutHeight * videoW + videoH < 2 * videoH * (w + 2)
    ensures !(videoW > 0 && videoH > 0) ==> w == 2560
  {
    var known := videoW > 0 && videoH > 0;
    var iw := if known then videoW else 1920;
    var ih := if known then videoH else 1080;
    var n := 2 * iw * OutHeight + ih;
    var rounded := n / (2 * ih);
    EvenQuotientBounds(n, 2 * ih);
    rounded - rounded % 2
  }

  /** A quotient with its low bit cleared stays within two steps of the
      dividend. */
  lemma EvenQuotientBounds(n: int, d: int)
    requires n >= 0 && d > 0
    ensures var q := n / d; var w := q - q % 2;
      w >= 0 && w % 2 == 0 && d * w <= n < d * (w + 2)
  {
    var q := n / d;
    var w := q - q % 2;
    assert d * q <= n < d * (q + 1);
    assert w <= q < w + 2;
    MulLe(d, w, q);
    MulLe(d, q + 1, w + 2);
  }

  lemma MulLe(c: int, a: int, b: int)
    requires c >= 0 && a <= b
    ensures c * a <= c * b
  {
    assert c * b - c * a == c * (b - a);
  }

  /** Clearing the low bit loses a pixel when the rounded width is odd:
      854x480 scales to 2562, but 853x480 rounds to 2559 and ends at 2558. */
  lemma OddWidthLosesAPixel()
    ensures ScaledWidth(854, 480) == 2562
    ensures ScaledWidth(853, 480) == 2558
  {
  }

  // ---------------------------------------------------------------
  // The filter graph
  // ---------------------------------------------------------------

  /** The fields of the SYSTEMTIME the temp-script name is stamped with. */
  datatype SystemTime = SystemTime(year: nat, month: nat, day: nat, hour: nat, minute: nat, second: nat)

  /** `%0<width>u`: the decimal digits of n, padded with zeros on the left
      to at least `width` characters. */
  function ZeroPad(n: nat, width: nat): (r: string)
    ensures AllDigits(r) && |r| >= 1 && |r| >= width
    ensures |FormatNat(n)| <= width ==> |r| == width
    decreases width
  {
    if width <= |FormatNat(n)| then FormatNat(n) else "0" + ZeroPad(n, width - 1)
  }

  /** The padding zeros do not change the value. */
  lemma {:induction false} ZeroPadValue(n: nat, width: nat)
    ensures DecimalValue(ZeroPad(n, width)) == n
    decreases width
  {
    if width <= |FormatNat(n)| {
      DecimalValueOfFormatNat(n);
    } else {
      ZeroPadValue(n, width - 1);
      LeadingZeroValue(ZeroPad(n, width - 1));
    }
  }

  lemma {:induction false} LeadingZeroValue(ds: string)
    requires AllDigits(ds)
    ensures AllDigits("0" + ds) && DecimalValue("0" + ds) == DecimalValue(ds)
  {
    if ds != [] {
      var n := |ds| - 1;
      assert ("0" + ds)[..|ds|] == "0" + ds[..n];
      LeadingZeroValue(ds[..n]);
    }
  }

  /** combined_shaders_YYYYMMDD_HHMMSS.glsl */
  function TempScriptName(st: SystemTime): string
  {
    TempScriptStem(st) + ".glsl"
  }

  /** The temp script is named like a shader and holds no separator, so
      it is found by that name in the directory it was written to. */
  lemma TempScriptNameIsPlain(exeDir: string, st: SystemTime)
    ensures IsShaderFile(TempScriptName(st))
    ensures NoSeparator(TempScriptName(st))
    ensures FilenameOnly(JoinPath(exeDir, TempScriptName(st))) == TempScriptName(st)
  {
    var stem := TempScriptStem(st);
    assert TempScriptName(st) == stem + ".glsl";
    EndsWithAppended(stem, ".glsl");
    StemHasNoSeparator(st);
    LiteralsHaveNoSeparator();
    NoSeparatorJoin(stem, ".glsl");
    SplitJoinedPath(exeDir, TempScriptName(st));
  }

  /** The name without its suffix. */
  function TempScriptStem(st: SystemTime): string
  {
    "combined_shaders_"
      + ZeroPad(st.year, 4) + ZeroPad(st.month, 2) + ZeroPad(st.day, 2)
      + "_" + ZeroPad(st.hour, 2) + ZeroPad(st.minute, 2) + ZeroPad(st.second, 2)
  }

  lemma StemHasNoSeparator(st: SystemTime)
    ensures NoSeparator(TempScriptStem(st))
  {
    var digits1 := ZeroPad(st.year, 4) + ZeroPad(st.month, 2) + ZeroPad(st.day, 2);
    var digits2 := ZeroPad(st.hour, 2) + ZeroPad(st.minute, 2) + ZeroPad(st.second, 2);
    assert TempScriptStem(st) == "combined_shaders_" + digits1 + "_" + digits2;
    DigitsHaveNoSeparator(digits1);
    DigitsHaveNoSeparator(digits2);
    LiteralsHaveNoSeparator();
    NoSeparatorJoin("combined_shaders_", digits1);
    NoSeparatorJoin("combined_shaders_" + digits1, "_");
    NoSeparatorJoin("combined_shaders_" + digits1 + "_", digits2);
  }

  lemma LiteralsHaveNoSeparator()
    ensures NoSeparator("combined_shaders_") && NoSeparator("_") && NoSeparator(".glsl")
  {
  }

  lemma DigitsHaveNoSeparator(ds: string)
    requires AllDigits(ds)
    ensures NoSeparator(ds)
  {
  }

  lemma NoSeparatorJoin(a: string, b: string)
    requires NoSeparator(a) && NoSeparator(b)
    ensures NoSeparator(a + b)
  {
    assert forall i :: 0 <= i < |b| ==> (a + b)[|a| + i] == b[i];
  }

  /** Every timestamp within the field widths gives a name of the same
      length. */
  lemma TempScriptNameLength(st: SystemTime)
    requires st.year < 10000 && st.month < 100 && st.day < 100
    requires st.hour < 100 && st.minute < 100 && st.second < 100
    ensures |TempScriptName(st)| == 37
  {
    FormatNatLength(st.year, 4);
    FormatNatLength(st.month, 2);
    FormatNatLength(st.day, 2);
    FormatNatLength(st.hour, 2);
    FormatNatLength(st.minute, 2);
    FormatNatLength(st.second, 2);
  }

  function Pow10(k: nat): nat
  {
    if k == 0 then 1 else 10 * Pow10(k - 1)
  }

  lemma {:induction false} FormatNatLength(n: nat, k: nat)
    requires k >= 1 && n < Pow10(k)
    ensures |FormatNat(n)| <= k
  {
    if n >= 10 {
      FormatNatLength(n / 10, k - 1);
    }
  }

  /** WriteCombinedShaderTemp as RunEncode sees it: the file name is set
      before the file is opened, and the full path is returned only when the
      file could be created in the program's directory. */
  datatype TempScript = TempScript(path: string, name: string)

  function WriteCombinedShaderTemp(exeDir: string, st: SystemTime, created: bool): (t: TempScript)
    ensures t.name == TempScriptName(st)
    ensures t.path != [] <==> created
  {
    TempScript(if created then JoinPath(exeDir, TempScriptName(st)) else [], TempScriptName(st))
  }

  /** The text the temp script receives: every active shader that can be
      read, framed by BEGIN/END comment lines; an unreadable one is
      skipped. */
  function CombinedScriptText(shaders: seq<string>, texts: seq<Option<string>>): string
    requires |texts| == |shaders|
  {
    if shaders == [] then []
    else
      var n := |shaders| - 1;
      var prev := CombinedScriptText(shaders[..n], texts[..n]);
      match texts[n]
      case None => prev
      case Some(text) => prev + "\n// ---- BEGIN: " + shaders[n] + "\n" + text + "\n// ---- END\n"
  }

  /** Without an active shader that can be read the temp script is empty,
      yet it exists and is used: the filter graph below only looks at
      whether it was opened. */
  lemma {:induction false} NoReadableShaderEmptyScript(shaders: seq<string>, texts: seq<Option<string>>)
    requires |texts| == |shaders|
    requires forall i :: 0 <= i < |texts| ==> texts[i].None?
    ensures CombinedScriptText(shaders, texts) == []
  {
    if shaders != [] {
      var n := |shaders| - 1;
      NoReadableShaderEmptyScript(shaders[..n], texts[..n]);
    }
  }

  /** A shader that can be read adds its text to the script, after
      everything before it. */
  lemma ReadableShaderAppends(shaders: seq<string>, texts: seq<Option<string>>, path: string, text: string)
    requires |texts| == |shaders|
    ensures var before := CombinedScriptText(shaders, texts);
      var after := CombinedScriptText(shaders + [path], texts + [Some(text)]);
      && |after| == |before| + |path| + |text| + 30
      && after[..|before|] == before
      && after[|before| + 16..|before| + 16 + |path|] == path
  {
    var n := |shaders|;
    assert (shaders + [path])[..n] == shaders;
    assert (texts + [Some(text)])[..n] == texts;
  }

  /** The prefix of the shader stage. */
  const ShaderStage: string := "libplacebo=custom_shader_path="

  /** The first libplacebo stage: with the temp script, its escaped name
      (the full path when the name is empty); without it, plain libplacebo. */
  function ShaderFilter(temp: TempScript): string
  {
    if temp.path != [] then
      var shaderArg := if temp.name == [] then temp.path else temp.name;
      ShaderStage + EscapeFilterValue(shaderArg)
    else "libplacebo"
  }

  /** The 1440p scaling stage. */
  function ScaleFilter(width: int): string
  {
    ",libplacebo=w=" + FormatInt(width) + ":h=" + FormatInt(OutHeight)
  }

  /** The whole -vf value RunEncode builds. */
  function FilterGraph(temp: TempScript, to1440p: bool, videoW: int, videoH: int): (vf: string)
    ensures to1440p ==> EndsWith(vf, ScaleFilter(ScaledWidth(videoW, videoH)))
    ensures to1440p ==> StartsWith(vf, ShaderFilter(temp))
    ensures to1440p ==> |vf| == |ShaderFilter(temp)| + |ScaleFilter(ScaledWidth(videoW, videoH))|
    ensures !to1440p ==> vf == ShaderFilter(temp)
  {
    var stage := ShaderFilter(temp);
    if to1440p then
      var scale := ScaleFilter(ScaledWidth(videoW, videoH));
      assert (stage + scale)[|stage|..] == scale;
      assert (stage + scale)[..|stage|] == stage;
      stage + scale
    else stage
  }

  /** Once the temp script could be opened, the graph loads it by the name
      it was written under, whatever shaders are active (none included),
      and backslash unescaping reads that name back with forward slashes. */
  lemma FilterUsesTempScript(exeDir: string, st: SystemTime, to1440p: bool, videoW: int, videoH: int)
    ensures var vf := FilterGraph(WriteCombinedShaderTemp(exeDir, st, true), to1440p, videoW, videoH);
      var name := TempScriptName(st);
      && StartsWith(vf, ShaderStage + EscapeFilterValue(name))
      && UnescapeFilterValue(EscapeFilterValue(name)) == Slashed(name)
  {
    var name := TempScriptName(st);
    var temp := WriteCombinedShaderTemp(exeDir, st, true);
    var stage := ShaderFilter(temp);
    assert stage == ShaderStage + EscapeFilterValue(name);
    if to1440p {
      var scale := ScaleFilter(ScaledWidth(videoW, videoH));
      assert (stage + scale)[..|stage|] == stage;
    }
    UnescapeEscape(name);
  }

  /** When the temp script cannot be opened, the graph is plain
      libplacebo. */
  lemma FilterWithoutTempScript(exeDir: string, st: SystemTime, to1440p: bool, videoW: int, videoH: int)
    ensures StartsWith(FilterGraph(WriteCombinedShaderTemp(exeDir, st, false), to1440p, videoW, videoH), "libplacebo")
    ensures !to1440p ==> FilterGraph(WriteCombinedShaderTemp(exeDir, st, false), to1440p, videoW, videoH) == "libplacebo"
  {
    var stage := ShaderFilter(WriteCombinedShaderTemp(exeDir, st, false));
    if to1440p {
      var scale := ScaleFilter(ScaledWidth(videoW, videoH));
      assert (stage + scale)[..|stage|] == stage;
    }
  }

  /** The characters of the temp-script name: lower-case letters, digits,
      '_' and '.'. None is a filter separator, a backslash, a quote or a
      bracket, so none is special to ffmpeg's option or graph parser. */
  predicate PlainChar(c: char)
  {
    'a' <= c <= 'z' || IsDigit(c) || c == '_' || c == '.'
  }

  predicate AllPlain(s: string)
  {
    forall i :: 0 <= i < |s| ==> PlainChar(s[i])
  }

  lemma AllPlainJoin(a: string, b: string)
    requires AllPlain(a) && AllPlain(b)
    ensures AllPlain(a + b)
  {
    assert forall i :: 0 <= i < |b| ==> (a + b)[|a| + i] == b[i];
  }

  /** Plain text passes through FfmpegEscapeFilterValue unchanged. */
  lemma {:induction false} PlainNeedsNoEscaping(s: string)
    requires AllPlain(s)
    ensures EscapeFilterValue(s) == s
  {
    if s != [] {
      assert PlainChar(s[0]);
      assert forall i :: 0 <= i < |s[1..]| ==> s[1..][i] == s[i + 1];
      PlainNeedsNoEscaping(s[1..]);
    }
  }

  lemma TempScriptNameIsPlainText(st: SystemTime)
    ensures AllPlain(TempScriptName(st))
  {
    var digits1 := ZeroPad(st.year, 4) + ZeroPad(st.month, 2) + ZeroPad(st.day, 2);
    var digits2 := ZeroPad(st.hour, 2) + ZeroPad(st.minute, 2) + ZeroPad(st.second, 2);
    assert TempScriptName(st) == "combined_shaders_" + digits1 + "_" + digits2 + ".glsl";
    DateDigitsArePlain(ZeroPad(st.year, 4), ZeroPad(st.month, 2), ZeroPad(st.day, 2));
    DateDigitsArePlain(ZeroPad(st.hour, 2), ZeroPad(st.minute, 2), ZeroPad(st.second, 2));
    TempNamePartsArePlain();
    AllPlainJoin("combined_shaders_", digits1);
    AllPlainJoin("combined_shaders_" + digits1, "_");
    AllPlainJoin("combined_shaders_" + digits1 + "_", digits2);
    AllPlainJoin("combined_shaders_" + digits1 + "_" + digits2, ".glsl");
  }

  lemma DateDigitsArePlain(a: string, b: string, c: string)
    requires AllDigits(a) && AllDigits(b) && AllDigits(c)
    ensures AllPlain(a + b + c)
  {
    AllPlainJoin(a, b);
    AllPlainJoin(a + b, c);
  }

  lemma TempNamePartsArePlain()
    ensures AllPlain("combined_shaders_") && AllPlain("_") && AllPlain(".glsl")
  {
  }

  /** The value RunEncode escapes is always the temp-script name, never the
      full path (the name is never empty). That name is plain text: the
      escaping leaves it unchanged, and it holds no quote, so the quoting
      and graph-level escaping ffmpeg also applies have nothing to act on. */
  lemma TempNameNeedsNoEscaping(exeDir: string, st: SystemTime)
    ensures ShaderFilter(WriteCombinedShaderTemp(exeDir, st, true)) == ShaderStage + TempScriptName(st)
    ensures AllPlain(TempScriptName(st)) && '\'' !in TempScriptName(st)
  {
    TempScriptNameIsPlainText(st);
    PlainNeedsNoEscaping(TempScriptName(st));
    assert TempScriptName(st) != [];
  }

  // ---------------------------------------------------------------
  // Output, log and command line
  // ---------------------------------------------------------------

  /** What RunEncode appends to the input's base name, before ".mp4". */
  function OutputStem(to1440p: bool): string
  {
    if to1440p then "_shaded_1440p" else "_shaded"
  }

  /** The output file: next to the input, named after its base name. */
  function OutputPath(video: string, to1440p: bool): string
  {
    JoinPath(Dirname(video), BasenameNoExt(video) + OutputStem(to1440p) + ".mp4")
  }

  /** The log file: in the program's directory, named after the output. */
  function LogPath(exeDir: string, out: string): string
  {
    JoinPath(exeDir, BasenameNoExt(out) + ".log")
  }

  lemma BasenameHasNoSeparator(p: string)
    ensures NoSeparator(BasenameNoExt(p))
  {
    PathSplits(p);
    var file := FilenameOnly(p);
    assert BasenameNoExt(p) == file[..|BasenameNoExt(p)|];
  }

  lemma OutputLiterals()
    ensures NoSeparator("_shaded_1440p") && NoSeparator("_shaded") && NoSeparator(".mp4")
    ensures NoSeparator(".log")
    ensures ".mp4"[0] == '.' && '.' !in ".mp4"[1..]
  {
  }

  /** The output's file name is the input's base name with the stem and
      ".mp4", and its own base name drops only the ".mp4". */
  lemma OutputNamedAfterInput(video: string, to1440p: bool)
    ensures var name := BasenameNoExt(video) + OutputStem(to1440p);
      && FilenameOnly(OutputPath(video, to1440p)) == name + ".mp4"
      && BasenameNoExt(OutputPath(video, to1440p)) == name
  {
    var name := BasenameNoExt(video) + OutputStem(to1440p);
    OutputNameIsPlain(video, to1440p, ".mp4");
    OutputLiterals();
    SplitJoinedPath(Dirname(video), name + ".mp4");
    BasenameOfJoined(Dirname(video), name, ".mp4");
  }

  /** The input's base name with the stem and an extension holds no
      separator. */
  lemma OutputNameIsPlain(video: string, to1440p: bool, ext: string)
    requires NoSeparator(ext)
    ensures NoSeparator(BasenameNoExt(video) + OutputStem(to1440p) + ext)
  {
    BasenameHasNoSeparator(video);
    OutputLiterals();
    NoSeparatorJoin(BasenameNoExt(video), OutputStem(to1440p));
    NoSeparatorJoin(BasenameNoExt(video) + OutputStem(to1440p), ext);
  }

  /** The output goes into the input's directory, when that directory is
      named by a non-empty prefix not ending in a separator. */
  lemma OutputBesideInput(video: string, to1440p: bool)
    requires LastSeparator(video).Some?
    requires var k := LastSeparator(video).value; k > 0 && !IsSeparator(video[k - 1])
    ensures Dirname(OutputPath(video, to1440p)) == Dirname(video)
  {
    OutputLiterals();
    OutputNameIsPlain(video, to1440p, ".mp4");
    SplitJoinedPath(Dirname(video), BasenameNoExt(video) + OutputStem(to1440p) + ".mp4");
  }

  /** The log is named after the input: its base name, the stem, ".log". */
  lemma LogNamedAfterInput(exeDir: string, video: string, to1440p: bool)
    ensures FilenameOnly(LogPath(exeDir, OutputPath(video, to1440p)))
         == BasenameNoExt(video) + OutputStem(to1440p) + ".log"
  {
    var name := BasenameNoExt(video) + OutputStem(to1440p);
    OutputNamedAfterInput(video, to1440p);
    OutputLiterals();
    OutputNameIsPlain(video, to1440p, ".log");
    SplitJoinedPath(exeDir, name + ".log");
  }

  /** The options that make ffmpeg report progress on its output. */
  const ProgressOptions: string := "-progress pipe:1 -nostats "

  /** Everything of the command line between the quoted ffmpeg and the
      progress options. */
  function CommandOptions(video: string, vf: string, enc: string, targetMbps: int): string
  {
    " -hide_banner -y -i " + Quote(video) + " -vf " + Quote(vf) + " "
      + BuildEncoderArgs(enc, targetMbps) + " -c:a copy "
  }

  /** The command line of one attempt: the progress options are added only
      when the duration is known. */
  function EncodeCommand(ffmpeg: string, video: string, vf: string, enc: string, targetMbps: int,
                         durationSec: real, out: string): string
  {
    Quote(ffmpeg) + CommandOptions(video, vf, enc, targetMbps)
      + (if durationSec > 0.0 then ProgressOptions else []) + Quote(out)
  }

  /** The command runs the quoted ffmpeg and ends with the quoted output. */
  lemma CommandShape(ffmpeg: string, video: string, vf: string, enc: string, targetMbps: int,
                     durationSec: real, out: string)
    ensures var cmd := EncodeCommand(ffmpeg, video, vf, enc, targetMbps, durationSec, out);
      StartsWith(cmd, Quote(ffmpeg)) && EndsWith(cmd, Quote(out))
  {
    var q, rest := Quote(ffmpeg), CommandOptions(video, vf, enc, targetMbps);
    var progress := if durationSec > 0.0 then ProgressOptions else [];
    ConcatAssoc(q, rest, progress);
    FramedBy(q, rest + progress, Quote(out));
  }

  lemma FramedBy(a: string, mid: string, b: string)
    ensures StartsWith(a + mid + b, a) && EndsWith(a + mid + b, b)
  {
    assert (a + mid + b)[..|a|] == a;
    assert (a + mid + b)[|a + mid|..] == b;
  }

  /** A known duration adds the progress options right before the output
      and changes nothing else. */
  lemma ProgressOptionsOnlyWithDuration(ffmpeg: string, video: string, vf: string, enc: string,
                                        targetMbps: int, known: real, unknown: real, out: string)
    requires known > 0.0 && unknown <= 0.0
    ensures var with := EncodeCommand(ffmpeg, video, vf, enc, targetMbps, known, out);
      var without := EncodeCommand(ffmpeg, video, vf, enc, targetMbps, unknown, out);
      with == without[..|without| - |Quote(out)|] + ProgressOptions + Quote(out)
  {
    var head := Quote(ffmpeg) + CommandOptions(video, vf, enc, targetMbps);
    var without := EncodeCommand(ffmpeg, video, vf, enc, targetMbps, unknown, out);
    assert without == head + [] + Quote(out);
    assert without[..|without| - |Quote(out)|] == head;
  }
}
