/**
 * Request normalisation and validation, and the two outbound protocol
 * messages. Timestamps and request identifiers are parameters: the model
 * has no clock and no UUID generator.
 */
module SpeechHelper {
  import opened Wrappers
  import opened Strings
  import opened SpeechModels

  // ---------------------------------------------------------------------
  // Protocol framing: `Key:Value` header lines, a blank line, the body.
  // ---------------------------------------------------------------------

  datatype Header = Header(key: string, value: string)

  /** A header that reads back as itself: its key has no colon and neither part a carriage return. */
  predicate WellFormedHeader(h: Header) {
    ':' !in h.key && '\r' !in h.key && '\r' !in h.value
  }

  /** One header line, `key:value\r\n`. */
  function Line(h: Header): string {
    h.key + ":" + h.value + "\r\n"
  }

  /** Each header as a line, in order. */
  function HeaderLines(hs: seq<Header>): string
    decreases |hs|
  {
    if hs == [] then "" else Line(hs[0]) + HeaderLines(hs[1..])
  }

  lemma HeaderLines3(a: Header, b: Header, c: Header)
    ensures HeaderLines([a, b, c]) == Line(a) + Line(b) + Line(c)
  {
    assert [a, b, c][1..] == [b, c] && [b, c][1..] == [c] && [c][1..] == [];
    assert HeaderLines([c]) == Line(c) + HeaderLines([]);
    assert HeaderLines([b, c]) == Line(b) + HeaderLines([c]);
    assert HeaderLines([a, b, c]) == Line(a) + HeaderLines([b, c]);
  }

  lemma HeaderLines4(a: Header, b: Header, c: Header, d: Header)
    ensures HeaderLines([a, b, c, d]) == Line(a) + Line(b) + Line(c) + Line(d)
  {
    assert [a, b, c, d][1..] == [b, c, d];
    HeaderLines3(b, c, d);
    assert HeaderLines([a, b, c, d]) == Line(a) + HeaderLines([b, c, d]);
  }

  /** The wire form of a message: the header lines, an empty line, then the body verbatim. */
  function Render(hs: seq<Header>, body: string): string {
    HeaderLines(hs) + "\r\n" + body
  }

  /**
   * Reads a message back: header lines up to the first empty line, each
   * split at its first colon; everything after the empty line is the body.
   */
  function ParseMessage(m: string): Option<(seq<Header>, string)>
    decreases |m|
  {
    match SplitFirst(m, "\r\n")
    case None => None
    case Some((line, rest)) =>
      if line == "" then Some(([], rest))
      else
        match SplitFirst(line, ":")
        case None => None
        case Some((key, value)) =>
          match ParseMessage(rest)
          case None => None
          case Some((hs, body)) => Some(([Header(key, value)] + hs, body))
  }

  /** Rendering and parsing are inverse: the headers and the body, whatever it contains, come back. */
  lemma {:induction false} ParseRender(hs: seq<Header>, body: string)
    requires forall i | 0 <= i < |hs| :: WellFormedHeader(hs[i])
    ensures ParseMessage(Render(hs, body)) == Some((hs, body))
    decreases |hs|
  {
    if hs == [] {
      SplitFirstFree("", "\r\n", body);
      assert Render(hs, body) == "" + "\r\n" + body;
    } else {
      var h := hs[0];
      var line := h.key + ":" + h.value;
      var rest := Render(hs[1..], body);
      RenderCons(hs, body);
      LineFreeOfReturn(h);
      SplitFirstFree(line, "\r\n", rest);
      SplitFirstFree(h.key, ":", h.value);
      ParseRender(hs[1..], body);
      assert [h] + hs[1..] == hs;
    }
  }

  /** A message is its first header line followed by the message of the remaining headers. */
  lemma RenderCons(hs: seq<Header>, body: string)
    requires hs != []
    ensures Render(hs, body) == hs[0].key + ":" + hs[0].value + "\r\n" + Render(hs[1..], body)
  {
    var h := hs[0];
    assert Line(h) == (h.key + ":" + h.value) + "\r\n";
    assert HeaderLines(hs) == Line(h) + HeaderLines(hs[1..]);
  }

  /** A well-formed header's line, without its terminator, holds no carriage return. */
  lemma LineFreeOfReturn(h: Header)
    requires WellFormedHeader(h)
    ensures '\r' !in h.key + ":" + h.value
  {
    var line := h.key + ":" + h.value;
    forall i | 0 <= i < |line| ensures line[i] != '\r' {
      if i < |h.key| { assert line[i] == h.key[i]; }
      else if i > |h.key| { assert line[i] == h.value[i - |h.key| - 1]; }
    }
  }

  /**
   * The configuration body. json.Marshal writes map keys in sorted order,
   * so the marshalled configuration is always this text.
   */
  const ConfigJson: string :=
    "{\"context\":{\"synthesis\":{\"audio\":{\"metadataoptions\":{\"sentenceBoundaryEnabled\":false,\"wordBoundaryEnabled\":true},\"outputFormat\":\"audio-24khz-48kbitrate-mono-mp3\"}}}}"

  const JsonContentType: string := "application/json; charset=utf-8"
  const SsmlContentType: string := "application/ssml+xml"

  /** The configuration message's headers; `timestamp` is the RFC 3339 text, to which a second `Z` is appended. */
  function ConfigHeaders(timestamp: string): seq<Header> {
    [Header("X-Timestamp", timestamp + "Z"),
     Header("Content-Type", JsonContentType),
     Header("Path", "speech.config")]
  }

  /** The speech message's headers. */
  function SpeechHeaders(reqID: string, timestamp: string): seq<Header> {
    [Header("X-RequestId", reqID),
     Header("Content-Type", SsmlContentType),
     Header("X-Timestamp", timestamp + "Z"),
     Header("Path", "ssml")]
  }

  /** The synthesis configuration message, as the format string lays it out. */
  function BuildTTSConfigMessage(timestamp: string): (m: string)
    ensures m == Render(ConfigHeaders(timestamp), ConfigJson)
  {
    ConfigLines(timestamp);
    ("X-Timestamp:" + timestamp + "Z\r\n")
      + ("Content-Type:" + JsonContentType + "\r\n")
      + "Path:speech.config\r\n"
      + "\r\n" + ConfigJson
  }

  /** The speech message carrying the SSML document, as the format string lays it out. */
  function BuildTTSSpeechMessage(reqID: string, timestamp: string, ssml: string): (m: string)
    ensures m == Render(SpeechHeaders(reqID, timestamp), ssml)
  {
    SpeechLines(reqID, timestamp);
    ("X-RequestId:" + reqID + "\r\n")
      + ("Content-Type:" + SsmlContentType + "\r\n")
      + ("X-Timestamp:" + timestamp + "Z\r\n")
      + "Path:ssml\r\n"
      + "\r\n" + ssml
  }

  lemma StampLine(key: string, value: string)
    ensures Line(Header(key, value + "Z")) == key + ":" + value + "Z\r\n"
  {
  }

  lemma JsonTypeLine()
    ensures Line(Header("Content-Type", JsonContentType)) == "Content-Type:" + JsonContentType + "\r\n"
  {
  }

  lemma SsmlTypeLine()
    ensures Line(Header("Content-Type", SsmlContentType)) == "Content-Type:" + SsmlContentType + "\r\n"
  {
  }

  lemma ConfigPathLine()
    ensures Line(Header("Path", "speech.config")) == "Path:speech.config\r\n"
  {
  }

  lemma SsmlPathLine()
    ensures Line(Header("Path", "ssml")) == "Path:ssml\r\n"
  {
  }

  lemma ConfigLines(timestamp: string)
    ensures HeaderLines(ConfigHeaders(timestamp)) ==
      ("X-Timestamp:" + timestamp + "Z\r\n")
      + ("Content-Type:" + JsonContentType + "\r\n")
      + "Path:speech.config\r\n"
  {
    var hs := ConfigHeaders(timestamp);
    HeaderLines3(hs[0], hs[1], hs[2]);
    StampLine("X-Timestamp", timestamp);
    JsonTypeLine();
    ConfigPathLine();
  }

  lemma SpeechLines(reqID: string, timestamp: string)
    ensures HeaderLines(SpeechHeaders(reqID, timestamp)) ==
      ("X-RequestId:" + reqID + "\r\n")
      + ("Content-Type:" + SsmlContentType + "\r\n")
      + ("X-Timestamp:" + timestamp + "Z\r\n")
      + "Path:ssml\r\n"
  {
    var hs := SpeechHeaders(reqID, timestamp);
    HeaderLines4(hs[0], hs[1], hs[2], hs[3]);
    assert Line(hs[0]) == "X-RequestId:" + reqID + "\r\n";
    SsmlTypeLine();
    StampLine("X-Timestamp", timestamp);
    SsmlPathLine();
  }

  /** The rendered message ends with the blank line and the body, byte for byte. */
  lemma RenderEndsWithBody(hs: seq<Header>, body: string)
    requires hs != []
    ensures HasSuffix(Render(hs, body), "\r\n\r\n" + body)
  {
    var lines := HeaderLines(hs);
    RenderLinesEndWithBreak(hs);
    var m := Render(hs, body);
    assert lines[|lines| - 2..] == "\r\n";
    assert m[|m| - |body| - 4..] == lines[|lines| - 2..] + "\r\n" + body;
  }

  lemma {:induction false} RenderLinesEndWithBreak(hs: seq<Header>)
    requires hs != []
    ensures |HeaderLines(hs)| >= 2 && HeaderLines(hs)[|HeaderLines(hs)| - 2..] == "\r\n"
    decreases |hs|
  {
    var h := hs[0];
    var tail := HeaderLines(hs[1..]);
    var lines := HeaderLines(hs);
    assert lines == Line(h) + tail;
    if hs[1..] != [] {
      RenderLinesEndWithBreak(hs[1..]);
      assert lines[|lines| - 2..] == tail[|tail| - 2..];
    } else {
      assert tail == "";
    }
  }

  lemma ConfigHeadersWellFormed(timestamp: string)
    requires '\r' !in timestamp
    ensures forall i | 0 <= i < 3 :: WellFormedHeader(ConfigHeaders(timestamp)[i])
  {
    LiteralHeadersWellFormed();
    StampHeaderWellFormed("X-Timestamp", timestamp);
  }

  lemma SpeechHeadersWellFormed(reqID: string, timestamp: string)
    requires '\r' !in reqID && '\r' !in timestamp
    ensures forall i | 0 <= i < 4 :: WellFormedHeader(SpeechHeaders(reqID, timestamp)[i])
  {
    LiteralHeadersWellFormed();
    StampHeaderWellFormed("X-Timestamp", timestamp);
    assert WellFormedHeader(Header("X-RequestId", reqID));
  }

  lemma LiteralHeadersWellFormed()
    ensures WellFormedHeader(Header("Content-Type", JsonContentType))
    ensures WellFormedHeader(Header("Content-Type", SsmlContentType))
    ensures WellFormedHeader(Header("Path", "speech.config"))
    ensures WellFormedHeader(Header("Path", "ssml"))
  {
    JsonTypeWellFormed();
    SsmlTypeWellFormed();
  }

  lemma JsonTypeWellFormed()
    ensures WellFormedHeader(Header("Content-Type", JsonContentType))
  {
  }

  lemma SsmlTypeWellFormed()
    ensures WellFormedHeader(Header("Content-Type", SsmlContentType))
  {
  }

  lemma StampHeaderWellFormed(key: string, timestamp: string)
    requires ':' !in key && '\r' !in key && '\r' !in timestamp
    ensures WellFormedHeader(Header(key, timestamp + "Z"))
  {
  }

  /**
   * The configuration message reads back as the three configuration headers
   * and the configuration JSON, and ends with a blank line and that JSON.
   */
  lemma ConfigMessageShape(timestamp: string)
    requires '\r' !in timestamp
    ensures ParseMessage(BuildTTSConfigMessage(timestamp)) == Some((ConfigHeaders(timestamp), ConfigJson))
    ensures Header("Path", "speech.config") in ConfigHeaders(timestamp)
    ensures HasSuffix(BuildTTSConfigMessage(timestamp), "\r\n\r\n" + ConfigJson)
  {
    var hs := ConfigHeaders(timestamp);
    ConfigHeadersWellFormed(timestamp);
    ParseRender(hs, ConfigJson);
    RenderEndsWithBody(hs, ConfigJson);
  }

  /**
   * The speech message reads back with `X-RequestId:<reqID>` as its first
   * header and `Path:ssml` among them, and its body is the SSML verbatim.
   */
  lemma SpeechMessageShape(reqID: string, timestamp: string, ssml: string)
    requires '\r' !in reqID && '\r' !in timestamp
    ensures ParseMessage(BuildTTSSpeechMessage(reqID, timestamp, ssml)) == Some((SpeechHeaders(reqID, timestamp), ssml))
    ensures SpeechHeaders(reqID, timestamp)[0] == Header("X-RequestId", reqID)
    ensures Header("Path", "ssml") in SpeechHeaders(reqID, timestamp)
    ensures HasSuffix(BuildTTSSpeechMessage(reqID, timestamp, ssml), "\r\n\r\n" + ssml)
  {
    var hs := SpeechHeaders(reqID, timestamp);
    SpeechHeadersWellFormed(reqID, timestamp);
    ParseRender(hs, ssml);
    RenderEndsWithBody(hs, ssml);
  }

  // ---------------------------------------------------------------------
  // Prosody numbers: `^-?\d{1,3}<suffix>$`, then the range check.
  // ---------------------------------------------------------------------

  /** `\d` in Go's regular expressions: an ASCII digit. */
  predicate IsDigit(c: char) {
    '0' <= c <= '9'
  }

  predicate AllDigits(s: string) {
    forall i | 0 <= i < |s| :: IsDigit(s[i])
  }

  /** The text matched by `-?\d{1,3}`. */
  predicate IsSignedDigits(s: string) {
    var d := if |s| > 0 && s[0] == '-' then s[1..] else s;
    1 <= |d| <= 3 && AllDigits(d)
  }

  /** Whether the anchored pattern `^-?\d{1,3}<suffix>$` matches `value`. */
  predicate MatchesNumber(value: string, suffix: string) {
    HasSuffix(value, suffix) && IsSignedDigits(value[..|value| - |suffix|])
  }

  /** The value of a string of decimal digits. */
  function DecimalValue(d: string): nat
    requires AllDigits(d)
    decreases |d|
  {
    if d == [] then 0 else DecimalValue(d[..|d| - 1]) * 10 + (d[|d| - 1] as int - '0' as int)
  }

  /** strconv.Atoi on text that `-?\d{1,3}` matched; it cannot fail there. */
  function Atoi(s: string): int
    requires IsSignedDigits(s)
  {
    if s[0] == '-' then -(DecimalValue(s[1..]) as int) else DecimalValue(s)
  }

  /** An optional minus sign, digits and a suffix. */
  function NumberText(negative: bool, digits: string, suffix: string): string {
    (if negative then "-" else "") + digits + suffix
  }

  function SignedValue(negative: bool, digits: string): int
    requires AllDigits(digits)
  {
    if negative then -(DecimalValue(digits) as int) else DecimalValue(digits)
  }

  /** `value` is a sign, one to three digits and `suffix`. */
  ghost predicate WellFormedNumber(value: string, suffix: string) {
    exists negative: bool, digits: string | 1 <= |digits| <= 3 && AllDigits(digits) ::
      value == NumberText(negative, digits, suffix)
  }

  /** `value` is a sign, one to three digits and `suffix`, and the number lies in [MinValue, MaxValue]. */
  ghost predicate AcceptedNumber(value: string, suffix: string) {
    exists negative: bool, digits: string | 1 <= |digits| <= 3 && AllDigits(digits) ::
      value == NumberText(negative, digits, suffix) && MinValue <= SignedValue(negative, digits) <= MaxValue
  }

  /**
   * Checks `value` against `^-?\d{1,3}<suffix>$` and then the range; a
   * format failure is reported before a range failure, both as invalid input
   * carrying `errMsg`.
   */
  function ValidateNumbers(value: string, suffix: string, errMsg: string): (r: Option<Error>)
    ensures r.Some? ==>
      (r.value == Tagged(InvalidInput, InvalidFormat(errMsg)) || r.value == Tagged(InvalidInput, OutOfRange(errMsg)))
  {
    if !MatchesNumber(value, suffix) then
      Some(Tagged(InvalidInput, InvalidFormat(errMsg)))
    else
      var num := Atoi(TrimSuffix(value, suffix));
      if num < MinValue || num > MaxValue then
        Some(Tagged(InvalidInput, OutOfRange(errMsg)))
      else
        None
  }

  /**
   * A number passes exactly when it is a sign, one to three digits and the
   * suffix with its value in range, and the format error is reported exactly
   * when it is not of that shape at all.
   */
  lemma ValidateNumbersIff(value: string, suffix: string, errMsg: string)
    ensures ValidateNumbers(value, suffix, errMsg).None? <==> AcceptedNumber(value, suffix)
    ensures ValidateNumbers(value, suffix, errMsg) == Some(Tagged(InvalidInput, InvalidFormat(errMsg)))
      <==> !WellFormedNumber(value, suffix)
  {
    PatternIsDecomposition(value, suffix);
  }

  /**
   * The character-level reading of the regular expression agrees with the
   * decomposition into sign, digits and suffix, and Atoi reads that number.
   */
  lemma PatternIsDecomposition(value: string, suffix: string)
    ensures MatchesNumber(value, suffix) <==> WellFormedNumber(value, suffix)
    ensures MatchesNumber(value, suffix) ==>
      (MinValue <= Atoi(TrimSuffix(value, suffix)) <= MaxValue <==> AcceptedNumber(value, suffix))
  {
    if MatchesNumber(value, suffix) {
      var body := value[..|value| - |suffix|];
      assert TrimSuffix(value, suffix) == body;
      var negative := |body| > 0 && body[0] == '-';
      var digits := if negative then body[1..] else body;
      assert body == (if negative then "-" else "") + digits;
      assert value == body + suffix;
      assert value == NumberText(negative, digits, suffix);
      assert Atoi(body) == SignedValue(negative, digits);
      if MinValue <= Atoi(body) <= MaxValue {
        assert AcceptedNumber(value, suffix);
      }
      if AcceptedNumber(value, suffix) {
        var n, d :| 1 <= |d| <= 3 && AllDigits(d) && value == NumberText(n, d, suffix)
          && MinValue <= SignedValue(n, d) <= MaxValue;
        DecompositionUnique(n, d, negative, digits, suffix);
      }
    }
    if WellFormedNumber(value, suffix) {
      var n, d :| 1 <= |d| <= 3 && AllDigits(d) && value == NumberText(n, d, suffix);
      var body := (if n then "-" else "") + d;
      assert value == body + suffix;
      assert value[..|value| - |suffix|] == body;
      assert body[0] == '-' <==> n;
      if n { assert body[1..] == d; }
    }
  }

  /** A sign and digits followed by the same suffix can be split only one way. */
  lemma DecompositionUnique(n1: bool, d1: string, n2: bool, d2: string, suffix: string)
    requires 1 <= |d1| && AllDigits(d1) && 1 <= |d2| && AllDigits(d2)
    requires NumberText(n1, d1, suffix) == NumberText(n2, d2, suffix)
    ensures n1 == n2 && d1 == d2
  {
    var b1 := (if n1 then "-" else "") + d1;
    var b2 := (if n2 then "-" else "") + d2;
    var t := NumberText(n1, d1, suffix);
    assert t == b1 + suffix && t == b2 + suffix;
    assert |b1| == |b2|;
    assert b1 == t[..|b1|] == b2;
    assert IsDigit(d1[0]) && IsDigit(d2[0]);
    assert b1[0] == (if n1 then '-' else d1[0]);
    assert b2[0] == (if n2 then '-' else d2[0]);
    assert n1 == n2;
    if n1 {
      assert d1 == b1[1..] == d2;
    } else {
      assert d1 == b1 && d2 == b2;
    }
  }

  /** strconv.Itoa on a non-negative number. */
  function NatText(n: nat): (s: string)
    ensures 1 <= |s| && AllDigits(s)
    decreases n
  {
    if n < 10 then [('0' as int + n) as char] else NatText(n / 10) + [('0' as int + n % 10) as char]
  }

  /** Reading back a written number gives the number; numbers below 1000 take at most three digits. */
  lemma {:induction false} NatTextRoundTrip(n: nat)
    ensures DecimalValue(NatText(n)) == n
    ensures n < 1000 ==> |NatText(n)| <= 3
    decreases n
  {
    if n >= 10 {
      NatTextRoundTrip(n / 10);
      var s := NatText(n);
      assert s[..|s| - 1] == NatText(n / 10);
    }
  }

  /** strconv.Itoa. */
  function IntText(n: int): string {
    if n < 0 then "-" + NatText(-n) else NatText(n)
  }

  /** Every number of the accepted range, written out by strconv.Itoa and suffixed, passes. */
  lemma InRangeNumbersAccepted(n: int, suffix: string, errMsg: string)
    requires MinValue <= n <= MaxValue
    ensures ValidateNumbers(IntText(n) + suffix, suffix, errMsg) == None
  {
    var negative := n < 0;
    var digits := NatText(if negative then -n else n);
    NatTextRoundTrip(if negative then -n else n);
    var value := IntText(n) + suffix;
    assert value == NumberText(negative, digits, suffix);
    assert SignedValue(negative, digits) == n;
    assert AcceptedNumber(value, suffix);
    ValidateNumbersIff(value, suffix, errMsg);
  }

  /** Numbers outside the range are refused even when well formed. */
  lemma OutOfRangeNumbersRefused(n: int, suffix: string, errMsg: string)
    requires MaxValue < n < 1000 || -1000 < n < MinValue
    ensures ValidateNumbers(IntText(n) + suffix, suffix, errMsg) == Some(Tagged(InvalidInput, OutOfRange(errMsg)))
  {
    var negative := n < 0;
    var digits := NatText(if negative then -n else n);
    NatTextRoundTrip(if negative then -n else n);
    var value := IntText(n) + suffix;
    assert value == NumberText(negative, digits, suffix);
    assert SignedValue(negative, digits) == n;
    assert WellFormedNumber(value, suffix);
    if AcceptedNumber(value, suffix) {
      var n2, d2 :| 1 <= |d2| <= 3 && AllDigits(d2) && value == NumberText(n2, d2, suffix)
        && MinValue <= SignedValue(n2, d2) <= MaxValue;
      DecompositionUnique(n2, d2, negative, digits, suffix);
    }
    ValidateNumbersIff(value, suffix, errMsg);
  }

  // ---------------------------------------------------------------------
  // The five field checks and Validate.
  // ---------------------------------------------------------------------

  const PitchMessage: string := "pitch must be between -100Hz and 100Hz"
  const RateMessage: string := "rate must be between -100% and 100%"
  const VolumeMessage: string := "volume must be between -100% and 100%"

  /** A voice passes exactly when it has been registered. */
  function ValidateVoice(reg: VoiceRegistry, voice: string): (r: Option<Error>)
    reads reg
    requires reg.Valid()
    ensures r.None? <==> voice in reg.Added
    ensures r.Some? ==> r.value == Tagged(InvalidInput, InvalidVoice(voice))
  {
    if !reg.CheckVoiceRegistry(voice) then Some(Tagged(InvalidInput, InvalidVoice(voice))) else None
  }

  /** The process starts with an empty registry, in which every voice is refused. */
  lemma EmptyRegistryRefusesEveryVoice(reg: VoiceRegistry, voice: string)
    requires reg.Valid() && reg.Added == {}
    ensures ValidateVoice(reg, voice) == Some(Tagged(InvalidInput, InvalidVoice(voice)))
  {
  }

  /** Text fails exactly when it is empty or white space only. */
  function ValidateText(text: string): (r: Option<Error>)
    ensures r.None? <==> exists i | 0 <= i < |text| :: !IsSpace(text[i])
    ensures r.Some? ==> r.value == Tagged(InvalidInput, EmptyText)
  {
    if TrimSpace(text) == "" then Some(Tagged(InvalidInput, EmptyText)) else None
  }

  /** Pitch carries the suffix `Hz`. */
  function ValidatePitch(pitch: string): (r: Option<Error>)
    ensures r.Some? ==> r.value in {Tagged(InvalidInput, InvalidFormat(PitchMessage)), Tagged(InvalidInput, OutOfRange(PitchMessage))}
  {
    ValidateNumbers(pitch, "Hz", PitchMessage)
  }

  /** Rate carries the suffix `%`. */
  function ValidateRate(rate: string): (r: Option<Error>)
    ensures r.Some? ==> r.value in {Tagged(InvalidInput, InvalidFormat(RateMessage)), Tagged(InvalidInput, OutOfRange(RateMessage))}
  {
    ValidateNumbers(rate, "%", RateMessage)
  }

  /** Volume carries the suffix `%`. */
  function ValidateVolume(volume: string): (r: Option<Error>)
    ensures r.Some? ==> r.value in {Tagged(InvalidInput, InvalidFormat(VolumeMessage)), Tagged(InvalidInput, OutOfRange(VolumeMessage))}
  {
    ValidateNumbers(volume, "%", VolumeMessage)
  }

  /** The error of one check, if it failed. */
  function Failed(c: Option<Error>): seq<Error> {
    if c.Some? then [c.value] else []
  }

  /** Everything Validate reports for `f`: the errors of the failed checks, in check order. */
  function Violations(reg: VoiceRegistry, f: Fields): seq<Error>
    reads reg
    requires reg.Valid()
  {
    Failed(ValidateVoice(reg, f.voice)) + Failed(ValidateText(f.text)) + Failed(ValidatePitch(f.pitch))
      + Failed(ValidateRate(f.rate)) + Failed(ValidateVolume(f.volume))
  }

  /** A request passes exactly when all five fields do. */
  predicate Passes(reg: VoiceRegistry, f: Fields)
    reads reg
    requires reg.Valid()
  {
    Violations(reg, f) == []
  }

  /**
   * Validate succeeds exactly when the voice is registered, the text is not
   * blank, and pitch, rate and volume are accepted numbers with their suffixes.
   */
  lemma PassesIff(reg: VoiceRegistry, f: Fields)
    requires reg.Valid()
    ensures Passes(reg, f) <==>
      f.voice in reg.Added && !AllSpace(f.text) && AcceptedNumber(f.pitch, "Hz")
      && AcceptedNumber(f.rate, "%") && AcceptedNumber(f.volume, "%")
  {
    ValidateNumbersIff(f.pitch, "Hz", PitchMessage);
    ValidateNumbersIff(f.rate, "%", RateMessage);
    ValidateNumbersIff(f.volume, "%", VolumeMessage);
  }

  /**
   * Checks do not short-circuit: every failed check contributes its error,
   * every reported error is invalid input, and there are at most five.
   */
  lemma ViolationsReportEveryFailure(reg: VoiceRegistry, f: Fields)
    requires reg.Valid()
    ensures f.voice !in reg.Added ==> Tagged(InvalidInput, InvalidVoice(f.voice)) in Violations(reg, f)
    ensures AllSpace(f.text) ==> Tagged(InvalidInput, EmptyText) in Violations(reg, f)
    ensures ValidatePitch(f.pitch).Some? ==> ValidatePitch(f.pitch).value in Violations(reg, f)
    ensures ValidateRate(f.rate).Some? ==> ValidateRate(f.rate).value in Violations(reg, f)
    ensures ValidateVolume(f.volume).Some? ==> ValidateVolume(f.volume).value in Violations(reg, f)
    ensures forall e | e in Violations(reg, f) :: e.Tagged? && e.kind == InvalidInput
    ensures |Violations(reg, f)| <= 5
  {
    var v, t, p, ra, vo := ValidateVoice(reg, f.voice), ValidateText(f.text), ValidatePitch(f.pitch),
      ValidateRate(f.rate), ValidateVolume(f.volume);
    assert Failed(v) + Failed(t) + Failed(p) + Failed(ra) + Failed(vo) == Violations(reg, f);
    FailuresCollected(v, t, p, ra, vo);
  }

  /** An error is invalid input. */
  predicate IsInvalidInput(e: Error) {
    e.Tagged? && e.kind == InvalidInput
  }

  /** Joining five check outcomes keeps every failure, and nothing but failures. */
  lemma FailuresCollected(a: Option<Error>, b: Option<Error>, c: Option<Error>, d: Option<Error>, e: Option<Error>)
    requires a.Some? ==> IsInvalidInput(a.value)
    requires b.Some? ==> IsInvalidInput(b.value)
    requires c.Some? ==> IsInvalidInput(c.value)
    requires d.Some? ==> IsInvalidInput(d.value)
    requires e.Some? ==> IsInvalidInput(e.value)
    ensures var all := Failed(a) + Failed(b) + Failed(c) + Failed(d) + Failed(e);
      (a.Some? ==> a.value in all) && (b.Some? ==> b.value in all) && (c.Some? ==> c.value in all)
      && (d.Some? ==> d.value in all) && (e.Some? ==> e.value in all)
      && (forall x | x in all :: IsInvalidInput(x)) && |all| <= 5
  {
    var all := Failed(a) + Failed(b) + Failed(c) + Failed(d) + Failed(e);
    forall x | x in all
      ensures IsInvalidInput(x)
    {
      assert x in Failed(a) || x in Failed(b) || x in Failed(c) || x in Failed(d) || x in Failed(e);
    }
  }

  /** An unregistered voice is always reported, and reported first, whatever the other fields hold. */
  lemma UnknownVoiceReportedFirst(reg: VoiceRegistry, f: Fields)
    requires reg.Valid() && f.voice !in reg.Added
    ensures Violations(reg, f) != [] && Violations(reg, f)[0] == Tagged(InvalidInput, InvalidVoice(f.voice))
  {
  }

  /** Validate: runs all five checks and joins every failure into one error. */
  method Validate(r: Request, reg: VoiceRegistry) returns (err: Option<Error>)
    requires reg.Valid()
    ensures err.None? <==> Passes(reg, r.Value())
    ensures err.Some? ==> err.value == Joined(Violations(reg, r.Value()))
  {
    var errs: seq<Error> := [];
    var e := ValidateVoice(reg, r.voice);
    if e.Some? { errs := errs + [e.value]; }
    assert errs == Failed(e);
    ghost var prefix := errs;
    e := ValidateText(r.text);
    if e.Some? { errs := errs + [e.value]; }
    assert errs == prefix + Failed(e);
    prefix := errs;
    e := ValidatePitch(r.pitch);
    if e.Some? { errs := errs + [e.value]; }
    assert errs == prefix + Failed(e);
    prefix := errs;
    e := ValidateRate(r.rate);
    if e.Some? { errs := errs + [e.value]; }
    assert errs == prefix + Failed(e);
    prefix := errs;
    e := ValidateVolume(r.volume);
    if e.Some? { errs := errs + [e.value]; }
    assert errs == prefix + Failed(e);
    assert errs == Violations(reg, r.Value());
    if |errs| > 0 {
      return Some(Joined(errs));
    }
    return None;
  }

  // ---------------------------------------------------------------------
  // Defaults.
  // ---------------------------------------------------------------------

  const DefaultVoice: string := "en-US-AriaNeural"

  /** `s` with `suffix` appended unless it already ends with it. */
  function WithSuffix(s: string, suffix: string): string {
    if HasSuffix(s, suffix) then s else s + suffix
  }

  /** The request after SetRequestDefaults. */
  function Defaulted(f: Fields): Fields {
    var voice := if f.voice == "" then DefaultVoice else f.voice;
    var pitch := if f.pitch == "" then "0Hz" else f.pitch;
    var rate := if f.rate == "" then "0%" else f.rate;
    var volume := if f.volume == "" then "0%" else f.volume;
    Fields(f.text, voice, WithSuffix(pitch, "Hz"), WithSuffix(rate, "%"), WithSuffix(volume, "%"))
  }

  /** SetRequestDefaults: fills the empty fields, then appends missing unit suffixes. */
  method SetRequestDefaults(r: Request)
    modifies r
    ensures r.Value() == Defaulted(old(r.Value()))
  {
    if r.voice == "" {
      r.voice := DefaultVoice;
    }
    if r.pitch == "" {
      r.pitch := "0Hz";
    }
    if r.rate == "" {
      r.rate := "0%";
    }
    if r.volume == "" {
      r.volume := "0%";
    }
    if !HasSuffix(r.rate, "%") {
      r.rate := r.rate + "%";
    }
    if !HasSuffix(r.volume, "%") {
      r.volume := r.volume + "%";
    }
    if !HasSuffix(r.pitch, "Hz") {
      r.pitch := r.pitch + "Hz";
    }
  }

  lemma WithSuffixEnds(s: string, suffix: string)
    ensures HasSuffix(WithSuffix(s, suffix), suffix)
    ensures HasSuffix(s, suffix) ==> WithSuffix(s, suffix) == s
    ensures !HasSuffix(s, suffix) ==> WithSuffix(s, suffix) == s + suffix
  {
    assert (s + suffix)[|s|..] == suffix;
  }

  /** Empty fields get their defaults; the text and a non-empty voice are never touched. */
  lemma DefaultsFilled(f: Fields)
    ensures Defaulted(f).text == f.text
    ensures Defaulted(f).voice == (if f.voice == "" then DefaultVoice else f.voice)
    ensures f.pitch == "" ==> Defaulted(f).pitch == "0Hz"
    ensures f.rate == "" ==> Defaulted(f).rate == "0%"
    ensures f.volume == "" ==> Defaulted(f).volume == "0%"
  {
  }

  /**
   * After defaults, pitch ends in `Hz` and rate and volume in `%`; a
   * non-empty value already carrying its suffix is kept, otherwise exactly
   * the suffix is appended.
   */
  lemma DefaultsAddSuffixes(f: Fields)
    ensures HasSuffix(Defaulted(f).pitch, "Hz") && HasSuffix(Defaulted(f).rate, "%")
      && HasSuffix(Defaulted(f).volume, "%")
    ensures f.pitch != "" ==> Defaulted(f).pitch == WithSuffix(f.pitch, "Hz")
    ensures f.rate != "" ==> Defaulted(f).rate == WithSuffix(f.rate, "%")
    ensures f.volume != "" ==> Defaulted(f).volume == WithSuffix(f.volume, "%")
  {
    WithSuffixEnds(if f.pitch == "" then "0Hz" else f.pitch, "Hz");
    WithSuffixEnds(if f.rate == "" then "0%" else f.rate, "%");
    WithSuffixEnds(if f.volume == "" then "0%" else f.volume, "%");
  }

  /** Applying the defaults twice is the same as applying them once. */
  lemma DefaultsIdempotent(f: Fields)
    ensures Defaulted(Defaulted(f)) == Defaulted(f)
  {
    var g := Defaulted(f);
    DefaultsAddSuffixes(f);
    DefaultsAddSuffixes(g);
    assert g.voice != "" && g.pitch != "" && g.rate != "" && g.volume != "";
    WithSuffixEnds(g.pitch, "Hz");
    WithSuffixEnds(g.rate, "%");
    WithSuffixEnds(g.volume, "%");
  }
}
