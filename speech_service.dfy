/**
 * The speech service: the voice catalog and registry population, the SSML
 * document, the response read loop and the synthesis sequence. The HTTP
 * client and the WebSocket connection are replaced by the outcomes they
 * deliver: a catalog fetch result, a dial result, two write results and the
 * stream of frames the peer sends.
 */
module SpeechService {
  import opened Wrappers
  import opened Strings
  import opened SpeechModels
  import opened SpeechHelper

  // ---------------------------------------------------------------------
  // The voice catalog and InitVoices.
  // ---------------------------------------------------------------------

  /** What decoding the catalog response body gives. */
  datatype CatalogBody = Malformed | Catalog(voices: seq<Voice>)

  /** What the HTTP request for the catalog gives. */
  datatype CatalogFetch =
    | TransportFailed                              // http.Get returned an error
    | Responded(status: int, body: CatalogBody)    // a response with this status code

  const StatusOK: int := 200

  /**
   * GetVoices: a transport failure is a network failure; a status other
   * than 200 or an undecodable body is a service failure; otherwise the
   * decoded catalog.
   */
  function GetVoices(fetch: CatalogFetch): (r: Result<seq<Voice>, Error>)
    ensures r.Success? <==> fetch.Responded? && fetch.status == StatusOK && fetch.body.Catalog?
    ensures r.Success? ==> r.value == fetch.body.voices
    ensures r.Failure? ==> r.error.Tagged?
    ensures r.Failure? ==> (r.error.kind == NetworkFailure <==> fetch.TransportFailed?)
    ensures r.Failure? ==> (r.error.kind == ServiceFailure <==> fetch.Responded?)
    ensures fetch.Responded? && fetch.status != StatusOK ==> r == Failure(Tagged(ServiceFailure, BadStatus(fetch.status)))
  {
    match fetch
    case TransportFailed => Failure(Tagged(NetworkFailure, FetchFailed))
    case Responded(status, body) =>
      if status != StatusOK then Failure(Tagged(ServiceFailure, BadStatus(status)))
      else match body
        case Malformed => Failure(Tagged(ServiceFailure, DecodeFailed))
        case Catalog(voices) => Success(voices)
  }

  /** The short names of a catalog. */
  function ShortNames(voices: seq<Voice>): set<string> {
    set i | 0 <= i < |voices| :: voices[i].shortName
  }

  /**
   * InitVoices: registers the short name of every catalog entry, or wraps
   * the catalog failure in a service failure and registers nothing.
   */
  method InitVoices(reg: VoiceRegistry, fetch: CatalogFetch) returns (err: Option<Error>)
    requires reg.Valid()
    modifies reg
    ensures reg.Valid()
    ensures err.Some? <==> GetVoices(fetch).Failure?
    ensures err.Some? ==>
      err.value == Tagged(ServiceFailure, InitFailed(GetVoices(fetch).error))
      && reg.Added == old(reg.Added) && reg.voices == old(reg.voices)
    ensures err.None? ==> reg.Added == old(reg.Added) + ShortNames(GetVoices(fetch).value)
  {
    var fetched := GetVoices(fetch);
    if fetched.Failure? {
      return Some(Tagged(ServiceFailure, InitFailed(fetched.error)));
    }
    var voices := fetched.value;
    var i := 0;
    while i < |voices|
      invariant 0 <= i <= |voices|
      invariant reg.Valid()
      invariant reg.Added == old(reg.Added) + ShortNames(voices[..i])
    {
      reg.SetVoiceRegistry(voices[i].shortName);
      assert ShortNames(voices[..i + 1]) == ShortNames(voices[..i]) + {voices[i].shortName} by {
        assert voices[..i + 1] == voices[..i] + [voices[i]];
      }
      i := i + 1;
    }
    assert voices[..i] == voices;
    return None;
  }

  /** Every catalog short name is a member of the short-name set, and nothing else is. */
  lemma ShortNamesMembership(voices: seq<Voice>, name: string)
    ensures name in ShortNames(voices) <==> exists i | 0 <= i < |voices| :: voices[i].shortName == name
  {
  }

  /** After a successful InitVoices every catalog voice passes ValidateVoice, and so does every earlier member. */
  lemma RegisteredVoicesPass(reg: VoiceRegistry, earlier: set<string>, voices: seq<Voice>, i: nat)
    requires reg.Valid() && reg.Added == earlier + ShortNames(voices)
    requires i < |voices|
    ensures ValidateVoice(reg, voices[i].shortName).None?
    ensures forall v | v in earlier :: ValidateVoice(reg, v).None?
  {
  }

  // ---------------------------------------------------------------------
  // The SSML document.
  // ---------------------------------------------------------------------

  const SpeakOpen: string := "<speak version='1.0' xml:lang='en-US'><voice name='"
  const PitchOpen: string := "'><prosody pitch='"
  const RateOpen: string := "' rate='"
  const VolumeOpen: string := "' volume='"
  const TextOpen: string := "'>"
  const SpeakClose: string := "</prosody></voice></speak>"

  /** The SSML template with the voice, the three prosody values and the text spliced in verbatim. */
  function Ssml(f: Fields): (r: string)
    ensures HasPrefix(r, SpeakOpen + f.voice + PitchOpen)
    ensures HasSuffix(r, TextOpen + f.text + SpeakClose)
    ensures |SpeakOpen + f.voice + PitchOpen| + |TextOpen + f.text + SpeakClose| <= |r|
    ensures r[|SpeakOpen + f.voice + PitchOpen|..|r| - |TextOpen + f.text + SpeakClose|]
      == f.pitch + RateOpen + f.rate + VolumeOpen + f.volume
  {
    TemplateGroups(f);
    SpeakOpen + f.voice + PitchOpen + f.pitch + RateOpen + f.rate + VolumeOpen + f.volume + TextOpen + f.text + SpeakClose
  }

  /** The template as its opening up to the pitch, the prosody attributes, and the text with the closing tags. */
  lemma TemplateGroups(f: Fields)
    ensures var head, attrs, tail := SpeakOpen + f.voice + PitchOpen,
        f.pitch + RateOpen + f.rate + VolumeOpen + f.volume, TextOpen + f.text + SpeakClose;
      var r := SpeakOpen + f.voice + PitchOpen + f.pitch + RateOpen + f.rate + VolumeOpen + f.volume + TextOpen + f.text + SpeakClose;
      r == head + attrs + tail && r[..|head|] == head && r[|r| - |tail|..] == tail
      && r[|head|..|r| - |tail|] == attrs
  {
    var h := SpeakOpen + f.voice + PitchOpen;
    Regroup(h, f.pitch, RateOpen);
    var m2 := f.pitch + RateOpen;
    Regroup(h, m2, f.rate);
    var m3 := m2 + f.rate;
    Regroup(h, m3, VolumeOpen);
    var m4 := m3 + VolumeOpen;
    Regroup(h, m4, f.volume);
    var m5 := m4 + f.volume;
    Regroup(h, m5, TextOpen);
    Regroup(h + m5, TextOpen, f.text);
    Regroup(h + m5, TextOpen + f.text, SpeakClose);
    var tail := TextOpen + f.text + SpeakClose;
    var r := h + m5 + tail;
    assert r[..|h|] == h;
    assert r[|r| - |tail|..] == tail;
    assert r[|h|..|r| - |tail|] == m5;
  }

  predicate HasPrefix(s: string, prefix: string) {
    |prefix| <= |s| && s[..|prefix|] == prefix
  }

  /** Reads the field that runs up to the next apostrophe, then expects `next` and returns what follows it. */
  function Field(s: string, next: string): Option<(string, string)> {
    match SplitFirst(s, "'")
    case None => None
    case Some((value, rest)) =>
      var after := "'" + rest;
      if HasPrefix(after, next) then Some((value, after[|next|..])) else None
  }

  /**
   * Reads an SSML document back into its five fields: the voice, pitch,
   * rate and volume each end at the next apostrophe, and the text is
   * whatever lies between the opening of the prosody element's content and
   * the closing tags.
   */
  function ParseSsml(s: string): Option<Fields> {
    if !HasPrefix(s, SpeakOpen) then None
    else match Field(s[|SpeakOpen|..], PitchOpen)
      case None => None
      case Some((voice, r1)) =>
        match Field(r1, RateOpen)
        case None => None
        case Some((pitch, r2)) =>
          match Field(r2, VolumeOpen)
          case None => None
          case Some((rate, r3)) =>
            match Field(r3, TextOpen)
            case None => None
            case Some((volume, r4)) =>
              if HasSuffix(r4, SpeakClose) then Some(Fields(r4[..|r4| - |SpeakClose|], voice, pitch, rate, volume))
              else None
  }

  lemma PrefixOf(p: string, x: string)
    ensures HasPrefix(p + x, p) && (p + x)[|p|..] == x
  {
    assert (p + x)[..|p|] == p;
  }

  /** A value free of apostrophes, followed by `next` (which starts with one), reads back as itself. */
  lemma FieldOf(value: string, next: string, rest: string)
    requires '\'' !in value && next != [] && next[0] == '\''
    ensures Field(value + next + rest, next) == Some((value, rest))
  {
    var tail := next[1..] + rest;
    assert next + rest == "'" + tail;
    assert value + next + rest == value + "'" + tail;
    SplitFirstFree(value, "'", tail);
    PrefixOf(next, rest);
  }

  /**
   * The document is the template: parsing it gives back the request, the
   * text whatever it contains, provided the voice, pitch, rate and volume
   * hold no apostrophe. Nothing is escaped on the way in.
   */
  lemma {:induction false} SsmlRoundTrip(f: Fields)
    requires '\'' !in f.voice && '\'' !in f.pitch && '\'' !in f.rate && '\'' !in f.volume
    ensures ParseSsml(Ssml(f)) == Some(f)
  {
    var r4 := f.text + SpeakClose;
    var r3 := f.volume + TextOpen + r4;
    var r2 := f.rate + VolumeOpen + r3;
    var r1 := f.pitch + RateOpen + r2;
    var r0 := f.voice + PitchOpen + r1;
    SsmlNested(f);
    PrefixOf(SpeakOpen, r0);
    FieldOf(f.voice, PitchOpen, r1);
    FieldOf(f.pitch, RateOpen, r2);
    FieldOf(f.rate, VolumeOpen, r3);
    FieldOf(f.volume, TextOpen, r4);
    assert r4[|r4| - |SpeakClose|..] == SpeakClose;
    assert r4[..|r4| - |SpeakClose|] == f.text;
  }

  /** The template grouped from the right, field by field. */
  lemma SsmlNested(f: Fields)
    ensures Ssml(f) == SpeakOpen + (f.voice + PitchOpen + (f.pitch + RateOpen + (f.rate + VolumeOpen
      + (f.volume + TextOpen + (f.text + SpeakClose)))))
  {
    var r4 := f.text + SpeakClose;
    var r3 := f.volume + TextOpen + r4;
    var r2 := f.rate + VolumeOpen + r3;
    var r1 := f.pitch + RateOpen + r2;
    var r0 := f.voice + PitchOpen + r1;
    var l1 := SpeakOpen + f.voice;
    var l3 := l1 + PitchOpen + f.pitch;
    var l5 := l3 + RateOpen + f.rate;
    var l7 := l5 + VolumeOpen + f.volume;
    Regroup(l7 + TextOpen, f.text, SpeakClose);
    Shift(l5 + VolumeOpen, f.volume, TextOpen, r4);
    assert l7 + TextOpen + r4 == l5 + VolumeOpen + r3;
    Shift(l3 + RateOpen, f.rate, VolumeOpen, r3);
    assert l5 + VolumeOpen + r3 == l3 + RateOpen + r2;
    Shift(l1 + PitchOpen, f.pitch, RateOpen, r2);
    assert l3 + RateOpen + r2 == l1 + PitchOpen + r1;
    Shift(SpeakOpen, f.voice, PitchOpen, r1);
  }

  lemma Regroup(a: string, b: string, c: string)
    ensures a + b + c == a + (b + c)
  {
  }

  /** `x + v + n + r` regrouped as `x + (v + n + r)`. */
  lemma Shift(x: string, v: string, n: string, r: string)
    ensures x + v + n + r == x + (v + n + r)
  {
    Regroup(x + v, n, r);
    Regroup(x, v, n + r);
    Regroup(v, n, r);
  }

  /** An accepted prosody value is a sign, digits and a suffix, so it holds no apostrophe when the suffix does not. */
  lemma AcceptedHasNoApostrophe(value: string, suffix: string)
    requires AcceptedNumber(value, suffix) && '\'' !in suffix
    ensures '\'' !in value
  {
    var n, d :| 1 <= |d| <= 3 && AllDigits(d) && value == NumberText(n, d, suffix)
      && MinValue <= SignedValue(n, d) <= MaxValue;
    var sign := if n then "-" else "";
    assert value == sign + d + suffix;
    forall i | 0 <= i < |value|
      ensures value[i] != '\''
    {
      if i < |sign| {
        assert value[i] == '-';
      } else if i < |sign| + |d| {
        assert value[i] == d[i - |sign|];
        assert IsDigit(d[i - |sign|]);
      } else {
        assert value[i] == suffix[i - |sign| - |d|];
      }
    }
  }

  /** What GetSSML produces for a request whose fields were `f0` before defaults. */
  function SsmlOutcome(reg: VoiceRegistry, f0: Fields): (r: Result<string, Error>)
    reads reg
    requires reg.Valid()
  {
    var f := Defaulted(f0);
    if Passes(reg, f) then Success(Ssml(f)) else Failure(Joined(Violations(reg, f)))
  }

  /**
   * A failed GetSSML reports the validation errors of the defaulted request,
   * each of them invalid input; a successful one renders a document that
   * reads back as the defaulted request when the voice name holds no
   * apostrophe.
   */
  lemma SsmlOutcomeIsDefaultedThenValidated(reg: VoiceRegistry, f0: Fields)
    requires reg.Valid()
    ensures SsmlOutcome(reg, f0).Failure? <==> !Passes(reg, Defaulted(f0))
    ensures SsmlOutcome(reg, f0).Failure? ==>
      SsmlOutcome(reg, f0).error.Joined? && SsmlOutcome(reg, f0).error.parts != []
      && forall e | e in SsmlOutcome(reg, f0).error.parts :: e.Tagged? && e.kind == InvalidInput
    ensures SsmlOutcome(reg, f0).Success? && '\'' !in Defaulted(f0).voice ==>
      ParseSsml(SsmlOutcome(reg, f0).value) == Some(Defaulted(f0))
  {
    var f := Defaulted(f0);
    if !Passes(reg, f) {
      ViolationsReportEveryFailure(reg, f);
    } else if '\'' !in f.voice {
      PassingRequestRoundTrips(reg, f);
    }
  }

  /** A request that passes validation renders a document that reads back as the request. */
  lemma PassingRequestRoundTrips(reg: VoiceRegistry, f: Fields)
    requires reg.Valid() && Passes(reg, f) && '\'' !in f.voice
    ensures ParseSsml(Ssml(f)) == Some(f)
  {
    PassingHasNoApostrophe(reg, f);
    SsmlRoundTrip(f);
  }

  /** The numeric fields of a passing request are digits, a sign, a point and a unit: never an apostrophe. */
  lemma PassingHasNoApostrophe(reg: VoiceRegistry, f: Fields)
    requires reg.Valid() && Passes(reg, f)
    ensures '\'' !in f.pitch && '\'' !in f.rate && '\'' !in f.volume
  {
    PassesIff(reg, f);
    assert '\'' !in "Hz" && '\'' !in "%";
    AcceptedHasNoApostrophe(f.pitch, "Hz");
    AcceptedHasNoApostrophe(f.rate, "%");
    AcceptedHasNoApostrophe(f.volume, "%");
  }

  /** GetSSML: defaults the request in place, validates it, and renders it. */
  method GetSSML(r: Request, reg: VoiceRegistry) returns (ssml: string, err: Option<Error>)
    requires reg.Valid()
    modifies r
    ensures r.Value() == Defaulted(old(r.Value()))
    ensures err.Some? ==> ssml == "" && SsmlOutcome(reg, old(r.Value())) == Failure(err.value)
    ensures err.None? ==> SsmlOutcome(reg, old(r.Value())) == Success(ssml)
  {
    SetRequestDefaults(r);
    err := Validate(r, reg);
    if err.Some? {
      return "", err;
    }
    ssml := Ssml(r.Value());
  }

  // ---------------------------------------------------------------------
  // The response read loop.
  // ---------------------------------------------------------------------

  /** The data-frame opcodes of section 5.2 of RFC 6455. */
  datatype MessageType = TextMessage | BinaryMessage

  datatype Frame = Frame(kind: MessageType, payload: seq<byte>)

  /** What the peer sends: its frames, then the error the read after the last frame returns. */
  datatype Stream = Stream(frames: seq<Frame>, end: ReadError)

  /** The ASCII bytes of `Path:audio\r\n`, `Path:turn.end` and `Path:error`. */
  const AudioMarker: seq<byte> := [80, 97, 116, 104, 58, 97, 117, 100, 105, 111, 13, 10]
  const TurnEndMarker: seq<byte> := [80, 97, 116, 104, 58, 116, 117, 114, 110, 46, 101, 110, 100]
  const ErrorMarker: seq<byte> := [80, 97, 116, 104, 58, 101, 114, 114, 111, 114]

  /** What one frame means to the loop, with the cases tried in the order of the switch. */
  datatype Step = Audio(data: seq<byte>) | TurnEnd | ServiceErrorFrame | Ignored

  function Classify(f: Frame): (r: Step)
    ensures r.Audio? <==> f.kind == BinaryMessage && Contains(f.payload, AudioMarker)
    ensures r == TurnEnd <==> f.kind != BinaryMessage && Contains(f.payload, TurnEndMarker)
    ensures r == ServiceErrorFrame <==>
      f.kind != BinaryMessage && !Contains(f.payload, TurnEndMarker) && Contains(f.payload, ErrorMarker)
  {
    if f.kind == BinaryMessage then
      if Contains(f.payload, AudioMarker) then
        Audio(SplitFirst(f.payload, AudioMarker).value.1)
      else Ignored
    else if Contains(f.payload, TurnEndMarker) then TurnEnd
    else if Contains(f.payload, ErrorMarker) then ServiceErrorFrame
    else Ignored
  }

  /** The audio of a frame is everything after the first `Path:audio` marker in it. */
  lemma AudioAfterFirstMarker(f: Frame)
    ensures Classify(f).Audio? ==>
      Contains(f.payload, AudioMarker) &&
      Classify(f).data == f.payload[FirstIndex(f.payload, AudioMarker).value + |AudioMarker|..]
  {
  }

  predicate Stops(f: Frame) {
    Classify(f).TurnEnd? || Classify(f).ServiceErrorFrame?
  }

  /** The audio a frame contributes: what follows the first audio marker of a binary frame. */
  function Chunk(f: Frame): seq<byte> {
    if Classify(f).Audio? then Classify(f).data else []
  }

  /** The audio of a run of frames, in order. */
  function AudioOf(fs: seq<Frame>): seq<byte>
    decreases |fs|
  {
    if fs == [] then [] else AudioOf(fs[..|fs| - 1]) + Chunk(fs[|fs| - 1])
  }

  /** The position of the first frame that ends the loop, if any. */
  function FirstStop(fs: seq<Frame>): (r: Option<nat>)
    ensures r.Some? ==> r.value < |fs| && Stops(fs[r.value]) && forall j | 0 <= j < r.value :: !Stops(fs[j])
    ensures r.None? ==> forall j | 0 <= j < |fs| :: !Stops(fs[j])
    decreases |fs|
  {
    if fs == [] then None
    else if Stops(fs[0]) then Some(0)
    else match FirstStop(fs[1..])
      case None => None
      case Some(k) => Some(k + 1)
  }

  /**
   * What ReadAudioResponse returns for a stream: at the first turn.end frame
   * the audio so far, at the first error frame a synthesis error carrying
   * that frame; with neither, a normal closure gives the collected audio or,
   * when there is none, the no-audio error, and any other read error a
   * synthesis error.
   */
  function Response(s: Stream): Result<seq<byte>, Error> {
    match FirstStop(s.frames)
    case Some(k) =>
      if Classify(s.frames[k]).TurnEnd? then Success(AudioOf(s.frames[..k]))
      else Failure(Tagged(SynthesisError, ServiceError(s.frames[k].payload)))
    case None =>
      if !IsCloseError(s.end, CloseNormalClosure) then Failure(Tagged(SynthesisError, ReadFailed(s.end)))
      else if AudioOf(s.frames) == [] then Failure(Tagged(NoAudio, NoCause))
      else Success(AudioOf(s.frames))
  }

  lemma {:induction false} FirstStopIs(fs: seq<Frame>, k: nat)
    requires k < |fs| && Stops(fs[k]) && forall j | 0 <= j < k :: !Stops(fs[j])
    ensures FirstStop(fs) == Some(k)
    decreases k
  {
    if k > 0 {
      assert !Stops(fs[0]);
      var tail := fs[1..];
      forall j | 0 <= j < k - 1
        ensures !Stops(tail[j])
      {
        assert tail[j] == fs[j + 1];
      }
      FirstStopIs(tail, k - 1);
    }
  }

  /** No frame before position `i` ends the loop. */
  predicate NoStopBefore(fs: seq<Frame>, i: nat)
    requires i <= |fs|
  {
    forall j | 0 <= j < i :: !Stops(fs[j])
  }

  lemma NoStopExtend(fs: seq<Frame>, i: nat)
    requires i < |fs| && NoStopBefore(fs, i) && !Stops(fs[i])
    ensures NoStopBefore(fs, i + 1)
  {
  }

  lemma AudioOfStep(fs: seq<Frame>, i: nat)
    requires i < |fs|
    ensures AudioOf(fs[..i + 1]) == AudioOf(fs[..i]) + Chunk(fs[i])
  {
    assert fs[..i + 1][..i] == fs[..i];
  }

  /** The meaning of one frame, case by case in the order of the switch. */
  lemma ClassifyCases(f: Frame)
    ensures f.kind == BinaryMessage && Contains(f.payload, AudioMarker) ==>
      !Stops(f) && Chunk(f) == SplitFirst(f.payload, AudioMarker).value.1
    ensures f.kind == BinaryMessage && !Contains(f.payload, AudioMarker) ==> !Stops(f) && Chunk(f) == []
    ensures f.kind != BinaryMessage && Contains(f.payload, TurnEndMarker) ==> Stops(f) && Classify(f).TurnEnd?
    ensures f.kind != BinaryMessage && !Contains(f.payload, TurnEndMarker) && Contains(f.payload, ErrorMarker) ==>
      Stops(f) && Classify(f).ServiceErrorFrame?
    ensures f.kind != BinaryMessage && !Contains(f.payload, TurnEndMarker) && !Contains(f.payload, ErrorMarker) ==>
      !Stops(f) && Chunk(f) == []
  {
  }

  /** The response once the first stopping frame is known. */
  lemma ResponseAtStop(s: Stream, k: nat)
    requires k < |s.frames| && NoStopBefore(s.frames, k) && Stops(s.frames[k])
    ensures Classify(s.frames[k]).TurnEnd? ==> Response(s) == Success(AudioOf(s.frames[..k]))
    ensures !Classify(s.frames[k]).TurnEnd? ==>
      Response(s) == Failure(Tagged(SynthesisError, ServiceError(s.frames[k].payload)))
  {
    FirstStopIs(s.frames, k);
  }

  /** The response when no frame stops the loop. */
  lemma ResponseAtEnd(s: Stream)
    requires NoStopBefore(s.frames, |s.frames|)
    ensures !IsCloseError(s.end, CloseNormalClosure) ==> Response(s) == Failure(Tagged(SynthesisError, ReadFailed(s.end)))
    ensures IsCloseError(s.end, CloseNormalClosure) && AudioOf(s.frames) == [] ==> Response(s) == Failure(Tagged(NoAudio, NoCause))
    ensures IsCloseError(s.end, CloseNormalClosure) && AudioOf(s.frames) != [] ==> Response(s) == Success(AudioOf(s.frames))
  {
  }

  /**
   * ReadAudioResponse: reads frames until a normal closure, a turn.end or
   * error frame, or a failed read, collecting the audio of binary frames.
   */
  method ReadAudioResponse(stream: Stream) returns (r: Result<seq<byte>, Error>)
    ensures r == Response(stream)
  {
    var frames := stream.frames;
    var buf: seq<byte> := [];
    var i := 0;
    while true
      invariant 0 <= i <= |frames|
      invariant buf == AudioOf(frames[..i])
      invariant NoStopBefore(frames, i)
      decreases |frames| - i
    {
      if i == |frames| {
        assert frames[..i] == frames;
        if IsCloseError(stream.end, CloseNormalClosure) {
          break;
        }
        ResponseAtEnd(stream);
        return Failure(Tagged(SynthesisError, ReadFailed(stream.end)));
      }
      var f := frames[i];
      AudioOfStep(frames, i);
      ClassifyCases(f);
      if f.kind == BinaryMessage {
        if Contains(f.payload, AudioMarker) {
          var parts := SplitFirst(f.payload, AudioMarker);
          buf := buf + parts.value.1;
        }
      } else if Contains(f.payload, TurnEndMarker) {
        ResponseAtStop(stream, i);
        return Success(buf);
      } else if Contains(f.payload, ErrorMarker) {
        ResponseAtStop(stream, i);
        return Failure(Tagged(SynthesisError, ServiceError(f.payload)));
      }
      NoStopExtend(frames, i);
      i := i + 1;
    }
    ResponseAtEnd(stream);
    if |buf| == 0 {
      return Failure(Tagged(NoAudio, NoCause));
    }
    return Success(buf);
  }

  /** The audio of two runs of frames is the audio of the first followed by that of the second. */
  lemma {:induction false} AudioOfAppend(a: seq<Frame>, b: seq<Frame>)
    ensures AudioOf(a + b) == AudioOf(a) + AudioOf(b)
    decreases |b|
  {
    if b == [] {
      assert a + b == a;
    } else {
      var b', last := b[..|b| - 1], b[|b| - 1];
      assert b == b' + [last];
      assert a + b == (a + b') + [last];
      AudioOfAppend(a, b');
      AudioOfSnoc(a + b', last);
      AudioOfSnoc(b', last);
    }
  }

  /** The audio of a run with one more frame at its end. */
  lemma AudioOfSnoc(init: seq<Frame>, last: Frame)
    ensures AudioOf(init + [last]) == AudioOf(init) + Chunk(last)
  {
    assert (init + [last])[..|init|] == init;
  }

  /**
   * A binary frame never ends the loop, whatever text it holds: the binary
   * case is tried first, and it only ever contributes audio.
   */
  lemma BinaryFramesNeverStop(f: Frame)
    requires f.kind == BinaryMessage
    ensures !Stops(f)
    ensures Contains(f.payload, AudioMarker) <==> Classify(f).Audio?
  {
  }

  /** A text frame with both markers is a turn end: turn.end is tried before error. */
  lemma TurnEndBeatsError(f: Frame)
    requires f.kind == TextMessage && Contains(f.payload, TurnEndMarker) && Contains(f.payload, ErrorMarker)
    ensures Classify(f) == TurnEnd
  {
  }

  /** The audio marker right after `header` is the first one in the frame: none starts earlier. */
  predicate MarkerFirstAfter(header: seq<byte>, audio: seq<byte>) {
    forall j | 0 <= j < |header| :: !OccursAt(header + AudioMarker + audio, AudioMarker, j)
  }

  /** A binary frame contributes exactly the bytes after its first audio marker, whatever its header holds. */
  lemma AudioFrameChunk(header: seq<byte>, audio: seq<byte>)
    requires MarkerFirstAfter(header, audio)
    ensures Chunk(Frame(BinaryMessage, header + AudioMarker + audio)) == audio
  {
    var p := header + AudioMarker + audio;
    assert p[|header|..|header| + |AudioMarker|] == AudioMarker;
    FirstIndexIs(p, AudioMarker, |header|);
    assert p[|header| + |AudioMarker|..] == audio;
  }

  /** A header holding the marker's first byte still yields the audio after the marker. */
  lemma HeaderWithPKeepsAudio(audio: seq<byte>)
    ensures Chunk(Frame(BinaryMessage, [AudioMarker[0]] + AudioMarker + audio)) == audio
  {
    var h := [AudioMarker[0]];
    var p := h + AudioMarker + audio;
    assert p[1] == AudioMarker[0] != AudioMarker[1];
    AudioFrameChunk(h, audio);
  }

  /** A header without the marker's first byte `P` always leaves the first marker right after it. */
  lemma FreeHeaderMarkerFirst(header: seq<byte>, audio: seq<byte>)
    requires AudioMarker[0] !in header
    ensures MarkerFirstAfter(header, audio)
  {
    assert AudioMarker != [];
    FirstIndexAfterFree(header, AudioMarker, audio);
  }

  /**
   * Two audio frames followed by a turn.end frame give the two chunks in
   * order, however the stream would have ended.
   */
  lemma TwoChunksThenTurnEnd(h1: seq<byte>, a1: seq<byte>, h2: seq<byte>, a2: seq<byte>, t: seq<byte>, end: ReadError)
    requires MarkerFirstAfter(h1, a1) && MarkerFirstAfter(h2, a2) && Contains(t, TurnEndMarker)
    ensures Response(Stream([Frame(BinaryMessage, h1 + AudioMarker + a1), Frame(BinaryMessage, h2 + AudioMarker + a2),
      Frame(TextMessage, t)], end)) == Success(a1 + a2)
  {
    var f1, f2, f3 := Frame(BinaryMessage, h1 + AudioMarker + a1), Frame(BinaryMessage, h2 + AudioMarker + a2),
      Frame(TextMessage, t);
    AudioFrameChunk(h1, a1);
    AudioFrameChunk(h2, a2);
    BinaryFramesNeverStop(f1);
    BinaryFramesNeverStop(f2);
    TwoFramesThenTurnEnd(f1, f2, f3, end);
  }

  /** Two frames that do not end the loop, then a turn.end: the response is their two chunks. */
  lemma TwoFramesThenTurnEnd(f1: Frame, f2: Frame, f3: Frame, end: ReadError)
    requires !Stops(f1) && !Stops(f2) && Classify(f3) == TurnEnd
    ensures Response(Stream([f1, f2, f3], end)) == Success(Chunk(f1) + Chunk(f2))
  {
    var fs := [f1, f2, f3];
    FirstStopIs(fs, 2);
    assert fs[..2] == [f1] + [f2] && [] + [f1] == [f1];
    AudioOfSnoc([], f1);
    AudioOfSnoc([f1], f2);
    assert AudioOf([f1]) == Chunk(f1);
    assert AudioOf(fs[..2]) == Chunk(f1) + Chunk(f2);
    assert Stops(fs[2]) && Classify(fs[2]).TurnEnd?;
  }

  /** A turn.end returns the buffer as it stands, even when nothing was collected: no emptiness check on this path. */
  lemma TurnEndSkipsEmptinessCheck(s: Stream)
    requires s.frames != [] && s.frames[0].kind == TextMessage && Contains(s.frames[0].payload, TurnEndMarker)
    ensures Response(s) == Success([])
  {
    FirstStopIs(s.frames, 0);
  }

  /** An error frame fails the call with a synthesis error carrying that whole frame. */
  lemma ErrorFrameCarriesPayload(s: Stream, k: nat)
    requires FirstStop(s.frames) == Some(k) && Classify(s.frames[k]).ServiceErrorFrame?
    ensures Response(s) == Failure(Tagged(SynthesisError, ServiceError(s.frames[k].payload)))
    ensures Is(Response(s).error, SynthesisError) && !Is(Response(s).error, NoAudio)
  {
  }

  /**
   * Without a stopping frame the stream's end decides: a normal closure
   * with no audio is the no-audio error, with audio it is that audio; any
   * other end is a synthesis error.
   */
  lemma StreamEndDecides(s: Stream)
    requires FirstStop(s.frames).None?
    ensures IsCloseError(s.end, CloseNormalClosure) ==>
      Response(s) == (if AudioOf(s.frames) == [] then Failure(Tagged(NoAudio, NoCause)) else Success(AudioOf(s.frames)))
    ensures !IsCloseError(s.end, CloseNormalClosure) ==>
      Response(s).Failure? && Is(Response(s).error, SynthesisError)
  {
  }

  /** Frames after the first stopping frame, and the way the stream ends, change nothing. */
  lemma {:induction false} FramesAfterStopIgnored(fs: seq<Frame>, more: seq<Frame>, e1: ReadError, e2: ReadError)
    requires FirstStop(fs).Some?
    ensures Response(Stream(fs + more, e1)) == Response(Stream(fs, e2))
  {
    var k := FirstStop(fs).value;
    var all := fs + more;
    assert all[k] == fs[k];
    assert forall j | 0 <= j < k :: all[j] == fs[j];
    FirstStopIs(all, k);
    assert all[..k] == fs[..k];
  }

  /** A successful response is exactly the audio of the frames before the stop, or of all frames. */
  lemma SuccessIsCollectedAudio(s: Stream)
    requires Response(s).Success?
    ensures FirstStop(s.frames).None? ==> Response(s).value == AudioOf(s.frames) != []
    ensures FirstStop(s.frames).Some? ==> Response(s).value == AudioOf(s.frames[..FirstStop(s.frames).value])
  {
  }

  // ---------------------------------------------------------------------
  // Synthesize.
  // ---------------------------------------------------------------------

  /** How dialing the service ends: a connection, or an error with the handshake's status code if a response came back. */
  datatype Dial = Connected | DialError(status: Option<int>)

  /**
   * The remote side as the client sees it: whether the service URL parses,
   * how the dial ends, whether each of the two writes succeeds, and what the
   * read loop receives.
   */
  datatype Peer = Peer(urlOk: bool, dial: Dial, configWriteOk: bool, ssmlWriteOk: bool, stream: Stream)

  /** The connection operations in the order they are attempted. */
  datatype Action = Open(connectionId: string) | Write(message: string) | Receive | Close

  /**
   * What happens on the connection once the SSML is rendered: the dial, the
   * configuration write, the speech write and the read loop, each attempted
   * only when the previous step succeeded, with the connection closed on
   * every return after a successful dial.
   */
  function Session(peer: Peer, reqID: string, configStamp: string, speechStamp: string, ssml: string)
    : (Result<seq<byte>, Error>, seq<Action>)
  {
    if !peer.urlOk then (Failure(Tagged(ServiceFailure, InvalidServiceUrl)), [])
    else if peer.dial.DialError? then (Failure(Tagged(NetworkFailure, DialFailed(peer.dial.status))), [Open(reqID)])
    else
      var sentConfig := [Open(reqID), Write(BuildTTSConfigMessage(configStamp))];
      if !peer.configWriteOk then (Failure(Tagged(SynthesisError, SendConfigFailed)), sentConfig + [Close])
      else
        var sentSpeech := sentConfig + [Write(BuildTTSSpeechMessage(reqID, speechStamp, ssml))];
        if !peer.ssmlWriteOk then (Failure(Tagged(SynthesisError, SendSsmlFailed)), sentSpeech + [Close])
        else (Response(peer.stream), sentSpeech + [Receive, Close])
  }

  /**
   * What Synthesize returns and does, given the request fields before
   * defaults, the request identifier and the two timestamps the message
   * builders read from the clock: nothing at all when GetSSML fails.
   */
  function SynthesisRun(reg: VoiceRegistry, f0: Fields, peer: Peer, reqID: string, configStamp: string, speechStamp: string)
    : (Result<seq<byte>, Error>, seq<Action>)
    reads reg
    requires reg.Valid()
  {
    match SsmlOutcome(reg, f0)
    case Failure(e) => (Failure(e), [])
    case Success(ssml) => Session(peer, reqID, configStamp, speechStamp, ssml)
  }

  /**
   * Synthesize: renders the SSML, dials the service, writes the
   * configuration and then the speech message, and reads the response;
   * the connection is closed on every return after a successful dial.
   */
  method Synthesize(r: Request, reg: VoiceRegistry, peer: Peer, reqID: string, configStamp: string, speechStamp: string)
    returns (audio: Result<seq<byte>, Error>, trace: seq<Action>)
    requires reg.Valid()
    modifies r
    ensures r.Value() == Defaulted(old(r.Value()))
    ensures (audio, trace) == SynthesisRun(reg, old(r.Value()), peer, reqID, configStamp, speechStamp)
  {
    var ssml, err := GetSSML(r, reg);
    if err.Some? {
      return Failure(err.value), [];
    }
    audio, trace := Connect(peer, reqID, configStamp, speechStamp, ssml);
  }

  /** The connection steps of Synthesize, after the SSML is rendered. */
  method Connect(peer: Peer, reqID: string, configStamp: string, speechStamp: string, ssml: string)
    returns (audio: Result<seq<byte>, Error>, trace: seq<Action>)
    ensures (audio, trace) == Session(peer, reqID, configStamp, speechStamp, ssml)
  {
    if !peer.urlOk {
      return Failure(Tagged(ServiceFailure, InvalidServiceUrl)), [];
    }
    trace := [Open(reqID)];
    if peer.dial.DialError? {
      return Failure(Tagged(NetworkFailure, DialFailed(peer.dial.status))), trace;
    }
    trace := [Open(reqID), Write(BuildTTSConfigMessage(configStamp))];
    if !peer.configWriteOk {
      return Failure(Tagged(SynthesisError, SendConfigFailed)), trace + [Close];
    }
    var speechMessage := BuildTTSSpeechMessage(reqID, speechStamp, ssml);
    trace := trace + [Write(speechMessage)];
    if !peer.ssmlWriteOk {
      return Failure(Tagged(SynthesisError, SendSsmlFailed)), trace + [Close];
    }
    audio := ReadAudioResponse(peer.stream);
    trace := trace + [Receive, Close];
  }

  /** A request that fails validation fails with those errors before any connection is attempted. */
  lemma ValidationBeforeConnection(reg: VoiceRegistry, f0: Fields, peer: Peer, reqID: string, t1: string, t2: string)
    requires reg.Valid() && !Passes(reg, Defaulted(f0))
    ensures SynthesisRun(reg, f0, peer, reqID, t1, t2) == (Failure(Joined(Violations(reg, Defaulted(f0)))), [])
    ensures Is(SynthesisRun(reg, f0, peer, reqID, t1, t2).0.error, InvalidInput)
  {
    var vs := Violations(reg, Defaulted(f0));
    ViolationsReportEveryFailure(reg, Defaulted(f0));
    assert vs != [] && vs[0].Tagged? && vs[0].kind == InvalidInput;
    assert Is(vs[0], InvalidInput);
  }

  /** A request that passes validation runs the session with its rendered SSML. */
  lemma ValidRequestRunsSession(reg: VoiceRegistry, f0: Fields, peer: Peer, reqID: string, t1: string, t2: string)
    requires reg.Valid() && Passes(reg, Defaulted(f0))
    ensures SynthesisRun(reg, f0, peer, reqID, t1, t2) == Session(peer, reqID, t1, t2, Ssml(Defaulted(f0)))
  {
  }

  /** A failed dial is a network failure and never a synthesis error; nothing is written. */
  lemma DialFailureIsNetworkFailure(peer: Peer, reqID: string, t1: string, t2: string, ssml: string)
    requires peer.urlOk && peer.dial.DialError?
    ensures Session(peer, reqID, t1, t2, ssml).0.Failure?
    ensures Is(Session(peer, reqID, t1, t2, ssml).0.error, NetworkFailure)
    ensures !Is(Session(peer, reqID, t1, t2, ssml).0.error, SynthesisError)
    ensures Session(peer, reqID, t1, t2, ssml).1 == [Open(reqID)]
  {
  }

  /**
   * Once connected, the configuration message is written first and the
   * speech message, carrying the request identifier and the SSML, second,
   * and the connection is closed last, exactly once.
   */
  lemma ConfigBeforeSpeech(peer: Peer, reqID: string, t1: string, t2: string, ssml: string)
    requires peer.urlOk && peer.dial.Connected?
    ensures var trace := Session(peer, reqID, t1, t2, ssml).1;
      |trace| >= 3 && trace[0] == Open(reqID) && trace[1] == Write(BuildTTSConfigMessage(t1))
      && trace[|trace| - 1] == Close && Close !in trace[..|trace| - 1]
      && (peer.configWriteOk ==> trace[2] == Write(BuildTTSSpeechMessage(reqID, t2, ssml)))
  {
  }

  /** A failed write is a synthesis error, and the response is then never read. */
  lemma WriteFailureSkipsRead(peer: Peer, reqID: string, t1: string, t2: string, ssml: string)
    requires peer.urlOk && peer.dial.Connected? && (!peer.configWriteOk || !peer.ssmlWriteOk)
    ensures Session(peer, reqID, t1, t2, ssml).0.Failure?
    ensures Is(Session(peer, reqID, t1, t2, ssml).0.error, SynthesisError)
    ensures Receive !in Session(peer, reqID, t1, t2, ssml).1
  {
  }

  /** Audio comes back only from a full session, and it is what the read loop returns for the peer's stream. */
  lemma SuccessMeansFullSession(peer: Peer, reqID: string, t1: string, t2: string, ssml: string)
    requires Session(peer, reqID, t1, t2, ssml).0.Success?
    ensures peer.urlOk && peer.dial.Connected? && peer.configWriteOk && peer.ssmlWriteOk
    ensures Session(peer, reqID, t1, t2, ssml).0 == Response(peer.stream)
    ensures Session(peer, reqID, t1, t2, ssml).1 == [Open(reqID), Write(BuildTTSConfigMessage(t1)),
      Write(BuildTTSSpeechMessage(reqID, t2, ssml)), Receive, Close]
  {
  }
}
