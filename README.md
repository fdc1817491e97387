# Cadence-TTS backend core, modelled in Dafny

Cadence-TTS is a text-to-speech backend. A client posts a synthesis request. The backend
fills in default prosody values and validates the request against a registry of known
voices. It then renders the request as an SSML document. Over a WebSocket connection it
sends a configuration message and a speech message, and collects the audio frames the
service sends back. Before every authenticated API request, an account layer enforces a
per-user rate limit over a one-minute window and a total capacity. The window starts afresh
only when the last admitted call is more than a minute old, so it does not slide. When an
account is created, its username and password are checked first.

The model covers these parts:

- **`SpeechModels`** (`speech_models.dfy`): the range constants, the five error sentinels
  and how errors are joined.
  - `Request` is a class: the package rewrites its five string fields in place.
  - `VoiceRegistry` is a class holding the same `map<string, bool>` as the source. A ghost
    set records every name ever registered.
- **`SpeechHelper`** (`speech_helper.dfy`): the message framing and the two outbound
  messages, the prosody-number check, the five field checks, `Validate` and
  `SetRequestDefaults`.
- **`SpeechService`** (`speech_service.dfy`) covers four things:
  - the catalog fetch outcome and `InitVoices`;
  - the SSML template and a parser that reads it back;
  - the response read loop, checked against a declarative reference `Response`;
  - `Synthesize`, as a sequence of steps over an abstract peer that returns the trace of
    connection operations it attempted.
- **`DataModels`, `DataHelper`, `DataService`** (`data_*.dfy`): username and password
  validation, the `CheckAccess` rate/capacity state machine on a `User` record updated in
  place, and the validation-then-storage order of `CreateUser`.
- **`Strings`** (`strings.dfy`) restates the Go library functions the code relies on:
  - `strings.TrimSpace` with `unicode.IsSpace`;
  - `HasSuffix` and `TrimSuffix`;
  - `bytes.Index`, `bytes.Contains` and `SplitN(·, 2)`;
  - `len` as a UTF-8 byte count.

Inputs the model does not compute are parameters:

- timestamps and the request identifier;
- the current time, in nanoseconds;
- the HTTP catalog response;
- for the WebSocket: the dial result, each write result, and the frames received followed
  by the error that ends the stream;
- whether the password hash, the insert and the save succeed.

Five behaviours of the source are easy to misread:

- **Early `turn.end`.** A text frame with `Path:turn.end` returns the audio collected so
  far, even when there is none. Only a Normal Closure can produce the no-audio error.
  See `SpeechService.TurnEndSkipsEmptinessCheck`.
- **Binary frames.** These never end the read loop, even when they contain
  `Path:turn.end` or `Path:error`, because the binary case is checked first.
- **Catalog failure.** A failed catalog fetch during `InitVoices` is a service failure
  wrapping the fetch error. A transport failure is therefore both a service failure and
  a network failure under `errors.Is`.
- **Marker matching.** Markers are found by substring search over the whole frame, not by
  parsing the header block.
- **Taken names.** A failed insert counts as a taken name only when the driver's error
  text contains `UNIQUE constraint`, with exactly that capitalisation. Any other failure
  is a database error. PostgreSQL, which `backend/cmd/api/main.go` opens, reports a
  duplicate key as "duplicate key value violates unique constraint", in lower case. See
  `DataService.TakenNameNeedsExactText`.

The `X-Timestamp` header is the RFC 3339 text followed by a `Z` of its own.

## Model

| member | source | states |
|---|---|---|
| `SpeechModels.KindMessagesDistinct` | backend/internal/speech/models.go:13-19 | the five sentinels have pairwise different messages, so the five kinds are distinct |
| `SpeechModels.Request.constructor` | backend/internal/speech/models.go:21-27 | a request is exactly its five string fields |
| `SpeechModels.JoinIsUnion` | backend/internal/speech/helper.go:124-125 | `errors.Is` on a join finds a sentinel exactly when it occurs in one of the joined lists |
| `SpeechModels.VoiceRegistry.constructor` | backend/internal/speech/models.go:41-43 | the process-wide registry starts empty |
| `SpeechModels.VoiceRegistry.SetVoiceRegistry` | backend/internal/speech/helper.go:36-40 | the map gains `voice := true` and keeps every other entry; the set of registered names only grows |
| `SpeechModels.VoiceRegistry.CheckVoiceRegistry` | backend/internal/speech/helper.go:42-46 | true exactly for names previously registered; an absent key reads as false |
| `SpeechHelper.ParseRender` | backend/internal/speech/helper.go:29-33 | the `Key:Value\r\n` header lines, a blank line and a body read back as those headers and that body, whatever the body holds |
| `SpeechHelper.BuildTTSConfigMessage` | backend/internal/speech/helper.go:13-30 | the configuration message is the three configuration headers rendered over the configuration JSON |
| `SpeechHelper.BuildTTSSpeechMessage` | backend/internal/speech/helper.go:32-34 | the speech message is the four speech headers rendered over the SSML |
| `SpeechHelper.ConfigMessageShape` | backend/internal/speech/helper.go:29 | the configuration message parses back to its headers and the JSON, contains `Path:speech.config`, and ends with `\r\n\r\n` and the JSON |
| `SpeechHelper.SpeechMessageShape` | backend/internal/speech/helper.go:33 | the speech message parses back with `X-RequestId:<id>` first and `Path:ssml` among its headers, and ends with `\r\n\r\n` and the SSML verbatim |
| `SpeechHelper.RenderEndsWithBody` | backend/internal/speech/helper.go:29-33 | a message with at least one header ends with `\r\n\r\n` followed by the body |
| `SpeechHelper.ValidateNumbers` | backend/internal/speech/helper.go:61-74 | any failure is invalid input carrying the field's message, as a format error or a range error |
| `SpeechHelper.ValidateNumbersIff` | backend/internal/speech/helper.go:61-74 | passes iff the value is an optional `-`, one to three digits and exactly the suffix, with the number in [-100, 100]; reports a format error iff the value is not of that shape |
| `SpeechHelper.PatternIsDecomposition` | backend/internal/speech/helper.go:62-67 | the character-level reading of `^-?\d{1,3}<suffix>$` is the sign-digits-suffix decomposition, and `Atoi` of the trimmed text reads that number |
| `SpeechHelper.DecompositionUnique` | backend/internal/speech/helper.go:62-67 | a sign and digits followed by a suffix split in only one way |
| `SpeechHelper.InRangeNumbersAccepted` | backend/internal/speech/models.go:8-11 | every integer in [-100, 100], written out and suffixed, passes: both bounds are inclusive |
| `SpeechHelper.OutOfRangeNumbersRefused` | backend/internal/speech/helper.go:69-71 | a well-formed number outside [-100, 100] fails with the range error |
| `SpeechHelper.ValidateVoice` | backend/internal/speech/helper.go:76-82 | passes iff the voice was registered; otherwise an invalid-voice error naming it |
| `SpeechHelper.EmptyRegistryRefusesEveryVoice` | backend/internal/speech/models.go:41-43 | before population every voice is refused |
| `SpeechHelper.ValidateText` | backend/internal/speech/helper.go:84-90 | passes iff the text has a non-white-space character; otherwise the empty-text error |
| `SpeechHelper.ValidatePitch` | backend/internal/speech/helper.go:92-94 | any failure is a format or range error carrying the pitch message (suffix `Hz`) |
| `SpeechHelper.ValidateRate` | backend/internal/speech/helper.go:96-98 | any failure is a format or range error carrying the rate message (suffix `%`) |
| `SpeechHelper.ValidateVolume` | backend/internal/speech/helper.go:100-102 | any failure is a format or range error carrying the volume message (suffix `%`) |
| `SpeechHelper.PassesIff` | backend/internal/speech/helper.go:104-128 | validation succeeds iff the voice is registered, the text is not blank and pitch, rate and volume are accepted numbers with their suffixes |
| `SpeechHelper.ViolationsReportEveryFailure` | backend/internal/speech/helper.go:104-128 | no short-circuit: every failing check contributes its error, every error is invalid input, at most five |
| `SpeechHelper.UnknownVoiceReportedFirst` | backend/internal/speech/helper.go:107-109 | an unregistered voice is always reported, and first |
| `SpeechHelper.Validate` | backend/internal/speech/helper.go:104-128 | returns nil iff every check passes, else the join of the failures in the order voice, text, pitch, rate, volume |
| `SpeechHelper.SetRequestDefaults` | backend/internal/speech/helper.go:130-152 | the request becomes its defaulted form |
| `SpeechHelper.DefaultsFilled` | backend/internal/speech/helper.go:130-142 | the text is never changed; an empty voice becomes `en-US-AriaNeural`; empty pitch, rate and volume become `0Hz`, `0%`, `0%` |
| `SpeechHelper.DefaultsAddSuffixes` | backend/internal/speech/helper.go:144-152 | afterwards pitch ends in `Hz` and rate and volume in `%`; a value with its suffix is kept, otherwise exactly the suffix is appended |
| `SpeechHelper.WithSuffixEnds` | backend/internal/speech/helper.go:144-152 | appending a missing suffix: the result ends with it, and is the value itself or the value plus the suffix |
| `SpeechHelper.DefaultsIdempotent` | backend/internal/speech/helper.go:130-152 | applying the defaults twice gives the same request as once |
| `SpeechService.GetVoices` | backend/internal/speech/service.go:15-34 | success iff status 200 with a decodable catalog; a transport error is a network failure; a bad status or body is a service failure |
| `SpeechService.InitVoices` | backend/internal/speech/helper.go:48-59 | on success the registered set gains exactly every catalog short name and earlier members stay; on failure the registry is unchanged and the error wraps the fetch error as a service failure |
| `SpeechService.ShortNamesMembership` | backend/internal/speech/helper.go:54-56 | a name is registered from the catalog iff some entry has it as short name |
| `SpeechService.RegisteredVoicesPass` | backend/internal/speech/helper.go:48-59 | after population every catalog voice and every earlier member passes voice validation |
| `SpeechService.Ssml` | backend/internal/speech/service.go:43-44 | the document opens with the `speak` and `voice` tags and the voice, ends with the text verbatim and the closing tags, and holds the pitch, rate and volume attributes in between; `SsmlRoundTrip` proves that it parses back |
| `SpeechService.SsmlRoundTrip` | backend/internal/speech/service.go:43-44 | the document is the fixed template: it parses back to the five fields, the text verbatim whatever it contains, when voice, pitch, rate and volume hold no apostrophe |
| `SpeechService.SsmlNested` | backend/internal/speech/service.go:43-44 | the template is the literal pieces and the fields in template order |
| `SpeechService.AcceptedHasNoApostrophe` | backend/internal/speech/helper.go:61-74 | an accepted prosody value holds no apostrophe, so it cannot break the attribute it is spliced into |
| `SpeechService.SsmlOutcomeIsDefaultedThenValidated` | backend/internal/speech/service.go:36-47 | defaults come first, then validation: failure iff the defaulted request fails validation, with only invalid-input errors; success renders the defaulted request |
| `SpeechService.PassingRequestRoundTrips` | backend/internal/speech/service.go:43-46 | a request that passes validation renders a document that parses back to exactly that request, when its voice name holds no apostrophe |
| `SpeechService.GetSSML` | backend/internal/speech/service.go:36-47 | leaves the request defaulted; on failure returns `""` and the validation error, on success the SSML of the defaulted request |
| `SpeechService.ReadAudioResponse` | backend/internal/speech/service.go:49-81 | returns exactly the reference response of the stream |
| `SpeechService.Classify` | backend/internal/speech/service.go:61-73 | a frame is audio iff it is binary and contains `Path:audio\r\n`; a turn end iff it is a text frame containing `Path:turn.end`; an error frame iff it is a text frame with `Path:error` and no `Path:turn.end` |
| `SpeechService.FirstStop` | backend/internal/speech/service.go:69-72 | the first frame that ends the loop, with no earlier one |
| `SpeechService.AudioOfAppend` | backend/internal/speech/service.go:62-68 | the audio of consecutive runs of frames is concatenated in order |
| `SpeechService.BinaryFramesNeverStop` | backend/internal/speech/service.go:61-68 | a binary frame never ends the loop and contributes audio iff it contains `Path:audio\r\n` |
| `SpeechService.TurnEndBeatsError` | backend/internal/speech/service.go:69-72 | a text frame with both markers is a turn end |
| `SpeechService.AudioAfterFirstMarker` | backend/internal/speech/service.go:63-64 | an audio frame's data is every byte after the first `Path:audio\r\n` in the payload, for any payload |
| `SpeechService.AudioFrameChunk` | backend/internal/speech/service.go:63-64 | a binary frame `header + marker + audio` contributes exactly `audio` whenever no marker starts inside `header`, whatever bytes the header holds |
| `SpeechService.HeaderWithPKeepsAudio` | backend/internal/speech/service.go:63-64 | a header consisting of the byte `P` still yields exactly the audio after the marker |
| `SpeechService.FreeHeaderMarkerFirst` | backend/internal/speech/service.go:63-64 | a header without the byte `P` never holds the start of a marker, so the marker after it is the first |
| `SpeechService.TwoChunksThenTurnEnd` | backend/internal/speech/service.go:52-70 | two audio frames, each with its first marker after its header, then `turn.end` give the two payloads concatenated in order |
| `SpeechService.TurnEndSkipsEmptinessCheck` | backend/internal/speech/service.go:69-70 | `turn.end` with nothing collected returns empty audio, not the no-audio error |
| `SpeechService.ErrorFrameCarriesPayload` | backend/internal/speech/service.go:71-72 | an error frame fails as a synthesis error carrying the whole frame |
| `SpeechService.StreamEndDecides` | backend/internal/speech/service.go:54-58 | with no stopping frame, a Normal Closure gives the audio or, if there is none, the no-audio error; any other read error is a synthesis error |
| `SpeechService.FramesAfterStopIgnored` | backend/internal/speech/service.go:69-72 | frames after the first stopping frame, and how the stream ends, change nothing |
| `SpeechService.SuccessIsCollectedAudio` | backend/internal/speech/service.go:76-80 | successful audio is the audio up to the stop, and non-empty when the stream closed normally |
| `SpeechService.Synthesize` | backend/internal/speech/service.go:83-123 | leaves the request defaulted and returns, with its trace, exactly what the staged reference run gives |
| `SpeechService.Connect` | backend/internal/speech/service.go:89-123 | the connection steps return what the session reference gives |
| `SpeechService.ValidationBeforeConnection` | backend/internal/speech/service.go:84-87 | a validation failure returns invalid input before any connection is attempted |
| `SpeechService.ValidRequestRunsSession` | backend/internal/speech/service.go:83-123 | a valid request runs the session with its rendered SSML |
| `SpeechService.DialFailureIsNetworkFailure` | backend/internal/speech/service.go:100-106 | a failed dial is a network failure, never a synthesis error, and nothing is written |
| `SpeechService.ConfigBeforeSpeech` | backend/internal/speech/service.go:107-116 | once connected, the config is written first and the speech message with the request id and SSML second; the connection is closed last, once |
| `SpeechService.WriteFailureSkipsRead` | backend/internal/speech/service.go:109-116 | a failed write is a synthesis error and the response is never read |
| `SpeechService.SuccessMeansFullSession` | backend/internal/speech/service.go:118-123 | audio is returned only after every step succeeded, and it is the read loop's result |
| `Strings.TrimSpace` | backend/internal/data/helper.go:22 | the result is a slice of the input with only white space before and after it; it is empty iff the input is all white space, and otherwise starts and ends with a non-space, so exactly the leading and trailing white space is removed |
| `Strings.Utf8Len` | backend/internal/data/helper.go:26 | Go's `len` lies between the rune count and four times it, and equals it for ASCII text |
| `Strings.SplitFirst` | backend/internal/speech/service.go:64 | `bytes.SplitN(s, sep, 2)`: no parts iff `sep` does not occur; otherwise the parts rebuild `s` around `sep` and no occurrence of `sep` starts inside the first part, so the split is at the first occurrence |
| `DataModels.RuleMessage` | backend/internal/data/helper.go:24-50 | every rule has a non-empty message |
| `DataModels.RuleMessagesDistinct` | backend/internal/data/helper.go:24-50 | no two rules share a message, so the text of a validation error names the failed rule |
| `DataModels.User.constructor` | backend/internal/data/models.go:44-50 | a user record holds its name, admin flag and usage |
| `DataHelper.ValidateUsername` | backend/internal/data/helper.go:21-30 | the empty-name error iff the name is all white space; passes iff not blank and the trimmed byte length lies within the bounds |
| `DataHelper.UsernameIgnoresSurroundingSpace` | backend/internal/data/helper.go:22 | white space around a name never changes the verdict |
| `DataHelper.TrimOfPadded` | backend/internal/data/helper.go:22 | trimming a padded name gives back the name |
| `DataHelper.ValidatePassword` | backend/internal/data/helper.go:32-53 | returns the verdict of the length-then-composition rule |
| `DataHelper.LengthCheckedFirst` | backend/internal/data/helper.go:33-35 | a password of the wrong byte length is refused for its length, whatever its characters |
| `DataHelper.CompositionRule` | backend/internal/data/helper.go:37-52 | a password of valid length passes iff it has an uppercase letter, a lowercase letter and a digit |
| `DataHelper.ClassesDisjoint` | backend/internal/data/helper.go:39-46 | the three classes are disjoint, so the switch order does not matter |
| `DataHelper.OtherCharactersNeutral` | backend/internal/data/helper.go:39-46 | a character of no class, inserted anywhere, neither satisfies nor breaks the composition rule |
| `DataService.Admit` | backend/internal/data/service.go:111-131 | an admin passes untouched; a refusal is the capacity or rate error and changes nothing; an admission stamps the time, adds one to the total, keeps the limits, and sets the window count to one or one more |
| `DataService.Access` | backend/internal/data/service.go:110-135 | the usage is the admission's, kept even when saving fails; a refusal keeps its capacity or rate error; an admitted non-admin call gets no error when the save succeeds and the database error when it fails; admins never touch the database |
| `DataService.CheckAccess` | backend/internal/data/service.go:110-138 | updates the usage in place to exactly what the reference access gives, and returns its error; name and admin flag unchanged |
| `DataService.AdminAlwaysPasses` | backend/internal/data/service.go:111-113 | an admin passes and its counters are untouched |
| `DataService.CapacityCheckedFirst` | backend/internal/data/service.go:118-120 | at capacity the call fails with the capacity error and nothing changes, whatever the rate window |
| `DataService.StaleWindowResets` | backend/internal/data/service.go:122-123 | a call more than a minute after the last one resets the count to one |
| `DataService.WindowRateLimit` | backend/internal/data/service.go:124-128 | within the window, at the limit the call fails with nothing changed; otherwise the count grows by exactly one |
| `DataService.AdmittedCallsCount` | backend/internal/data/service.go:130-135 | every admitted call stamps the time and adds exactly one to the total, limits untouched, and a failed save keeps the update in memory; a refused call changes nothing |
| `DataService.LimitsPreserved` | backend/internal/data/service.go:118-131 | over calls made one after another, the total stays within the capacity and the count within the rate limit, so neither 64-bit counter overflows |
| `DataService.CapacityBoundsAdmissions` | backend/internal/data/service.go:118-131 | over calls made one after another, no more are admitted than the remaining capacity, and the total grows by the number admitted |
| `DataService.WindowBoundsAdmissions` | backend/internal/data/service.go:116-128 | calls made one after another, in time order and within a minute of the last request, are admitted at most the rate limit minus the current count times |
| `DataService.CreateUser` | backend/internal/data/service.go:14-49 | success iff both validations pass, hashing succeeds and the insert succeeds, storing the name as given; the taken-name error iff everything before the insert passed and its error text contains `UNIQUE constraint` |
| `DataService.TakenNameNeedsExactText` | backend/internal/data/service.go:41-45 | a failed insert whose message has no capital `U`, such as a lower-case duplicate-key message, is a database error, not a taken name |
| `DataService.ValidationBeforeStorage` | backend/internal/data/service.go:14-21 | the username is validated before the password; a validation error happens iff one of them fails, whatever hashing and storage would do |
| `DataService.CreatedAccount` | backend/internal/data/service.go:28-49 | an account is stored only for a valid name and password, under the name as given, untrimmed, with the default limits and zero counters |
| `DataService.NewAccountFirstAccess` | backend/internal/data/service.go:29-38 | with positive defaults a new account's first access is admitted |

## Left out

- The HTTP client, JSON decoding, the WebSocket dialer and its reads and writes. They
  become the `CatalogFetch` and `Peer` outcome values and the `Stream` of frames.
- Time-outs, and a read that never returns. A `Stream` is always a finite list of frames
  ended by a read error, so `ReadAudioResponse` always terminates. The source's read loop
  sets no deadline, and blocks for ever against a peer that keeps the connection open and
  sends nothing.
- The service URL, the token and the query encoding. `WssURL`, `VoicesURL` and
  `TrustedClientToken` are not part of this model; the URL parse is a boolean outcome.
- `time.Now`, `uuid.New` and the RFC 3339 formatting. They are parameters.
- `json.Marshal` of the configuration map. It is its sorted-key text, a constant.
- The registry mutex. Only single-threaded behaviour is modelled.
- `CheckAccess` under concurrent requests. Each request loads its own copy of the user row,
  and `CheckAccess` reads, updates and saves the whole row with no lock or transaction.
  Two requests at once can both be admitted at the last unit of capacity and one save lost.
  The bounds of `LimitsPreserved`, `CapacityBoundsAdmissions` and
  `WindowBoundsAdmissions` hold only for calls made one after another.
- `defer c.Close()`: no resource is modelled. `Close` is an entry in the trace.
- The `audioBuffer.Write` error branch. `bytes.Buffer.Write` never returns an error, so
  the branch cannot be taken.
- The regular-expression engine. `^-?\d{1,3}<suffix>$` is restated character by
  character for the two suffixes `Hz` and `%`.
- `DataHelper.ValidatePassword`: classifies only ASCII letters and digits. Go's
  `unicode.IsUpper`, `IsLower` and `IsNumber` also accept non-ASCII letters and numerals.
- bcrypt hashing and the transaction. They become the `hashOk` outcome and the `Insert`
  outcome, which is success or the text of the driver's error.
- `DB.Save`. It is the `saveOk` outcome; the in-memory update stays either way.
- `CheckAccess` clock arithmetic: time is an unbounded integer count of nanoseconds. The
  saturation of `time.Time.Add` near the ends of its range is not modelled.
- The other account operations, `AuthenticateUser`, `CreateToken`, `ValidateToken` and
  `UpdateLimits`. They are bcrypt, random bytes and database queries.
- `GetEnvAsInt`, `LoadConfig`, `NewRepository` and `AutoMigrate`. They are environment
  and database I/O; the configuration is a `DataConfig` value.
- The whole `backend/cmd/api` layer: routing, handlers, middleware and the
  error-to-status mapping.
