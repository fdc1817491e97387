/**
 * Types and constants of the speech package: the numeric range accepted for
 * prosody values, the error taxonomy, the synthesis request, catalog voices,
 * the voice registry, and the abstract WebSocket connection the response
 * loop reads from.
 */
module SpeechModels {
  import opened Wrappers
  import opened Strings

  /** Inclusive bounds of pitch, rate and volume values. */
  const MinValue: int := -100
  const MaxValue: int := 100

  /** The five sentinel errors every failure of the package is tagged with. */
  datatype ErrorKind = InvalidInput | ServiceFailure | NetworkFailure | SynthesisError | NoAudio

  /** The text of each sentinel. */
  function KindMessage(k: ErrorKind): (m: string)
    ensures m != ""
  {
    match k
    case InvalidInput => "invalid input"
    case ServiceFailure => "service failure"
    case NetworkFailure => "network failure"
    case SynthesisError => "synthesis error"
    case NoAudio => "no audio data received"
  }

  /** No two sentinels share a message, so the five kinds are told apart by their text too. */
  lemma KindMessagesDistinct(k1: ErrorKind, k2: ErrorKind)
    ensures KindMessage(k1) == KindMessage(k2) ==> k1 == k2
  {
    if k1 != k2 {
      var m1, m2 := KindMessage(k1), KindMessage(k2);
      assert |m1| != |m2| || m1[0] != m2[0] || m1[1] != m2[1];
    }
  }

  /** How a read on the connection failed. */
  datatype ReadError =
    | CloseError(code: int)   // the peer sent a Close frame with this status code
    | TransportError          // any other failure: I/O error, protocol violation, timeout

  /** Normal Closure, close code 1000 (section 7.4.1 of RFC 6455). */
  const CloseNormalClosure: int := 1000

  /** websocket.IsCloseError(err, code). */
  predicate IsCloseError(e: ReadError, code: int) {
    e.CloseError? && e.code == code
  }

  /** The context joined under a sentinel (the `fmt.Errorf` part of each `errors.Join`). */
  datatype Cause =
    | NoCause                          // a bare sentinel
    | InvalidFormat(what: string)      // "invalid format: ..."
    | OutOfRange(what: string)         // "value out of range: ..."
    | InvalidVoice(voice: string)      // "invalid voice: ..."
    | EmptyText                        // "text cannot be empty"
    | FetchFailed                      // "failed to fetch voices: ..."
    | BadStatus(status: int)           // "service returned status ..."
    | DecodeFailed                     // "failed to decode voices response: ..."
    | InitFailed(inner: Error)         // "failed to initialize voices: %w"
    | InvalidServiceUrl                // "invalid service URL: ..."
    | DialFailed(handshake: Option<int>)// "websocket connection failed [with status ...]"
    | SendConfigFailed                 // "failed to send config: ..."
    | SendSsmlFailed                   // "failed to send SSML: ..."
    | ReadFailed(err: ReadError)       // "failed to read message: ..."
    | ServiceError(frame: seq<byte>)   // "service error: <the whole frame>"

  /** An error value: a sentinel joined with its cause, or several errors joined together. */
  datatype Error =
    | Tagged(kind: ErrorKind, cause: Cause)
    | Joined(parts: seq<Error>)

  /** errors.Is(e, sentinel of k): the sentinel appears somewhere in the error tree. */
  predicate Is(e: Error, k: ErrorKind)
    decreases e
  {
    match e
    case Tagged(kind, cause) => kind == k || (cause.InitFailed? && Is(cause.inner, k))
    case Joined(parts) => exists i | 0 <= i < |parts| :: Is(parts[i], k)
  }

  /** Joining two lists of errors: a sentinel is found in the join exactly when it is found in either list. */
  lemma JoinIsUnion(a: seq<Error>, b: seq<Error>, k: ErrorKind)
    ensures Is(Joined(a + b), k) <==> Is(Joined(a), k) || Is(Joined(b), k)
  {
    var ab := a + b;
    if Is(Joined(ab), k) {
      var i :| 0 <= i < |ab| && Is(ab[i], k);
      if i < |a| { assert ab[i] == a[i]; } else { assert ab[i] == b[i - |a|]; }
    }
    if Is(Joined(a), k) {
      var i :| 0 <= i < |a| && Is(a[i], k);
      assert ab[i] == a[i];
    }
    if Is(Joined(b), k) {
      var i :| 0 <= i < |b| && Is(b[i], k);
      assert ab[|a| + i] == b[i];
    }
  }

  /** The five string fields of a request, as one value. */
  datatype Fields = Fields(text: string, voice: string, pitch: string, rate: string, volume: string)

  /** A synthesis request, which the package normalises in place. */
  class Request {
    var text: string
    var voice: string
    var pitch: string
    var rate: string
    var volume: string

    function Value(): Fields
      reads this
    {
      Fields(text, voice, pitch, rate, volume)
    }

    constructor (f: Fields)
      ensures Value() == f
    {
      text, voice, pitch, rate, volume := f.text, f.voice, f.pitch, f.rate, f.volume;
    }
  }

  /** One entry of the remote voice catalog. */
  datatype Voice = Voice(name: string, shortName: string, gender: string, locale: string)

  /**
   * The set of accepted voice short names, kept as Go keeps it: a map to
   * `true`, where an absent key reads as `false`. `Added` records every name
   * ever registered.
   */
  class VoiceRegistry {
    var voices: map<string, bool>
    ghost var Added: set<string>

    ghost predicate Valid()
      reads this
    {
      voices.Keys == Added && forall v | v in voices :: voices[v]
    }

    /** The registry the process starts with: empty. */
    constructor ()
      ensures Valid() && Added == {}
    {
      voices := map[];
      Added := {};
    }

    /** Registers one voice; the registry only grows. */
    method SetVoiceRegistry(voice: string)
      requires Valid()
      modifies this
      ensures Valid()
      ensures voices == old(voices)[voice := true]
      ensures Added == old(Added) + {voice}
    {
      voices := voices[voice := true];
      Added := Added + {voice};
    }

    /** The stored flag of `voice`, false when absent: true exactly for registered names. */
    function CheckVoiceRegistry(voice: string): (r: bool)
      reads this
      requires Valid()
      ensures voice !in voices ==> !r
      ensures r <==> voice in Added
    {
      if voice in voices then voices[voice] else false
    }
  }
}
