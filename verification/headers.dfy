/**
  `RxSTOMPHeader`: a header is one of sixteen well-known kinds or a custom
  key, each carrying one string value.  The Swift enum gives every case an
  associated string; here that string is the `value` field and the case is the
  `kind`.  A header's wire key is fixed by its kind.
 */
module Headers {

  /** The cases of `RxSTOMPHeader`, without their associated value. */
  datatype HeaderKind =
    | Host | Login | Passcode | AcceptVersion | HeartBeat | Destination | DestinationId
    | Custom(key: string)
    | Receipt | DeviceId | Version | Subscription | MessageId | ContentLength | Message
    | UserName | ContentType
  {
    /** The wire key of the kind. */
    function Key(): string {
      match this
      case Host => "host"
      case Login => "login"
      case Passcode => "passcode"
      case AcceptVersion => "accept-version"
      case HeartBeat => "heart-beat"
      case Destination => "destination"
      case DestinationId => "id"
      case Custom(k) => k
      case Version => "version"
      case Subscription => "subscription"
      case MessageId => "message-id"
      case ContentLength => "content-length"
      case Message => "message"
      case UserName => "user-name"
      case ContentType => "content-type"
      case Receipt => "receipt"
      case DeviceId => "device_id"
    }
  }

  datatype Header = Header(kind: HeaderKind, value: string)
  {
    /** `key`: the wire key. */
    function Key(): string {
      kind.Key()
    }

    /** `value`: the wire value. */
    function Value(): string {
      value
    }

    /** The (key, value) pair the header stands for on the wire. */
    function Pair(): (string, string) {
      (Key(), value)
    }

    /** `isMessage`. */
    predicate IsMessage() {
      kind.Message?
    }

    /** `isDestination`. */
    predicate IsDestination() {
      kind.Destination?
    }
  }

  /** The keys `RxSTOMPHeader(key:value:)` maps to a dedicated case; every other key becomes `Custom`. */
  const RecognisedKeys: set<string> :=
    {"version", "subscription", "message-id", "content-length", "message", "destination",
     "heart-beat", "user-name", "content-type", "receipt", "device_id"}

  /** The case `RxSTOMPHeader(key:value:)` picks for a key: one whose wire key is that key. */
  function KindOf(key: string): (k: HeaderKind)
    ensures k.Key() == key
  {
    match key
    case "version" => Version
    case "subscription" => Subscription
    case "message-id" => MessageId
    case "content-length" => ContentLength
    case "message" => Message
    case "destination" => Destination
    case "heart-beat" => HeartBeat
    case "user-name" => UserName
    case "content-type" => ContentType
    case "receipt" => Receipt
    case "device_id" => DeviceId
    case _ => Custom(key)
  }

  /** `RxSTOMPHeader(key:value:)`: the header reads back the key and value it was built from. */
  function MakeHeader(key: string, value: string): (h: Header)
    ensures h.Key() == key && h.Value() == value
  {
    Header(KindOf(key), value)
  }

  /**
    Only the recognised keys get a dedicated case; "message" and "destination"
    are the only keys that make message and destination headers.
   */
  lemma MakeHeaderCases(key: string, value: string)
    ensures MakeHeader(key, value).kind.Custom? <==> key !in RecognisedKeys
    ensures MakeHeader(key, value).IsMessage() <==> key == "message"
    ensures MakeHeader(key, value).IsDestination() <==> key == "destination"
  {
  }

  /** The header `MakeHeader` builds for the same wire key and value: the form a header takes once parsed. */
  function Normalize(h: Header): (n: Header)
    ensures n.Pair() == h.Pair()
  {
    MakeHeader(h.Key(), h.Value())
  }

  /** Two headers built by `MakeHeader` are equal exactly when their (key, value) pairs are. */
  lemma MakeHeaderInjective(k1: string, v1: string, k2: string, v2: string)
    ensures MakeHeader(k1, v1) == MakeHeader(k2, v2) <==> (k1, v1) == (k2, v2)
  {
  }

  /**
    A message or destination header carries the matching key, but the converse
    fails: a `Custom` header keyed "message" is not a message header.
   */
  lemma KindHasKey(h: Header)
    ensures h.IsMessage() ==> h.Key() == "message"
    ensures h.IsDestination() ==> h.Key() == "destination"
    ensures Header(Custom("message"), "x").Key() == "message" && !Header(Custom("message"), "x").IsMessage()
  {
  }
}
