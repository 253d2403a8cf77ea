/**
  The STOMP command verbs of `RxSTOMPCommand` and the errors the frame layer's
  failable initialisers throw.
 */
module Commands {
  import opened Wrappers

  /** The `NSError`s thrown by the frame layer; all live in the domain "co.rxstomp.error". */
  datatype StompError =
    | UndefinedCommand  // "Received command is undefined"
    | EmptyFrame        // "Received frame is empty."
    | UndefinedType     // "Received type is undefined."
  {
    function Code(): int {
      match this
      case UndefinedCommand => 1002
      case EmptyFrame => 1002
      case UndefinedType => 1001
    }
  }

  /** `RxSTOMPCommand`: the client's CONNECT request travels as "STOMP", a heartbeat as a line feed. */
  datatype Command =
    | Connect | Disconnect | Subscribe | Unsubscribe | Ping
    | Connected | Disconnected | Message | Error | Send | Receipt
  {
    function RawValue(): string {
      match this
      case Connect => "STOMP"
      case Disconnect => "DISCONNECT"
      case Subscribe => "SUBSCRIBE"
      case Unsubscribe => "UNSUBSCRIBE"
      case Ping => "\n"
      case Connected => "CONNECTED"
      case Disconnected => "DISCONNECTED"
      case Message => "MESSAGE"
      case Error => "ERROR"
      case Send => "SEND"
      case Receipt => "RECEIPT"
    }
  }

  /** `RxSTOMPCommand(text:)`: the command whose raw value is `text`, or an UndefinedCommand error. */
  function CommandFromText(text: string): (r: Result<Command, StompError>)
    ensures r.Success? <==> exists c: Command :: c.RawValue() == text
    ensures r.Success? ==> r.value.RawValue() == text
    ensures r.Failure? ==> r.error == UndefinedCommand
  {
    match text
    case "STOMP" => var c := Connect; assert c.RawValue() == text; Success(c)
    case "DISCONNECT" => var c := Disconnect; assert c.RawValue() == text; Success(c)
    case "SUBSCRIBE" => var c := Subscribe; assert c.RawValue() == text; Success(c)
    case "UNSUBSCRIBE" => var c := Unsubscribe; assert c.RawValue() == text; Success(c)
    case "\n" => var c := Ping; assert c.RawValue() == text; Success(c)
    case "CONNECTED" => var c := Connected; assert c.RawValue() == text; Success(c)
    case "DISCONNECTED" => var c := Disconnected; assert c.RawValue() == text; Success(c)
    case "MESSAGE" => var c := Message; assert c.RawValue() == text; Success(c)
    case "ERROR" => var c := Error; assert c.RawValue() == text; Success(c)
    case "SEND" => var c := Send; assert c.RawValue() == text; Success(c)
    case "RECEIPT" => var c := Receipt; assert c.RawValue() == text; Success(c)
    case _ => Failure(UndefinedCommand)
  }

  /** The lookup recovers every command from its raw value. */
  lemma CommandFromRawValue(c: Command)
    ensures CommandFromText(c.RawValue()) == Success(c)
  {
  }

  /** No two commands share a raw value, so the lookup is well defined. */
  lemma RawValueInjective(c: Command, d: Command)
    requires c.RawValue() == d.RawValue()
    ensures c == d
  {
    CommandFromRawValue(c);
    CommandFromRawValue(d);
  }

  /** No raw value is empty or holds a NUL or a colon; only the heartbeat's contains a line feed. */
  lemma RawValueShape(c: Command)
    ensures |c.RawValue()| > 0
    ensures '\0' !in c.RawValue() && ':' !in c.RawValue()
    ensures c != Ping ==> '\n' !in c.RawValue()
    ensures c != Ping ==> c.RawValue() != "\n" && c.RawValue()[0] != '\n'
  {
  }
}

/** `RxSTOMPResponseType`: the one-letter frame types of a SockJS-style transport. */
module ResponseTypes {
  import opened Wrappers
  import Commands

  datatype ResponseType = Open | HeartBeat | Array | Message | Close
  {
    function RawValue(): char {
      match this
      case Open => 'o'
      case HeartBeat => 'h'
      case Array => 'a'
      case Message => 'm'
      case Close => 'c'
    }
  }

  /** `RxSTOMPResponseType(character:)`: the type whose letter is `ch`, or an UndefinedType error. */
  function ResponseTypeFromCharacter(ch: char): (r: Result<ResponseType, Commands.StompError>)
    ensures r.Success? <==> exists t: ResponseType :: t.RawValue() == ch
    ensures r.Success? ==> r.value.RawValue() == ch
    ensures r.Failure? ==> r.error == Commands.UndefinedType && r.error.Code() == 1001
  {
    match ch
    case 'o' => var t := Open; assert t.RawValue() == ch; Success(t)
    case 'h' => var t := HeartBeat; assert t.RawValue() == ch; Success(t)
    case 'a' => var t := Array; assert t.RawValue() == ch; Success(t)
    case 'm' => var t := Message; assert t.RawValue() == ch; Success(t)
    case 'c' => var t := Close; assert t.RawValue() == ch; Success(t)
    case _ => Failure(Commands.UndefinedType)
  }

  /** The letter lookup recovers every response type. */
  lemma ResponseTypeFromRawValue(t: ResponseType)
    ensures ResponseTypeFromCharacter(t.RawValue()) == Success(t)
  {
  }
}
