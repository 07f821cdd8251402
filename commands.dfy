/**
 * Command, SetCommand and GetCommand: immutable, validated command values.
 * The abstract base class with two subclasses becomes one tagged datatype;
 * Java's null arguments are the None of an Option.
 */
module Commands {
  import opened Wrappers
  import opened JavaLang

  datatype CommandType = SET | GET

  datatype Command = SetCommand(id: string, message: string) | GetCommand(id: string)
  {
    /** getType(): SetCommand reports SET and GetCommand reports GET. */
    function Type(): (t: CommandType)
      ensures t == SET <==> this.SetCommand?
    {
      match this
      case SetCommand(_, _) => SET
      case GetCommand(_) => GET
    }

    /** getId(). */
    function GetId(): string
    {
      id
    }

    /** SetCommand.getMessage(). */
    function GetMessage(): string
      requires this.SetCommand?
    {
      message
    }

    /** toString() of SetCommand and GetCommand. */
    function ToString(): string
    {
      match this
      case SetCommand(i, m) => "SetCommand{id='" + i + "', message='" + m + "'}"
      case GetCommand(i) => "GetCommand{id='" + i + "'}"
    }
  }

  const ID_BLANK := "ID boş olamaz"
  const MESSAGE_NULL := "Message null olamaz"

  /** What the constructor of Command guarantees about an id it accepted. */
  predicate ValidId(id: string)
  {
    id != [] && IsTrimmed(id)
  }

  predicate ValidCommand(c: Command)
  {
    ValidId(c.id)
  }

  /**
   * The Command constructor: rejects a null or blank id with
   * IllegalArgumentException and otherwise keeps the trimmed id.
   */
  function CheckId(id: Option<string>): (r: Result<string, string>)
    ensures r.Success? <==> id.Some? && Trim(id.value) != []
    ensures r.Success? ==> r.value == Trim(id.value) && ValidId(r.value)
    ensures r.Failure? ==> r.error == ID_BLANK
  {
    TrimInvariants(id);
    if id.None? || Trim(id.value) == [] then Failure(ID_BLANK) else Success(Trim(id.value))
  }

  lemma TrimInvariants(id: Option<string>)
    ensures id.Some? ==> IsTrimmed(Trim(id.value))
  {
    if id.Some? { TrimSpec(id.value); }
  }

  /**
   * new SetCommand(id, message): the id check of Command runs first, then a
   * null message is rejected; the message is kept exactly as given.
   */
  function NewSetCommand(id: Option<string>, message: Option<string>): (r: Result<Command, string>)
    ensures r.Success? <==> CheckId(id).Success? && message.Some?
    ensures r.Success? ==> r.value == SetCommand(Trim(id.value), message.value)
    ensures r.Success? ==> ValidCommand(r.value) && r.value.Type() == SET && r.value.GetMessage() == message.value
    ensures CheckId(id).Failure? ==> r == Failure(ID_BLANK)
    ensures CheckId(id).Success? && message.None? ==> r == Failure(MESSAGE_NULL)
  {
    match CheckId(id)
    case Failure(e) => Failure(e)
    case Success(i) => if message.None? then Failure(MESSAGE_NULL) else Success(SetCommand(i, message.value))
  }

  /** new GetCommand(id): only the id check of Command. */
  function NewGetCommand(id: Option<string>): (r: Result<Command, string>)
    ensures r.Success? <==> CheckId(id).Success?
    ensures r.Success? ==> r.value == GetCommand(Trim(id.value)) && ValidCommand(r.value) && r.value.Type() == GET
    ensures r.Failure? ==> r.error == ID_BLANK
  {
    match CheckId(id)
    case Failure(e) => Failure(e)
    case Success(i) => Success(GetCommand(i))
  }

  /** Constructing a command from an id that is already valid keeps the id unchanged. */
  lemma ValidIdKept(id: string, message: string)
    requires ValidId(id)
    ensures NewGetCommand(Some(id)) == Success(GetCommand(id))
    ensures NewSetCommand(Some(id), Some(message)) == Success(SetCommand(id, message))
  {
    TrimIdentity(id);
  }

  /** GetCommand.toString() can be read back: different ids print differently. */
  lemma {:induction false} GetToStringInjective(a: string, b: string)
    requires GetCommand(a).ToString() == GetCommand(b).ToString()
    ensures a == b
  {
    var p := "GetCommand{id='";
    var sa := GetCommand(a).ToString();
    assert sa == p + a + "'}";
    assert |a| == |b|;
    assert a == sa[|p|..|p| + |a|];
  }
}
