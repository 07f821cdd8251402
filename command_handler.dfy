/**
 * CommandHandler: runs a parsed SET or GET against the leader's own message
 * store and answers with OK, NOT_FOUND, the stored text or an ERROR string.
 * The on-disk MessageStorage is a map from message id to text; a disk fault
 * is an input (None: the disk call succeeds, Some(m): it throws IOException
 * with message m).
 */
module CommandHandling {
  import opened Wrappers
  import opened JavaLang
  import opened Commands

  const OK := "OK"
  const NOT_FOUND := "NOT_FOUND"
  const NULL_COMMAND := "ERROR: Komut null olamaz"
  const BAD_ID := "ERROR: Geçersiz ID formatı. ID bir sayı olmalıdır."

  function WriteError(fault: string): string
  {
    "ERROR: Disk yazma hatası: " + fault
  }

  function ReadError(fault: string): string
  {
    "ERROR: Disk okuma hatası: " + fault
  }

  /** What executeSet / executeGet give back: a reply, or the NumberFormatException of parseId. */
  datatype Reply = Text(text: string) | BadIdFormat

  /** executeSet: the reply and the storage afterwards. */
  function SetStep(storage: map<int, string>, id: string, message: string, fault: Option<string>): (Reply, map<int, string>)
  {
    match ParseInt(id)
    case None => (BadIdFormat, storage)
    case Some(n) =>
      if fault.Some? then (Text(WriteError(fault.value)), storage)
      else (Text(OK), storage[n := message])
  }

  /** executeGet: a missing file is NOT_FOUND without touching the disk; a fault hits only the read of an existing file. */
  function GetStep(storage: map<int, string>, id: string, fault: Option<string>): Reply
  {
    match ParseInt(id)
    case None => BadIdFormat
    case Some(n) =>
      if n !in storage then Text(NOT_FOUND)
      else if fault.Some? then Text(ReadError(fault.value))
      else Text(storage[n])
  }

  /** execute: the null check, the switch on the command type and the NumberFormatException catch. */
  function ExecuteStep(storage: map<int, string>, cmd: Option<Command>, fault: Option<string>): (string, map<int, string>)
  {
    if cmd.None? then (NULL_COMMAND, storage)
    else
      var (r, after) := match cmd.value
        case SetCommand(id, message) => SetStep(storage, id, message, fault)
        case GetCommand(id) => (GetStep(storage, id, fault), storage);
      if r.BadIdFormat? then (BAD_ID, after) else (r.text, after)
  }

  /** Only a SET with an integer id and no disk fault changes the store, it changes exactly that id, to the message, and it answers OK. */
  lemma ExecuteFrame(storage: map<int, string>, cmd: Option<Command>, fault: Option<string>)
    ensures var (reply, after) := ExecuteStep(storage, cmd, fault);
      && (after == storage || (cmd.Some? && cmd.value.SetCommand? && fault.None? && ParseInt(cmd.value.id).Some?
        && after == storage[ParseInt(cmd.value.id).value := cmd.value.message]))
      && (after != storage ==> reply == OK)
  {
  }

  /** A GET answers OK only if OK is itself the stored text. */
  lemma GetNeverOk(storage: map<int, string>, id: string, fault: Option<string>)
    ensures GetStep(storage, id, fault) == Text(OK) ==>
      ParseInt(id).Some? && ParseInt(id).value in storage && storage[ParseInt(id).value] == OK
  {
  }

  /** A null command is refused and nothing is stored. */
  lemma NullCommandRefused(storage: map<int, string>, fault: Option<string>)
    ensures ExecuteStep(storage, None, fault) == (NULL_COMMAND, storage)
  {
  }

  /** A non-integer id gives the invalid-id error whatever the disk does, and the store is unchanged. */
  lemma BadIdRefused(storage: map<int, string>, cmd: Command, fault: Option<string>)
    requires ParseInt(cmd.id).None?
    ensures ExecuteStep(storage, Some(cmd), fault) == (BAD_ID, storage)
  {
  }

  /** SET with an integer id and a working disk stores the message under that id and answers OK. */
  lemma SetStores(storage: map<int, string>, id: string, message: string)
    requires ParseInt(id).Some?
    ensures var (reply, after) := ExecuteStep(storage, Some(SetCommand(id, message)), None);
      reply == OK && after == storage[ParseInt(id).value := message]
  {
  }

  /** GET answers the stored text, or NOT_FOUND for an id with nothing stored. */
  lemma GetAnswers(storage: map<int, string>, id: string)
    requires ParseInt(id).Some?
    ensures var (reply, after) := ExecuteStep(storage, Some(GetCommand(id)), None);
      && after == storage
      && reply == (if ParseInt(id).value in storage then storage[ParseInt(id).value] else NOT_FOUND)
  {
  }

  /** Disk faults come back as ERROR strings: a failed write stores nothing, a failed read is reported only for an existing file. */
  lemma FaultsReported(storage: map<int, string>, cmd: Command, fault: string)
    requires ParseInt(cmd.id).Some?
    ensures cmd.SetCommand? ==> ExecuteStep(storage, Some(cmd), Some(fault)) == (WriteError(fault), storage)
    ensures cmd.GetCommand? ==>
      ExecuteStep(storage, Some(cmd), Some(fault)) == (if ParseInt(cmd.id).value in storage then ReadError(fault) else NOT_FOUND, storage)
  {
  }

  /** A SET and then a GET of the same id, with no disk fault, gives back the message. */
  lemma SetThenGet(storage: map<int, string>, id: string, message: string)
    requires ParseInt(id).Some?
    ensures var (r1, s1) := ExecuteStep(storage, Some(SetCommand(id, message)), None);
      r1 == OK && ExecuteStep(s1, Some(GetCommand(id)), None) == (message, s1)
  {
  }

  /** The leader's own store: the MessageStorage behind a CommandHandler. */
  class CommandHandler {
    var storage: map<int, string>

    constructor ()
      ensures storage == map[]
    {
      storage := map[];
    }

    /** CommandHandler.execute. */
    method Execute(cmd: Option<Command>, fault: Option<string>) returns (reply: string)
      modifies this
      ensures (reply, storage) == ExecuteStep(old(storage), cmd, fault)
    {
      if cmd.None? {
        return NULL_COMMAND;
      }
      var r: Reply;
      match cmd.value {
        case SetCommand(id, message) =>
          r := ExecuteSet(id, message, fault);
        case GetCommand(id) =>
          r := ExecuteGet(id, fault);
      }
      if r.BadIdFormat? {
        reply := BAD_ID;
      } else {
        reply := r.text;
      }
    }

    /** CommandHandler.executeSet. */
    method ExecuteSet(id: string, message: string, fault: Option<string>) returns (r: Reply)
      modifies this
      ensures (r, storage) == SetStep(old(storage), id, message, fault)
    {
      var n := ParseInt(id);
      if n.None? {
        return BadIdFormat;
      }
      if fault.Some? {
        return Text(WriteError(fault.value));
      }
      storage := storage[n.value := message];
      r := Text(OK);
    }

    /** CommandHandler.executeGet: reads only. */
    method ExecuteGet(id: string, fault: Option<string>) returns (r: Reply)
      ensures r == GetStep(storage, id, fault)
      ensures r.Text? ==> ParseInt(id).Some?
      ensures r.Text? && r.text != NOT_FOUND && (fault.None? || r.text != ReadError(fault.value)) ==>
        ParseInt(id).value in storage && r.text == storage[ParseInt(id).value]
    {
      var n := ParseInt(id);
      if n.None? {
        return BadIdFormat;
      }
      if n.value !in storage {
        return Text(NOT_FOUND);
      }
      if fault.Some? {
        return Text(ReadError(fault.value));
      }
      r := Text(storage[n.value]);
    }
  }
}
