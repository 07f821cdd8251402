# Distributed message log: leader core in Dafny

This project models the leader of a small distributed message log. Clients
send one text line per request over TCP:

- `SET <id> <message>` stores a message under a 32-bit integer id.
- `GET <id>` reads it back.

The leader works in four steps:

1. It keeps the message in its own storage.
2. It picks `tolerance` members (replicas) from the list of alive members. The
   pick is made round-robin or by a hash of the id.
3. It asks each picked member to store a copy.
4. It records in a message index which members hold each id.

A member that cannot be reached is moved to the dead list. A member that answers
is moved back to the alive list. When the leader's own storage does not have an
id, GET asks the alive members listed for that id, in order, and returns the
first non-empty answer. The tolerance comes from a `TOLERANCE=<n>` line in a
configuration file (the prefix is matched case-sensitively); the default is 1 and the allowed range is 1 to 7.

The modules follow the Java packages:

- `JavaLang`: the pieces of the Java library the core depends on.
  - `String.trim` removes characters `<= U+0020`.
  - The regular expression class `\s` is modelled apart from `trim`.
  - `Integer.parseInt` accepts an optional sign and decimal digits, within 32 bits.
  - `%` truncates toward zero.
  - `toUpperCase` is modelled on ASCII letters.
- `Commands`: `Command`, `SetCommand` and `GetCommand`, written as one tagged datatype. Its smart constructors return the `IllegalArgumentException` message as a `Failure`.
- `CommandParser`: `CommandParser.parse`. A failure carries the `CommandParseException` message.
- `CommandHandling`: the class `CommandHandler`. It has the leader's storage as a `map<int, string>` field. The storage fault (an `IOException` from disk) is a parameter.
- `Config`: the class `ConfigLoader`. The file's presence and its lines are parameters, and `ConfigException` is a datatype.
- `Directory`: the alive and dead member lists, as values, with their operations.
- `MessageIndex`: the `messageToMembers` map from id to a list of member ids, and its operations.
- `Selection`: the round-robin and hash-based member selection.
- `Replication`: the SET fan-out and the GET fallback as functions over a whole leader state (`Node`). The lemmas state what a SET or GET does to the reply, the directory, the index and the storage.
- `Leader`: the class `LeaderNode`, holding:
  - the fields `active`, `dead`, `index` and `rrCounter`;
  - the command handler;
  - imperative methods proved equal to the `Replication` functions;
  - the `printStats` tally loop.

Each remote `storeMessage` or `retrieveMessage` call is an outcome supplied by
the caller. The outcomes are the functions `answers` and `replies`, indexed by the
call's position within one SET or GET. The outcome types are:

- a store answer: `Stored(success)`;
- a retrieve answer: `Retrieved(text)`;
- a failure to connect or an I/O failure: `StoreTransportFailure` or `RetrieveTransportFailure`;
- any other runtime error: `StoreCallError` or `RetrieveCallError`.

## Model

| member | source | states |
|---|---|---|
| JavaLang.TrimSpec | src/main/java/com/sistem/proje/protocol/Command.java:16 | `trim` gives a contiguous slice of its input with no blank character at either end. The result is empty exactly when every character is `<= U+0020`. |
| JavaLang.TrimIdentity | src/main/java/com/sistem/proje/protocol/CommandParser.java:21 | `trim` leaves a string unchanged exactly when it is already trimmed, and trimming twice gives the same result as trimming once. |
| JavaLang.TrimmedFixed | src/main/java/com/sistem/proje/protocol/CommandParser.java:21 | A trimmed string is left as it is by `trim`. |
| JavaLang.Trim | src/main/java/com/sistem/proje/protocol/Command.java:13-16 | `String.trim`: strip the characters `<= U+0020` at both ends. Specified by TrimSpec and TrimIdentity. |
| JavaLang.RegexSpaceIsTrimmable | src/main/java/com/sistem/proje/protocol/CommandParser.java:22 | Every character matched by `\s` is also removed by `trim`. |
| JavaLang.ParseInt | src/main/java/com/sistem/proje/protocol/CommandHandler.java:112-118 | `parseInt` succeeds exactly on an optional `+`/`-` followed by at least one decimal digit whose signed value fits in 32 bits. The value then lies in [-2^31, 2^31-1]; ParseIntCanonical states which value it is, and ParseIntDecimal reads every 32-bit value back from its decimal text. |
| JavaLang.ParsedIsTrimmed | src/main/java/com/sistem/proje/protocol/CommandHandler.java:112-118 | A string `parseInt` accepts has no blank characters, so `trim` leaves it unchanged. |
| JavaLang.DigitsOf | src/main/java/com/sistem/proje/protocol/CommandHandler.java:114 | The decimal digits of a non-negative value, with no leading zero. This is the independent rendering that ParseInt is checked against. |
| JavaLang.Decimal | src/main/java/com/sistem/proje/protocol/CommandHandler.java:114 | The canonical decimal text of an integer: `-` for a negative value, then the digits of its magnitude. |
| JavaLang.DigitsRoundTrip | src/main/java/com/sistem/proje/protocol/CommandHandler.java:114 | Reading back the digits of n gives n. |
| JavaLang.ParseIntDecimal | src/main/java/com/sistem/proje/protocol/CommandHandler.java:112-118 | `parseInt` of the decimal text of any 32-bit value gives back exactly that value. |
| JavaLang.LeadingZeroValue | src/main/java/com/sistem/proje/protocol/CommandHandler.java:114 | A leading zero does not change the value a digit string denotes. |
| JavaLang.ParseIntPlusAndZeros | src/main/java/com/sistem/proje/protocol/CommandHandler.java:112-118 | `parseInt` ignores a leading `+`, and leading zeros after an optional `-` (for a non-empty digit string). |
| JavaLang.CanonicalDigits | src/main/java/com/sistem/proje/protocol/CommandHandler.java:114 | A digit string with no leading zero, or the single digit `0`, is the decimal rendering of its own value. |
| JavaLang.StripZeros | src/main/java/com/sistem/proje/protocol/CommandHandler.java:114 | The digits left when the leading zeros are dropped, keeping at least one. The result is a suffix of the input, only zeros are cut, and the digit value is unchanged. |
| JavaLang.ParseIntCanonical | src/main/java/com/sistem/proje/protocol/CommandHandler.java:112-118 | For every string `parseInt` accepts, the decimal rendering of the value is the input without its `+` and leading zeros. A `-` is kept unless the digits are all zeros, so `-0` and `-00` read as 0. |
| JavaLang.ParseIntMinusZero | src/main/java/com/sistem/proje/protocol/CommandHandler.java:112-118 | `-0` and `-00` parse to 0. |
| JavaLang.JavaRem | src/main/java/com/sistem/proje/leader/LeaderNode.java:610 | Java's `%` takes the sign of the dividend, and its magnitude is `abs(a) mod abs(n)`, below `abs(n)`. |
| JavaLang.UpperChar | src/main/java/com/sistem/proje/protocol/CommandParser.java:28 | `a`..`z` become `A`..`Z`. Every other character is kept. |
| JavaLang.ToUpper | src/main/java/com/sistem/proje/protocol/CommandParser.java:28 | Upper-casing keeps the length and maps each character on its own. |
| JavaLang.UpperKeepsSpaces | src/main/java/com/sistem/proje/protocol/CommandParser.java:28 | Upper-casing neither creates nor removes `\s` characters. |
| Commands.Command.Type | src/main/java/com/sistem/proje/protocol/SetCommand.java:21-24 | `getType` is `SET` exactly for a SetCommand, and `GET` otherwise. |
| Commands.Command.GetId | src/main/java/com/sistem/proje/protocol/Command.java:22-24 | `getId`: the trimmed id stored at construction. CheckId and TrimInvariants specify it. |
| Commands.Command.GetMessage | src/main/java/com/sistem/proje/protocol/SetCommand.java:17-19 | `getMessage`: the message exactly as given to the constructor, according to NewSetCommand. |
| Commands.Command.ToString | src/main/java/com/sistem/proje/protocol/GetCommand.java:17-20 | The `toString` texts of both command kinds. GetToStringInjective states that the GET text determines the id. |
| Commands.CheckId | src/main/java/com/sistem/proje/protocol/Command.java:12-17 | The id check succeeds exactly for a non-null id that is not blank after `trim`. The stored id is the trimmed one. Otherwise the error is the "ID boş olamaz" message. |
| Commands.NewSetCommand | src/main/java/com/sistem/proje/protocol/SetCommand.java:9-15 | A SetCommand is built exactly when the id passes the check and the message is non-null. The id check comes first, and each error has its message. The message is kept as given. |
| Commands.NewGetCommand | src/main/java/com/sistem/proje/protocol/GetCommand.java:8-10 | A GetCommand is built exactly when the id passes the check, and stores the trimmed id. |
| Commands.TrimInvariants | src/main/java/com/sistem/proje/protocol/Command.java:16 | The id a command stores is always trimmed. |
| Commands.ValidIdKept | src/main/java/com/sistem/proje/protocol/Command.java:12-17 | Rebuilding a command from an id that is already valid gives a command with that same id. |
| Commands.GetToStringInjective | src/main/java/com/sistem/proje/protocol/GetCommand.java:17-20 | `GetCommand.toString` is injective in the id. |
| CommandParser.FirstSpace | src/main/java/com/sistem/proje/protocol/CommandParser.java:22 | The position of the first delimiter is within the string. |
| CommandParser.FirstSpaceSpec | src/main/java/com/sistem/proje/protocol/CommandParser.java:22 | The first delimiter is a `\s` character, and nothing before it is one. |
| CommandParser.SpaceRun | src/main/java/com/sistem/proje/protocol/CommandParser.java:22 | A delimiter match is a maximal run of `\s` characters. |
| CommandParser.Split | src/main/java/com/sistem/proje/protocol/CommandParser.java:22 | `split("\\s+", 3)` gives between one and `limit` parts. |
| CommandParser.SplitSpec | src/main/java/com/sistem/proje/protocol/CommandParser.java:22 | Every part but the last contains no `\s` character. The last part has none either when fewer than `limit` parts were made. |
| CommandParser.SplitFirst | src/main/java/com/sistem/proje/protocol/CommandParser.java:22 | A leading token ended by a delimiter or by the end becomes the first part. The rest is split with one part fewer. |
| CommandParser.SplitThree | src/main/java/com/sistem/proje/protocol/CommandParser.java:22 | A trimmed line with three parts is part, delimiter, part, delimiter and non-empty last part, in that order. |
| CommandParser.ParseSet | src/main/java/com/sistem/proje/protocol/CommandParser.java:47-56 | A command from `parseSetCommand` is a valid SetCommand. |
| CommandParser.ParseGet | src/main/java/com/sistem/proje/protocol/CommandParser.java:61-69 | A command from `parseGetCommand` is a valid GetCommand. |
| CommandParser.Rewrap | src/main/java/com/sistem/proje/protocol/CommandParser.java:39-41 | A success passes through unchanged. A constructor's failure message gets the "Komut parse hatası: " prefix. |
| CommandParser.Dispatch | src/main/java/com/sistem/proje/protocol/CommandParser.java:28-38 | The switch on the upper-cased verb. It is specified by ParsedVerb, UnknownVerbRejected, ParseArity and VerbCaseInsensitive. |
| CommandParser.Parse | src/main/java/com/sistem/proje/protocol/CommandParser.java:16-42 | A null or blank line is refused with the blank-line message. Every command returned is valid: its id is non-blank and trimmed. |
| CommandParser.ParsedVerb | src/main/java/com/sistem/proje/protocol/CommandParser.java:28-38 | A command comes out only for the verb SET or GET, in any letter case. Its kind follows the verb. |
| CommandParser.UnknownVerbRejected | src/main/java/com/sistem/proje/protocol/CommandParser.java:36-37 | Any other verb is refused with the unsupported-command message naming the upper-cased verb. |
| CommandParser.ParseArity | src/main/java/com/sistem/proje/protocol/CommandParser.java:47-69 | SET needs three parts and GET two, or the usage message is returned. With enough parts, a blank id gives the prefixed id error. Otherwise the command holds the trimmed id and, for SET, the third part. |
| CommandParser.ParsedSetShape | src/main/java/com/sistem/proje/protocol/CommandParser.java:21-22 | A parsed SET is the trimmed line read as verb, delimiter, id token, delimiter, message. The message is the rest of the line, including inner whitespace. |
| CommandParser.ParseTrimmed | src/main/java/com/sistem/proje/protocol/CommandParser.java:17-22 | On a non-empty trimmed line, `parse` is the dispatch on its three-part split. |
| CommandParser.ParseSetRoundTrip | src/main/java/com/sistem/proje/protocol/CommandParser.java:47-56 | `"SET " + id + " " + msg` parses back to `SetCommand(id, msg)` for a blank-free id and a non-empty trimmed message. |
| CommandParser.GetIgnoresExtra | src/main/java/com/sistem/proje/protocol/CommandParser.java:61-69 | `"GET " + id` parses to `GetCommand(id)`. So does the same line followed by extra text. |
| CommandParser.VerbCaseInsensitive | src/main/java/com/sistem/proje/protocol/CommandParser.java:28 | Any spelling of SET or GET parses exactly like its upper-case form. |
| CommandHandling.ExecuteFrame | src/main/java/com/sistem/proje/protocol/CommandHandler.java:46-85 | `execute` changes the storage only for a SET with a numeric id and no disk fault, and only by writing that id. Whenever it changes anything it answers OK. |
| CommandHandling.ExecuteStep | src/main/java/com/sistem/proje/protocol/CommandHandler.java:46-67 | `execute` on a storage value. Specified by ExecuteFrame, NullCommandRefused, BadIdRefused, SetStores, GetAnswers, FaultsReported and SetThenGet. |
| CommandHandling.SetStep | src/main/java/com/sistem/proje/protocol/CommandHandler.java:72-85 | `executeSet`: write under the parsed id, or the write error. It is specified by SetStores and FaultsReported. |
| CommandHandling.GetStep | src/main/java/com/sistem/proje/protocol/CommandHandler.java:90-107 | `executeGet`: the stored text, NOT_FOUND, or the read error. Specified by GetAnswers, GetNeverOk and FaultsReported. |
| CommandHandling.WriteError | src/main/java/com/sistem/proje/protocol/CommandHandler.java:81-84 | The disk-write error reply, carrying the fault's message. |
| CommandHandling.ReadError | src/main/java/com/sistem/proje/protocol/CommandHandler.java:103-106 | The disk-read error reply, carrying the fault's message. |
| CommandHandling.GetNeverOk | src/main/java/com/sistem/proje/protocol/CommandHandler.java:90-107 | A GET answers "OK" only when the stored text itself is "OK". |
| CommandHandling.NullCommandRefused | src/main/java/com/sistem/proje/protocol/CommandHandler.java:47-49 | A null command gets the null-command error and leaves the storage unchanged. |
| CommandHandling.BadIdRefused | src/main/java/com/sistem/proje/protocol/CommandHandler.java:60-62 | A non-numeric id gets the id-format error and leaves the storage unchanged. |
| CommandHandling.SetStores | src/main/java/com/sistem/proje/protocol/CommandHandler.java:72-85 | A SET with a numeric id writes the message under that id and answers OK. |
| CommandHandling.GetAnswers | src/main/java/com/sistem/proje/protocol/CommandHandler.java:90-107 | A GET answers the stored text, or NOT_FOUND when the id is absent. The storage is not changed. |
| CommandHandling.FaultsReported | src/main/java/com/sistem/proje/protocol/CommandHandler.java:81-106 | A disk fault turns a SET into the write-error reply. It turns a GET of a stored id into the read-error reply. A missing id still answers NOT_FOUND. In every case the storage is unchanged. |
| CommandHandling.SetThenGet | src/main/java/com/sistem/proje/protocol/CommandHandler.java:72-107 | A GET right after a SET of the same id answers the message just set. |
| CommandHandling.CommandHandler.constructor | src/main/java/com/sistem/proje/protocol/CommandHandler.java:27-38 | A new handler starts with empty storage. |
| CommandHandling.CommandHandler.Execute | src/main/java/com/sistem/proje/protocol/CommandHandler.java:46-67 | The reply and the new storage are those of the step function, whose properties are the lemmas above. |
| CommandHandling.CommandHandler.ExecuteSet | src/main/java/com/sistem/proje/protocol/CommandHandler.java:72-85 | The SET reply and the new storage are those of the SET step. |
| CommandHandling.CommandHandler.ExecuteGet | src/main/java/com/sistem/proje/protocol/CommandHandler.java:90-107 | The GET reply is that of the GET step. A plain text reply, other than NOT_FOUND or the read error, is the text stored under the parsed id. |
| Config.ToleranceLineSpec | src/main/java/com/sistem/proje/config/ConfigLoader.java:101-123 | `parseTolerance` succeeds exactly on an integer value in 1..7 and records it. On an out-of-range integer it records the value and then fails. On a non-integer it keeps the old value and fails. |
| Config.ToleranceLine | src/main/java/com/sistem/proje/config/ConfigLoader.java:101-123 | `parseTolerance` on a value: the new field and the error. ToleranceLineSpec specifies it. |
| Config.Scan | src/main/java/com/sistem/proje/config/ConfigLoader.java:67-82 | The line loop of `load` from line k. ScanSkipsAll, ScanInRange, ScanLastWins and ScanStopsAtError specify it. |
| Config.LoadStep | src/main/java/com/sistem/proje/config/ConfigLoader.java:51-92 | `load` as a whole: the missing-file default, the scan and the no-line default. Specified by MissingFileDefault, NoToleranceLineDefault, LoadedInRange, LastToleranceWins and OutOfRangeKept. |
| Config.MissingFileDefault | src/main/java/com/sistem/proje/config/ConfigLoader.java:52-58 | A missing file loads the default tolerance 1 without error. |
| Config.NoToleranceLineDefault | src/main/java/com/sistem/proje/config/ConfigLoader.java:85-88 | A file with no `TOLERANCE=` line loads the default without error. |
| Config.ScanSkipsAll | src/main/java/com/sistem/proje/config/ConfigLoader.java:67-82 | Lines that are not tolerance lines leave the value unchanged. |
| Config.ScanInRange | src/main/java/com/sistem/proje/config/ConfigLoader.java:67-82 | A scan without error keeps the value within 1..7. |
| Config.LoadedInRange | src/main/java/com/sistem/proje/config/ConfigLoader.java:51-92 | A successful load always ends with a tolerance in 1..7. |
| Config.ScanLastWins | src/main/java/com/sistem/proje/config/ConfigLoader.java:67-82 | In a scan without error, the last tolerance line decides the value. |
| Config.LastToleranceWins | src/main/java/com/sistem/proje/config/ConfigLoader.java:67-82 | A successful load takes the value of the last tolerance line. |
| Config.ScanStopsAtError | src/main/java/com/sistem/proje/config/ConfigLoader.java:77-81 | The first bad tolerance line stops the scan with that line's error and 1-based line number. |
| Config.OutOfRangeKept | src/main/java/com/sistem/proje/config/ConfigLoader.java:109-116 | An out-of-range value on the first tolerance line fails the load, but the value stays recorded. |
| Config.ConfigLoader.constructor | src/main/java/com/sistem/proje/config/ConfigLoader.java:30-42 | A new loader has no tolerance recorded. |
| Config.ConfigLoader.Load | src/main/java/com/sistem/proje/config/ConfigLoader.java:51-92 | The recorded tolerance and the result are those of the load function, whose properties are the lemmas above. |
| Config.ConfigLoader.ParseTolerance | src/main/java/com/sistem/proje/config/ConfigLoader.java:101-123 | The recorded field and the error are those of the tolerance-line function. |
| Config.ConfigLoader.GetTolerance | src/main/java/com/sistem/proje/config/ConfigLoader.java:131-138 | Returns the recorded tolerance. When none is recorded it returns the default and records it. |
| Config.ConfigLoader.IsLoaded | src/main/java/com/sistem/proje/config/ConfigLoader.java:159-161 | True exactly when a tolerance is recorded. |
| Config.GetDefaultTolerance | src/main/java/com/sistem/proje/config/ConfigLoader.java:145-147 | The default tolerance lies within 1..7. |
| Config.FreshLoaderTolerance | src/main/java/com/sistem/proje/config/ConfigLoader.java:131-138 | On a new loader, `getTolerance` gives 1, after which `isLoaded` is true. |
| Directory.CountConcat | src/main/java/com/sistem/proje/leader/LeaderNode.java:212-234 | The number of entries with an id is additive over concatenation. |
| Directory.RemoveAll | src/main/java/com/sistem/proje/leader/LeaderNode.java:215-216 | `removeIf` on an id, specified by RemoveAllCount, RemoveAllSubset and RemoveAllTwice. |
| Directory.RemoveFirst | src/main/java/com/sistem/proje/leader/LeaderNode.java:658-660 | `List.remove` of a member, which is equal by id (MemberInfo.equals), over the first match. It is specified by RemoveFirstCount and RemoveFirstIsAll. |
| Directory.FindIn | src/main/java/com/sistem/proje/leader/LeaderNode.java:813-829 | The search of one list by id. FindInSpec and FindInConcat specify it. |
| Directory.Find | src/main/java/com/sistem/proje/leader/LeaderNode.java:813-829 | `findMemberById`: active first, then dead. Specified by FindInSpec, FindInConcat and StatusByList. |
| Directory.AddMember | src/main/java/com/sistem/proje/leader/LeaderNode.java:212-221 | `addMember` on the two lists, specified by AddMemberSpec and AddMemberValid. |
| Directory.RemoveMember | src/main/java/com/sistem/proje/leader/LeaderNode.java:228-234 | `removeMember` on the two lists. RemoveMemberSpec specifies it. |
| Directory.MarkDead | src/main/java/com/sistem/proje/leader/LeaderNode.java:656-674 | `markMemberAsDead` on the two lists, specified by MarkDeadSpec and MarkDeadValid. |
| Directory.MarkAlive | src/main/java/com/sistem/proje/leader/LeaderNode.java:688-700 | `markMemberAsAlive` on the two lists. MarkAliveSpec and MarkAliveValid specify it. |
| Directory.RemoveAllCount | src/main/java/com/sistem/proje/leader/LeaderNode.java:228-234 | `removeIf` on an id leaves no entry with that id and keeps every other id's count. |
| Directory.RemoveAllTwice | src/main/java/com/sistem/proje/leader/LeaderNode.java:228-234 | Removing an id twice is the same as removing it once. |
| Directory.RemoveAllSubset | src/main/java/com/sistem/proje/leader/LeaderNode.java:228-234 | `removeIf` keeps only entries that were there and have another id. |
| Directory.RemoveFirstCount | src/main/java/com/sistem/proje/leader/LeaderNode.java:658-660 | `List.remove` of a member drops one entry with that id when there is one. |
| Directory.RemoveFirstIsAll | src/main/java/com/sistem/proje/leader/LeaderNode.java:658-660 | When an id appears at most once, `remove` and `removeIf` agree. |
| Directory.FindInSpec | src/main/java/com/sistem/proje/leader/LeaderNode.java:813-829 | The lookup by id finds a member exactly when the id is listed, and the member found has that id. |
| Directory.FindInConcat | src/main/java/com/sistem/proje/leader/LeaderNode.java:813-829 | The lookup searches the active list before the dead list. |
| Directory.FindInRemoveAll | src/main/java/com/sistem/proje/leader/LeaderNode.java:228-234 | Removing one id does not change the lookup of any other id. |
| Directory.StatusByList | src/main/java/com/sistem/proje/leader/LeaderNode.java:656-700 | The status set by markMemberAsDead and markMemberAsAlive (a member new from addMember starts ALIVE) follows the list a member sits in. In a valid directory, a member is ALIVE exactly when it is in the active list, and DEAD exactly when it is in the dead list. |
| Directory.CountUnique | src/main/java/com/sistem/proje/leader/LeaderNode.java:578-581 | A list holding each id at most once has distinct ids at distinct positions. SelectDistinct uses it to show that the circular walk over the alive list picks distinct members. |
| Directory.AddMemberSpec | src/main/java/com/sistem/proje/leader/LeaderNode.java:212-221 | `addMember` drops earlier entries with the id from both lists, then appends one ALIVE member. The id is then found as that member, and every other entry is kept. |
| Directory.AddMemberValid | src/main/java/com/sistem/proje/leader/LeaderNode.java:212-221 | `addMember` keeps the directory valid: each id appears at most once, in one list, with the status that list implies. |
| Directory.RemoveMemberSpec | src/main/java/com/sistem/proje/leader/LeaderNode.java:228-234 | `removeMember` removes the id from both lists. No other id's lookup changes, and validity is kept. |
| Directory.MarkDeadSpec | src/main/java/com/sistem/proje/leader/LeaderNode.java:656-674 | `markMemberAsDead` moves an active member to the end of the dead list with status DEAD. It does nothing when the id is not active. |
| Directory.MarkAliveSpec | src/main/java/com/sistem/proje/leader/LeaderNode.java:688-700 | `markMemberAsAlive` moves a dead member to the end of the active list with status ALIVE. It does nothing when the id is not dead. |
| Directory.MarkDeadValid | src/main/java/com/sistem/proje/leader/LeaderNode.java:656-674 | Marking dead keeps the directory valid and changes no other id's lookup. |
| Directory.MarkAliveValid | src/main/java/com/sistem/proje/leader/LeaderNode.java:688-700 | Marking alive keeps the directory valid and changes no other id's lookup. |
| Directory.DeadThenAlive | src/main/java/com/sistem/proje/leader/LeaderNode.java:656-700 | Marking an alive member dead and then alive again restores its lookup, status included. |
| MessageIndex.QueriesAgree | src/main/java/com/sistem/proje/leader/LeaderNode.java:314-343 | `isMessageInMember` is membership in `getMembersForMessage`, and the count is that list's length. An unknown id has an empty list. |
| MessageIndex.Members | src/main/java/com/sistem/proje/leader/LeaderNode.java:314-320 | `getMembersForMessage`: the id's list, or empty. QueriesAgree and AddSpec specify it. |
| MessageIndex.IsIn | src/main/java/com/sistem/proje/leader/LeaderNode.java:329-332 | `isMessageInMember`. QueriesAgree specifies it. |
| MessageIndex.CountFor | src/main/java/com/sistem/proje/leader/LeaderNode.java:340-343 | `getMemberCountForMessage`, specified by QueriesAgree and AddSpec. |
| MessageIndex.Add | src/main/java/com/sistem/proje/leader/LeaderNode.java:285-288 | `addMessageToMember`. Specified by AddSpec, AddTotal and AddThenRemove. |
| MessageIndex.RemoveOne | src/main/java/com/sistem/proje/leader/LeaderNode.java:299 | `List.remove(Object)` on a list of ids, specified by RemoveOneSpec. |
| MessageIndex.Remove | src/main/java/com/sistem/proje/leader/LeaderNode.java:296-306 | `removeMessageFromMember`. RemoveSpec, RemoveFrame and RemoveTotal specify it. |
| MessageIndex.RemoveEach | src/main/java/com/sistem/proje/leader/LeaderNode.java:508-512 | One first-occurrence removal per id in turn. Specified by RemoveEachCounts. |
| MessageIndex.Total | src/main/java/com/sistem/proje/leader/LeaderNode.java:381-386 | A member's number of entries summed over all messages, the value `printStats` tallies. TotalPick, AddTotal and RemoveTotal specify it. |
| MessageIndex.IndexOf | src/main/java/com/sistem/proje/leader/LeaderNode.java:299 | The position of the first occurrence: the entry there is the member, and no earlier entry is. |
| MessageIndex.RemoveOneSpec | src/main/java/com/sistem/proje/leader/LeaderNode.java:296-306 | `List.remove` drops exactly the first occurrence. The multiset of entries loses one copy of the member, and the length falls by one exactly when the member was present. |
| MessageIndex.RemoveEachCounts | src/main/java/com/sistem/proje/leader/LeaderNode.java:507-513 | Removing a sequence of members one occurrence at a time subtracts their multiset. |
| MessageIndex.AddSpec | src/main/java/com/sistem/proje/leader/LeaderNode.java:285-288 | `addMessageToMember` appends the member to the id's list and creates the list when needed. Other ids are untouched, and no empty list is ever created. |
| MessageIndex.RemoveSpec | src/main/java/com/sistem/proje/leader/LeaderNode.java:296-306 | `removeMessageFromMember` removes one occurrence, and the count drops by one exactly when the member was listed. The id's entry is deleted when its list becomes empty. |
| MessageIndex.RemoveFrame | src/main/java/com/sistem/proje/leader/LeaderNode.java:296-306 | Removal touches no other id and never leaves an empty list. |
| MessageIndex.AddThenRemove | src/main/java/com/sistem/proje/leader/LeaderNode.java:285-306 | Adding a member not yet listed and then removing it gives back the original index. |
| MessageIndex.TotalPick | src/main/java/com/sistem/proje/leader/LeaderNode.java:381-386 | The number of messages per member summed over the ids is that id's occurrences plus the sum over the rest, for any id picked. |
| MessageIndex.AddTotal | src/main/java/com/sistem/proje/leader/LeaderNode.java:285-288 | Adding an entry raises exactly that member's message total, by one. |
| MessageIndex.RemoveTotal | src/main/java/com/sistem/proje/leader/LeaderNode.java:296-306 | Removing an entry lowers exactly that member's total, by one when it was listed. |
| Selection.CircularSpec | src/main/java/com/sistem/proje/leader/LeaderNode.java:578-581 | The loop picks `count` members: the i-th is `alive[(start + i) mod n]`. |
| Selection.Circular | src/main/java/com/sistem/proje/leader/LeaderNode.java:578-581 | The circular walk both strategies use, specified by CircularSpec, CircularFrom and CircularDistinct. |
| Selection.HashBased | src/main/java/com/sistem/proje/leader/LeaderNode.java:600-622 | `selectMembersHashBased`. Specified by SelectPositions and HashExample. |
| Selection.RoundRobin | src/main/java/com/sistem/proje/leader/LeaderNode.java:566-591 | `selectMembersRoundRobin`: the walk and the new counter. Specified by SelectSpec, SelectPositions and RoundRobinRunSpec. |
| Selection.Select | src/main/java/com/sistem/proje/leader/LeaderNode.java:533-557 | `selectMembers`, specified by SelectSpec, SelectPositions, SelectDistinct and NotActiveNotSelected. |
| Selection.RoundRobinRun | src/main/java/com/sistem/proje/leader/LeaderNode.java:566-591 | k successive one-member round-robin calls. Specified by RoundRobinRunSpec and RoundRobinVisitsAll. |
| Selection.CircularDistinct | src/main/java/com/sistem/proje/leader/LeaderNode.java:612-616 | When no more members are asked for than are alive, and ids are unique, the selected members are pairwise distinct. |
| Selection.HashStart | src/main/java/com/sistem/proje/leader/LeaderNode.java:610 | `Math.abs(messageId % n)` is `abs(messageId) mod n`, a valid index, for negative ids as well. |
| Selection.SelectSpec | src/main/java/com/sistem/proje/leader/LeaderNode.java:533-557 | `selectMembers` returns `min(count, alive)` members, or none when count <= 0 or nothing is alive. Each is drawn from the alive list. Only round-robin moves the counter: by the number selected, modulo the alive count. |
| Selection.SelectPositions | src/main/java/com/sistem/proje/leader/LeaderNode.java:566-622 | Round-robin starts at the counter and hash-based at the hashed index. Both walk the alive list circularly. |
| Selection.SelectDistinct | src/main/java/com/sistem/proje/leader/LeaderNode.java:533-557 | In a valid directory no member is selected twice for one message. |
| Selection.NotActiveNotSelected | src/main/java/com/sistem/proje/leader/LeaderNode.java:646-648 | A member that is not in the alive list is never selected. |
| Selection.HashExample | src/main/java/com/sistem/proje/leader/LeaderNode.java:600-622 | With three alive members, id 5 and tolerance 2, hash-based selection picks the third member, then the first. |
| Selection.NegativeHashExample | src/main/java/com/sistem/proje/leader/LeaderNode.java:610 | `Math.abs(-4 % 3)` is 1. |
| Selection.RoundRobinRunSpec | src/main/java/com/sistem/proje/leader/LeaderNode.java:566-591 | k successive one-member round-robin picks from counter c walk the list circularly from c. They leave the counter at `(c + k) mod n`. |
| Selection.CircularFromZero | src/main/java/com/sistem/proje/leader/LeaderNode.java:578-581 | A circular pick from 0 of at most n members is a prefix of the list. |
| Selection.RoundRobinVisitsAll | src/main/java/com/sistem/proje/leader/LeaderNode.java:566-591 | n one-member round-robin picks from 0 visit every alive member once, in list order, and return the counter to 0. |
| Replication.StoreCallSpec | src/main/java/com/sistem/proje/leader/LeaderNode.java:940-992 | `storeMessageToMember` is true exactly on a successful answer. Success revives the member. A connect or I/O failure marks it dead. Other failures leave the directory as it was. Other ids are untouched and validity is kept. |
| Replication.RetrieveCallSpec | src/main/java/com/sistem/proje/leader/LeaderNode.java:839-893 | `retrieveMessageFromMember` gives text exactly for a non-empty answer. Any answer revives the member. A connect or I/O failure marks it dead. Other failures leave the directory as it was. |
| Replication.StoreCall | src/main/java/com/sistem/proje/leader/LeaderNode.java:940-992 | `storeMessageToMember` on the directory: the result and the status change. StoreCallSpec specifies it. |
| Replication.RetrieveCall | src/main/java/com/sistem/proje/leader/LeaderNode.java:839-893 | `retrieveMessageFromMember` on the directory. Specified by RetrieveCallSpec. |
| Replication.FanoutUpTo | src/main/java/com/sistem/proje/leader/LeaderNode.java:460-488 | The fan-out loop after k selected members. FanoutSpec, FanoutValid and FanoutKeeps specify it. |
| Replication.PruneUpTo | src/main/java/com/sistem/proje/leader/LeaderNode.java:508-512 | The clean-up loop after k selected members, specified by PruneList, PruneCounts and PruneFrame. |
| Replication.SetSpec | src/main/java/com/sistem/proje/leader/LeaderNode.java:430-523 | `handleSetCommand` on the whole leader state. Specified by SetBadId, SetLocalFailure, SetOkIff, SetRecordsReplicas, SetPartialFailure, SetPreserves and SetTransportMarksDead. |
| Replication.Candidates | src/main/java/com/sistem/proje/leader/LeaderNode.java:733-746 | The alive-member filter of `handleGetCommand`. It is specified by CandidatesSpec, CandidatesOne and CandidatesConcat. |
| Replication.FallbackUpTo | src/main/java/com/sistem/proje/leader/LeaderNode.java:753-793 | The retrieve loop after k candidates, specified by FallbackSpec, FallbackStaysFound and FallbackDir. |
| Replication.GetSpec | src/main/java/com/sistem/proje/leader/LeaderNode.java:708-805 | `handleGetCommand` on the whole leader state. GetBadId, GetLocalHit, GetFallback and GetFrame specify it. |
| Replication.HandleLine | src/main/java/com/sistem/proje/leader/LeaderNode.java:1016-1044 | The ClientHandler dispatch of one line. Specified by HandleLineParseError and HandleLineRoundTrip. |
| Replication.Ids | src/main/java/com/sistem/proje/leader/LeaderNode.java:466-468 | The ids of the selected members as the fan-out records them with `member.getId()`, position by position. |
| Replication.StoreCallOk | src/main/java/com/sistem/proje/leader/LeaderNode.java:959-966 | A store call reports success exactly when the member answered success. |
| Replication.FanoutAcked | src/main/java/com/sistem/proje/leader/LeaderNode.java:460-488 | The acked list is the selected ids that answered success, in order. `allSuccess` holds exactly when every answer so far is a success. |
| Replication.FanoutIndex | src/main/java/com/sistem/proje/leader/LeaderNode.java:460-488 | The fan-out appends exactly the acked ids to the message's index list and touches no other id. |
| Replication.FanoutSpec | src/main/java/com/sistem/proje/leader/LeaderNode.java:460-488 | The fan-out loop's acked list, index and success flag, stated together. |
| Replication.AckedCount | src/main/java/com/sistem/proje/leader/LeaderNode.java:501-503 | The acked count reaches the selection size exactly when every answer is a success. In that case the acked ids are the selected ids. |
| Replication.AckedMembership | src/main/java/com/sistem/proje/leader/LeaderNode.java:460-488 | An id is acked exactly when some selected member with that id answered success. |
| Replication.FanoutValid | src/main/java/com/sistem/proje/leader/LeaderNode.java:460-488 | The fan-out keeps the directory valid. |
| Replication.FanoutKeeps | src/main/java/com/sistem/proje/leader/LeaderNode.java:460-488 | Calls to other members do not change a member's lookup. |
| Replication.PruneList | src/main/java/com/sistem/proje/leader/LeaderNode.java:507-513 | The prune loop removes one occurrence, from the message's list, of each selected id that did not ack, in order. |
| Replication.PruneCounts | src/main/java/com/sistem/proje/leader/LeaderNode.java:507-513 | As multisets, pruning subtracts exactly the failed ids. |
| Replication.PruneFrame | src/main/java/com/sistem/proje/leader/LeaderNode.java:507-513 | Pruning touches no other message and leaves no empty list. |
| Replication.FailedAreNacked | src/main/java/com/sistem/proje/leader/LeaderNode.java:507-513 | With distinct selected ids, the ids pruned are exactly those that did not answer success. |
| Replication.SetBadId | src/main/java/com/sistem/proje/leader/LeaderNode.java:516-518 | A SET with a non-numeric id answers the id-format error and changes nothing. |
| Replication.SetLocalFailure | src/main/java/com/sistem/proje/leader/LeaderNode.java:438-442 | A leader disk failure answers the local-store error before any selection or remote call, and changes nothing. |
| Replication.SetOkIff | src/main/java/com/sistem/proje/leader/LeaderNode.java:430-523 | After the local store, SET answers OK exactly when every selected member acknowledged, and PARTIAL_FAILURE otherwise. The leader's storage holds the message, and the counter moves as the selection says. |
| Replication.SetRecordsReplicas | src/main/java/com/sistem/proje/leader/LeaderNode.java:446-503 | After an OK SET, the message's index list has gained the leader and then every selected member, in order. |
| Replication.SetPartialFailure | src/main/java/com/sistem/proje/leader/LeaderNode.java:501-513 | After PARTIAL_FAILURE, the message's list is the grown list with one occurrence of each failed id removed. As multisets, the failures are subtracted. |
| Replication.SetPreserves | src/main/java/com/sistem/proje/leader/LeaderNode.java:430-523 | Every SET keeps the directory valid and the index free of empty lists, and leaves every other message's list unchanged. |
| Replication.SetFaultKeeps | src/main/java/com/sistem/proje/leader/LeaderNode.java:438-442 | A local disk failure leaves the directory and the index as they were. |
| Replication.SetPreservesStored | src/main/java/com/sistem/proje/leader/LeaderNode.java:446-513 | A SET stored at the leader keeps the directory valid and the index free of empty lists, and touches no other message. |
| Replication.SetTransportMarksDead | src/main/java/com/sistem/proje/leader/LeaderNode.java:969-986 | A selected member whose store call fails to connect is not alive after the SET. |
| Replication.CandidatesSpec | src/main/java/com/sistem/proje/leader/LeaderNode.java:733-746 | The GET candidates are the listed ids whose member is alive, each looked up by id. Every alive listed id is included. When all are alive, they come in the listed order. |
| Replication.CandidatesOne | src/main/java/com/sistem/proje/leader/LeaderNode.java:734-741 | One recorded id contributes its member when it is alive, and nothing when it is dead or unknown (the leader's own id included). |
| Replication.CandidatesConcat | src/main/java/com/sistem/proje/leader/LeaderNode.java:733-746 | The candidates of a + b are those of a, then those of b. So the candidates keep the recorded order and multiplicity of the alive ids, with every other id skipped. |
| Replication.FallbackSpec | src/main/java/com/sistem/proje/leader/LeaderNode.java:752-796 | The fallback returns the text of the first candidate that gives a non-empty answer, and nothing when none does. |
| Replication.FallbackStaysFound | src/main/java/com/sistem/proje/leader/LeaderNode.java:758-777 | Once a candidate answered, later candidates are not asked. |
| Replication.FallbackDir | src/main/java/com/sistem/proje/leader/LeaderNode.java:752-796 | The fallback keeps the directory valid and does not change members that were not asked. |
| Replication.GetBadId | src/main/java/com/sistem/proje/leader/LeaderNode.java:798-800 | A GET with a non-numeric id answers the id-format error and changes nothing. |
| Replication.GetLocalHit | src/main/java/com/sistem/proje/leader/LeaderNode.java:715-720 | A GET of an id the leader holds is answered from its storage, or with the read error, without asking any member. |
| Replication.GetFallback | src/main/java/com/sistem/proje/leader/LeaderNode.java:725-796 | On a local miss, GET answers the first non-empty reply of the alive listed members, or NOT_FOUND when there is none. |
| Replication.GetFrame | src/main/java/com/sistem/proje/leader/LeaderNode.java:708-805 | GET changes neither the index, nor the counter, nor the storage. The directory stays valid, and only the listed members may change status. |
| Replication.HandleLineParseError | src/main/java/com/sistem/proje/leader/LeaderNode.java:1036-1039 | A line that does not parse answers "ERROR: " followed by the parser's message, and changes nothing. |
| Replication.SetThenGetAtLeader | src/main/java/com/sistem/proje/leader/LeaderNode.java:430-720 | A GET right after a SET of the same id answers the message, whatever the members answered. |
| Replication.StoredNotFoundIsMiss | src/main/java/com/sistem/proje/leader/LeaderNode.java:717-720 | A message whose text is "NOT_FOUND" is treated as a miss at the leader. |
| Replication.HandleLineRoundTrip | src/main/java/com/sistem/proje/leader/LeaderNode.java:1016-1044 | The line `SET id msg` answers OK or PARTIAL_FAILURE, and a following `GET id` line answers msg. |
| Replication.ScenarioAllAck | src/main/java/com/sistem/proje/leader/LeaderNode.java:430-523 | Three members, hash-based, tolerance 2, id 5: both acks give OK and the index list [leader, m3, m1]. |
| Replication.ScenarioTransportFailure | src/main/java/com/sistem/proje/leader/LeaderNode.java:460-513 | In the same set-up, a connect failure of m1 gives PARTIAL_FAILURE and the index list [leader, m3]. m1 is marked dead. |
| Replication.ScenarioPruneEarlierEntry | src/main/java/com/sistem/proje/leader/LeaderNode.java:507-513 | A failed re-SET removes the member's earlier index entry, because `List.remove` drops the first occurrence. |
| Replication.ScenarioSkipDead | src/main/java/com/sistem/proje/leader/LeaderNode.java:733-796 | GET skips listed members that are dead and answers from the first alive one. |
| Leader.StartupTolerance | src/main/java/com/sistem/proje/leader/LeaderNode.java:119-131 | The tolerance the leader starts with is always within 1..7. It is the loaded value after a successful load, and the default after a configuration error. |
| Leader.Tally | src/main/java/com/sistem/proje/leader/LeaderNode.java:383-385 | The inner tally loop adds each member's number of occurrences in the list to its count. |
| Leader.LeaderNode.constructor | src/main/java/com/sistem/proje/leader/LeaderNode.java:104-132 | A null strategy means hash-based, and the tolerance is the startup tolerance. The leader starts with empty lists, an empty index, counter 0 and empty storage. |
| Leader.LeaderNode.AddMember | src/main/java/com/sistem/proje/leader/LeaderNode.java:212-221 | The directory becomes that of `addMember`, which keeps the invariant. |
| Leader.LeaderNode.RemoveMember | src/main/java/com/sistem/proje/leader/LeaderNode.java:228-234 | The directory becomes that of `removeMember`. |
| Leader.LeaderNode.MarkMemberAsDead | src/main/java/com/sistem/proje/leader/LeaderNode.java:656-674 | The directory becomes that of the mark-dead function. |
| Leader.LeaderNode.MarkMemberAsAlive | src/main/java/com/sistem/proje/leader/LeaderNode.java:688-700 | The directory becomes that of the mark-alive function. |
| Leader.LeaderNode.AddMessageToMember | src/main/java/com/sistem/proje/leader/LeaderNode.java:285-288 | The index becomes that of the add function. |
| Leader.LeaderNode.RemoveMessageFromMember | src/main/java/com/sistem/proje/leader/LeaderNode.java:296-306 | The index becomes that of the remove function. |
| Leader.LeaderNode.ClearMessageToMembers | src/main/java/com/sistem/proje/leader/LeaderNode.java:348-351 | The index becomes empty, so every query answers no member and count 0. Nothing else changes. |
| Leader.LeaderNode.MemberMessageCounts | src/main/java/com/sistem/proje/leader/LeaderNode.java:381-386 | The `printStats` tally gives each member its total number of index entries over all messages. |
| Leader.LeaderNode.SelectMembersHashBased | src/main/java/com/sistem/proje/leader/LeaderNode.java:600-622 | The loop builds the hash-based circular selection. |
| Leader.LeaderNode.SelectMembersRoundRobin | src/main/java/com/sistem/proje/leader/LeaderNode.java:566-591 | The loop builds the round-robin selection and sets the counter to `(start + count) mod n`. |
| Leader.LeaderNode.SelectMembers | src/main/java/com/sistem/proje/leader/LeaderNode.java:533-557 | The selection and the counter are those of the selection function. |
| Leader.LeaderNode.StoreMessageToMember | src/main/java/com/sistem/proje/leader/LeaderNode.java:940-992 | The result and the directory are those of the store-call function. |
| Leader.LeaderNode.RetrieveMessageFromMember | src/main/java/com/sistem/proje/leader/LeaderNode.java:839-893 | The text and the directory are those of the retrieve-call function. |
| Leader.LeaderNode.StoreAndRecord | src/main/java/com/sistem/proje/leader/LeaderNode.java:464-487 | One fan-out iteration: the store call, plus the index entry on success. |
| Leader.LeaderNode.StoreToSelected | src/main/java/com/sistem/proje/leader/LeaderNode.java:460-488 | The fan-out loop ends in the state of the fan-out function. |
| Leader.LeaderNode.PruneFailed | src/main/java/com/sistem/proje/leader/LeaderNode.java:507-513 | The prune loop ends with the index of the prune function. |
| Leader.LeaderNode.HandleSetCommand | src/main/java/com/sistem/proje/leader/LeaderNode.java:430-523 | The reply and the new leader state are those of the SET function, whose properties are the Replication lemmas above. |
| Leader.LeaderNode.AliveCandidates | src/main/java/com/sistem/proje/leader/LeaderNode.java:733-746 | The candidate loop builds the candidate list of the GET function. |
| Leader.LeaderNode.AskCandidates | src/main/java/com/sistem/proje/leader/LeaderNode.java:752-796 | The fallback loop ends in the state of the fallback function. |
| Leader.LeaderNode.HandleGetCommand | src/main/java/com/sistem/proje/leader/LeaderNode.java:708-805 | The reply and the new leader state are those of the GET function. |
| Leader.LeaderNode.HandleLine | src/main/java/com/sistem/proje/leader/LeaderNode.java:1016-1044 | The ClientHandler's reply to one line and the new state are those of the line dispatch function. |

## Left out

- Sockets, the ClientHandler thread pool, the accept loop and all concurrency. Requests are handled one at a time. CopyOnWriteArrayList, ConcurrentHashMap and AtomicInteger are plain sequences, maps and a `nat`. Their thread-safety is not modelled.
- gRPC channels, stubs and `shutdownChannel`. A remote call is reduced to its outcome (`answers`/`replies`), which the caller supplies.
- `selectMembersRandom`, because it draws from `java.util.Random`. The modelled strategies are ROUND_ROBIN and HASH_BASED.
- Logging, `System.out`, the `printStats` scheduler and its report text, including the leader's disk message count. Only the per-member tally is modelled.
- MessageStorage and IOMode file I/O. The storage is a `map<int, string>` and starts empty. This ignores files left in `messages/` by earlier runs, which MessageStorage keeps (it only creates the directory when it is missing), so a restarted Java leader can serve earlier messages. A disk failure is an optional message passed in. A failed write is modelled as leaving the storage unchanged. Java opens the file truncating before it writes, so a write that fails part-way can leave an empty or partial file, and a later GET would answer that text.
- The configuration file is given as "present or not" plus its lines. An IOException while reading it is not modelled.
- MemberInfo is shared by reference between the lists. The model reads a member's status through the directory lookup by id, because the directory invariant keeps the two views in step.
- JavaLang.ToUpper: upper-cases ASCII letters only. Java's locale-dependent Unicode mapping is not modelled.
- JavaLang.ParseInt: accepts ASCII digits only. Java also accepts other Unicode decimal digits.
- Leader.LeaderNode.SelectMembersRoundRobin: the counter is an unbounded `nat` and Java's 32-bit wrap-around of `startCounter + i` is not modelled. After each round-robin call the counter is below the alive count of that call, but a later `markMemberAsDead` can leave it above the current count. So the sum stays below twice the largest alive list ever seen, and it could overflow only with more than 2^30 members.
- The catch-all `"ERROR: " + e.getMessage()` branches of handleSetCommand, handleGetCommand, CommandHandler.execute and the ClientHandler (LeaderNode.java:1040-1044) are left out. They are reachable only through runtime exceptions, which the model does not have.
- The ClientHandler branch that calls `execute` for a command that is neither SET nor GET is unreachable, because the parser builds only those two kinds.
- The getters that return copies (`getActiveMembers`, `getDeadMembers`, `getAllMembers`, the count getters, `getConfigFile`) and MemberInfo's accessors are left out. They are the fields of `Directory.Dir` and `Member`, read directly.
- `getMembersForMessage`, `isMessageInMember` and `getMemberCountForMessage` are the functions `MessageIndex.Members`, `IsIn` and `CountFor`. `findMemberById` is `Directory.Find`.
- A stored message whose text is "NOT_FOUND" is a miss at the leader, because the reply is compared with that text. This is modelled as written (Replication.StoredNotFoundIsMiss).
- After an out-of-range tolerance line, the loader keeps the bad value recorded. This is modelled as written (Config.OutOfRangeKept). The leader never uses that value, because it falls back to the default.
