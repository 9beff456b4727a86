# Model of a POP3 server with a monitoring protocol

The server keeps a client slot per TCP connection: a command parser that is fed whatever `recv` gives, a dispatcher that
runs one command at a time and may suspend LIST and RETR, a ring of 512 bytes for output, and a mail cache with a
dot-stuffer. It also answers MP3P datagrams, which read counters and change the users.

The model has two layers. Modules on values say what each part computes and carry the theorems. Modules with classes hold
the fields, arrays and linked nodes of the C code; each of their methods is proved to have the effect that the value layer
gives, so the theorems apply to them.

| part | on values | in place |
|---|---|---|
| numbers, strings | `Text`, `Readers` | |
| dot-stuffer | `Stuffing`, `Streaming`, `Framing` | `CharactersProcessor` |
| output ring | `Session` | `CircularBuffer` |
| command table and parser | `Commands`, `Parsing`, `Fragmentation`, `Verdicts` | `CommandList` |
| mails of a user | `Mailbox` | `MailCache` |
| users | `Users` | `UserList` |
| connection | `Session`, `Replies`, `Handlers`, `Runs`, `Dialogues`, `Guarantees`, `Endings`, `SessionSafety`, `Listing`, `Logins`, `Histories` | `Client` |
| MP3P | `Datagrams`, `DatagramGrammar`, `DatagramParsing`, `DatagramFields`, `DatagramHeaders`, `DatagramReplies`, `DatagramClient` | `DatagramServer` |

A run is a sequence of states of one connection together with its history: the pieces received, the commands served with
their replies and the sessions before and after them, and the bytes that `send` took. A step is either a read (a piece of 1
to 255 bytes, NULs and older bytes behind them included, an error or the end of the stream) or a write (the dispatcher's turn in an arbitrary environment of users and
files, then a `send` that takes any number of the bytes offered or fails). `Runs.RunInv` proves one invariant for all runs;
`Guarantees`, `Endings`, `SessionSafety` and `Listing` read the properties of the protocol off it. `Dialogues` defines a
session of its own, in the terms of sections 4 to 6 of RFC 1939 and of what a client can read, and proves that every run is
such a session.

A character of the model is a byte. Codes above 127 are the negative values of a signed `char`.

## Where the code does less than the protocols ask

The code is followed, and each of these is stated exactly, with the condition under which it does not happen.

- A mail whose last piece leaves fewer than 5 bytes free in the ring is sent without CRLF.CRLF, because the result of that
  write is ignored (`Guarantees.RetrEndToEnd`, `Guarantees.ShortMailTruncated`). When the last piece fills the ring to the
  last byte a final dot can stay unsent as well (`Mailbox.GetNFinishes`).
- Bytes above 127 and NULs are not sent, and `strncpy` turns everything after a NUL in a piece into NULs
  (`Streaming.StrncpyHarmlessExactly`). Dropped bytes can make the client see the end of the mail too early
  (`Framing.FramedExactly`, `Framing.EightBitBreaksFraming`).
- Only a dot that is alone in its line is doubled, and an LF without a CR starts a line for the server. So the round trip of
  section 3 of RFC 1939 holds exactly for mails in which every dot behind a CRLF or at the beginning stands alone in its
  line and no dot behind a bare LF does (`Framing.RoundTripExactly`, `Framing.DotWordIsLost`, `Framing.BareLFConfuses`).
- A third space makes a line invalid without ending the writing loop, so whether it is accepted depends on where TCP cuts
  it (`Fragmentation.CutHarmlessExactly`, `Fragmentation.ThirdSpaceDependsOnCut`).
- A CR that no LF follows is remembered when it spoils a good line, so a bare LF behind the next byte ends that line
  (`Verdicts.LoneCRExactly`).
- LIST sends one line of stale data when the last mail is marked, because FAILED is 2 and the loop tests for `>= 0`
  (`Listing.ListAgreesWithStat`).
- Closing a slot clears the connected flag of whatever name was last given to USER in it, logged in or not, so a login is
  not exclusive (`Logins.LoginSucceedsExactly` and `Histories.LoginInHistory` say exactly when a login succeeds, `Logins.NotExclusive`).
- The documentation says that a client started with the wrong version always gets 101 and one with the wrong key always
  gets 100. That holds for well-formed commands (`DatagramClient.DocumentedAnswers`); any other text gets 104 first
  (`DatagramClient.NoCommandAnswer`).
- Behind a line that is being discarded the parser steps over the NUL at the end of a piece, and reads whatever the receive
  buffer held there (`Fragmentation.StaleBytesHarmlessExactly`).
- The headers of a datagram are fixed fields side by side, filled by copies without bounds. A version of 128 bytes or more
  runs into the key, a key line of 512 or more into the id, a user name of 256 or more into the password, and the later
  copy wins (`DatagramHeaders.RecoveredExactly`, `DatagramReplies.LongNameIsMixed`,
  `DatagramReplies.LongKeyLineReplacesId`). So `AU` can set the password of another name than the one sent
  (`DatagramReplies.SetPasswordExactly`), and a reply can carry another id than the one sent
  (`DatagramClient.OnlyTheSenderAccepts`).
- A copy runs off behind the headers, or behind the datagram when no newline follows a malformed key, and the list of users
  can overrun the buffer of the reply. The model says exactly when (`DatagramHeaders.ParseMeaning`,
  `DatagramReplies.ReplyExactly`, `DatagramReplies.FourUsersTooLong`) and does not follow the server from there.
- The monitoring client accepts a reply whose id line is only a beginning of the id (`DatagramClient.ShortIdLineMatches`).
  When a received text has no newline it searches behind a null result (`DatagramServer.CheckValidRequestId` returns None);
  the server sends no such text.

## Model

| member | source | states |
|---|---|---|
| Runs.StepInv | src/server/serverUtils.c:353-372 | Every step of a connection (a read of any piece, or a dispatch followed by a send of any count or a failing send) keeps the invariant: bytes sent plus bytes buffered are the greeting and the replies served so far; commands served plus commands queued are what the received pieces parse to; commands were served one after the other, each in the session the one before it left; a suspended command is the last one served and its reply so far is where it should be; the connection waits to read only when idle |
| Runs.RunInv | src/server/serverUtils.c:353-372 | The invariant holds after every step of every run |
| Runs.RespondSteps | src/server/serverUtils.c:318-351 | One turn of the dispatcher on a connection in step with its log either does nothing, completes or continues the last entry, or appends exactly one entry for the first queued command; output is only added |
| Guarantees.NeverOverflows | src/buffer/circularBuffer.c:25-37 | In no reachable state has the branch that ends the process on a full ring been taken, and the ring never holds more than its size |
| Guarantees.NeverStalls | src/clients/clients.c:39-40 | In every reachable state pending output, a complete queued command or a suspended command means WRITING, and the step the state waits for is always enabled |
| Guarantees.AnswersInOrder | src/server/serverUtils.c:318-351 | Commands are dequeued once each in order of arrival; each entry of the log is the reply its command is owed in the session its predecessor left, all but the last of them finished; and the client is sent greeting and replies in that order without gap or repetition, for any partial sends |
| Dialogues.Conversation | src/pop/popFunctions.c:34-295 | In every run each finished answer is the one a reference session in the terms of RFC 1939 gives to its request after the requests before it: +OK or -ERR by phase, mailbox and marks; the numbers and sizes that can be read off LIST and STAT; the stuffed file for RETR. The reference knows requests by the ten names, the mailbox of the login, and the sets of marked and removed numbers, and nothing of the server's tables and lines |
| Dialogues.GreetingRead | src/pop/popFunctions.c:118-122 | The first line the client is sent says +OK |
| Dialogues.LogIsDialogue | src/pop/popFunctions.c:82-295 | After any log the server's session is the one that the reference has come to: phase, user, the login's files as mails of their sizes, marks, and removed mails |
| Dialogues.EntrySpoken | src/server/serverUtils.c:318-351 | The same for one entry of the log, refused requests and lines that are no requests included |
| Dialogues.OneLogin | src/pop/popFunctions.c:94-104 | A connection has at most one login that is welcomed, and the mailbox of its session is the one that login found; without it there is no mailbox and no TRANSACTION |
| Endings.EndsExactly | src/clients/clients.c:16-74 | In every run a step ends the connection exactly when it reads the end of the stream, when a send fails with something to send, or when QUIT was accepted, everything was sent and nothing is left to run; an error of recv changes nothing |
| Endings.QuitEndsExactly | src/server/serverUtils.c:363-370 | When a step ends a connection that quits, the client was sent the greeting and every reply, the slot is vacant, and of all users exactly the one named there is no longer connected |
| Endings.QuitNeverWaits | src/server/serverUtils.c:369 | In every reachable state an open connection in UPDATE is WRITING |
| Endings.EndOfStreamEnds | src/clients/clients.c:51-64 | The end of the stream leaves the slot vacant and its name, and no other, disconnected |
| Endings.ReadingKeepsUsers | src/clients/clients.c:45-74 | Nothing else that is read changes the users |
| Endings.FailedSendEnds | src/clients/clients.c:23-27 | So does a send that fails |
| Guarantees.PipelinedAsSent | src/parsers/commandParser.c:220-269 | A client that prints valid commands line by line has, at every moment of the transfer, a beginning of those commands served in that order, each with its words and the command its name stands for, and all of them served or queued once everything has arrived, however TCP cuts the stream and whatever stood in the receive buffer before |
| Guarantees.RetrEndToEnd | src/pop/popFunctions.c:249-286 | In every run a RETR of a number that stands, for an intact file of that number in the mailbox of the connection's login, has put in the stream a prefix of status line, stuffed file, CRLF.CRLF; once finished it has put there all of it if and only if at least 5 bytes of the ring were free after its last piece |
| Guarantees.RetrFinds | src/mailsCache/mailsCache.c:77-94 | Every RETR of a number that stands is one of a file of the login's mailbox |
| Guarantees.MailRecovered | src/pop/popFunctions.c:69-76 | In every run, for a client whose lines end with CRLF: the only CRLF.CRLF in the reply to a RETR of a file of bytes 1 to 127 that came whole is the final one, and the client recovers the file if and only if every dot behind a CRLF or at the beginning stands alone in its line and no dot behind a bare LF does |
| Guarantees.ShortMailTruncated | src/pop/popFunctions.c:69-76 | A mail that fits the first piece ends at once, with its terminator if and only if its stuffed form has at most 486 bytes: between 487 and 491 the terminator is silently lost |
| SessionSafety.DeletesWhatWasMarked | src/pop/popFunctions.c:161-181 | In every reachable state TRANSACTION has a mail cache; the marked mails are those whose DELE was confirmed since the last confirmed RSET; the unlinked mails are exactly those if a QUIT was accepted in TRANSACTION and none otherwise, each once |
| SessionSafety.LogTold | src/pop/popFunctions.c:94-181 | The session after any log of served commands (state, marks, deletions) is determined by the answers in the log |
| SessionSafety.StatesOnlyAdvance | src/server/serverUtils.c:322-338 | While a connection is open its session state never goes back, and UPDATE is reached only through QUIT |
| Listing.ListAgreesWithStat | src/pop/popFunctions.c:190-219 | In every run, for a finished LIST and a finished STAT that found the same marks: the two numbers read off STAT are how many files of the login's mailbox stand and their total size, and the numbers and sizes read off LIST are exactly those of these files, if and only if the last one is not marked: `next` fails with 2, which the loop takes for success, so a line about stale data follows otherwise |
| Listing.StandingExactly | src/mailsCache/mailsCache.c:142-155 | The mails of the listing are exactly those not marked, in increasing number, each with the size of its file |
| Dialogues.StandingCounts | src/mailsCache/mailsCache.c:207-230 | Their number and the sum of their sizes are what `getAmountOfMails` and `getSizeOfMails` count |
| Dialogues.ListRead | src/pop/popFunctions.c:190-219 | What the server sends for LIST is read, by cutting it at line ends and spaces, as those mails |
| Readers.ListLineRead | src/pop/popFunctions.c:194 | A line of LIST is read as the mail's number and its size, in this order |
| Readers.TwoRead | src/pop/popFunctions.c:185 | The line of STAT, and that of LIST with a number, are read as their two numbers in this order |
| Readers.AtoiExactly | src/pop/popFunctions.c:129 | `atoi` reads an optional sign and the digits behind it, whatever follows; without a digit it reads 0 |
| Readers.NoNumberNoMail | src/pop/popFunctions.c:128-143 | An argument without a digit where a number would start names no mail |
| Listing.ListedNumberSelects | src/mailsCache/mailsCache.c:259-261 | The text before the space in a line of LIST, given to another command, names the mail of that line, which stands and has the size in the same line |
| Listing.ListedNumberDeletes | src/pop/popFunctions.c:128-143 | DELE with that text takes exactly that mail off the list |
| Listing.SuspendedCommandEnds | src/pop/popFunctions.c:190-263 | A suspended LIST or RETR that is resumed with room for a line either ends or strictly decreases the mails or bytes before it |
| Handlers.EveryHandler | src/pop/popFunctions.c:34-45 | Whatever handler the dispatcher may call, it only appends to the output, within the ring, and what it appended is the reply its command is owed in that session or, when suspended, the part of it up to the point of suspension |
| Handlers.UserHandled | src/pop/popFunctions.c:82-91 | USER is answered on one line that always fits and records the name |
| Handlers.PassHandled | src/pop/popFunctions.c:94-114 | PASS opens the transaction with a fresh cache exactly when the password is valid and the user is not connected, and says which of the two failed otherwise |
| Handlers.DeleHandled | src/pop/popFunctions.c:128-143 | DELE marks an existing unmarked mail and nothing else |
| Handlers.RsetHandled | src/pop/popFunctions.c:145-159 | RSET unmarks every mail and the count with them |
| Handlers.QuitHandled | src/pop/popFunctions.c:161-181 | QUIT unlinks the marked mails in TRANSACTION only, and ends in UPDATE |
| Handlers.StatHandled | src/pop/popFunctions.c:183-188 | STAT's line always fits and holds the number and total size of the unmarked mails |
| Handlers.ListAllHandled | src/pop/popFunctions.c:201-219 | LIST, over however many turns, sends header, lines and end |
| Handlers.ListOneHandled | src/pop/popFunctions.c:221-237 | LIST with a number sends that mail's line, or the error when it is missing or marked |
| Handlers.RetrHandled | src/pop/popFunctions.c:265-286 | RETR, over however many turns, sends status line, stuffed mail and, given room, the terminator |
| Handlers.RetrContinues | src/pop/popFunctions.c:249-263 | One continuation takes from the mail exactly what it appends: reply so far plus what is left stays the same |
| Replies.ContinueListLines | src/pop/popFunctions.c:190-199 | One turn of the LIST loop appends the lines of the mails it goes past, and one stale line if it runs off the end over marked mails |
| Client.Client.ExecuteFirst | src/server/serverUtils.c:318-351 | The dispatcher on the heap: the new state is that of the step function; the command allocated for it stays allocated exactly while it is suspended |
| Client.Client.RunCommand | src/server/serverUtils.c:337-349 | Runs the current command, frees it unless it was suspended: no allocation is leaked or freed twice |
| Client.Client.TakeCommand | src/server/serverUtils.c:322-338 | Dequeues one command into a fresh allocation, or refuses it and frees that allocation |
| Client.Client.ExecuteCommand | src/server/serverUtils.c:340 | Every table entry calls its handler, whose effect on the slot is that of the step function |
| Client.Client.CheckUsername | src/pop/popFunctions.c:82-91 | USER on the slot |
| Client.Client.CheckPassword | src/pop/popFunctions.c:94-114 | PASS on the slot and on the shared user list |
| Client.Client.ListAll | src/pop/popFunctions.c:201-219 | LIST on the slot, with the loop over the cache's iterator |
| Client.Client.ContinueListing | src/pop/popFunctions.c:190-199 | The LIST loop on the slot |
| Client.Client.ContinueRetrieval | src/pop/popFunctions.c:249-263 | One piece of a mail from cache to ring |
| Client.Client.RetrCommand | src/pop/popFunctions.c:265-286 | RETR on the slot |
| Client.Client.DeleCommand | src/pop/popFunctions.c:128-143 | DELE on the slot |
| Client.Client.RsetCommand | src/pop/popFunctions.c:145-159 | RSET on the slot |
| Client.Client.QuitCommand | src/pop/popFunctions.c:161-181 | QUIT on the slot |
| Client.Client.StatCommand | src/pop/popFunctions.c:183-188 | STAT on the slot |
| Client.Client.WriteToOutputBuffer | src/pop/popFunctions.c:58-66 | Appends the whole message or nothing |
| Client.Client.WriteToSocket | src/clients/clients.c:16-42 | Drains the ring, puts the unsent tail back, waits to read when idle, closes when send fails |
| Client.Client.Drain | src/clients/clients.c:17-36 | All bytes taken by send followed by the ring's new contents are the ring's old contents |
| Client.Client.ReadFromSocket | src/clients/clients.c:45-74 | A piece goes to the parser with a NUL and whatever the buffer held behind it, an end of stream closes the slot, an error changes nothing |
| Client.Client.CloseSlot | src/clients/clients.c:83-98 | Frees the suspended command if there is one, clears the user's connected flag and leaves the slot vacant |
| Client.Client.AcceptClient | src/server/serverUtils.c:196-203 | A vacant slot becomes an open connection with the greeting in its ring |
| Client.Client.HandleWritableSocket | src/server/serverUtils.c:363-370 | Dispatch with room for a line, send, and close after QUIT once everything is sent |
| Runs.SendKeepsStream | src/clients/clients.c:16-37 | Bytes taken by send followed by what is put back are what the ring held, and the put-back always fits because the ring was drained |
| CircularBuffer.Slot | src/buffer/circularBuffer.c:34 | Where a place of the ring wraps around |
| CircularBuffer.WindowPush | src/buffer/circularBuffer.c:33-35 | Writing one slot past a window of the ring appends one character to its contents |
| CircularBuffer.WindowPop | src/buffer/circularBuffer.c:52-54 | Moving the start of a window removes its first character |
| CircularBuffer.Buffer.WriteData | src/buffer/circularBuffer.c:25-37 | Appends to the queue; the fatal branch is taken if and only if the data does not fit |
| CircularBuffer.Buffer.ReadData | src/buffer/circularBuffer.c:39-59 | Takes the oldest min(len, count) characters in order, across wraparound |
| Stuffing.TransduceIsStuff | src/mailsCache/byteStuff.c:97-127 | The byte automaton computes the positional definition: bytes 1 to 127 only, and every dot alone at the start of a line, before CR or the end of the mail, doubled |
| Stuffing.TransduceIsStuffFrom | src/mailsCache/byteStuff.c:97-127 | The same from any position, when the state is the one the bytes before it lead to |
| Streaming.ChunkInvariance | src/mailsCache/byteStuff.c:32-64 | For any interleaving of adds and gets of any sizes the output is a prefix of the stuffed input, and all of it when a get comes up short after the end of the file with nothing left |
| Streaming.RunBalanced | src/mailsCache/byteStuff.c:32-64 | After any such sequence, output so far plus what the rest will give is the stuffed input, for every possible rest |
| Streaming.TakeConserves | src/mailsCache/byteStuff.c:32-51 | One get neither loses, repeats nor reorders output |
| Streaming.ShortTakeIsLast | src/mailsCache/byteStuff.c:96-106 | A get after the end of the file that empties the buffer leaves at most the dot that ends the mail unsent |
| Streaming.StrncpyHarmlessExactly | src/mailsCache/byteStuff.c:61 | `strncpy` in place of a copy changes no output if and only if no byte that is sent follows a NUL in the chunk |
| CharactersProcessor.CharactersProcessor.ReadFromBuffer | src/mailsCache/byteStuff.c:97-127 | One step of the automaton on the 512-byte array |
| CharactersProcessor.CharactersProcessor.RebaseBuffer | src/mailsCache/byteStuff.c:85-94 | Moves the unread bytes to the front: idx is 0 again and the pending text the same |
| CharactersProcessor.CharactersProcessor.GetN | src/mailsCache/byteStuff.c:32-51 | A get on the array is the get on values; nothing past the copied bytes of the destination changes |
| CharactersProcessor.StrncpyIndex | src/mailsCache/byteStuff.c:61 | What `strncpy` leaves at each place |
| CharactersProcessor.CharactersProcessor.CopyIn | src/mailsCache/byteStuff.c:61 | The bounded copy stays inside the array |
| CharactersProcessor.CharactersProcessor.Add | src/mailsCache/byteStuff.c:53-64 | Takes min(n, free space) bytes, keeps them in bounds and records the end of the file |
| Framing.FramedExactly | src/pop/popFunctions.c:69-76 | For every body the first CRLF.CRLF after the status line is the final one if and only if dropping the bytes that are not sent leaves no undoubled dot alone in its line |
| Framing.TextIsFramed | src/mailsCache/byteStuff.c:97-127 | Every body of bytes 1 to 127 is framed, also one that starts or ends with a lone dot |
| Framing.ExposedDotEndsMail | src/mailsCache/byteStuff.c:97-127 | Each such exposed dot ends the mail early |
| Framing.EarlyTerminatorIsExposedDot | src/mailsCache/byteStuff.c:97-127 | Each early terminator comes from such a dot |
| Framing.EightBitBreaksFraming | src/mailsCache/byteStuff.c:42 | A dot followed by a byte above 127 reads as an empty mail |
| Framing.RoundTripExactly | src/mailsCache/byteStuff.c:97-127 | For a client whose lines end with CRLF, and for one that takes a bare LF for an end as well: taking one dot off each line that starts with one recovers the body if and only if all its bytes are sent and, of the dots behind an LF or at the beginning, exactly those stand alone in their line that the client finds at the start of one |
| Framing.DotWordIsLost | src/mailsCache/byteStuff.c:110-113 | A line that starts with a dot and goes on loses it for either client: only lone dots are doubled, unlike section 3 of RFC 1939 |
| Framing.BareLFConfuses | src/mailsCache/byteStuff.c:117-120 | Behind a bare LF the server doubles a lone dot that a client of CRLF lines keeps doubled, and leaves a dot that such a client keeps |
| Mailbox.RefillFits | src/mailsCache/mailsCache.c:103-107 | Each read asks for no more than the stuffer can hold: no byte of the file is lost |
| Mailbox.GetNConserves | src/mailsCache/mailsCache.c:96-117 | What a call gives plus what is left to send is what was left before |
| Mailbox.GetNFinishes | src/mailsCache/mailsCache.c:111-112 | FINISHED leaves nothing unsent, except a pending final dot when the output was filled to the last byte |
| Mailbox.GetNProgress | src/mailsCache/mailsCache.c:96-117 | A call for two bytes or more finishes the mail or leaves less of it unread |
| Mailbox.CountMarkedUpdate | src/mailsCache/mailsCache.c:173-174 | Marking an unmarked mail adds exactly one to the number of marked mails |
| Mailbox.InitCacheIs | src/mailsCache/mailsCache.c:263-297 | A login makes a mail of every file of the directory, in order, with its own bytes and size, none of them marked |
| Mailbox.MarkedNumbersMember | src/mailsCache/mailsCache.c:190-204 | Deletion names exactly the marked mails, in increasing order, each once |
| Replies.MarkMailOk | src/mailsCache/mailsCache.c:169-176 | `markedToDelete` stays the number of marked mails when a mail is marked |
| Replies.ResetToDeleteOk | src/mailsCache/mailsCache.c:178-188 | and when all are unmarked |
| MailCache.MailCache.GetNCharsFromMail | src/mailsCache/mailsCache.c:96-117 | A piece of the open mail, through the stuffer's array into the destination |
| MailCache.MailCache.NextMail | src/mailsCache/mailsCache.c:142-155 | The iterator skips marked mails and fails with 2 at the end |
| MailCache.MailCache.MarkMailToDelete | src/mailsCache/mailsCache.c:169-176 | Marks a valid number and counts it; anything else fails and changes nothing |
| MailCache.MailCache.ResetMarks | src/mailsCache/mailsCache.c:178-188 | Unmarks all in a loop |
| MailCache.MailCache.UnlinkMarked | src/mailsCache/mailsCache.c:190-204 | Unlinks the marked mails in a loop |
| MailCache.MailCache.Size | src/mailsCache/mailsCache.c:215-230 | Sums the sizes of the unmarked mails |
| MailCache.MailCache.OpenMail | src/mailsCache/mailsCache.c:77-94 | Opens a valid, unmarked mail with a reset stuffer |
| Fragmentation.FragmentationInvariance | src/parsers/commandParser.c:220-242 | Over a stream on which no third space leaves a line undecided, every cut into pieces leaves the same queue, statuses, arguments and CR flags as one automaton over the whole stream, invalid lines included |
| Fragmentation.TwoSpacesInvariance | src/parsers/commandParser.c:220-242 | In particular over every stream of lines with at most two spaces |
| Fragmentation.CutHarmlessExactly | src/parsers/commandParser.c:107-109 | A cut after `s` goes unnoticed by every continuation if and only if `s` does not end in a line that a third space, and nothing else yet, made invalid |
| Fragmentation.CutHarmlessText | src/parsers/commandParser.c:107-122 | The same told from the text: the last line before the cut is not one of three fields within their limits with three spaces or more, all printable, perhaps with a CR |
| Fragmentation.StaleBytesHarmlessExactly | src/parsers/commandParser.c:131-144 | Whatever stands behind the NUL in the receive buffer is never read if and only if the piece does not end in a line that is being discarded: there the loop steps over the NUL it stops on |
| Fragmentation.OlderBytesUnread | src/parsers/commandParser.c:220-242 | As long as no line is discarded, buffers with older bytes behind the pieces are parsed as the pieces alone |
| Fragmentation.ThirdSpaceDependsOnCut | src/parsers/commandParser.c:97 | The same line with three spaces is a command in one piece and an error in two |
| Fragmentation.PrintParse | src/parsers/commandParser.c:220-269 | Commands of at most 4 and two arguments of at most 40 characters, printed one per line, come back in order with name and arguments as they were and, for the ten names in any case, the command of that name and the state it needs, however the stream is cut |
| Fragmentation.ResolvedIsExpected | src/parsers/commandParser.c:158-164 | A finished line keeps its words, and gets the command its name stands for or none |
| Verdicts.LineVerdict | src/parsers/commandParser.c:85-172 | Any line of text that arrives whole is a command exactly when it is printable, its name has at most 4, its first argument at most 40 and the rest at most 40 characters besides spaces, and its name is one of the ten in any case; its fields are then the words of the text, and any other line is an error |
| Verdicts.DiscardedUpToCRLF | src/parsers/commandParser.c:127-145 | A line that is past saving goes on exactly until the first CRLF |
| Verdicts.LoneCRExactly | src/parsers/commandParser.c:95-106 | A CR without LF in a line that was good so far is remembered, so that the LF behind the next byte ends the line; in a bad line it is not |
| Fragmentation.FewSpacesCalm | src/parsers/commandParser.c:65-82 | Two spaces a line are never enough to leave the parser undecided |
| Parsing.ReceiveAfter | src/parsers/commandParser.c:227-239 | Later pieces never touch the parsed lines in front, so dequeuing them first changes nothing |
| Parsing.ReceiveOrdered | src/parsers/commandParser.c:229-236 | Only the last line of the queue can be unfinished |
| Parsing.ReceiveFromTable | src/parsers/commandParser.c:20-39 | Whatever is received, no line holds more than its buffers of 4, 40 and 40 bytes, and a line has a handler exactly when it is complete: the one the table has for its name |
| CommandList.CommandNode.ProcessWriting | src/parsers/commandParser.c:85-125 | The writing loop reads the node's line on from where it was, and advances |
| CommandList.CommandNode.DiscardUntilCRLF | src/parsers/commandParser.c:127-145 | The discarding loop, which counts the NUL it stops on |
| CommandList.CommandNode.ProcessNode | src/parsers/commandParser.c:147-172 | A call on a line consumes at least one byte and leaves what the automaton leaves |
| CommandList.CommandList.AddNode | src/parsers/commandParser.c:185-195 | Appends a node; first, last and the chain of next stay consistent |
| CommandList.CommandList.DeleteFirst | src/parsers/commandParser.c:197-209 | Removes the first node, also when it is the only one |
| CommandList.CommandList.AddData | src/parsers/commandParser.c:220-242 | The loop over a receive buffer of any contents with a NUL in its last place terminates inside it and leaves the queue the specification gives |
| CommandList.CommandList.GetFirstCommand | src/parsers/commandParser.c:255-269 | Gives the first parsed command and takes it off; nothing when the first line is unfinished |
| Commands.GetCommand | src/pop/popFunctions.c:49-56 | The lookup loop finds the first entry whose name matches |
| Commands.LookupSound | src/pop/popFunctions.c:49-56 | What is found matches ignoring case; nothing is found only when nothing matches |
| Commands.LookupExactly | src/pop/popFunctions.c:34-45 | Each entry is found under its own name in any case, and under no other |
| Commands.LookupIs | src/pop/popFunctions.c:34-56 | What the lookup gives, told without the table: the ten names in any case, each with its own command and the state it needs |
| Text.AtoiDecimal | src/pop/popFunctions.c:129 | A printed 32-bit number is read back as itself |
| Text.DecimalLength | src/pop/popFunctions.h:6 | Printed numbers are short enough for the single-line bound |
| Users.ListRefinesMap | src/users/users.c:23-151 | After any sequence of inserts, deletes, password changes, connection changes and clears names are unique and a password is valid exactly when the map of the same operations holds it |
| Users.ApplyAllRefines | src/users/users.c:71-151 | From any list with unique names: uniqueness is kept and the list goes on standing for the map |
| Users.ValidPasswordIsLookup | src/users/users.c:23-32 | Looking at every user gives the map's answer |
| Users.ModifyUpdatesMap | src/users/users.c:71-81 | Changing the first match changes the map's entry |
| Users.InsertUpdatesMap | src/users/users.c:84-99 | Insertion adds a missing name and leaves an existing one alone |
| Users.DeleteUpdatesMap | src/users/users.c:112-135 | Removing the first match removes the name |
| Users.ToggleKeepsMap | src/users/users.c:64-68 | The connected flag does not concern passwords |
| UserList.UserList.IsValidPassword | src/users/users.c:23-32 | The search loop on the list |
| UserList.UserList.GetUserNode | src/users/users.c:41-53 | The first node of a name, or null |
| UserList.UserList.ModifyUserPassword | src/users/users.c:71-81 | In place, the first match |
| UserList.UserList.InsertUserNode | src/users/users.c:84-99 | A fresh node in front, if the name is new; size follows |
| UserList.UserList.DeleteUserNode | src/users/users.c:112-135 | Unlinks the first match at the head or in the middle; the chain stays acyclic and size follows |
| UserList.UserList.Bypass | src/users/users.c:119-126 | Relinking around one node leaves the others chained in order |
| UserList.UserList.RemoveAllUserNodes | src/users/users.c:138-151 | Empties the list |
| UserList.UserList.ToggleUserConnected | src/users/users.c:64-68 | In place, the first match |
| Logins.LoginSucceedsExactly | src/pop/popFunctions.c:94-114 | After any sequence of logins, closings of slots, insertions, deletions and password changes a login is welcomed if and only if the password is the one those changes left and the last login, closing or deletion of that name was not a login |
| Histories.LoginInHistory | src/pop/popFunctions.c:94-114 | The same after any history of passwords given by connections, slots closed and datagrams handled, with the changes these make |
| Histories.HistoryChanges | src/users/users.c:59-135 | The users after such a history are those that its changes make of the first users |
| Histories.DatagramKeepsConnections | src/mp3pFunctions/mp3pFunctions.c:144-167 | A datagram disconnects nobody but a user it deletes, and connects nobody |
| Logins.NotExclusive | src/clients/clients.c:92 | A second login of a connected user succeeds once a slot that only named the user is closed |
| Logins.AfterSeen | src/users/users.c:59-135 | After any such sequence a user is registered and counts as connected exactly as the last event that concerns him says |
| Logins.EventsHappen | src/clients/clients.c:83-98 | PASS and the closing of a slot change the flags as those events do |
| DatagramParsing.AutomatonIsGrammar | src/mp3pFunctions/mp3pFunctions.c:192-487 | Over every datagram and its NUL the automaton ends in a command's state exactly on header, version, 32 alphanumerics, 32 alphanumerics and one of the nine command shapes; in INVALID_COMMAND exactly when all but the command is right; in BADAUTH exactly when version and id are right and no key line follows; and in one of these or DISCARD always |
| DatagramParsing.FormDecides | src/mp3pFunctions/mp3pFunctions.c:192-487 | Each form of a datagram leads to its state, for acceptance the state of that very command, whatever earlier datagrams left in the static variable |
| DatagramParsing.SomeForm | src/mp3pFunctions/mp3pFunctions.c:192-487 | Every datagram has one of the forms |
| DatagramParsing.StaticVariableIsHarmless | src/mp3pFunctions/mp3pFunctions.c:194 | What the static variable held before never affects the outcome |
| DatagramGrammar.HeadReads | src/mp3pFunctions/mp3pFunctions.c:196-268 | A well-formed head is read, with any number of digits in the version |
| DatagramGrammar.HeadParts | src/mp3pFunctions/mp3pFunctions.c:196-268 | A text whose head is read is a well-formed head and a rest; any other is discarded |
| DatagramGrammar.TokenLineRun | src/mp3pFunctions/mp3pFunctions.c:248-284 | A token is read exactly when it is 32 alphanumerics and a newline |
| DatagramGrammar.CommandReads | src/mp3pFunctions/mp3pFunctions.c:287-484 | A printed command and its NUL are accepted as that command, and discarded when anything follows the NUL |
| DatagramGrammar.CommandRun | src/mp3pFunctions/mp3pFunctions.c:287-484 | Any text in the command's place is a command and a NUL, or is refused |
| DatagramFields.TextsFound | src/mp3pFunctions/mp3pFunctions.c:499-564 | The searches of the second pass find exactly the texts of the form the automaton read; they leave the datagram only when a malformed key has no newline behind it |
| DatagramFields.CommandFields | src/mp3pFunctions/mp3pFunctions.c:521-541 | First-space and last-space searches find the words the automaton read |
| DatagramFields.HeadFields | src/mp3pFunctions/mp3pFunctions.c:499-519 | The first V and the newlines delimit version and id |
| DatagramHeaders.ParseMeaning | src/mp3pFunctions/mp3pFunctions.c:543-642 | For every datagram the loop can read to its end, whatever the headers held: a discarded form is discarded; a form whose copies stay inside the headers fills them with what is then read back and selects the strategy that form, version and key call for; any other runs off |
| DatagramHeaders.RecoveredExactly | src/mp3pFunctions/mp3pFunctions.c:543-564 | All fields of a well-formed datagram come back as they were sent if and only if no copy runs off, the version is shorter than 128 bytes, and a user name with a password behind it is shorter than 256, unless the password equals what was cut off |
| DatagramHeaders.ThreeTexts | src/mp3pFunctions/mp3pFunctions.h:12-18 | In the order of the copies, the key cuts off a version that ran into it and runs over the id when it has 512 bytes or more |
| DatagramHeaders.TwoTexts | src/mp3pFunctions/mp3pFunctions.h:12-18 | The password cuts off a user name of 256 bytes or more that ran into its field, and is read as a part of it |
| DatagramHeaders.StoredUserExactly | src/mp3pFunctions/mp3pFunctions.c:521-541 | The user name comes back exactly when it fits or the password is what was cut off |
| DatagramHeaders.StoredVersionExactly | src/mp3pFunctions/mp3pFunctions.c:490-492 | The version comes back exactly when it fits, and a longer one is never taken for V1.0 |
| DatagramReplies.AlwaysAStrategy | src/mp3pFunctions/mp3pFunctions.c:596-640 | A datagram within the receive limit that is neither discarded nor runs off always selects a strategy |
| DatagramReplies.UsersChangeExactly | src/mp3pFunctions/mp3pFunctions.c:144-167 | When no copy runs off, passwords change by exactly the AU, MP or DU of a well-formed datagram with the right version and key, carried out with the user name that is read back, and by nothing else; the names stay unique |
| DatagramReplies.UsersAfterExactly | src/mp3pFunctions/mp3pFunctions.c:144-167 | The users are then those after one insertion or password change for AU, one password change for MP, one deletion for DU, and the same users after any other datagram, connected flags and order included |
| DatagramReplies.NewUserListedFirst | src/users/users.c:91-98 | LU lists a user that was added in front of those that were there |
| DatagramReplies.ReplyExactly | src/mp3pFunctions/mp3pFunctions.c:98-190 | Each form is answered with its own code (200, 100, 101, 102, 103, 104), the id that is read back, and the counter, user list or capabilities it asked for; there is no reply to a discarded datagram; the outcome is open exactly when a copy runs off or the list of users is longer than 2001 bytes |
| DatagramReplies.AnswerFits | src/server/serverUtils.c:397-417 | Of all replies only the list of users can be too long for the buffer, and is so exactly above 2001 bytes |
| DatagramReplies.SetPasswordExactly | src/mp3pFunctions/mp3pFunctions.c:159-167 | After an AU with the right version and key the password given is the only valid one of the user named if and only if the copies stay inside the headers and the name fits its field, or the password is what was cut off or was valid before |
| DatagramReplies.LongNameIsMixed | src/mp3pFunctions/mp3pFunctions.c:521-530 | A name of 300 letters with the password p is stored as 256 letters and a p |
| DatagramReplies.LongKeyLineReplacesId | src/mp3pFunctions/mp3pFunctions.c:512-519 | A key line of 600 letters leaves 88 of them in the place of the id |
| DatagramReplies.FourUsersTooLong | src/users/users.c:102-109 | Four users with the longest names there can be overrun the reply to LU |
| DatagramReplies.ListingTells | src/users/users.c:102-109 | Two lists of users give the same text only if they agree in names and passwords, when no name holds a space |
| DatagramReplies.AnswerToLuTells | src/mp3pFunctions/mp3pFunctions.c:169-173 | After any two histories of datagrams, the same answer to LU means the same users and passwords |
| DatagramClient.AcceptedExactly | Client-interface/main.c:276-287 | The reply to a datagram passes the check for a 32-character id exactly when that id and the one read back agree as far as both go |
| DatagramClient.OnlyTheSenderAccepts | Client-interface/main.c:276-287 | It passes for the id it answers and for no other if and only if the id read back begins with the id sent, which holds unless a malformed key has 512 bytes or more |
| DatagramClient.ReplyMatches | Client-interface/main.c:276-287 | A status reply passes the check for an id exactly when its id line and the id agree as far as both go |
| DatagramClient.ShortIdLineMatches | Client-interface/main.c:280-284 | The check passes any line that is a beginning of the id, an empty one too |
| DatagramClient.DocumentedAnswers | Client-interface/main.c:203-217 | The client's datagrams with its own version and key get 200 (102 when the password of an unknown user is changed), with option -WV 101, with -BA 100, with -MA 103 whatever the version, each with the request's id |
| DatagramClient.NoCommandAnswer | src/mp3pFunctions/mp3pFunctions.c:180-182 | A text that is no command gets 104 before version and key are looked at |
| DatagramClient.CapabilitiesAreComplete | src/mp3pFunctions/mp3pFunctions.c:184-190 | The answer to LC names every command |
| DatagramServer.CheckValidRequestId | Client-interface/main.c:276-287 | The comparing loop stays within the received text and decides that relation; a text without a newline is a case of its own |
| DatagramServer.DatagramParser.ParseHeadCharacter | src/mp3pFunctions/mp3pFunctions.c:196-284 | The branches for header, version, id and key, with the two counters |
| DatagramServer.DatagramParser.ParseCommandCharacter | src/mp3pFunctions/mp3pFunctions.c:287-414 | The branches for the command letters, with the static variable |
| DatagramServer.DatagramParser.ParseArgumentCharacter | src/mp3pFunctions/mp3pFunctions.c:416-484 | The branches for the arguments, and DISCARD behind a complete command |
| DatagramServer.DatagramParser.ParseCharacter | src/mp3pFunctions/mp3pFunctions.c:192-487 | One character: new state, counters and static variable |
| DatagramServer.DatagramParser.ScanDatagram | src/mp3pFunctions/mp3pFunctions.c:573-578 | The loop stops at an error state or at the limit, as the run on values does |
| DatagramServer.DatagramParser.SelectStrategy | src/mp3pFunctions/mp3pFunctions.c:587-640 | The version check before the key check, neither of them for a malformed datagram, and the switch |
| DatagramServer.DatagramParser.ParseDatagram | src/mp3pFunctions/mp3pFunctions.c:568-642 | Fills the headers in place and selects the strategy, as specified |
| DatagramServer.Copy | src/mp3pFunctions/mp3pFunctions.c:512-541 | Copies bytes into the headers from one place on, up to a newline or to a space or NUL, and reports when it would leave the datagram or the headers |
| DatagramServer.CopyVersion | src/mp3pFunctions/mp3pFunctions.c:499-510 | Copies from the first V to the end of its line |
| DatagramServer.CopyWord | src/mp3pFunctions/mp3pFunctions.c:521-541 | Copies the word behind a space |
| DatagramServer.FillThree | src/mp3pFunctions/mp3pFunctions.c:543-552 | Version, id and key, in the order of the source |
| DatagramServer.FillHeaders | src/mp3pFunctions/mp3pFunctions.c:543-564 | All copies in order, the words only for the commands that have them |
| DatagramServer.Server.RunStrategy | src/mp3pFunctions/mp3pFunctions.c:108-190 | Each strategy's reply and its effect on the user list, with the strings read from the headers |
| DatagramServer.Server.AddUserReply | src/mp3pFunctions/mp3pFunctions.c:159-167 | Inserts, or changes the password of an existing user |
| DatagramServer.Server.ModifyUserReply | src/mp3pFunctions/mp3pFunctions.c:150-157 | Changes the password, or answers 102 |
| DatagramServer.Server.ListUsersReply | src/users/users.c:102-109 | One line a user, in list order |
| DatagramServer.Server.HandleUdpRequest | src/server/serverUtils.c:396-418 | Receives into the fixed buffer, appends the NUL, parses, runs the strategy: users and reply are those of the specification, a reply that overruns the buffer included |

## Left out

- Sockets, select, signals, argument parsing, logging and address printing: recv is a piece of any contents, send any count or a failure.
- The loop over the slots in `handleClients` and the search for a free slot: one slot is modelled; others can change the users and files it finds at each step.
- The two descriptor sets: a slot is in the set its client state asks for, so a step reads or writes but does not choose.
- Directory scanning, `stat`, path building and `ferror`: a user's mails are a sequence of file contents that does not change while the session is open, and `unlink` records the number of the mail.
- `fopen` failing, `malloc` failing and the NULL checks of the mail cache, which no caller in the model can meet.
- A file is a value with an offset; what `fread` gives is the rest of it, up to the number asked for.
- `atoi` on numbers too large for 64 bits follows the C library the server is built with: it saturates at 64 bits and is cut to 32.
- The receive buffer can hold anything behind the data, but its last place is taken to hold a NUL; without one the discarding loop would leave the buffer.
- The contents of a `mailInfo` before it is first written are a parameter of the step (`stale`).
- The argument and command buffers of the parser are text fields that grow; the bounds the parser checks are modelled.
- What a server does after a copy has left the headers or the datagram, or after a reply has overrun its buffer: the outcome is called open there.
- The statistics counters: a datagram reads a snapshot of them, and how they are kept is not modelled.
- `destroyList` and `freeCache` as traversals: closing a slot drops the list and the cache in one step.
- `initializeUserSingleton`: users given on the command line are inserts like any others.
- The monitoring client's menu, random ids, retries and timeouts.
- UserList.UserList.RemoveAllUserNodes: does not state that each node was freed once, only that the list is empty.
- Client.Client.Drain: the auxiliary buffer lives on the stack of one call and is a fresh array here.
- MailCache.MailCache.GetNCharsFromMail: does not model `ferror`, nor the refusals that no caller can meet.
- MailCache.MailCache.OpenMail: does not model a failing `fopen`.
- Client.Client.CloseSlot: does not state that the nodes of the list and the mails of the cache are freed.
- UserList.UserList.DeleteUserNode: does not state that the removed node is freed.
