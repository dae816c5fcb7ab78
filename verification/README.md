# IRC message codec and command router, in Dafny

This project models the text-protocol core of a small Go IRC bot framework.
It has two parts.

- **The message codec** (`msg.go`). This is the `Msg` record (raw line,
  prefix, command, parameters). It covers:
  - `ParseMsg`, which splits one line into an optional `:prefix`, a
    command, space-separated middle parameters and a trailing parameter
    introduced by `" :"`;
  - the formatter `String`/`paramsString`;
  - the two field extractors, `ExtractPrivmsg` and `ExtractNick`.
- **The command router** (`cmd.go`). It covers:
  - `Accepts`;
  - the decision `Handle` makes: take the receiver and the text of a
    PRIVMSG, split off the first word, strip the command prefix once, take
    the sender's nick from the prefix, and look up the name;
  - the command table with `Register`, `RegisterFunc` and
    `RegisteredNames`;
  - the response writer, which turns every `Write` into one PRIVMSG;
  - the pass-through shim that wraps a bare `CmdFunc`.

Go strings are byte strings. Here they are Dafny `string`s, one character
per byte. The helpers of Go's `strings` package that the code calls are
modelled in module `Strings`: `Contains`, `HasPrefix`, `TrimPrefix`,
`TrimLeft`, `TrimSpace`, `SplitN` and `Split`. The module also models
`Index`, `TrimRight` and `Join`. The code does not call these three
directly: they define or state the behaviour of the others.

Modules:

- `Wrappers`: `Option` and `Result`.
- `Strings`: the `strings` helpers.
- `Message`: `msg.go`.
- `Commands`: `cmd.go`.

Some behaviour is not an error value in Go:

- A line that starts with `:` and contains no space makes the Go parser
  index past the end of the `SplitN` result (`msg.go:52`), which is a
  run-time panic. The model makes this a distinct outcome,
  `ParseError.IndexOutOfRange`, next to `BadMsg` (Go's `ErrBadMsg`).
- `Handle` logs and returns when extraction fails, and starts a goroutine
  when it finds a command. The model returns `None` or
  `Some(Dispatch(cmd, body, source, writer))`.
- User command code is opaque. `Respond` yields a `Call` record that names
  the user code and the three arguments it receives.
- `Replies` combines dispatch, user code and writer. What the user code
  writes is a parameter, `writesOf`.

## Model

| member | source | states |
|---|---|---|
| Strings.TrimSpace | msg.go:43 | The trimmed line is empty exactly when every character is white space. Otherwise it starts and ends with non-space. A line without surrounding space is unchanged. |
| Strings.TrimSpaceSlice | msg.go:43 | The trimmed line is the line without a run of white space at each end: line = a + trimmed + b, where a and b are all white space. |
| Strings.ContainsOccurs | msg.go:56 | strings.Contains holds exactly when the separator occurs at some position of the string. |
| Strings.HasPrefixConcat | cmd.go:57 | strings.HasPrefix holds exactly when the string is the prefix followed by some rest. |
| Strings.TrimLeft | msg.go:51 | The result is a suffix of the input. Every removed character is in the cutset. The result does not start with a cutset character, so all leading ':' go, not only one. |
| Strings.SplitN | msg.go:50 | At most n pieces, joined with the separator they give the input back. For n ≥ 2 there are two or more pieces exactly when the input contains the separator. |
| Strings.SplitNPiecesFree | msg.go:58 | No piece but the last contains the separator, and the last does not either when fewer than n pieces were made. |
| Strings.Split | msg.go:63 | At least one piece. The pieces joined with the separator give the input back, and no piece contains the separator. |
| Strings.TrimPrefix | cmd.go:70 | When the string starts with the prefix, the prefix followed by the result is the string: the prefix is removed once. Otherwise the string is unchanged. |
| Message.ParamsString | msg.go:22-33 | No parameters give "". Otherwise the result is the parameters joined by single spaces, with the last one marked by ':'. |
| Message.BuildParamsString | msg.go:23-33 | The append loop of the source computes the same text as the declarative join. |
| Message.Format | msg.go:36-39 | Every formatted line starts with ':' (the prefix is always written, even empty) and contains a space. |
| Message.FormatParses | msg.go:36-53 | The parser accepts every formatted line: it is neither blank nor a prefix without a space. |
| Message.ParseMsg | msg.go:42-70 | ErrBadMsg exactly when the trimmed line is empty. The panic outcome exactly when the line is non-blank, starts with ':' and has no space. Otherwise success, with raw equal to the trimmed line and an empty prefix when the line does not start with ':'. |
| Message.ParseAfterPrefix | msg.go:54-69 | Parsing the rest of the line keeps the raw text and the prefix already found. |
| Message.ParseMsgWithPrefix | msg.go:47-53 | A line a + ' ' + rest, where a starts with ':' and has no space, is split at that first space: the prefix is a without its leading colons, and rest is parsed for command and parameters. |
| Message.ParseMsgWithoutPrefix | msg.go:43-53 | A non-blank line not starting with ':' is parsed whole, with an empty prefix. |
| Message.ParseAfterPrefixOf | msg.go:54-68 | The trailing parameter is everything after the first " :", spaces and further " :" included. It is appended only when non-empty, after the space-split middles. |
| Message.ParseWire | msg.go:42-69 | Any line built by the grammar parses to the grammar's parts: the prefix minus leading colons, the command, the middles in order (empty middles from double spaces included) and the trailing part unless it is empty. Blank lines give ErrBadMsg. |
| Message.ParseWirePrefixed | msg.go:47-69 | The prefixed case of the grammar round trip. |
| Message.ParseWireUnprefixed | msg.go:43-69 | The unprefixed case of the grammar round trip: the prefix is "". |
| Message.FormatIsWire | msg.go:23-39 | A formatted message with parameters is the grammar line whose trailing part is its last parameter. |
| Message.ParseFormat | msg.go:23-69 | Round trip: parsing the formatted message gives back prefix, command and parameters. This holds when the last parameter is non-empty and no other field contains a space or starts with ':'. |
| Message.FormatNoParams | msg.go:23-39 | Any message without parameters formats to exactly ":" + prefix + " " + cmd + " ", whatever its fields hold. As a wire line, that is one empty middle and no trailing part. |
| Message.ParseFormatNoParams | msg.go:23-69 | A message with no parameters formats to exactly ":" + prefix + " " + cmd + " ", with the space before the empty parameter string. It parses back with the parameters [""]. |
| Message.ParseFormatEmptyLast | msg.go:54-68 | An empty last parameter is dropped on the way back. |
| Message.ParseAfterPrefixShapes | msg.go:56-65 | The command and every middle parameter come from the split on every space, so none contains a space. The split runs on the text before the first " :", so no middle parameter starts with ':'. |
| Message.SplitPiecesNoColon | msg.go:58-65 | In a text without " :", every piece of the split on spaces after the first is empty or does not start with ':'. |
| Message.ParsedPrefixShape | msg.go:48-52 | A parsed prefix contains no space and does not start with ':'. |
| Message.ParsedFieldShapes | msg.go:42-69 | Every parsed message has a prefix with no space and no leading ':', a command with no space, and middle parameters with no space and no leading ':'. These are the field conditions of the round trip, all but the non-empty last parameter. |
| Message.ExtractPrivmsg | msg.go:72-81 | Success exactly for a PRIVMSG with exactly two parameters, giving (receiver, text) = (params[0], params[1]). Otherwise the malformed-PRIVMSG error. |
| Message.ExtractNick | msg.go:83-91 | Success exactly when the prefix contains '!'. The nick contains no '!', and the prefix starts with the nick followed by '!'. |
| Message.ExtractNickOf | msg.go:84-91 | From a prefix nick + "!" + userHost, where the nick has no '!', the nick is extracted exactly. |
| Message.ParsePrivmsgLine | msg.go:42-69 | ":source PRIVMSG receiver :text" parses to prefix source, command PRIVMSG and parameters [receiver, text], with spaces in the text kept. |
| Message.ParseCommandTrailing | msg.go:42-69 | "cmd :text" parses to an empty prefix, the command and the one parameter text. |
| Message.ParseExamplePrivmsg | msg.go:42-69 | ":nick!user@host PRIVMSG #chan :hello there" parses to prefix nick!user@host, command PRIVMSG and parameters ["#chan", "hello there"]. |
| Message.ParseExamplePing | msg.go:42-69 | "PING :server1" parses to an empty prefix, command PING and parameters ["server1"]. |
| Message.ParseExampleDoubleColon | msg.go:51 | "::irc.example.net NOTICE * :hi" has prefix irc.example.net: every leading colon is removed. |
| Message.ParseExampleLeadingSpace | msg.go:43-65 | " PING" is not blank, but the split runs on the untrimmed line: an empty command and the one parameter PING. |
| Message.ParseExamplePanics | msg.go:48-52 | ":foo" reaches the out-of-range index. |
| Message.ParseExampleBlank | msg.go:43-46 | "" and "   " give ErrBadMsg. |
| Commands.Respond | cmd.go:36-39 | The shim calls the wrapped function with body, source and writer unchanged. An object's own Respond gets the same arguments. |
| Commands.BytesToString | cmd.go:18 | The conversion of the written bytes keeps the length, one character per byte with the same code. |
| Commands.Write | cmd.go:16-20 | One write is one PRIVMSG with an empty prefix, to the writer's receiver, with the written text. It reports the full length and no error. |
| Commands.WriteOnWire | cmd.go:17-20 | The line a write produces parses back, at the other end, to that PRIVMSG. This holds for a one-word receiver not starting with ':' and a non-empty payload. |
| Commands.NewCmdHandler | cmd.go:49-51 | A new handler has the given prefix and an empty table, so it dispatches nothing for any message. |
| Commands.Accepts | cmd.go:54-59 | A message is accepted exactly when it passes the PRIVMSG extraction and its text starts with the handler's prefix. |
| Commands.SplitCommand | cmd.go:69-75 | The looked-up name never contains a space. A text without a space is all name, with the prefix stripped once, and the body is "". |
| Commands.SplitCommandAtSpace | cmd.go:69-75 | At the first space of the text, the name is the text before it with the prefix stripped once, and the body is everything after it, further spaces included. |
| Commands.Handle | cmd.go:63-88 | A dispatch only ever happens for a two-parameter PRIVMSG whose prefix contains '!'. It uses a writer for params[0] and a command that is in the table. |
| Commands.SplitCommandOf | cmd.go:69-75 | A text made of a space-free first word, then optionally a space and the rest, gives as name the word with the prefix stripped once, and as body the rest or "". |
| Commands.HandleRejects | cmd.go:63-88 | Nothing is dispatched exactly when the message is not a two-parameter PRIVMSG, its prefix has no '!', or the name split off its text is not in the table. |
| Commands.HandleCommand | cmd.go:63-88 | A PRIVMSG from nick!userHost to a receiver dispatches exactly the table entry for its command name, with its body, the nick as source and a writer for the receiver. If the name is not in the table, nothing is dispatched. |
| Commands.AcceptsWithEmptyPrefix | cmd.go:54-59 | With the prefix "", every two-parameter PRIVMSG is accepted, and nothing else is. |
| Commands.AcceptedIsPrivmsg | cmd.go:54-68 | An accepted message passes the PRIVMSG extraction at the start of Handle. |
| Commands.AcceptedCommandName | cmd.go:54-70 | For a prefix without spaces, the text of an accepted message starts with the prefix and then the looked-up name, and that name has no space. |
| Commands.Register | cmd.go:99-104 | The name maps to the new command, overwriting without error. Every other entry and the prefix stay as they were. The key set gains exactly the name. |
| Commands.RegisterFunc | cmd.go:106-109 | The name maps to a shim whose Respond calls the given function with its arguments unchanged. Every other entry stays as it was. |
| Commands.RegisteredNames | cmd.go:90-97 | The returned names are exactly the table's keys, each once. |
| Commands.LastRegistrationWins | cmd.go:100-104 | Registering twice under one name is the same as registering only the second command. |
| Commands.HandleAfterRegister | cmd.go:81-87 | After registering c under a name, a command message naming it from a sender with a nick dispatches c. |
| Commands.RegisterAllFrame | cmd.go:100-104 | A sequence of registrations adds exactly its names to the table, so registration only ever adds names. Entries under all other names are unchanged. |
| Commands.RegisterAllKeepsEvery | cmd.go:100-104 | Registrations under distinct names, applied one after another in any order, lose none: each name ends up mapped to its own command. |
| Commands.Replies | cmd.go:81-87 | A message that dispatches nothing causes no reply. Otherwise there is one reply per write of the invoked user code. Reply i is the PRIVMSG that write i sends: to the message's first parameter, carrying write i's bytes. |
| Commands.UnregisteredIsSilent | cmd.go:81-87 | A command message whose name is not registered dispatches nothing and causes no reply. |
| Commands.SplitCommandExampleWithBody | cmd.go:69-75 | "!echo hi there" with prefix "!" gives name echo and body "hi there". |
| Commands.SplitCommandExampleBare | cmd.go:69-75 | "!echo" gives name echo and body "". |
| Commands.SplitCommandExampleDoublePrefix | cmd.go:70 | "!!echo" gives name !echo: the prefix is stripped once only. |

## Left out

- client.go is not part of this model. It holds the TCP connection, line reading and writing, the listener goroutine, the fan-out of messages to handlers, and `Nick`/`Join`, which are I/O and concurrency.
- The mutex of the command table and the goroutine that runs a command. The table is an immutable map, and `Handle` returns the dispatch it would start. `RegisterAll` stands for registrations serialized by the lock.
- The channel send in `Write` and its blocking. `Write` returns the message it would send.
- The `log.Println` calls in `Handle`. A logged error is a `None` dispatch.
- Commands.Register: a zero-value handler is not represented. Go code may build a handler as `&irc.CmdHandler{}` or `new(irc.CmdHandler)`, whose `cmds` map is nil. On it, `Register` panics at `cmd.go:103` (assignment to an entry in a nil map), and `RegisterFunc` panics through it at `cmd.go:108`. The lookup at `cmd.go:82` and the loop at `cmd.go:93` treat the nil map as empty. Here the table is always a map, so `Register` always succeeds; a handler comes from `NewCmdHandler` or from the `CmdHandler` constructor with a table.
- A nil command. `Register(name, nil)` stores a nil `Cmd`, and dispatching it panics at `cmd.go:85`. `RegisterFunc(name, nil)` stores a shim around a nil function, which panics at `cmd.go:38` when invoked. `Cmd` here has no nil case, so every registered command can be invoked.
- What user commands do. A command is an opaque identifier, and what it writes is a parameter of `Replies`.
- Strings.TrimSpace: removes only ASCII white space (space, tab, line feed, carriage return, vertical tab, form feed), not Go's full Unicode white-space set. It only feeds the emptiness check and the `raw` field.
- The text of Go's error values. `ErrBadMsg` is `BadMsg`, and the extractors' errors are the two constants of `ExtractError`.
- Go strings are byte strings; here one character stands for one byte, and UTF-8 is not modelled.
- The unused `Msg.Raw` of a message being sent. `Write` leaves it "", as the Go literal does.
