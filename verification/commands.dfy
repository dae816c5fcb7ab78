/** The prefix-triggered command router: which messages it accepts, how it
    turns a chat line into a command dispatch, its table of commands, and
    the writer a command uses to answer. Locking and the concurrent
    invocation of commands are not modelled: `Handle` returns the dispatch
    it would start. */
module Commands {
  import opened Wrappers
  import opened Strings
  import opened Message

  /** Go's `byte`. */
  newtype byte = x: int | 0 <= x < 256

  /** A registered command: a user's `Cmd` object, or a bare `CmdFunc`
      wrapped in the package's shim. Both are opaque identifiers here. */
  datatype Cmd = Object(id: nat) | Shim(cmdFunc: nat)

  /** The user code a `Respond` call runs: an object's own `Respond`
      method, or a bare command function. */
  datatype Callee = ObjectRespond(id: nat) | CmdFunc(id: nat)

  /** The writer handed to a command; it answers to one receiver. The
      outgoing channel it is bound to is not modelled. */
  datatype ResponseWriter = ResponseWriter(receiver: string)

  /** One invocation of user code with its three arguments. */
  datatype Call = Call(callee: Callee, body: string, source: string, writer: ResponseWriter)

  /** A command router: a fixed prefix and the table of commands. */
  datatype CmdHandler = CmdHandler(prefix: string, cmds: map<string, Cmd>)

  /** What `Handle` starts: the command found, its body, the sender's nick
      and a writer for the receiver. */
  datatype Dispatch = Dispatch(cmd: Cmd, body: string, source: string, writer: ResponseWriter)

  /** The result of one `Write`: the message put on the outgoing channel,
      the byte count and the error. */
  datatype WriteResult = WriteResult(sent: Msg, n: int, err: Option<string>)

  // ---------------------------------------------------------------------
  // Commands and the response writer
  // ---------------------------------------------------------------------

  /** Invokes a command. The shim passes body, source and writer to the
      wrapped function unchanged. */
  function Respond(c: Cmd, body: string, source: string, w: ResponseWriter): (r: Call)
    ensures r.body == body && r.source == source && r.writer == w
    ensures c.Shim? ==> r.callee == CmdFunc(c.cmdFunc)
    ensures c.Object? ==> r.callee == ObjectRespond(c.id)
  {
    match c
    case Object(id) => Call(ObjectRespond(id), body, source, w)
    case Shim(f) => Call(CmdFunc(f), body, source, w)
  }

  /** Go's string conversion of a byte slice: one character per byte. */
  function BytesToString(p: seq<byte>): (s: string)
    ensures |s| == |p|
    ensures forall i :: 0 <= i < |p| ==> s[i] as int == p[i] as int
  {
    seq(|p|, i requires 0 <= i < |p| => (p[i] as int) as char)
  }

  /** One write becomes exactly one PRIVMSG to the writer's receiver with
      the written bytes as text; the whole count is reported, never an
      error. */
  function Write(w: ResponseWriter, p: seq<byte>): (r: WriteResult)
    ensures r.n == |p| && r.err == None
    ensures r.sent.prefix == ""
    ensures ExtractPrivmsg(r.sent) == Success((w.receiver, BytesToString(p)))
  {
    WriteResult(Msg("", "", "PRIVMSG", [w.receiver, BytesToString(p)]), |p|, None)
  }

  /** The line a write puts on the wire parses back, at the other end, to a
      PRIVMSG with the receiver and the written text, provided the
      receiver is a single word not starting with ':' and something was
      written. */
  lemma WriteOnWire(w: ResponseWriter, p: seq<byte>)
    requires ' ' !in w.receiver && (w.receiver == "" || w.receiver[0] != ':')
    requires |p| > 0
    ensures ParseMsg(Format(Write(w, p).sent)).Success?
    ensures ExtractPrivmsg(ParseMsg(Format(Write(w, p).sent)).value)
         == Success((w.receiver, BytesToString(p)))
  {
    var m := Write(w, p).sent;
    assert m.params[|m.params| - 1] == BytesToString(p);
    ParseFormat(m);
  }

  // ---------------------------------------------------------------------
  // Accepting and handling messages
  // ---------------------------------------------------------------------

  /** A new router with the given prefix and no commands: it dispatches
      nothing until something is registered. */
  function NewCmdHandler(prefix: string): (r: CmdHandler)
    ensures r.prefix == prefix
    ensures r.cmds == map[]
    ensures forall msg :: Handle(r, msg) == None
  {
    CmdHandler(prefix, map[])
  }

  /** The router takes a PRIVMSG with exactly two parameters whose text
      starts with the prefix: exactly the messages that pass the PRIVMSG
      extraction `Handle` begins with and whose text carries the prefix. */
  predicate Accepts(h: CmdHandler, msg: Msg): (b: bool)
    ensures b <==> ExtractPrivmsg(msg).Success? && HasPrefix(ExtractPrivmsg(msg).value.1, h.prefix)
  {
    msg.cmd == "PRIVMSG" && |msg.params| == 2 && HasPrefix(msg.params[1], h.prefix)
  }

  /** The command name and body of a chat text: the first space-separated
      word with the prefix removed once, and what follows the first space
      (nothing when there is no space). The name never contains a space. */
  function SplitCommand(prefix: string, text: string): (r: (string, string))
    ensures ' ' !in r.0
    ensures ' ' !in text ==> r == (TrimPrefix(text, prefix), "")
  {
    var nameAndBody := SplitN(text, " ", 2);
    FirstWord(text);
    ContainsChar(text, ' ');
    TrimPrefixKeepsAbsent(nameAndBody[0], prefix, ' ');
    var name := TrimPrefix(nameAndBody[0], prefix);
    var body := if |nameAndBody| > 1 then nameAndBody[1] else "";
    (name, body)
  }

  /** A text with a space splits at its first space: the name is the text
      before it, minus the prefix once, and the body is everything after
      it, further spaces included. */
  lemma SplitCommandAtSpace(prefix: string, text: string, i: nat)
    requires i < |text| && text[i] == ' ' && ' ' !in text[..i]
    ensures SplitCommand(prefix, text) == (TrimPrefix(text[..i], prefix), text[i + 1..])
  {
    var word := text[..i];
    assert text == word + " " + text[i + 1..];
    SplitCommandOf(prefix, word, Some(text[i + 1..]));
  }

  /** Splitting a text at its first space: the first word, without any
      space, and what follows that space, if there is one. */
  lemma FirstWord(text: string)
    ensures var parts := SplitN(text, " ", 2);
      var i := Index(text, " ");
      && ' ' !in parts[0]
      && (i < 0 ==> parts == [text])
      && (i >= 0 ==> parts == [text[..i], text[i + 1..]])
  {
    var i := Index(text, " ");
    if i >= 0 {
      FirstPieceFree(text, " ");
      ContainsChar(text[..i], ' ');
    } else {
      ContainsChar(text, ' ');
    }
  }

  /** The router's decision on one message: dispatch the command named by
      the text, or nothing when the message is not a two-parameter
      PRIVMSG, its prefix has no nick, or the name is not registered. */
  function Handle(h: CmdHandler, msg: Msg): (r: Option<Dispatch>)
    ensures r.Some? ==> msg.cmd == "PRIVMSG" && |msg.params| == 2 && '!' in msg.prefix
    ensures r.Some? ==> r.value.writer == ResponseWriter(msg.params[0])
    ensures r.Some? ==> r.value.cmd in h.cmds.Values
  {
    match ExtractPrivmsg(msg)
    case Failure(_) => None
    case Success((receiver, text)) =>
      var (name, body) := SplitCommand(h.prefix, text);
      match ExtractNick(msg)
      case Failure(_) => None
      case Success(source) =>
        if name in h.cmds then Some(Dispatch(h.cmds[name], body, source, ResponseWriter(receiver)))
        else None
  }

  /** Every chat text is a first word without spaces, optionally followed by
      a space and the rest: the name is that word with the prefix removed
      once, the body is the rest or "". */
  lemma SplitCommandOf(prefix: string, word: string, rest: Option<string>)
    requires ' ' !in word
    ensures SplitCommand(prefix, word + (if rest.Some? then " " + rest.value else ""))
         == (TrimPrefix(word, prefix), rest.GetOr(""))
  {
    ContainsChar(word, ' ');
    if rest.Some? {
      assert word + (" " + rest.value) == word + " " + rest.value;
      SplitNAt(word, " ", rest.value);
    } else {
      assert word + "" == word;
      var parts := SplitN(word, " ", 2);
      assert |parts| == 1;
      assert Join(parts, " ") == parts[0];
    }
  }

  /** Nothing is dispatched exactly when the message is not a two-parameter
      PRIVMSG, its prefix has no '!', or its command name is not in the
      table. */
  lemma HandleRejects(h: CmdHandler, msg: Msg)
    ensures Handle(h, msg).None? <==>
      || msg.cmd != "PRIVMSG" || |msg.params| != 2 || '!' !in msg.prefix
      || SplitCommand(h.prefix, msg.params[1]).0 !in h.cmds
  {
  }

  /** A two-parameter PRIVMSG from `nick!userHost` dispatches exactly the
      table entry for the first word of its text, minus the prefix, with
      the rest of the text as body, the nick as source and a writer for the
      first parameter; an unregistered name dispatches nothing. */
  lemma HandleCommand(h: CmdHandler, raw: string, nick: string, userHost: string,
                      receiver: string, word: string, rest: Option<string>)
    requires '!' !in nick && ' ' !in word
    ensures var text := word + (if rest.Some? then " " + rest.value else "");
      var msg := Msg(raw, nick + "!" + userHost, "PRIVMSG", [receiver, text]);
      var name := TrimPrefix(word, h.prefix);
      Handle(h, msg) ==
        if name in h.cmds
        then Some(Dispatch(h.cmds[name], rest.GetOr(""), nick, ResponseWriter(receiver)))
        else None
  {
    var text := word + (if rest.Some? then " " + rest.value else "");
    var msg := Msg(raw, nick + "!" + userHost, "PRIVMSG", [receiver, text]);
    SplitCommandOf(h.prefix, word, rest);
    ExtractNickOf(raw, nick, userHost, "PRIVMSG", [receiver, text]);
  }

  /** With an empty prefix, every two-parameter PRIVMSG is accepted. */
  lemma AcceptsWithEmptyPrefix(msg: Msg)
    ensures Accepts(NewCmdHandler(""), msg) <==> msg.cmd == "PRIVMSG" && |msg.params| == 2
  {
  }

  /** An accepted message passes the PRIVMSG extraction `Handle` repeats. */
  lemma AcceptedIsPrivmsg(h: CmdHandler, msg: Msg)
    requires Accepts(h, msg)
    ensures ExtractPrivmsg(msg) == Success((msg.params[0], msg.params[1]))
  {
  }

  /** When the prefix has no space, the text of an accepted message starts
      with the prefix followed by the command name, so the name `Handle`
      looks up is the first word with the prefix removed. */
  lemma AcceptedCommandName(h: CmdHandler, msg: Msg)
    requires Accepts(h, msg) && ' ' !in h.prefix
    ensures var name := SplitCommand(h.prefix, msg.params[1]).0;
      ' ' !in name && HasPrefix(msg.params[1], h.prefix + name)
  {
    var text := msg.params[1];
    var word := SplitN(text, " ", 2)[0];
    FirstWord(text);
    var i := Index(text, " ");
    var tail := text[|word|..];
    if i >= 0 {
      assert text[i..i + 1] == " ";
    }
    assert text == word + tail;
    PrefixWithinWord(h.prefix, word, tail);
  }

  /** A prefix without spaces that starts `word + tail`, where `word` has no
      space and `tail` is empty or starts with one, lies within `word`. */
  lemma PrefixWithinWord(prefix: string, word: string, tail: string)
    requires ' ' !in prefix && ' ' !in word
    requires tail == "" || tail[0] == ' '
    requires HasPrefix(word + tail, prefix)
    ensures HasPrefix(word, prefix)
    ensures HasPrefix(word + tail, prefix + TrimPrefix(word, prefix))
  {
    var text := word + tail;
    assert forall k :: 0 <= k < |prefix| ==> prefix[k] == text[k];
    if tail != "" {
      assert text[|word|] == ' ';
    }
    assert |prefix| <= |word|;
    assert word[..|prefix|] == text[..|prefix|];
    assert text[..|word|] == word;
  }

  // ---------------------------------------------------------------------
  // The command table
  // ---------------------------------------------------------------------

  /** Registration overwrites any earlier entry for `name` without error and
      leaves every other entry and the prefix alone. */
  function Register(h: CmdHandler, name: string, c: Cmd): (r: CmdHandler)
    ensures r.prefix == h.prefix
    ensures name in r.cmds && r.cmds[name] == c
    ensures r.cmds.Keys == h.cmds.Keys + {name}
    ensures forall n :: n in h.cmds && n != name ==> r.cmds[n] == h.cmds[n]
  {
    h.(cmds := h.cmds[name := c])
  }

  /** Registering a bare function installs a shim under `name` whose
      `Respond` calls that function with its arguments unchanged. */
  function RegisterFunc(h: CmdHandler, name: string, cmdFunc: nat): (r: CmdHandler)
    ensures r.prefix == h.prefix
    ensures r.cmds.Keys == h.cmds.Keys + {name}
    ensures name in r.cmds && forall body, source, w ::
      Respond(r.cmds[name], body, source, w) == Call(CmdFunc(cmdFunc), body, source, w)
    ensures forall n :: n in h.cmds && n != name ==> r.cmds[n] == h.cmds[n]
  {
    Register(h, name, Shim(cmdFunc))
  }

  /** The names in the table, each once, in no particular order. */
  method RegisteredNames(h: CmdHandler) returns (names: seq<string>)
    ensures forall n :: n in names <==> n in h.cmds
    ensures forall i, j :: 0 <= i < j < |names| ==> names[i] != names[j]
    ensures |names| == |h.cmds|
  {
    names := [];
    var left := h.cmds.Keys;
    while left != {}
      invariant left <= h.cmds.Keys
      invariant forall n :: n in names <==> n in h.cmds.Keys - left
      invariant forall i, j :: 0 <= i < j < |names| ==> names[i] != names[j]
      invariant |names| + |left| == |h.cmds.Keys|
      decreases |left|
    {
      var n :| n in left;
      assert n !in names;
      names := names + [n];
      left := left - {n};
    }
  }

  /** A second registration under the same name replaces the first. */
  lemma LastRegistrationWins(h: CmdHandler, name: string, first: Cmd, second: Cmd)
    ensures Register(Register(h, name, first), name, second) == Register(h, name, second)
  {
    var a := Register(Register(h, name, first), name, second).cmds;
    var b := Register(h, name, second).cmds;
    assert a.Keys == b.Keys;
    assert forall n :: n in a ==> a[n] == b[n];
  }

  /** After registering `c` under `name`, a command message naming `name`
      from a sender with a nick dispatches `c`. */
  lemma HandleAfterRegister(h: CmdHandler, name: string, c: Cmd, msg: Msg)
    requires msg.cmd == "PRIVMSG" && |msg.params| == 2 && '!' in msg.prefix
    requires SplitCommand(h.prefix, msg.params[1]).0 == name
    ensures Handle(Register(h, name, c), msg).Some?
    ensures Handle(Register(h, name, c), msg).value.cmd == c
  {
  }

  /** Registrations applied one after another, as the table's lock
      serializes concurrent calls. */
  function RegisterAll(h: CmdHandler, entries: seq<(string, Cmd)>): CmdHandler
    decreases |entries|
  {
    if |entries| == 0 then h
    else RegisterAll(Register(h, entries[0].0, entries[0].1), entries[1..])
  }

  /** The names of a list of registrations. */
  function Names(entries: seq<(string, Cmd)>): set<string>
  {
    set i | 0 <= i < |entries| :: entries[i].0
  }

  /** The names of a non-empty list: the first one and those of the rest. */
  lemma NamesCons(entries: seq<(string, Cmd)>)
    requires |entries| > 0
    ensures Names(entries) == {entries[0].0} + Names(entries[1..])
  {
    forall n | n in Names(entries) ensures n in {entries[0].0} + Names(entries[1..]) {
      var i :| 0 <= i < |entries| && entries[i].0 == n;
      if i > 0 {
        assert entries[1..][i - 1].0 == n;
      }
    }
    forall n | n in Names(entries[1..]) ensures n in Names(entries) {
      var i :| 0 <= i < |entries[1..]| && entries[1..][i].0 == n;
      assert entries[i + 1].0 == n;
    }
  }

  /** Registrations add exactly their names to the table, and leave the
      entries of all other names alone. */
  lemma {:induction false} RegisterAllFrame(h: CmdHandler, entries: seq<(string, Cmd)>)
    ensures RegisterAll(h, entries).cmds.Keys == h.cmds.Keys + Names(entries)
    ensures forall n :: n in h.cmds && n !in Names(entries) ==>
      RegisterAll(h, entries).cmds[n] == h.cmds[n]
    decreases |entries|
  {
    if |entries| > 0 {
      NamesCons(entries);
      RegisterAllFrame(Register(h, entries[0].0, entries[0].1), entries[1..]);
    }
  }

  /** No registration is lost: in whatever order registrations under
      distinct names are serialized, every name ends up in the table with
      its own command. */
  lemma {:induction false} RegisterAllKeepsEvery(h: CmdHandler, entries: seq<(string, Cmd)>)
    requires forall i, j :: 0 <= i < j < |entries| ==> entries[i].0 != entries[j].0
    ensures forall i :: 0 <= i < |entries| ==>
      entries[i].0 in RegisterAll(h, entries).cmds
      && RegisterAll(h, entries).cmds[entries[i].0] == entries[i].1
    decreases |entries|
  {
    RegisterAllFrame(h, entries);
    if |entries| > 0 {
      var h' := Register(h, entries[0].0, entries[0].1);
      var rest := entries[1..];
      RegisterAllKeepsEvery(h', rest);
      RegisterAllFrame(h', rest);
      assert entries[0].0 !in Names(rest) by {
        forall k | 0 <= k < |rest| ensures rest[k].0 != entries[0].0 {
          assert rest[k] == entries[k + 1];
        }
      }
      forall i | 0 < i < |entries|
        ensures RegisterAll(h, entries).cmds[entries[i].0] == entries[i].1
      {
        assert rest[i - 1] == entries[i];
      }
    }
  }

  // ---------------------------------------------------------------------
  // From a message to the replies on the wire
  // ---------------------------------------------------------------------

  /** The messages a list of writes becomes, one per write. */
  function Writes(w: ResponseWriter, payloads: seq<seq<byte>>): (r: seq<Msg>)
    ensures |r| == |payloads|
    ensures forall i :: 0 <= i < |r| ==> r[i] == Write(w, payloads[i]).sent
  {
    seq(|payloads|, i requires 0 <= i < |payloads| => Write(w, payloads[i]).sent)
  }

  /** The replies one message causes, given what each invocation of user
      code writes: nothing unless a command is dispatched, and otherwise
      one PRIVMSG to the message's first parameter per write. */
  function Replies(h: CmdHandler, msg: Msg, writesOf: Call -> seq<seq<byte>>): (r: seq<Msg>)
    ensures Handle(h, msg).None? ==> r == []
    ensures forall i :: 0 <= i < |r| ==>
      |msg.params| == 2 && ExtractPrivmsg(r[i]).Success? && r[i].params[0] == msg.params[0]
    ensures Handle(h, msg).Some? ==>
      var d := Handle(h, msg).value;
      var writes := writesOf(Respond(d.cmd, d.body, d.source, d.writer));
      && |r| == |writes|
      && forall i :: 0 <= i < |r| ==> r[i] == Write(d.writer, writes[i]).sent
  {
    match Handle(h, msg)
    case None => []
    case Some(d) => Writes(d.writer, writesOf(Respond(d.cmd, d.body, d.source, d.writer)))
  }

  /** A command message whose name is not in the table dispatches nothing
      and so causes no reply, whatever user code would have written. */
  lemma UnregisteredIsSilent(h: CmdHandler, msg: Msg, writesOf: Call -> seq<seq<byte>>)
    requires |msg.params| == 2
    requires SplitCommand(h.prefix, msg.params[1]).0 !in h.cmds
    ensures Handle(h, msg) == None
    ensures Replies(h, msg, writesOf) == []
  {
  }

  // ---------------------------------------------------------------------
  // Examples
  // ---------------------------------------------------------------------

  lemma SplitCommandExampleWithBody()
    ensures SplitCommand("!", "!echo hi there") == ("echo", "hi there")
  {
    var word := "!echo";
    assert ' ' !in word;
    assert word + " " + "hi there" == "!echo hi there";
    assert word[..1] == "!" && word[1..] == "echo";
    SplitCommandOf("!", word, Some("hi there"));
  }

  lemma SplitCommandExampleBare()
    ensures SplitCommand("!", "!echo") == ("echo", "")
  {
    var word := "!echo";
    assert ' ' !in word;
    assert word + "" == word;
    assert word[..1] == "!" && word[1..] == "echo";
    SplitCommandOf("!", word, None);
  }

  /** The prefix is removed once only. */
  lemma SplitCommandExampleDoublePrefix()
    ensures SplitCommand("!", "!!echo") == ("!echo", "")
  {
    var word := "!!echo";
    assert ' ' !in word;
    assert word + "" == word;
    assert word[..1] == "!" && word[1..] == "!echo";
    SplitCommandOf("!", word, None);
  }
}
