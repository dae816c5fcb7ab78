/** The IRC message codec: the `Msg` record, its formatter and its parser,
    and the two field extractors used by the command router. */
module Message {
  import opened Wrappers
  import opened Strings

  /** A received or to-be-sent IRC message. `raw` is the trimmed input line
      of a parsed message and is never used by the formatter. */
  datatype Msg = Msg(raw: string, prefix: string, cmd: string, params: seq<string>)

  /** `BadMsg` is the codec's only declared error (an empty line);
      `IndexOutOfRange` stands for the run-time panic the parser hits on a
      line that starts with ':' and has no space in it. */
  datatype ParseError = BadMsg | IndexOutOfRange

  /** Errors of the two field extractors. */
  datatype ExtractError = MalformedPrivmsg | NoNickInPrefix

  // ---------------------------------------------------------------------
  // Formatting
  // ---------------------------------------------------------------------

  /** The parameter list on the wire: every parameter but the last followed
      by one space, the last one always marked with ':'. */
  function ParamsString(params: seq<string>): (r: string)
    ensures |params| == 0 ==> r == ""
    ensures |params| > 0 ==>
      r == Join(params[..|params| - 1] + [":" + params[|params| - 1]], " ")
  {
    if |params| == 0 then ""
    else if |params| == 1 then ":" + params[0]
    else
      var tail := params[1..];
      var rest := ParamsString(tail);
      JoinCons(params[0], tail[..|tail| - 1] + [":" + tail[|tail| - 1]], " ");
      assert params[..|params| - 1] + [":" + params[|params| - 1]]
          == [params[0]] + (tail[..|tail| - 1] + [":" + tail[|tail| - 1]]);
      params[0] + " " + rest
  }

  /** The formatting loop as the source writes it, appending to the output
      one parameter at a time. */
  method BuildParamsString(params: seq<string>) returns (str: string)
    ensures str == ParamsString(params)
  {
    str := "";
    var i := 0;
    while i < |params|
      invariant 0 <= i <= |params|
      invariant i < |params| ==> str + ParamsString(params[i..]) == ParamsString(params)
      invariant i == |params| ==> str == ParamsString(params)
    {
      if i == |params| - 1 {
        str := str + ":" + params[i];
      } else {
        assert params[i..][1..] == params[i + 1..];
        str := str + params[i] + " ";
      }
      i := i + 1;
    }
  }

  /** The wire line for `m`: the prefix is always written, colon-marked,
      even when empty. Every formatted line is accepted by the parser. */
  function Format(m: Msg): (r: string)
    ensures |r| > 0 && r[0] == ':'
    ensures ' ' in r
  {
    var r := ":" + m.prefix + " " + m.cmd + " " + ParamsString(m.params);
    assert r[1 + |m.prefix|] == ' ';
    r
  }

  /** Every formatted line is accepted by the parser: it starts with ':'
      and has a space after the prefix. */
  lemma FormatParses(m: Msg)
    ensures ParseMsg(Format(m)).Success?
  {
    var line := Format(m);
    assert line[0] !in AsciiSpace;
    var r := ParseMsg(line);
    assert r != Failure(BadMsg);
    assert r != Failure(IndexOutOfRange);
  }

  // ---------------------------------------------------------------------
  // Parsing
  // ---------------------------------------------------------------------

  /** Parses one line. The emptiness test uses the trimmed line, but the
      split into prefix, command and parameters works on the line as given. */
  function ParseMsg(line: string): (r: Result<Msg, ParseError>)
    ensures r == Failure(BadMsg) <==> TrimSpace(line) == ""
    ensures r == Failure(IndexOutOfRange) <==>
      TrimSpace(line) != "" && HasPrefix(line, ":") && ' ' !in line
    ensures r.Success? ==> r.value.raw == TrimSpace(line)
    ensures r.Success? && !HasPrefix(line, ":") ==> r.value.prefix == ""
  {
    var raw := TrimSpace(line);
    if raw == "" then Failure(BadMsg)
    else if !HasPrefix(line, ":") then Success(ParseAfterPrefix(raw, "", line))
    else
      ContainsChar(line, ' ');
      var prefixAndRest := SplitN(line, " ", 2);
      if |prefixAndRest| < 2 then Failure(IndexOutOfRange)
      else Success(ParseAfterPrefix(raw, TrimLeft(prefixAndRest[0], ":"), prefixAndRest[1]))
  }

  /** The part of the parser after the prefix: split off the trailing
      parameter at the first " :", then split the rest on every space. */
  function ParseAfterPrefix(raw: string, prefix: string, rest: string): (m: Msg)
    ensures m.raw == raw && m.prefix == prefix
  {
    var hasTrailing := Contains(rest, " :");
    var restAndTrailing := if hasTrailing then SplitN(rest, " :", 2) else [rest];
    var trailing := if hasTrailing then restAndTrailing[1] else "";
    var cmdAndParams := Split(restAndTrailing[0], " ");
    Msg(raw, prefix, cmdAndParams[0],
        cmdAndParams[1..] + (if trailing != "" then [trailing] else []))
  }

  // ---------------------------------------------------------------------
  // The wire grammar  [":" prefix " "] cmd {" " middle} [" :" trailing]
  // ---------------------------------------------------------------------

  /** A line assembled from its grammatical parts. */
  function Wire(prefix: Option<string>, cmd: string, middles: seq<string>,
                trailing: Option<string>): string
  {
    var body := Join([cmd] + middles, " ") + (if trailing.Some? then " :" + trailing.value else "");
    if prefix.Some? then ":" + prefix.value + " " + body else body
  }

  /** The parameters a trailing part contributes: none when it is absent or
      empty. */
  function TrailingParam(trailing: Option<string>): seq<string>
  {
    if trailing.Some? && trailing.value != "" then [trailing.value] else []
  }

  /** No space in `s` is followed by ':'. */
  predicate NoSpaceColon(s: string)
  {
    forall j :: 0 <= j < |s| - 1 ==> !(s[j] == ' ' && s[j + 1] == ':')
  }

  lemma NoSpaceColonNotContains(s: string)
    requires NoSpaceColon(s)
    ensures !Contains(s, " :")
  {
    forall j | 0 <= j && j + 2 <= |s| ensures !OccursAt(s, " :", j) {
      assert s[j..j + 2] == [s[j], s[j + 1]];
    }
  }

  /** Tokens without spaces, none but the first starting with ':', join into
      a line with no trailing-parameter marker. */
  lemma {:induction false} JoinHasNoMarker(parts: seq<string>)
    requires forall i :: 0 <= i < |parts| ==> ' ' !in parts[i]
    requires forall i :: 1 <= i < |parts| ==> parts[i] == "" || parts[i][0] != ':'
    ensures NoSpaceColon(Join(parts, " "))
    decreases |parts|
  {
    if |parts| >= 2 {
      var a := parts[0];
      var b := Join(parts[1..], " ");
      var s := a + " " + b;
      JoinHasNoMarker(parts[1..]);
      assert b == "" || b[0] != ':' by {
        if |parts| > 2 {
          JoinCons(parts[1], parts[2..], " ");
          assert parts[1..] == [parts[1]] + parts[2..];
        }
      }
      forall j | 0 <= j < |s| - 1 ensures !(s[j] == ' ' && s[j + 1] == ':') {
        if j < |a| {
          assert s[j] == a[j];
        } else if j > |a| {
          assert s[j] == b[j - |a| - 1] && s[j + 1] == b[j - |a|];
        }
      }
    }
  }

  /** Parsing the part after the prefix, for a command-and-middle segment
      `head` with no trailing marker, followed by an optional trailing part. */
  lemma ParseAfterPrefixOf(raw: string, prefix: string, head: string, trailing: Option<string>)
    requires !Contains(head, " :")
    ensures ParseAfterPrefix(raw, prefix, head + (if trailing.Some? then " :" + trailing.value else ""))
         == Msg(raw, prefix, Split(head, " ")[0], Split(head, " ")[1..] + TrailingParam(trailing))
  {
    if trailing.Some? {
      var rest := head + (" :" + trailing.value);
      assert rest == head + " :" + trailing.value;
      SplitNAt(head, " :", trailing.value);
      assert SplitN(rest, " :", 2) == [head, trailing.value];
      assert Contains(rest, " :");
    } else {
      assert head + "" == head;
    }
  }

  /** Parsing the part after the prefix recovers the command, the middle
      parameters and a non-empty trailing parameter. */
  lemma ParseAfterPrefixWire(raw: string, prefix: string, cmd: string,
                             middles: seq<string>, trailing: Option<string>)
    requires ' ' !in cmd
    requires forall i :: 0 <= i < |middles| ==>
      ' ' !in middles[i] && (middles[i] == "" || middles[i][0] != ':')
    ensures ParseAfterPrefix(raw, prefix, Wire(None, cmd, middles, trailing))
         == Msg(raw, prefix, cmd, middles + TrailingParam(trailing))
  {
    var parts := [cmd] + middles;
    var head := Join(parts, " ");
    assert forall i :: 0 <= i < |parts| ==> ' ' !in parts[i];
    JoinHasNoMarker(parts);
    NoSpaceColonNotContains(head);
    SplitOfJoin(parts, ' ');
    assert Split(head, " ") == parts;
    assert Wire(None, cmd, middles, trailing)
        == head + (if trailing.Some? then " :" + trailing.value else "");
    ParseAfterPrefixOf(raw, prefix, head, trailing);
  }

  /** A line that starts with a space-free ':'-marked segment `a` followed
      by a space: `a` without its colons is the prefix, the rest is parsed
      for command and parameters. */
  lemma ParseMsgWithPrefix(line: string, a: string, rest: string)
    requires |a| > 0 && a[0] == ':' && ' ' !in a
    requires line == a + " " + rest
    ensures ParseMsg(line) == Success(ParseAfterPrefix(TrimSpace(line), TrimLeft(a, ":"), rest))
  {
    assert SplitN(line, " ", 2) == [a, rest] by {
      ContainsChar(a, ' ');
      SplitNAt(a, " ", rest);
    }
    assert TrimSpace(line) != "" by {
      assert line[0] == ':' && ':' !in AsciiSpace;
    }
    HasPrefixChar(line, ':');
  }

  /** A non-blank line that does not start with ':' has no prefix and is
      parsed for command and parameters as a whole. */
  lemma ParseMsgWithoutPrefix(line: string)
    requires TrimSpace(line) != "" && !HasPrefix(line, ":")
    ensures ParseMsg(line) == Success(ParseAfterPrefix(TrimSpace(line), "", line))
  {
  }

  /** The wire grammar with a prefix, for a `line` known to be built by it. */
  lemma ParseWirePrefixed(line: string, prefix: string, cmd: string, middles: seq<string>,
                          trailing: Option<string>)
    requires line == Wire(Some(prefix), cmd, middles, trailing)
    requires ' ' !in prefix && ' ' !in cmd
    requires forall i :: 0 <= i < |middles| ==>
      ' ' !in middles[i] && (middles[i] == "" || middles[i][0] != ':')
    ensures ParseMsg(line) == Success(Msg(TrimSpace(line), TrimLeft(prefix, ":"), cmd,
                                          middles + TrailingParam(trailing)))
  {
    var rest := Wire(None, cmd, middles, trailing);
    var a := ":" + prefix;
    ParseMsgWithPrefix(line, a, rest);
    assert a[1..] == prefix;
    assert TrimLeft(a, ":") == TrimLeft(prefix, ":");
    ParseAfterPrefixWire(TrimSpace(line), TrimLeft(prefix, ":"), cmd, middles, trailing);
  }

  /** A non-blank wire line without a prefix does not start with ':'. */
  lemma WireUnprefixedStart(cmd: string, middles: seq<string>, trailing: Option<string>)
    requires cmd == "" || cmd[0] != ':'
    requires TrimSpace(Wire(None, cmd, middles, trailing)) != ""
    ensures !HasPrefix(Wire(None, cmd, middles, trailing), ":")
  {
    var line := Wire(None, cmd, middles, trailing);
    var head := Join([cmd] + middles, " ");
    if |middles| > 0 {
      JoinCons(cmd, middles, " ");
    }
    assert line == head + (if trailing.Some? then " :" + trailing.value else "");
    if cmd != "" {
      assert line[0] == cmd[0];
    } else if |middles| > 0 || trailing.Some? {
      assert line[0] == ' ';
    }
    HasPrefixChar(line, ':');
  }

  /** The wire grammar without a prefix, for a non-blank `line` known to be
      built by it. */
  lemma ParseWireUnprefixed(line: string, cmd: string, middles: seq<string>,
                            trailing: Option<string>)
    requires line == Wire(None, cmd, middles, trailing)
    requires cmd == "" || cmd[0] != ':'
    requires ' ' !in cmd
    requires forall i :: 0 <= i < |middles| ==>
      ' ' !in middles[i] && (middles[i] == "" || middles[i][0] != ':')
    requires TrimSpace(line) != ""
    ensures ParseMsg(line) == Success(Msg(TrimSpace(line), "", cmd, middles + TrailingParam(trailing)))
  {
    WireUnprefixedStart(cmd, middles, trailing);
    ParseMsgWithoutPrefix(line);
    ParseAfterPrefixWire(TrimSpace(line), "", cmd, middles, trailing);
  }

  /** Parsing a line built by the wire grammar gives back its parts: the
      prefix without its leading colons, the command, the middle
      parameters, and the trailing parameter unless it is empty. */
  lemma ParseWire(prefix: Option<string>, cmd: string, middles: seq<string>,
                  trailing: Option<string>)
    requires prefix.Some? ==> ' ' !in prefix.value
    requires prefix.None? ==> cmd == "" || cmd[0] != ':'
    requires ' ' !in cmd
    requires forall i :: 0 <= i < |middles| ==>
      ' ' !in middles[i] && (middles[i] == "" || middles[i][0] != ':')
    ensures var line := Wire(prefix, cmd, middles, trailing);
      ParseMsg(line) ==
        if TrimSpace(line) == "" then Failure(BadMsg)
        else Success(Msg(TrimSpace(line),
                         if prefix.Some? then TrimLeft(prefix.value, ":") else "",
                         cmd, middles + TrailingParam(trailing)))
  {
    var line := Wire(prefix, cmd, middles, trailing);
    if prefix.Some? {
      ParseWirePrefixed(line, prefix.value, cmd, middles, trailing);
    } else if TrimSpace(line) != "" {
      ParseWireUnprefixed(line, cmd, middles, trailing);
    }
  }

  /** Round trip: parsing a formatted message gives back its prefix,
      command and parameters, provided the last parameter is non-empty and
      no other field contains a space or starts with ':'. */
  lemma ParseFormat(m: Msg)
    requires |m.params| > 0 && m.params[|m.params| - 1] != ""
    requires ' ' !in m.prefix && (m.prefix == "" || m.prefix[0] != ':')
    requires ' ' !in m.cmd
    requires forall i :: 0 <= i < |m.params| - 1 ==>
      ' ' !in m.params[i] && (m.params[i] == "" || m.params[i][0] != ':')
    ensures ParseMsg(Format(m)).Success?
    ensures ParseMsg(Format(m)).value.prefix == m.prefix
    ensures ParseMsg(Format(m)).value.cmd == m.cmd
    ensures ParseMsg(Format(m)).value.params == m.params
  {
    var line := Format(m);
    assert ParseMsg(line) == Success(Msg(TrimSpace(line), m.prefix, m.cmd, m.params)) by {
      var n := |m.params|;
      var middles := m.params[..n - 1];
      var last := m.params[n - 1];
      assert m.params == middles + [last];
      assert TrailingParam(Some(last)) == [last];
      TrimLeftColonNoop(m.prefix);
      FormatIsWire(m, middles, last);
      ParseWirePrefixed(line, m.prefix, m.cmd, middles, Some(last));
    }
  }

  /** A formatted message with at least one parameter is a wire line whose
      trailing part is the last parameter. */
  lemma FormatIsWire(m: Msg, middles: seq<string>, last: string)
    requires m.params == middles + [last]
    ensures Format(m) == Wire(Some(m.prefix), m.cmd, middles, Some(last))
  {
    var params := m.params;
    assert params[..|params| - 1] == middles;
    var ps := ParamsString(params);
    assert ps == Join(middles + [":" + last], " ");
    JoinCons(m.cmd, middles + [":" + last], " ");
    assert [m.cmd] + (middles + [":" + last]) == ([m.cmd] + middles) + [":" + last];
    JoinSnoc([m.cmd] + middles, ":" + last, " ");
    var head := Join([m.cmd] + middles, " ");
    assert m.cmd + " " + ps == head + " " + (":" + last);
    assert Format(m) == ":" + m.prefix + " " + (m.cmd + " " + ps);
    assert Wire(Some(m.prefix), m.cmd, middles, Some(last)) == ":" + m.prefix + " " + (head + (" :" + last));
  }

  /** A formatted message without parameters ends in the space that stands
      before the empty parameter string: as a wire line, it has one empty
      middle and no trailing part. */
  lemma FormatNoParams(m: Msg)
    requires m.params == []
    ensures Format(m) == ":" + m.prefix + " " + m.cmd + " "
    ensures Format(m) == Wire(Some(m.prefix), m.cmd, [""], None)
  {
    assert TrailingParam(None) == [];
    assert [""] + [] == [""];
    JoinCons(m.cmd, [""], " ");
  }

  /** The formatter's asymmetry: a message without parameters comes back
      from the parser with one empty parameter. */
  lemma ParseFormatNoParams(m: Msg)
    requires m.params == []
    requires ' ' !in m.prefix && (m.prefix == "" || m.prefix[0] != ':')
    requires ' ' !in m.cmd
    ensures Format(m) == ":" + m.prefix + " " + m.cmd + " "
    ensures ParseMsg(Format(m)).Success?
    ensures ParseMsg(Format(m)).value.params == [""]
  {
    assert TrailingParam(None) == [];
    assert [""] + [] == [""];
    JoinCons(m.cmd, [""], " ");
    assert Format(m) == Wire(Some(m.prefix), m.cmd, [""], None);
    ParseWirePrefixed(Format(m), m.prefix, m.cmd, [""], None);
  }

  /** The parser's policy on an empty trailing part: a message whose last
      parameter is empty comes back without it. */
  lemma ParseFormatEmptyLast(m: Msg)
    requires |m.params| > 0 && m.params[|m.params| - 1] == ""
    requires ' ' !in m.prefix && (m.prefix == "" || m.prefix[0] != ':')
    requires ' ' !in m.cmd
    requires forall i :: 0 <= i < |m.params| - 1 ==>
      ' ' !in m.params[i] && (m.params[i] == "" || m.params[i][0] != ':')
    ensures ParseMsg(Format(m)).Success?
    ensures ParseMsg(Format(m)).value.params == m.params[..|m.params| - 1]
  {
    var n := |m.params|;
    var middles := m.params[..n - 1];
    assert m.params == middles + [""];
    assert middles + TrailingParam(Some("")) == middles;
    FormatIsWire(m, middles, "");
    ParseWirePrefixed(Format(m), m.prefix, m.cmd, middles, Some(""));
  }

  /** Splitting a text without the trailing marker on every space: each
      piece after the first follows a space, so none starts with ':'. */
  lemma {:induction false} SplitPiecesNoColon(s: string)
    requires !Contains(s, " :")
    ensures forall k :: 1 <= k < |Split(s, " ")| ==>
      Split(s, " ")[k] == "" || Split(s, " ")[k][0] != ':'
    decreases |s|
  {
    var i := Index(s, " ");
    if i >= 0 {
      var t := s[i + 1..];
      var rest := Split(t, " ");
      assert Split(s, " ") == [s[..i]] + rest;
      SuffixContains(s, " :", i + 1);
      SplitPiecesNoColon(t);
      FirstPieceStarts(t);
      assert s[i..i + 1] == " ";
      if i + 2 <= |s| {
        NotContainsAt(s, " :", i);
        assert s[i..i + 2] == [' ', s[i + 1]];
      }
      NoColonStep(s, i, rest);
    }
  }

  /** The first piece of a split starts the text. */
  lemma FirstPieceStarts(t: string)
    ensures HasPrefix(t, Split(t, " ")[0])
  {
    var rest := Split(t, " ");
    if |rest| > 1 {
      JoinCons(rest[0], rest[1..], " ");
      assert [rest[0]] + rest[1..] == rest;
    }
  }

  /** The step of `SplitPiecesNoColon`: the pieces after a space that is not
      followed by ':' keep every piece after the first free of a leading
      ':'. */
  lemma NoColonStep(s: string, i: nat, rest: seq<string>)
    requires i < |s| && s[i] == ' '
    requires i + 2 <= |s| ==> s[i + 1] != ':'
    requires |rest| >= 1 && HasPrefix(s[i + 1..], rest[0])
    requires forall k :: 1 <= k < |rest| ==> rest[k] == "" || rest[k][0] != ':'
    ensures forall k :: 1 <= k < 1 + |rest| ==>
      ([s[..i]] + rest)[k] == "" || ([s[..i]] + rest)[k][0] != ':'
  {
    if rest[0] != "" {
      assert rest[0][0] == s[i + 1];
    }
    assert forall k :: 1 <= k < 1 + |rest| ==> ([s[..i]] + rest)[k] == rest[k - 1];
  }

  /** The command and the middle parameters come from splitting on every
      space the text before the trailing marker, so none of them contains
      a space, and no middle parameter starts with ':'. */
  lemma ParseAfterPrefixShapes(raw: string, prefix: string, rest: string)
    ensures var m := ParseAfterPrefix(raw, prefix, rest);
      && ' ' !in m.cmd
      && (forall i :: 0 <= i < |m.params| - 1 ==> ' ' !in m.params[i])
      && (forall i :: 0 <= i < |m.params| - 1 ==> m.params[i] == "" || m.params[i][0] != ':')
  {
    var m := ParseAfterPrefix(raw, prefix, rest);
    var hasTrailing := Contains(rest, " :");
    var restAndTrailing := if hasTrailing then SplitN(rest, " :", 2) else [rest];
    var cmdAndParams := Split(restAndTrailing[0], " ");
    forall i | 0 <= i < |cmdAndParams| ensures ' ' !in cmdAndParams[i] {
      ContainsChar(cmdAndParams[i], ' ');
    }
    if hasTrailing { SplitNPiecesFree(rest, " :", 2); }
    assert !Contains(restAndTrailing[0], " :");
    SplitPiecesNoColon(restAndTrailing[0]);
    assert m.cmd == cmdAndParams[0];
    assert forall i :: 0 <= i < |m.params| - 1 ==> m.params[i] == cmdAndParams[i + 1];
  }

  /** A parsed prefix is the text before the first space with its leading
      colons removed, so it has no space and does not start with ':'. */
  lemma ParsedPrefixShape(line: string)
    requires ParseMsg(line).Success?
    ensures var p := ParseMsg(line).value.prefix;
      ' ' !in p && (p == "" || p[0] != ':')
  {
    if HasPrefix(line, ":") {
      ContainsChar(line, ' ');
      var parts := SplitN(line, " ", 2);
      SplitNPiecesFree(line, " ", 2);
      ContainsChar(parts[0], ' ');
      var p := TrimLeft(parts[0], ":");
      assert ParseMsg(line).value.prefix == p;
      TrimLeftKeepsAbsent(parts[0], ":", ' ');
    }
  }

  /** Every successfully parsed message has a prefix with no space and no
      leading ':', a command with no space, and no space and no leading ':'
      in any parameter but the last. */
  lemma ParsedFieldShapes(line: string)
    requires ParseMsg(line).Success?
    ensures var m := ParseMsg(line).value;
      && ' ' !in m.prefix && (m.prefix == "" || m.prefix[0] != ':')
      && ' ' !in m.cmd
      && (forall i :: 0 <= i < |m.params| - 1 ==> ' ' !in m.params[i])
      && (forall i :: 0 <= i < |m.params| - 1 ==> m.params[i] == "" || m.params[i][0] != ':')
  {
    ParsedPrefixShape(line);
    var m := ParseMsg(line).value;
    if HasPrefix(line, ":") {
      ContainsChar(line, ' ');
      var parts := SplitN(line, " ", 2);
      assert m == ParseAfterPrefix(TrimSpace(line), m.prefix, parts[1]);
      ParseAfterPrefixShapes(TrimSpace(line), m.prefix, parts[1]);
    } else {
      assert m == ParseAfterPrefix(TrimSpace(line), "", line);
      ParseAfterPrefixShapes(TrimSpace(line), "", line);
    }
  }

  // ---------------------------------------------------------------------
  // Field extractors
  // ---------------------------------------------------------------------

  /** The receiver and the text of a PRIVMSG with exactly two parameters. */
  function ExtractPrivmsg(m: Msg): (r: Result<(string, string), ExtractError>)
    ensures r.Success? <==> m.cmd == "PRIVMSG" && |m.params| == 2
    ensures r.Success? ==> r.value == (m.params[0], m.params[1])
    ensures r.Failure? ==> r.error == MalformedPrivmsg
  {
    if m.cmd == "PRIVMSG" && |m.params| == 2 then Success((m.params[0], m.params[1]))
    else Failure(MalformedPrivmsg)
  }

  /** The sender's nick: the text of the prefix before its first '!'. */
  function ExtractNick(m: Msg): (r: Result<string, ExtractError>)
    ensures r.Success? <==> '!' in m.prefix
    ensures r.Success? ==> '!' !in r.value && HasPrefix(m.prefix, r.value + "!")
    ensures r.Failure? ==> r.error == NoNickInPrefix
  {
    ContainsChar(m.prefix, '!');
    if Contains(m.prefix, "!") && m.prefix != "" then
      SplitFirstPiece(m.prefix, '!');
      Success(Split(m.prefix, "!")[0])
    else Failure(NoNickInPrefix)
  }

  /** The nick is determined by the prefix: a prefix `nick + "!" + rest`
      with no '!' in `nick` yields exactly `nick`. */
  lemma ExtractNickOf(raw: string, nick: string, userHost: string, cmd: string,
                      params: seq<string>)
    requires '!' !in nick
    ensures ExtractNick(Msg(raw, nick + "!" + userHost, cmd, params)) == Success(nick)
  {
    var m := Msg(raw, nick + "!" + userHost, cmd, params);
    assert m.prefix[|nick|] == '!';
    var r := ExtractNick(m).value;
    assert m.prefix[..|r| + 1] == r + "!";
    assert m.prefix[|r|] == '!';
    assert forall k :: 0 <= k < |nick| ==> m.prefix[k] == nick[k];
    assert forall k :: 0 <= k < |r| ==> m.prefix[k] == r[k];
    assert |r| == |nick|;
    assert r == m.prefix[..|r|] == nick;
  }

  // ---------------------------------------------------------------------
  // Examples
  // ---------------------------------------------------------------------

  /** A parameter that does not start with ':' keeps its leading text. */
  lemma TrimLeftColonNoop(s: string)
    requires s == "" || s[0] != ':'
    ensures TrimLeft(s, ":") == s
  {
  }

  /** A chat line `:source PRIVMSG receiver :text` parses into the source
      as prefix, the command, and the receiver and text as parameters. */
  lemma ParsePrivmsgLine(line: string, source: string, receiver: string, text: string)
    requires line == ":" + source + " PRIVMSG " + receiver + " :" + text
    requires ' ' !in source && (source == "" || source[0] != ':')
    requires ' ' !in receiver && (receiver == "" || receiver[0] != ':')
    requires text != ""
    ensures ParseMsg(line) == Success(Msg(TrimSpace(line), source, "PRIVMSG", [receiver, text]))
  {
    TrimLeftColonNoop(source);
    PrivmsgLineIsWire(source, receiver, text);
    assert [receiver] + TrailingParam(Some(text)) == [receiver, text];
    ParseWirePrefixed(line, source, "PRIVMSG", [receiver], Some(text));
  }

  /** The chat line shape is an instance of the wire grammar. */
  lemma PrivmsgLineIsWire(source: string, receiver: string, text: string)
    ensures Wire(Some(source), "PRIVMSG", [receiver], Some(text))
         == ":" + source + " PRIVMSG " + receiver + " :" + text
  {
    JoinCons("PRIVMSG", [receiver], " ");
    var head := Join(["PRIVMSG"] + [receiver], " ");
    assert head == "PRIVMSG " + receiver;
    assert ":" + source + " " + "PRIVMSG " == ":" + source + " PRIVMSG ";
  }

  /** A line `cmd :text` without prefix parses into the command and the
      text as its only parameter. */
  lemma ParseCommandTrailing(cmd: string, text: string)
    requires cmd != "" && cmd[0] != ':' && ' ' !in cmd
    requires text != ""
    ensures var line := cmd + " :" + text;
      ParseMsg(line) == Success(Msg(TrimSpace(line), "", cmd, [text]))
  {
    var line := cmd + " :" + text;
    assert Wire(None, cmd, [], Some(text)) == line;
    assert line[|cmd| + 1] == ':' && ':' !in AsciiSpace;
    assert [] + TrailingParam(Some(text)) == [text];
    ParseWireUnprefixed(line, cmd, [], Some(text));
  }

  lemma ParseExamplePrivmsg()
    ensures ParseMsg(":nick!user@host PRIVMSG #chan :hello there")
         == Success(Msg(":nick!user@host PRIVMSG #chan :hello there",
                        "nick!user@host", "PRIVMSG", ["#chan", "hello there"]))
  {
    var line := ":nick!user@host PRIVMSG #chan :hello there";
    var source, receiver, text := "nick!user@host", "#chan", "hello there";
    assert line[0] == ':' && line[|line| - 1] == 'e';
    assert ' ' !in source && source[0] != ':';
    assert ' ' !in receiver && receiver[0] != ':';
    ExamplePrivmsgLine();
    NoSurroundingSpace(line);
    ParsePrivmsgLine(line, source, receiver, text);
  }

  /** The example chat line, assembled from its parts. */
  lemma ExamplePrivmsgLine()
    ensures ":" + "nick!user@host" + " PRIVMSG " + "#chan" + " :" + "hello there"
         == ":nick!user@host PRIVMSG #chan :hello there"
  {
  }

  lemma ParseExamplePing()
    ensures ParseMsg("PING :server1") == Success(Msg("PING :server1", "", "PING", ["server1"]))
  {
    var line := "PING :server1";
    assert "PING" + " :" + "server1" == line;
    NoSurroundingSpace(line);
    ParseCommandTrailing("PING", "server1");
  }

  /** A line with no white space at either end is its own trimmed form: the
      third clause of `TrimSpace`'s contract, named so that the literal
      examples below can call it as one step. */
  lemma NoSurroundingSpace(line: string)
    requires |line| > 0 && line[0] !in AsciiSpace && line[|line| - 1] !in AsciiSpace
    ensures TrimSpace(line) == line
  {
  }

  /** All leading colons of the prefix are removed. */
  lemma ParseExampleDoubleColon()
    ensures ParseMsg("::irc.example.net NOTICE * :hi").Success?
    ensures ParseMsg("::irc.example.net NOTICE * :hi").value.prefix == "irc.example.net"
  {
    var line := "::irc.example.net NOTICE * :hi";
    var server := "irc.example.net";
    var a := "::irc.example.net";
    assert ' ' !in a && a[0] == ':';
    assert a == [':'] + ([':'] + server);
    assert line == a + " " + "NOTICE * :hi";
    assert server[0] !in ":";
    TrimLeftCons(':', [':'] + server, ":");
    TrimLeftOne(':', server, ":");
    ParseMsgWithPrefix(line, a, "NOTICE * :hi");
  }

  /** The split runs on the untrimmed line: a leading space gives an empty
      command and moves the first word into the parameters, while the raw
      field is trimmed. */
  lemma ParseExampleLeadingSpace()
    ensures ParseMsg(" PING") == Success(Msg("PING", "", "", ["PING"]))
  {
    var line := " PING";
    var word := "PING";
    assert word[0] !in AsciiSpace && word[3] !in AsciiSpace && ' ' in AsciiSpace;
    TrimLeftOne(' ', word, AsciiSpace);
    assert [' '] + word == line;
    NoSurroundingSpace(word);
    assert TrimSpace(line) == word;
    JoinCons("", [word], " ");
    assert Wire(None, "", [word], None) == line;
    assert [word] + TrailingParam(None) == [word];
    ParseWireUnprefixed(line, "", [word], None);
  }

  lemma ParseExamplePanics()
    ensures ParseMsg(":foo") == Failure(IndexOutOfRange)
  {
    var line := ":foo";
    assert line[0] == ':' && ':' !in AsciiSpace;
    assert TrimSpace(line) != "";
    assert HasPrefix(line, ":");
    assert ' ' !in line;
  }

  lemma ParseExampleBlank()
    ensures ParseMsg("") == Failure(BadMsg)
    ensures ParseMsg("   ") == Failure(BadMsg)
  {
  }
}
