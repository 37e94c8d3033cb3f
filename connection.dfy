/** `Asterisk::Agi::Connection` of lib/asterisk/agi/connection.rb: reads the AGI
    environment from the socket when it is created, then offers one method per AGI
    command. Every command writes one line and reads the reply; `AgiResponse.ReadSpec`
    states what a read returns and how many lines it consumes, and the methods here are
    proved to do exactly that on the socket. */
module AgiConnection {
  import opened Wrappers
  import opened RubyText
  import opened AgiChannel
  import opened AgiHeader
  import opened AgiResponse
  import opened AgiCommands
  import opened AgiSocket

  /** The `if code == 200` branch of `read`: a missing or blank payload makes the code
      call a method on nil. */
  method DecodeReply(data: Option<string>) returns (r: Outcome)
    ensures r == DecodeSuccess(data)
  {
    if data.None? {
      return Err(Unhandled);
    }
    var t := Strip(data.value);
    if t == [] {
      return Err(Unhandled);
    }
    r := DecodeText(t);
  }

  /** `res, data = ....split(" ", 2)`, then the three shapes of a successful reply. */
  method DecodeText(t: string) returns (r: Outcome)
    requires |t| > 0 && !IsSpace(t[0])
    ensures r == DecodePayload(t)
  {
    var split := SplitWord(t);
    var n := ResultValue(split.0);
    if split.1.None? {
      return Ok(Int(n));
    }
    var rem := split.1.value;
    if StartsWith(rem, "(") && EndsWith(rem, ")") {
      return Ok(Str(Inner(rem)));
    }
    var h := BuildReplyHash(n, rem);
    r := Ok(Record(h));
  }

  /** `h = { result: res }`, `data` from the parenthesised first word, then the
      `key=value` tokens. */
  method BuildReplyHash(n: int, rem: string) returns (h: map<string, Value>)
    ensures h == BuildHash(n, rem)
  {
    h := map["result" := VInt(n)];
    var parts := Words(rem);
    if StartsWith(rem, "(") {
      assert rem[0] == '(';
      h := h["data" := VStr(Inner(parts[0]))];
      parts := parts[1..];
    }
    h := AddTokens(h, parts);
  }

  /** `parts.each { |p| k, v = p.split("=", 2); h[k.to_sym] = v }`. */
  method AddTokens(start: map<string, Value>, parts: seq<string>) returns (h: map<string, Value>)
    ensures h == AddPairs(start, parts)
  {
    h := start;
    var i := 0;
    while i < |parts|
      invariant 0 <= i <= |parts|
      invariant h == AddPairs(start, parts[..i])
    {
      var kv := SplitOnce(parts[i], '=');
      h := h[kv.0 := if kv.1.Some? then VStr(kv.1.value) else VNil];
      assert parts[..i + 1][..i] == parts[..i];
      i := i + 1;
    }
    assert parts[..|parts|] == parts;
  }

  /** A read that meets the end of the input, or a closed socket, consumes nothing. */
  lemma ReadNothing(available: seq<string>, input: seq<string>)
    requires available == []
    ensures ReadSpec(available).used == 0 && input[..0] == [] && Received(input[..0]) == []
  {
  }

  /** Reading line 0 and then `k` lines of the rest logs the first `k + 1` lines. */
  lemma LogFirst(input: seq<string>, k: nat, start: seq<Event>, after: seq<Event>, log: seq<Event>)
    requires k < |input|
    requires after == start + [Got(input[0])]
    requires log == after + Received(input[1..][..k])
    ensures log == start + Received(input[..k + 1])
    ensures input[1..][k..] == input[k + 1..]
  {
    ReceivedFirst(input, k);
  }

  /** A read that starts with a `HANGUP` notice is the read of the lines after it, one
      line longer. */
  lemma ReadAfterNotice(input: seq<string>)
    requires |input| > 0 && Strip(input[0]) == "HANGUP"
    ensures ReadSpec(input) == Exchange(ReadSpec(input[1..]).outcome, ReadSpec(input[1..]).used + 1)
  {
  }

  /** A read that starts with any other line is that line's reply. */
  lemma ReadOfReply(input: seq<string>)
    requires |input| > 0 && Strip(input[0]) != "HANGUP"
    ensures ReadSpec(input) == Respond(Strip(input[0]), input[1..])
  {
  }

  /** A `520-` line's reply is its usage text, with the same lines read. */
  lemma ReplyOfUsage(l: string, more: seq<string>, start: seq<Event>, log: seq<Event>, rest: seq<string>, r: Outcome)
    requires Code(l) == 520 && |l| >= 4 && l[3] == '-'
    requires var u := UsageText(l[4..], more);
      r == u.outcome && rest == more[u.used - 1..] && log == start + Received(more[..u.used - 1])
    ensures var e := Respond(l, more);
      r == e.outcome && rest == more[e.used - 1..] && log == start + Received(more[..e.used - 1])
  {
    assert Classify(l) == Usage(l[4..]);
  }

  /** A read whose first line is a `HANGUP` notice: the lines and log of the read
      after it, with that line in front. */
  lemma ReadNotice(input: seq<string>, start: seq<Event>, after: seq<Event>, log: seq<Event>, rest: seq<string>, r: Outcome)
    requires |input| > 0 && Strip(input[0]) == "HANGUP"
    requires after == start + [Got(input[0])]
    requires var e := ReadSpec(input[1..]);
      r == e.outcome && rest == input[1..][e.used..] && log == after + Received(input[1..][..e.used])
    ensures var e := ReadSpec(input);
      r == e.outcome && rest == input[e.used..] && log == start + Received(input[..e.used])
  {
    ReadAfterNotice(input);
    LogFirst(input, ReadSpec(input[1..]).used, start, after, log);
  }

  /** A read whose first line is `520-`: the usage loop's lines and log, with that line
      in front. */
  lemma ReadUsage(input: seq<string>, start: seq<Event>, after: seq<Event>, log: seq<Event>, rest: seq<string>, r: Outcome)
    requires |input| > 0 && Strip(input[0]) != "HANGUP"
    requires var l := Strip(input[0]); Code(l) == 520 && |l| >= 4 && l[3] == '-'
    requires after == start + [Got(input[0])]
    requires var u := UsageText(Strip(input[0])[4..], input[1..]);
      r == u.outcome && rest == input[1..][u.used - 1..] && log == after + Received(input[1..][..u.used - 1])
    ensures var e := ReadSpec(input);
      r == e.outcome && rest == input[e.used..] && log == start + Received(input[..e.used])
  {
    var l := Strip(input[0]);
    ReadOfReply(input);
    ReplyOfUsage(l, input[1..], after, log, rest, r);
    LogFirst(input, Respond(l, input[1..]).used - 1, start, after, log);
  }

  /** A read whose first line settles it consumes that line only, and the log holds its
      event alone. */
  lemma ReadFinal(input: seq<string>, start: seq<Event>, log: seq<Event>, r: Outcome)
    requires |input| > 0 && Strip(input[0]) != "HANGUP"
    requires Classify(Strip(input[0])) == Final(r)
    requires log == start + [Got(input[0])]
    ensures var e := ReadSpec(input);
      r == e.outcome && input[1..] == input[e.used..] && log == start + Received(input[..e.used])
  {
    ReadSettled(input, r);
    ReceivedOne(input);
  }

  lemma ReadSettled(input: seq<string>, r: Outcome)
    requires |input| > 0 && Strip(input[0]) != "HANGUP"
    requires Classify(Strip(input[0])) == Final(r)
    ensures ReadSpec(input) == Exchange(r, 1)
  {
    ReadOfReply(input);
    RespondFinal(Strip(input[0]), input[1..]);
  }

  /** One more usage line, stripped, extends the message. */
  lemma TextNext(intro: string, more: seq<string>, j: nat, text: string)
    requires j < |more| && text == intro + Joined(more[..j])
    ensures text + Strip(more[j]) == intro + Joined(more[..j + 1])
  {
    assert more[..j + 1] == more[..j] + [more[j]];
    JoinedSnoc(more[..j], more[j]);
    Assoc(intro, Joined(more[..j]), Strip(more[j]));
  }

  /** The usage loop meets the end of the input: every line was read and none closed
      the message. */
  lemma UsageLinesEof(head: string, more: seq<string>, j: nat, start: seq<Event>, log: seq<Event>)
    requires j == |more|
    requires forall t :: 0 <= t < j ==> !EndsUsage(more[t])
    requires log == start + Received(more[..j])
    ensures var e := UsageText(head, more);
      Err(Unhandled) == e.outcome && more[j..] == more[e.used - 1..] &&
      log == start + Received(more[..e.used - 1])
  {
    assert more[..j] == more;
    UsageTextEof(head, more);
  }

  /** The usage loop stops at line `j`, which closes the message built so far. */
  lemma UsageLinesFound(head: string, more: seq<string>, j: nat, text: string, r: Outcome)
    requires j < |more| && EndsUsage(more[j])
    requires forall t :: 0 <= t < j ==> !EndsUsage(more[t])
    requires text == head + "  Proper usage follows:\n" + Joined(more[..j])
    requires r == Err(InvalidCommand(StatusCodes[520] + " " + text))
    ensures var e := UsageText(head, more); r == e.outcome && e.used == j + 2
  {
    UsageTextFound(head, more, j);
    assert StatusCodes[520] + " " + text == StatusCodes[520] + " " + head + "  Proper usage follows:\n" + Joined(more[..j]) by {
      Assoc(StatusCodes[520] + " ", head + "  Proper usage follows:\n", Joined(more[..j]));
      Assoc(StatusCodes[520] + " ", head, "  Proper usage follows:\n");
    }
  }

  class Connection {
    const sck: Stream
    /** `conn_params`: filled once, by the constructor. */
    var params: ParamMap
    /** `@channel`, computed on first use. */
    var channelMemo: Option<AgiChannel.Channel>

    /** The memoised channel is the one the `channel` parameter describes. */
    ghost predicate Valid()
      reads this
    {
      channelMemo.Some? ==> channelMemo.value == Parse(Lookup(params, "channel"))
    }

    /** `initialize`: reads `agi_key: value` lines until a line of at most one
        character or the end of the input, and stores them. */
    constructor (sck: Stream)
      requires !sck.closed
      modifies sck
      ensures this.sck == sck && Valid() && channelMemo.None?
      ensures params == Header(old(sck.input))
      ensures sck.input == old(sck.input)[HeaderUsed(old(sck.input))..]
      ensures !sck.closed && sck.buffered == old(sck.buffered) && sck.sent == old(sck.sent)
      ensures sck.log == old(sck.log) + Received(old(sck.input)[..HeaderUsed(old(sck.input))])
    {
      ghost var lines := sck.input;
      ghost var start := sck.log;
      var m: ParamMap := map[];
      ghost var i := 0;
      ghost var used := 0;
      while true
        invariant i <= BlockLength(lines) && sck.input == lines[i..]
        invariant m == Params(lines[..i])
        invariant sck.log == start + Received(lines[..i])
        invariant !sck.closed && sck.buffered == old(sck.buffered) && sck.sent == old(sck.sent)
        decreases |sck.input|
      {
        var got := sck.Gets();
        BlockAt(lines, i);
        if got.None? {
          used := i;
          break;
        }
        LogNext(lines, i, start, sck.log);
        if |got.value| <= 1 {
          used := i + 1;
          break;
        }
        var e := Entry(got.value);
        ParamsPrefix(lines, i, m, e);
        if e.Some? {
          m := m[e.value.0 := e.value.1];
        }
        i := i + 1;
      }
      assert used == HeaderUsed(lines);
      this.sck := sck;
      params := m;
      channelMemo := None;
    }

    /** `[](k)`: the stored value, nil for a key that was never sent. */
    function Get(k: string): (v: Option<string>)
      reads this
      ensures v.Some? <==> k in params && params[k].Some?
      ensures v.Some? ==> v == params[k]
    {
      Lookup(params, k)
    }

    /** `extension`: the stored `extension` parameter, nil when it was never sent or
        was sent empty. */
    function Extension(): (v: Option<string>)
      reads this
      ensures v.Some? <==> "extension" in params && params["extension"].Some?
      ensures v.Some? ==> v == params["extension"]
    {
      Get("extension")
    }

    /** `channel`: parsed from the `channel` parameter on first use, the same object
        afterwards. */
    method Channel() returns (c: AgiChannel.Channel)
      requires Valid()
      modifies this
      ensures Valid() && channelMemo == Some(c)
      ensures c == Parse(Get("channel"))
      ensures params == old(params)
    {
      if channelMemo.None? {
        channelMemo := Some(Parse(Lookup(params, "channel")));
      }
      c := channelMemo.value;
    }

    /** `write`: `puts` then `flush`. On a closed socket `puts` raises. */
    method Write(msg: string) returns (ok: bool)
      modifies sck
      ensures ok == !old(sck.closed)
      ensures ok ==> sck.sent == old(sck.sent) + old(sck.buffered) + Wire(msg) && sck.buffered == []
      ensures !ok ==> sck.sent == old(sck.sent) && sck.buffered == old(sck.buffered)
      ensures sck.log == if ok then old(sck.log) + [Put(msg), Flushed] else old(sck.log)
      ensures sck.input == old(sck.input) && sck.closed == old(sck.closed)
    {
      ok := sck.Puts(msg);
      if ok {
        var flushed := sck.Flush();
      }
    }

    /** `read`: one reply, after any number of `HANGUP` notices. The first other line
        decides: only `520-` reads on, in the usage loop. */
    method Read() returns (r: Outcome)
      modifies sck
      ensures var e := ReadSpec(old(sck.Available()));
        r == e.outcome && sck.input == old(sck.input)[e.used..] &&
        sck.log == old(sck.log) + Received(old(sck.input)[..e.used])
      ensures sck.closed == old(sck.closed) && sck.buffered == old(sck.buffered) && sck.sent == old(sck.sent)
      decreases |sck.input|
    {
      ghost var input := sck.input;
      ghost var start := sck.log;
      var got := sck.Gets();
      if got.None? {
        ReadNothing(old(sck.Available()), input);
        return Err(AgiError.Hangup);
      }
      ghost var after := sck.log;
      var l := Strip(got.value);
      if l == "HANGUP" {
        r := Read();
        ReadNotice(input, start, after, sck.log, sck.input, r);
        return;
      }
      var code := Code(l);
      if code == 520 && |l| >= 4 && l[3] == '-' {
        r := UsageLines(l[4..]);
        ReadUsage(input, start, after, sck.log, sck.input, r);
        return;
      }
      r := Settle(l, code);
      ReadFinal(input, start, after, r);
    }

    /** The outcome of a response line that needs no further lines. Only the 200 branch
        has work of its own to do, the decode of the payload; every other code settles
        the read as `Classify` says. */
    static method Settle(l: string, code: int) returns (r: Outcome)
      requires code == Code(l)
      requires !(code == 520 && |l| >= 4 && l[3] == '-')
      ensures Classify(l) == Final(r)
    {
      if code == 200 {
        ClassifyAt200(l);
        r := DecodeReply(Data(l));
      } else {
        assert Classify(l).Final?;
        r := Classify(l).outcome;
      }
    }

    /** The loop of a multi-line 520: stripped lines are appended until one starts with
        `520`; the end of the input makes `strip` fail on nil. */
    method UsageLines(head: string) returns (r: Outcome)
      requires !sck.closed
      modifies sck
      ensures var e := UsageText(head, old(sck.input));
        r == e.outcome && sck.input == old(sck.input)[e.used - 1..] &&
        sck.log == old(sck.log) + Received(old(sck.input)[..e.used - 1])
      ensures !sck.closed && sck.buffered == old(sck.buffered) && sck.sent == old(sck.sent)
    {
      ghost var more := sck.input;
      ghost var start := sck.log;
      var text := head + "  Proper usage follows:\n";
      ghost var intro := text;
      ghost var j := 0;
      while true
        invariant 0 <= j <= |more| && sck.input == more[j..]
        invariant sck.log == start + Received(more[..j])
        invariant text == intro + Joined(more[..j])
        invariant forall t :: 0 <= t < j ==> !EndsUsage(more[t])
        invariant !sck.closed && sck.buffered == old(sck.buffered) && sck.sent == old(sck.sent)
        decreases |sck.input|
      {
        var got := sck.Gets();
        if got.None? {
          UsageLinesEof(head, more, j, start, sck.log);
          return Err(Unhandled);
        }
        LogNext(more, j, start, sck.log);
        var next := Strip(got.value);
        if StartsWith(next, "520") {
          break;
        }
        TextNext(intro, more, j, text);
        text := text + next;
        j := j + 1;
      }
      r := Err(InvalidCommand(StatusCodes[520] + " " + text));
      UsageLinesFound(head, more, j, text, r);
    }

    /** A command was written and flushed and only then its reply read, or the socket
        was already closed and the write raised. The log orders the transfers: the
        command, the flush, then one event per line the read consumed. */
    twostate predicate Exchanged(cmd: string, r: Outcome)
      reads this, sck
    {
      if old(sck.closed) then
        r == Err(Unhandled) && sck.closed && sck.log == old(sck.log) &&
        sck.input == old(sck.input) && sck.sent == old(sck.sent) && sck.buffered == old(sck.buffered)
      else
        var e := ReadSpec(old(sck.input));
        r == e.outcome && !sck.closed && sck.input == old(sck.input)[e.used..] &&
        sck.sent == old(sck.sent) + old(sck.buffered) + Wire(cmd) && sck.buffered == [] &&
        sck.log == old(sck.log) + [Put(cmd), Flushed] + Received(old(sck.input)[..e.used])
    }

    /** `write cmd` followed by `read`, the body every helper shares. */
    method Request(cmd: string) returns (r: Outcome)
      modifies sck
      ensures Exchanged(cmd, r)
    {
      var ok := Write(cmd);
      if !ok {
        return Err(Unhandled);
      }
      r := Read();
    }

    method Exec(app: string, args: Option<string>) returns (r: Outcome)
      modifies sck
      ensures Exchanged(ExecLine(app, args), r)
    {
      r := Request(ExecLine(app, args));
    }

    method GetVariable(name: string) returns (r: Outcome)
      modifies sck
      ensures Exchanged(GetVariableLine(name), r)
    {
      r := Request(GetVariableLine(name));
    }

    method SetVariable(name: string, val: Option<string>) returns (r: Outcome)
      modifies sck
      ensures Exchanged(SetVariableLine(name, val), r)
    {
      r := Request(SetVariableLine(name, val));
    }

    method GetData(file: string, timeout: Option<string>, maxdigits: Option<string>) returns (r: Outcome)
      modifies sck
      ensures Exchanged(GetDataLine(file, timeout, maxdigits), r)
    {
      r := Request(GetDataLine(file, timeout, maxdigits));
    }

    /** `wait_for_digit`; `DefaultDigitTimeout` is the default argument. */
    method WaitForDigit(timeout: Option<string>) returns (r: Outcome)
      modifies sck
      ensures Exchanged(WaitForDigitLine(timeout), r)
    {
      r := Request(WaitForDigitLine(timeout));
    }

    /** `dial`; `DefaultDialOptions` is the default options hash. */
    method Dial(number: string, waittime: Option<string>, time: Option<string>, opts: DialOptions) returns (r: Outcome)
      modifies sck
      ensures Exchanged(ExecLine("DIAL", Some(DialArgs(number, waittime, time, opts))), r)
    {
      r := Exec("DIAL", Some(DialArgs(number, waittime, time, opts)));
    }

    /** `originate`: the arguments are checked before anything is written; the argument
        string is then built by appending, as the code does. */
    method Originate(number: string, kind: string, params: seq<string>) returns (r: Outcome)
      modifies sck
      ensures OriginateRejection(kind, params).Some? ==>
        r == Err(ArgumentError(OriginateRejection(kind, params).value)) && unchanged(sck)
      ensures OriginateRejection(kind, params).None? ==>
        Exchanged(ExecLine("ORIGINATE", Some(OriginateArgs(number, kind, params))), r)
    {
      if |params| < 1 {
        return Err(ArgumentError("Must specify the app name or context"));
      }
      if kind != "app" && kind != "exten" {
        return Err(ArgumentError("Type must be \"app\" or \"exten\""));
      }
      var args := OriginateArguments(number, kind, params);
      r := Exec("ORIGINATE", Some(args));
    }

    /** The argument string of `originate`: `number,type,`, the first parameter, then
        `,p` appended for every parameter. */
    static method OriginateArguments(number: string, kind: string, params: seq<string>) returns (args: string)
      requires |params| >= 1
      ensures args == OriginateArgs(number, kind, params)
    {
      args := number + "," + kind + ",";
      args := args + params[0];
      ghost var head := args;
      var i := 0;
      while i < |params|
        invariant 0 <= i <= |params|
        invariant args == head + Prefixed(params[..i])
      {
        PrefixedStep(params, i);
        Assoc(head, Prefixed(params[..i]), "," + params[i]);
        args := args + ("," + params[i]);
        i := i + 1;
      }
      assert params[..|params|] == params;
    }

    method Pickup(extension: Option<string>) returns (r: Outcome)
      modifies sck
      ensures Exchanged(ExecLine("PICKUP", extension), r)
    {
      r := Exec("PICKUP", extension);
    }

    method Playback(file: string, args: Option<string>) returns (r: Outcome)
      modifies sck
      ensures Exchanged(ExecLine(PlaybackApp(file, args), None), r)
    {
      r := Exec(PlaybackApp(file, args), None);
    }

    method Wait(seconds: Option<string>) returns (r: Outcome)
      modifies sck
      ensures Exchanged(ExecLine("WAIT", seconds), r)
    {
      r := Exec("WAIT", seconds);
    }

    method Ringing() returns (r: Outcome)
      modifies sck
      ensures Exchanged(ExecLine("RINGING", None), r)
    {
      r := Exec("RINGING", None);
    }

    method MusicOnHold(cls: Option<string>) returns (r: Outcome)
      modifies sck
      ensures Exchanged(ExecLine(MusicOnHoldApp(cls), None), r)
    {
      r := Exec(MusicOnHoldApp(cls), None);
    }

    /** `setmusiconhold`: `set_variable` reads the reply to the assignment, and a second
        `read` follows when that one did not raise. */
    method SetMusicOnHold(cls: Option<string>) returns (r: Outcome)
      modifies sck
      ensures old(sck.closed) ==>
        r == Err(Unhandled) && sck.closed && sck.input == old(sck.input) && sck.log == old(sck.log) &&
        sck.sent == old(sck.sent) && sck.buffered == old(sck.buffered)
      ensures !old(sck.closed) ==>
        sck.sent == old(sck.sent) + old(sck.buffered) + Wire(SetVariableLine(MusicClassVariable, cls)) &&
        sck.buffered == [] && !sck.closed &&
        var e1 := ReadSpec(old(sck.input));
        var after := old(sck.input)[e1.used..];
        var first := old(sck.log) + [Put(SetVariableLine(MusicClassVariable, cls)), Flushed] + Received(old(sck.input)[..e1.used]);
        if e1.outcome.Err? then r == e1.outcome && sck.input == after && sck.log == first
        else var e2 := ReadSpec(after);
          r == e2.outcome && sck.input == after[e2.used..] && sck.log == first + Received(after[..e2.used])
    {
      var first := SetVariable(MusicClassVariable, cls);
      if first.Err? {
        return first;
      }
      r := Read();
    }

    method SetSipMessage(body: Option<string>) returns (r: Outcome)
      modifies sck
      ensures Exchanged(SetVariableLine(SipBodyVariable, Some(SipMessageValue(body))), r)
    {
      r := SetVariable(SipBodyVariable, Some(SipMessageValue(body)));
    }

    method SendSipMessage(to: Option<string>, from: Option<string>) returns (r: Outcome)
      modifies sck
      ensures Exchanged(ExecLine("MessageSend", Some(SendSipArgs(to, from))), r)
    {
      r := Exec("MessageSend", Some(SendSipArgs(to, from)));
    }

    method Answer() returns (r: Outcome)
      modifies sck
      ensures Exchanged("ANSWER", r)
    {
      r := Request("ANSWER");
    }

    /** `hangup`: the socket is closed after a reply that did not raise; a raised error
        skips the `close`. */
    method Hangup() returns (r: Outcome)
      modifies sck
      ensures sck.closed == (old(sck.closed) || r.Ok?)
      ensures old(sck.closed) ==>
        r == Err(Unhandled) && sck.closed && sck.input == old(sck.input) && sck.log == old(sck.log) &&
        sck.sent == old(sck.sent) && sck.buffered == old(sck.buffered)
      ensures !old(sck.closed) ==>
        var e := ReadSpec(old(sck.input));
        r == e.outcome && sck.input == old(sck.input)[e.used..] &&
        sck.sent == old(sck.sent) + old(sck.buffered) + Wire("HANGUP") && sck.buffered == [] &&
        sck.log == old(sck.log) + [Put("HANGUP"), Flushed] + Received(old(sck.input)[..e.used]) +
          (if r.Ok? then [Closed] else [])
    {
      r := Request("HANGUP");
      if r.Ok? {
        sck.Close();
      }
    }
  }
}
