/** The command lines the public helpers of lib/asterisk/agi/connection.rb write to
    Asterisk. Each helper builds one string and hands it to `write`; this module holds
    those strings. Arguments are the strings Ruby interpolates (`"#{x}"` is `x.to_s`);
    an argument is an `Option` exactly where the code tests it for nil. The lemmas split
    the lines back at white space, into the words of the AGI command, and at commas,
    into the fields of an application's argument string. */
module AgiCommands {
  import opened Wrappers
  import opened RubyText

  // ---------------------------------------------------------------- reading lines back

  /** The words of two words, a space and a rest. */
  lemma TwoWordsThen(line: string, w1: string, w2: string, rest: string)
    requires line == w1 + " " + w2 + " " + rest && IsWord(w1) && IsWord(w2)
    ensures Words(line) == [w1, w2] + Words(rest)
  {
    assert line == w1 + " " + (w2 + " " + rest);
    WordsCons(w1, " ", w2 + " " + rest);
    WordsCons(w2, " ", rest);
    ConsCons(w1, w2, Words(rest));
  }

  /** An application's argument string split at every comma. */
  function Fields(s: string): (fs: seq<string>)
    ensures |fs| > 0
    decreases |s|
  {
    match SplitOnce(s, ',')
    case (a, None) => [a]
    case (a, Some(b)) => [a] + Fields(b)
  }

  /** Fields joined by commas. */
  function JoinFields(fs: seq<string>): string
    requires |fs| > 0
    decreases |fs|
  {
    if |fs| == 1 then fs[0] else fs[0] + "," + JoinFields(fs[1..])
  }

  predicate NoComma(s: string) {
    ',' !in s
  }

  /** The fields of an argument string that is the given fields joined by commas. */
  lemma ArgsFields(args: string, fs: seq<string>)
    requires |fs| > 0 && args == JoinFields(fs)
    requires forall i :: 0 <= i < |fs| ==> NoComma(fs[i])
    ensures Fields(args) == fs
  {
    FieldsOfJoin(fs);
  }

  lemma Join2(a: string, b: string)
    ensures JoinFields([a, b]) == a + "," + b
  {
    assert [a, b][1..] == [b];
  }

  lemma Join3(a: string, b: string, c: string)
    ensures JoinFields([a, b, c]) == a + "," + b + "," + c
  {
    assert [a, b, c][1..] == [b, c];
    Join2(b, c);
  }

  /** Splitting fields joined by commas gives the fields back, provided none of them
      holds a comma. */
  lemma {:induction false} FieldsOfJoin(fs: seq<string>)
    requires |fs| > 0 && forall i :: 0 <= i < |fs| ==> NoComma(fs[i])
    ensures Fields(JoinFields(fs)) == fs
    decreases |fs|
  {
    if |fs| == 1 {
      assert SplitOnce(fs[0], ',') == (fs[0], None);
    } else {
      var rest := JoinFields(fs[1..]);
      assert fs[0] + "," + rest == fs[0] + [','] + rest;
      SplitOnceJoin(fs[0], ',', rest);
      FieldsOfJoin(fs[1..]);
      assert fs == [fs[0]] + fs[1..];
    }
  }

  // ---------------------------------------------------------------- exec and variables

  /** `exec(app, args)`: `EXEC app`, then a space and the arguments unless they are nil. */
  function ExecLine(app: string, args: Option<string>): string {
    "EXEC " + app + (if args.Some? then " " + args.value else "")
  }

  /** The line splits into `EXEC`, the application, and the words of the arguments. */
  lemma ExecWords(app: string, args: Option<string>)
    requires IsWord(app)
    ensures Words(ExecLine(app, args)) == ["EXEC", app] + (if args.Some? then Words(args.value) else [])
  {
    if args.Some? {
      ExecWordsWith(ExecLine(app, args), app, args.value);
    } else {
      ExecWordsBare(ExecLine(app, args), app);
    }
  }

  lemma ExecWordsWith(line: string, app: string, a: string)
    requires line == "EXEC " + app + " " + a && IsWord(app)
    ensures Words(line) == ["EXEC", app] + Words(a)
  {
    assert "EXEC " == "EXEC" + " ";
    TwoWordsThen(line, "EXEC", app, a);
  }

  lemma ExecWordsBare(line: string, app: string)
    requires line == "EXEC " + app && IsWord(app)
    ensures Words(line) == ["EXEC", app]
  {
    assert line == Unwords(["EXEC", app]) by {
      assert ["EXEC", app][1..] == [app];
    }
    LineWords(line, ["EXEC", app]);
  }

  /** `get_variable(var)`. */
  function GetVariableLine(name: string): string {
    "GET VARIABLE " + name
  }

  lemma GetVariableWords(name: string)
    requires IsWord(name)
    ensures Words(GetVariableLine(name)) == ["GET", "VARIABLE", name]
  {
    var line := GetVariableLine(name);
    assert line == Unwords(["GET", "VARIABLE", name]) by { Unwords3("GET", "VARIABLE", name); }
    LineWords(line, ["GET", "VARIABLE", name]);
  }

  /** The value `set_variable` sends: two double quotes for nil or the empty string,
      which would otherwise leave the command without its value. */
  function SetValue(val: Option<string>): (v: string)
    ensures |v| > 0
    ensures val.Some? && val.value != "" ==> v == val.value
    ensures val.None? || val.value == "" ==> v == "\"\""
  {
    if val.None? || val.value == "" then "\"\"" else val.value
  }

  /** `set_variable(var, val)`. */
  function SetVariableLine(name: string, val: Option<string>): string {
    "SET VARIABLE " + name + " " + SetValue(val)
  }

  /** The command always carries a value word: the given one, or `""` for nil and the
      empty string alike. */
  lemma SetVariableWords(name: string, val: Option<string>)
    requires IsWord(name)
    requires val.Some? && val.value != "" ==> IsWord(val.value)
    ensures Words(SetVariableLine(name, val)) ==
      ["SET", "VARIABLE", name, if val.Some? && val.value != "" then val.value else "\"\""]
    ensures SetVariableLine(name, None) == SetVariableLine(name, Some(""))
  {
    SetVariableWordsOf(SetVariableLine(name, val), name, SetValue(val));
  }

  lemma SetVariableWordsOf(line: string, name: string, value: string)
    requires line == "SET VARIABLE " + name + " " + value && IsWord(name) && IsWord(value)
    ensures Words(line) == ["SET", "VARIABLE", name, value]
  {
    assert line == Unwords(["SET", "VARIABLE", name, value]) by {
      Unwords4("SET", "VARIABLE", name, value);
    }
    LineWords(line, ["SET", "VARIABLE", name, value]);
  }

  // ---------------------------------------------------------------- digits

  /** `get_data(file, timeout, maxdigits)`: the digit limit is sent only after a timeout,
      since Asterisk reads the arguments by position. */
  function GetDataLine(file: string, timeout: Option<string>, maxdigits: Option<string>): string {
    "GET DATA " + file
      + (if timeout.Some? then " " + timeout.value else "")
      + (if timeout.Some? && maxdigits.Some? then " " + maxdigits.value else "")
  }

  lemma GetDataWords(file: string, timeout: Option<string>, maxdigits: Option<string>)
    requires IsWord(file)
    requires timeout.Some? ==> IsWord(timeout.value)
    requires maxdigits.Some? ==> IsWord(maxdigits.value)
    ensures timeout.None? ==> Words(GetDataLine(file, timeout, maxdigits)) == ["GET", "DATA", file]
    ensures timeout.Some? && maxdigits.None? ==>
      Words(GetDataLine(file, timeout, maxdigits)) == ["GET", "DATA", file, timeout.value]
    ensures timeout.Some? && maxdigits.Some? ==>
      Words(GetDataLine(file, timeout, maxdigits)) == ["GET", "DATA", file, timeout.value, maxdigits.value]
  {
    var line := GetDataLine(file, timeout, maxdigits);
    if timeout.Some? && maxdigits.Some? {
      GetDataWords5(line, file, timeout.value, maxdigits.value);
    } else if timeout.Some? {
      GetDataWords4(line, file, timeout.value);
    } else {
      GetDataWords3(line, file, maxdigits);
    }
  }

  lemma GetDataWords5(line: string, file: string, t: string, m: string)
    requires line == GetDataLine(file, Some(t), Some(m)) && IsWord(file) && IsWord(t) && IsWord(m)
    ensures Words(line) == ["GET", "DATA", file, t, m]
  {
    assert line == Unwords(["GET", "DATA", file, t, m]) by { Unwords5("GET", "DATA", file, t, m); }
    LineWords(line, ["GET", "DATA", file, t, m]);
  }

  lemma GetDataWords4(line: string, file: string, t: string)
    requires line == GetDataLine(file, Some(t), None) && IsWord(file) && IsWord(t)
    ensures Words(line) == ["GET", "DATA", file, t]
  {
    assert line == Unwords(["GET", "DATA", file, t]) by {
      assert line == "GET DATA " + file + " " + t + "";
      Unwords4("GET", "DATA", file, t);
    }
    LineWords(line, ["GET", "DATA", file, t]);
  }

  lemma GetDataWords3(line: string, file: string, m: Option<string>)
    requires line == GetDataLine(file, None, m) && IsWord(file)
    ensures Words(line) == ["GET", "DATA", file]
  {
    assert line == Unwords(["GET", "DATA", file]) by {
      assert line == "GET DATA " + file + "" + "";
      Unwords3("GET", "DATA", file);
    }
    LineWords(line, ["GET", "DATA", file]);
  }

  lemma GetDataNeedsTimeout(file: string, maxdigits: Option<string>)
    ensures GetDataLine(file, None, maxdigits) == GetDataLine(file, None, None) == "GET DATA " + file
  {
  }

  /** The default `timeout = -1` of `wait_for_digit`: wait without limit. */
  const DefaultDigitTimeout: Option<string> := Some("-1")

  /** `wait_for_digit(timeout)`: the timeout is always interpolated, so an explicit nil
      leaves a trailing space and no fourth word. */
  function WaitForDigitLine(timeout: Option<string>): string {
    "WAIT FOR DIGIT " + Interpolate(timeout)
  }

  lemma WaitForDigitWords(timeout: string)
    requires IsWord(timeout)
    ensures Words(WaitForDigitLine(Some(timeout))) == ["WAIT", "FOR", "DIGIT", timeout]
  {
    var line := WaitForDigitLine(Some(timeout));
    var ws := ["WAIT", "FOR", "DIGIT", timeout];
    assert line == Unwords(ws) by { Unwords4("WAIT", "FOR", "DIGIT", timeout); }
    LineWords(line, ws);
  }

  /** Without an argument the helper waits without limit. */
  lemma WaitForDigitDefault()
    ensures Words(WaitForDigitLine(DefaultDigitTimeout)) == ["WAIT", "FOR", "DIGIT", "-1"]
  {
    WaitForDigitWords("-1");
  }

  // ---------------------------------------------------------------- dial and originate

  /** The options hash of `dial`: `continue_after_hangup` (default true) adds `g`,
      `musiconhold` (default false) adds `m`, `extra` is appended as it is. */
  datatype DialOptions = DialOptions(continueAfterHangup: bool, musicOnHold: bool, extra: Option<string>)

  const DefaultDialOptions := DialOptions(true, false, None)

  /** The third field of the `Dial` arguments. */
  function DialFlags(time: Option<string>, opts: DialOptions): string {
    (if opts.continueAfterHangup then "g" else "")
      + (if opts.musicOnHold then "m" else "")
      + (if time.Some? then "S(" + time.value + ")" else "")
      + (if opts.extra.Some? then opts.extra.value else "")
  }

  /** `dial(number, waittime, time, params)`: `number,waittime,flags`, with an empty
      second field when there is no wait time. */
  function DialArgs(number: string, waittime: Option<string>, time: Option<string>, opts: DialOptions): string {
    number + "," + (if waittime.Some? then waittime.value else "") + "," + DialFlags(time, opts)
  }

  /** `Dial` receives exactly three fields: the number, the wait time (possibly empty)
      and the flags. */
  lemma DialFields(number: string, waittime: Option<string>, time: Option<string>, opts: DialOptions)
    requires NoComma(number)
    requires waittime.Some? ==> NoComma(waittime.value)
    requires time.Some? ==> NoComma(time.value)
    requires opts.extra.Some? ==> NoComma(opts.extra.value)
    ensures Fields(DialArgs(number, waittime, time, opts)) ==
      [number, if waittime.Some? then waittime.value else "", DialFlags(time, opts)]
  {
    var w := if waittime.Some? then waittime.value else "";
    var f := DialFlags(time, opts);
    assert NoComma(f) by {
      var g := if opts.continueAfterHangup then "g" else "";
      var m := if opts.musicOnHold then "m" else "";
      var s := if time.Some? then "S(" + time.value + ")" else "";
      var x := if opts.extra.Some? then opts.extra.value else "";
      assert f == g + m + s + x;
      assert NoComma(s);
    }
    Join3(number, w, f);
    FieldsOfJoin([number, w, f]);
  }

  /** With the default options and no time limit the only flag is `g`. */
  lemma DialDefaults(number: string)
    requires NoComma(number)
    ensures DialArgs(number, None, None, DefaultDialOptions) == number + ",,g"
    ensures Fields(DialArgs(number, None, None, DefaultDialOptions)) == [number, "", "g"]
  {
    DialFields(number, None, None, DefaultDialOptions);
    assert DialFlags(None, DefaultDialOptions) == "g";
  }

  /** Why `originate` refuses its arguments, checked in the code's order: no argument
      after the type, then a type other than `app` and `exten`. */
  function OriginateRejection(kind: string, params: seq<string>): (e: Option<string>)
    ensures e.None? <==> |params| >= 1 && (kind == "app" || kind == "exten")
    ensures |params| == 0 ==> e == Some("Must specify the app name or context")
    ensures |params| >= 1 && e.Some? ==> e == Some("Type must be \"app\" or \"exten\"")
  {
    if |params| < 1 then Some("Must specify the app name or context")
    else if kind != "app" && kind != "exten" then Some("Type must be \"app\" or \"exten\"")
    else None
  }

  /** `,p` for every parameter, in order. */
  function Prefixed(ps: seq<string>): string
    decreases |ps|
  {
    if ps == [] then "" else Prefixed(ps[..|ps| - 1]) + "," + ps[|ps| - 1]
  }

  /** `originate(number, type, *params)`: `number,type,` and the first parameter, then
      every parameter again behind a comma. */
  function OriginateArgs(number: string, kind: string, params: seq<string>): string
    requires |params| >= 1
  {
    number + "," + kind + "," + params[0] + Prefixed(params)
  }

  /** The loop of `originate` appends one `,p` per parameter. */
  lemma PrefixedStep(ps: seq<string>, i: nat)
    requires i < |ps|
    ensures Prefixed(ps[..i + 1]) == Prefixed(ps[..i]) + ("," + ps[i])
  {
    assert ps[..i + 1][..i] == ps[..i];
  }

  lemma {:induction false} PrefixedJoin(first: string, ps: seq<string>)
    ensures first + Prefixed(ps) == JoinFields([first] + ps)
    decreases |ps|
  {
    if ps != [] {
      var init, last := ps[..|ps| - 1], ps[|ps| - 1];
      PrefixedJoin(first, init);
      JoinSnoc([first] + init, last);
      assert [first] + init + [last] == [first] + ps;
    } else {
      assert [first] + ps == [first];
    }
  }

  lemma {:induction false} JoinSnoc(fs: seq<string>, last: string)
    requires |fs| > 0
    ensures JoinFields(fs + [last]) == JoinFields(fs) + "," + last
    decreases |fs|
  {
    if |fs| == 1 {
      assert (fs + [last])[1..] == [last];
    } else {
      assert (fs + [last])[1..] == fs[1..] + [last];
      JoinSnoc(fs[1..], last);
    }
  }

  /** `Originate` receives the number, the type, and then the first parameter twice:
      once from `params.first` and once from the loop over all of them. */
  lemma OriginateFields(number: string, kind: string, params: seq<string>)
    requires |params| >= 1
    requires NoComma(number) && NoComma(kind) && forall i :: 0 <= i < |params| ==> NoComma(params[i])
    ensures Fields(OriginateArgs(number, kind, params)) == [number, kind, params[0]] + params
    ensures |Fields(OriginateArgs(number, kind, params))| == |params| + 3
  {
    var fs := [number, kind, params[0]] + params;
    PrefixedJoin(params[0], params);
    assert OriginateArgs(number, kind, params) == number + "," + (kind + "," + (params[0] + Prefixed(params)));
    assert JoinFields(fs) == number + "," + JoinFields(fs[1..]);
    assert fs[1..][1..] == [params[0]] + params;
    assert JoinFields(fs[1..]) == kind + "," + JoinFields([params[0]] + params);
    FieldsOfJoin(fs);
  }

  // ---------------------------------------------------------------- applications

  /** `playback(file, args)`: the application and its data form one argument of `exec`. */
  function PlaybackApp(file: string, args: Option<string>): string {
    "PLAYBACK " + PlaybackData(file, args)
  }

  /** The data of `Playback`: the file, then a comma and the options when given. */
  function PlaybackData(file: string, args: Option<string>): string {
    file + (if args.Some? then "," + args.value else "")
  }

  /** The line splits into `EXEC`, `PLAYBACK` and the data as one word. */
  lemma PlaybackWords(file: string, args: Option<string>)
    requires IsWord(file)
    requires args.Some? ==> IsWord(args.value)
    ensures Words(ExecLine(PlaybackApp(file, args), None)) == ["EXEC", "PLAYBACK", PlaybackData(file, args)]
  {
    var data := PlaybackData(file, args);
    assert IsWord(data) by {
      if args.Some? {
        forall j | 0 <= j < |data| ensures !IsSpace(data[j]) {
          if j < |file| { assert data[j] == file[j]; }
          else if j > |file| { assert data[j] == args.value[j - |file| - 1]; }
        }
      }
    }
    var line := ExecLine(PlaybackApp(file, args), None);
    assert line == Unwords(["EXEC", "PLAYBACK", data]) by { Unwords3("EXEC", "PLAYBACK", data); }
    LineWords(line, ["EXEC", "PLAYBACK", data]);
  }

  /** `Playback` receives the file and, when given, the options as a second field. */
  lemma PlaybackFields(file: string, args: Option<string>)
    requires NoComma(file)
    requires args.Some? ==> NoComma(args.value)
    ensures Fields(PlaybackData(file, args)) == [file] + (if args.Some? then [args.value] else [])
  {
    var data := PlaybackData(file, args);
    if args.Some? {
      assert data == JoinFields([file, args.value]) by { Join2(file, args.value); }
      ArgsFields(data, [file, args.value]);
    } else {
      ArgsFields(data, [file]);
    }
  }

  /** `musiconhold(cls)`. */
  function MusicOnHoldApp(cls: Option<string>): string {
    "MUSICONHOLD" + (if cls.Some? then " " + cls.value else "")
  }

  lemma MusicOnHoldWords(cls: Option<string>)
    requires cls.Some? ==> IsWord(cls.value)
    ensures Words(ExecLine(MusicOnHoldApp(cls), None)) ==
      ["EXEC", "MUSICONHOLD"] + (if cls.Some? then [cls.value] else [])
  {
    var ws := ["EXEC", "MUSICONHOLD"] + (if cls.Some? then [cls.value] else []);
    var line := ExecLine(MusicOnHoldApp(cls), None);
    assert line == Unwords(ws) by {
      if cls.Some? { Unwords3("EXEC", "MUSICONHOLD", cls.value); } else { assert ws[1..] == ["MUSICONHOLD"]; }
    }
    LineWords(line, ws);
  }

  /** The variable `setmusiconhold` assigns. */
  const MusicClassVariable := "CHANNEL(musicclass)"

  /** The variable `set_sip_message` assigns, and its value: the body in double quotes. */
  const SipBodyVariable := "MESSAGE(body)"

  function SipMessageValue(body: Option<string>): string {
    "\"" + Interpolate(body) + "\""
  }

  /** The quoted body is never empty, so `set_variable` sends it unchanged; a nil
      body sends the same `""` as an empty one. */
  lemma SipMessageSent(body: Option<string>)
    ensures SetVariableLine(SipBodyVariable, Some(SipMessageValue(body))) ==
      "SET VARIABLE MESSAGE(body) \"" + Interpolate(body) + "\""
    ensures SipMessageValue(None) == SipMessageValue(Some("")) == "\"\""
  {
    var x := Interpolate(body);
    var v := SipMessageValue(body);
    assert SetValue(Some(v)) == v by {
      assert |v| >= 2;
    }
    var prefix := "SET VARIABLE MESSAGE(body) ";
    assert SetVariableLine(SipBodyVariable, Some(v)) == prefix + v by {
      assert "SET VARIABLE " + SipBodyVariable + " " == prefix;
    }
    assert prefix + v == prefix + "\"" + x + "\"" by {
      Assoc(prefix, "\"" + x, "\"");
      Assoc(prefix, "\"", x);
    }
    assert prefix + "\"" == "SET VARIABLE MESSAGE(body) \"";
  }

  /** `send_sip_message(to, from)`: the `MessageSend` arguments, `sip:to`, then the
      sender in angle brackets when there is one. */
  function SendSipArgs(to: Option<string>, from: Option<string>): string {
    "sip:" + Interpolate(to) + (if from.Some? then ",<sip:" + from.value + ">" else "")
  }

  lemma SendSipFields(to: string, from: Option<string>)
    requires NoComma(to)
    requires from.Some? ==> NoComma(from.value)
    ensures Fields(SendSipArgs(Some(to), from)) ==
      ["sip:" + to] + (if from.Some? then ["<sip:" + from.value + ">"] else [])
  {
    var fs := ["sip:" + to] + (if from.Some? then ["<sip:" + from.value + ">"] else []);
    var args := SendSipArgs(Some(to), from);
    assert NoComma("sip:" + to);
    if from.Some? {
      assert NoComma("<sip:" + from.value + ">");
      assert args == JoinFields(fs) by { Join2("sip:" + to, "<sip:" + from.value + ">"); }
    } else {
      assert args == JoinFields(fs);
    }
    ArgsFields(args, fs);
  }
}
