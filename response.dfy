/** What the private `read` of lib/asterisk/agi/connection.rb makes of the lines Asterisk
    sends back: a status code in the first three characters, then a reply (an integer, a
    string or a hash) for 200, and an error for everything else. `ReadSpec` follows one
    whole `read` over the lines still to come, including the skipped `HANGUP` notices and
    the continuation lines of a multi-line 520. */
module AgiResponse {
  import opened Wrappers
  import opened RubyText

  /** A value of the reply hash: the integer stored under `result`, a string, or nil. */
  datatype Value = VInt(i: int) | VStr(s: string) | VNil

  /** What `read` returns: `res`, `data[1..-2]`, or the hash. */
  datatype Reply = Int(n: int) | Str(s: string) | Record(fields: map<string, Value>)

  /** What a command raises. `ArgumentError` comes from `originate`, before anything is
      sent. `Unhandled` stands for the errors the code does not raise on purpose: a
      method called on nil, or an `IOError` from writing to a closed socket. */
  datatype AgiError =
    | Hangup
    | InvalidCommand(message: string)
    | InvalidResponse(message: string)
    | ArgumentError(message: string)
    | Unhandled

  datatype Outcome = Ok(reply: Reply) | Err(error: AgiError)

  /** `STATUS_CODES`. */
  const StatusCodes: map<int, string> := map[
    200 := "OK",
    510 := "Invalid or unknown command",
    511 := "Command Not Permitted on a dead channel",
    520 := "Invalid command syntax."]

  /** `l[0..2].to_i`: the number in the first three characters, 0 when there is none. */
  function Code(l: string): int {
    ToI(l[..if |l| < 3 then |l| else 3])
  }

  /** `l[4..-1]`: nil for a line shorter than four characters. */
  function Data(l: string): (d: Option<string>)
    ensures d.Some? <==> |l| >= 4
    ensures d.Some? ==> l == l[..4] + d.value
  {
    if |l| >= 4 then Some(l[4..]) else None
  }

  /** A response line either settles the read or, for `520-`, asks for the lines of
      usage text that follow it. */
  datatype Verdict = Final(outcome: Outcome) | Usage(data: string)

  /** Intermediate text of a failure message, as `"... #{code} ... \"#{l}\"."` builds it. */
  function UnknownStatus(code: int, l: string): string {
    "Received unknown status code " + IntToString(code) + " from AGI, data: \"" + l + "\"."
  }

  /** One stripped response line other than `HANGUP`, in the order the code tests it:
      511 is a hangup, 510 an unknown command, 520 a syntax error (its fourth character
      is taken without a check, so a bare `520` fails there), 200 is decoded, and every
      other code, including the 0 of a line that does not start with a number, is an
      invalid response. */
  function Classify(l: string): (v: Verdict)
    ensures v == Final(Err(Hangup)) <==> Code(l) == 511
    ensures v.Usage? <==> Code(l) == 520 && |l| >= 4 && l[3] == '-'
    ensures v.Usage? ==> v.data == l[4..]
    ensures v.Final? && v.outcome.Ok? ==> Code(l) == 200
  {
    var code := Code(l);
    if code == 511 then Final(Err(Hangup))
    else if code == 510 then Final(Err(InvalidCommand(StatusCodes[510] + " " + Interpolate(Data(l)))))
    else if code == 520 then
      if |l| < 4 then Final(Err(Unhandled))
      else if l[3] == '-' then Usage(l[4..])
      else Final(Err(InvalidCommand(StatusCodes[520] + " " + l[4..] + "  Proper usage not available.")))
    else if code == 200 then Final(DecodeSuccess(Data(l)))
    else Final(Err(InvalidResponse(UnknownStatus(code, l))))
  }

  /** The read of a line that settles at once takes that line only. */
  lemma RespondFinal(l: string, more: seq<string>)
    requires Classify(l).Final?
    ensures Respond(l, more) == Exchange(Classify(l).outcome, 1)
  {
  }

  lemma RespondUsage(l: string, more: seq<string>)
    requires Classify(l).Usage?
    ensures Respond(l, more) == UsageText(Classify(l).data, more)
  {
  }

  /** The branches of `Classify`, one code at a time. */
  lemma ClassifyCode510(l: string)
    requires Code(l) == 510
    ensures Classify(l) == Final(Err(InvalidCommand(StatusCodes[510] + " " + Interpolate(Data(l)))))
  {
  }

  lemma ClassifyCode520(l: string)
    requires Code(l) == 520
    ensures |l| < 4 ==> Classify(l) == Final(Err(Unhandled))
    ensures |l| >= 4 && l[3] == '-' ==> Classify(l) == Usage(l[4..])
    ensures |l| >= 4 && l[3] != '-' ==> Classify(l) == Final(Err(InvalidCommand(StatusCodes[520] + " " + l[4..] + "  Proper usage not available.")))
  {
    var code := Code(l);
    assert code != 510 && code != 511;
  }

  lemma ClassifyOther(l: string)
    requires Code(l) != 510 && Code(l) != 511 && Code(l) != 520 && Code(l) != 200
    ensures Classify(l) == Final(Err(InvalidResponse(UnknownStatus(Code(l), l))))
  {
  }

  /** `res.split("=", 2).last.to_i`: the number after the first `=`, or the number the
      whole token starts with when it has no `=`. */
  function ResultValue(res: string): int {
    var (head, tail) := SplitOnce(res, '=');
    ToI(if tail.Some? then tail.value else head)
  }

  /** The payload of a 200 line. With nothing after `result=N` it is the integer N; with
      a remainder in parentheses it is the text between them; otherwise the hash. A
      missing or blank payload makes the code call a method on nil. */
  function DecodeSuccess(data: Option<string>): (r: Outcome)
    ensures r.Err? ==> r.error == Unhandled
    ensures r.Err? <==> data.None? || Strip(data.value) == []
  {
    match data
    case None => Err(Unhandled)
    case Some(d) =>
      var t := Strip(d);
      if t == [] then Err(Unhandled) else DecodePayload(t)
  }

  /** A stripped, non-empty payload: `result=N`, then an optional remainder. */
  function DecodePayload(t: string): (r: Outcome)
    requires |t| > 0 && !IsSpace(t[0])
    ensures r.Ok?
  {
    var (res, rest) := SplitWord(t);
    var n := ResultValue(res);
    match rest
    case None => Ok(Int(n))
    case Some(rem) =>
      if StartsWith(rem, "(") && EndsWith(rem, ")") then Ok(Str(Inner(rem)))
      else Ok(Record(BuildHash(n, rem)))
  }

  /** The `key=value` tokens of the remainder: all of its words, without the first when
      the remainder starts with `(`. */
  function Pairs(rem: string): seq<string> {
    var parts := Words(rem);
    if StartsWith(rem, "(") && |parts| > 0 then parts[1..] else parts
  }

  /** The hash before the `key=value` tokens: `result`, and `data` taken from the first
      word when the remainder starts with `(` (only that word: a parenthesised text
      with a space in it is cut at the space). */
  function BaseHash(n: int, rem: string): (m: map<string, Value>)
    ensures "result" in m && m["result"] == VInt(n)
    ensures "data" in m <==> StartsWith(rem, "(")
    ensures forall k :: k in m ==> k == "result" || k == "data"
  {
    var parts := Words(rem);
    if StartsWith(rem, "(") && |parts| > 0 then map["result" := VInt(n), "data" := VStr(Inner(parts[0]))]
    else map["result" := VInt(n)]
  }

  function BuildHash(n: int, rem: string): map<string, Value> {
    AddPairs(BaseHash(n, rem), Pairs(rem))
  }

  /** `k, v = p.split("=", 2)`: the key. */
  function PairKey(p: string): string {
    SplitOnce(p, '=').0
  }

  /** ... and the value, nil when the token has no `=`. */
  function PairValue(p: string): Value {
    var tail := SplitOnce(p, '=').1;
    if tail.Some? then VStr(tail.value) else VNil
  }

  /** `parts.each { |p| h[k.to_sym] = v }`: one token after the other, a later token
      replacing the value an earlier one stored under the same key. */
  function AddPairs(m: map<string, Value>, ps: seq<string>): map<string, Value>
    decreases |ps|
  {
    if ps == [] then m
    else
      var last := ps[|ps| - 1];
      AddPairs(m, ps[..|ps| - 1])[PairKey(last) := PairValue(last)]
  }

  /** Whether a stripped continuation line ends the usage text. */
  predicate EndsUsage(line: string) {
    StartsWith(Strip(line), "520")
  }

  /** The usage text of a multi-line 520: the stripped lines, run together. */
  function Joined(lines: seq<string>): string {
    if lines == [] then "" else Strip(lines[0]) + Joined(lines[1..])
  }

  /** The `while l = @sck.gets.strip` loop: the usage text up to the line starting with
      `520`, and how many lines it took, that line included; nil when the input ends
      first (the code then calls `strip` on nil). */
  function Continuation(lines: seq<string>): (r: Option<(string, nat)>)
    ensures r.Some? ==> 1 <= r.value.1 <= |lines|
  {
    if |lines| == 0 then None
    else if EndsUsage(lines[0]) then Some(("", 1))
    else
      match Continuation(lines[1..])
      case None => None
      case Some(c) => Some((Strip(lines[0]) + c.0, c.1 + 1))
  }

  /** What one `read` returns and how many lines it takes from the input. */
  datatype Exchange = Exchange(outcome: Outcome, used: nat)

  /** One `read` over the lines still to come. End of input is a hangup; `HANGUP` lines
      are skipped. */
  function ReadSpec(input: seq<string>): (e: Exchange)
    ensures e.used <= |input|
    ensures |input| > 0 ==> e.used > 0
    decreases |input|
  {
    if |input| == 0 then Exchange(Err(Hangup), 0)
    else if Strip(input[0]) == "HANGUP" then
      var e := ReadSpec(input[1..]);
      Exchange(e.outcome, e.used + 1)
    else Respond(Strip(input[0]), input[1..])
  }

  /** The read of a stripped line other than `HANGUP`, with `more` the lines after it. */
  function Respond(l: string, more: seq<string>): (e: Exchange)
    ensures e.outcome == Err(Hangup) <==> Code(l) == 511
    ensures 1 <= e.used <= 1 + |more|
    ensures e.used > 1 ==> Classify(l).Usage?
  {
    match Classify(l)
    case Final(o) => Exchange(o, 1)
    case Usage(data) => UsageText(data, more)
  }

  /** A `520-` line: the usage lines up to the closing `520` line are appended to the
      message; when the input ends first the code calls `strip` on nil. */
  function UsageText(data: string, more: seq<string>): (e: Exchange)
    ensures e.outcome.Err? && e.outcome.error != Hangup
    ensures 1 <= e.used <= 1 + |more|
  {
    match Continuation(more)
    case None => Exchange(Err(Unhandled), 1 + |more|)
    case Some(c) =>
      Exchange(Err(InvalidCommand(StatusCodes[520] + " " + data + "  Proper usage follows:\n" + c.0)), 1 + c.1)
  }

  // ---------------------------------------------------------------- HANGUP and 511

  predicate IsHangupNotice(line: string) {
    Strip(line) == "HANGUP"
  }

  /** How many `HANGUP` notices come before the first real reply. */
  function LeadingHangups(input: seq<string>): (k: nat)
    ensures k <= |input|
    ensures k < |input| ==> !IsHangupNotice(input[k])
    ensures forall j :: 0 <= j < k ==> IsHangupNotice(input[j])
  {
    if |input| == 0 || !IsHangupNotice(input[0]) then 0 else 1 + LeadingHangups(input[1..])
  }

  /** `HANGUP` notices in front of a reply are consumed and change nothing else. */
  lemma {:induction false} ReadSkipsHangups(hs: seq<string>, rest: seq<string>)
    requires forall j :: 0 <= j < |hs| ==> IsHangupNotice(hs[j])
    ensures ReadSpec(hs + rest) == Exchange(ReadSpec(rest).outcome, |hs| + ReadSpec(rest).used)
    decreases |hs|
  {
    if hs == [] {
      assert hs + rest == rest;
    } else {
      var input := hs + rest;
      assert input[0] == hs[0];
      assert input[1..] == hs[1..] + rest;
      ReadSkipsHangups(hs[1..], rest);
    }
  }

  /** A read raises `Hangup` exactly when, after the `HANGUP` notices, the input has
      ended or the next line carries code 511. */
  lemma {:induction false} HangupExactly(input: seq<string>)
    ensures ReadSpec(input).outcome == Err(Hangup) <==>
      (var k := LeadingHangups(input); k == |input| || Code(Strip(input[k])) == 511)
    decreases |input|
  {
    if |input| > 0 && IsHangupNotice(input[0]) {
      HangupExactly(input[1..]);
      var k := LeadingHangups(input[1..]);
      assert LeadingHangups(input) == 1 + k;
      assert k < |input| - 1 ==> input[1..][k] == input[k + 1];
    }
  }

  // ---------------------------------------------------------------- status codes

  /** The code of a line that starts with three digits is their decimal value. */
  lemma CodeOfLine(l: string, a: char, b: char, c: char)
    requires |l| >= 3 && l[0] == a && l[1] == b && l[2] == c
    requires IsDigit(a) && IsDigit(b) && IsDigit(c)
    ensures Code(l) == 100 * DigitValue(a) + 10 * DigitValue(b) + DigitValue(c)
  {
    assert l[..3] == [a, b, c];
    ToIOfThreeDigits(a, b, c);
  }

  lemma ThreeDigits(n: nat)
    requires 100 <= n < 1000
    ensures IntToString(n) == [DigitChar(n / 100), DigitChar(n / 10 % 10), DigitChar(n % 10)]
  {
    var m := n / 10;
    assert m / 10 == n / 100;
    assert NatToString(m / 10) == [DigitChar(n / 100)];
    assert NatToString(m) == [DigitChar(n / 100)] + [DigitChar(m % 10)];
  }

  /** A line that starts with a three-digit number carries that number as its code,
      whatever follows. */
  lemma CodeOfStatus(n: nat, rest: string)
    requires 100 <= n < 1000
    ensures Code(IntToString(n) + rest) == n
  {
    ThreeDigits(n);
    var s := IntToString(n);
    assert (s + rest)[..3] == s;
    ToIOfIntToString(n);
  }

  lemma ClassifyAt510(l: string)
    requires Code(l) == 510 && |l| >= 4
    ensures Classify(l) == Final(Err(InvalidCommand(StatusCodes[510] + " " + l[4..])))
  {
  }

  /** `510 TEXT` is an unknown command whose message carries TEXT. */
  lemma Classify510(l: string, text: string)
    requires l == "510 " + text
    ensures Classify(l) == Final(Err(InvalidCommand("Invalid or unknown command " + text)))
  {
    assert l[0] == '5' && l[1] == '1' && l[2] == '0' && l[4..] == text;
    CodeOfLine(l, '5', '1', '0');
    ClassifyAt510(l);
    Reason510(text);
  }

  /** The reason of `STATUS_CODES[510]` and the separating space. */
  lemma Reason510(text: string)
    ensures StatusCodes[510] + " " + text == "Invalid or unknown command " + text
  {
    assert StatusCodes[510] == "Invalid or unknown command";
  }

  /** A bare `510` still raises, with nothing after the reason but its space. */
  lemma Classify510Bare(l: string)
    requires l == "510"
    ensures Classify(l) == Final(Err(InvalidCommand("Invalid or unknown command ")))
  {
    assert l[0] == '5' && l[1] == '1' && l[2] == '0' && |l| == 3;
    CodeOfLine(l, '5', '1', '0');
    ClassifyCode510(l);
    assert Interpolate(Data(l)) == "";
    Reason510("");
    assert "Invalid or unknown command " + "" == "Invalid or unknown command ";
  }

  /** `511 ...` is how Asterisk says the channel is gone. */
  lemma Classify511(l: string)
    requires |l| >= 3 && l[..3] == "511"
    ensures Classify(l) == Final(Err(Hangup))
  {
    assert l[0] == '5' && l[1] == '1' && l[2] == '1';
    CodeOfLine(l, '5', '1', '1');
    ClassifyAt511(l);
  }

  lemma ClassifyAt511(l: string)
    requires Code(l) == 511
    ensures Classify(l) == Final(Err(Hangup))
  {
  }

  lemma ClassifyAt520(l: string)
    requires Code(l) == 520 && |l| >= 4 && l[3] != '-'
    ensures Classify(l) == Final(Err(InvalidCommand(StatusCodes[520] + " " + l[4..] + "  Proper usage not available.")))
  {
  }

  /** A single-line `520 TEXT`: no usage text follows. */
  lemma Classify520(l: string, text: string)
    requires l == "520 " + text
    ensures Classify(l) ==
      Final(Err(InvalidCommand("Invalid command syntax. " + text + "  Proper usage not available.")))
  {
    assert l[0] == '5' && l[1] == '2' && l[2] == '0' && l[3] == ' ' && l[4..] == text;
    CodeOfLine(l, '5', '2', '0');
    ClassifyAt520(l);
    Reason520(text, "  Proper usage not available.");
  }

  /** The reason of `STATUS_CODES[520]`, the separating space, and what follows. */
  lemma Reason520(text: string, tail: string)
    ensures StatusCodes[520] + " " + text + tail == "Invalid command syntax. " + text + tail
  {
    assert StatusCodes[520] == "Invalid command syntax.";
  }

  /** A bare `520` has no fourth character to test and so ends in a Ruby error. */
  lemma Classify520Bare(l: string)
    requires l == "520"
    ensures Classify(l) == Final(Err(Unhandled))
  {
    assert l[0] == '5' && l[1] == '2' && l[2] == '0' && |l| == 3;
    CodeOfLine(l, '5', '2', '0');
    ClassifyCode520(l);
  }

  /** Every three-digit code other than the four the module knows is an invalid
      response, whose message quotes the code and the whole line. */
  lemma ClassifyUnknown(l: string, n: nat, rest: string)
    requires l == IntToString(n) + rest
    requires 100 <= n < 1000 && n != 200 && n != 510 && n != 511 && n != 520
    ensures Classify(l) == Final(Err(InvalidResponse(UnknownStatus(n, l))))
  {
    CodeOfStatus(n, rest);
    ClassifyOther(l);
  }

  /** `to_i` of a text with no digit in it is 0: whatever spaces, sign or letters it
      starts with, no digit follows them. */
  lemma ToIWithoutDigits(p: string)
    requires forall j :: 0 <= j < |p| ==> !IsDigit(p[j])
    ensures ToI(p) == 0
  {
    var t := SkipSpaces(p);
    assert forall k :: 0 <= k < |t| ==> t[k] == p[|p| - |t| + k];
    var u := if |t| > 0 && (t[0] == '-' || t[0] == '+') then t[1..] else t;
    assert |u| > 0 ==> !IsDigit(u[0]);
  }

  /** A line with no digit among its first three characters has code 0. */
  lemma CodeNonNumeric(l: string)
    requires forall j :: 0 <= j < |l| && j < 3 ==> !IsDigit(l[j])
    ensures Code(l) == 0
  {
    var p := l[..if |l| < 3 then |l| else 3];
    assert forall j :: 0 <= j < |p| ==> p[j] == l[j];
    ToIWithoutDigits(p);
  }

  /** A line with no digit among its first three characters, the empty line and a sign
      followed by letters included, has code 0: it is an invalid response that reports
      code 0, not a hangup. */
  lemma ClassifyNonNumeric(l: string)
    requires forall j :: 0 <= j < |l| && j < 3 ==> !IsDigit(l[j])
    ensures Classify(l) == Final(Err(InvalidResponse(UnknownStatus(0, l))))
    ensures UnknownStatus(0, l) == "Received unknown status code 0 from AGI, data: \"" + l + "\"."
  {
    CodeNonNumeric(l);
    ClassifyCodeZero(l);
    UnknownStatusZero(l);
  }

  lemma UnknownStatusZero(l: string)
    ensures UnknownStatus(0, l) == "Received unknown status code 0 from AGI, data: \"" + l + "\"."
  {
    ZeroText();
  }

  lemma ClassifyCodeZero(l: string)
    requires Code(l) == 0
    ensures Classify(l) == Final(Err(InvalidResponse(UnknownStatus(0, l))))
  {
    ClassifyOther(l);
  }

  lemma ZeroText()
    ensures IntToString(0) == "0"
  {
  }

  // ---------------------------------------------------------------- 520 with usage text

  lemma {:induction false} ContinuationOf(body: seq<string>, end: string, rest: seq<string>)
    requires forall j :: 0 <= j < |body| ==> !EndsUsage(body[j])
    requires EndsUsage(end)
    ensures Continuation(body + [end] + rest) == Some((Joined(body), |body| + 1))
    decreases |body|
  {
    var lines := body + [end] + rest;
    if body == [] {
      assert lines[0] == end;
    } else {
      assert lines[0] == body[0];
      assert lines[1..] == body[1..] + [end] + rest;
      ContinuationOf(body[1..], end, rest);
    }
  }

  /** The usage text grows by one stripped line at a time. */
  lemma {:induction false} JoinedSnoc(lines: seq<string>, line: string)
    ensures Joined(lines + [line]) == Joined(lines) + Strip(line)
    decreases |lines|
  {
    if lines == [] {
      assert [] + [line] == [line];
      assert [line][1..] == [];
    } else {
      assert (lines + [line])[0] == lines[0];
      assert (lines + [line])[1..] == lines[1..] + [line];
      JoinedSnoc(lines[1..], line);
    }
  }

  lemma {:induction false} ContinuationEof(body: seq<string>)
    requires forall j :: 0 <= j < |body| ==> !EndsUsage(body[j])
    ensures Continuation(body) == None
    decreases |body|
  {
    if body != [] {
      ContinuationEof(body[1..]);
    }
  }

  /** `UsageText` once the closing line has been found at index `j`. */
  lemma UsageTextFound(data: string, more: seq<string>, j: nat)
    requires j < |more| && EndsUsage(more[j])
    requires forall t :: 0 <= t < j ==> !EndsUsage(more[t])
    ensures UsageText(data, more) ==
      Exchange(Err(InvalidCommand(StatusCodes[520] + " " + data + "  Proper usage follows:\n" + Joined(more[..j]))), j + 2)
  {
    assert more == more[..j] + [more[j]] + more[j + 1..];
    ContinuationOf(more[..j], more[j], more[j + 1..]);
  }

  /** `UsageText` when the input ends without a closing line. */
  lemma UsageTextEof(data: string, more: seq<string>)
    requires forall t :: 0 <= t < |more| ==> !EndsUsage(more[t])
    ensures UsageText(data, more) == Exchange(Err(Unhandled), 1 + |more|)
  {
    ContinuationEof(more);
  }

  lemma ClassifyUsage(l: string, text: string)
    requires l == "520-" + text
    ensures Classify(l) == Usage(text)
  {
    CodeOfLine(l, '5', '2', '0');
    assert l[3] == '-' && l[4..] == text;
  }

  lemma ReadFirst(input: seq<string>, first: string, more: seq<string>)
    requires input == [first] + more
    requires !IsHangupNotice(first)
    ensures ReadSpec(input) == Respond(Strip(first), more)
  {
    assert input[0] == first && input[1..] == more;
  }

  /** A multi-line 520: the first line's text, the fixed phrase and every usage line,
      stripped and run together, make the message; the lines up to and including the
      closing `520` line are consumed, nothing after them. */
  lemma Read520Usage(input: seq<string>, first: string, text: string, body: seq<string>, end: string, rest: seq<string>)
    requires input == [first] + (body + [end] + rest)
    requires Strip(first) == "520-" + text
    requires forall j :: 0 <= j < |body| ==> !EndsUsage(body[j])
    requires EndsUsage(end)
    ensures ReadSpec(input) ==
      Exchange(Err(InvalidCommand("Invalid command syntax. " + text + "  Proper usage follows:\n" + Joined(body))), |body| + 2)
  {
    ReadFirst(input, first, body + [end] + rest);
    ClassifyUsage(Strip(first), text);
    ContinuationOf(body, end, rest);
    Reason520(text, "  Proper usage follows:\n");
  }

  /** ... and when the input ends before the closing line, the code calls `strip` on
      nil, after having consumed everything. */
  lemma Read520Eof(input: seq<string>, first: string, text: string, body: seq<string>)
    requires input == [first] + body
    requires Strip(first) == "520-" + text
    requires forall j :: 0 <= j < |body| ==> !EndsUsage(body[j])
    ensures ReadSpec(input) == Exchange(Err(Unhandled), |body| + 1)
  {
    ReadFirst(input, first, body);
    ClassifyUsage(Strip(first), text);
    ContinuationEof(body);
  }

  // ---------------------------------------------------------------- 200

  lemma ClassifyAt200(l: string)
    requires Code(l) == 200
    ensures Classify(l) == Final(DecodeSuccess(Data(l)))
  {
  }

  /** A 200 line hands what follows its fourth character to the payload decoder. */
  lemma Classify200(l: string, payload: string)
    requires l == "200 " + payload
    ensures Classify(l) == Final(DecodeSuccess(Some(payload)))
  {
    CodeOfLine(l, '2', '0', '0');
    ClassifyAt200(l);
    assert l[4..] == payload;
  }

  /** The token `result=N` holds no white space. */
  lemma ResultTokenWord(res: string, n: int)
    requires res == "result=" + IntToString(n)
    ensures IsWord(res) && IsTrimmed(res)
  {
    var ds := IntToString(n);
    var m: nat := if n < 0 then -n else n;
    assert ds == if n < 0 then "-" + NatToString(m) else NatToString(m);
    assert forall j :: 0 <= j < |ds| ==> !IsSpace(ds[j]);
    forall j | 0 <= j < |res| ensures !IsSpace(res[j]) {
      if j >= 7 {
        assert res[j] == ds[j - 7];
      }
    }
    assert res[|res| - 1] == ds[|ds| - 1];
  }

  /** ... and carries N. */
  lemma ResultToken(res: string, n: int)
    requires res == "result=" + IntToString(n)
    ensures IsWord(res) && IsTrimmed(res)
    ensures ResultValue(res) == n
  {
    ResultTokenWord(res, n);
    var ds := IntToString(n);
    assert res == "result" + ['='] + ds;
    SplitOnceJoin("result", '=', ds);
    ToIOfIntToString(n);
  }

  /** The payload `result=N` alone is the integer N. */
  lemma DecodeInt(p: string, n: int)
    requires p == "result=" + IntToString(n)
    ensures DecodeSuccess(Some(p)) == Ok(Int(n))
  {
    ResultToken(p, n);
    DecodeBareWord(p);
  }

  /** A payload of one word is the integer after its `=`. */
  lemma DecodeBareWord(w: string)
    requires IsWord(w) && IsTrimmed(w)
    ensures DecodeSuccess(Some(w)) == Ok(Int(ResultValue(w)))
  {
    assert Strip(w) == w by {
      assert w == [] + w + [];
      StripPadded([], w, []);
    }
    assert WordEnd(w) == |w| by {
      WordEndOf(w, []);
      assert w + [] == w;
    }
  }

  /** A word, one space and a trimmed remainder: stripping changes nothing. */
  lemma PayloadTrimmed(p: string, res: string, rem: string)
    requires IsWord(res) && !IsStripSpace(res[0]) && p == res + " " + rem
    requires rem != [] && IsTrimmed(rem)
    ensures Strip(p) == p
  {
    assert p[0] == res[0];
    assert p[|p| - 1] == rem[|rem| - 1];
    assert p == [] + p + [];
    StripPadded([], p, []);
  }

  /** ... and `split(" ", 2)` gives back the word and the remainder. */
  lemma PayloadSplit(p: string, res: string, rem: string)
    requires IsWord(res) && p == res + " " + rem
    requires rem != [] && !IsSpace(rem[0])
    ensures |p| > 0 && !IsSpace(p[0]) && SplitWord(p) == (res, Some(rem))
  {
    assert p[0] == res[0];
    assert p == res + (" " + rem);
    WordEndOf(res, " " + rem);
    assert p[..|res|] == res && p[|res|..] == " " + rem;
    assert (" " + rem)[1..] == rem;
  }

  /** The payload `result=N REMAINDER`, split into the token and what follows it. */
  lemma SplitPayload(p: string, res: string, n: int, rem: string)
    requires res == "result=" + IntToString(n) && p == res + " " + rem
    requires rem != [] && !IsSpace(rem[0]) && IsTrimmed(rem)
    ensures Strip(p) == p && SplitWord(p) == (res, Some(rem)) && ResultValue(res) == n
  {
    ResultToken(res, n);
    PayloadTrimmed(p, res, rem);
    PayloadSplit(p, res, rem);
  }

  lemma DecodeAfterSplit(p: string, res: string, n: int, rem: string)
    requires Strip(p) == p && p != [] && SplitWord(p) == (res, Some(rem)) && ResultValue(res) == n
    ensures DecodeSuccess(Some(p)) ==
      if StartsWith(rem, "(") && EndsWith(rem, ")") then Ok(Str(Inner(rem))) else Ok(Record(BuildHash(n, rem)))
  {
  }

  lemma Parenthesised(rem: string, text: string)
    requires rem == "(" + text + ")"
    ensures rem != [] && !IsSpace(rem[0]) && IsTrimmed(rem)
    ensures StartsWith(rem, "(") && EndsWith(rem, ")") && Inner(rem) == text
  {
    assert rem[..1] == "(" && rem[|rem| - 1..] == ")";
    assert rem[1..|rem| - 1] == text;
  }

  /** `result=N (TEXT)` with nothing after the parenthesis returns TEXT whole, spaces
      and parentheses inside it included. */
  lemma DecodeStr(p: string, n: int, text: string)
    requires p == "result=" + IntToString(n) + " (" + text + ")"
    ensures DecodeSuccess(Some(p)) == Ok(Str(text))
  {
    var res := "result=" + IntToString(n);
    var rem := "(" + text + ")";
    assert p == res + " " + rem;
    Parenthesised(rem, text);
    SplitPayload(p, res, n, rem);
    DecodeAfterSplit(p, res, n, rem);
  }

  /** Any other remainder gives the hash. */
  lemma DecodeRecord(p: string, n: int, rem: string)
    requires p == "result=" + IntToString(n) + " " + rem
    requires rem != [] && !IsSpace(rem[0]) && IsTrimmed(rem)
    requires !(StartsWith(rem, "(") && EndsWith(rem, ")"))
    ensures DecodeSuccess(Some(p)) == Ok(Record(BuildHash(n, rem)))
  {
    var res := "result=" + IntToString(n);
    SplitPayload(p, res, n, rem);
    DecodeAfterSplit(p, res, n, rem);
  }

  // ---------------------------------------------------------------- the hash

  /** A key is in the hash exactly when the base holds it or some token yields it. */
  lemma {:induction false} PairsKeys(m: map<string, Value>, ps: seq<string>, k: string)
    ensures k in AddPairs(m, ps) <==> k in m || exists i :: 0 <= i < |ps| && PairKey(ps[i]) == k
    decreases |ps|
  {
    if ps != [] {
      var init := ps[..|ps| - 1];
      PairsKeys(m, init, k);
      forall i | 0 <= i < |init| ensures init[i] == ps[i] { }
      if k in AddPairs(m, ps) && k !in m && PairKey(ps[|ps| - 1]) != k {
        var i :| 0 <= i < |init| && PairKey(init[i]) == k;
        assert PairKey(ps[i]) == k;
      }
      if exists i :: 0 <= i < |ps| && PairKey(ps[i]) == k {
        var i :| 0 <= i < |ps| && PairKey(ps[i]) == k;
        if i < |init| {
          assert PairKey(init[i]) == k;
        }
      }
    }
  }

  /** The value under a key is that of the last token with this key. */
  lemma {:induction false} PairsLastWins(m: map<string, Value>, ps: seq<string>, i: nat)
    requires i < |ps|
    requires forall j :: i < j < |ps| ==> PairKey(ps[j]) != PairKey(ps[i])
    ensures PairKey(ps[i]) in AddPairs(m, ps) && AddPairs(m, ps)[PairKey(ps[i])] == PairValue(ps[i])
    decreases |ps|
  {
    var init := ps[..|ps| - 1];
    if i < |ps| - 1 {
      assert init[i] == ps[i];
      forall j | i < j < |init| ensures PairKey(init[j]) != PairKey(init[i]) {
        assert init[j] == ps[j];
      }
      PairsLastWins(m, init, i);
    }
  }

  /** A key no token yields keeps its value from the base. */
  lemma {:induction false} PairsKeep(m: map<string, Value>, ps: seq<string>, k: string)
    requires k in m
    requires forall j :: 0 <= j < |ps| ==> PairKey(ps[j]) != k
    ensures k in AddPairs(m, ps) && AddPairs(m, ps)[k] == m[k]
    decreases |ps|
  {
    if ps != [] {
      var init := ps[..|ps| - 1];
      forall j | 0 <= j < |init| ensures PairKey(init[j]) != k {
        assert init[j] == ps[j];
      }
      PairsKeep(m, init, k);
    }
  }

  /** `result` holds N unless a token named `result` overrides it. */
  lemma HashResult(n: int, rem: string)
    requires forall j :: 0 <= j < |Pairs(rem)| ==> PairKey(Pairs(rem)[j]) != "result"
    ensures "result" in BuildHash(n, rem) && BuildHash(n, rem)["result"] == VInt(n)
  {
    PairsKeep(BaseHash(n, rem), Pairs(rem), "result");
  }

  /** `data` holds the inside of the first word when the remainder starts with `(`,
      unless a token named `data` overrides it. */
  lemma HashData(n: int, rem: string)
    requires StartsWith(rem, "(")
    requires forall j :: 0 <= j < |Pairs(rem)| ==> PairKey(Pairs(rem)[j]) != "data"
    ensures |Words(rem)| > 0
    ensures "data" in BuildHash(n, rem) && BuildHash(n, rem)["data"] == VStr(Inner(Words(rem)[0]))
  {
    assert rem[0] == '(';
    PairsKeep(BaseHash(n, rem), Pairs(rem), "data");
  }

  // ---------------------------------------------------------------- examples

  /** The words of the remainders the examples below use. */
  lemma WordsOfThree(a: string, b: string, c: string)
    requires IsWord(a) && IsWord(b) && IsWord(c)
    ensures Words(a + " " + b + " " + c) == [a, b, c]
  {
    Unwords3(a, b, c);
    LineWords(a + " " + b + " " + c, [a, b, c]);
  }

  lemma WordsOfTwo(a: string, b: string)
    requires IsWord(a) && IsWord(b)
    ensures Words(a + " " + b) == [a, b]
  {
    assert Unwords([a, b]) == a + " " + b by {
      assert [a, b][1..] == [b];
    }
    LineWords(a + " " + b, [a, b]);
  }

  /** The token `KEY=VALUE` for a key without `=`. */
  lemma PairOf(k: string, v: string)
    requires '=' !in k
    ensures PairKey(k + "=" + v) == k && PairValue(k + "=" + v) == VStr(v)
  {
    assert k + "=" + v == k + ['='] + v;
    SplitOnceJoin(k, '=', v);
  }

  /** A token without `=`: the whole token is the key and the value is nil. */
  lemma BareToken(t: string)
    requires '=' !in t
    ensures PairKey(t) == t && PairValue(t) == VNil
  {
  }

  lemma WordOfPair(k: string, v: string)
    requires IsWord(k) && IsWord(v)
    ensures IsWord(k + "=" + v)
  {
    var t := k + "=" + v;
    forall j | 0 <= j < |t| ensures !IsSpace(t[j]) {
      if j < |k| { assert t[j] == k[j]; } else if j > |k| { assert t[j] == v[j - |k| - 1]; }
    }
  }

  /** A remainder that opens with `(` but does not close with `)` is decoded as a hash. */
  lemma RemainderShape(rem: string, a: string, b: string)
    requires rem == a + " " + b
    requires |a| > 0 && a[0] == '(' && |b| > 0 && !IsStripSpace(b[|b| - 1]) && b[|b| - 1] != ')'
    ensures rem != [] && !IsSpace(rem[0]) && IsTrimmed(rem)
    ensures StartsWith(rem, "(") && !EndsWith(rem, ")")
  {
    assert rem[0] == '(' && rem[|rem| - 1] == b[|b| - 1];
    assert rem[..1] == "(" && rem[|rem| - 1..] == [b[|b| - 1]];
  }

  /** The hash of a remainder that opens with `(`, given its words. */
  lemma HashOfWords(n: int, rem: string, ws: seq<string>)
    requires Words(rem) == ws && |ws| > 0 && StartsWith(rem, "(")
    ensures BuildHash(n, rem) == AddPairs(map["result" := VInt(n), "data" := VStr(Inner(ws[0]))], ws[1..])
  {
  }

  lemma AddOne(m: map<string, Value>, t: string)
    ensures AddPairs(m, [t]) == m[PairKey(t) := PairValue(t)]
  {
    assert [t][..0] == [];
  }

  lemma AddTwo(m: map<string, Value>, t: string, u: string)
    ensures AddPairs(m, [t, u]) == m[PairKey(t) := PairValue(t)][PairKey(u) := PairValue(u)]
  {
    assert [t, u][..1] == [t];
    AddOne(m, t);
  }

  /** `(TEXT)` is one word when TEXT is. */
  lemma WordInParens(d: string)
    requires IsWord(d)
    ensures IsWord("(" + d + ")") && Inner("(" + d + ")") == d
  {
    var w := "(" + d + ")";
    forall j | 0 <= j < |w| ensures !IsSpace(w[j]) {
      if 0 < j < |w| - 1 { assert w[j] == d[j - 1]; }
    }
    assert w[1..|w| - 1] == d;
  }

  /** The shape of `200 result=1 (foo) bar=baz`: a parenthesised word and one pair
      give `result`, `data` and the pair's key. */
  lemma DecodeDataAndPair(p: string, n: int, d: string, k: string, v: string)
    requires p == "result=" + IntToString(n) + " (" + d + ") " + k + "=" + v
    requires IsWord(d) && IsWord(k) && IsWord(v) && '=' !in k
    requires IsTrimmed(v) && v[|v| - 1] != ')'
    requires k != "result" && k != "data"
    ensures DecodeSuccess(Some(p)) == Ok(Record(map["result" := VInt(n), "data" := VStr(d), k := VStr(v)]))
  {
    var w1, w2 := "(" + d + ")", k + "=" + v;
    var rem := w1 + " " + w2;
    assert IsWord(w1) && Inner(w1) == d && IsWord(w2) by {
      WordInParens(d);
      WordOfPair(k, v);
    }
    assert DecodeSuccess(Some(p)) == Ok(Record(BuildHash(n, rem))) by {
      DataPairShape("result=" + IntToString(n), d, k, v);
      assert w2[|w2| - 1] == v[|v| - 1];
      DecodeOpenRemainder(p, n, rem, w1, w2);
    }
    HashTwoWords(n, rem, d, k, v);
  }

  /** The payload `X (D) K=V` is `X`, a space, and the remainder `(D) K=V`. */
  lemma DataPairShape(x: string, d: string, k: string, v: string)
    ensures x + " (" + d + ") " + k + "=" + v == x + " " + (("(" + d + ")") + " " + (k + "=" + v))
  {
    assert " (" == " " + "(" && ") " == ")" + " ";
  }

  /** The payload `X (D1 D2) K=V` is `X`, a space, and the remainder `(D1 D2) K=V`. */
  lemma TruncatedShape(x: string, d1: string, d2: string, k: string, v: string)
    ensures x + " (" + d1 + " " + d2 + ") " + k + "=" + v ==
      x + " " + (("(" + d1) + " " + (d2 + ")") + " " + (k + "=" + v))
  {
    assert " (" == " " + "(" && ") " == ")" + " ";
  }

  lemma DecodeOpenRemainder(p: string, n: int, rem: string, w1: string, w2: string)
    requires p == "result=" + IntToString(n) + " " + rem && rem == w1 + " " + w2
    requires IsWord(w1) && w1[0] == '(' && |w2| > 0 && !IsStripSpace(w2[|w2| - 1]) && w2[|w2| - 1] != ')'
    ensures DecodeSuccess(Some(p)) == Ok(Record(BuildHash(n, rem)))
  {
    RemainderShape(rem, w1, w2);
    DecodeRecord(p, n, rem);
  }

  lemma HashTwoWords(n: int, rem: string, d: string, k: string, v: string)
    requires rem == "(" + d + ")" + " " + (k + "=" + v)
    requires IsWord("(" + d + ")") && Inner("(" + d + ")") == d && IsWord(k + "=" + v) && '=' !in k
    requires k != "result" && k != "data"
    ensures BuildHash(n, rem) == map["result" := VInt(n), "data" := VStr(d), k := VStr(v)]
  {
    var w1, w2 := "(" + d + ")", k + "=" + v;
    var base := map["result" := VInt(n), "data" := VStr(d)];
    assert BuildHash(n, rem) == AddPairs(base, [w2]) by {
      assert Words(rem) == [w1, w2] by {
        WordsOfTwo(w1, w2);
      }
      assert rem[..1] == "(";
      HashOfWords(n, rem, [w1, w2]);
      assert [w1, w2][1..] == [w2];
    }
    assert AddPairs(base, [w2]) == base[k := VStr(v)] by {
      AddOne(base, w2);
      PairOf(k, v);
    }
  }

  /** `(` followed by a word, and a word followed by `)`, are words. */
  lemma WordsAroundParens(d1: string, d2: string)
    requires IsWord(d1) && IsWord(d2)
    ensures IsWord("(" + d1) && IsWord(d2 + ")")
    ensures Inner("(" + d1) == d1[..|d1| - 1]
    ensures '=' !in d2 ==> '=' !in d2 + ")"
  {
    var w1, w2 := "(" + d1, d2 + ")";
    forall j | 0 <= j < |w1| ensures !IsSpace(w1[j]) {
      if j > 0 { assert w1[j] == d1[j - 1]; }
    }
    forall j | 0 <= j < |w2| ensures !IsSpace(w2[j]) {
      if j < |d2| { assert w2[j] == d2[j]; }
    }
    assert w1[1..|w1| - 1] == d1[..|d1| - 1];
  }

  /** The shape of `200 result=1 (hello world) a=b`: the parenthesised text is
      cut at its space, and `[1..-2]` then also drops the last letter of the first
      part (`hell`); the second part becomes a key with a nil value. */
  lemma DecodeTruncatedData(p: string, n: int, d1: string, d2: string, k: string, v: string)
    requires p == "result=" + IntToString(n) + " (" + d1 + " " + d2 + ") " + k + "=" + v
    requires IsWord(d1) && IsWord(d2) && IsWord(k) && IsWord(v) && '=' !in k && '=' !in d2
    requires IsTrimmed(v) && v[|v| - 1] != ')'
    requires k != "result" && k != "data" && k != d2 + ")"
    ensures DecodeSuccess(Some(p)) ==
      Ok(Record(map["result" := VInt(n), "data" := VStr(d1[..|d1| - 1]), d2 + ")" := VNil, k := VStr(v)]))
  {
    var w1, w2, w3 := "(" + d1, d2 + ")", k + "=" + v;
    var rem := w1 + " " + w2 + " " + w3;
    assert IsWord(w1) && IsWord(w2) && IsWord(w3) && Inner(w1) == d1[..|d1| - 1] && '=' !in w2 by {
      WordsAroundParens(d1, d2);
      WordOfPair(k, v);
    }
    assert DecodeSuccess(Some(p)) == Ok(Record(BuildHash(n, rem))) by {
      TruncatedShape("result=" + IntToString(n), d1, d2, k, v);
      Assoc5(w1, " ", w2, " ", w3);
      assert (w2 + " " + w3)[|w2 + " " + w3| - 1] == v[|v| - 1];
      DecodeOpenRemainder(p, n, rem, w1, w2 + " " + w3);
    }
    HashThreeWords(n, rem, w1, w2, w3, d1[..|d1| - 1], k, v);
  }

  lemma HashThreeWords(n: int, rem: string, w1: string, w2: string, w3: string, d: string, k: string, v: string)
    requires rem == w1 + " " + w2 + " " + w3 && w3 == k + "=" + v
    requires IsWord(w1) && w1[0] == '(' && Inner(w1) == d && IsWord(w2) && '=' !in w2 && IsWord(w3) && '=' !in k
    requires k != "result" && k != "data" && k != w2
    ensures BuildHash(n, rem) == map["result" := VInt(n), "data" := VStr(d), w2 := VNil, k := VStr(v)]
  {
    var base := map["result" := VInt(n), "data" := VStr(d)];
    assert BuildHash(n, rem) == AddPairs(base, [w2, w3]) by {
      assert Words(rem) == [w1, w2, w3] by {
        WordsOfThree(w1, w2, w3);
      }
      assert rem[..1] == "(";
      HashOfWords(n, rem, [w1, w2, w3]);
      assert [w1, w2, w3][1..] == [w2, w3];
    }
    assert AddPairs(base, [w2, w3]) == base[w2 := VNil][k := VStr(v)] by {
      AddTwo(base, w2, w3);
      BareToken(w2);
      PairOf(k, v);
    }
  }

  /** `HANGUP` notices before `200 result=N` are skipped; they and the result line are
      consumed and the read returns N. */
  lemma HangupsThenResult(hs: seq<string>, l: string, n: int, rest: seq<string>)
    requires forall j :: 0 <= j < |hs| ==> IsHangupNotice(hs[j])
    requires IsResultLine(l, n)
    ensures ReadSpec(hs + ([l] + rest)) == Exchange(Ok(Int(n)), |hs| + 1)
  {
    ReadSkipsHangups(hs, [l] + rest);
    ResultLineFirst(l, n, rest);
  }

  /** A plain `200 result=N` reply, padding aside. */
  predicate IsResultLine(l: string, n: int) {
    Strip(l) == "200 result=" + IntToString(n)
  }

  lemma ResultLineFirst(l: string, n: int, rest: seq<string>)
    requires IsResultLine(l, n)
    ensures ReadSpec([l] + rest) == Exchange(Ok(Int(n)), 1)
  {
    var t := Strip(l);
    var p := "result=" + IntToString(n);
    assert t == "200 " + p by {
      Assoc("200 ", "result=", IntToString(n));
    }
    assert ReadSpec([l] + rest) == Respond(t, rest) by {
      NotHangupNotice(l, t);
      ReadFirst([l] + rest, l, rest);
    }
    ClassifyResultLine(t, p, n);
  }

  /** The stripped line `200 result=N` settles at once as the integer N. */
  lemma ClassifyResultLine(t: string, p: string, n: int)
    requires p == "result=" + IntToString(n) && t == "200 " + p
    ensures Classify(t) == Final(Ok(Int(n)))
  {
    Classify200(t, p);
    DecodeInt(p, n);
  }

  lemma NotHangupNotice(l: string, t: string)
    requires t == Strip(l) && |t| > 0 && t[0] != 'H'
    ensures !IsHangupNotice(l)
  {
    assert "HANGUP"[0] == 'H';
  }
}
