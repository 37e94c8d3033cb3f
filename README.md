# AGI connection engine, modelled in Dafny

This project models the Asterisk Gateway Interface (AGI) client of the `asterisk-agi`
Ruby library: the `Asterisk::Agi::Connection` class that talks to Asterisk over one
socket, and the `Asterisk::Agi::Channel` value that splits a channel name.

- `Connection#initialize` reads the AGI environment, `agi_key: value` lines up to the
  bare line feed that ends the block, into the `conn_params` hash.
- Every command helper (`answer`, `exec`, `dial`, `originate`, `get_data`, ...) builds
  one command line, writes it with `puts` and `flush`, and then calls the private `read`.
- `read` takes one reply from Asterisk. It skips `HANGUP` notices and classifies the
  reply by its three-digit status code. 511 and the end of the input raise `Hangup`.
  510 and 520 raise `InvalidCommand`; a `520-` reply carries usage lines up to a closing
  `520` line. Any other code raises `InvalidResponse`. A 200 reply is decoded into an
  integer, a string, or a hash.
- `Channel.new` matches `TECH/NAME-ID`. `name_with_tech` and `to_s` put the parts back
  together.

Files:

- `wrappers.dfy`: `Option` for Ruby's nil-or-value, `Result`.
- `ruby_text.dfy`: the Ruby `String` operations the code relies on, with their edge
  cases. These are `strip`, `split(":", 2)`, the awk-style `split(" ")`, `to_i`,
  `Integer#to_s`, `start_with?`, `s[1..-2]` and the interpolation of nil.
- `channel.dfy`: `Channel` as a pure parse and its two renderings.
- `header.dfy`: the environment block as functions of the input lines.
- `response.dfy`: `read` as functions. `Classify` handles one response line, `ReadSpec`
  a whole read over the lines still to come. The 200 decode is `DecodeSuccess`.
- `commands.dfy`: the command line each helper writes, and lemmas that split it back
  at white space (its words) and at commas (the fields of an application's argument
  string).
- `stream.dfy`: the socket, as a class with the pending input lines, a closed flag, the
  text buffered by `puts` and the text flushed to the peer. A ghost log records every
  `puts`, `flush`, delivered line and `close` in the order they happen, so the contracts
  of `connection.dfy` state that a command is written and flushed before its reply is
  read.
- `connection.dfy`: the `Connection` class. The constructor loop, `read` (recursive on
  `HANGUP`, with a loop for the 520 usage lines), `write`, every helper, `[]`, the
  memoised `channel` and `extension`. Each method is proved to act on the socket as the
  functions of `response.dfy`, `header.dfy` and `commands.dfy` say.

Behaviour of the code worth noting:

- A reply whose first three characters hold no digit gets code 0 from `to_i`, so it
  raises `InvalidResponse` with code 0. `code.nil?` never holds, because `to_i` always
  returns a number.
- A header line without a colon stores its stripped text, without a leading `agi_`, as
  a key with a nil value.
- The usage lines of a multi-line 520 are stripped and appended one after another with
  no separator.
- `HANGUP` is recognised after stripping, so white space around it does not matter.

The following quirks of the code are kept as written. `originate` sends its first
parameter twice. `setmusiconhold` reads two replies. The `data` of a reply hash is cut
at the first space of the parenthesised text, and `[1..-2]` is applied to that first
word. Tokens named `result` or `data` overwrite those entries of the hash.

Errors are the `AgiError` datatype: `Hangup`, `InvalidCommand`, `InvalidResponse`,
`ArgumentError` (from `originate`), and `Unhandled`. `Unhandled` stands for the Ruby
errors the code does not raise on purpose. These are a method called on nil (a bare
`520`, a bare or blank `200`, the end of the input inside the 520 loop) and the
`IOError` of writing to a closed socket.

## Model

| member | source | states |
|---|---|---|
| `AgiChannel.Parse` | lib/asterisk/agi/channel.rb:8-13 | the three parts are all present or all nil; when present, the technology is a non-empty run of `[A-z]` characters (so it holds no `/`), and name and id are non-empty with no line feed |
| `AgiChannel.RoundTrip` | lib/asterisk/agi/channel.rb:9-24 | for every string the pattern matches, `tech + "/" + name + "-" + id` is that string, `to_s` reproduces it, and `name_with_tech` is the part before the `-` that precedes the id |
| `AgiChannel.ParseFormat` | lib/asterisk/agi/channel.rb:9-12 | `TECH/NAME-ID` gives back TECH, NAME and ID exactly, for every `[A-z]` technology, every name (which may hold `-` and `/`) and every id without an inner `-` |
| `AgiChannel.FixtureChannel` | test/lib/asterisk-agi-client/server_test.rb:19 | `SIP/cisco-spa-00000001` has technology `SIP`, name `cisco-spa` and id `00000001` |
| `AgiChannel.ParseWithoutSlash` | lib/asterisk/agi/channel.rb:9-12 | a string without `/` matches nothing and leaves all three parts nil, without raising |
| `AgiChannel.Rendered` | lib/asterisk/agi/channel.rb:15-24 | `name_with_tech` is `tech/name`, and `to_s` appends `-id` when there is an id |
| `AgiChannel.RenderedUnmatched` | lib/asterisk/agi/channel.rb:15-24 | an unmatched channel renders as `/` under both `name_with_tech` and `to_s` |
| `AgiHeader.DropPrefix` | lib/asterisk/agi/connection.rb:28 | a key starting with `agi_` loses exactly that prefix; any other key is kept |
| `AgiHeader.CleanValue` | lib/asterisk/agi/connection.rb:29-30 | a stored value is nil or a non-empty stripped text; a missing value stays nil |
| `AgiHeader.Entry` | lib/asterisk/agi/connection.rb:27-31 | a line stores nothing exactly when it strips to nothing |
| `AgiHeader.BlockLength` | lib/asterisk/agi/connection.rb:25-26 | the block ends at the first line of at most one character, or at the end of the input; every line before it is longer |
| `AgiHeader.HeaderUsed` | lib/asterisk/agi/connection.rb:25-26 | the header reads the block and, when there is one, its terminating line, never more |
| `AgiHeader.Store` | lib/asterisk/agi/connection.rb:31 | one header line adds or replaces only its own key and leaves every other key as it was |
| `AgiHeader.ParamsKeys` | lib/asterisk/agi/connection.rb:24-33 | a key is stored exactly when it is among the keys the lines of the block yield (`Keys`, one per line, `KeysAt`) |
| `AgiHeader.ParamsLastWins` | lib/asterisk/agi/connection.rb:31 | a key holds the value of the last line that yields it |
| `AgiHeader.HeaderStops` | lib/asterisk/agi/connection.rb:25-26 | the lines after the terminating short line are neither stored nor read |
| `AgiHeader.HeaderToEnd` | lib/asterisk/agi/connection.rb:25 | without a terminator the whole input is read and stored |
| `AgiHeader.EntryOfHeaderLine` | lib/asterisk/agi/connection.rb:27-31 | the line `agi_KEY: VALUE` stores the trimmed VALUE under KEY, and nil for an empty VALUE |
| `AgiHeader.EntryWithoutColon` | lib/asterisk/agi/connection.rb:27-31 | a line without a colon is stored under its stripped text, without a leading `agi_`, with a nil value |
| `AgiHeader.HeaderOfLines` | lib/asterisk/agi/connection.rb:22-34 | for well-formed lines and the empty line, exactly those lines are read, and each key maps to its value on the last line that carries it |
| `AgiHeader.FixtureHeader` | test/lib/asterisk-agi-client/server_test.rb:27-33 | the fixture's block yields `network_script`, `type`, `channel` and `accountcode` with their values, and reads five lines |
| `AgiResponse.Data` | lib/asterisk/agi/connection.rb:208 | the text after the fourth character, nil for a line shorter than four |
| `AgiResponse.Classify` | lib/asterisk/agi/connection.rb:207-246 | a line is a hangup exactly when its code is 511; it asks for usage lines exactly for `520-`; only code 200 can succeed |
| `AgiResponse.DecodeSuccess` | lib/asterisk/agi/connection.rb:225-227 | a 200 reply fails exactly when its payload is missing or blank, and then only with a Ruby error |
| `AgiResponse.DecodePayload` | lib/asterisk/agi/connection.rb:226-244 | a non-blank payload always decodes to a reply |
| `AgiResponse.BaseHash` | lib/asterisk/agi/connection.rb:235-238 | the hash holds `result` as N, holds `data` exactly when the remainder starts with `(`, and holds nothing else before the tokens |
| `AgiResponse.Continuation` | lib/asterisk/agi/connection.rb:216-219 | the 520 loop consumes at least one line and no more than the input holds |
| `AgiResponse.ReadSpec` | lib/asterisk/agi/connection.rb:198-205 | a read consumes at least one line unless the input has ended, and never more lines than there are |
| `AgiResponse.Respond` | lib/asterisk/agi/connection.rb:207-246 | the outcome is a hangup exactly for code 511; only a `520-` line consumes lines after itself |
| `AgiResponse.UsageText` | lib/asterisk/agi/connection.rb:214-223 | a `520-` reply always fails, and never as a hangup |
| `AgiResponse.ReadSkipsHangups` | lib/asterisk/agi/connection.rb:204-205 | any number of leading `HANGUP` lines are consumed and change nothing else about the read |
| `AgiResponse.HangupExactly` | lib/asterisk/agi/connection.rb:199-209 | a read raises `Hangup` exactly when, after the `HANGUP` notices, the input has ended or the next line has code 511 |
| `AgiResponse.CodeOfStatus` | lib/asterisk/agi/connection.rb:207 | a line starting with a three-digit number has that number as its code |
| `AgiResponse.Classify510` | lib/asterisk/agi/connection.rb:210 | `510 TEXT` raises `InvalidCommand` with message `Invalid or unknown command TEXT` |
| `AgiResponse.Classify510Bare` | lib/asterisk/agi/connection.rb:208-210 | a bare `510` raises `InvalidCommand` with the reason and a trailing space |
| `AgiResponse.Classify511` | lib/asterisk/agi/connection.rb:209 | every line starting with `511` raises `Hangup` |
| `AgiResponse.Classify520` | lib/asterisk/agi/connection.rb:220-223 | a single-line `520 TEXT` raises `InvalidCommand` ending in `Proper usage not available.` |
| `AgiResponse.Classify520Bare` | lib/asterisk/agi/connection.rb:214 | a bare `520` ends in a Ruby error, since it has no fourth character |
| `AgiResponse.ClassifyUnknown` | lib/asterisk/agi/connection.rb:246 | every three-digit code other than 200, 510, 511 and 520 raises `InvalidResponse` quoting the code and the whole line |
| `AgiResponse.ClassifyNonNumeric` | lib/asterisk/agi/connection.rb:207-246 | a line with no digit among its first three characters (the empty line and `-x` included) has code 0 and raises `InvalidResponse` reporting code 0, not `Hangup` |
| `AgiResponse.Read520Usage` | lib/asterisk/agi/connection.rb:211-223 | a `520-` reply consumes its usage lines and the closing `520` line and nothing after; the message holds every usage line, in order, after `Proper usage follows:` |
| `AgiResponse.Read520Eof` | lib/asterisk/agi/connection.rb:216 | when the input ends inside the usage lines, everything is consumed and a Ruby error results |
| `AgiResponse.Classify200` | lib/asterisk/agi/connection.rb:225-226 | a 200 line hands the text after its fourth character to the decoder |
| `AgiResponse.ResultToken` | lib/asterisk/agi/connection.rb:227 | the token `result=N` yields N |
| `AgiResponse.DecodeInt` | lib/asterisk/agi/connection.rb:226-230 | `result=N` alone decodes to the integer N |
| `AgiResponse.DecodeStr` | lib/asterisk/agi/connection.rb:232 | `result=N (TEXT)` decodes to TEXT, spaces and parentheses inside it included |
| `AgiResponse.DecodeRecord` | lib/asterisk/agi/connection.rb:235-244 | every other remainder decodes to the hash |
| `AgiResponse.PairsKeys` | lib/asterisk/agi/connection.rb:240-243 | a key is in the hash exactly when the base holds it or some token yields it |
| `AgiResponse.PairsLastWins` | lib/asterisk/agi/connection.rb:240-243 | a key holds the value of the last token that names it |
| `AgiResponse.PairsKeep` | lib/asterisk/agi/connection.rb:240-243 | a key that no token names keeps its base value |
| `AgiResponse.HashResult` | lib/asterisk/agi/connection.rb:235 | `result` holds N unless a token named `result` overrides it |
| `AgiResponse.HashData` | lib/asterisk/agi/connection.rb:238 | `data` is the first word without its first and last character, unless a token named `data` overrides it |
| `AgiResponse.DecodeDataAndPair` | lib/asterisk/agi/connection.rb:235-244 | `result=N (D) K=V` decodes to the hash `{result: N, data: D, K: V}` |
| `AgiResponse.DecodeTruncatedData` | lib/asterisk/agi/connection.rb:236-238 | with `K=V` after `(D1 D2)`, `data` is D1 without its last character, and `D2)` becomes a key with a nil value |
| `AgiResponse.HangupsThenResult` | lib/asterisk/agi/connection.rb:204-230 | `HANGUP` notices before `200 result=N` are skipped; the read returns N and consumes exactly those lines |
| `AgiResponse.ResultLineFirst` | lib/asterisk/agi/connection.rb:198-230 | `200 result=N` is read as the integer N and consumes one line |
| `AgiCommands.ExecWords` | lib/asterisk/agi/connection.rb:143-148 | the `EXEC` line carries `EXEC`, the application, then the words of the arguments when there are any |
| `AgiCommands.GetVariableWords` | lib/asterisk/agi/connection.rb:150-153 | the line reads `GET VARIABLE name` |
| `AgiCommands.SetValue` | lib/asterisk/agi/connection.rb:158 | nil and the empty string are sent as `""`; any other value is sent as it is |
| `AgiCommands.SetVariableWords` | lib/asterisk/agi/connection.rb:157-161 | the line always has four words, the value being `""` for nil and the empty string alike |
| `AgiCommands.GetDataWords` | lib/asterisk/agi/connection.rb:97-103 | the timeout is sent when given, and the digit limit only when a timeout is given too |
| `AgiCommands.GetDataNeedsTimeout` | lib/asterisk/agi/connection.rb:99-100 | without a timeout the digit limit is dropped |
| `AgiCommands.WaitForDigitWords` | lib/asterisk/agi/connection.rb:109-114 | the line reads `WAIT FOR DIGIT timeout` |
| `AgiCommands.WaitForDigitDefault` | lib/asterisk/agi/connection.rb:109 | the default timeout sends `-1` |
| `AgiCommands.DialFields` | lib/asterisk/agi/connection.rb:50-63 | `Dial` gets exactly three fields: the number, the wait time (empty when absent) and the flags |
| `AgiCommands.DialDefaults` | lib/asterisk/agi/connection.rb:54-62 | with the default options the arguments are `number,,g` |
| `AgiCommands.OriginateRejection` | lib/asterisk/agi/connection.rb:77-82 | the arguments are accepted exactly when there is a parameter and the type is `app` or `exten`; a missing parameter is reported first |
| `AgiCommands.OriginateFields` | lib/asterisk/agi/connection.rb:83-88 | `Originate` gets the number, the type, the first parameter, and then every parameter again |
| `AgiCommands.PlaybackWords` | lib/asterisk/agi/connection.rb:91-95 | the line is `EXEC PLAYBACK data`, the data being one word |
| `AgiCommands.PlaybackFields` | lib/asterisk/agi/connection.rb:93 | `Playback` gets the file, and the options as a second field when given |
| `AgiCommands.MusicOnHoldWords` | lib/asterisk/agi/connection.rb:121-125 | the line is `EXEC MUSICONHOLD`, followed by the class when given |
| `AgiCommands.SipMessageSent` | lib/asterisk/agi/connection.rb:133-135 | the body is sent in double quotes, and a nil body is sent like an empty one |
| `AgiCommands.SendSipFields` | lib/asterisk/agi/connection.rb:137-141 | `MessageSend` gets `sip:to`, and `<sip:from>` as a second field when given |
| `AgiSocket.Wire` | lib/asterisk/agi/connection.rb:193 | `puts` ends the text with one line feed, adding it only when missing |
| `AgiSocket.Stream.Gets` | lib/asterisk/agi/connection.rb:199 | the next pending line, logged as a `Got` event, or nil at the end of the input or on a closed socket, logging nothing |
| `AgiSocket.Stream.Puts` | lib/asterisk/agi/connection.rb:193 | an open socket buffers the text and its line feed and logs a `Put` event; a closed one refuses it |
| `AgiSocket.Stream.Flush` | lib/asterisk/agi/connection.rb:194 | the buffered text reaches the peer, and a `Flushed` event is logged |
| `AgiSocket.Stream.Close` | lib/asterisk/agi/connection.rb:44 | nothing more can be read, and a `Closed` event is logged |
| `AgiConnection.Connection.constructor` | lib/asterisk/agi/connection.rb:22-34 | the parameters are the header of the input, the input left is what follows the terminating line, and the log holds one `Got` event per line read |
| `AgiConnection.Connection.Get` | lib/asterisk/agi/connection.rb:165-167 | a parameter's value, nil for a key that was never sent or was sent empty |
| `AgiConnection.Connection.Extension` | lib/asterisk/agi/connection.rb:173-175 | the stored `extension` parameter: present exactly when the header carried a non-empty `extension`, and then its value |
| `AgiConnection.Connection.Channel` | lib/asterisk/agi/connection.rb:169-171 | the channel parsed from the `channel` parameter, computed on first use and kept |
| `AgiConnection.Connection.Write` | lib/asterisk/agi/connection.rb:192-195 | on an open socket the peer receives the message and its line feed, and the log grows by `Put` then `Flushed`; on a closed one nothing is sent or logged |
| `AgiConnection.Connection.Read` | lib/asterisk/agi/connection.rb:198-246 | returns what `ReadSpec` says, consumes exactly the lines it says, and logs one `Got` event per line consumed, in order |
| `AgiConnection.Connection.Settle` | lib/asterisk/agi/connection.rb:207-246 | the outcome of a line that needs no further line, as `Classify` states |
| `AgiConnection.Connection.UsageLines` | lib/asterisk/agi/connection.rb:214-223 | the 520 loop returns what `UsageText` says and consumes the lines it says |
| `AgiConnection.DecodeReply` | lib/asterisk/agi/connection.rb:225-227 | the 200 branch returns what `DecodeSuccess` says |
| `AgiConnection.DecodeText` | lib/asterisk/agi/connection.rb:226-244 | the three-way decode returns what `DecodePayload` says |
| `AgiConnection.BuildReplyHash` | lib/asterisk/agi/connection.rb:235-244 | the hash is `BuildHash` of the code and the remainder |
| `AgiConnection.AddTokens` | lib/asterisk/agi/connection.rb:240-243 | the token loop stores every token in order, as `AddPairs` says |
| `AgiConnection.Connection.Request` | lib/asterisk/agi/connection.rb:146-147 | the socket's log grows by the command, the flush, then one `Got` event per line the read consumes, in that order; on a closed socket nothing is logged, sent or read |
| `AgiConnection.Connection.Exec` | lib/asterisk/agi/connection.rb:143-148 | sends the `EXEC` line, then reads one reply |
| `AgiConnection.Connection.GetVariable` | lib/asterisk/agi/connection.rb:150-153 | sends the `GET VARIABLE` line, then reads one reply |
| `AgiConnection.Connection.SetVariable` | lib/asterisk/agi/connection.rb:157-161 | sends the `SET VARIABLE` line, then reads one reply |
| `AgiConnection.Connection.GetData` | lib/asterisk/agi/connection.rb:97-103 | sends the `GET DATA` line, then reads one reply |
| `AgiConnection.Connection.WaitForDigit` | lib/asterisk/agi/connection.rb:109-114 | sends the `WAIT FOR DIGIT` line, then reads one reply |
| `AgiConnection.Connection.Dial` | lib/asterisk/agi/connection.rb:50-63 | sends `EXEC DIAL` with the dial arguments, then reads one reply |
| `AgiConnection.Connection.Originate` | lib/asterisk/agi/connection.rb:76-89 | rejected arguments raise `ArgumentError` and leave the socket untouched; otherwise sends `EXEC ORIGINATE` with the arguments built by appending, then reads one reply |
| `AgiConnection.Connection.OriginateArguments` | lib/asterisk/agi/connection.rb:83-87 | the string built by appending is `number,type,`, the first parameter, then `,p` for every parameter |
| `AgiConnection.Connection.Pickup` | lib/asterisk/agi/connection.rb:65-67 | sends `EXEC PICKUP`, then reads one reply |
| `AgiConnection.Connection.Playback` | lib/asterisk/agi/connection.rb:91-95 | sends `EXEC PLAYBACK`, then reads one reply |
| `AgiConnection.Connection.Wait` | lib/asterisk/agi/connection.rb:105-107 | sends `EXEC WAIT`, then reads one reply |
| `AgiConnection.Connection.Ringing` | lib/asterisk/agi/connection.rb:116-118 | sends `EXEC RINGING`, then reads one reply |
| `AgiConnection.Connection.MusicOnHold` | lib/asterisk/agi/connection.rb:121-125 | sends `EXEC MUSICONHOLD`, then reads one reply |
| `AgiConnection.Connection.SetMusicOnHold` | lib/asterisk/agi/connection.rb:127-130 | sends the assignment of `CHANNEL(musicclass)`, then reads two replies; the second read happens only when the first did not raise, and the log orders the command, the flush, then the lines of each read |
| `AgiConnection.Connection.SetSipMessage` | lib/asterisk/agi/connection.rb:133-135 | assigns the quoted body to `MESSAGE(body)`, then reads one reply |
| `AgiConnection.Connection.SendSipMessage` | lib/asterisk/agi/connection.rb:137-141 | sends `EXEC MessageSend`, then reads one reply |
| `AgiConnection.Connection.Answer` | lib/asterisk/agi/connection.rb:36-39 | sends `ANSWER`, then reads one reply |
| `AgiConnection.Connection.Hangup` | lib/asterisk/agi/connection.rb:41-46 | sends `HANGUP` and reads one reply; the socket is closed exactly when that reply did not raise, and the `Closed` event comes after the reply's lines in the log |

## Left out

- The TCP server of `lib/asterisk/agi/server.rb`: the listener, its threads and
  connection limit, the logging hooks, and the dispatch of a connection to a handler by
  its `network_script` parameter. lib/asterisk/agi/server.rb is not part of this model.
- The socket's buffering and blocking. `gets` takes the next line from a fixed sequence
  of lines. `puts`, `flush` and `close` change the buffered and sent text and a closed
  flag.
- The dynamic accessors of `method_missing` and `local?`, which relies on them. A
  parameter is read with `[]` (`Connection.Get`).
- The `DEBUG` printing of the header loop.
- The difference between symbol and string keys. All keys are strings.
- Arguments that Ruby would convert with `to_s`, such as an integer timeout, are given
  as the strings they convert to.
- The arguments `dial` and `originate` append with `<<` (`params[:extra]` at
  lib/asterisk/agi/connection.rb:61, `params.first` at lib/asterisk/agi/connection.rb:84)
  are taken to be strings. With `<<` an Integer would append the character with that
  code, and a nil first parameter of `originate` would raise `TypeError`; neither is
  modelled.
- The lemmas of `commands.dfy` split a command line at white space, as Ruby's
  `split(" ")` does, and an argument string at every comma. Asterisk's own argument
  parser also gives `"` and `\` a meaning, so a quoted empty value or a quoted text with
  spaces reaches it as one argument; that quoting is not modelled.
- `AgiSocket.Stream.Gets`: on a closed socket Ruby raises `IOError`. The only caller that
  can meet a closed socket, `read`, rescues that error into nil, so `Gets` returns nil
  there. The constructor and the 520 loop are given an open socket.
- `AgiConnection.Connection.constructor`: requires an open socket, as a fresh connection
  always has. It does not model the `IOError` of reading from a closed one.
- The Ruby errors the code does not raise on purpose are all one error, `Unhandled`,
  without the Ruby exception class or message.
- The aliases (`pick_up`, `ring`, `get_var`, `get`, `set_var`, `set`, `ext`, `extn`,
  `exten`, `technology`, `type`, `name_with_technology`, `set_music_on_hold`) are the
  same methods under other names.
