/** The socket a `Connection` talks through, reduced to the four calls the code makes on
    it: `gets`, `puts`, `flush` and `close`. What Asterisk will send is a fixed sequence
    of lines; what has been written is kept in two strings, the part still buffered and
    the part already flushed to the peer. */
module AgiSocket {
  import opened Wrappers
  import opened RubyText

  /** One transfer on the socket, in the order it happened: a message handed to `puts`,
      a `flush`, a line delivered by `gets`, or the `close`. */
  datatype Event = Put(msg: string) | Flushed | Got(line: string) | Closed

  /** The events of `gets` delivering `lines`, one after the other. */
  function Received(lines: seq<string>): (log: seq<Event>)
    ensures |log| == |lines|
  {
    if lines == [] then [] else [Got(lines[0])] + Received(lines[1..])
  }

  /** Delivering one more line adds its event at the end. */
  lemma {:induction false} ReceivedSnoc(lines: seq<string>, l: string)
    ensures Received(lines + [l]) == Received(lines) + [Got(l)]
    decreases |lines|
  {
    if lines != [] {
      assert (lines + [l])[1..] == lines[1..] + [l];
      ReceivedSnoc(lines[1..], l);
    }
  }

  /** Reading line `i` of `lines` adds its event at the end. */
  lemma ReceivedNext(lines: seq<string>, i: nat)
    requires i < |lines|
    ensures Received(lines[..i + 1]) == Received(lines[..i]) + [Got(lines[i])]
  {
    assert lines[..i + 1] == lines[..i] + [lines[i]];
    ReceivedSnoc(lines[..i], lines[i]);
  }

  /** A log that held the events of `lines[..i]` and then got line `i` holds the events
      of `lines[..i + 1]`. */
  lemma LogNext(lines: seq<string>, i: nat, start: seq<Event>, log: seq<Event>)
    requires i < |lines|
    requires log == start + Received(lines[..i]) + [Got(lines[i])]
    ensures log == start + Received(lines[..i + 1])
  {
    ReceivedNext(lines, i);
  }

  /** The first line alone is delivered as one event. */
  lemma ReceivedOne(lines: seq<string>)
    requires |lines| > 0
    ensures Received(lines[..1]) == [Got(lines[0])]
  {
    assert lines[..1][1..] == [];
  }

  /** The first `k + 1` lines are delivered as the first line, then `k` lines of the
      rest. */
  lemma ReceivedFirst(lines: seq<string>, k: nat)
    requires k < |lines|
    ensures Received(lines[..k + 1]) == [Got(lines[0])] + Received(lines[1..][..k])
  {
    assert lines[..k + 1][1..] == lines[1..][..k];
  }

  /** What `puts` writes for a message: the message and a line feed, unless the
      message already ends with one. */
  function Wire(msg: string): (w: string)
    ensures EndsWith(w, "\n")
    ensures EndsWith(msg, "\n") ==> w == msg
    ensures !EndsWith(msg, "\n") ==> w == msg + "\n"
  {
    if EndsWith(msg, "\n") then msg else msg + "\n"
  }

  class Stream {
    /** The lines Asterisk has yet to deliver, each as `gets` returns it. */
    var input: seq<string>
    var closed: bool
    /** Written and not yet flushed. */
    var buffered: string
    /** Flushed to the peer. */
    var sent: string
    /** Every transfer so far, in order. */
    ghost var log: seq<Event>

    constructor (lines: seq<string>)
      ensures input == lines && !closed && buffered == [] && sent == [] && log == []
    {
      input := lines;
      closed := false;
      buffered := [];
      sent := [];
      log := [];
    }

    /** The lines a reader can still obtain: none once the socket is closed. */
    function Available(): seq<string>
      reads this
    {
      if closed then [] else input
    }

    /** `gets`: the next line, or nil at the end of the input. On a closed socket Ruby
        raises `IOError`; the one caller that can meet a closed socket, `read`, rescues
        it into nil, so it is nil here. */
    method Gets() returns (line: Option<string>)
      modifies this
      ensures line.None? <==> old(Available()) == []
      ensures line.Some? ==> line.value == old(input)[0] && input == old(input)[1..]
      ensures line.None? ==> input == old(input) && log == old(log)
      ensures line.Some? ==> log == old(log) + [Got(line.value)]
      ensures closed == old(closed) && buffered == old(buffered) && sent == old(sent)
    {
      if closed || input == [] {
        line := None;
      } else {
        line := Some(input[0]);
        input := input[1..];
        log := log + [Got(line.value)];
      }
    }

    /** `puts`: buffers the message with its line feed; fails on a closed socket. */
    method Puts(msg: string) returns (ok: bool)
      modifies this
      ensures ok == !old(closed)
      ensures buffered == if ok then old(buffered) + Wire(msg) else old(buffered)
      ensures log == if ok then old(log) + [Put(msg)] else old(log)
      ensures input == old(input) && closed == old(closed) && sent == old(sent)
    {
      ok := !closed;
      if ok {
        buffered := buffered + Wire(msg);
        log := log + [Put(msg)];
      }
    }

    /** `flush`: hands the buffered text to the peer; fails on a closed socket. */
    method Flush() returns (ok: bool)
      modifies this
      ensures ok == !old(closed)
      ensures ok ==> sent == old(sent) + old(buffered) && buffered == []
      ensures !ok ==> sent == old(sent) && buffered == old(buffered)
      ensures log == if ok then old(log) + [Flushed] else old(log)
      ensures input == old(input) && closed == old(closed)
    {
      ok := !closed;
      if ok {
        sent := sent + buffered;
        buffered := [];
        log := log + [Flushed];
      }
    }

    /** `close`: nothing more can be read or written. */
    method Close()
      modifies this
      ensures closed && Available() == []
      ensures input == old(input) && buffered == old(buffered) && sent == old(sent)
      ensures log == old(log) + [Closed]
    {
      closed := true;
      log := log + [Closed];
    }
  }
}
