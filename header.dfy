/** The AGI environment header that `Connection#initialize` reads
    (lib/asterisk/agi/connection.rb): `agi_key: value` lines up to the first line of at
    most one character, the bare line feed that ends the block. This module states what
    the loop computes, line by line; the loop itself is `AgiConnection.Connection`'s
    constructor. */
module AgiHeader {
  import opened Wrappers
  import opened RubyText

  /** `conn_params`: key to value, where a value may be nil. */
  type ParamMap = map<string, Option<string>>

  /** `k[4..-1] if k.start_with?("agi_")`. */
  function DropPrefix(k: string): (r: string)
    ensures StartsWith(k, "agi_") ==> k == "agi_" + r
    ensures !StartsWith(k, "agi_") ==> r == k
  {
    if StartsWith(k, "agi_") then k[4..] else k
  }

  /** `v.strip!`, then nil for an empty value. */
  function CleanValue(v: Option<string>): (r: Option<string>)
    ensures v.None? ==> r.None?
    ensures r.Some? ==> |r.value| > 0 && IsTrimmed(r.value)
  {
    match v
    case None => None
    case Some(s) => var w := Strip(s); if w == [] then None else Some(w)
  }

  /** What one header line stores: nothing for a line that strips to nothing (its split
      yields no key); otherwise the text before the first `:` without an `agi_` prefix,
      with the stripped text after the colon as value, nil when that is empty or when
      the line has no colon at all. */
  function Entry(line: string): (e: Option<(string, Option<string>)>)
    ensures e.None? <==> Strip(line) == []
  {
    var t := Strip(line);
    if t == [] then None
    else
      var (k, v) := SplitOnce(t, ':');
      Some((DropPrefix(k), CleanValue(v)))
  }

  function KeyOf(line: string): Option<string> {
    if Entry(line).Some? then Some(Entry(line).value.0) else None
  }

  /** Where the header loop stops: the index of the first line of length at most one
      (the terminating bare line feed, or a one-character last line), or `|lines|` when
      the input ends first. */
  function BlockLength(lines: seq<string>): (n: nat)
    ensures n <= |lines|
    ensures n < |lines| ==> |lines[n]| <= 1
    ensures forall i :: 0 <= i < n ==> |lines[i]| > 1
  {
    if |lines| == 0 || |lines[0]| <= 1 then 0 else 1 + BlockLength(lines[1..])
  }

  /** The lines `initialize` takes from the stream: the block and the line that ended
      it; all of them when the input ended first. */
  function HeaderUsed(lines: seq<string>): (n: nat)
    ensures BlockLength(lines) <= n <= |lines|
    ensures BlockLength(lines) < |lines| ==> n == BlockLength(lines) + 1
    ensures BlockLength(lines) == |lines| ==> n == |lines|
  {
    if BlockLength(lines) < |lines| then BlockLength(lines) + 1 else |lines|
  }

  /** The hash built from a block, one line after the other; a later line with the same
      key replaces the earlier value. */
  function Params(block: seq<string>): ParamMap
    decreases |block|
  {
    if block == [] then map[] else Store(Params(block[..|block| - 1]), block[|block| - 1])
  }

  /** One turn of the loop: `@conn_params[k] = v if k`. */
  function Store(m: ParamMap, line: string): (r: ParamMap)
    ensures forall k :: k in r <==> k in m || KeyOf(line) == Some(k)
    ensures forall k :: k in m && KeyOf(line) != Some(k) ==> r[k] == m[k]
    ensures KeyOf(line).Some? ==> r[KeyOf(line).value] == Entry(line).value.1
  {
    match Entry(line)
    case None => m
    case Some(e) => m[e.0 := e.1]
  }

  /** `conn_params` after `initialize` has read `lines`. */
  function Header(lines: seq<string>): ParamMap {
    Params(lines[..BlockLength(lines)])
  }

  /** `conn_params[k]`: nil for a missing key as for a key stored with nil. */
  function Lookup(m: ParamMap, k: string): Option<string> {
    if k in m then m[k] else None
  }

  /** The key each line yields, in order. */
  function Keys(lines: seq<string>): (ks: seq<Option<string>>)
    ensures |ks| == |lines|
    decreases |lines|
  {
    if lines == [] then [] else Keys(lines[..|lines| - 1]) + [KeyOf(lines[|lines| - 1])]
  }

  /** The keys of the lines, one by one. */
  lemma {:induction false} KeysAt(lines: seq<string>, i: nat)
    requires i < |lines|
    ensures Keys(lines)[i] == KeyOf(lines[i])
    decreases |lines|
  {
    var init := lines[..|lines| - 1];
    if i < |init| {
      KeysAt(init, i);
      assert init[i] == lines[i];
    }
  }

  /** A key is stored exactly when some line of the block yields it. */
  lemma {:induction false} ParamsKeys(block: seq<string>, k: string)
    ensures k in Params(block) <==> Some(k) in Keys(block)
    decreases |block|
  {
    if block != [] {
      var init, last := block[..|block| - 1], block[|block| - 1];
      ParamsKeys(init, k);
      ParamsStep(block);
      InSnoc(Keys(init), KeyOf(last), Some(k));
    }
  }

  lemma InSnoc<T>(xs: seq<T>, x: T, y: T)
    ensures y in xs + [x] <==> y in xs || y == x
  {
  }

  /** The value stored for a key is the one from the last line that yields that key. */
  lemma {:induction false} ParamsLastWins(block: seq<string>, i: nat, k: string, v: Option<string>)
    requires i < |block| && Entry(block[i]) == Some((k, v))
    requires forall j :: i < j < |block| ==> KeyOf(block[j]) != Some(k)
    ensures k in Params(block) && Params(block)[k] == v
    decreases |block|
  {
    var init, last := block[..|block| - 1], block[|block| - 1];
    ParamsStep(block);
    if i < |block| - 1 {
      LaterLines(block, i, k);
      ParamsLastWins(init, i, k, v);
      StoreKeeps(Params(init), last, k);
    } else {
      StoreSets(Params(init), last, k, v);
    }
  }

  lemma ParamsStep(block: seq<string>)
    requires block != []
    ensures Params(block) == Store(Params(block[..|block| - 1]), block[|block| - 1])
  {
  }

  /** Dropping the last line keeps line `i` and the lines after it, bar the last. */
  lemma LaterLines(block: seq<string>, i: nat, k: string)
    requires i < |block| - 1
    requires forall j :: i < j < |block| ==> KeyOf(block[j]) != Some(k)
    ensures var init := block[..|block| - 1]; init[i] == block[i] && forall j :: i < j < |init| ==> KeyOf(init[j]) != Some(k)
    ensures KeyOf(block[|block| - 1]) != Some(k)
  {
    var init := block[..|block| - 1];
    forall j | i < j < |init| ensures KeyOf(init[j]) != Some(k) {
      assert init[j] == block[j];
    }
  }

  /** One more line of the block: the map grows by what that line stores. */
  lemma ParamsPrefix(lines: seq<string>, i: nat, m: ParamMap, e: Option<(string, Option<string>)>)
    requires i < |lines| && m == Params(lines[..i]) && e == Entry(lines[i])
    ensures Params(lines[..i + 1]) == if e.Some? then m[e.value.0 := e.value.1] else m
  {
    assert lines[..i + 1][..i] == lines[..i];
    ParamsStep(lines[..i + 1]);
  }

  /** Where the loop stands after reading line `i`: a long line keeps it inside the
      block; a short one, or the end of the input, is where the block ends. */
  lemma BlockAt(lines: seq<string>, i: nat)
    requires i <= BlockLength(lines)
    ensures i < |lines| && |lines[i]| > 1 ==> i + 1 <= BlockLength(lines)
    ensures i < |lines| && |lines[i]| <= 1 ==> BlockLength(lines) == i && HeaderUsed(lines) == i + 1
    ensures i == |lines| ==> BlockLength(lines) == i && HeaderUsed(lines) == i
  {
  }

  lemma StoreKeeps(m: ParamMap, line: string, k: string)
    requires k in m && KeyOf(line) != Some(k)
    ensures k in Store(m, line) && Store(m, line)[k] == m[k]
  {
  }

  lemma StoreSets(m: ParamMap, line: string, k: string, v: Option<string>)
    requires Entry(line) == Some((k, v))
    ensures k in Store(m, line) && Store(m, line)[k] == v
  {
  }

  /** The loop stops at the first short line: what follows it does not reach the
      parameters and stays unread. */
  lemma HeaderStops(block: seq<string>, stop: string, rest: seq<string>)
    requires forall i :: 0 <= i < |block| ==> |block[i]| > 1
    requires |stop| <= 1
    ensures BlockLength(block + [stop] + rest) == |block|
    ensures HeaderUsed(block + [stop] + rest) == |block| + 1
    ensures Header(block + [stop] + rest) == Params(block)
  {
    var lines := block + [stop] + rest;
    var n := BlockLength(lines);
    assert lines[|block|] == stop;
    forall i | 0 <= i < |block| ensures |lines[i]| > 1 {
      assert lines[i] == block[i];
    }
    assert n <= |block|;
    assert lines[..|block|] == block;
  }

  /** Without a terminator the whole input is the block and all of it is read. */
  lemma HeaderToEnd(lines: seq<string>)
    requires forall i :: 0 <= i < |lines| ==> |lines[i]| > 1
    ensures BlockLength(lines) == |lines| && HeaderUsed(lines) == |lines|
    ensures Header(lines) == Params(lines)
  {
    assert lines[..|lines|] == lines;
  }

  /** A line whose stripped text is KEY, a colon and VALUE stores the stripped VALUE
      under KEY without its `agi_` prefix. */
  lemma EntryOfSplit(line: string, key: string, value: string)
    requires Strip(line) == key + [':'] + value
    requires ':' !in key
    ensures Entry(line) == Some((DropPrefix(key), CleanValue(Some(value))))
  {
    SplitOnceJoin(key, ':', value);
  }

  /** A well-formed line `agi_KEY: VALUE` stores VALUE (nil when empty) under KEY. KEY
      may be empty, may hold any character but `:`, and keeps its spaces. */
  lemma EntryOfHeaderLine(k: string, v: string)
    requires ':' !in k
    requires IsTrimmed(v)
    ensures Entry("agi_" + k + ": " + v + "\n") == Some((k, if v == [] then None else Some(v)))
  {
    var key := "agi_" + k;
    var line := "agi_" + k + ": " + v + "\n";
    assert ':' !in key && key[0] == 'a';
    assert DropPrefix(key) == k by {
      assert key[..4] == "agi_" && key[4..] == k;
    }
    assert line == key + [':'] + (" " + v) + "\n" by {
      assert ": " == [':'] + " ";
    }
    if v == [] {
      assert line == key + [':'] + " \n";
      EntryBlank(line, key);
    } else {
      EntryValued(line, key, v);
    }
  }

  /** `KEY: ` and the line feed: the key with a nil value. */
  lemma EntryBlank(line: string, key: string)
    requires line == key + [':'] + " \n" && ':' !in key && |key| > 0 && !IsStripSpace(key[0])
    ensures Entry(line) == Some((DropPrefix(key), None))
  {
    assert Strip(line) == key + [':'] + [] by {
      assert line == [] + (key + [':']) + " \n";
      StripPadded([], key + [':'], " \n");
      assert key + [':'] == key + [':'] + [];
    }
    EntryOfSplit(line, key, []);
  }

  /** `KEY: VALUE` and the line feed, VALUE trimmed and not empty. */
  lemma EntryValued(line: string, key: string, v: string)
    requires line == key + [':'] + (" " + v) + "\n" && ':' !in key && |key| > 0 && !IsStripSpace(key[0])
    requires v != [] && IsTrimmed(v)
    ensures Entry(line) == Some((DropPrefix(key), Some(v)))
  {
    var t := key + [':'] + (" " + v);
    assert Strip(line) == t by {
      assert line == [] + t + "\n";
      assert t[0] == key[0] && t[|t| - 1] == v[|v| - 1];
      StripPadded([], t, "\n");
    }
    assert Entry(line) == Some((DropPrefix(key), CleanValue(Some(" " + v)))) by {
      EntryOfSplit(line, key, " " + v);
    }
    assert CleanValue(Some(" " + v)) == Some(v) by {
      StripSpaced(v);
    }
  }

  /** A line without a colon is stored under its stripped text, without a leading
      `agi_`, as a key with a nil value. */
  lemma EntryWithoutColon(t: string)
    requires t != [] && IsTrimmed(t) && ':' !in t
    ensures Entry(t + "\n") == Some((DropPrefix(t), None))
  {
    assert t + "\n" == [] + t + "\n";
    StripPadded([], t, "\n");
  }

  /** The line Asterisk sends for one variable of the environment. */
  function HeaderLine(k: string, v: string): string {
    "agi_" + k + ": " + v + "\n"
  }

  function HeaderLines(ks: seq<string>, vs: seq<string>): (lines: seq<string>)
    requires |ks| == |vs|
    ensures |lines| == |ks|
    ensures forall i :: 0 <= i < |ks| ==> lines[i] == HeaderLine(ks[i], vs[i])
  {
    seq(|ks|, i requires 0 <= i < |ks| => HeaderLine(ks[i], vs[i]))
  }

  /** A header block of well-formed lines followed by the empty line: all of it and the
      empty line are read, nothing after them, and each key maps to the value on the
      last line carrying it (nil for an empty value). */
  lemma HeaderOfLines(ks: seq<string>, vs: seq<string>, rest: seq<string>, i: nat)
    requires |ks| == |vs| && i < |ks|
    requires forall j :: 0 <= j < |ks| ==> ':' !in ks[j] && IsTrimmed(vs[j])
    requires forall j :: i < j < |ks| ==> ks[j] != ks[i]
    ensures HeaderUsed(HeaderLines(ks, vs) + ["\n"] + rest) == |ks| + 1
    ensures Lookup(Header(HeaderLines(ks, vs) + ["\n"] + rest), ks[i]) == if vs[i] == [] then None else Some(vs[i])
  {
    var block := HeaderLines(ks, vs);
    HeaderStops(block, "\n", rest);
    forall j | i <= j < |ks| ensures Entry(block[j]) == Some((ks[j], if vs[j] == [] then None else Some(vs[j]))) {
      EntryOfHeaderLine(ks[j], vs[j]);
    }
    ParamsLastWins(block, i, ks[i], if vs[i] == [] then None else Some(vs[i]));
  }

  /** The header of the repository's own test fixture: four variables, the empty line,
      and whatever follows. */
  lemma FixtureHeader(ks: seq<string>, vs: seq<string>, rest: seq<string>)
    requires ks == ["network_script", "type", "channel", "accountcode"]
    requires vs == ["dialplan", "SIP", "SIP/cisco-spa-00000001", "1"]
    ensures HeaderUsed(HeaderLines(ks, vs) + ["\n"] + rest) == 5
    ensures var m := Header(HeaderLines(ks, vs) + ["\n"] + rest);
      Lookup(m, "network_script") == Some("dialplan") && Lookup(m, "type") == Some("SIP") &&
      Lookup(m, "channel") == Some("SIP/cisco-spa-00000001") && Lookup(m, "accountcode") == Some("1")
  {
    FixtureWellFormed(ks, vs);
    var m := Header(HeaderLines(ks, vs) + ["\n"] + rest);
    assert Lookup(m, "network_script") == Some("dialplan") && HeaderUsed(HeaderLines(ks, vs) + ["\n"] + rest) == 5 by {
      HeaderOfLines(ks, vs, rest, 0);
    }
    assert Lookup(m, "type") == Some("SIP") by {
      HeaderOfLines(ks, vs, rest, 1);
    }
    assert Lookup(m, "channel") == Some("SIP/cisco-spa-00000001") by {
      HeaderOfLines(ks, vs, rest, 2);
    }
    assert Lookup(m, "accountcode") == Some("1") by {
      HeaderOfLines(ks, vs, rest, 3);
    }
  }

  lemma FixtureWellFormed(ks: seq<string>, vs: seq<string>)
    requires ks == ["network_script", "type", "channel", "accountcode"]
    requires vs == ["dialplan", "SIP", "SIP/cisco-spa-00000001", "1"]
    ensures forall j :: 0 <= j < |ks| ==> ':' !in ks[j] && IsTrimmed(vs[j])
    ensures forall i, j :: 0 <= i < j < |ks| ==> ks[j] != ks[i]
  {
  }
}
