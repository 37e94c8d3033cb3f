/** The channel name of lib/asterisk/agi/channel.rb. The constructor matches the whole
    string against `\A(?<tech>[A-z]+)\/(?<name>.+)\-(?<id>.+)\z` and keeps the three
    captures; a string that does not match, or nil, leaves all three nil. */
module AgiChannel {
  import opened Wrappers
  import opened RubyText

  datatype Channel = Channel(tech: Option<string>, name: Option<string>, id: Option<string>)

  const Unmatched := Channel(None, None, None)

  /** `[A-z]`: the ASCII range from `A` to `z`, which also holds `[`, `\`, `]`, `^`,
      `_` and the backquote, but not `/`. */
  predicate IsTechChar(c: char) {
    'A' <= c <= 'z'
  }

  predicate IsTech(t: string) {
    |t| > 0 && forall j :: 0 <= j < |t| ==> IsTechChar(t[j])
  }

  /** Index of the first character of `s` outside `[A-z]`, or `|s|`: where the greedy
      `[A-z]+` stops. */
  function TechEnd(s: string): (i: nat)
    ensures i <= |s|
    ensures i < |s| ==> !IsTechChar(s[i])
    ensures forall j :: 0 <= j < i ==> IsTechChar(s[j])
  {
    if |s| == 0 || !IsTechChar(s[0]) then 0 else 1 + TechEnd(s[1..])
  }

  /** The largest `p` with `1 <= p < k` and `rest[p] == '-'`, or 0 when there is none.
      Called with `k == |rest| - 1` it finds the `-` that the greedy `(.+)\-(.+)` settles
      on: the last one with at least one character on either side. */
  function DashBefore(rest: string, k: nat): (p: nat)
    requires k <= |rest|
    ensures p > 0 ==> p < k && rest[p] == '-'
    ensures forall q :: p < q < k && 1 <= q ==> rest[q] != '-'
    decreases k
  {
    if k <= 1 then 0 else if rest[k - 1] == '-' then k - 1 else DashBefore(rest, k - 1)
  }

  /** `Channel.new(str)`. When the pattern matches, all three parts are present and
      non-empty, the technology consists of `[A-z]` characters (so it holds no `/`),
      name and id hold no line feed (`.` does not match one). Otherwise all three are
      nil; nothing is raised. */
  function Parse(str: Option<string>): (c: Channel)
    ensures c.tech.Some? <==> c.name.Some?
    ensures c.tech.Some? <==> c.id.Some?
    ensures c.tech.Some? ==> IsTech(c.tech.value) && '/' !in c.tech.value
    ensures c.tech.Some? ==> |c.name.value| > 0 && '\n' !in c.name.value
    ensures c.tech.Some? ==> |c.id.value| > 0 && '\n' !in c.id.value
  {
    match str
    case None => Unmatched
    case Some(s) =>
      var i := TechEnd(s);
      if 0 < i < |s| - 1 && s[i] == '/' then
        var rest := s[i + 1..];
        var p := DashBefore(rest, |rest| - 1);
        if '\n' !in rest && p > 0 then
          Channel(Some(s[..i]), Some(rest[..p]), Some(rest[p + 1..]))
        else Unmatched
      else Unmatched
  }

  /** `name_with_tech`: `"#{tech}/#{name}"`, where a nil part interpolates as "". */
  function NameWithTech(c: Channel): string {
    Interpolate(c.tech) + "/" + Interpolate(c.name)
  }

  /** `to_s`: `name_with_tech`, followed by `-` and the id only when there is an id. */
  function ToString(c: Channel): string {
    NameWithTech(c) + (if c.id.Some? then "-" + c.id.value else "")
  }

  /** Every string the pattern matches is its three parts joined by `/` and `-`, so
      `to_s` reproduces it, and `name_with_tech` is the part before the dash that
      precedes the id. */
  lemma RoundTrip(s: string)
    requires Parse(Some(s)).tech.Some?
    ensures var c := Parse(Some(s)); s == c.tech.value + "/" + c.name.value + "-" + c.id.value
    ensures ToString(Parse(Some(s))) == s
    ensures NameWithTech(Parse(Some(s))) + "-" + Parse(Some(s)).id.value == s
  {
    var i := TechEnd(s);
    var rest := s[i + 1..];
    var p := DashBefore(rest, |rest| - 1);
    assert Parse(Some(s)) == Channel(Some(s[..i]), Some(rest[..p]), Some(rest[p + 1..]));
    Reassemble(s, i, p);
    Rendered(s[..i], rest[..p], rest[p + 1..]);
  }

  lemma Reassemble(s: string, i: nat, p: nat)
    requires i < |s| && s[i] == '/'
    requires p < |s| - i - 1 && s[i + 1..][p] == '-'
    ensures s == s[..i] + "/" + s[i + 1..][..p] + "-" + s[i + 1..][p + 1..]
  {
    var rest := s[i + 1..];
    assert rest == rest[..p] + "-" + rest[p + 1..];
    assert s == s[..i] + "/" + rest;
  }

  lemma Rendered(tech: string, name: string, id: string)
    ensures NameWithTech(Channel(Some(tech), Some(name), Some(id))) == tech + "/" + name
    ensures ToString(Channel(Some(tech), Some(name), Some(id))) == tech + "/" + name + "-" + id
  {
  }

  /** A channel that did not match still renders: both nil parts interpolate as the
      empty string and no id is appended, so `name_with_tech` and `to_s` give `/`. */
  lemma RenderedUnmatched()
    ensures NameWithTech(Unmatched) == "/" && ToString(Unmatched) == "/"
  {
  }

  lemma TechEndOfFormat(tech: string, tail: string)
    requires IsTech(tech)
    requires |tail| > 0 && tail[0] == '/'
    ensures TechEnd(tech + tail) == |tech|
  {
    var s := tech + tail;
    assert forall j :: 0 <= j < |tech| ==> s[j] == tech[j];
    assert s[|tech|] == '/';
  }

  lemma DashOfFormat(name: string, id: string)
    requires |name| > 0 && |id| > 0
    requires forall j :: 0 <= j < |id| - 1 ==> id[j] != '-'
    ensures DashBefore(name + "-" + id, |name| + |id|) == |name|
  {
    var rest := name + "-" + id;
    assert rest[|name|] == '-';
    assert forall q :: |name| < q < |rest| - 1 ==> rest[q] == id[q - |name| - 1];
  }

  lemma ParseAt(s: string, i: nat, p: nat)
    requires 0 < i < |s| - 1 && TechEnd(s) == i && s[i] == '/'
    requires '\n' !in s[i + 1..]
    requires 0 < p && DashBefore(s[i + 1..], |s| - i - 2) == p
    ensures Parse(Some(s)) == Channel(Some(s[..i]), Some(s[i + 1..][..p]), Some(s[i + 1..][p + 1..]))
  {
  }

  /** The pieces of `a + [sep] + b`, recovered by slicing at `|a|`. */
  lemma JoinSlices(a: string, sep: char, b: string)
    ensures (a + [sep] + b)[..|a|] == a
    ensures (a + [sep] + b)[|a|] == sep
    ensures (a + [sep] + b)[|a| + 1..] == b
  {
  }

  /** The inverse direction: a technology of `[A-z]` characters, a name and an id, both
      non-empty and without line feeds, with no `-` in the id before its last character,
      are recovered exactly from `TECH/NAME-ID`. The name may itself contain `-` and `/`. */
  lemma ParseFormat(tech: string, name: string, id: string)
    requires IsTech(tech)
    requires |name| > 0 && '\n' !in name
    requires |id| > 0 && '\n' !in id
    requires forall j :: 0 <= j < |id| - 1 ==> id[j] != '-'
    ensures Parse(Some(tech + "/" + name + "-" + id)) == Channel(Some(tech), Some(name), Some(id))
  {
    var rest := name + ['-'] + id;
    var s := tech + ['/'] + rest;
    assert s == tech + "/" + name + "-" + id;
    JoinSlices(tech, '/', rest);
    JoinSlices(name, '-', id);
    TechEndOfFormat(tech, ['/'] + rest);
    DashOfFormat(name, id);
    ParseAt(s, |tech|, |name|);
  }

  /** The header value the test fixture carries: technology `SIP`, name `cisco-spa`. */
  lemma FixtureChannel()
    ensures Parse(Some("SIP/cisco-spa-00000001")) == Channel(Some("SIP"), Some("cisco-spa"), Some("00000001"))
  {
    assert "SIP/cisco-spa-00000001" == "SIP" + "/" + "cisco-spa" + "-" + "00000001";
    ParseFormat("SIP", "cisco-spa", "00000001");
  }

  /** Without a `/` there is no technology to split off: nothing is captured and nothing
      is raised. */
  lemma ParseWithoutSlash(s: string)
    requires '/' !in s
    ensures Parse(Some(s)) == Unmatched
  {
    var i := TechEnd(s);
    assert i < |s| ==> s[i] != '/';
  }
}
