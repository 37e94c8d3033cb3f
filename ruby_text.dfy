/** The Ruby `String` operations the AGI code relies on, written out with the edge cases
    the code meets: `strip`, `split(":", 2)`, the awk-style `split(" ")`, `to_i`,
    `Integer#to_s`, `start_with?`, slices such as `s[1..-2]`, and `"#{x}"` of a nil. */
module RubyText {
  import opened Wrappers

  /** `ISSPACE` of Ruby's C core: space, tab, line feed, vertical tab, form feed and
      carriage return. `split(" ")` and `to_i` skip exactly these. */
  predicate IsSpace(c: char) {
    c == ' ' || '\t' <= c <= '\r'
  }

  /** What `String#strip` removes at either end: NUL and the `ISSPACE` characters. */
  predicate IsStripSpace(c: char) {
    c == '\0' || IsSpace(c)
  }

  predicate IsDigit(c: char) {
    '0' <= c <= '9'
  }

  predicate AllStripSpace(s: string) {
    forall i :: 0 <= i < |s| ==> IsStripSpace(s[i])
  }

  /** True when `s` has nothing `strip` would remove. */
  predicate IsTrimmed(s: string) {
    s == [] || (!IsStripSpace(s[0]) && !IsStripSpace(s[|s| - 1]))
  }

  /** A non-empty run of characters none of which is white space. */
  predicate IsWord(w: string) {
    |w| > 0 && forall i :: 0 <= i < |w| ==> !IsSpace(w[i])
  }

  // ---------------------------------------------------------------- sequences

  /** Small facts about sequence displays, kept apart from the string functions so that
      proving them never unfolds those. */
  lemma HeadTail<T>(s: seq<T>)
    requires |s| > 0
    ensures [s[0]] + s[1..] == s
  {
  }

  lemma ConsCons<T>(a: T, b: T, s: seq<T>)
    ensures [a] + ([b] + s) == [a, b] + s
  {
  }

  lemma Assoc<T>(a: seq<T>, b: seq<T>, c: seq<T>)
    ensures a + b + c == a + (b + c)
  {
  }

  lemma Assoc5<T>(a: seq<T>, b: seq<T>, c: seq<T>, d: seq<T>, e: seq<T>)
    ensures a + b + c + d + e == a + b + (c + d + e)
  {
  }

  // ---------------------------------------------------------------- strip

  /** How many NUL and white-space characters `s` starts with. */
  function LeadingSpace(s: string): (i: nat)
    ensures i <= |s|
    ensures forall j :: 0 <= j < i ==> IsStripSpace(s[j])
    ensures i < |s| ==> !IsStripSpace(s[i])
  {
    if |s| > 0 && IsStripSpace(s[0]) then 1 + LeadingSpace(s[1..]) else 0
  }

  /** The length of `s` without the NUL and white-space characters it ends with. */
  function TrailingStart(s: string): (i: nat)
    ensures i <= |s|
    ensures forall j :: i <= j < |s| ==> IsStripSpace(s[j])
    ensures i > 0 ==> !IsStripSpace(s[i - 1])
  {
    if |s| > 0 && IsStripSpace(s[|s| - 1]) then TrailingStart(s[..|s| - 1]) else |s|
  }

  /** `String#strip`: `s` without its leading and trailing NUL and white space. */
  function Strip(s: string): (r: string)
    ensures IsTrimmed(r)
    ensures |r| <= |s|
  {
    var t := s[..TrailingStart(s)];
    t[LeadingSpace(t)..]
  }

  lemma TrailingOf(x: string, post: string)
    requires AllStripSpace(post)
    requires x == [] || !IsStripSpace(x[|x| - 1])
    ensures TrailingStart(x + post) == |x|
  {
    var s := x + post;
    forall j | |x| <= j < |s| ensures IsStripSpace(s[j]) {
      assert s[j] == post[j - |x|];
    }
    assert |x| > 0 ==> s[|x| - 1] == x[|x| - 1];
  }

  lemma LeadingOf(pre: string, x: string)
    requires AllStripSpace(pre)
    requires x == [] || !IsStripSpace(x[0])
    ensures LeadingSpace(pre + x) == |pre|
  {
    var s := pre + x;
    forall j | 0 <= j < |pre| ensures IsStripSpace(s[j]) {
      assert s[j] == pre[j];
    }
    assert |x| > 0 ==> s[|pre|] == x[0];
  }

  /** Stripping undoes padding: whatever NUL and white space surround a trimmed text,
      `strip` gives back exactly that text. */
  lemma StripPadded(pre: string, x: string, post: string)
    requires AllStripSpace(pre) && AllStripSpace(post)
    requires IsTrimmed(x)
    ensures Strip(pre + x + post) == x
  {
    var s := pre + x + post;
    if x == [] {
      assert s == [] + (pre + post);
      assert AllStripSpace(pre + post) by {
        forall j | 0 <= j < |pre + post| ensures IsStripSpace((pre + post)[j]) {
          if j < |pre| { assert (pre + post)[j] == pre[j]; } else { assert (pre + post)[j] == post[j - |pre|]; }
        }
      }
      TrailingOf([], pre + post);
      assert s[..0] == [];
    } else {
      assert s == (pre + x) + post;
      TrailingOf(pre + x, post);
      assert s[..|pre| + |x|] == pre + x;
      LeadingOf(pre, x);
      assert (pre + x)[|pre|..] == x;
    }
  }

  lemma StripSpaced(v: string)
    requires IsTrimmed(v)
    ensures Strip(" " + v) == v
  {
    assert " " + v == [' '] + v + [];
    StripPadded([' '], v, []);
  }

  // ---------------------------------------------------------------- prefixes, slices

  predicate StartsWith(s: string, p: string) {
    |p| <= |s| && s[..|p|] == p
  }

  predicate EndsWith(s: string, p: string) {
    |p| <= |s| && s[|s| - |p|..] == p
  }

  /** `s[1..-2]` on a non-empty string: `s` without its first and last character, and
      the empty string when `s` has a single character. */
  function Inner(s: string): (r: string)
    requires |s| > 0
    ensures |s| >= 2 ==> s == [s[0]] + r + [s[|s| - 1]]
    ensures |s| == 1 ==> r == []
  {
    if |s| >= 2 then s[1..|s| - 1] else []
  }

  /** `"#{x}"` for a string or nil: nil interpolates as the empty string. */
  function Interpolate(x: Option<string>): string {
    if x.Some? then x.value else ""
  }

  // ---------------------------------------------------------------- split(c, 2)

  /** Index of the first `c` in `s`, or `|s|` when there is none. */
  function IndexOf(s: string, c: char): (i: nat)
    ensures i <= |s|
    ensures i < |s| ==> s[i] == c
    ensures forall j :: 0 <= j < i ==> s[j] != c
  {
    if |s| == 0 || s[0] == c then 0 else 1 + IndexOf(s[1..], c)
  }

  /** `s.split(c, 2)` for a non-empty `s`: the text before the first `c` and the text
      after it, or the whole of `s` and nil when `s` holds no `c`. */
  function SplitOnce(s: string, c: char): (r: (string, Option<string>))
    ensures r.1.None? ==> r.0 == s && c !in s
    ensures r.1.Some? ==> s == r.0 + [c] + r.1.value && c !in r.0
  {
    var i := IndexOf(s, c);
    if i == |s| then (s, None) else (s[..i], Some(s[i + 1..]))
  }

  /** Splitting at the first separator gives back the two sides it joined. */
  lemma SplitOnceJoin(a: string, c: char, b: string)
    requires c !in a
    ensures SplitOnce(a + [c] + b, c) == (a, Some(b))
  {
    var s := a + [c] + b;
    assert forall j :: 0 <= j < |a| ==> s[j] == a[j];
    assert s[|a|] == c;
    assert IndexOf(s, c) == |a|;
    assert s[..|a|] == a && s[|a| + 1..] == b;
  }

  // ---------------------------------------------------------------- split(" ")

  /** Index of the first white-space character of `t`, or `|t|`. */
  function WordEnd(t: string): (i: nat)
    ensures i <= |t|
    ensures i < |t| ==> IsSpace(t[i])
    ensures forall j :: 0 <= j < i ==> !IsSpace(t[j])
  {
    if |t| == 0 || IsSpace(t[0]) then 0 else 1 + WordEnd(t[1..])
  }

  /** `t` without its leading white space. */
  function SkipSpaces(t: string): (r: string)
    ensures |r| <= |t| && r == t[|t| - |r|..]
    ensures r == [] || !IsSpace(r[0])
    ensures forall j :: 0 <= j < |t| - |r| ==> IsSpace(t[j])
  {
    if |t| > 0 && IsSpace(t[0]) then SkipSpaces(t[1..]) else t
  }

  /** `s.split(" ")`, Ruby's awk-style split: the maximal runs of non-space characters,
      in order. */
  function Words(s: string): (ws: seq<string>)
    ensures forall i :: 0 <= i < |ws| ==> IsWord(ws[i])
    ensures |s| > 0 && !IsSpace(s[0]) ==> |ws| > 0 && ws[0] == s[..WordEnd(s)]
    decreases |s|
  {
    var t := SkipSpaces(s);
    if t == [] then []
    else
      var i := WordEnd(t);
      var rest := Words(t[i..]);
      assert IsWord(t[..i]);
      assert |s| > 0 && !IsSpace(s[0]) ==> t == s;
      AllWordsCons(t[..i], rest);
      [t[..i]] + rest
  }

  lemma AllWordsCons(w: string, ws: seq<string>)
    requires IsWord(w) && forall i :: 0 <= i < |ws| ==> IsWord(ws[i])
    ensures forall i :: 0 <= i < |[w] + ws| ==> IsWord(([w] + ws)[i])
  {
    forall i | 0 <= i < |[w] + ws| ensures IsWord(([w] + ws)[i]) {
      if i > 0 {
        assert ([w] + ws)[i] == ws[i - 1];
      }
    }
  }

  /** `s.split(" ", 2)` for a string that does not start with white space: its first
      word, and what follows the white space after it (nil when the word is all of `s`). */
  function SplitWord(s: string): (r: (string, Option<string>))
    requires |s| > 0 && !IsSpace(s[0])
    ensures IsWord(r.0) && StartsWith(s, r.0)
    ensures r.1.None? <==> r.0 == s
  {
    var i := WordEnd(s);
    if i == |s| then (s, None) else (s[..i], Some(SkipSpaces(s[i..])))
  }

  lemma SkipSpacesOfWord(s: string)
    requires |s| == 0 || !IsSpace(s[0])
    ensures SkipSpaces(s) == s
  {
  }

  lemma WordEndOf(w: string, rest: string)
    requires IsWord(w)
    requires rest == [] || IsSpace(rest[0])
    ensures WordEnd(w + rest) == |w|
  {
    var t := w + rest;
    assert forall j :: 0 <= j < |w| ==> t[j] == w[j];
    assert |rest| > 0 ==> t[|w|] == rest[0];
  }

  lemma {:induction false} SkipSpacesRun(sep: string, rest: string)
    requires forall i :: 0 <= i < |sep| ==> IsSpace(sep[i])
    ensures SkipSpaces(sep + rest) == SkipSpaces(rest)
    decreases |sep|
  {
    if |sep| > 0 {
      assert (sep + rest)[1..] == sep[1..] + rest;
      SkipSpacesRun(sep[1..], rest);
    } else {
      assert sep + rest == rest;
    }
  }

  lemma WordsSkipSpaces(s: string)
    ensures Words(s) == Words(SkipSpaces(s))
  {
    SkipSpacesOfWord(SkipSpaces(s));
  }

  /** Splitting a word followed by white space and more text yields that word first. */
  lemma WordsCons(w: string, sep: string, rest: string)
    requires IsWord(w)
    requires |sep| > 0 && forall i :: 0 <= i < |sep| ==> IsSpace(sep[i])
    ensures Words(w + sep + rest) == [w] + Words(rest)
  {
    var s := w + sep + rest;
    SkipSpacesOfWord(s);
    assert s == w + (sep + rest);
    WordEndOf(w, sep + rest);
    assert s[..|w|] == w;
    assert s[|w|..] == sep + rest;
    SkipSpacesRun(sep, rest);
    WordsSkipSpaces(sep + rest);
    WordsSkipSpaces(rest);
  }

  lemma WordsOfWord(w: string)
    requires IsWord(w)
    ensures Words(w) == [w]
  {
    SkipSpacesOfWord(w);
    WordEndOf(w, []);
    assert w + [] == w;
    assert w[|w|..] == [];
  }

  /** Words joined by single spaces. */
  function Unwords(ws: seq<string>): string
    decreases |ws|
  {
    if |ws| == 0 then "" else if |ws| == 1 then ws[0] else ws[0] + " " + Unwords(ws[1..])
  }

  /** Splitting a line of words joined by spaces gives the words back. */
  lemma {:induction false} WordsOfUnwords(ws: seq<string>)
    requires forall i :: 0 <= i < |ws| ==> IsWord(ws[i])
    ensures Words(Unwords(ws)) == ws
    decreases |ws|
  {
    if |ws| == 0 {
      assert Words("") == [];
    } else if |ws| == 1 {
      WordsOfWord(ws[0]);
    } else {
      var tail := Unwords(ws[1..]);
      assert Words(tail) == ws[1..] by {
        WordsOfUnwords(ws[1..]);
      }
      assert Words(Unwords(ws)) == [ws[0]] + Words(tail) by {
        assert Unwords(ws) == ws[0] + " " + tail;
        WordsCons(ws[0], " ", tail);
      }
      HeadTail(ws);
    }
  }

  /** The words of a line that is the given words joined by spaces. */
  lemma LineWords(line: string, ws: seq<string>)
    requires line == Unwords(ws)
    requires forall i :: 0 <= i < |ws| ==> IsWord(ws[i])
    ensures Words(line) == ws
  {
    WordsOfUnwords(ws);
  }

  lemma Unwords3(a: string, b: string, c: string)
    ensures Unwords([a, b, c]) == a + " " + b + " " + c
  {
    assert [a, b, c][1..] == [b, c];
    assert [b, c][1..] == [c];
    assert Unwords([b, c]) == b + " " + c;
    assert Unwords([a, b, c]) == a + " " + (b + " " + c);
  }

  lemma Unwords4(a: string, b: string, c: string, d: string)
    ensures Unwords([a, b, c, d]) == a + " " + b + " " + c + " " + d
  {
    assert [a, b, c, d][1..] == [b, c, d];
    Unwords3(b, c, d);
    assert Unwords([a, b, c, d]) == a + " " + (b + " " + c + " " + d);
  }

  lemma Unwords5(a: string, b: string, c: string, d: string, e: string)
    ensures Unwords([a, b, c, d, e]) == a + " " + b + " " + c + " " + d + " " + e
  {
    assert [a, b, c, d, e][1..] == [b, c, d, e];
    Unwords4(b, c, d, e);
    assert Unwords([a, b, c, d, e]) == a + " " + (b + " " + c + " " + d + " " + e);
  }

  // ---------------------------------------------------------------- to_i, to_s

  function DigitValue(c: char): nat
    requires IsDigit(c)
  {
    (c as int) - ('0' as int)
  }

  function DigitChar(d: nat): (c: char)
    requires d < 10
    ensures IsDigit(c) && DigitValue(c) == d
  {
    ('0' as int + d) as char
  }

  /** The digits at the front of `t`, single underscores between two digits allowed,
      read from the left and accumulated onto `acc`. */
  function ScanDigits(t: string, acc: int): int
    decreases |t|
  {
    if |t| > 0 && IsDigit(t[0]) then ScanDigits(t[1..], acc * 10 + DigitValue(t[0]))
    else if |t| > 1 && t[0] == '_' && IsDigit(t[1]) then ScanDigits(t[1..], acc)
    else acc
  }

  /** `String#to_i`: skip leading white space, take an optional sign and an optional
      `0d` radix prefix, then the digits; 0 when no digit follows. It never fails. */
  function ToI(s: string): int {
    var t := SkipSpaces(s);
    var negative := |t| > 0 && t[0] == '-';
    var u := if |t| > 0 && (t[0] == '-' || t[0] == '+') then t[1..] else t;
    var w := if |u| > 1 && u[0] == '0' && (u[1] == 'd' || u[1] == 'D') then u[2..] else u;
    if |w| > 0 && IsDigit(w[0]) then (if negative then -ScanDigits(w, 0) else ScanDigits(w, 0))
    else 0
  }

  predicate AllDigits(s: string) {
    forall i :: 0 <= i < |s| ==> IsDigit(s[i])
  }

  /** Decimal digits of a natural number, most significant first. */
  function NatToString(n: nat): (s: string)
    ensures |s| > 0 && AllDigits(s)
    decreases n
  {
    if n < 10 then [DigitChar(n)] else NatToString(n / 10) + [DigitChar(n % 10)]
  }

  /** `Integer#to_s`: decimal digits, with a leading `-` for a negative number. */
  function IntToString(n: int): string {
    if n < 0 then "-" + NatToString(-n) else NatToString(n)
  }

  lemma {:induction false} ScanDigitsSnoc(ds: string, d: char, acc: int)
    requires AllDigits(ds) && IsDigit(d)
    ensures ScanDigits(ds + [d], acc) == ScanDigits(ds, acc) * 10 + DigitValue(d)
    decreases |ds|
  {
    if |ds| == 0 {
      assert ([] + [d])[1..] == [];
    } else {
      assert (ds + [d])[1..] == ds[1..] + [d];
      ScanDigitsSnoc(ds[1..], d, acc * 10 + DigitValue(ds[0]));
    }
  }

  lemma {:induction false} ScanNatToString(n: nat)
    ensures ScanDigits(NatToString(n), 0) == n
    decreases n
  {
    if n >= 10 {
      ScanNatToString(n / 10);
      ScanDigitsSnoc(NatToString(n / 10), DigitChar(n % 10), 0);
    } else {
      assert [DigitChar(n)][1..] == [];
    }
  }

  lemma {:induction false} LeadingDigit(n: nat)
    requires n >= 1
    ensures NatToString(n)[0] != '0'
    decreases n
  {
    if n >= 10 {
      LeadingDigit(n / 10);
    }
  }

  /** A text that starts with two digits is read by its digits alone. */
  lemma ToIOfDigits(w: string)
    requires |w| >= 2 && IsDigit(w[0]) && IsDigit(w[1])
    ensures ToI(w) == ScanDigits(w, 0)
  {
    SkipSpacesOfWord(w);
  }

  lemma ScanThree(a: char, b: char, c: char)
    requires IsDigit(a) && IsDigit(b) && IsDigit(c)
    ensures ScanDigits([a, b, c], 0) == 100 * DigitValue(a) + 10 * DigitValue(b) + DigitValue(c)
  {
    assert [a, b, c][1..] == [b, c] && [b, c][1..] == [c] && [c][1..] == [];
    assert ScanDigits([c], 10 * DigitValue(a) + DigitValue(b)) == 100 * DigitValue(a) + 10 * DigitValue(b) + DigitValue(c);
  }

  /** Three digits read as a decimal number. */
  lemma ToIOfThreeDigits(a: char, b: char, c: char)
    requires IsDigit(a) && IsDigit(b) && IsDigit(c)
    ensures ToI([a, b, c]) == 100 * DigitValue(a) + 10 * DigitValue(b) + DigitValue(c)
  {
    ToIOfDigits([a, b, c]);
    ScanThree(a, b, c);
  }

  /** `to_i` reads back what `to_s` writes, for every integer. */
  lemma ToIOfIntToString(n: int)
    ensures ToI(IntToString(n)) == n
  {
    var m: nat := if n < 0 then -n else n;
    var ds := NatToString(m);
    ScanNatToString(m);
    if m >= 1 {
      LeadingDigit(m);
    }
    assert |ds| > 1 ==> ds[0] != '0';
    var s := IntToString(n);
    SkipSpacesOfWord(s);
    if n < 0 {
      assert s[1..] == ds;
    } else {
      assert s == ds;
    }
  }
}
