/** The parts of Python's str behaviour the synchronisation engine relies on:
    whitespace as str.isspace() sees it, str.strip(), str.split() on one
    character, str.join(), and what a pattern ending in `$` has to match. */
module PyText {

  /** str.isspace(): the whitespace of str.strip(), float(), int() and the
      regular-expression class \s (Unicode whitespace, all of it listed). */
  predicate IsSpace(c: char) {
    || c == ' '
    || ('\t' <= c <= '\r')
    || ('\U{1C}' <= c <= '\U{1F}')
    || c == '\U{85}' || c == '\U{A0}' || c == '\U{1680}'
    || ('\U{2000}' <= c <= '\U{200A}')
    || c == '\U{2028}' || c == '\U{2029}' || c == '\U{202F}' || c == '\U{205F}' || c == '\U{3000}'
  }

  predicate IsDigit(c: char) { '0' <= c <= '9' }

  predicate IsUpper(c: char) { 'A' <= c <= 'Z' }

  predicate IsLower(c: char) { 'a' <= c <= 'z' }

  /** One or more ASCII digits: the regular expression \d+ (see README for non-ASCII digits). */
  predicate IsDigits(s: string) {
    |s| > 0 && forall i :: 0 <= i < |s| ==> IsDigit(s[i])
  }

  predicate AllSpace(s: string) {
    forall i :: 0 <= i < |s| ==> IsSpace(s[i])
  }

  /** A string with no whitespace at either end: what str.strip() returns. */
  predicate Trimmed(s: string) {
    s == [] || (!IsSpace(s[0]) && !IsSpace(s[|s| - 1]))
  }

  /** str.lstrip(): drops the longest all-whitespace prefix. */
  function StripLeft(s: string): (r: string)
    ensures |r| <= |s| && r == s[|s| - |r|..]
    ensures r == [] || !IsSpace(r[0])
    ensures AllSpace(s[..|s| - |r|])
  {
    if |s| > 0 && IsSpace(s[0]) then
      var t := s[1..];
      var r := StripLeft(t);
      assert s[..|s| - |r|] == [s[0]] + t[..|t| - |r|];
      r
    else s
  }

  /** str.rstrip(): drops the longest all-whitespace suffix. */
  function StripRight(s: string): (r: string)
    ensures |r| <= |s| && r == s[..|r|]
    ensures r == [] || !IsSpace(r[|r| - 1])
    ensures AllSpace(s[|r|..])
  {
    if |s| > 0 && IsSpace(s[|s| - 1]) then
      var r := StripRight(s[..|s| - 1]);
      assert s[|r|..] == s[..|s| - 1][|r|..] + [s[|s| - 1]];
      r
    else s
  }

  /** str.strip(): the string without its leading and trailing whitespace. */
  function Strip(s: string): (r: string)
    ensures Trimmed(r)
  {
    var l := StripLeft(s);
    var r := StripRight(l);
    assert r == [] || !IsSpace(r[0]) by {
      if r != [] { assert r[0] == l[0]; }
    }
    r
  }

  /** Whitespace around a trimmed string is exactly what strip() removes. */
  lemma StripPadded(lead: string, t: string, trail: string)
    requires AllSpace(lead) && AllSpace(trail) && Trimmed(t)
    ensures Strip(lead + t + trail) == t
  {
    if t == [] {
      StripAllSpace(lead, trail);
      assert lead + t + trail == lead + trail;
    } else {
      StripAroundText(lead, t, trail);
    }
  }

  lemma StripAllSpace(lead: string, trail: string)
    requires AllSpace(lead) && AllSpace(trail)
    ensures Strip(lead + trail) == []
  {
    var s := lead + trail;
    assert AllSpace(s) by {
      forall i | 0 <= i < |s| ensures IsSpace(s[i]) {
        if i < |lead| { assert s[i] == lead[i]; } else { assert s[i] == trail[i - |lead|]; }
      }
    }
    StripLeftPadded(s, []);
    assert s + [] == s;
  }

  lemma StripAroundText(lead: string, t: string, trail: string)
    requires AllSpace(lead) && AllSpace(trail) && t != [] && Trimmed(t)
    ensures Strip(lead + t + trail) == t
  {
    var s := lead + t + trail;
    var u := t + trail;
    assert u[0] == t[0];
    assert s == lead + u;
    StripLeftPadded(lead, u);
    StripRightPadded(t, trail);
    assert StripRight(StripLeft(s)) == t;
  }

  /** strip() leaves a string with no whitespace at either end unchanged. */
  lemma StripTrimmed(s: string)
    requires Trimmed(s)
    ensures Strip(s) == s
  {
    StripPadded("", s, "");
    assert "" + s + "" == s;
  }

  lemma {:induction false} StripLeftPadded(lead: string, t: string)
    requires AllSpace(lead) && (t == [] || !IsSpace(t[0]))
    ensures StripLeft(lead + t) == t
    decreases |lead|
  {
    if lead != [] {
      assert (lead + t)[1..] == lead[1..] + t;
      StripLeftPadded(lead[1..], t);
    }
  }

  lemma {:induction false} StripRightPadded(t: string, trail: string)
    requires AllSpace(trail) && (t == [] || !IsSpace(t[|t| - 1]))
    ensures StripRight(t + trail) == t
    decreases |trail|
  {
    if trail != [] {
      var s := t + trail;
      assert s[..|s| - 1] == t + trail[..|trail| - 1];
      StripRightPadded(t, trail[..|trail| - 1]);
    } else {
      assert t + trail == t;
    }
  }

  /** What a pattern ending in `$` must match in full: Python's `$` also
      matches just before one final "\n", so that newline is not matched. */
  function DollarBody(s: string): (b: string)
    ensures b == s || b + "\n" == s
  {
    if |s| > 0 && s[|s| - 1] == '\n' then s[..|s| - 1] else s
  }

  /** The position of the first `c` in `s` (str.index). */
  function IndexOf(s: string, c: char): (k: nat)
    requires c in s
    ensures k < |s| && s[k] == c && c !in s[..k]
  {
    if s[0] == c then 0 else 1 + IndexOf(s[1..], c)
  }

  /** sep.join(parts) for a one-character separator. */
  function Join(parts: seq<string>, sep: char): string
  {
    if |parts| == 0 then ""
    else if |parts| == 1 then parts[0]
    else parts[0] + [sep] + Join(parts[1..], sep)
  }

  /** sep.join(parts) for a separator of any length. */
  function JoinWith(parts: seq<string>, sep: string): string
  {
    if |parts| == 0 then ""
    else if |parts| == 1 then parts[0]
    else parts[0] + sep + JoinWith(parts[1..], sep)
  }

  /** str.split(sep) for a one-character separator: the pieces between the
      separators, never containing it, that join back to the input. */
  function Split(s: string, sep: char): (parts: seq<string>)
    ensures |parts| >= 1
    ensures forall i :: 0 <= i < |parts| ==> sep !in parts[i]
    ensures Join(parts, sep) == s
    decreases |s|
  {
    if sep !in s then [s]
    else
      var k := IndexOf(s, sep);
      var rest := Split(s[k + 1..], sep);
      var parts := [s[..k]] + rest;
      assert parts[1..] == rest;
      assert s == s[..k] + [sep] + s[k + 1..];
      parts
  }

  /** Joining two pieces puts the separator between them. */
  lemma JoinTwo(parts: seq<string>, sep: char)
    requires |parts| == 2
    ensures Join(parts, sep) == parts[0] + [sep] + parts[1]
  {
    assert parts[1..] == [parts[1]];
  }

  /** Splitting at a first separator: the piece before it, then the split
      of the rest. */
  lemma SplitAt(s: string, sep: char, p: string, j: string)
    requires s == p + [sep] + j && sep !in p
    ensures Split(s, sep) == [p] + Split(j, sep)
  {
    assert s[|p|] == sep;
    var k := IndexOf(s, sep);
    assert k == |p|;
    assert s[..k] == p;
    assert s[k + 1..] == j;
  }

  /** Splitting undoes joining when no piece contains the separator. */
  lemma {:induction false} SplitJoin(parts: seq<string>, sep: char)
    requires |parts| >= 1
    requires forall i :: 0 <= i < |parts| ==> sep !in parts[i]
    ensures Split(Join(parts, sep), sep) == parts
    decreases |parts|
  {
    if |parts| > 1 {
      SplitAt(Join(parts, sep), sep, parts[0], Join(parts[1..], sep));
      SplitJoin(parts[1..], sep);
      assert parts == [parts[0]] + parts[1..];
    }
  }

  /** A trimmed string does not end in a newline, so `$` must match all of it. */
  lemma TrimmedBody(s: string)
    requires Trimmed(s)
    ensures DollarBody(s) == s
  {
    if s != [] {
      assert IsSpace('\n');
    }
  }
}
