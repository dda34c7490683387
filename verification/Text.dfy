/**
 * Optional values, the model of Python's `Optional[str]` (None or a value),
 * and results, the model of a call that either returns or raises.
 */
module Wrappers {
  datatype Option<T> = None | Some(value: T)

  datatype Result<T> = Success(value: T) | Failure(error: string)
}

/**
 * The few Python string primitives the alias engine relies on:
 * `str.isspace`, `str.strip`, `str.lower`, `str.endswith`,
 * `str.split(sep)[0]` and iteration over the lines of a text file.
 */
module Text {

  /** Python's `str.isspace()` for a single code point. */
  predicate IsSpace(c: char) {
    || ('\t' <= c <= '\r')
    || ('\U{1C}' <= c <= '\U{1F}')
    || c == ' ' || c == '\U{85}' || c == '\U{A0}' || c == '\U{1680}'
    || ('\U{2000}' <= c <= '\U{200A}')
    || c == '\U{2028}' || c == '\U{2029}' || c == '\U{202F}' || c == '\U{205F}' || c == '\U{3000}'
  }

  /** True when `s` has no white space at either end (what `strip` leaves). */
  predicate Trimmed(s: string) {
    s == [] || (!IsSpace(s[0]) && !IsSpace(s[|s| - 1]))
  }

  /** Python's `str.lstrip()`: drops the leading white space, and only that. */
  function TrimStart(s: string): (r: string)
    ensures |r| <= |s| && r == s[|s| - |r|..]
    ensures forall i :: 0 <= i < |s| - |r| ==> IsSpace(s[i])
    ensures r != [] ==> !IsSpace(r[0])
    decreases |s|
  {
    if s != [] && IsSpace(s[0]) then TrimStart(s[1..]) else s
  }

  /** Python's `str.rstrip()`: drops the trailing white space, and only that. */
  function TrimEnd(s: string): (r: string)
    ensures |r| <= |s| && r == s[..|r|]
    ensures forall i :: |r| <= i < |s| ==> IsSpace(s[i])
    ensures r != [] ==> !IsSpace(r[|r| - 1])
    decreases |s|
  {
    if s != [] && IsSpace(s[|s| - 1]) then TrimEnd(s[..|s| - 1]) else s
  }

  /** True when every character of `s` is white space. */
  predicate AllSpace(s: string) {
    forall k :: 0 <= k < |s| ==> IsSpace(s[k])
  }

  /** Python's `str.strip()`: the middle of `s` between its leading and trailing white space. */
  function Strip(s: string): (r: string)
    ensures Trimmed(r)
    ensures |r| <= |s|
  {
    TrimEnd(TrimStart(s))
  }

  /** What `lstrip` cuts is white space. */
  lemma TrimStartCut(s: string)
    ensures AllSpace(s[..|s| - |TrimStart(s)|])
  {
    var i := |s| - |TrimStart(s)|;
    forall k | 0 <= k < i ensures IsSpace(s[..i][k]) {
      assert s[..i][k] == s[k];
    }
  }

  /** What `rstrip` cuts is white space. */
  lemma TrimEndCut(t: string)
    ensures AllSpace(t[|TrimEnd(t)|..])
  {
    var j := |TrimEnd(t)|;
    forall k | 0 <= k < |t| - j ensures IsSpace(t[j..][k]) {
      assert t[j..][k] == t[j + k];
    }
  }

  /**
   * `strip` keeps a slice of `s` and cuts only white space, only before and
   * after that slice; with `Trimmed(Strip(s))` this pins the result down.
   */
  lemma StripSlice(s: string)
    ensures exists i ::
              && 0 <= i <= |s| - |Strip(s)| && Strip(s) == s[i..i + |Strip(s)|]
              && AllSpace(s[..i]) && AllSpace(s[i + |Strip(s)|..])
  {
    var t := TrimStart(s);
    var r := Strip(s);
    var i := |s| - |t|;
    TrimStartCut(s);
    TrimEndCut(t);
    assert r == t[..|r|] && t == s[i..];
    assert r == s[i..i + |r|];
    assert s[i + |r|..] == t[|r|..];
  }

  /** `strip` only removes characters, so a character absent from `s` is absent from its stripped form. */
  lemma StripKeepsOut(s: string, c: char)
    requires c !in s
    ensures c !in Strip(s)
  {
    var t := TrimStart(s);
    assert c !in t by {
      assert t == s[|s| - |t|..];
    }
    assert Strip(s) == t[..|Strip(s)|];
  }

  /** A string with no white space at its ends is left alone by `strip`. */
  lemma {:induction false} StripTrimmed(s: string)
    requires Trimmed(s)
    ensures Strip(s) == s
  {
    assert TrimStart(s) == s;
    assert TrimEnd(s) == s;
  }

  /** Stripping twice is stripping once. */
  lemma StripIdempotent(s: string)
    ensures Strip(Strip(s)) == Strip(s)
  {
    StripTrimmed(Strip(s));
  }

  /** The code points `str.lower()` changes, as modelled: ASCII and basic Cyrillic capitals. */
  predicate IsUpper(c: char) {
    ('A' <= c <= 'Z') || ('\U{400}' <= c <= '\U{42F}')
  }

  /** Python's `str.lower()` on one code point, restricted to ASCII and basic Cyrillic. */
  function LowerChar(c: char): (r: char)
    ensures !IsUpper(r)
    ensures !IsUpper(c) ==> r == c
  {
    if 'A' <= c <= 'Z' then (c as int + 0x20) as char
    else if '\U{410}' <= c <= '\U{42F}' then (c as int + 0x20) as char
    else if '\U{400}' <= c <= '\U{40F}' then (c as int + 0x50) as char
    else c
  }

  /** True when `str.lower()`, as modelled, would change nothing in `s`. */
  predicate NoUpper(s: string) {
    forall i :: 0 <= i < |s| ==> !IsUpper(s[i])
  }

  /** Python's `str.lower()`: maps every code point, keeping the length. */
  function Lower(s: string): (r: string)
    ensures |r| == |s|
    ensures forall i :: 0 <= i < |s| ==> !IsUpper(r[i])
    ensures NoUpper(s) ==> r == s
  {
    seq(|s|, i requires 0 <= i < |s| => LowerChar(s[i]))
  }

  /** Lower-casing twice is lower-casing once: a normalised service name is its own key. */
  lemma LowerIdempotent(s: string)
    ensures Lower(Lower(s)) == Lower(s)
  {
  }

  /** Python's `str.endswith(suffix)`. */
  predicate EndsWith(s: string, suffix: string) {
    |suffix| <= |s| && s[|s| - |suffix|..] == suffix
  }

  /** Python's `s.split(sep)[0]`: everything before the first `sep`, or all of `s`. */
  function BeforeFirst(s: string, sep: char): (r: string)
    ensures sep !in r
    ensures |r| <= |s| && r == s[..|r|]
    ensures |r| < |s| ==> s[|r|] == sep
    decreases |s|
  {
    if s == [] || s[0] == sep then [] else [s[0]] + BeforeFirst(s[1..], sep)
  }

  /**
   * The lines of a text file, split at each `'\n'` with the newline removed.
   * Python yields each line with its newline attached and no empty last line;
   * both differences vanish once a line is stripped and blank lines are dropped.
   */
  function Lines(text: string): (r: seq<string>)
    ensures |r| >= 1
    ensures forall k :: 0 <= k < |r| ==> '\n' !in r[k]
    ensures JoinLines(r) == text
    decreases |text|
  {
    if text == [] then [""]
    else if text[0] == '\n' then [""] + Lines(text[1..])
    else
      var rest := Lines(text[1..]);
      [[text[0]] + rest[0]] + rest[1..]
  }

  /** The inverse of `Lines`: the lines joined by `'\n'`. */
  function JoinLines(ls: seq<string>): string
    requires |ls| >= 1
  {
    if |ls| == 1 then ls[0] else ls[0] + "\n" + JoinLines(ls[1..])
  }

  /** A text without a newline is a single line. */
  lemma {:induction false} LinesSingle(text: string)
    requires '\n' !in text
    ensures Lines(text) == [text]
    decreases |text|
  {
    if text != [] {
      LinesSingle(text[1..]);
      assert [text[0]] + text[1..] == text;
    }
  }

  /** Splitting a line that has no newline, followed by a newline, yields that line first. */
  lemma {:induction false} LinesCons(line: string, rest: string)
    requires '\n' !in line
    ensures Lines(line + "\n" + rest) == [line] + Lines(rest)
    decreases |line|
  {
    if line == [] {
      assert line + "\n" + rest == "\n" + rest;
    } else {
      var t := line + "\n" + rest;
      assert t[0] == line[0] && t[1..] == line[1..] + "\n" + rest;
      LinesCons(line[1..], rest);
      assert Lines(t) == [[line[0]] + line[1..]] + Lines(rest);
      assert [line[0]] + line[1..] == line;
    }
  }
}
