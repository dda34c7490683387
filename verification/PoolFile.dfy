/**
 * The pool file: one alias per line. `Database._load_gmails` reads it back
 * stripping every line and dropping blank ones; `generate_domain_names`
 * rewrites it with every alias followed by a newline.
 */
module PoolFile {
  import opened Text

  /** Every line of the file, stripped, one per line, each with nothing left to strip. */
  function StrippedLines(lines: seq<string>): (r: seq<string>)
    ensures |r| == |lines|
    ensures forall k :: 0 <= k < |r| ==> r[k] == Strip(lines[k]) && Trimmed(r[k])
  {
    if lines == [] then []
    else
      assert forall k :: 0 < k < |lines| ==> lines[1..][k - 1] == lines[k];
      [Strip(lines[0])] + StrippedLines(lines[1..])
  }

  /** The non-empty strings of a list, in their order. */
  function DropEmpty(ss: seq<string>): seq<string> {
    if ss == [] then []
    else (if ss[0] == "" then [] else [ss[0]]) + DropEmpty(ss[1..])
  }

  /** Dropping the empty strings keeps exactly the non-empty ones, and never lengthens the list. */
  lemma {:induction false} DropEmptySpec(ss: seq<string>)
    ensures |DropEmpty(ss)| <= |ss|
    ensures forall x :: x in DropEmpty(ss) <==> x != "" && x in ss
  {
    if ss != [] {
      DropEmptySpec(ss[1..]);
      assert ss == [ss[0]] + ss[1..];
    }
  }

  /** A list of non-empty strings followed by one empty string loses just that empty string. */
  lemma {:induction false} DropEmptyLast(ss: seq<string>)
    requires forall k :: 0 <= k < |ss| ==> ss[k] != ""
    ensures DropEmpty(ss + [""]) == ss
  {
    if ss == [] {
      assert DropEmpty([""]) == [] + DropEmpty([]);
    } else {
      assert (ss + [""])[1..] == ss[1..] + [""];
      DropEmptyLast(ss[1..]);
      assert DropEmpty(ss + [""]) == [ss[0]] + ss[1..];
    }
  }

  /** The strip-and-drop-blank filter applied to the lines of the pool file. */
  function KeepNonBlank(lines: seq<string>): seq<string> {
    DropEmpty(StrippedLines(lines))
  }

  /**
   * The filter keeps at most one alias per line, each the stripped form of
   * some line, non-empty and with nothing left to strip; lines without a
   * newline give aliases without one.
   */
  lemma KeepNonBlankClean(lines: seq<string>)
    ensures |KeepNonBlank(lines)| <= |lines|
    ensures forall x :: x in KeepNonBlank(lines) <==> x != "" && x in StrippedLines(lines)
    ensures forall k :: 0 <= k < |KeepNonBlank(lines)| ==> KeepNonBlank(lines)[k] != "" && Trimmed(KeepNonBlank(lines)[k])
    ensures (forall k :: 0 <= k < |lines| ==> '\n' !in lines[k]) ==>
      forall k :: 0 <= k < |KeepNonBlank(lines)| ==> '\n' !in KeepNonBlank(lines)[k]
  {
    var stripped := StrippedLines(lines);
    var kept := KeepNonBlank(lines);
    DropEmptySpec(stripped);
    forall k | 0 <= k < |kept| ensures kept[k] != "" && Trimmed(kept[k]) {
      assert kept[k] in kept;
    }
    if forall k :: 0 <= k < |lines| ==> '\n' !in lines[k] {
      forall k | 0 <= k < |kept| ensures '\n' !in kept[k] {
        assert kept[k] in stripped;
        var m :| 0 <= m < |stripped| && stripped[m] == kept[k];
        StripKeepsOut(lines[m], '\n');
      }
    }
  }

  /** What one line contributes to the pool: its stripped form, unless that is blank. */
  function LineAlias(line: string): seq<string> {
    if Strip(line) == "" then [] else [Strip(line)]
  }

  /**
   * `_load_gmails` applied to the text of the pool file. A file of one line
   * gives that line's contribution; `LoadGmailsLine` gives the rest, line by line.
   */
  function LoadGmails(text: string): (r: seq<string>)
    ensures forall k :: 0 <= k < |r| ==> r[k] != "" && Trimmed(r[k]) && '\n' !in r[k]
    ensures '\n' !in text ==> r == LineAlias(text)
  {
    KeepNonBlankClean(Lines(text));
    if '\n' !in text then
      LinesSingle(text);
      KeepNonBlankCons(text, []);
      assert [text] + [] == [text];
      KeepNonBlank(Lines(text))
    else
      KeepNonBlank(Lines(text))
  }

  /**
   * The file is read line by line, in order: the first line contributes its
   * stripped form when that is not blank, and the remaining lines follow.
   */
  lemma LoadGmailsLine(line: string, rest: string)
    requires '\n' !in line
    ensures LoadGmails(line + "\n" + rest) == LineAlias(line) + LoadGmails(rest)
  {
    LinesCons(line, rest);
    KeepNonBlankCons(line, Lines(rest));
  }

  /** The filter treats the first line on its own and the others after it. */
  lemma KeepNonBlankCons(line: string, lines: seq<string>)
    ensures KeepNonBlank([line] + lines) == LineAlias(line) + KeepNonBlank(lines)
  {
    var stripped := StrippedLines([line] + lines);
    StrippedLinesCons(line, lines);
    assert DropEmpty(stripped) == LineAlias(line) + DropEmpty(stripped[1..]);
  }

  /** Stripping the lines one by one: the first line, then the others. */
  lemma StrippedLinesCons(line: string, lines: seq<string>)
    ensures StrippedLines([line] + lines)[0] == Strip(line)
    ensures StrippedLines([line] + lines)[1..] == StrippedLines(lines)
  {
    assert ([line] + lines)[1..] == lines;
  }

  /** The text written to the pool file: every alias followed by `'\n'`. */
  function PoolText(gs: seq<string>): string {
    if gs == [] then "" else gs[0] + "\n" + PoolText(gs[1..])
  }

  /** Writing one more alias appends its line to the text written so far. */
  lemma {:induction false} PoolTextSnoc(gs: seq<string>, g: string)
    ensures PoolText(gs + [g]) == PoolText(gs) + g + "\n"
  {
    if gs != [] {
      assert (gs + [g])[1..] == gs[1..] + [g];
      PoolTextSnoc(gs[1..], g);
    }
  }

  /** An alias the pool file can hold unchanged: non-empty, one line, nothing to strip. */
  predicate Storable(g: string) {
    g != "" && Trimmed(g) && '\n' !in g
  }

  /** Splitting the written pool file gives back the aliases plus the empty text after the last newline. */
  lemma {:induction false} LinesOfPoolText(gs: seq<string>)
    requires forall k :: 0 <= k < |gs| ==> '\n' !in gs[k]
    ensures Lines(PoolText(gs)) == gs + [""]
  {
    if gs != [] {
      LinesCons(gs[0], PoolText(gs[1..]));
      LinesOfPoolText(gs[1..]);
      assert gs == [gs[0]] + gs[1..];
    }
  }

  /** The filter keeps every storable alias and drops the trailing empty line. */
  lemma KeepStorable(gs: seq<string>)
    requires forall k :: 0 <= k < |gs| ==> Storable(gs[k])
    ensures KeepNonBlank(gs + [""]) == gs
  {
    var lines := gs + [""];
    forall k | 0 <= k < |lines| ensures StrippedLines(lines)[k] == lines[k] {
      StripTrimmed(lines[k]);
    }
    assert StrippedLines(lines) == lines;
    DropEmptyLast(gs);
  }

  /** Writing a pool of storable aliases and loading it again yields the same pool. */
  lemma PoolRoundTrip(gs: seq<string>)
    requires forall k :: 0 <= k < |gs| ==> Storable(gs[k])
    ensures LoadGmails(PoolText(gs)) == gs
  {
    LinesOfPoolText(gs);
    KeepStorable(gs);
  }

  /** Whatever was loaded survives a rewrite of the pool file and a reload unchanged. */
  lemma ReloadStable(text: string)
    ensures LoadGmails(PoolText(LoadGmails(text))) == LoadGmails(text)
  {
    PoolRoundTrip(LoadGmails(text));
  }
}
