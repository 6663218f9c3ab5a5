/**
 * What the import patterns of the preview pipeline see in a snippet.
 *
 * The pipeline finds imports with `import\s+.*?from\s+['"](.*?)['"]`. Regular
 * expression matching is not modelled: a snippet is given already cut into
 * segments, each either an import statement, recorded with the two parts the
 * lazy groups of that pattern cover, or the code between import statements.
 *
 *  - `clause`: the text between `import` plus its whitespace and `from`
 *    (what `.*?` spans), e.g. `React, { useState } ` or `{\n  atan2, e\n} `;
 *  - `spec`:   the module specifier between the quotes (what `(.*?)` captures);
 *  - `text`:   the statement as written, including the optional `;` and the
 *    whitespace after it (what the import-stripping pattern removes).
 */
module ImportScan {
  import opened JsStrings

  datatype Segment =
    | Import(clause: string, spec: string, text: string)
    | Code(text: string)

  /** The snippet as text. */
  function Text(code: seq<Segment>): string {
    if code == [] then [] else Text(code[..|code| - 1]) + code[|code| - 1].text
  }

  /** An import one of whose lazy parts crosses a line end. */
  predicate SpansLines(seg: Segment)
    requires seg.Import?
  {
    HasLineBreak(seg.clause) || HasLineBreak(seg.spec)
  }

  /**
   * Whether `import\s+.*?from\s+['"](.*?)['"]` matches the statement: with the
   * `s` flag (`dotAll`) `.` crosses line ends and every import statement
   * matches; without it only those whose lazy parts stay on one line do.
   */
  predicate Matches(seg: Segment, dotAll: bool) {
    seg.Import? && (dotAll || !SpansLines(seg))
  }

  /** The specifiers the pattern captures, in the order `exec` finds them. */
  function MatchedSpecs(code: seq<Segment>, dotAll: bool): (specs: seq<string>)
    ensures |specs| <= |code|
    ensures !dotAll ==> forall i :: 0 <= i < |specs| ==> !HasLineBreak(specs[i])
  {
    if code == [] then []
    else
      var last := code[|code| - 1];
      MatchedSpecs(code[..|code| - 1], dotAll) + (if Matches(last, dotAll) then [last.spec] else [])
  }

  /** Source with no import statement yields no specifier. */
  lemma {:induction false} NoImportNoSpecs(code: seq<Segment>, dotAll: bool)
    requires forall i :: 0 <= i < |code| ==> code[i].Code?
    ensures MatchedSpecs(code, dotAll) == []
  {
    if code != [] {
      NoImportNoSpecs(code[..|code| - 1], dotAll);
    }
  }

  /** A specifier is captured exactly when some matching statement holds it. */
  lemma {:induction false} MatchedSpecsMembers(code: seq<Segment>, dotAll: bool, x: string)
    ensures x in MatchedSpecs(code, dotAll) <==> exists i :: 0 <= i < |code| && Matches(code[i], dotAll) && code[i].spec == x
  {
    if code != [] {
      var init := code[..|code| - 1];
      MatchedSpecsMembers(init, dotAll, x);
      if exists i :: 0 <= i < |code| && Matches(code[i], dotAll) && code[i].spec == x {
        var i :| 0 <= i < |code| && Matches(code[i], dotAll) && code[i].spec == x;
        if i < |init| {
          assert init[i] == code[i];
        }
      }
    }
  }

  /**
   * Without the `s` flag the scan keeps a subsequence of what it finds with it
   * (the same specifiers in the same order, some left out), and loses exactly
   * the statements that span lines: one fewer specifier for each of them.
   */
  lemma {:induction false} DotAllFindsMore(code: seq<Segment>)
    ensures |MatchedSpecs(code, false)| + CountSpanning(code) == |MatchedSpecs(code, true)|
    ensures CountSpanning(code) == 0 ==> MatchedSpecs(code, false) == MatchedSpecs(code, true)
    ensures IsSubsequence(MatchedSpecs(code, false), MatchedSpecs(code, true))
  {
    if code != [] {
      var init, last := code[..|code| - 1], code[|code| - 1];
      DotAllFindsMore(init);
      if Matches(last, false) {
        SubsequenceExtendBoth(MatchedSpecs(init, false), MatchedSpecs(init, true), last.spec);
      } else if Matches(last, true) {
        assert MatchedSpecs(code, false) == MatchedSpecs(init, false);
        assert MatchedSpecs(code, true) == MatchedSpecs(init, true) + [last.spec];
        SubsequenceExtendRight(MatchedSpecs(init, false), MatchedSpecs(init, true), last.spec);
      } else {
        assert MatchedSpecs(code, false) == MatchedSpecs(init, false);
        assert MatchedSpecs(code, true) == MatchedSpecs(init, true);
      }
    }
  }

  function CountSpanning(code: seq<Segment>): nat {
    if code == [] then 0
    else CountSpanning(code[..|code| - 1]) + (if code[|code| - 1].Import? && SpansLines(code[|code| - 1]) then 1 else 0)
  }
}
