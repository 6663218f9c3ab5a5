/**
 * `extractSpecificImports(jsxCode, dependency)`: the names listed between the
 * braces of every `import { A, B, C } from '<dependency>'`, each piece of the
 * list split on `,` and trimmed.
 *
 * The pattern is `import\s+{([^}]+)}\s+from\s+['"]<dependency>['"]` with the
 * `g` and `s` flags. On the segments of `ImportScan` it matches an import
 * statement whose specifier is the dependency and whose clause is a brace,
 * a non-empty run of characters other than `}`, a `}`, and then only
 * whitespace (at least one character of it) up to `from`. A character class
 * such as `[^}]` crosses line ends with or without the `s` flag, so a list
 * spread over several lines matches too.
 */
module SpecificImports {
  import opened JsStrings
  import opened Results
  import opened ImportScan

  /**
   * The brace list `{([^}]+)}\s+` at the start of an import clause, or None
   * when the clause does not have that shape (a default import before the
   * braces, `* as`, an empty list, something other than whitespace after `}`).
   */
  function BraceBody(clause: string): (body: Option<string>)
    ensures body.Some? ==> body.value != [] && '}' !in body.value && |body.value| + 2 < |clause|
    ensures body.Some? ==> clause[..|body.value| + 2] == "{" + body.value + "}"
    ensures body.Some? ==> AllSpace(clause[|body.value| + 2..])
  {
    if clause == [] || clause[0] != '{' then None
    else
      var rest := clause[1..];
      var k := IndexOf(rest, '}');
      if k == 0 || k == |rest| || rest[k + 1..] == [] || !AllSpace(rest[k + 1..]) then None
      else
        assert clause[..k + 2] == "{" + rest[..k] + "}";
        assert clause[k + 2..] == rest[k + 1..];
        Some(rest[..k])
  }

  /**
   * `match[1].split(',').map((comp) => comp.trim())`: the list cut at every
   * comma, each piece trimmed; one entry more than there are commas.
   */
  function ImportedNames(body: string): (names: seq<string>)
    ensures |names| == multiset(body)[','] + 1
    ensures forall i :: 0 <= i < |names| ==> ',' !in names[i]
    ensures forall i :: 0 <= i < |names| ==> names[i] == [] || (!IsSpace(names[i][0]) && !IsSpace(names[i][|names[i]| - 1]))
  {
    var parts := Split(body, ',');
    SplitCount(body, ',');
    SplitPiecesFree(body, ',');
    seq(|parts|, i requires 0 <= i < |parts| => Trim(parts[i]))
  }

  /** The entries are the trimmed pieces of a comma-free cut of the list that joins back to it. */
  lemma ImportedNamesPieces(body: string)
    ensures exists parts ::
      && |parts| == |ImportedNames(body)|
      && Join(parts, ",") == body
      && (forall i :: 0 <= i < |parts| ==> ',' !in parts[i] && ImportedNames(body)[i] == Trim(parts[i]))
  {
    var parts := Split(body, ',');
    SplitPiecesFree(body, ',');
    JoinSplit(body, ',');
    assert [','] == ",";
  }

  /** The brace list a statement contributes when it is `import { … } from '<dependency>'`. */
  function MatchedBody(seg: Segment, dependency: string): Option<string> {
    if seg.Import? && seg.spec == dependency then BraceBody(seg.clause) else None
  }

  /** `Array.from(jsxCode.matchAll(importRegex))`: the captured brace lists, in source order. */
  function BraceLists(code: seq<Segment>, dependency: string): seq<string> {
    if code == [] then []
    else
      var body := MatchedBody(code[|code| - 1], dependency);
      BraceLists(code[..|code| - 1], dependency) + (if body.Some? then [body.value] else [])
  }

  /** `flatMap` of `ImportedNames` over the captured lists. */
  function FlatNames(lists: seq<string>): seq<string> {
    FlatMap(lists, ImportedNames)
  }

  /**
   * `extractSpecificImports`: `[]` exactly when no statement matches, and
   * otherwise the entries of every matched list, none holding a comma.
   */
  function ExtractSpecificImports(code: seq<Segment>, dependency: string): (names: seq<string>)
    ensures names == [] <==> forall i :: 0 <= i < |code| ==> MatchedBody(code[i], dependency).None?
    ensures forall i :: 0 <= i < |names| ==> ',' !in names[i]
  {
    var lists := BraceLists(code, dependency);
    BraceListsEmpty(code, dependency);
    FlatNamesCommaFree(lists);
    if |lists| == 0 then [] else FlatNames(lists)
  }

  lemma {:induction false} BraceListsEmpty(code: seq<Segment>, dependency: string)
    ensures BraceLists(code, dependency) == [] <==> forall i :: 0 <= i < |code| ==> MatchedBody(code[i], dependency).None?
  {
    if code != [] {
      var init := code[..|code| - 1];
      assert forall i :: 0 <= i < |init| ==> init[i] == code[i];
      BraceListsEmpty(init, dependency);
    }
  }

  /** Every captured list yields at least one entry, and no entry holds a comma. */
  lemma {:induction false} FlatNamesCommaFree(lists: seq<string>)
    ensures |FlatNames(lists)| >= |lists|
    ensures forall i :: 0 <= i < |FlatNames(lists)| ==> ',' !in FlatNames(lists)[i]
  {
    if lists != [] {
      var init := lists[..|lists| - 1];
      FlatNamesCommaFree(init);
      var names := ImportedNames(lists[|lists| - 1]);
      assert FlatNames(lists) == FlatNames(init) + names;
    }
  }

  /** The names of two stretches of source are those of the first, then those of the second. */
  lemma {:induction false} ExtractConcat(a: seq<Segment>, b: seq<Segment>, dependency: string)
    ensures ExtractSpecificImports(a + b, dependency) == ExtractSpecificImports(a, dependency) + ExtractSpecificImports(b, dependency)
  {
    BraceListsConcat(a, b, dependency);
    FlatNamesConcat(BraceLists(a, dependency), BraceLists(b, dependency));
  }

  lemma {:induction false} BraceListsConcat(a: seq<Segment>, b: seq<Segment>, dependency: string)
    ensures BraceLists(a + b, dependency) == BraceLists(a, dependency) + BraceLists(b, dependency)
  {
    if b == [] {
      assert a + b == a;
    } else {
      var b' := b[..|b| - 1];
      assert (a + b)[..|a + b| - 1] == a + b';
      BraceListsConcat(a, b', dependency);
    }
  }

  lemma FlatNamesConcat(x: seq<string>, y: seq<string>)
    ensures FlatNames(x + y) == FlatNames(x) + FlatNames(y)
  {
    FlatMapConcat(x, y, ImportedNames);
  }

  /** Every entry of the result is already trimmed. */
  lemma {:induction false} EntriesTrimmed(code: seq<Segment>, dependency: string)
    ensures forall i :: 0 <= i < |ExtractSpecificImports(code, dependency)| ==>
      Trim(ExtractSpecificImports(code, dependency)[i]) == ExtractSpecificImports(code, dependency)[i]
  {
    FlatNamesTrimmed(BraceLists(code, dependency));
  }

  lemma {:induction false} FlatNamesTrimmed(lists: seq<string>)
    ensures forall i :: 0 <= i < |FlatNames(lists)| ==> Trim(FlatNames(lists)[i]) == FlatNames(lists)[i]
  {
    if lists != [] {
      var init := lists[..|lists| - 1];
      FlatNamesTrimmed(init);
      var names := ImportedNames(lists[|lists| - 1]);
      forall i | 0 <= i < |names| ensures Trim(names[i]) == names[i] {
        TrimIdempotent(Split(lists[|lists| - 1], ',')[i]);
      }
      assert FlatNames(lists) == FlatNames(init) + names;
    }
  }

  /** `import React, { useState } from 'react'` is not a brace import: nothing is extracted from it. */
  lemma DefaultPlusNamedIgnored(w: string, body: string, text: string, dependency: string)
    ensures ExtractSpecificImports([Import("React," + w + "{" + body + "}" + " ", dependency, text)], dependency) == []
  {
    var seg := Import("React," + w + "{" + body + "}" + " ", dependency, text);
    assert seg.clause[0] == 'R';
    assert MatchedBody(seg, dependency) == None;
    assert [seg][..0] == [];
    assert BraceLists([seg], dependency) == BraceLists([], dependency) + [];
  }

  /** A list with no comma is a single entry, `A as B` included: aliases are not split. */
  lemma SingleEntry(body: string)
    requires ',' !in body
    ensures ImportedNames(body) == [Trim(body)]
  {
    SplitNone(body, ',');
  }

  /** A trailing comma, with only whitespace after it, adds an empty entry. */
  lemma TrailingComma(body: string, w: string)
    requires AllSpace(w)
    ensures ImportedNames(body + "," + w) == ImportedNames(body) + [""]
  {
    var s := body + "," + w;
    assert s == body + [','] + w;
    SplitAppend(body, ',', w);
    SplitNone(w, ',');
    var parts := Split(body, ',');
    assert Split(s, ',') == parts + [w];
    TrimPadded(w, [], []);
    assert w + [] + [] == w;
    var l, r := ImportedNames(s), ImportedNames(body) + [""];
    assert |l| == |r|;
    forall i | 0 <= i < |l| ensures l[i] == r[i] {
      if i < |parts| {
        assert (parts + [w])[i] == parts[i];
      } else {
        assert (parts + [w])[i] == w;
      }
    }
  }

  /** The entry text of a name written with a space on each side, as in `{ a , b }`. */
  function Padded(names: seq<string>): (padded: seq<string>)
    ensures |padded| == |names|
  {
    seq(|names|, i requires 0 <= i < |names| => " " + names[i] + " ")
  }

  /** A brace list written from `names`: each one between spaces, separated by commas. */
  function RenderBraceList(names: seq<string>): string {
    Join(Padded(names), ",")
  }

  /** A name a brace list can carry and give back unchanged. */
  predicate IsListName(n: string) {
    ',' !in n && '}' !in n && (n == [] || (!IsSpace(n[0]) && !IsSpace(n[|n| - 1])))
  }

  /**
   * Round trip: the statement `import {<list>} from '<dependency>'` written
   * from `names` gives back exactly `names` (an empty list writes `{}`, which
   * does not match, and `[]` comes back).
   */
  lemma RoundTrip(names: seq<string>, dependency: string, text: string)
    requires forall i :: 0 <= i < |names| ==> IsListName(names[i])
    ensures ExtractSpecificImports([Import("{" + RenderBraceList(names) + "} ", dependency, text)], dependency) == names
  {
    var body := RenderBraceList(names);
    var seg := Import("{" + body + "} ", dependency, text);
    assert [seg][..0] == [];
    if names == [] {
      assert seg.clause == "{} ";
      assert IndexOf(seg.clause[1..], '}') == 0;
      assert MatchedBody(seg, dependency) == None;
      assert BraceLists([seg], dependency) == BraceLists([], dependency) + [];
    } else {
      RenderedList(names);
      BraceBodyOf(body, " ");
      assert seg.clause == "{" + body + "}" + " ";
      assert MatchedBody(seg, dependency) == Some(body);
      assert BraceLists([seg], dependency) == BraceLists([], dependency) + [body];
      assert [body][..0] == [];
      assert FlatNames([body]) == FlatNames([]) + ImportedNames(body);
    }
  }

  /** A rendered non-empty list is a well-formed brace body whose entries are the names. */
  lemma RenderedList(names: seq<string>)
    requires names != [] && forall i :: 0 <= i < |names| ==> IsListName(names[i])
    ensures RenderBraceList(names) != [] && '}' !in RenderBraceList(names)
    ensures ImportedNames(RenderBraceList(names)) == names
  {
    var body := RenderBraceList(names);
    var padded := Padded(names);
    assert forall i :: 0 <= i < |padded| ==> ',' !in padded[i];
    SplitJoin(padded, ',');
    JoinFree(padded, ',', '}');
    assert Split(body, ',')[0] == padded[0] != [];
    assert Split([], ',') == [[]];
    forall i | 0 <= i < |names| ensures Trim(padded[i]) == names[i] {
      TrimPadded(" ", names[i], " ");
    }
    TrimmedPieces(body, padded, names);
  }

  /** A list whose comma-separated pieces trim to `names` yields exactly `names`. */
  lemma TrimmedPieces(body: string, pieces: seq<string>, names: seq<string>)
    requires Split(body, ',') == pieces && |pieces| == |names|
    requires forall i :: 0 <= i < |pieces| ==> Trim(pieces[i]) == names[i]
    ensures ImportedNames(body) == names
  {
  }

  /** A well-formed brace list is read back as its body. */
  lemma BraceBodyOf(body: string, w: string)
    requires body != [] && '}' !in body && w != [] && AllSpace(w)
    ensures BraceBody("{" + body + "}" + w) == Some(body)
  {
    var clause := "{" + body + "}" + w;
    var rest := clause[1..];
    assert rest == body + ['}'] + w;
    IndexOfFirst(body, '}', w);
    assert rest[..|body|] == body && rest[|body| + 1..] == w;
  }

  lemma {:induction false} IndexOfFirst(p: string, c: char, x: string)
    requires c !in p
    ensures IndexOf(p + [c] + x, c) == |p|
  {
    if p != [] {
      assert (p + [c] + x)[1..] == p[1..] + [c] + x;
      assert c !in p[1..] by {
        assert forall d :: d in p[1..] ==> d in p;
      }
      IndexOfFirst(p[1..], c, x);
    }
  }

  lemma {:induction false} JoinFree(parts: seq<string>, sep: char, c: char)
    requires c != sep && forall i :: 0 <= i < |parts| ==> c !in parts[i]
    ensures c !in Join(parts, [sep])
  {
    if |parts| > 1 {
      JoinFree(parts[1..], sep, c);
    }
  }
}
