/**
 * The preparation of a snippet before it is compiled (`renderComponent`):
 * remove the import statements, take the entry component's name from the
 * first `export default <Ident>`, then remove the export keywords.
 *
 * Import statements are the segments of `ImportScan`. The three export
 * patterns are matched exactly, on characters: each is a keyword followed by
 * a `\s+` run, and since the character after such a run is never whitespace
 * (or the keyword that follows starts with a letter), the greedy runs are
 * taken whole and no backtracking can shorten them.
 */
module SourceNormalizer {
  import opened JsStrings
  import opened Results
  import opened ImportScan

  /**
   * `jsxCode.replace(/import\s+.*?from\s+['"].*?['"];?\s*\/g, '')`: the text of
   * the snippet without the statements that pattern matches. The pattern has
   * no `s` flag, so a statement spread over several lines stays.
   */
  function StripImports(code: seq<Segment>): (stripped: string)
    ensures |stripped| <= |Text(code)|
    ensures (forall i :: 0 <= i < |code| ==> !Matches(code[i], false)) ==> stripped == Text(code)
  {
    KeptText(code);
    FlatMap(code, Kept)
  }

  /** What is left of one segment: nothing of a statement the pattern matches. */
  function Kept(seg: Segment): string {
    if Matches(seg, false) then [] else seg.text
  }

  /** Stripping only removes text, and removes none when no statement matches. */
  lemma {:induction false} KeptText(code: seq<Segment>)
    ensures |FlatMap(code, Kept)| <= |Text(code)|
    ensures (forall i :: 0 <= i < |code| ==> !Matches(code[i], false)) ==> FlatMap(code, Kept) == Text(code)
  {
    if code != [] {
      var init := code[..|code| - 1];
      KeptText(init);
      assert forall i :: 0 <= i < |init| ==> init[i] == code[i];
    }
  }

  lemma StripImportsConcat(a: seq<Segment>, b: seq<Segment>)
    ensures StripImports(a + b) == StripImports(a) + StripImports(b)
  {
    FlatMapConcat(a, b, Kept);
  }

  /**
   * A statement on one line disappears, text and trailing whitespace; one
   * that spans lines is kept as written, so the compiler later meets an
   * `import` it cannot resolve.
   */
  lemma StatementStripped(a: seq<Segment>, seg: Segment, b: seq<Segment>)
    requires seg.Import?
    ensures !SpansLines(seg) ==> StripImports(a + [seg] + b) == StripImports(a) + StripImports(b)
    ensures SpansLines(seg) ==> StripImports(a + [seg] + b) == StripImports(a) + seg.text + StripImports(b)
  {
    StripImportsConcat(a + [seg], b);
    StripImportsConcat(a, [seg]);
    assert [seg][..0] == [];
  }

  /** The three removal patterns, in the order they are applied. */
  datatype ExportPattern =
    | DefaultWithName   // export\s+default\s+[A-Za-z0-9_]+;?
    | DefaultOnly       // export\s+default\s+
    | Keyword           // export\s+

  /** `kw\s+` at the start of `t`: the length of the match. */
  function KeywordSpace(t: string, kw: string): (n: Option<nat>)
    ensures n.Some? ==> |kw| < n.value <= |t| && kw <= t
  {
    if kw <= t then
      var w := Run(t[|kw|..], IsSpace);
      if w > 0 then Some(|kw| + w) else None
    else None
  }

  /**
   * The keyword matches exactly when it is followed by whitespace, and the
   * match then takes the whole whitespace run.
   */
  lemma KeywordSpaceSpec(t: string, kw: string)
    ensures KeywordSpace(t, kw).Some? <==> kw <= t && |kw| < |t| && IsSpace(t[|kw|])
    ensures KeywordSpace(t, kw).Some? ==> var n := KeywordSpace(t, kw).value;
      AllSpace(t[|kw|..n]) && (n == |t| || !IsSpace(t[n]))
  {
    if kw <= t && |kw| < |t| {
      assert t[|kw|..][0] == t[|kw|];
      var n := |kw| + Run(t[|kw|..], IsSpace);
      forall i | |kw| <= i < n ensures IsSpace(t[i]) {
        assert t[i] == t[|kw|..][i - |kw|];
      }
      if n < |t| {
        assert t[n] == t[|kw|..][n - |kw|];
      }
    }
  }

  /** `kw`, a whitespace run, then something else: the match is the keyword and the run. */
  lemma KeywordSpaceOf(kw: string, w: string, rest: string)
    requires w != [] && AllSpace(w) && (rest == [] || !IsSpace(rest[0]))
    ensures KeywordSpace(kw + w + rest, kw) == Some(|kw| + |w|)
  {
    var t := kw + w + rest;
    assert t[..|kw|] == kw;
    assert t[|kw|..] == w + rest;
    RunWhole(w, rest, IsSpace);
  }

  /** `export\s+default\s+` at the start of `t`. */
  function ExportDefault(t: string): (n: Option<nat>)
    ensures n.Some? ==> 0 < n.value <= |t|
  {
    KeywordPair(t, "export", "default")
  }

  /** `<k1>\s+<k2>\s+` at the start of `t`: the length of the match. */
  function KeywordPair(t: string, k1: string, k2: string): (n: Option<nat>)
    ensures n.Some? ==> |k1| < n.value <= |t| && k1 <= t
  {
    match KeywordSpace(t, k1)
    case None => None
    case Some(a) =>
      match KeywordSpace(t[a..], k2)
      case None => None
      case Some(b) => Some(a + b)
  }

  /** The length of the match of `p` at the start of `t`. */
  function MatchLength(p: ExportPattern, t: string): (n: Option<nat>)
    ensures n.Some? ==> 0 < n.value <= |t|
  {
    match p
    case Keyword => KeywordSpace(t, "export")
    case DefaultOnly => ExportDefault(t)
    case DefaultWithName => StatementEnd(t, ExportDefault(t))
  }

  /** `([A-Za-z0-9_]+);?` after a prefix match of length `m`: where the whole match ends. */
  function StatementEnd(t: string, m: Option<nat>): (n: Option<nat>)
    requires m.Some? ==> m.value <= |t|
    ensures n.Some? ==> 0 < n.value <= |t|
  {
    match m
    case None => None
    case Some(a) =>
      var w := Run(t[a..], IsWordChar);
      if w == 0 then None
      else if a + w < |t| && t[a + w] == ';' then Some(a + w + 1)
      else Some(a + w)
  }

  /** `s.replace(pattern, '')` with the `g` flag: every leftmost match removed, the scan going on after it. */
  function RemoveAll(p: ExportPattern, s: string): (r: string)
    ensures |r| <= |s|
    decreases |s|
  {
    if s == [] then []
    else
      match MatchLength(p, s)
      case Some(n) => RemoveAll(p, s[n..])
      case None => [s[0]] + RemoveAll(p, s[1..])
  }

  /** A removal pass only leaves characters out: what it keeps stays in order. */
  lemma {:induction false} RemoveAllSubsequence(p: ExportPattern, s: string)
    ensures IsSubsequence(RemoveAll(p, s), s)
    decreases |s|
  {
    if s != [] {
      match MatchLength(p, s)
      case Some(n) =>
        RemoveAllSubsequence(p, s[n..]);
        SubsequenceOfSuffix(RemoveAll(p, s[n..]), s, n);
      case None =>
        RemoveAllSubsequence(p, s[1..]);
        assert ([s[0]] + RemoveAll(p, s[1..]))[1..] == RemoveAll(p, s[1..]);
    }
  }

  /** Every pattern starts with the keyword `export`. */
  lemma MatchStartsWithExport(p: ExportPattern, t: string)
    ensures MatchLength(p, t).Some? ==> "export" <= t
  {
  }

  /** Text with no `export` in it is left as it is by every pattern. */
  lemma {:induction false} RemoveAllNoExport(p: ExportPattern, s: string)
    requires !Contains(s, "export")
    ensures RemoveAll(p, s) == s
    decreases |s|
  {
    if s != [] {
      assert !OccursAt(s, "export", 0);
      MatchStartsWithExport(p, s);
      assert !Contains(s[1..], "export") by {
        if Contains(s[1..], "export") {
          var i :| 0 <= i <= |s[1..]| - 6 && OccursAt(s[1..], "export", i);
          assert s[1..][i..] == s[i + 1..];
          assert OccursAt(s, "export", i + 1);
        }
      }
      RemoveAllNoExport(p, s[1..]);
      assert [s[0]] + s[1..] == s;
    }
  }

  /** The identifier `/export\s+default\s+([A-Za-z0-9_]+)/` captures at the start of `t`. */
  function DefaultExportName(t: string): (name: Option<string>)
    ensures name.Some? ==> name.value != [] && forall i :: 0 <= i < |name.value| ==> IsWordChar(name.value[i])
  {
    NameAfter(t, ExportDefault(t))
  }

  /** `([A-Za-z0-9_]+)` after a prefix match of length `m`: the identifier captured. */
  function NameAfter(t: string, m: Option<nat>): (name: Option<string>)
    requires m.Some? ==> m.value <= |t|
    ensures name.Some? ==> name.value != [] && forall i :: 0 <= i < |name.value| ==> IsWordChar(name.value[i])
  {
    match m
    case None => None
    case Some(a) =>
      var w := Run(t[a..], IsWordChar);
      if w == 0 then None else Some(t[a..a + w])
  }

  /** `s.match(...)` without the `g` flag: the name the leftmost match captures. */
  function FirstDefaultExport(s: string): (name: Option<string>)
    ensures name.Some? ==> name.value != [] && forall i :: 0 <= i < |name.value| ==> IsWordChar(name.value[i])
  {
    NoNameInEmpty();
    FirstMatchSpec(s, DefaultExportName);
    FirstMatch(s, DefaultExportName)
  }

  lemma NoNameInEmpty()
    ensures DefaultExportName([]).None?
  {
  }

  /** The result of `f` at the leftmost position of `s` where it gives one. */
  function FirstMatch<B>(s: string, f: string -> Option<B>): Option<B>
    decreases |s|
  {
    if s == [] then None
    else
      match f(s)
      case Some(n) => Some(n)
      case None => FirstMatch(s[1..], f)
  }

  /** The search finds a name exactly when some position matches, and then it is the name of the leftmost one. */
  lemma FirstDefaultExportSpec(s: string)
    ensures FirstDefaultExport(s).None? <==> forall i :: 0 <= i <= |s| ==> DefaultExportName(s[i..]).None?
    ensures FirstDefaultExport(s).Some? ==> exists i :: (0 <= i <= |s| && DefaultExportName(s[i..]) == FirstDefaultExport(s)
      && forall j :: 0 <= j < i ==> DefaultExportName(s[j..]).None?)
  {
    NoNameInEmpty();
    FirstMatchSpec(s, DefaultExportName);
  }

  lemma {:induction false} FirstMatchSpec<B>(s: string, f: string -> Option<B>)
    requires f([]).None?
    ensures FirstMatch(s, f).None? <==> forall i :: 0 <= i <= |s| ==> f(s[i..]).None?
    ensures FirstMatch(s, f).Some? ==> exists i :: (0 <= i <= |s| && f(s[i..]) == FirstMatch(s, f)
      && forall j :: 0 <= j < i ==> f(s[j..]).None?)
    decreases |s|
  {
    if s == [] {
      assert f(s[0..]).None?;
    } else if f(s).Some? {
      assert s[0..] == s;
    } else {
      var t := s[1..];
      FirstMatchSpec(t, f);
      assert forall i :: 0 <= i <= |t| ==> t[i..] == s[i + 1..];
      assert s[0..] == s;
      if FirstMatch(t, f).None? {
        forall i | 0 <= i <= |s| ensures f(s[i..]).None? {
          if i > 0 {
            assert f(t[i - 1..]).None?;
          }
        }
      } else {
        var i :| 0 <= i <= |t| && f(t[i..]) == FirstMatch(t, f)
          && forall j :: 0 <= j < i ==> f(t[j..]).None?;
        forall j | 0 <= j < i + 1 ensures f(s[j..]).None? {
          if j > 0 {
            assert f(t[j - 1..]).None?;
          }
        }
        assert f(s[i + 1..]) == FirstMatch(s, f);
      }
    }
  }

  const DefaultEntryName: string := "Component"

  /** `exportedComponentName`: the first captured name, `Component` when there is none. */
  function EntryName(text: string): (name: string)
    ensures name != [] && forall i :: 0 <= i < |name| ==> IsWordChar(name[i])
  {
    match FirstDefaultExport(text)
    case Some(n) => n
    case None => DefaultEntryName
  }

  /** The snippet handed to the compiler, and the name of the component to render. */
  datatype Normalised = Normalised(entryName: string, code: string)

  /** `src/JsxPreview.jsx`, lines 104-120: strip the imports, read the entry name, then the three export removals in order. */
  function Normalise(code: seq<Segment>): (r: Normalised)
    ensures |r.code| <= |StripImports(code)|
    ensures r.entryName != [] && forall i :: 0 <= i < |r.entryName| ==> IsWordChar(r.entryName[i])
  {
    var text := StripImports(code);
    var stage1 := RemoveAll(DefaultWithName, text);
    var stage2 := RemoveAll(DefaultOnly, stage1);
    Normalised(EntryName(text), RemoveAll(Keyword, stage2))
  }

  /** Without `export` anywhere, the text after import stripping is compiled as it is, under the name `Component`. */
  lemma NormaliseNoExport(code: seq<Segment>)
    requires !Contains(StripImports(code), "export")
    ensures Normalise(code) == Normalised(DefaultEntryName, StripImports(code))
  {
    var text := StripImports(code);
    RemoveAllNoExport(DefaultWithName, text);
    RemoveAllNoExport(DefaultOnly, text);
    RemoveAllNoExport(Keyword, text);
    FirstDefaultExportSpec(text);
    forall i | 0 <= i <= |text| ensures DefaultExportName(text[i..]).None? {
      if DefaultExportName(text[i..]).Some? {
        assert OccursAt(text, "export", i);
      }
    }
  }

  /** A run of characters satisfying `P`, then one that does not: `Run` takes exactly the run. */
  lemma {:induction false} RunWhole(w: string, rest: string, P: char -> bool)
    requires forall i :: 0 <= i < |w| ==> P(w[i])
    requires rest == [] || !P(rest[0])
    ensures Run(w + rest, P) == |w|
  {
    if w != [] {
      assert (w + rest)[1..] == w[1..] + rest;
      RunWhole(w[1..], rest, P);
    } else {
      assert w + rest == rest;
    }
  }

  /** The text `export<w1>default<w2>` followed by `rest`, which starts with a word character. */
  lemma ExportDefaultOf(head: string, w1: string, w2: string, rest: string)
    requires head == "export" + w1 + "default" + w2
    requires w1 != [] && AllSpace(w1) && w2 != [] && AllSpace(w2)
    requires rest != [] && IsWordChar(rest[0])
    ensures ExportDefault(head + rest) == Some(|head|)
  {
    assert "default"[0] == 'd';
    KeywordPairOf("export", w1, "default", w2, rest);
  }

  /** Two keywords, each followed by a whitespace run taken whole. */
  lemma KeywordPairOf(k1: string, w1: string, k2: string, w2: string, rest: string)
    requires w1 != [] && AllSpace(w1) && w2 != [] && AllSpace(w2)
    requires k2 != [] && !IsSpace(k2[0]) && (rest == [] || !IsSpace(rest[0]))
    ensures KeywordPair(k1 + w1 + k2 + w2 + rest, k1, k2) == Some(|k1 + w1 + k2 + w2|)
  {
    var p, u := k1 + w1, k2 + w2 + rest;
    Regroup(p, k2 + w2, rest);
    Regroup(p, k2, w2);
    assert k1 + w1 + k2 + w2 + rest == p + u;
    KeywordSpaceOf(k1, w1, u);
    SuffixAfter(p, u);
    KeywordSpaceOf(k2, w2, rest);
    KeywordPairSteps(p + u, k1, k2, |p|, |k2| + |w2|);
  }

  lemma KeywordPairSteps(t: string, k1: string, k2: string, a: nat, b: nat)
    requires KeywordSpace(t, k1) == Some(a) && a <= |t| && KeywordSpace(t[a..], k2) == Some(b)
    ensures KeywordPair(t, k1, k2) == Some(a + b)
  {
  }

  lemma SuffixAfter(p: string, u: string)
    ensures (p + u)[|p|..] == u
  {
  }

  /**
   * `export default <name>` at the start of the text names the entry
   * component, whatever follows the name, as long as it ends the identifier:
   * `export default function Widget` names it `function`.
   */
  lemma EntryNameOf(w1: string, w2: string, name: string, rest: string)
    requires w1 != [] && AllSpace(w1) && w2 != [] && AllSpace(w2)
    requires name != [] && forall i :: 0 <= i < |name| ==> IsWordChar(name[i])
    requires rest == [] || !IsWordChar(rest[0])
    ensures EntryName("export" + w1 + "default" + w2 + name + rest) == name
  {
    var head := "export" + w1 + "default" + w2;
    assert "export" + w1 + "default" + w2 + name + rest == head + (name + rest);
    ExportDefaultOf(head, w1, w2, name + rest);
    SuffixAfter(head, name + rest);
    NameAt(head + (name + rest), |head|, name, rest);
  }

  /** After `export\s+default\s+` at the start of `t`, a whole identifier: it is the entry name. */
  lemma NameAt(t: string, a: nat, name: string, rest: string)
    requires ExportDefault(t) == Some(a) && a <= |t| && t[a..] == name + rest
    requires name != [] && forall i :: 0 <= i < |name| ==> IsWordChar(name[i])
    requires rest == [] || !IsWordChar(rest[0])
    ensures EntryName(t) == name
  {
    NameOfExport(t, a, name, rest);
    assert DefaultExportName(t) == NameAfter(t, Some(a));
    FirstAtStart(t, DefaultExportName);
  }

  /** The name after the prefix match is the whole identifier there. */
  lemma NameOfExport(t: string, a: nat, name: string, rest: string)
    requires a <= |t| && t[a..] == name + rest
    requires name != [] && forall i :: 0 <= i < |name| ==> IsWordChar(name[i])
    requires rest == [] || !IsWordChar(rest[0])
    ensures NameAfter(t, Some(a)) == Some(name)
  {
    RunWhole(name, rest, IsWordChar);
    assert t[a..a + |name|] == t[a..][..|name|] == name;
  }

  /** A match at the very start is the leftmost one. */
  lemma FirstAtStart<B>(s: string, f: string -> Option<B>)
    requires s != [] && f(s).Some?
    ensures FirstMatch(s, f) == f(s)
  {
  }

  /** `export default function Widget() {…}`: the entry name is the keyword `function`. */
  lemma FunctionDeclarationName(rest: string)
    ensures EntryName("export default function " + rest) == "function"
  {
    assert "export default function " + rest == "export" + " " + "default" + " " + "function" + (" " + rest);
    EntryNameOf(" ", " ", "function", " " + rest);
  }

  /** `export default <name>;` is removed whole by the first pass, which then goes on with what follows. */
  lemma ExportStatementRemoved(w1: string, w2: string, name: string, rest: string)
    requires w1 != [] && AllSpace(w1) && w2 != [] && AllSpace(w2)
    requires name != [] && forall i :: 0 <= i < |name| ==> IsWordChar(name[i])
    ensures RemoveAll(DefaultWithName, "export" + w1 + "default" + w2 + name + ";" + rest) == RemoveAll(DefaultWithName, rest)
  {
    var head := "export" + w1 + "default" + w2;
    var v := name + (";" + rest);
    assert "export" + w1 + "default" + w2 + name + ";" + rest == head + v;
    ExportDefaultOf(head, w1, w2, v);
    SuffixAfter(head, v);
    StatementMatch(head + v, |head|, name, rest);
  }

  /** After `export\s+default\s+`, a name and a `;`: the first pass removes all of it. */
  lemma StatementMatch(t: string, a: nat, name: string, rest: string)
    requires ExportDefault(t) == Some(a) && a <= |t| && t[a..] == name + (";" + rest)
    requires name != [] && forall i :: 0 <= i < |name| ==> IsWordChar(name[i])
    ensures RemoveAll(DefaultWithName, t) == RemoveAll(DefaultWithName, rest)
  {
    SliceAfter(t, a, name, rest);
    StatementLength(t, a, name, rest);
    StatementAt(t, a);
    RemovalMatch(DefaultWithName, t, a + |name| + 1, rest);
  }

  lemma SliceAfter(t: string, a: nat, name: string, rest: string)
    requires a <= |t| && t[a..] == name + (";" + rest)
    ensures a + |name| < |t| && t[a + |name|] == ';' && t[a + |name| + 1..] == rest
  {
    assert t[a + |name|] == t[a..][|name|];
    assert t[a + |name| + 1..] == t[a..][|name| + 1..];
  }

  /** After `export\s+default\s+`, a name and a `;`: the first pattern matches through the `;`. */
  lemma StatementLength(t: string, a: nat, name: string, rest: string)
    requires a <= |t| && t[a..] == name + (";" + rest)
    requires name != [] && forall i :: 0 <= i < |name| ==> IsWordChar(name[i])
    ensures StatementEnd(t, Some(a)) == Some(a + |name| + 1)
  {
    RunWhole(name, ";" + rest, IsWordChar);
    SliceAfter(t, a, name, rest);
  }

  /** The first pattern is the second one followed by a name and an optional `;`. */
  lemma StatementAt(t: string, a: nat)
    requires ExportDefault(t) == Some(a)
    ensures MatchLength(DefaultWithName, t) == StatementEnd(t, Some(a))
  {
  }

  /** Where the pattern matches, the match is dropped and the scan resumes after it. */
  lemma RemovalMatch(p: ExportPattern, s: string, n: nat, rest: string)
    requires s != [] && MatchLength(p, s) == Some(n) && s[n..] == rest
    ensures RemoveAll(p, s) == RemoveAll(p, rest)
  {
  }

  /** A position where the pattern does not match keeps its character. */
  lemma RemovalSkip(p: ExportPattern, s: string)
    requires s != [] && MatchLength(p, s).None?
    ensures RemoveAll(p, s) == [s[0]] + RemoveAll(p, s[1..])
  {
  }

  /**
   * `export` only ever starts a word: every occurrence after the first
   * character follows a character that cannot end an identifier.
   */
  predicate WholeWordExports(s: string) {
    forall i :: 0 < i <= |s| && OccursAt(s, "export", i) ==> !IsWordChar(s[i - 1])
  }

  /** The pattern matches nowhere in the text. */
  predicate NoMatch(p: ExportPattern, s: string) {
    forall i :: 0 <= i <= |s| ==> MatchLength(p, s[i..]).None?
  }

  /** The first position of `t` where `p` matches, or `|t|` when there is none. */
  function NextMatch(p: ExportPattern, t: string): (k: nat)
    ensures k <= |t|
    decreases |t|
  {
    if t == [] || MatchLength(p, t).Some? then 0 else 1 + NextMatch(p, t[1..])
  }

  /** `NextMatch` is the first position where the pattern matches. */
  lemma {:induction false} NextMatchSpec(p: ExportPattern, t: string)
    ensures forall j :: 0 <= j < NextMatch(p, t) ==> MatchLength(p, t[j..]).None?
    ensures NextMatch(p, t) < |t| ==> MatchLength(p, t[NextMatch(p, t)..]).Some?
    decreases |t|
  {
    if t != [] && MatchLength(p, t).None? {
      var u := t[1..];
      NextMatchSpec(p, u);
      forall j | 0 <= j < NextMatch(p, t) ensures MatchLength(p, t[j..]).None? {
        if j > 0 {
          assert t[j..] == u[j - 1..];
        }
      }
      assert t[NextMatch(p, t)..] == u[NextMatch(p, u)..];
    }
  }

  /** Up to the first match, a pass keeps the text as it is. */
  lemma {:induction false} KeptUntilMatch(p: ExportPattern, t: string)
    ensures RemoveAll(p, t) == t[..NextMatch(p, t)] + RemoveAll(p, t[NextMatch(p, t)..])
    decreases |t|
  {
    if t != [] && MatchLength(p, t).None? {
      var u := t[1..];
      KeptUntilMatch(p, u);
      KeptOneMore(p, t);
    } else {
      assert t[..0] == [] && t[0..] == t;
    }
  }

  /** The induction step of `KeptUntilMatch`: a kept first character joins the kept run. */
  lemma KeptOneMore(p: ExportPattern, t: string)
    requires t != [] && MatchLength(p, t).None?
    requires RemoveAll(p, t[1..]) == t[1..][..NextMatch(p, t[1..])] + RemoveAll(p, t[1..][NextMatch(p, t[1..])..])
    ensures RemoveAll(p, t) == t[..NextMatch(p, t)] + RemoveAll(p, t[NextMatch(p, t)..])
  {
    var u := t[1..];
    var k' := NextMatch(p, u);
    assert NextMatch(p, t) == k' + 1;
    RemovalSkip(p, t);
    KeptStep(t, k', RemoveAll(p, u), RemoveAll(p, u[k'..]), RemoveAll(p, t));
  }

  /** The sequence algebra of `KeptOneMore`, on plain strings. */
  lemma KeptStep(t: string, k': nat, tail: string, rest: string, whole: string)
    requires t != [] && k' <= |t| - 1
    requires whole == [t[0]] + tail && tail == t[1..][..k'] + rest
    ensures whole == t[..k' + 1] + rest && t[k' + 1..] == t[1..][k'..]
  {
    assert [t[0]] + (t[1..][..k'] + rest) == ([t[0]] + t[1..][..k']) + rest;
  }

  lemma ExportLetters()
    ensures forall j :: 0 <= j < 6 ==> IsWordChar("export"[j])
  {
  }

  /**
   * What a pass leaves of the text after the first character, near its
   * start: the characters before the first match, kept, and then either the
   * end of the text or an `export` standing in the original text.
   */
  lemma PassHead(p: ExportPattern, s: string)
    requires s != [] && WholeWordExports(s)
    ensures var t, k := s[1..], NextMatch(p, s[1..]);
      && RemoveAll(p, t) == t[..k] + RemoveAll(p, t[k..])
      && (k == |t| ==> RemoveAll(p, t) == t)
      && (k < |t| ==> OccursAt(s, "export", k + 1) && !IsWordChar(s[k]))
  {
    var t := s[1..];
    var k := NextMatch(p, t);
    KeptUntilMatch(p, t);
    NextMatchSpec(p, t);
    if k < |t| {
      MatchStartsWithExport(p, t[k..]);
      assert t[k..] == s[k + 1..];
      assert OccursAt(s, "export", k + 1);
    } else {
      assert t[..k] == t && t[k..] == [];
    }
  }

  /** The characters kept before the first match are the text's own. */
  lemma KeptPrefix(t: string, k: nat, rest: string, j: nat)
    requires k <= |t| && j < k
    ensures (t[..k] + rest)[j] == t[j]
  {
  }

  /** A pass never glues an `export` found after the first character onto an identifier character. */
  lemma FirstCharBeforeExport(p: ExportPattern, s: string)
    requires s != [] && WholeWordExports(s)
    requires "export" <= RemoveAll(p, s[1..])
    ensures !IsWordChar(s[0])
  {
    var t := s[1..];
    var k := NextMatch(p, t);
    PassHead(p, s);
    ExportLetters();
    if 0 < k {
      KeptPrefix(t, k, RemoveAll(p, t[k..]), if k < 6 then k - 1 else 0);
    }
    if 6 <= k {
      assert t[..6] == RemoveAll(p, t)[..6];
      assert OccursAt(s, "export", 1);
    }
  }

  /** A pass keeps `export` a whole word: removing a match never leaves an identifier character just before one. */
  lemma {:induction false} RemoveAllKeepsWholeWords(p: ExportPattern, s: string)
    requires WholeWordExports(s)
    ensures WholeWordExports(RemoveAll(p, s))
    decreases |s|
  {
    if s != [] {
      match MatchLength(p, s)
      case Some(n) =>
        WholeWordsSuffix(s, n);
        RemoveAllKeepsWholeWords(p, s[n..]);
      case None =>
        var t := s[1..];
        WholeWordsSuffix(s, 1);
        RemoveAllKeepsWholeWords(p, t);
        if "export" <= RemoveAll(p, t) {
          FirstCharBeforeExport(p, s);
        }
        WholeWordsCons(s[0], RemoveAll(p, t));
    }
  }

  /** A character in front of a text keeps `export` a whole word unless the text starts with `export`. */
  lemma WholeWordsCons(c: char, t: string)
    requires WholeWordExports(t) && ("export" <= t ==> !IsWordChar(c))
    ensures WholeWordExports([c] + t)
  {
    var r := [c] + t;
    forall i | 0 < i <= |r| && OccursAt(r, "export", i) ensures !IsWordChar(r[i - 1]) {
      assert r[i..] == t[i - 1..];
      if i > 1 {
        assert OccursAt(t, "export", i - 1);
      }
    }
  }

  lemma WholeWordsSuffix(s: string, n: nat)
    requires WholeWordExports(s) && n <= |s|
    ensures WholeWordExports(s[n..])
  {
    var t := s[n..];
    forall i | 0 < i <= |t| && OccursAt(t, "export", i) ensures !IsWordChar(t[i - 1]) {
      assert t[i..] == s[n + i..];
      assert OccursAt(s, "export", n + i);
    }
  }

  /**
   * The keyword pass leaves no `export\s+` behind in a text where `export`
   * is always a whole word.
   */
  lemma {:induction false} KeywordPassClean(s: string)
    requires WholeWordExports(s)
    ensures NoMatch(Keyword, RemoveAll(Keyword, s))
    decreases |s|
  {
    if s != [] {
      match MatchLength(Keyword, s)
      case Some(n) =>
        WholeWordsSuffix(s, n);
        KeywordPassClean(s[n..]);
      case None =>
        var t := s[1..];
        WholeWordsSuffix(s, 1);
        KeywordPassClean(t);
        var r' := RemoveAll(Keyword, t);
        var r := [s[0]] + r';
        forall i | 0 <= i <= |r| ensures MatchLength(Keyword, r[i..]).None? {
          if i == 0 {
            NoNewKeyword(s);
          } else {
            assert r[i..] == r'[i - 1..];
          }
        }
    }
  }

  /** Where the keyword pass keeps the first character, no `export\s+` starts there in what it leaves. */
  lemma NoNewKeyword(s: string)
    requires s != [] && WholeWordExports(s) && MatchLength(Keyword, s).None?
    ensures MatchLength(Keyword, [s[0]] + RemoveAll(Keyword, s[1..])).None?
  {
    var t := s[1..];
    var k := NextMatch(Keyword, t);
    var after := RemoveAll(Keyword, t[k..]);
    PassHead(Keyword, s);
    ConsPrefix(s, k, after);
    KeywordNotGlued(s, k, after, [s[0]] + RemoveAll(Keyword, t));
  }

  lemma ConsPrefix(s: string, k: nat, after: string)
    requires k < |s|
    ensures [s[0]] + (s[1..][..k] + after) == s[..k + 1] + after
  {
    assert [s[0]] + s[1..][..k] == s[..k + 1];
  }

  /**
   * `NoNewKeyword` on plain strings: `r` keeps the first `k + 1` characters
   * of `s`, and either all of `s` or, at `k`, a character that cannot end a
   * word.
   */
  lemma KeywordNotGlued(s: string, k: nat, after: string, r: string)
    requires k < |s| && r == s[..k + 1] + after
    requires k == |s| - 1 ==> r == s
    requires k < |s| - 1 ==> !IsWordChar(s[k])
    requires KeywordSpace(s, "export").None?
    ensures KeywordSpace(r, "export").None?
  {
    ExportLetters();
    KeywordSpaceSpec(s, "export");
    KeywordSpaceSpec(r, "export");
    if 6 <= k {
      assert r[..7] == s[..7];
    } else if k < |s| - 1 {
      assert r[k] == s[k];
    }
  }

  /** A match of any of the three patterns is a match of `export\s+` at the same place. */
  lemma EveryMatchIsKeyword(p: ExportPattern, t: string)
    ensures MatchLength(p, t).Some? ==> MatchLength(Keyword, t).Some?
  {
  }

  /**
   * After normalisation none of the three export patterns matches anywhere,
   * provided `export` is a whole word wherever it occurs in the text the
   * import stripping leaves (`KeywordPassNotExhaustive` shows the proviso is
   * needed).
   */
  lemma NormaliseRemovesExports(code: seq<Segment>)
    requires WholeWordExports(StripImports(code))
    ensures forall p :: NoMatch(p, Normalise(code).code)
  {
    var text := StripImports(code);
    var stage1 := RemoveAll(DefaultWithName, text);
    var stage2 := RemoveAll(DefaultOnly, stage1);
    RemoveAllKeepsWholeWords(DefaultWithName, text);
    RemoveAllKeepsWholeWords(DefaultOnly, stage1);
    KeywordPassClean(stage2);
    var r := Normalise(code).code;
    forall p, i | 0 <= i <= |r| ensures MatchLength(p, r[i..]).None? {
      EveryMatchIsKeyword(p, r[i..]);
    }
  }

  /**
   * The keyword pass does not leave the text free of `export\s+`: in
   * `exexport port x` it removes the inner `export `, which joins `ex` and
   * `port` into a new `export` that the pass has already scanned past.
   */
  lemma KeywordPassNotExhaustive(w: string, rest: string)
    requires w != [] && AllSpace(w) && !Contains("port" + rest, "export")
    ensures var r := RemoveAll(Keyword, "exexport" + w + "port" + rest);
      && r == "export" + rest
      && (rest != [] && IsSpace(rest[0]) ==> KeywordSpace(r, "export").Some?)
  {
    KeywordPassResult(w, rest);
    KeywordSpaceSpec("export" + rest, "export");
  }

  lemma KeywordPassResult(w: string, rest: string)
    requires w != [] && AllSpace(w) && !Contains("port" + rest, "export")
    ensures RemoveAll(Keyword, "exexport" + w + "port" + rest) == "export" + rest
  {
    var tail := "port" + rest;
    var s := "exexport" + w + "port" + rest;
    assert s == "ex" + ("export" + w + tail);
    SuffixAfter("ex", "export" + w + tail);
    InnerKeywordRemoved(w, tail);
    assert s[1] == 'x' && s[2] == 'e';
    SkipTwo(s, tail);
    assert s[..2] == "ex";
    JoinedKeyword(rest);
  }

  /** Two leading positions where `export` does not start keep their characters. */
  lemma SkipTwo(s: string, r: string)
    requires |s| >= 3 && s[1] == 'x' && s[2] == 'e' && RemoveAll(Keyword, s[2..]) == r
    ensures RemoveAll(Keyword, s) == s[..2] + r
  {
    assert s[1..][0] == 'x';
    RemovalSkip(Keyword, s[1..]);
    assert s[1..][1..] == s[2..];
    RemovalSkip(Keyword, s);
  }

  lemma JoinedKeyword(rest: string)
    ensures "ex" + ("port" + rest) == "export" + rest
  {
    assert "ex" + "port" == "export";
    Regroup("ex", "port", rest);
  }

  lemma Regroup(a: string, b: string, c: string)
    ensures a + (b + c) == (a + b) + c
  {
  }

  lemma InnerKeywordRemoved(w: string, tail: string)
    requires w != [] && AllSpace(w) && !Contains(tail, "export") && tail != [] && tail[0] == 'p'
    ensures RemoveAll(Keyword, "export" + w + tail) == tail
  {
    RemoveAllNoExport(Keyword, tail);
    KeywordSpaceOf("export", w, tail);
    SuffixAfter("export" + w, tail);
  }
}
