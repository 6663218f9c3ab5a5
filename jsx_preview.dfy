/**
 * `extractAndLoadDependencies` of the preview component: scan the snippet for
 * imports (without the `s` flag), reject it when it names a library the
 * registry does not support, then add one `<script>` per registry locator to
 * `document.head`, skipping every locator whose script id is already there.
 *
 * `document.head` is modelled by the scripts it holds, each recorded by its
 * `id` and `src`; `document.getElementById` is a lookup of the id among them.
 */
module DependencyLoader {
  import opened JsStrings
  import opened Results
  import opened ImportScan
  import opened ExtractDependencies
  import opened DependencyRegistry

  /** A `<script>` element the loader appends (its `crossOrigin` is always `anonymous`). */
  datatype Script = Script(id: string, src: string)

  const ScriptIdPrefix: string := "dependency-"

  /** One character of `cdnUrl.replace(/[^a-zA-Z0-9]/g, '-')`. */
  function Sanitize(c: char): (d: char)
    ensures IsAsciiAlnum(c) ==> d == c
    ensures !IsAsciiAlnum(c) ==> d == '-'
    ensures IsAsciiAlnum(d) <==> IsAsciiAlnum(c)
  {
    if IsAsciiAlnum(c) then c else '-'
  }

  /** `dependency-${cdnUrl.replace(/[^a-zA-Z0-9]/g, '-')}` */
  function ScriptId(url: string): (id: string)
    ensures |id| == |ScriptIdPrefix| + |url| && id[..|ScriptIdPrefix|] == ScriptIdPrefix
    ensures forall i :: |ScriptIdPrefix| <= i < |id| ==> IsAsciiAlnum(id[i]) || id[i] == '-'
    ensures forall i :: 0 <= i < |url| ==> id[|ScriptIdPrefix| + i] == Sanitize(url[i])
  {
    ScriptIdPrefix + seq(|url|, i requires 0 <= i < |url| => Sanitize(url[i]))
  }

  /** Two locators share a script id exactly when they agree everywhere except where both hold non-alphanumerics. */
  lemma ScriptIdSame(u: string, v: string)
    ensures ScriptId(u) == ScriptId(v) <==> |u| == |v| && forall i :: 0 <= i < |u| ==> Sanitize(u[i]) == Sanitize(v[i])
  {
    var n := |ScriptIdPrefix|;
    var a, b := ScriptId(u), ScriptId(v);
    if |u| == |v| && forall i :: 0 <= i < |u| ==> Sanitize(u[i]) == Sanitize(v[i]) {
      forall j | 0 <= j < |a| ensures a[j] == b[j] {
        if j < n {
          assert a[j] == a[..n][j] && b[j] == b[..n][j];
        } else {
          assert a[n + (j - n)] == Sanitize(u[j - n]);
        }
      }
    }
  }

  /** Distinct locators can share an id: `https://a.b/c` and `https://a-b/c`. */
  lemma ScriptIdCollision()
    ensures "https://a.b/c" != "https://a-b/c"
    ensures ScriptId("https://a.b/c") == ScriptId("https://a-b/c")
  {
    var u, v := "https://a.b/c", "https://a-b/c";
    assert u[9] != v[9];
    forall i | 0 <= i < |u| ensures Sanitize(u[i]) == Sanitize(v[i]) {
      assert u[i] == v[i] || i == 9;
    }
    ScriptIdSame(u, v);
  }

  /** The ids of a run of scripts. */
  function IdsOf(scripts: seq<Script>): set<string> {
    set i | 0 <= i < |scripts| :: scripts[i].id
  }

  lemma IdsOfAppend(a: seq<Script>, b: seq<Script>)
    ensures IdsOf(a + b) == IdsOf(a) + IdsOf(b)
  {
    forall id | id in IdsOf(a + b) ensures id in IdsOf(a) + IdsOf(b) {
      var i :| 0 <= i < |a + b| && (a + b)[i].id == id;
      if i >= |a| {
        assert b[i - |a|].id == id;
      }
    }
    forall id | id in IdsOf(a) + IdsOf(b) ensures id in IdsOf(a + b) {
      if id in IdsOf(a) {
        var i :| 0 <= i < |a| && a[i].id == id;
        assert (a + b)[i].id == id;
      } else {
        var i :| 0 <= i < |b| && b[i].id == id;
        assert (a + b)[|a| + i].id == id;
      }
    }
  }

  lemma IdsOfOne(s: Script)
    ensures IdsOf([s]) == {s.id}
  {
    assert [s][0].id == s.id;
  }

  /** `document.head`: the scripts appended to it, in order. */
  class DocumentHead {
    var scripts: seq<Script>

    constructor()
      ensures scripts == []
    {
      scripts := [];
    }

    function Ids(): set<string>
      reads this
    {
      IdsOf(scripts)
    }

    /** `document.getElementById(id) !== null` */
    predicate HasElement(id: string)
      reads this
    {
      id in Ids()
    }

    /** `document.head.appendChild(script)` */
    method AppendChild(script: Script)
      modifies this
      ensures scripts == old(scripts) + [script]
      ensures Ids() == old(Ids()) + {script.id}
    {
      IdsOfAppend(scripts, [script]);
      IdsOfOne(script);
      scripts := scripts + [script];
    }
  }

  /** The script ids of a run of locators. */
  function UrlIds(urls: seq<string>): set<string> {
    set i | 0 <= i < |urls| :: ScriptId(urls[i])
  }

  lemma UrlIdsSnoc(urls: seq<string>, url: string)
    ensures UrlIds(urls + [url]) == UrlIds(urls) + {ScriptId(url)}
  {
    var all := urls + [url];
    forall id | id in UrlIds(all) ensures id in UrlIds(urls) + {ScriptId(url)} {
      var i :| 0 <= i < |all| && ScriptId(all[i]) == id;
      if i < |urls| {
        assert all[i] == urls[i];
      }
    }
    forall id | id in UrlIds(urls) ensures id in UrlIds(all) {
      var i :| 0 <= i < |urls| && ScriptId(urls[i]) == id;
      assert all[i] == urls[i];
    }
    assert ScriptId(all[|urls|]) in UrlIds(all);
  }

  /**
   * The scripts the loading loop appends for `urls`, in order, to a head that
   * already holds the ids `existing`: a locator whose id is present, already
   * or through an earlier locator of the same run, adds nothing.
   */
  function NewScripts(existing: set<string>, urls: seq<string>): (scripts: seq<Script>)
    ensures |scripts| <= |urls|
  {
    if urls == [] then []
    else
      var prev := NewScripts(existing, urls[..|urls| - 1]);
      var url := urls[|urls| - 1];
      if ScriptId(url) in existing + IdsOf(prev) then prev else prev + [Script(ScriptId(url), url)]
  }

  /** One more locator: the run's scripts, then the new one's unless its id is present. */
  lemma NewScriptsStep(existing: set<string>, urls: seq<string>, url: string)
    ensures NewScripts(existing, urls + [url]) ==
      var prev := NewScripts(existing, urls);
      if ScriptId(url) in existing + IdsOf(prev) then prev else prev + [Script(ScriptId(url), url)]
  {
    assert (urls + [url])[..|urls|] == urls;
  }

  /** After loading, the head holds exactly the ids it held before and those of the locators. */
  lemma {:induction false} NewScriptsIds(existing: set<string>, urls: seq<string>)
    ensures existing + IdsOf(NewScripts(existing, urls)) == existing + UrlIds(urls)
  {
    if urls != [] {
      var init, url := urls[..|urls| - 1], urls[|urls| - 1];
      assert urls == init + [url];
      var prev := NewScripts(existing, init);
      NewScriptsIds(existing, init);
      NewScriptsStep(existing, init, url);
      IdsOfAppend(prev, [Script(ScriptId(url), url)]);
      IdsOfOne(Script(ScriptId(url), url));
      UrlIdsSnoc(init, url);
    }
  }

  /**
   * Each appended script carries a locator of the run and that locator's id,
   * no appended id was present before, and no id is appended twice.
   */
  lemma {:induction false} NewScriptsFresh(existing: set<string>, urls: seq<string>)
    ensures forall k :: 0 <= k < |NewScripts(existing, urls)| ==>
      var s := NewScripts(existing, urls)[k]; s.src in urls && s.id == ScriptId(s.src) && s.id !in existing
    ensures forall k, l :: 0 <= k < l < |NewScripts(existing, urls)| ==>
      NewScripts(existing, urls)[k].id != NewScripts(existing, urls)[l].id
  {
    if urls != [] {
      var init, url := urls[..|urls| - 1], urls[|urls| - 1];
      assert urls == init + [url];
      NewScriptsFresh(existing, init);
      NewScriptsStep(existing, init, url);
      var prev := NewScripts(existing, init);
      forall k | 0 <= k < |prev| ensures prev[k].src in urls && prev[k].id in IdsOf(prev) {
        assert prev[k].src in init;
      }
    }
  }

  /** Loading is idempotent: when every locator's id is already present, nothing is appended. */
  lemma {:induction false} NewScriptsNone(existing: set<string>, urls: seq<string>)
    requires forall i :: 0 <= i < |urls| ==> ScriptId(urls[i]) in existing
    ensures NewScripts(existing, urls) == []
  {
    if urls != [] {
      var init := urls[..|urls| - 1];
      assert forall i :: 0 <= i < |init| ==> init[i] == urls[i];
      NewScriptsNone(existing, init);
    }
  }

  /** A second load of the same locators, on the head the first one left, appends nothing. */
  lemma LoadTwice(existing: set<string>, urls: seq<string>)
    ensures NewScripts(existing + IdsOf(NewScripts(existing, urls)), urls) == []
  {
    NewScriptsIds(existing, urls);
    var after := existing + IdsOf(NewScripts(existing, urls));
    forall i | 0 <= i < |urls| ensures ScriptId(urls[i]) in after {
      assert ScriptId(urls[i]) in UrlIds(urls);
    }
    NewScriptsNone(after, urls);
  }

  /** Two locators with the same id load once: the second finds the first one's script. */
  lemma CollidingUrlsLoadOnce()
    ensures |NewScripts({}, ["https://a.b/c", "https://a-b/c"])| == 1
  {
    ScriptIdCollision();
    SameIdLoadsOnce("https://a.b/c", "https://a-b/c");
  }

  /** Of two locators with one id, only the first gets a script. */
  lemma SameIdLoadsOnce(u0: string, u1: string)
    requires ScriptId(u0) == ScriptId(u1)
    ensures NewScripts({}, [u0, u1]) == [Script(ScriptId(u0), u0)]
  {
    NewScriptsStep({}, [], u0);
    assert [] + [u0] == [u0];
    var first := NewScripts({}, [u0]);
    assert first == [Script(ScriptId(u0), u0)];
    IdsOfOne(Script(ScriptId(u0), u0));
    NewScriptsStep({}, [u0], u1);
    assert [u0] + [u1] == [u0, u1];
  }

  /** The registry locators of a validated dependency list, each registry value taken as a one-element list. */
  function LoadUrls(deps: seq<string>): (urls: seq<string>)
    requires forall i :: 0 <= i < |deps| ==> deps[i] in DependencyMap
    ensures |urls| == |deps|
    ensures forall i :: 0 <= i < |deps| ==> urls[i] == DependencyMap[deps[i]]
  {
    if deps == [] then [] else LoadUrls(deps[..|deps| - 1]) + [DependencyMap[deps[|deps| - 1]]]
  }

  /** The name the validation rejects, if any: the first one that is not a registry key. */
  function FirstUnsupported(deps: seq<string>): (r: Option<string>)
    ensures r.None? <==> forall i :: 0 <= i < |deps| ==> deps[i] in DependencyMap
    ensures r.Some? ==> r.value in deps && !Supported(r.value)
  {
    if deps == [] then None
    else if !Supported(deps[0]) then Some(deps[0])
    else
      var r := FirstUnsupported(deps[1..]);
      assert forall i :: 0 < i < |deps| ==> deps[i] == deps[1..][i - 1];
      r
  }

  /** The name rejected is the one at the first index holding an unsupported name. */
  lemma {:induction false} FirstUnsupportedAt(deps: seq<string>, i: nat)
    requires i < |deps| && !Supported(deps[i]) && forall j :: 0 <= j < i ==> deps[j] in DependencyMap
    ensures FirstUnsupported(deps) == Some(deps[i])
  {
    if i > 0 {
      var rest := deps[1..];
      assert deps[0] in DependencyMap;
      assert rest[i - 1] == deps[i];
      assert forall j :: 0 <= j < i - 1 ==> rest[j] == deps[j + 1];
      FirstUnsupportedAt(rest, i - 1);
    }
  }

  function UnsupportedMessage(dep: string): string {
    "The generated artifact uses libraries we don't support: " + dep
  }

  /**
   * `checkLoadedDependencies` as the polling loop uses it: every dependency
   * is a registry name whose script is in the head.
   */
  predicate CheckLoadedDependencies(loadedIds: set<string>, deps: seq<string>) {
    forall i :: 0 <= i < |deps| ==> deps[i] in DependencyMap && ScriptId(DependencyMap[deps[i]]) in loadedIds
  }

  /** After a successful load every dependency passes the check. */
  lemma LoadedAfterLoading(existing: set<string>, deps: seq<string>)
    requires forall i :: 0 <= i < |deps| ==> deps[i] in DependencyMap
    ensures CheckLoadedDependencies(existing + IdsOf(NewScripts(existing, LoadUrls(deps))), deps)
  {
    var urls := LoadUrls(deps);
    NewScriptsIds(existing, urls);
    forall i | 0 <= i < |deps| ensures ScriptId(DependencyMap[deps[i]]) in existing + IdsOf(NewScripts(existing, urls)) {
      assert ScriptId(urls[i]) in UrlIds(urls);
    }
  }

  lemma LoadUrlsStep(deps: seq<string>, k: nat)
    requires k < |deps| && forall i :: 0 <= i < |deps| ==> deps[i] in DependencyMap
    ensures LoadUrls(deps[..k + 1]) == LoadUrls(deps[..k]) + [DependencyMap[deps[k]]]
  {
    assert deps[..k + 1][..k] == deps[..k];
  }

  /** The validation loop: the first name that is not a registry key, or None. */
  method ValidateDependencies(dependencies: seq<string>) returns (unsupported: Option<string>)
    ensures unsupported == FirstUnsupported(dependencies)
  {
    var i := 0;
    while i < |dependencies|
      invariant 0 <= i <= |dependencies|
      invariant forall j :: 0 <= j < i ==> dependencies[j] in DependencyMap
    {
      if !Supported(dependencies[i]) {
        FirstUnsupportedAt(dependencies, i);
        return Some(dependencies[i]);
      }
      i := i + 1;
    }
    return None;
  }

  /** The body of the inner `forEach`: append the locator's script unless its id is already in the head. */
  method LoadScript(head: DocumentHead, cdnUrl: string)
    modifies head
    ensures head.scripts == old(head.scripts) +
      if ScriptId(cdnUrl) in old(head.Ids()) then [] else [Script(ScriptId(cdnUrl), cdnUrl)]
  {
    var scriptId := ScriptId(cdnUrl);
    if !head.HasElement(scriptId) {
      head.AppendChild(Script(scriptId, cdnUrl));
    }
  }

  /** Loading one more locator onto a head holding `before` and the scripts of `urls` is `LoadScript`'s step. */
  lemma LoadScriptStep(before: seq<Script>, urls: seq<string>, url: string)
    ensures var head := before + NewScripts(IdsOf(before), urls);
      before + NewScripts(IdsOf(before), urls + [url]) ==
      head + if ScriptId(url) in IdsOf(head) then [] else [Script(ScriptId(url), url)]
  {
    var prev := NewScripts(IdsOf(before), urls);
    IdsOfAppend(before, prev);
    NewScriptsStep(IdsOf(before), urls, url);
  }

  /** The inner `forEach` over the locators of one name. */
  method LoadUrlList(head: DocumentHead, cdnUrls: seq<string>, ghost before: seq<Script>, ghost done: seq<string>)
    requires head.scripts == before + NewScripts(IdsOf(before), done)
    modifies head
    ensures head.scripts == before + NewScripts(IdsOf(before), done + cdnUrls)
  {
    var m := 0;
    assert done + cdnUrls[..m] == done;
    while m < |cdnUrls|
      invariant 0 <= m <= |cdnUrls|
      invariant head.scripts == before + NewScripts(IdsOf(before), done + cdnUrls[..m])
    {
      LoadScriptStep(before, done + cdnUrls[..m], cdnUrls[m]);
      assert done + cdnUrls[..m + 1] == (done + cdnUrls[..m]) + [cdnUrls[m]];
      LoadScript(head, cdnUrls[m]);
      m := m + 1;
    }
    assert cdnUrls[..m] == cdnUrls;
  }

  /**
   * The loading loop over validated names, each registry value taken as the
   * list `[url]`: the head gains exactly the scripts `NewScripts` describes.
   */
  method LoadDependencies(head: DocumentHead, dependencies: seq<string>)
    requires forall i :: 0 <= i < |dependencies| ==> dependencies[i] in DependencyMap
    modifies head
    ensures head.scripts == old(head.scripts) + NewScripts(old(head.Ids()), LoadUrls(dependencies))
  {
    ghost var before := head.scripts;
    ghost var done: seq<string> := [];
    var k := 0;
    while k < |dependencies|
      invariant 0 <= k <= |dependencies|
      invariant done == LoadUrls(dependencies[..k])
      invariant head.scripts == before + NewScripts(IdsOf(before), done)
    {
      var cdnUrls := [DependencyMap[dependencies[k]]];
      LoadUrlList(head, cdnUrls, before, done);
      LoadUrlsStep(dependencies, k);
      done := done + cdnUrls;
      k := k + 1;
    }
    assert dependencies[..k] == dependencies;
  }

  /**
   * `extractAndLoadDependencies(code)`. The scan, unlike `extractDependencies`,
   * has no `s` flag. On an unsupported name it fails with the message naming
   * it and leaves the head untouched; otherwise it returns the names and the
   * head has gained exactly the scripts `NewScripts` describes, so that
   * every name passes `CheckLoadedDependencies`.
   */
  method ExtractAndLoadDependencies(head: DocumentHead, code: seq<Segment>) returns (result: Result<seq<string>, string>)
    modifies head
    ensures var deps := Dedup(Candidates(MatchedSpecs(code, false)));
      && (result.Failure? <==> FirstUnsupported(deps).Some?)
      && (result.Failure? ==> result.error == UnsupportedMessage(FirstUnsupported(deps).value) && head.scripts == old(head.scripts))
      && (result.Success? ==> result.value == deps && head.scripts == old(head.scripts) + NewScripts(old(head.Ids()), LoadUrls(deps)))
    ensures result.Success? ==> CheckLoadedDependencies(head.Ids(), result.value)
  {
    var dependencies := CollectDependencies(MatchedSpecs(code, false));
    var unsupported := ValidateDependencies(dependencies);
    if unsupported.Some? {
      return Failure(UnsupportedMessage(unsupported.value));
    }
    ghost var before := head.scripts;
    LoadDependencies(head, dependencies);
    IdsOfAppend(before, NewScripts(IdsOf(before), LoadUrls(dependencies)));
    LoadedAfterLoading(IdsOf(before), dependencies);
    result := Success(dependencies);
  }

  /**
   * The two statements of the mathjs sample: `import React, { useState } from
   * 'react'` on one line, then a brace list of `mathjs` names spread over three.
   * `extractDependencies` reports both libraries; the loader's scan sees only
   * `react`, so `mathjs` is neither validated nor loaded.
   */
  lemma MultiLineImportMissed(c1: string, t1: string, c2: string, t2: string)
    requires !HasLineBreak(c1) && HasLineBreak(c2)
    ensures var code := [Import(c1, "react", t1), Import(c2, "mathjs", t2)];
      && Dedup(Candidates(MatchedSpecs(code, true))) == ["react", "mathjs"]
      && Dedup(Candidates(MatchedSpecs(code, false))) == ["react"]
  {
    assert "react"[0] != "mathjs"[0];
    ReactName();
    MathjsName();
    TwoImports(c1, "react", t1, c2, "mathjs", t2);
  }

  /** Two import statements, the second spanning lines, each specifier naming itself. */
  lemma TwoImports(c1: string, s1: string, t1: string, c2: string, s2: string, t2: string)
    requires !HasLineBreak(c1) && !HasLineBreak(s1) && HasLineBreak(c2) && s1 != s2
    requires PackageName(s1) == Some(s1) && PackageName(s2) == Some(s2)
    ensures var code := [Import(c1, s1, t1), Import(c2, s2, t2)];
      && Dedup(Candidates(MatchedSpecs(code, true))) == [s1, s2]
      && Dedup(Candidates(MatchedSpecs(code, false))) == [s1]
  {
    var code := [Import(c1, s1, t1), Import(c2, s2, t2)];
    assert code[..1] == [code[0]] && [code[0]][..0] == [];
    assert MatchedSpecs(code, true) == [s1, s2];
    assert MatchedSpecs(code, false) == [s1];
    TwoNames(s1, s2);
  }

  lemma TwoNames(s1: string, s2: string)
    requires s1 != s2 && PackageName(s1) == Some(s1) && PackageName(s2) == Some(s2)
    ensures Dedup(Candidates([s1, s2])) == [s1, s2] && Dedup(Candidates([s1])) == [s1]
  {
    assert [s1, s2][..1] == [s1] && [s1][..0] == [];
    assert KeepSome([], PackageName) == [];
    assert KeepSome([s1], PackageName) == KeepSome([], PackageName) + [s1];
    assert KeepSome([s1, s2], PackageName) == KeepSome([s1], PackageName) + [s2];
    assert Dedup([s1]) == [s1];
  }

  lemma ReactName()
    ensures PackageName("react") == Some("react") && !HasLineBreak("react")
  {
    LowercaseName("react");
  }

  lemma MathjsName()
    ensures PackageName("mathjs") == Some("mathjs")
  {
    LowercaseName("mathjs");
  }

  /** A name of lowercase letters is a package name of its own and stays on one line. */
  lemma LowercaseName(pkg: string)
    requires pkg != [] && forall i :: 0 <= i < |pkg| ==> 'a' <= pkg[i] <= 'z'
    ensures PackageName(pkg) == Some(pkg) && !HasLineBreak(pkg)
  {
    PlainSpecifier(pkg, "");
    assert pkg + "" == pkg;
  }

  /** The value `dependencyMap[dep] || []` holds, as far as `forEach` is concerned. */
  datatype CdnValue =
    | EmptyArray   // the `|| []` fallback for an absent name
    | NotAnArray   // a locator string, or an inherited function or object: no `forEach`

  /**
   * Every registry key yields its locator string, and every inherited name a
   * function or object: only a name that is neither falls back to `[]`.
   */
  function CdnValueAsWritten(dep: string): (v: CdnValue)
    ensures dep in DependencyMap ==> v.NotAnArray?
    ensures v.EmptyArray? <==> dep !in DependencyMap && dep !in ObjectPrototypeNames
  {
    SupportedAsWrittenExactly(dep);
    if Truthy(Read(dep)) then NotAnArray else EmptyArray
  }

  /** How the loader as written ends. */
  datatype LoadError = Unsupported(message: string) | TypeError(message: string)

  /** The first name the validation as written rejects. */
  function FirstRejectedAsWritten(deps: seq<string>): (r: Option<string>)
    ensures r.None? <==> forall i :: 0 <= i < |deps| ==> SupportedAsWritten(deps[i])
  {
    if deps == [] then None
    else if !SupportedAsWritten(deps[0]) then Some(deps[0])
    else
      var r := FirstRejectedAsWritten(deps[1..]);
      assert forall i :: 0 < i < |deps| ==> deps[i] == deps[1..][i - 1];
      r
  }

  /** The loading loop as written: the first name whose value has no `forEach` throws. */
  function ForEachAsWritten(deps: seq<string>): (r: Option<LoadError>)
    ensures r.None? <==> forall i :: 0 <= i < |deps| ==> CdnValueAsWritten(deps[i]).EmptyArray?
    ensures r.Some? ==> r.value == TypeError("cdnUrls.forEach is not a function")
  {
    if deps == [] then None
    else if CdnValueAsWritten(deps[0]).NotAnArray? then Some(TypeError("cdnUrls.forEach is not a function"))
    else
      assert forall i :: 0 < i < |deps| ==> deps[i] == deps[1..][i - 1];
      ForEachAsWritten(deps[1..])
  }

  /**
   * `extractAndLoadDependencies` as written, on the scanned names: the
   * validation, then the loading loop, which never appends a script, since
   * the only array `cdnUrls` can hold is the empty fallback.
   */
  function ExtractAndLoadAsWritten(deps: seq<string>): (r: Result<seq<string>, LoadError>)
    ensures r.Success? ==> r.value == deps && forall i :: 0 <= i < |deps| ==>
      SupportedAsWritten(deps[i]) && CdnValueAsWritten(deps[i]).EmptyArray?
    ensures r.Failure? && r.error.Unsupported? <==> FirstRejectedAsWritten(deps).Some?
    ensures FirstRejectedAsWritten(deps).Some? ==> r == Failure(Unsupported(UnsupportedMessage(FirstRejectedAsWritten(deps).value)))
  {
    match FirstRejectedAsWritten(deps)
    case Some(dep) => Failure(Unsupported(UnsupportedMessage(dep)))
    case None =>
      match ForEachAsWritten(deps)
      case Some(e) => Failure(e)
      case None => Success(deps)
  }

  /** As written, any snippet that imports a library at all fails: rejected, or a `TypeError` from `forEach`. */
  lemma AsWrittenNeverLoads(deps: seq<string>)
    requires deps != []
    ensures ExtractAndLoadAsWritten(deps).Failure?
    ensures FirstRejectedAsWritten(deps).None? ==>
      ExtractAndLoadAsWritten(deps) == Failure(TypeError("cdnUrls.forEach is not a function"))
  {
    if FirstRejectedAsWritten(deps).None? {
      assert SupportedAsWritten(deps[0]);
      SupportedAsWrittenExactly(deps[0]);
    }
  }
}
