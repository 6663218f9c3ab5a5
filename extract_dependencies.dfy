/**
 * The import scanner: from the specifiers the import pattern captures to the
 * ordered, de-duplicated list of package names (`extractDependencies`), and the
 * `import * as Alias from 'module'` table (`extractNamespaceImports`).
 */
module ExtractDependencies {
  import opened JsStrings
  import opened Results
  import opened ImportScan

  /**
   * The package a specifier names, or None when it contributes nothing:
   * relative specifiers (leading `.` or `/`), a lone scope `@a` with no `/`,
   * and an empty name (JavaScript's `''` is falsy, so `mainPackage &&` drops it).
   * A scoped name keeps its first two `/`-separated segments, any other name
   * its first segment.
   */
  function PackageName(spec: string): (name: Option<string>)
    ensures name.Some? <==> spec != [] && spec[0] != '.' && spec[0] != '/' && (spec[0] == '@' ==> '/' in spec)
    ensures name.Some? ==> name.value <= spec && (|name.value| == |spec| || spec[|name.value|] == '/')
    ensures name.Some? ==> multiset(name.value)['/'] == if spec[0] == '@' then 1 else 0
  {
    if "." <= spec || "/" <= spec then None
    else
      var main := if "@" <= spec then ScopedName(spec) else FirstSegment(spec);
      if main.Some? && main.value != [] then main else None
  }

  /** `spec.split('/')[0]`: the text before the first `/`. */
  function FirstSegment(spec: string): (name: Option<string>)
    ensures name.Some? && name.value <= spec
    ensures |name.value| == |spec| || spec[|name.value|] == '/'
    ensures '/' !in name.value
  {
    SplitAt(spec, '/');
    Some(Split(spec, '/')[0])
  }

  /** `${parts[0]}/${parts[1]}` when `split('/')` yields at least two parts, otherwise nothing. */
  function ScopedName(spec: string): (name: Option<string>)
    ensures name.Some? <==> '/' in spec
    ensures name.Some? ==> name.value <= spec && (|name.value| == |spec| || spec[|name.value|] == '/')
    ensures name.Some? ==> multiset(name.value)['/'] == 1
  {
    var parts := Split(spec, '/');
    SplitCount(spec, '/');
    ScopedNameShape(spec);
    if |parts| >= 2 then Some(parts[0] + "/" + parts[1]) else None
  }

  /** The first two pieces of `split('/')`, joined by `/`, are the prefix of `spec` up to its second `/`. */
  lemma ScopedNameShape(spec: string)
    ensures '/' in spec ==> |Split(spec, '/')| >= 2
    ensures '/' in spec ==> var name := Split(spec, '/')[0] + "/" + Split(spec, '/')[1];
      && name <= spec && (|name| == |spec| || spec[|name|] == '/')
      && multiset(name)['/'] == 1
  {
    if '/' in spec {
      var k := IndexOf(spec, '/');
      var rest := spec[k + 1..];
      ScopedParts(spec);
      TwoPieces(spec, k, IndexOf(rest, '/'));
    }
  }

  /** The text up to the second `/` is the first piece, a `/` and the second piece. */
  lemma TwoPieces(spec: string, k: nat, k': nat)
    requires k < |spec| && spec[k] == '/' && '/' !in spec[..k]
    requires k' <= |spec| - k - 1 && '/' !in spec[k + 1..][..k']
    requires k' == |spec| - k - 1 || spec[k + 1..][k'] == '/'
    ensures var name := spec[..k] + "/" + spec[k + 1..][..k'];
      && name <= spec && (|name| == |spec| || spec[|name|] == '/')
      && multiset(name)['/'] == 1
  {
    var p0, p1 := spec[..k], spec[k + 1..][..k'];
    PrefixThrough(spec, k, k');
    assert p0 + "/" + p1 == spec[..k + 1 + k'];
    SlashCount(p0, p1);
  }

  /** The first two pieces of `split('/')` end at the first and the second `/`. */
  lemma ScopedParts(spec: string)
    requires '/' in spec
    ensures var k := IndexOf(spec, '/'); var rest := spec[k + 1..];
      && |Split(spec, '/')| >= 2 && Split(spec, '/')[0] == spec[..k]
      && Split(spec, '/')[1] == rest[..IndexOf(rest, '/')]
  {
    var k := IndexOf(spec, '/');
    var rest := spec[k + 1..];
    SplitAt(spec, '/');
    SplitAt(rest, '/');
    assert Split(spec, '/') == [spec[..k]] + Split(rest, '/');
  }

  /** The prefix of `s` through position `k` and `m` characters beyond it. */
  lemma PrefixThrough(s: string, k: nat, m: nat)
    requires k < |s| && m <= |s| - k - 1
    ensures s[..k + 1 + m] == s[..k] + [s[k]] + s[k + 1..][..m]
  {
    var l, r := s[..k + 1 + m], s[..k] + [s[k]] + s[k + 1..][..m];
    assert |l| == |r|;
    forall i | 0 <= i < |l| ensures l[i] == r[i] {
      if i > k {
        assert r[i] == s[k + 1..][..m][i - k - 1];
      }
    }
  }

  lemma SlashCount(p0: string, p1: string)
    requires '/' !in p0 && '/' !in p1
    ensures multiset(p0 + "/" + p1)['/'] == 1
  {
    assert multiset(p0 + "/" + p1) == multiset(p0) + multiset{'/'} + multiset(p1);
  }

  /** The package names of the captured specifiers, in capture order, repeats kept. */
  function Candidates(specs: seq<string>): seq<string> {
    KeepSome(specs, PackageName)
  }

  /** `f` applied to each element, the `None` results dropped, order kept. */
  function KeepSome<A, B>(xs: seq<A>, f: A -> Option<B>): seq<B> {
    if xs == [] then []
    else
      var y := f(xs[|xs| - 1]);
      KeepSome(xs[..|xs| - 1], f) + (if y.Some? then [y.value] else [])
  }

  lemma {:induction false} KeepSomeMembers<A, B>(xs: seq<A>, f: A -> Option<B>, y: B)
    ensures y in KeepSome(xs, f) <==> exists k :: 0 <= k < |xs| && f(xs[k]) == Some(y)
  {
    if xs != [] {
      var init := xs[..|xs| - 1];
      KeepSomeMembers(init, f, y);
      if exists k :: 0 <= k < |xs| && f(xs[k]) == Some(y) {
        var k :| 0 <= k < |xs| && f(xs[k]) == Some(y);
        if k < |init| {
          assert init[k] == xs[k];
        }
      }
      if exists k :: 0 <= k < |init| && f(init[k]) == Some(y) {
        var k :| 0 <= k < |init| && f(init[k]) == Some(y);
        assert xs[k] == init[k];
      }
    }
  }

  /** Keeps the first occurrence of each element, in order (the `includes` check before `push`). */
  function Dedup(xs: seq<string>): seq<string> {
    if xs == [] then []
    else
      var d := Dedup(xs[..|xs| - 1]);
      if xs[|xs| - 1] in d then d else d + [xs[|xs| - 1]]
  }

  predicate Distinct(ys: seq<string>) {
    forall i, j :: 0 <= i < j < |ys| ==> ys[i] != ys[j]
  }

  /** `Dedup` keeps exactly the elements of its input. */
  lemma {:induction false} DedupMembers(xs: seq<string>)
    ensures forall x :: x in Dedup(xs) <==> x in xs
  {
    if xs != [] {
      DedupMembers(xs[..|xs| - 1]);
      assert xs == xs[..|xs| - 1] + [xs[|xs| - 1]];
    }
  }

  /** `Dedup` never yields an element twice. */
  lemma {:induction false} DedupDistinct(xs: seq<string>)
    ensures Distinct(Dedup(xs))
  {
    if xs != [] {
      DedupDistinct(xs[..|xs| - 1]);
    }
  }

  /**
   * First-appearance order: when `ys[i]` comes before `ys[j]` in the result,
   * `ys[i]` has already occurred in the input before any occurrence of `ys[j]`.
   */
  lemma {:induction false} DedupFirstAppearance(xs: seq<string>, i: nat, j: nat, k: nat)
    requires i < j < |Dedup(xs)| && k < |xs| && xs[k] == Dedup(xs)[j]
    ensures Dedup(xs)[i] in xs[..k]
  {
    var init, x := xs[..|xs| - 1], xs[|xs| - 1];
    DedupMembers(init);
    var ys, d := Dedup(xs), Dedup(init);
    assert ys == d || (x !in d && ys == d + [x]);
    if k == |init| {
      assert xs[..k] == init;
      assert ys[i] == d[i];
    } else {
      assert xs[k] == init[k] && xs[..k] == init[..k];
      assert xs[k] in d;
      assert j < |d|;
      assert ys[i] == d[i] && ys[j] == d[j];
      DedupFirstAppearance(init, i, j, k);
    }
  }

  /** A name is a candidate exactly when some captured specifier reduces to it. */
  lemma CandidatesMembers(specs: seq<string>, x: string)
    ensures x in Candidates(specs) <==> exists k :: 0 <= k < |specs| && PackageName(specs[k]) == Some(x)
  {
    KeepSomeMembers(specs, PackageName, x);
  }

  /**
   * The `while (regex.exec(code))` loop: reduce each captured specifier to its
   * package name and push it unless it is already in the list.
   */
  method CollectDependencies(specs: seq<string>) returns (deps: seq<string>)
    ensures deps == Dedup(Candidates(specs))
    ensures Distinct(deps)
    ensures forall x :: x in deps <==> exists k :: 0 <= k < |specs| && PackageName(specs[k]) == Some(x)
  {
    deps := [];
    var i := 0;
    while i < |specs|
      invariant 0 <= i <= |specs|
      invariant deps == Dedup(Candidates(specs[..i]))
    {
      var mainPackage := PackageName(specs[i]);
      assert specs[..i + 1][..i] == specs[..i];
      if mainPackage.Some? {
        var c := Candidates(specs[..i]);
        assert Candidates(specs[..i + 1]) == c + [mainPackage.value];
        assert (c + [mainPackage.value])[..|c|] == c;
        if mainPackage.value !in deps {
          deps := deps + [mainPackage.value];
        }
      } else {
        assert Candidates(specs[..i + 1]) == Candidates(specs[..i]) + [];
        assert Candidates(specs[..i]) + [] == Candidates(specs[..i]);
      }
      i := i + 1;
    }
    assert specs[..i] == specs;
    DedupDistinct(Candidates(specs));
    DedupMembers(Candidates(specs));
    forall x ensures x in deps <==> exists k :: 0 <= k < |specs| && PackageName(specs[k]) == Some(x) {
      CandidatesMembers(specs, x);
    }
  }

  /** `extractDependencies`: the scan with the `s` flag, so multi-line imports count. */
  method ExtractDependencies(code: seq<Segment>) returns (deps: seq<string>)
    ensures deps == Dedup(Candidates(MatchedSpecs(code, true)))
    ensures Distinct(deps)
    ensures forall x :: x in deps <==> exists i :: 0 <= i < |code| && code[i].Import? && PackageName(code[i].spec) == Some(x)
  {
    var specs := MatchedSpecs(code, true);
    deps := CollectDependencies(specs);
    forall x ensures x in deps <==> exists i :: 0 <= i < |code| && code[i].Import? && PackageName(code[i].spec) == Some(x) {
      MatchedPackage(code, x);
    }
  }

  /** With the `s` flag every import statement's specifier is captured, so the packages named are those of the statements. */
  lemma MatchedPackage(code: seq<Segment>, x: string)
    ensures var specs := MatchedSpecs(code, true);
      (exists k :: 0 <= k < |specs| && PackageName(specs[k]) == Some(x))
      <==> exists i :: 0 <= i < |code| && code[i].Import? && PackageName(code[i].spec) == Some(x)
  {
    CapturedImage(code, PackageName, x);
  }

  /** What `f` gives over the captured specifiers is what it gives over the import statements. */
  lemma CapturedImage(code: seq<Segment>, f: string -> Option<string>, x: string)
    ensures var specs := MatchedSpecs(code, true);
      (exists k :: 0 <= k < |specs| && f(specs[k]) == Some(x))
      <==> exists i :: 0 <= i < |code| && code[i].Import? && f(code[i].spec) == Some(x)
  {
    var specs := MatchedSpecs(code, true);
    if exists k :: 0 <= k < |specs| && f(specs[k]) == Some(x) {
      var k :| 0 <= k < |specs| && f(specs[k]) == Some(x);
      MatchedSpecsMembers(code, true, specs[k]);
    }
    if exists i :: 0 <= i < |code| && code[i].Import? && f(code[i].spec) == Some(x) {
      var i :| 0 <= i < |code| && code[i].Import? && f(code[i].spec) == Some(x);
      MatchedSpecsMembers(code, true, code[i].spec);
      var k :| 0 <= k < |specs| && specs[k] == code[i].spec;
    }
  }

  /** Source with no `import … from '…'` statement has no dependencies. */
  lemma NoImportNoDependencies(code: seq<Segment>, dotAll: bool)
    requires forall i :: 0 <= i < |code| ==> code[i].Code?
    ensures Dedup(Candidates(MatchedSpecs(code, dotAll))) == []
  {
    NoImportNoSpecs(code, dotAll);
  }

  /** A scoped specifier `@a/b/...` names the package `@a/b`. */
  lemma ScopedSpecifier(scope: string, pkg: string, path: string)
    requires '/' !in scope && '/' !in pkg
    requires path == [] || path[0] == '/'
    ensures PackageName("@" + scope + "/" + pkg + path) == Some("@" + scope + "/" + pkg)
  {
    var spec := "@" + scope + "/" + pkg + path;
    var name := PackageName(spec).value;
    assert multiset("@" + scope)['/'] == 0;
    assert spec[1 + |scope|] == '/';
    PrefixBySlashes(spec, name, "@" + scope + "/" + pkg);
  }

  /** A specifier `p/q/...` that is not scoped or relative names its first segment `p`. */
  lemma PlainSpecifier(pkg: string, path: string)
    requires pkg != [] && pkg[0] != '@' && pkg[0] != '.' && pkg[0] != '/' && '/' !in pkg
    requires path == [] || path[0] == '/'
    ensures PackageName(pkg + path) == Some(pkg)
  {
    var spec := pkg + path;
    var name := PackageName(spec).value;
    PrefixBySlashes(spec, name, pkg);
  }

  /** A lone scope with no `/` names nothing (`mainPackage` stays undefined). */
  lemma LoneScopeIgnored(spec: string)
    requires spec != [] && spec[0] == '@' && '/' !in spec
    ensures PackageName(spec) == None
  {
  }

  /**
   * Two prefixes of `s` that each end at the end of `s` or just before a `/`,
   * and hold the same number of `/`, are the same prefix.
   */
  lemma PrefixBySlashes(s: string, a: string, b: string)
    requires a <= s && b <= s
    requires |a| == |s| || s[|a|] == '/'
    requires |b| == |s| || s[|b|] == '/'
    requires multiset(a)['/'] == multiset(b)['/']
    ensures a == b
  {
    LongerPrefixMoreSlashes(s, a, b);
    LongerPrefixMoreSlashes(s, b, a);
  }

  lemma LongerPrefixMoreSlashes(s: string, a: string, b: string)
    requires a <= s && b <= s
    ensures |a| < |b| && s[|a|] == '/' ==> multiset(a)['/'] < multiset(b)['/']
  {
    if |a| < |b| && s[|a|] == '/' {
      assert b == a + b[|a|..];
      assert b[|a|] == '/';
      assert multiset(b) == multiset(a) + multiset(b[|a|..]);
    }
  }

  /** A JavaScript own-property name that a `[moduleName] = alias` write cannot create. */
  const ProtoKey: string := "__proto__"

  /** `[a-zA-Z0-9_$]` */
  predicate IsAliasChar(c: char) {
    IsAsciiAlnum(c) || c == '_' || c == '$'
  }

  /** `as` under the `i` flag. */
  predicate IsAsKeyword(w: string) {
    |w| == 2 && (w[0] == 'a' || w[0] == 'A') && (w[1] == 's' || w[1] == 'S')
  }

  predicate IsAliasRun(w: string) {
    w != [] && forall i :: 0 <= i < |w| ==> IsAliasChar(w[i])
  }

  /** A namespace clause cut into its pieces: `*`, spaces, `as`, spaces, the alias, spaces. */
  datatype ClauseParts = ClauseParts(w1: string, kw: string, w2: string, alias: string, w3: string)
  {
    /** The text of the clause the pieces make up. */
    function Text(): string {
      "*" + (w1 + (kw + (w2 + (alias + w3))))
    }

    /** Each piece is what `*\s+as\s+([a-zA-Z0-9_$]+)\s+` demands of it. */
    predicate WellFormed() {
      && w1 != [] && AllSpace(w1) && IsAsKeyword(kw) && w2 != [] && AllSpace(w2)
      && IsAliasRun(alias) && w3 != [] && AllSpace(w3)
    }
  }

  /**
   * Reads a clause against `*\s+as\s+([a-zA-Z0-9_$]+)\s+` (the part of the
   * namespace pattern before `from`). Every `\s+` and the alias run are
   * greedy, so the clause is read in one pass, one piece per stage.
   */
  function ParseNamespaceClause(clause: string): Option<ClauseParts> {
    if clause == [] || clause[0] != '*' then None else ParseAfterStar(clause[1..])
  }

  /** `\s+` after the `*`. */
  function ParseAfterStar(t: string): Option<ClauseParts> {
    var a := Run(t, IsSpace);
    if a == 0 then None else ParseKeyword(t[..a], t[a..])
  }

  /** `as` after the spaces. */
  function ParseKeyword(w1: string, r: string): Option<ClauseParts> {
    if |r| < 2 || !IsAsKeyword(r[..2]) then None else ParseAfterAs(w1, r[..2], r[2..])
  }

  /** `\s+` after `as`. */
  function ParseAfterAs(w1: string, kw: string, u: string): Option<ClauseParts> {
    var b := Run(u, IsSpace);
    if b == 0 then None else ParseAliasPart(w1, kw, u[..b], u[b..])
  }

  /** `([a-zA-Z0-9_$]+)\s+` up to `from`. */
  function ParseAliasPart(w1: string, kw: string, w2: string, v: string): Option<ClauseParts> {
    var c := Run(v, IsAliasChar);
    if c == 0 || c == |v| || !AllSpace(v[c..]) then None
    else Some(ClauseParts(w1, kw, w2, v[..c], v[c..]))
  }

  /** Whatever `ParseNamespaceClause` accepts is a well-formed clause, cut into its own pieces. */
  lemma ParseSound(clause: string)
    ensures ParseNamespaceClause(clause).Some? ==> ParseNamespaceClause(clause).value.WellFormed()
    ensures ParseNamespaceClause(clause).Some? ==> ParseNamespaceClause(clause).value.Text() == clause
  {
    if clause != [] && clause[0] == '*' {
      var t := clause[1..];
      AfterStarSound(t);
      assert clause == "*" + t;
    }
  }

  /** What the stage after `*` accepts: spaces, and what the later stages accept. */
  lemma AfterStarSound(t: string)
    ensures var r := ParseAfterStar(t);
      r.Some? ==> r.value.WellFormed() && r.value.w1 + (r.value.kw + (r.value.w2 + (r.value.alias + r.value.w3))) == t
  {
    var a := Run(t, IsSpace);
    if a != 0 {
      KeywordSound(t[..a], t[a..]);
      assert t == t[..a] + t[a..];
    }
  }

  /** What the keyword stage accepts: `as`, and what the later stages accept. */
  lemma KeywordSound(w1: string, r: string)
    ensures var p := ParseKeyword(w1, r);
      p.Some? ==> (p.value.w1 == w1 && IsAsKeyword(p.value.kw) && p.value.w2 != [] && AllSpace(p.value.w2)
        && IsAliasRun(p.value.alias) && p.value.w3 != [] && AllSpace(p.value.w3)
        && p.value.kw + (p.value.w2 + (p.value.alias + p.value.w3)) == r)
  {
    if |r| >= 2 && IsAsKeyword(r[..2]) {
      AfterAsSound(w1, r[..2], r[2..]);
      assert r == r[..2] + r[2..];
    }
  }

  /** What the stage after `as` accepts: spaces, and what the alias stage accepts. */
  lemma AfterAsSound(w1: string, kw: string, u: string)
    ensures var r := ParseAfterAs(w1, kw, u);
      r.Some? ==> (r.value.w1 == w1 && r.value.kw == kw && r.value.w2 != [] && AllSpace(r.value.w2)
        && IsAliasRun(r.value.alias) && r.value.w3 != [] && AllSpace(r.value.w3)
        && r.value.w2 + (r.value.alias + r.value.w3) == u)
  {
    var b := Run(u, IsSpace);
    if b != 0 {
      var v := u[b..];
      AliasPartSound(w1, kw, u[..b], v);
      assert u == u[..b] + v;
    }
  }

  /** What the alias stage accepts: an alias run, then nothing but spaces. */
  lemma AliasPartSound(w1: string, kw: string, w2: string, v: string)
    ensures var r := ParseAliasPart(w1, kw, w2, v);
      r.Some? ==> (r == Some(ClauseParts(w1, kw, w2, r.value.alias, r.value.w3))
        && IsAliasRun(r.value.alias) && r.value.w3 != [] && AllSpace(r.value.w3)
        && r.value.alias + r.value.w3 == v)
  {
    var c := Run(v, IsAliasChar);
    if c != 0 && c != |v| && AllSpace(v[c..]) {
      assert v == v[..c] + v[c..];
    }
  }

  /** The alias `import * as Alias from` binds, when the clause has that shape. */
  function NamespaceAlias(clause: string): (alias: Option<string>)
    ensures alias.Some? ==> exists parts: ClauseParts :: parts.WellFormed() && parts.Text() == clause && parts.alias == alias.value
  {
    ParseSound(clause);
    match ParseNamespaceClause(clause)
    case Some(parts) => Some(parts.alias)
    case None => None
  }

  /** Whatever clause is built from well-formed pieces has exactly their alias. */
  lemma NamespaceAliasOf(parts: ClauseParts)
    requires parts.WellFormed()
    ensures NamespaceAlias(parts.Text()) == Some(parts.alias)
  {
    ParseComplete(parts);
  }

  /** Every well-formed clause is read back into exactly its pieces. */
  lemma ParseComplete(parts: ClauseParts)
    requires parts.WellFormed()
    ensures ParseNamespaceClause(parts.Text()) == Some(parts)
  {
    var ClauseParts(w1, kw, w2, alias, w3) := parts;
    AliasPartComplete(parts);
    AfterAsComplete(parts);
    AfterStarComplete(w1, kw, w2 + (alias + w3));
    assert parts.Text()[1..] == w1 + (kw + (w2 + (alias + w3)));
  }

  /** The alias stage stops at the first space and keeps the rest as trailing space. */
  lemma AliasPartComplete(parts: ClauseParts)
    requires parts.WellFormed()
    ensures ParseAliasPart(parts.w1, parts.kw, parts.w2, parts.alias + parts.w3) == Some(parts)
  {
    var v := parts.alias + parts.w3;
    AliasRun(parts.alias, parts.w3);
    assert v[..|parts.alias|] == parts.alias && v[|parts.alias|..] == parts.w3;
  }

  /** The stage after `as` takes exactly the spaces before the alias. */
  lemma AfterAsComplete(parts: ClauseParts)
    requires parts.WellFormed()
    requires ParseAliasPart(parts.w1, parts.kw, parts.w2, parts.alias + parts.w3) == Some(parts)
    ensures ParseAfterAs(parts.w1, parts.kw, parts.w2 + (parts.alias + parts.w3)) == Some(parts)
  {
    var v := parts.alias + parts.w3;
    var u := parts.w2 + v;
    RunPrefix(parts.w2, v);
    assert u[..|parts.w2|] == parts.w2 && u[|parts.w2|..] == v;
  }

  /** The stage after `*` takes exactly the spaces before `as`. */
  lemma AfterStarComplete(w1: string, kw: string, u: string)
    requires w1 != [] && AllSpace(w1) && IsAsKeyword(kw)
    ensures ParseAfterStar(w1 + (kw + u)) == ParseAfterAs(w1, kw, u)
  {
    var t := w1 + (kw + u);
    var n := |w1|;
    RunPrefix(w1, kw + u);
    assert t[..n] == w1;
    assert t[n..] == kw + u;
    KeywordComplete(w1, kw, u);
  }

  /** The keyword stage takes exactly the two letters of `as`. */
  lemma KeywordComplete(w1: string, kw: string, u: string)
    requires IsAsKeyword(kw)
    ensures ParseKeyword(w1, kw + u) == ParseAfterAs(w1, kw, u)
  {
    assert (kw + u)[..2] == kw;
    assert (kw + u)[2..] == u;
  }

  lemma {:induction false} AliasRun(alias: string, w: string)
    requires forall i :: 0 <= i < |alias| ==> IsAliasChar(alias[i])
    requires w != [] && IsSpace(w[0])
    ensures Run(alias + w, IsAliasChar) == |alias|
  {
    if alias != [] {
      assert (alias + w)[1..] == alias[1..] + w;
      AliasRun(alias[1..], w);
    } else {
      assert alias + w == w;
    }
  }

  /** The (module, alias) pair a segment contributes, when it is `import * as Alias from 'module'`. */
  function NamespaceBinding(seg: Segment): Option<(string, string)> {
    if seg.Import? && !HasLineBreak(seg.spec) then
      match NamespaceAlias(seg.clause)
      case Some(alias) => Some((seg.spec, alias))
      case None => None
    else None
  }

  /**
   * The object `extractNamespaceImports` builds, as a map: each binding writes
   * `[module] = alias`, a later one overwriting an earlier one; a write to
   * `__proto__` goes to the prototype setter, which ignores a string.
   */
  function NamespaceImports(code: seq<Segment>): (table: map<string, string>)
    ensures ProtoKey !in table
    ensures forall moduleName :: moduleName in table ==> !HasLineBreak(moduleName) && IsAliasRun(table[moduleName])
  {
    NamespaceTableWellFormed(code);
    BindAll(code, NamespaceBinding)
  }

  /** No `__proto__` key, every key on one line, every value an alias run. */
  predicate WellFormedTable(table: map<string, string>) {
    && ProtoKey !in table
    && forall moduleName :: moduleName in table ==> !HasLineBreak(moduleName) && IsAliasRun(table[moduleName])
  }

  lemma {:induction false} NamespaceTableWellFormed(code: seq<Segment>)
    ensures WellFormedTable(BindAll(code, NamespaceBinding))
  {
    if code != [] {
      var last := code[|code| - 1];
      NamespaceTableWellFormed(code[..|code| - 1]);
      NamespaceBindingWellFormed(last);
      BindWellFormed(BindAll(code[..|code| - 1], NamespaceBinding), NamespaceBinding(last));
    }
  }

  /** A statement binds a one-line module name to an alias run. */
  lemma NamespaceBindingWellFormed(seg: Segment)
    ensures NamespaceBinding(seg).Some? ==> !HasLineBreak(NamespaceBinding(seg).value.0) && IsAliasRun(NamespaceBinding(seg).value.1)
  {
    if NamespaceBinding(seg).Some? {
      var parts: ClauseParts :| parts.WellFormed() && parts.Text() == seg.clause && parts.alias == NamespaceAlias(seg.clause).value;
    }
  }

  lemma BindWellFormed(table: map<string, string>, binding: Option<(string, string)>)
    requires WellFormedTable(table)
    requires binding.Some? ==> !HasLineBreak(binding.value.0) && IsAliasRun(binding.value.1)
    ensures WellFormedTable(Bind(table, binding))
  {
  }

  /** Each element's binding applied in order, from an empty object. */
  function BindAll<A>(xs: seq<A>, f: A -> Option<(string, string)>): map<string, string> {
    if xs == [] then map[]
    else Bind(BindAll(xs[..|xs| - 1], f), f(xs[|xs| - 1]))
  }

  /** `namespaceImports[moduleName] = alias` on a plain object. */
  function Bind(m: map<string, string>, binding: Option<(string, string)>): map<string, string> {
    if binding.Some? && binding.value.0 != ProtoKey then m[binding.value.0 := binding.value.1] else m
  }

  /** Unfolding `BindAll` one element further. */
  lemma BindAllStep<A>(xs: seq<A>, f: A -> Option<(string, string)>, i: nat)
    requires i < |xs|
    ensures BindAll(xs[..i + 1], f) == Bind(BindAll(xs[..i], f), f(xs[i]))
  {
    assert xs[..i + 1][..i] == xs[..i];
  }

  lemma {:induction false} BindAllKeys<A>(xs: seq<A>, f: A -> Option<(string, string)>, key: string)
    ensures key in BindAll(xs, f) <==>
      key != ProtoKey && exists i :: 0 <= i < |xs| && f(xs[i]).Some? && f(xs[i]).value.0 == key
  {
    if xs != [] {
      var n := |xs| - 1;
      var init := xs[..n];
      BindAllKeys(init, f, key);
      if exists i :: 0 <= i < |xs| && f(xs[i]).Some? && f(xs[i]).value.0 == key {
        var i :| 0 <= i < |xs| && f(xs[i]).Some? && f(xs[i]).value.0 == key;
        if i < n {
          assert init[i] == xs[i];
        }
      }
      if exists i :: 0 <= i < |init| && f(init[i]).Some? && f(init[i]).value.0 == key {
        var i :| 0 <= i < |init| && f(init[i]).Some? && f(init[i]).value.0 == key;
        assert xs[i] == init[i];
      }
    }
  }

  lemma {:induction false} BindAllLastWins<A>(xs: seq<A>, f: A -> Option<(string, string)>, i: nat)
    requires i < |xs| && f(xs[i]).Some? && f(xs[i]).value.0 != ProtoKey
    requires forall j :: i < j < |xs| ==> f(xs[j]).None? || f(xs[j]).value.0 != f(xs[i]).value.0
    ensures f(xs[i]).value.0 in BindAll(xs, f) && BindAll(xs, f)[f(xs[i]).value.0] == f(xs[i]).value.1
  {
    var n := |xs| - 1;
    var init := xs[..n];
    if i < n {
      assert init[i] == xs[i];
      forall j | i < j < |init| ensures f(init[j]).None? || f(init[j]).value.0 != f(init[i]).value.0 {
        assert init[j] == xs[j];
      }
      BindAllLastWins(init, f, i);
    }
  }

  /** A module is a key exactly when some statement imports it as a namespace (and it is not `__proto__`). */
  lemma NamespaceImportsKeys(code: seq<Segment>, moduleName: string)
    ensures moduleName in NamespaceImports(code) <==>
      moduleName != ProtoKey && exists i :: 0 <= i < |code| && NamespaceBinding(code[i]).Some? && NamespaceBinding(code[i]).value.0 == moduleName
  {
    BindAllKeys(code, NamespaceBinding, moduleName);
  }

  /** A later `import * as` of the same module overwrites the alias: the last one wins. */
  lemma NamespaceImportsLastWins(code: seq<Segment>, i: nat)
    requires i < |code| && NamespaceBinding(code[i]).Some?
    requires NamespaceBinding(code[i]).value.0 != ProtoKey
    requires forall j :: i < j < |code| ==> NamespaceBinding(code[j]).None? || NamespaceBinding(code[j]).value.0 != NamespaceBinding(code[i]).value.0
    ensures var (moduleName, alias) := NamespaceBinding(code[i]).value;
      moduleName in NamespaceImports(code) && NamespaceImports(code)[moduleName] == alias
  {
    BindAllLastWins(code, NamespaceBinding, i);
  }

  /** The `while (regex.exec(code))` loop of `extractNamespaceImports`. */
  method ExtractNamespaceImports(code: seq<Segment>) returns (namespaceImports: map<string, string>)
    ensures namespaceImports == NamespaceImports(code)
    ensures ProtoKey !in namespaceImports
  {
    namespaceImports := map[];
    var i := 0;
    while i < |code|
      invariant 0 <= i <= |code|
      invariant namespaceImports == NamespaceImports(code[..i])
      invariant ProtoKey !in namespaceImports
    {
      BindAllStep(code, NamespaceBinding, i);
      var binding := NamespaceBinding(code[i]);
      if binding.Some? {
        var (moduleName, alias) := binding.value;
        if moduleName != ProtoKey {
          namespaceImports := namespaceImports[moduleName := alias];
        }
      }
      i := i + 1;
    }
    assert code[..i] == code;
  }
}
