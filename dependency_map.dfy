/**
 * The registry of libraries a preview may import (`dependencyMap`), the list
 * of libraries the host provides itself (`internalDependencies`), and the
 * support check the loader runs against the registry.
 */
module DependencyRegistry {
  import opened JsStrings
  import opened Results

  /** The entries of the `dependencyMap` literal, in source order: each supported name and the one CDN locator it loads. */
  const Registry: seq<(string, string)> := [
    ("react", EsmUrl("react", "18.2.0")),
    ("chart.js", EsmUrl("chart.js", "4.5.0")),
    ("axios", EsmUrl("axios", "1.4.0")),
    ("lodash", EsmUrl("lodash", "4.17.21")),
    ("motion", EsmUrl("motion", "11.13.1")),
    ("clsx", EsmUrl("clsx", "2.1.1")),
    ("lucide-react", EsmUrl("lucide-react", "0.525.0")),
    ("mathjs", EsmUrl("mathjs", "14.5.3"))
  ]

  const EsmHost: string := "https://esm.sh/"

  /** `https://esm.sh/<name>@<version>`, the form of every locator in the registry. */
  function EsmUrl(name: string, version: string): string {
    EsmHost + name + "@" + version
  }

  /** `dependencyMap` */
  const DependencyMap: map<string, string> := MapOf(Registry)

  /** The object an object literal with these entries builds, a later key overwriting an earlier one. */
  function MapOf(entries: seq<(string, string)>): map<string, string> {
    if entries == [] then map[]
    else MapOf(entries[..|entries| - 1])[entries[|entries| - 1].0 := entries[|entries| - 1].1]
  }

  /** The keys of the object are the names of the entries, and each value is that of an entry with that name. */
  lemma {:induction false} MapOfEntries(entries: seq<(string, string)>, k: string)
    ensures k in MapOf(entries) <==> exists i :: 0 <= i < |entries| && entries[i].0 == k
    ensures k in MapOf(entries) ==> exists i :: 0 <= i < |entries| && entries[i] == (k, MapOf(entries)[k])
  {
    if entries != [] {
      var init := entries[..|entries| - 1];
      MapOfEntries(init, k);
      if k in MapOf(init) && k != entries[|entries| - 1].0 {
        var i :| 0 <= i < |init| && init[i] == (k, MapOf(init)[k]);
        assert entries[i] == init[i];
      }
      if exists i :: 0 <= i < |entries| && entries[i].0 == k {
        var i :| 0 <= i < |entries| && entries[i].0 == k;
        if i < |init| {
          assert init[i] == entries[i];
        }
      }
    }
  }

  /** With distinct names, the object has one key per entry. */
  lemma {:induction false} MapOfSize(entries: seq<(string, string)>)
    requires forall i, j :: 0 <= i < j < |entries| ==> entries[i].0 != entries[j].0
    ensures |MapOf(entries).Keys| == |entries|
  {
    if entries != [] {
      var init := entries[..|entries| - 1];
      var last := entries[|entries| - 1].0;
      MapOfSize(init);
      MapOfEntries(init, last);
      assert last !in MapOf(init);
      assert MapOf(entries).Keys == MapOf(init).Keys + {last};
    }
  }

  /** `internalDependencies` */
  const InternalDependencies: seq<string> := ["recharts", "framer-motion"]

  /** The bindings the registry module exports. */
  const RegistryExports: set<string> := {"dependencyMap", "internalDependencies"}

  /** The bindings the preview component imports from the registry module. */
  const RegistryImports: seq<string> := ["dependencyMap", "checkLoadedDependencies"]

  /**
   * The property names every plain JavaScript object inherits from
   * `Object.prototype`; reading one of them from `dependencyMap` yields a
   * function (or, for `__proto__`, the prototype object), never `undefined`.
   */
  const ObjectPrototypeNames: set<string> := {
    "constructor", "hasOwnProperty", "isPrototypeOf", "propertyIsEnumerable",
    "toLocaleString", "toString", "valueOf", "__proto__",
    "__defineGetter__", "__defineSetter__", "__lookupGetter__", "__lookupSetter__"
  }

  /** What the property read `dependencyMap[name]` yields. */
  datatype PropertyValue =
    | Own(url: string)   // one of the registry's own entries: a string
    | Inherited          // a member of Object.prototype: a function or object
    | Absent             // undefined

  function Read(name: string): (v: PropertyValue)
    ensures v.Own? <==> name in DependencyMap
    ensures v.Own? ==> v.url == DependencyMap[name]
  {
    if name in DependencyMap then Own(DependencyMap[name])
    else if name in ObjectPrototypeNames then Inherited
    else Absent
  }

  /** JavaScript truthiness of the value read. */
  predicate Truthy(v: PropertyValue) {
    match v
    case Own(url) => url != []
    case Inherited => true
    case Absent => false
  }

  /** The check as written, `!dependencyMap[dep]` negated: the property read is truthy. */
  predicate SupportedAsWritten(name: string) {
    Truthy(Read(name))
  }

  /** The check the registry is meant to answer: `name` is one of its own keys. */
  predicate Supported(name: string) {
    name in DependencyMap
  }

  /** The eight supported names, and nothing else. */
  lemma SupportedNames(name: string)
    ensures Supported(name) <==> name in ["react", "chart.js", "axios", "lodash", "motion", "clsx", "lucide-react", "mathjs"]
    ensures |DependencyMap.Keys| == 8
  {
    MapOfEntries(Registry, name);
    var names := ["react", "chart.js", "axios", "lodash", "motion", "clsx", "lucide-react", "mathjs"];
    assert forall i :: 0 <= i < |Registry| ==> Registry[i].0 == names[i];
    if name in names {
      var i :| 0 <= i < |names| && names[i] == name;
      assert Registry[i].0 == name;
    }
    RegistryNamesDistinct();
    MapOfSize(Registry);
  }

  lemma RegistryNamesDistinct()
    ensures forall i, j :: 0 <= i < j < |Registry| ==> Registry[i].0 != Registry[j].0
  {
    assert "motion"[1] != "mathjs"[1];
  }

  /** Every registry value is a single, non-empty locator string. */
  lemma RegistryValues(name: string)
    requires name in DependencyMap
    ensures exists i :: 0 <= i < |Registry| && Registry[i] == (name, DependencyMap[name])
    ensures DependencyMap[name] != []
  {
    MapOfEntries(Registry, name);
  }

  /**
   * The check as written accepts a name exactly when it is supported or is
   * inherited from `Object.prototype`: every registry value is a non-empty
   * string, and no prototype name is a registry key.
   */
  lemma SupportedAsWrittenExactly(name: string)
    ensures SupportedAsWritten(name) <==> Supported(name) || name in ObjectPrototypeNames
  {
    if name in DependencyMap {
      RegistryValues(name);
    }
  }

  /** `import x from 'constructor'` passes the check as written although the registry has no such entry. */
  lemma PrototypeNameAccepted()
    ensures SupportedAsWritten("constructor") && !Supported("constructor")
  {
    SupportedAsWrittenExactly("constructor");
    MapOfEntries(Registry, "constructor");
  }

  /** Libraries the host provides itself are not registry keys, so the loader rejects them. */
  lemma InternalNotSupported()
    ensures forall i :: 0 <= i < |InternalDependencies| ==>
      !Supported(InternalDependencies[i]) && !SupportedAsWritten(InternalDependencies[i])
  {
    forall i | 0 <= i < |InternalDependencies|
      ensures !Supported(InternalDependencies[i]) && !SupportedAsWritten(InternalDependencies[i])
    {
      SupportedAsWrittenExactly(InternalDependencies[i]);
      MapOfEntries(Registry, InternalDependencies[i]);
    }
  }

  /** `d.d…`: digits in groups separated by single dots. */
  predicate IsVersion(v: string) {
    && v != [] && '0' <= v[0] <= '9' && '0' <= v[|v| - 1] <= '9'
    && forall i :: 0 <= i < |v| ==> ('0' <= v[i] <= '9') || (v[i] == '.' && i + 1 < |v| && v[i + 1] != '.')
  }

  /** The locator of `name` is `https://esm.sh/<name>@<version>` with an explicit version. */
  predicate PinsVersion(name: string, url: string) {
    var prefix := EsmHost + name + "@";
    |prefix| < |url| && url[..|prefix|] == prefix && IsVersion(url[|prefix|..])
  }

  /** Every locator of the registry names its own package and pins its version. */
  lemma VersionsPinned()
    ensures forall name :: name in DependencyMap ==> PinsVersion(name, DependencyMap[name])
  {
    forall name | name in DependencyMap ensures PinsVersion(name, DependencyMap[name]) {
      RegistryValues(name);
      var i :| 0 <= i < |Registry| && Registry[i] == (name, DependencyMap[name]);
      EntryPinned(i);
    }
  }

  lemma EntryPinned(i: nat)
    requires i < |Registry|
    ensures PinsVersion(Registry[i].0, Registry[i].1)
  {
    if i < 4 {
      FirstFourPinned(i);
    } else {
      LastFourPinned(i);
    }
  }

  lemma FirstFourPinned(i: nat)
    requires i < 4
    ensures PinsVersion(Registry[i].0, Registry[i].1)
  {
    if i == 0 { Pinned("react", "18.2.0"); }
    else if i == 1 { Pinned("chart.js", "4.5.0"); }
    else if i == 2 { Pinned("axios", "1.4.0"); }
    else { Pinned("lodash", "4.17.21"); }
  }

  lemma LastFourPinned(i: nat)
    requires 4 <= i < |Registry|
    ensures PinsVersion(Registry[i].0, Registry[i].1)
  {
    if i == 4 { Pinned("motion", "11.13.1"); }
    else if i == 5 { Pinned("clsx", "2.1.1"); }
    else if i == 6 { Pinned("lucide-react", "0.525.0"); }
    else { Pinned("mathjs", "14.5.3"); }
  }

  lemma Pinned(name: string, version: string)
    requires IsVersion(version)
    ensures PinsVersion(name, EsmUrl(name, version))
  {
    var prefix := EsmHost + name + "@";
    assert EsmUrl(name, version) == prefix + version;
  }

  /**
   * The preview imports `checkLoadedDependencies` from the registry module,
   * which exports no binding of that name. This records the two modules'
   * import and export lists as written (`RegistryImports`, `RegistryExports`);
   * it proves nothing about the rest of the model.
   */
  lemma CheckLoadedNotExported()
    ensures exists i :: 0 <= i < |RegistryImports| && RegistryImports[i] !in RegistryExports
  {
    assert RegistryImports[1] !in RegistryExports;
  }
}
