/**
 * The chapter-configuration loader: a deep merge of a chapter's own configuration into
 * the default one, the fallback to the default when the chapter's module cannot be
 * loaded, and a per-slug cache. Configurations are JSON-like values whose objects are
 * maps from keys to values; a key that is absent reads as `undefined`.
 */
module ConfigLoader {
  import opened Wrappers
  import opened Text
  import opened JsObject

  datatype Json =
    | Undefined
    | Null
    | Bool(b: bool)
    | Num(n: real)
    | Str(s: string)
    | Arr(items: seq<Json>)
    | Obj(fields: map<string, Json>)

  type Object = map<string, Json>

  /** `obj[key]`: the value, or `undefined` when the key is absent. */
  function Get(o: Object, key: string): Json {
    if key in o then o[key] else Undefined
  }

  /** The one key whose arrays are concatenated source-first. */
  const MappingsKey := "componentMappings"

  /** The keys of `source` whose value is defined. */
  function DefinedKeys(source: Object): set<string> {
    set k | k in source && source[k] != Undefined
  }

  /**
   * `deepMerge`: a copy of `target` in which every key of `source` is merged by
   * `MergeValue`; a key absent from `target` whose source value is `undefined` stays absent.
   */
  function DeepMerge(target: Object, source: Object): (r: Object)
    ensures r.Keys == target.Keys + DefinedKeys(source)
    decreases Obj(source), 0
  {
    map k | k in target.Keys + DefinedKeys(source) ::
      if k in source then MergeValue(k, Get(target, k), source[k]) else target[k]
  }

  /**
   * The value one key gets: two plain objects are merged recursively, two arrays are
   * concatenated (source first for `componentMappings`, target first otherwise), and
   * otherwise a defined source value replaces the target value.
   */
  function MergeValue(key: string, t: Json, s: Json): Json
    decreases s, 1
  {
    if t.Obj? && s.Obj? then Obj(DeepMerge(t.fields, s.fields))
    else if t.Arr? && s.Arr? then
      if key == MappingsKey then Arr(s.items + t.items) else Arr(t.items + s.items)
    else if s != Undefined then s
    else t
  }

  /** A key only the target has keeps its value. */
  lemma MergeKeepsTargetOnly(target: Object, source: Object, k: string)
    requires k in target && k !in source
    ensures k in DeepMerge(target, source) && DeepMerge(target, source)[k] == target[k]
  {
  }

  /** Under a key both sides hold, two plain objects merge recursively. */
  lemma MergeNestedObjects(target: Object, source: Object, k: string)
    requires k in target && k in source && target[k].Obj? && source[k].Obj?
    ensures DeepMerge(target, source)[k] == Obj(DeepMerge(target[k].fields, source[k].fields))
  {
  }

  /** Under a key both sides hold, two arrays are concatenated; `componentMappings` source-first. */
  lemma MergeArrays(target: Object, source: Object, k: string)
    requires k in target && k in source && target[k].Arr? && source[k].Arr?
    ensures DeepMerge(target, source)[k].Arr?
    ensures k == MappingsKey ==> DeepMerge(target, source)[k].items == source[k].items + target[k].items
    ensures k != MappingsKey ==> DeepMerge(target, source)[k].items == target[k].items + source[k].items
  {
  }

  /**
   * Any other pair: a defined source value replaces the target value, and an undefined
   * one leaves the target value, or the key absent.
   */
  lemma MergeReplaces(target: Object, source: Object, k: string)
    requires k in source
    requires !(Get(target, k).Obj? && source[k].Obj?) && !(Get(target, k).Arr? && source[k].Arr?)
    ensures source[k] != Undefined ==> DeepMerge(target, source)[k] == source[k]
    ensures source[k] == Undefined ==> Get(DeepMerge(target, source), k) == Get(target, k)
  {
  }

  /** Merging nothing into a configuration leaves it as it was. */
  lemma MergeEmptySource(target: Object)
    ensures DeepMerge(target, map[]) == target
  {
  }

  /** `source` without its keys whose value is `undefined`. */
  function Defined(source: Object): (r: Object)
    ensures r.Keys == DefinedKeys(source)
    ensures forall k :: k in r ==> r[k] == source[k]
  {
    map k | k in DefinedKeys(source) :: source[k]
  }

  /** Merging into an empty object copies the source without its `undefined` values. */
  lemma MergeIntoEmpty(source: Object)
    ensures DeepMerge(map[], source) == Defined(source)
  {
  }

  // ----- loadChapterConfig and getChapterConfig -----

  /** The default configuration: no mappings, no registry, the default theme and layout. */
  const DefaultConfig: Object := map[
    "componentMappings" := Arr([]),
    "componentRegistry" := Obj(map[]),
    "defaultComponent" := Undefined,
    "theme" := Obj(map[
      "colors" := Obj(map[
        "primary" := Str("#3b82f6"),
        "secondary" := Str("#6b7280"),
        "accent" := Str("#10b981"),
        "background" := Str("#ffffff"),
        "text" := Str("#111827")]),
      "typography" := Obj(map[
        "heading" := Str("Inter, sans-serif"),
        "body" := Str("Inter, sans-serif"),
        "monospace" := Str("Fira Code, monospace")]),
      "spacing" := Obj(map[
        "small" := Str("0.5rem"),
        "medium" := Str("1rem"),
        "large" := Str("1.5rem"),
        "xlarge" := Str("2rem")]),
      "animations" := Obj(map["enabled" := Bool(true), "duration" := Str("0.3s")])]),
    "layout" := Obj(map["type" := Str("default")]),
    "interactive" := Bool(true),
    "analytics" := Obj(map["enabled" := Bool(false)])
  ]

  /**
   * The own enumerable keys `for…in` with `hasOwnProperty` visits: an array's and a
   * string's indices ("0", "1", …), with the element or the one-character string under each.
   */
  function IndexKeys(values: seq<Json>): (r: Object)
    ensures forall i :: 0 <= i < |values| ==> NatToString(i) in r && r[NatToString(i)] == values[i]
    ensures forall k :: k in r ==> exists i :: 0 <= i < |values| && k == NatToString(i)
  {
    assert forall i, j :: 0 <= i < |values| && 0 <= j < |values| && NatToString(i) == NatToString(j) ==> i == j by {
      forall i, j | 0 <= i < |values| && 0 <= j < |values| && NatToString(i) == NatToString(j) ensures i == j {
        NatToStringInjective(i, j);
      }
    }
    map i | 0 <= i < |values| :: NatToString(i) := values[i]
  }

  /** A string's characters as one-character strings. */
  function Chars(s: string): (r: seq<Json>)
    ensures |r| == |s| && forall i :: 0 <= i < |s| ==> r[i] == Str([s[i]])
  {
    seq(|s|, i requires 0 <= i < |s| => Str([s[i]]))
  }

  /**
   * `module.default || {}` as `deepMerge` reads it: a falsy export becomes `{}`; an
   * object gives its fields, an array or a non-empty string its indices; `true` and a
   * non-zero number have no own keys.
   */
  function ChapterSource(exported: Json): Object {
    match exported
    case Obj(fields) => fields
    case Arr(items) => IndexKeys(items)
    case Str(s) => IndexKeys(Chars(s))
    case _ => map[]
  }

  /** An export whose `for…in` visits no key: a non-object scalar, `""` or `[]`, or `{}`. */
  predicate HasNoOwnKeys(exported: Json) {
    match exported
    case Obj(fields) => fields == map[]
    case Arr(items) => items == []
    case Str(s) => s == ""
    case _ => true
  }

  /** The merge sees no key exactly when the export has none of its own. */
  lemma ChapterSourceEmpty(exported: Json)
    ensures ChapterSource(exported) == map[] <==> HasNoOwnKeys(exported)
  {
    match exported
    case Arr(items) =>
      if items != [] {
        assert NatToString(0) in ChapterSource(exported);
      }
    case Str(s) =>
      if s != "" {
        assert NatToString(0) in ChapterSource(exported);
      }
    case _ =>
  }

  /**
   * `loadChapterConfig`: `imported` is the chapter module's default export, or None when
   * the dynamic import fails; a failure gives the default configuration.
   */
  function LoadChapterConfig(imported: Option<Json>): Object {
    match imported
    case None => DefaultConfig
    case Some(exported) => DeepMerge(DefaultConfig, ChapterSource(exported))
  }

  /**
   * A failed import, and a module whose default export has no keys of its own, give the
   * default configuration.
   */
  lemma LoadFallsBackToDefault(imported: Option<Json>)
    requires imported.None? || HasNoOwnKeys(imported.value)
    ensures LoadChapterConfig(imported) == DefaultConfig
  {
    if imported.Some? {
      ChapterSourceEmpty(imported.value);
      MergeEmptySource(DefaultConfig);
    }
  }

  /** No key of the default configuration is an index. */
  lemma DefaultKeysAreNotIndices(i: nat)
    ensures NatToString(i) !in DefaultConfig
  {
    var k := NatToString(i);
    assert IsDigit(k[0]);
  }

  /** `r` holds every key of `target` with its value. */
  predicate Extends(r: Object, target: Object) {
    forall k :: k in target ==> k in r && r[k] == target[k]
  }

  /**
   * Merging a list of values by index into a configuration without index keys keeps
   * every key of it and adds each defined value under its index.
   */
  lemma MergeByIndex(target: Object, values: seq<Json>, i: nat)
    requires forall j: nat :: NatToString(j) !in target
    requires i < |values| && values[i] != Undefined
    ensures Extends(DeepMerge(target, IndexKeys(values)), target)
    ensures NatToString(i) in DeepMerge(target, IndexKeys(values))
    ensures DeepMerge(target, IndexKeys(values))[NatToString(i)] == values[i]
  {
    var src := IndexKeys(values);
    forall k | k in target
      ensures k in DeepMerge(target, src) && DeepMerge(target, src)[k] == target[k]
    {
      assert k !in src;
      MergeKeepsTargetOnly(target, src, k);
    }
    MergeReplaces(target, src, NatToString(i));
  }

  /** No key of the default configuration is an index. */
  lemma DefaultHasNoIndexKeys()
    ensures forall j: nat :: NatToString(j) !in DefaultConfig
  {
    forall j: nat ensures NatToString(j) !in DefaultConfig {
      DefaultKeysAreNotIndices(j);
    }
  }

  /**
   * An array default export is merged by index: the default configuration keeps every
   * key, and each defined element is added under its index.
   */
  lemma LoadIndexedExport(items: seq<Json>, i: nat)
    requires i < |items| && items[i] != Undefined
    ensures Extends(LoadChapterConfig(Some(Arr(items))), DefaultConfig)
    ensures NatToString(i) in LoadChapterConfig(Some(Arr(items)))
    ensures LoadChapterConfig(Some(Arr(items)))[NatToString(i)] == items[i]
  {
    LoadMerges(Arr(items), IndexKeys(items));
    DefaultHasNoIndexKeys();
    MergeByIndex(DefaultConfig, items, i);
  }

  /** A string default export such as "ab" adds its characters under "0", "1", …. */
  lemma LoadStringExport(s: string, i: nat)
    requires i < |s|
    ensures Extends(LoadChapterConfig(Some(Str(s))), DefaultConfig)
    ensures NatToString(i) in LoadChapterConfig(Some(Str(s)))
    ensures LoadChapterConfig(Some(Str(s)))[NatToString(i)] == Str([s[i]])
  {
    StringSource(s);
    LoadMerges(Str(s), IndexKeys(Chars(s)));
    DefaultHasNoIndexKeys();
    MergeByIndex(DefaultConfig, Chars(s), i);
  }

  lemma StringSource(s: string)
    ensures ChapterSource(Str(s)) == IndexKeys(Chars(s))
  {
  }

  lemma LoadMerges(exported: Json, src: Object)
    requires ChapterSource(exported) == src
    ensures LoadChapterConfig(Some(exported)) == DeepMerge(DefaultConfig, src)
  {
  }

  /** A chapter's own mappings come first, ahead of the (empty) default ones. */
  lemma LoadedMappingsFirst(chapter: Object)
    requires MappingsKey in chapter && chapter[MappingsKey].Arr?
    ensures LoadChapterConfig(Some(Obj(chapter)))[MappingsKey] == chapter[MappingsKey]
  {
    MergeArrays(DefaultConfig, chapter, MappingsKey);
    assert chapter[MappingsKey].items + [] == chapter[MappingsKey].items;
  }

  /** A chapter that does not mention a default key keeps the default value under it. */
  lemma LoadKeepsUnmentionedDefaults(chapter: Object, k: string)
    requires k in DefaultConfig && k !in chapter
    ensures LoadChapterConfig(Some(Obj(chapter)))[k] == DefaultConfig[k]
  {
    MergeKeepsTargetOnly(DefaultConfig, chapter, k);
  }

  /**
   * The configuration cache, by chapter slug. Only loaded configurations are stored, and
   * never under an inherited member name (see `GetChapterConfig`).
   */
  type Cache = map<string, Object>

  predicate NoInheritedKeys(cache: Cache) {
    forall k :: k in cache ==> k !in PrototypeMembers
  }

  /**
   * What `configCache[chapterSlug]` yields when it is truthy: a stored configuration, or the
   * function or object a plain object inherits under that name.
   */
  datatype CacheAnswer = Config(config: Object) | InheritedMember(name: string)

  /**
   * `getChapterConfig`: the cached configuration when there is one; otherwise the loaded
   * one, which is also stored. `imports` gives each slug's import outcome. A slug naming a
   * member of `Object.prototype` reads as truthy from the empty cache, so the source returns
   * that member without loading or storing anything. A cache this function built holds no
   * such key, so it does not matter that the inherited check comes first here.
   */
  function GetChapterConfig(cache: Cache, slug: string, imports: string -> Option<Json>): (r: (CacheAnswer, Cache))
    ensures r.0.InheritedMember? <==> slug in PrototypeMembers
    ensures r.0.InheritedMember? ==> r.0.name == slug && r.1 == cache
    ensures r.0.Config? ==> slug in r.1 && r.1[slug] == r.0.config
    ensures r.1.Keys == cache.Keys + (if slug in PrototypeMembers then {} else {slug})
    ensures forall k :: k in cache ==> r.1[k] == cache[k]
    ensures NoInheritedKeys(cache) ==> NoInheritedKeys(r.1)
  {
    if slug in PrototypeMembers then (InheritedMember(slug), cache)
    else if slug in cache then (Config(cache[slug]), cache)
    else
      var config := LoadChapterConfig(imports(slug));
      (Config(config), cache[slug := config])
  }

  /**
   * A first request for an ordinary slug loads, one naming an inherited member returns it
   * and leaves the cache alone, and asking again for the same slug returns the same answer.
   */
  lemma GetChapterConfigCached(cache: Cache, slug: string, imports: string -> Option<Json>)
    ensures var (c1, cache1) := GetChapterConfig(cache, slug, imports);
      && (slug !in cache && slug !in PrototypeMembers ==> c1 == Config(LoadChapterConfig(imports(slug))))
      && (slug in PrototypeMembers ==> c1 == InheritedMember(slug) && cache1 == cache)
      && GetChapterConfig(cache1, slug, imports) == (c1, cache1)
  {
  }

  /** "constructor" is answered by `Object` itself, and nothing is cached. */
  lemma ConstructorIsInherited(cache: Cache, imports: string -> Option<Json>)
    ensures GetChapterConfig(cache, "constructor", imports) == (InheritedMember("constructor"), cache)
  {
  }
}
