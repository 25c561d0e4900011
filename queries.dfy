/**
  The query layer of json_trans/managers.py: `TranslationQuerySet`, its model
  iterable and `TranslationManager`. A query is a value, its locale, the filter
  calls made on it (positional arguments kept opaque, keyword predicates after
  rewriting) and its JSON-path ordering term; only the query set's own fields
  are modelled, never the evaluation of the query by the database.
 */
module Queries {
  import opened Wrappers
  import opened Strings
  import opened Locale
  import opened Fields
  import opened Overlay
  import opened Records

  /** One call of `filter(*args, **kwargs)`: `args` are opaque `Q` expressions, `kwargs` the keyword predicates in order. */
  datatype FilterCall = FilterCall(args: seq<string>, kwargs: seq<(string, Value)>)

  /** `RawSQL("translations#>>%s", (path,))`, descending or not. */
  datatype Ordering = JsonPathOrdering(path: string, descending: bool)

  /** What a query set holds: `_language_code`, the filters applied so far and its ordering. */
  datatype Query = Query(languageCode: string, filters: seq<FilterCall>, ordering: Option<Ordering>)

  /**
    The field a lookup key starts with: `key.split('__')[0]`. It holds no `__`, and a
    key without `__` is its own root.
   */
  function RootName(key: string): (r: string)
    ensures !Contains(r, "__")
    ensures !Contains(key, "__") ==> r == key
  {
    Split(key, "__")[0]
  }

  /** The lookup key redirected into the overlay entry of `lc`. */
  function RewriteKey(lc: string, key: string): string
  {
    "translations__" + lc + "__" + key
  }

  /** Whether `filter` redirects `key`: the query's locale is not the default one and the key starts with a translatable field. */
  predicate Redirected(reg: Registry, translatable: seq<string>, lc: string, ambient: string, key: string)
  {
    !IsDefault(reg, lc, ambient) && RootName(key) in translatable
  }

  /**
    The keyword predicates `filter` passes on, each key redirected or not on its own
    and every value unchanged, in their order.
   */
  function FilterKwargs(reg: Registry, translatable: seq<string>, lc: string, ambient: string,
                        kwargs: seq<(string, Value)>): (r: seq<(string, Value)>)
    ensures |r| == |kwargs|
    ensures forall i :: 0 <= i < |kwargs| ==> r[i].1 == kwargs[i].1
    ensures forall i :: 0 <= i < |kwargs| ==>
      r[i].0 == if Redirected(reg, translatable, lc, ambient, kwargs[i].0) then RewriteKey(lc, kwargs[i].0) else kwargs[i].0
  {
    seq(|kwargs|, i requires 0 <= i < |kwargs| =>
      var (key, value) := kwargs[i];
      (if Redirected(reg, translatable, lc, ambient, key) then RewriteKey(lc, key) else key, value))
  }

  /** Rewriting one more keyword appends its rewritten form. */
  lemma FilterKwargsStep(reg: Registry, translatable: seq<string>, lc: string, ambient: string,
                         kwargs: seq<(string, Value)>, i: nat)
    requires i < |kwargs|
    ensures FilterKwargs(reg, translatable, lc, ambient, kwargs[..i + 1])
         == FilterKwargs(reg, translatable, lc, ambient, kwargs[..i])
          + [(if Redirected(reg, translatable, lc, ambient, kwargs[i].0) then RewriteKey(lc, kwargs[i].0) else kwargs[i].0, kwargs[i].1)]
  {
    assert kwargs[..i + 1] == kwargs[..i] + [kwargs[i]];
  }

  /** No position of `a` begins an occurrence of `sep` in `a + sep + b` when `a` lacks the first character of `sep`. */
  lemma NoSeparatorIn(a: string, sep: string, b: string)
    requires |sep| > 0
    requires forall i :: 0 <= i < |a| ==> a[i] != sep[0]
    ensures forall j: nat :: j < |a| ==> !OccursAt(a + sep + b, sep, j)
  {
    forall j: nat | j < |a|
      ensures !OccursAt(a + sep + b, sep, j)
    {
      var s := a + sep + b;
      assert s[j] == a[j];
      if j + |sep| <= |s| {
        assert s[j..j + |sep|][0] == s[j];
      }
    }
  }

  /**
    The only double underscores of `lc + "__" + key` before `key` are the ones that
    separate, when `lc` followed by `_` has none.
   */
  lemma NoSeparatorInCode(lc: string, key: string)
    requires !Contains(lc + "_", "__")
    ensures forall j: nat :: j < |lc| ==> !OccursAt(lc + "__" + key, "__", j)
  {
    forall j: nat | j < |lc|
      ensures !OccursAt(lc + "__" + key, "__", j)
    {
      var s := lc + "__" + key;
      assert (lc + "_")[j..j + 2] == s[j..j + 2];
      assert !OccursAt(lc + "_", "__", j);
    }
  }

  /**
    A redirected key is the lookup path `translations`, then the locale, then the
    original path: Django walks into the overlay entry of `lc` and applies the
    original lookup there.
   */
  lemma RewrittenKeyPath(lc: string, key: string)
    requires !Contains(lc + "_", "__")
    ensures Split(RewriteKey(lc, key), "__") == ["translations", lc] + Split(key, "__")
    ensures RootName(RewriteKey(lc, key)) == "translations"
  {
    var rest := lc + "__" + key;
    assert Split(RewriteKey(lc, key), "__") == ["translations"] + Split(rest, "__") by {
      assert RewriteKey(lc, key) == "translations" + "__" + rest;
      NoSeparatorIn("translations", "__", rest);
      SplitAfter("translations", "__", rest);
    }
    CodeThenKey(lc, key);
  }

  /** A locale code without `__` followed by `__` and a key splits into the code and the key's pieces. */
  lemma CodeThenKey(lc: string, key: string)
    requires !Contains(lc + "_", "__")
    ensures Split(lc + "__" + key, "__") == [lc] + Split(key, "__")
  {
    NoSeparatorInCode(lc, key);
    SplitAfter(lc, "__", key);
  }

  /** Under the default locale `filter` passes every keyword predicate through unchanged. */
  lemma DefaultFilterUnchanged(reg: Registry, translatable: seq<string>, lc: string, ambient: string,
                               kwargs: seq<(string, Value)>)
    requires IsDefault(reg, lc, ambient)
    ensures FilterKwargs(reg, translatable, lc, ambient, kwargs) == kwargs
  {
  }

  /**
    After `filter` under a non-default locale no predicate starts with a
    translatable field: each one that did now runs through the overlay entry of
    `lc`, with its original path after it, and the others are untouched.
   */
  lemma FilterRedirectsTranslatable(reg: Registry, translatable: seq<string>, lc: string, ambient: string,
                                    kwargs: seq<(string, Value)>)
    requires !IsDefault(reg, lc, ambient)
    requires "translations" !in translatable
    requires !Contains(lc + "_", "__")
    ensures var r := FilterKwargs(reg, translatable, lc, ambient, kwargs);
      forall i :: 0 <= i < |r| ==> RootName(r[i].0) !in translatable
    ensures var r := FilterKwargs(reg, translatable, lc, ambient, kwargs);
      forall i :: 0 <= i < |r| && RootName(kwargs[i].0) in translatable ==>
        Split(r[i].0, "__") == ["translations", lc] + Split(kwargs[i].0, "__")
    ensures var r := FilterKwargs(reg, translatable, lc, ambient, kwargs);
      forall i :: 0 <= i < |r| && RootName(kwargs[i].0) !in translatable ==> r[i] == kwargs[i]
  {
    var r := FilterKwargs(reg, translatable, lc, ambient, kwargs);
    forall i | 0 <= i < |r| && RootName(kwargs[i].0) in translatable
      ensures RootName(r[i].0) !in translatable
      ensures Split(r[i].0, "__") == ["translations", lc] + Split(kwargs[i].0, "__")
    {
      RewrittenKeyPath(lc, kwargs[i].0);
    }
  }

  /** The key of the `has_key` restriction starts with the overlay column itself. */
  lemma HasKeyRoot()
    ensures RootName("translations__has_key") == "translations"
  {
    assert "translations__has_key" == "translations" + "__" + "has_key";
    NoSeparatorIn("translations", "__", "has_key");
    SplitAfter("translations", "__", "has_key");
  }

  /** The `translations__has_key` restriction goes through `filter` unchanged unless the overlay column is itself translatable. */
  lemma HasKeyUnchanged(reg: Registry, translatable: seq<string>, lc: string, ambient: string)
    requires "translations" !in translatable
    ensures FilterKwargs(reg, translatable, lc, ambient, [("translations__has_key", Str(lc))])
         == [("translations__has_key", Str(lc))]
  {
    HasKeyRoot();
  }

  /** The locale `order_by_json_path` sorts by: the argument, unvalidated, else the query's, else the resolved ambient one. */
  function OrderCode(reg: Registry, code: string, queryCode: string, ambient: string): (r: string)
    ensures code != "" ==> r == code
    ensures code == "" && queryCode != "" ==> r == queryCode
    ensures code == "" && queryCode == "" ==> r == Resolve(reg, "", ambient)
    ensures reg.Valid() ==> r != ""
  {
    if code != "" then code else if queryCode != "" then queryCode else Resolve(reg, code, ambient)
  }

  /** The PostgreSQL path literal `'{%s,%s}' % (code, path)`. */
  function JsonPath(code: string, path: string): string
  {
    "{" + code + "," + path + "}"
  }

  /**
    The path literal is braced, and between the braces its comma-separated
    elements are the locale followed by the elements of `path`, when the code has no
    comma.
   */
  lemma JsonPathElements(code: string, path: string)
    requires forall i :: 0 <= i < |code| ==> code[i] != ','
    ensures var p := JsonPath(code, path);
      |p| >= 3 && p[0] == '{' && p[|p| - 1] == '}' &&
      Split(p[1..|p| - 1], ",") == [code] + Split(path, ",")
  {
    var p := JsonPath(code, path);
    assert p[1..|p| - 1] == code + "," + path;
    NoSeparatorIn(code, ",", path);
    SplitAfter(code, ",", path);
  }

  /** The ordering term of `order_by_json_path`: descending exactly when `order` is `'desc'`. */
  function JsonPathOrder(reg: Registry, queryCode: string, path: string, code: string, order: string, ambient: string): (r: Ordering)
    ensures r.descending <==> order == "desc"
    ensures r.path == JsonPath(OrderCode(reg, code, queryCode, ambient), path)
  {
    JsonPathOrdering(JsonPath(OrderCode(reg, code, queryCode, ambient), path), order == "desc")
  }

  class TranslationQuerySet {
    const reg: Registry
    /** `self.model._meta.translatable_fields`. */
    const translatable: seq<string>
    var languageCode: string
    var filters: seq<FilterCall>
    var ordering: Option<Ordering>

    /** The query set as a value. */
    function State(): Query
      reads this
    {
      Query(languageCode, filters, ordering)
    }

    /** `__init__`: a query set starts at the resolved ambient locale. */
    constructor (reg: Registry, translatable: seq<string>, ambient: string)
      ensures this.reg == reg && this.translatable == translatable
      ensures State() == Query(Resolve(reg, "", ambient), [], None)
    {
      this.reg := reg;
      this.translatable := translatable;
      languageCode := Resolve(reg, "", ambient);
      filters := [];
      ordering := None;
    }

    /** `_clone`: a new query set with the same filters and ordering that keeps `_language_code`. */
    method Clone(ambient: string) returns (c: TranslationQuerySet)
      ensures fresh(c)
      ensures c.reg == reg && c.translatable == translatable
      ensures c.State() == State()
    {
      c := new TranslationQuerySet(reg, translatable, ambient);
      c.languageCode := languageCode;
      c.filters := filters;
      c.ordering := ordering;
    }

    /** `language_or_default(code)`: the query set itself, switched to the resolved code. */
    method LanguageOrDefault(code: string, ambient: string) returns (r: TranslationQuerySet)
      modifies this
      ensures r == this
      ensures State() == old(State()).(languageCode := Resolve(reg, code, ambient))
    {
      languageCode := Resolve(reg, code, ambient);
      r := this;
    }

    /**
      `filter(*args, **kwargs)`: a clone carrying one more filter call, whose keyword
      keys are rewritten one by one.
     */
    method Filter(args: seq<string>, kwargs: seq<(string, Value)>, ambient: string) returns (r: TranslationQuerySet)
      ensures fresh(r)
      ensures r.reg == reg && r.translatable == translatable
      ensures r.State() == State().(filters := filters + [FilterCall(args, FilterKwargs(reg, translatable, languageCode, ambient, kwargs))])
    {
      var rewritten: seq<(string, Value)> := [];
      var isDefault := IsDefault(reg, languageCode, ambient);
      for i := 0 to |kwargs|
        invariant rewritten == FilterKwargs(reg, translatable, languageCode, ambient, kwargs[..i])
      {
        var (key, value) := kwargs[i];
        if !isDefault && Split(key, "__")[0] in translatable {
          key := "translations__" + languageCode + "__" + key;
        }
        FilterKwargsStep(reg, translatable, languageCode, ambient, kwargs, i);
        rewritten := rewritten + [(key, value)];
      }
      assert kwargs[..|kwargs|] == kwargs;
      r := Clone(ambient);
      r.filters := r.filters + [FilterCall(args, rewritten)];
    }

    /**
      `language(code)`: the query set switches to the resolved code; for a
      non-default one the result is a clone restricted to records with an overlay
      entry for it.
     */
    method Language(code: string, ambient: string) returns (r: TranslationQuerySet)
      modifies this
      ensures var lc := Resolve(reg, code, ambient);
        State() == old(State()).(languageCode := Resolve(reg, lc, ambient))
      ensures reg.Valid() ==> languageCode == Resolve(reg, code, ambient)
      ensures var lc := Resolve(reg, code, ambient);
        IsDefault(reg, lc, ambient) ==> r == this
      ensures var lc := Resolve(reg, code, ambient);
        !IsDefault(reg, lc, ambient) ==>
          fresh(r) && r.reg == reg && r.translatable == translatable &&
          r.State() == State().(filters := filters + [FilterCall([], FilterKwargs(reg, translatable, Resolve(reg, lc, ambient), ambient,
                                                                                [("translations__has_key", Str(lc))]))])
    {
      var lc := Resolve(reg, code, ambient);
      languageCode := lc;
      var results := LanguageOrDefault(lc, ambient);
      if reg.Valid() {
        ResolveIdempotent(reg, code, ambient, ambient);
      }
      if IsDefault(reg, lc, ambient) {
        return results;
      }
      r := results.Filter([], [("translations__has_key", Str(lc))], ambient);
    }

    /** `order_by_json_path(path, code, order)`: a clone whose ordering is replaced by the JSON-path term. */
    method OrderByJsonPath(path: string, code: string, order: string, ambient: string) returns (r: TranslationQuerySet)
      ensures fresh(r)
      ensures r.reg == reg && r.translatable == translatable
      ensures r.State() == State().(ordering := Some(JsonPathOrder(reg, languageCode, path, code, order, ambient)))
    {
      var lc := if code != "" then code else if languageCode != "" then languageCode else Resolve(reg, code, ambient);
      var jsonPath := "{" + lc + "," + path + "}";
      r := Clone(ambient);
      r.ordering := Some(JsonPathOrdering(jsonPath, order == "desc"));
    }

    /**
      `TranslationModelIterable.__iter__`: every record the query yields, in order,
      selects the query's locale when that is truthy. A record yielded twice ends
      as if it had been selected once, since selecting is idempotent.
     */
    method Iterate(objs: seq<TranslatableRecord>, ambient: string)
      modifies set o | o in objs
      ensures forall o :: o in objs ==>
        o.State() == if languageCode != "" then SelectLanguage(o.cfg, o.schema, old(o.State()), languageCode, ambient)
                     else old(o.State())
    {
      if languageCode == "" {
        return;
      }
      for i := 0 to |objs|
        invariant forall o :: o in objs ==>
          o.State() == if o in objs[..i] then SelectLanguage(o.cfg, o.schema, old(o.State()), languageCode, ambient)
                       else old(o.State())
      {
        var obj := objs[i];
        ghost var before := obj.State();
        obj.Language(languageCode, ambient);
        if obj in objs[..i] {
          SelectIdempotent(obj.cfg, obj.schema, old(obj.State()), languageCode, ambient);
        }
        assert forall o :: o in objs[..i + 1] <==> o in objs[..i] || o == obj;
      }
      assert objs[..|objs|] == objs;
    }
  }

  class TranslationManager {
    const reg: Registry
    const translatable: seq<string>

    constructor (reg: Registry, translatable: seq<string>)
      ensures this.reg == reg && this.translatable == translatable
    {
      this.reg := reg;
      this.translatable := translatable;
    }

    /**
      `get_queryset(code)`: a new query set at the resolved code. `qs.language` is
      called for its side effect only, so no `has_key` restriction is kept.
     */
    method GetQueryset(code: string, ambient: string) returns (qs: TranslationQuerySet)
      ensures fresh(qs)
      ensures qs.reg == reg && qs.translatable == translatable
      ensures qs.State() == Query(Resolve(reg, Resolve(reg, code, ambient), ambient), [], None)
    {
      qs := new TranslationQuerySet(reg, translatable, ambient);
      var lc := Resolve(reg, code, ambient);
      var ignored := qs.Language(lc, ambient);
    }

    /** `language_or_default(code)` of the manager. */
    method LanguageOrDefault(code: string, ambient: string) returns (r: TranslationQuerySet)
      ensures fresh(r)
      ensures reg.Valid() ==> r.State() == Query(Resolve(reg, code, ambient), [], None)
    {
      var lc := Resolve(reg, code, ambient);
      var qs := GetQueryset(lc, ambient);
      r := qs.LanguageOrDefault(lc, ambient);
      if reg.Valid() {
        ResolveIdempotent(reg, code, ambient, ambient);
      }
    }

    /** `language(code)` of the manager. */
    method Language(code: string, ambient: string) returns (r: TranslationQuerySet)
      ensures fresh(r)
      ensures reg.Valid() && IsDefault(reg, code, ambient) ==> r.State() == Query(reg.defaultCode, [], None)
      ensures reg.Valid() && !IsDefault(reg, code, ambient) ==>
        var lc := Resolve(reg, code, ambient);
        r.State() == Query(lc, [FilterCall([], FilterKwargs(reg, translatable, lc, ambient, [("translations__has_key", Str(lc))]))], None)
    {
      var lc := Resolve(reg, code, ambient);
      var qs := GetQueryset(lc, ambient);
      if reg.Valid() {
        ResolveIdempotent(reg, code, ambient, ambient);
        if !IsDefault(reg, code, ambient) {
          NonDefaultIsRegistered(reg, code, ambient);
        }
      }
      r := qs.Language(lc, ambient);
    }

    /** `order_by_json_path(path, code, order)` of the manager. */
    method OrderByJsonPath(path: string, code: string, order: string, ambient: string) returns (r: TranslationQuerySet)
      ensures fresh(r)
      ensures r.State().filters == [] && r.State().ordering.Some?
      ensures r.State().ordering.value.descending <==> order == "desc"
      ensures reg.Valid() ==>
        r.State() == Query(Resolve(reg, code, ambient), [],
                           Some(JsonPathOrder(reg, Resolve(reg, code, ambient), path, code, order, ambient)))
    {
      var qs := GetQueryset(code, ambient);
      if reg.Valid() {
        ResolveIdempotent(reg, code, ambient, ambient);
      }
      r := qs.OrderByJsonPath(path, code, order, ambient);
    }
  }
}
