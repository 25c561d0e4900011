/**
  The translation overlay of a record (`TranslatableModel` in json_trans/models.py)
  as functions over the record's state. The class in records.dfy updates its
  fields step by step and is proved to end in the states these functions give.

  A record keeps its default-locale values in its native fields and every other
  locale's values in `translations`, a document from locale code to field name to
  value. Its transient state is `_language_code` and the optional translated view
  `_translated` that field reads consult.
 */
module Overlay {
  import opened Wrappers
  import opened Collections
  import opened Locale
  import opened Fields

  /** The values one locale holds: field name to value. */
  type Entry = map<string, Value>

  /** The `translations` document: locale code to entry. */
  type Translations = map<string, Entry>

  /** Class-level settings of a translatable model: the locale registry and `fallback`. */
  datatype Config = Config(reg: Registry, fallback: bool)

  /**
    The state of one record: its native attribute values, `translations` (`None`
    is a null column), `_language_code` and `_translated`.
   */
  datatype RecordState = RecordState(
    native: map<string, Value>,
    translations: Option<Translations>,
    languageCode: string,
    translated: Option<Entry>)

  /** How `translate` ends: normally, or with `NonTranslatableFieldError(fieldname)`. */
  datatype Outcome = Ok | NonTranslatableFieldError(fieldname: string)

  /**
    What a field read returns: the value itself, an `ImageFieldFile` / `FieldFile`
    wrapping the stored name, or the `FieldDoesNotExist` that `_meta.get_field` raises
    for a name that is no model field.
   */
  datatype ReadResult =
    | Raw(value: Value)
    | ImageFieldFile(name: Value)
    | FieldFile(name: Value)
    | FieldDoesNotExist(fieldName: string)

  /** The read result for a view value of a field of the given class. */
  function Wrap(kind: FieldKind, v: Value): ReadResult
  {
    match kind
    case ImageField => ImageFieldFile(v)
    case FileField => FieldFile(v)
    case PlainField => Raw(v)
  }

  /**
    A translatable field read from the view: the model field is looked up first, so a
    name that is no model field raises; otherwise the value is wrapped by the field's class.
   */
  function ReadAs(fields: seq<FieldSpec>, name: string, v: Value): (r: ReadResult)
    ensures r.FieldDoesNotExist? <==> forall i :: 0 <= i < |fields| ==> fields[i].name != name
    ensures r.FieldDoesNotExist? ==> r.fieldName == name
    ensures forall i: nat :: FirstNamed(fields, name, i) ==> r == Wrap(fields[i].kind, v)
  {
    match KindOf(fields, name)
    case None => FieldDoesNotExist(name)
    case Some(kind) => Wrap(kind, v)
  }

  // ---------------------------------------------------------------------------
  // Reading a field

  /**
    `__getattribute__` for a field `name`: a non-translatable field, or any field
    while the AMBIENT locale is the default one, reads its native value; otherwise a
    translated view that defines the field supplies the value (wrapped for file and
    image fields, and `FieldDoesNotExist` raised when the name is no model field);
    otherwise the native value is read, whatever `fallback` says.
   */
  function GetField(cfg: Config, schema: Schema, st: RecordState, name: string, ambient: string): (r: ReadResult)
    requires name in st.native
    ensures name !in schema.translatable || ambient == cfg.reg.defaultCode ==> r == Raw(st.native[name])
    ensures st.translated.None? ==> r == Raw(st.native[name])
    ensures r != Raw(st.native[name]) ==>
      st.translated.Some? && name in st.translated.value &&
      r == ReadAs(schema.fields, name, st.translated.value[name])
    ensures (name in schema.translatable && ambient != cfg.reg.defaultCode &&
             st.translated.Some? && name in st.translated.value) ==>
      r == ReadAs(schema.fields, name, st.translated.value[name])
    ensures r.FieldDoesNotExist? <==>
      name in schema.translatable && ambient != cfg.reg.defaultCode &&
      st.translated.Some? && name in st.translated.value &&
      forall i :: 0 <= i < |schema.fields| ==> schema.fields[i].name != name
  {
    if name !in schema.translatable || cfg.reg.defaultCode == ambient then Raw(st.native[name])
    else if st.translated.Some? && name in st.translated.value then
      ReadAs(schema.fields, name, st.translated.value[name])
    else Raw(st.native[name])
  }

  // ---------------------------------------------------------------------------
  // Selecting a locale

  /** `translations` holds an entry for `lc`. */
  predicate Stored(t: Option<Translations>, lc: string)
  {
    t.Some? && lc in t.value
  }

  /** `(self.translations or {}).get(lc, {})`: the stored entry, or a fresh empty one. */
  function StoredEntry(t: Option<Translations>, lc: string): Entry
  {
    if Stored(t, lc) then t.value[lc] else map[]
  }

  /** `populate_translations`: the entry with every translatable field it lacks set to `''`. */
  function Padded(entry: Entry, translatable: seq<string>): (r: Entry)
    ensures r.Keys == entry.Keys + (set f | f in translatable)
    ensures forall k :: k in entry ==> r[k] == entry[k]
    ensures forall k :: k in r && k !in entry ==> r[k] == Blank
  {
    map k | k in entry.Keys + (set f | f in translatable) :: if k in entry then entry[k] else Blank
  }

  /** `reset_language`: no translated view, and the ambient locale as `_language_code`. */
  function Reset(st: RecordState, ambient: string): RecordState
  {
    st.(translated := None, languageCode := ambient)
  }

  /**
    `language(code)`. After a reset, `_language_code` becomes the resolved code. For
    the default locale there is no view. Otherwise the stored entry is padded, in
    place when it is stored, and becomes the view, unless it is empty while
    `fallback` is on, in which case there is no view.
   */
  function SelectLanguage(cfg: Config, schema: Schema, st: RecordState, code: string, ambient: string): (r: RecordState)
    ensures r.native == st.native
    ensures r.languageCode == Resolve(cfg.reg, code, ambient)
    ensures IsDefault(cfg.reg, code, ambient) ==> r.translated.None? && r.translations == st.translations
    ensures var lc := Resolve(cfg.reg, code, ambient);
      !IsDefault(cfg.reg, code, ambient) ==>
        (r.translated.None? <==> cfg.fallback && StoredEntry(st.translations, lc) == map[])
    ensures r.translated.Some? ==> forall f :: f in schema.translatable ==> f in r.translated.value
    ensures var lc := Resolve(cfg.reg, code, ambient);
      r.translated.Some? ==> r.translated.value == Padded(StoredEntry(st.translations, lc), schema.translatable)
    ensures var lc := Resolve(cfg.reg, code, ambient);
      r.translated.Some? ==>
        forall k :: k in StoredEntry(st.translations, lc) ==>
          k in r.translated.value && r.translated.value[k] == StoredEntry(st.translations, lc)[k]
    ensures var lc := Resolve(cfg.reg, code, ambient);
      r.translations ==
        if r.translated.Some? && Stored(st.translations, lc)
        then Some(st.translations.value[lc := r.translated.value])
        else st.translations
  {
    var lc := Resolve(cfg.reg, code, ambient);
    var st' := Reset(st, ambient).(languageCode := lc);
    if IsDefault(cfg.reg, code, ambient) then st'
    else
      var entry := StoredEntry(st.translations, lc);
      if entry != map[] || !cfg.fallback then
        var padded := Padded(entry, schema.translatable);
        st'.(translated := Some(padded),
             translations := if Stored(st.translations, lc) then Some(st.translations.value[lc := padded]) else st.translations)
      else st'
  }

  /**
    `language_or_none(code)`: the flag says whether the record is returned (after
    `language` with the resolved code) or `None` is, leaving the record unchanged.
   */
  function LanguageOrNone(cfg: Config, schema: Schema, st: RecordState, code: string, ambient: string): (r: (RecordState, bool))
    ensures var lc := Resolve(cfg.reg, code, ambient);
      !r.1 <==> !IsDefault(cfg.reg, lc, ambient) && StoredEntry(st.translations, lc) == map[]
    ensures r.1 ==> r.0 == SelectLanguage(cfg, schema, st, Resolve(cfg.reg, code, ambient), ambient)
    ensures !r.1 ==> r.0 == st
  {
    var lc := Resolve(cfg.reg, code, ambient);
    if IsDefault(cfg.reg, lc, ambient) then (SelectLanguage(cfg, schema, st, lc, ambient), true)
    else if st.translations.None? || st.translations.value == map[] || StoredEntry(st.translations, lc) == map[] then (st, false)
    else (SelectLanguage(cfg, schema, st, lc, ambient), true)
  }

  /**
    `language_as_dict(code)`: for the default locale the translatable native values;
    otherwise the stored entry's translatable fields whose values are truthy. A falsy
    code means the record's own `_language_code`.
   */
  function LanguageAsDict(cfg: Config, schema: Schema, st: RecordState, code: string, ambient: string): (r: map<string, Value>)
    ensures forall k :: k in r ==> k in schema.translatable
    ensures var lc := Resolve(cfg.reg, if code != "" then code else st.languageCode, ambient);
      IsDefault(cfg.reg, lc, ambient) ==>
        forall k :: k in r <==> k in st.native && k in schema.translatable
    ensures var lc := Resolve(cfg.reg, if code != "" then code else st.languageCode, ambient);
      IsDefault(cfg.reg, lc, ambient) ==> forall k :: k in r ==> r[k] == st.native[k]
    ensures var lc := Resolve(cfg.reg, if code != "" then code else st.languageCode, ambient);
      var entry := StoredEntry(st.translations, lc);
      !IsDefault(cfg.reg, lc, ambient) ==>
        forall k :: k in r <==> k in entry && Truthy(entry[k]) && k in schema.translatable
    ensures var lc := Resolve(cfg.reg, if code != "" then code else st.languageCode, ambient);
      var entry := StoredEntry(st.translations, lc);
      !IsDefault(cfg.reg, lc, ambient) ==> forall k :: k in r ==> r[k] == entry[k]
  {
    var requested := if code != "" then code else st.languageCode;
    var lc := Resolve(cfg.reg, requested, ambient);
    if IsDefault(cfg.reg, lc, ambient) then
      map k | k in st.native && k in schema.translatable :: st.native[k]
    else if st.translations.None? || st.translations.value == map[] then
      map[]
    else
      var entry := StoredEntry(st.translations, lc);
      map k | k in entry && Truthy(entry[k]) && k in schema.translatable :: entry[k]
  }

  // ---------------------------------------------------------------------------
  // Writing translations

  /** The position of the first keyword naming a non-translatable field, or the number of keywords. */
  function FirstUntranslatable(kw: seq<(string, Value)>, translatable: seq<string>): (n: nat)
    ensures n <= |kw|
    ensures forall i :: 0 <= i < n ==> kw[i].0 in translatable
    ensures n < |kw| ==> kw[n].0 !in translatable
  {
    if kw == [] then 0
    else if kw[0].0 !in translatable then 0
    else
      var n := FirstUntranslatable(kw[1..], translatable);
      assert forall i :: 1 <= i < n + 1 ==> kw[i] == kw[1..][i - 1];
      n + 1
  }

  /** The value the overlay receives: an upload is stored (`fs.save`, `fs.url`) and replaced by its URL. */
  function StoredValue(v: Value, store: Upload -> string): Value
  {
    if v.File? then Str(store(v.upload)) else v
  }

  /** The keyword arguments with each value as the overlay receives it. */
  function StoredValues(kw: seq<(string, Value)>, store: Upload -> string): (r: seq<(string, Value)>)
    ensures |r| == |kw|
    ensures forall i :: 0 <= i < |kw| ==> r[i] == (kw[i].0, StoredValue(kw[i].1, store))
    ensures Keys(r) == Keys(kw)
    ensures forall i :: 0 <= i < |r| ==> !r[i].1.File?
    ensures forall i :: 0 <= i < |r| && !kw[i].1.File? ==> r[i].1 == kw[i].1
  {
    seq(|kw|, i requires 0 <= i < |kw| => (kw[i].0, StoredValue(kw[i].1, store)))
  }

  /** `self.translations = self.translations or {}` followed by making sure an entry for `lc` exists. */
  function Prepared(t: Option<Translations>, lc: string): (r: Translations)
    ensures lc in r
    ensures t.Some? ==> r.Keys == t.value.Keys + {lc}
    ensures t.Some? ==> forall c :: c in t.value ==> r[c] == t.value[c]
  {
    var base := if t.Some? then t.value else map[];
    base[lc := if lc in base then base[lc] else map[]]
  }

  /**
    `translate(code, **kw)`. The resolved code becomes `_language_code`. The keywords
    are applied in order, to the native fields for the default locale and to the
    overlay entry of the code otherwise (an entry is created for it first, even
    when there are no keywords); the first keyword naming a non-translatable field
    raises, after the earlier ones took effect. On success a truthy code is then
    selected with `language`.
   */
  function Translate(cfg: Config, schema: Schema, store: Upload -> string, st: RecordState,
                     code: string, kw: seq<(string, Value)>, ambient: string): (r: (RecordState, Outcome))
    ensures r.0.languageCode == Resolve(cfg.reg, code, ambient)
    ensures r.1 == Ok <==> forall i :: 0 <= i < |kw| ==> kw[i].0 in schema.translatable
    ensures r.1.NonTranslatableFieldError? ==>
      r.0.translated == st.translated &&
      exists n :: 0 <= n < |kw| && kw[n].0 == r.1.fieldname && kw[n].0 !in schema.translatable &&
        forall i :: 0 <= i < n ==> kw[i].0 in schema.translatable
  {
    var lc := Resolve(cfg.reg, code, ambient);
    var n := FirstUntranslatable(kw, schema.translatable);
    var written := Written(cfg, schema, store, st, lc, kw[..n], ambient);
    if n < |kw| then (written, NonTranslatableFieldError(kw[n].0))
    else if code != "" then (SelectLanguage(cfg, schema, written, code, ambient), Ok)
    else (written, Ok)
  }

  /** The state after `_language_code` is set to `lc` and the translatable keywords `applied` are written. */
  function Written(cfg: Config, schema: Schema, store: Upload -> string, st: RecordState,
                   lc: string, applied: seq<(string, Value)>, ambient: string): (r: RecordState)
    ensures r.languageCode == lc && r.translated == st.translated
    ensures IsDefault(cfg.reg, lc, ambient) ==> r.translations == st.translations
    ensures !IsDefault(cfg.reg, lc, ambient) ==>
      r.native == st.native && r.translations.Some? && lc in r.translations.value &&
      (st.translations.Some? ==> r.translations.value.Keys == st.translations.value.Keys + {lc})
  {
    if IsDefault(cfg.reg, lc, ambient) then
      st.(languageCode := lc, native := Assign(st.native, applied))
    else
      var t := Prepared(st.translations, lc);
      st.(languageCode := lc, translations := Some(t[lc := Assign(t[lc], StoredValues(applied, store))]))
  }

  // ---------------------------------------------------------------------------
  // Saving

  /**
    `save`, state part: the locale is remembered, the state reset, a falsy
    `translations` becomes `{}`, and after the write the remembered locale is
    selected again.
   */
  function Save(cfg: Config, schema: Schema, st: RecordState, ambient: string): (r: RecordState)
    ensures r.translations.Some?
    ensures r.native == st.native
    ensures r.languageCode == Resolve(cfg.reg, st.languageCode, ambient)
    ensures st.translations.None? || st.translations.value == map[] ==> r.translations == Some(map[])
    ensures st.translations.Some? ==>
      forall c, k :: c in st.translations.value && k in st.translations.value[c] ==>
        c in r.translations.value && k in r.translations.value[c] &&
        r.translations.value[c][k] == st.translations.value[c][k]
    ensures var lc := Resolve(cfg.reg, st.languageCode, ambient);
      r.translated.None? <==>
        IsDefault(cfg.reg, st.languageCode, ambient) || (cfg.fallback && StoredEntry(st.translations, lc) == map[])
    ensures var lc := Resolve(cfg.reg, st.languageCode, ambient);
      r.translated.Some? ==> r.translated.value == Padded(StoredEntry(st.translations, lc), schema.translatable)
    ensures st.translations.Some? ==> r.translations.value.Keys == st.translations.value.Keys
    ensures var lc := Resolve(cfg.reg, st.languageCode, ambient);
      st.translations.Some? ==>
        forall c :: c in st.translations.value && c != lc ==> r.translations.value[c] == st.translations.value[c]
    ensures var lc := Resolve(cfg.reg, st.languageCode, ambient);
      Stored(st.translations, lc) && r.translated.Some? ==> r.translations.value[lc] == r.translated.value
  {
    var remembered := st.languageCode;
    var reset := Reset(st, ambient);
    var prepared :=
      if reset.translations.None? || reset.translations.value == map[] then reset.(translations := Some(map[]))
      else reset;
    assert StoredEntry(prepared.translations, Resolve(cfg.reg, remembered, ambient))
        == StoredEntry(st.translations, Resolve(cfg.reg, remembered, ambient));
    SelectKeepsEntries(cfg, schema, prepared, remembered, ambient);
    SelectLanguage(cfg, schema, prepared, remembered, ambient)
  }

  // ---------------------------------------------------------------------------
  // Properties

  /** The overlay invariant: it only holds registered codes other than the default one. */
  predicate WellFormed(reg: Registry, t: Option<Translations>)
  {
    t.Some? ==> forall c :: c in t.value ==> c in reg.Codes() && c != reg.defaultCode
  }

  /**
    For the default locale `translate` writes the applied keyword values to the
    native fields and leaves `translations` as it was.
   */
  lemma TranslateDefaultWritesNative(cfg: Config, schema: Schema, store: Upload -> string, st: RecordState,
                                     code: string, kw: seq<(string, Value)>, ambient: string)
    requires IsDefault(cfg.reg, Resolve(cfg.reg, code, ambient), ambient)
    ensures var r := Translate(cfg, schema, store, st, code, kw, ambient).0;
      var n := FirstUntranslatable(kw, schema.translatable);
      r.native == Assign(st.native, kw[..n]) && r.translations == st.translations
  {
    var lc := Resolve(cfg.reg, code, ambient);
    var n := FirstUntranslatable(kw, schema.translatable);
    var written := Written(cfg, schema, store, st, lc, kw[..n], ambient);
    if n == |kw| && code != "" {
      ResolveOfDefault(cfg.reg, code, ambient);
    }
  }

  /** A code whose resolution is the default locale itself counts as the default. */
  lemma ResolveOfDefault(reg: Registry, code: string, ambient: string)
    requires IsDefault(reg, Resolve(reg, code, ambient), ambient)
    ensures IsDefault(reg, code, ambient)
  {
  }

  /**
    For any other locale `translate` leaves the native fields alone, creates the
    code's overlay entry if absent, stores every applied keyword value there (an
    upload as its URL, later keywords winning) and leaves other locales' entries
    as they were.
   */
  lemma TranslateOtherWritesOverlay(cfg: Config, schema: Schema, store: Upload -> string, st: RecordState,
                                    code: string, kw: seq<(string, Value)>, ambient: string, i: nat)
    requires !IsDefault(cfg.reg, Resolve(cfg.reg, code, ambient), ambient)
    requires DistinctKeys(kw)
    requires i < FirstUntranslatable(kw, schema.translatable)
    ensures var r := Translate(cfg, schema, store, st, code, kw, ambient).0;
      var lc := Resolve(cfg.reg, code, ambient);
      && r.native == st.native
      && r.translations.Some? && lc in r.translations.value
      && kw[i].0 in r.translations.value[lc]
      && r.translations.value[lc][kw[i].0] == StoredValue(kw[i].1, store)
      && (st.translations.Some? ==>
            forall c :: c in st.translations.value && c != lc ==>
              c in r.translations.value && r.translations.value[c] == st.translations.value[c])
  {
    var lc := Resolve(cfg.reg, code, ambient);
    var n := FirstUntranslatable(kw, schema.translatable);
    var written := Written(cfg, schema, store, st, lc, kw[..n], ambient);
    WrittenOtherWritesOverlay(cfg, schema, store, st, lc, kw[..n], ambient, i);
    if n == |kw| && code != "" {
      assert Resolve(cfg.reg, code, ambient) == lc;
      SelectKeepsEntries(cfg, schema, written, code, ambient);
    }
  }

  /** The writing part of `translate` for a non-default locale, before any `language` call. */
  lemma WrittenOtherWritesOverlay(cfg: Config, schema: Schema, store: Upload -> string, st: RecordState,
                                  lc: string, applied: seq<(string, Value)>, ambient: string, i: nat)
    requires !IsDefault(cfg.reg, lc, ambient)
    requires DistinctKeys(applied)
    requires i < |applied|
    ensures var r := Written(cfg, schema, store, st, lc, applied, ambient);
      && r.native == st.native
      && r.translations.Some? && lc in r.translations.value
      && applied[i].0 in r.translations.value[lc]
      && r.translations.value[lc][applied[i].0] == StoredValue(applied[i].1, store)
      && (st.translations.Some? ==>
            forall c :: c in st.translations.value && c != lc ==>
              c in r.translations.value && r.translations.value[c] == st.translations.value[c])
  {
    var t := Prepared(st.translations, lc);
    var sv := StoredValues(applied, store);
    assert DistinctKeys(sv) by {
      forall a, b | 0 <= a < b < |sv| ensures sv[a].0 != sv[b].0 {
        assert sv[a].0 == applied[a].0 && sv[b].0 == applied[b].0;
      }
    }
    AssignDistinct(t[lc], sv, i);
  }

  /**
    What `translate` does for a non-default locale whatever the keywords, none or a
    failing first one included: the native fields stay as they were, the code's
    overlay entry exists afterwards, other locales' entries are untouched, and the
    stored values of fields no keyword names are kept.
   */
  lemma TranslateOtherKeepsRest(cfg: Config, schema: Schema, store: Upload -> string, st: RecordState,
                                code: string, kw: seq<(string, Value)>, ambient: string)
    requires !IsDefault(cfg.reg, Resolve(cfg.reg, code, ambient), ambient)
    ensures var r := Translate(cfg, schema, store, st, code, kw, ambient).0;
      var lc := Resolve(cfg.reg, code, ambient);
      && r.native == st.native
      && r.translations.Some? && lc in r.translations.value
      && (st.translations.Some? ==>
            forall c :: c in st.translations.value && c != lc ==>
              c in r.translations.value && r.translations.value[c] == st.translations.value[c])
      && (Stored(st.translations, lc) ==>
            forall k :: k in st.translations.value[lc] && k !in Keys(kw) ==>
              k in r.translations.value[lc] && r.translations.value[lc][k] == st.translations.value[lc][k])
  {
    var lc := Resolve(cfg.reg, code, ambient);
    var n := FirstUntranslatable(kw, schema.translatable);
    var written := Written(cfg, schema, store, st, lc, kw[..n], ambient);
    WrittenOtherKeepsRest(cfg, schema, store, st, lc, kw, n, ambient);
    if n == |kw| && code != "" {
      assert Resolve(cfg.reg, code, ambient) == lc;
      SelectKeepsEntries(cfg, schema, written, code, ambient);
    }
  }

  /** The writing part of `translate` for a non-default locale keeps what `TranslateOtherKeepsRest` says it keeps. */
  lemma WrittenOtherKeepsRest(cfg: Config, schema: Schema, store: Upload -> string, st: RecordState,
                              lc: string, kw: seq<(string, Value)>, n: nat, ambient: string)
    requires !IsDefault(cfg.reg, lc, ambient)
    requires n <= |kw|
    ensures var r := Written(cfg, schema, store, st, lc, kw[..n], ambient);
      && r.native == st.native
      && r.translations.Some? && lc in r.translations.value
      && (st.translations.Some? ==>
            forall c :: c in st.translations.value && c != lc ==>
              c in r.translations.value && r.translations.value[c] == st.translations.value[c])
      && (Stored(st.translations, lc) ==>
            forall k :: k in st.translations.value[lc] && k !in Keys(kw) ==>
              k in r.translations.value[lc] && r.translations.value[lc][k] == st.translations.value[lc][k])
  {
    var t := Prepared(st.translations, lc);
    var sv := StoredValues(kw[..n], store);
    if Stored(st.translations, lc) {
      forall k | k in st.translations.value[lc] && k !in Keys(kw)
        ensures k in Assign(t[lc], sv) && Assign(t[lc], sv)[k] == st.translations.value[lc][k]
      {
        assert forall i :: 0 <= i < |sv| ==> sv[i].0 == kw[i].0 && kw[i].0 in Keys(kw);
        AssignKeepsOthers(t[lc], sv, k);
      }
    }
  }

  /**
    With `fallback` off, a translatable field the selected entry lacks reads as `''`
    while a non-default locale is ambient.
   */
  lemma SelectedMissingFieldReadsBlank(cfg: Config, schema: Schema, st: RecordState, code: string,
                                       ambient: string, name: string, reader: string)
    requires !cfg.fallback
    requires !IsDefault(cfg.reg, code, ambient)
    requires name in schema.translatable && name in st.native
    requires name !in StoredEntry(st.translations, Resolve(cfg.reg, code, ambient))
    requires reader != cfg.reg.defaultCode
    ensures GetField(cfg, schema, SelectLanguage(cfg, schema, st, code, ambient), name, reader)
         == ReadAs(schema.fields, name, Blank)
  {
    var r := SelectLanguage(cfg, schema, st, code, ambient);
    assert r.translated.Some?;
    assert name in r.translated.value;
  }

  /**
    `language` leaves the native fields alone and keeps every stored overlay value:
    it only adds blank fields to the entry of the locale it selects.
   */
  lemma SelectKeepsEntries(cfg: Config, schema: Schema, st: RecordState, code: string, ambient: string)
    ensures var r := SelectLanguage(cfg, schema, st, code, ambient);
      && r.native == st.native
      && (st.translations.Some? ==> r.translations.Some? && r.translations.value.Keys == st.translations.value.Keys)
      && (st.translations.Some? ==>
            forall c :: c in st.translations.value && c != Resolve(cfg.reg, code, ambient) ==>
              r.translations.value[c] == st.translations.value[c])
      && (st.translations.Some? ==>
            forall c, k :: c in st.translations.value && k in st.translations.value[c] ==>
              k in r.translations.value[c] && r.translations.value[c][k] == st.translations.value[c][k])
  {
  }

  /** Re-selecting the locale a record was just switched to changes nothing. */
  lemma SelectIdempotent(cfg: Config, schema: Schema, st: RecordState, code: string, ambient: string)
    ensures var once := SelectLanguage(cfg, schema, st, code, ambient);
      SelectLanguage(cfg, schema, once, code, ambient) == once
  {
    var lc := Resolve(cfg.reg, code, ambient);
    var once := SelectLanguage(cfg, schema, st, code, ambient);
    if !IsDefault(cfg.reg, code, ambient) {
      var entry := StoredEntry(st.translations, lc);
      if Stored(st.translations, lc) && once.translated.Some? {
        var padded := Padded(entry, schema.translatable);
        assert StoredEntry(once.translations, lc) == padded;
        assert Padded(padded, schema.translatable) == padded;
        assert once.translations.value[lc := padded] == once.translations.value;
        assert entry != map[] ==> padded != map[] by {
          if entry != map[] {
            var k :| k in entry;
            assert k in padded;
          }
        }
      } else {
        assert StoredEntry(once.translations, lc) == entry;
      }
    }
  }

  /**
    `translate` is idempotent: repeating a call leaves the state it left and ends the
    same way, uploads included for a deterministic `store`.
   */
  lemma TranslateIdempotent(cfg: Config, schema: Schema, store: Upload -> string, st: RecordState,
                            code: string, kw: seq<(string, Value)>, ambient: string)
    ensures var once := Translate(cfg, schema, store, st, code, kw, ambient);
      Translate(cfg, schema, store, once.0, code, kw, ambient) == once
  {
    var lc := Resolve(cfg.reg, code, ambient);
    var n := FirstUntranslatable(kw, schema.translatable);
    var applied := kw[..n];
    var written := Written(cfg, schema, store, st, lc, applied, ambient);
    var s1 := Translate(cfg, schema, store, st, code, kw, ambient).0;
    if IsDefault(cfg.reg, lc, ambient) {
      AssignIdempotent(st.native, applied);
    } else {
      RewriteOtherAbsorbed(cfg, schema, store, st, code, kw, ambient);
    }
    assert Written(cfg, schema, store, s1, lc, applied, ambient) == s1;
    if n == |kw| && code != "" {
      SelectIdempotent(cfg, schema, written, code, ambient);
    }
  }

  /** For a non-default locale, writing the same keywords again into the state `translate` left changes nothing. */
  lemma RewriteOtherAbsorbed(cfg: Config, schema: Schema, store: Upload -> string, st: RecordState,
                             code: string, kw: seq<(string, Value)>, ambient: string)
    requires !IsDefault(cfg.reg, Resolve(cfg.reg, code, ambient), ambient)
    ensures var s1 := Translate(cfg, schema, store, st, code, kw, ambient).0;
      var n := FirstUntranslatable(kw, schema.translatable);
      Written(cfg, schema, store, s1, Resolve(cfg.reg, code, ambient), kw[..n], ambient) == s1
  {
    var lc := Resolve(cfg.reg, code, ambient);
    var n := FirstUntranslatable(kw, schema.translatable);
    var applied := kw[..n];
    var written := Written(cfg, schema, store, st, lc, applied, ambient);
    var s1 := Translate(cfg, schema, store, st, code, kw, ambient).0;
    var t := Prepared(st.translations, lc);
    var sv := StoredValues(applied, store);
    var a := Assign(map[], sv);
    AssignIsUnion(t[lc], sv);
    assert StoredEntry(written.translations, lc) == t[lc] + a;
    if n == |kw| && code != "" {
      assert s1 == SelectLanguage(cfg, schema, written, code, ambient);
      SelectKeepsEntries(cfg, schema, written, code, ambient);
    }
    WrittenAbsorbed(cfg, schema, store, s1, lc, applied, ambient);
  }

  /** Writing keywords into an overlay entry that already holds their stored values changes nothing. */
  lemma WrittenAbsorbed(cfg: Config, schema: Schema, store: Upload -> string, s1: RecordState,
                        lc: string, applied: seq<(string, Value)>, ambient: string)
    requires !IsDefault(cfg.reg, lc, ambient)
    requires s1.languageCode == lc
    requires s1.translations.Some? && lc in s1.translations.value
    requires var a := Assign(map[], StoredValues(applied, store));
      forall k :: k in a ==> k in s1.translations.value[lc] && s1.translations.value[lc][k] == a[k]
    ensures Written(cfg, schema, store, s1, lc, applied, ambient) == s1
  {
    var t' := Prepared(s1.translations, lc);
    assert t' == s1.translations.value;
    AssignAbsorbed(t'[lc], StoredValues(applied, store));
    assert t'[lc := t'[lc]] == t';
  }

  /**
    The round trip of a translation: after `translate(code, name=v)` for a
    registered non-default code, reading `name` while that locale is ambient gives
    `v` (wrapped for file fields) and the native value is untouched; after switching
    to the default locale, reading it there gives the native value again.
   */
  lemma TranslateThenRead(cfg: Config, schema: Schema, store: Upload -> string, st: RecordState,
                          code: string, name: string, v: Value, ambient: string)
    requires cfg.reg.Valid()
    requires code in cfg.reg.Codes() && code != cfg.reg.defaultCode
    requires name in schema.translatable && name in st.native
    requires !v.File?
    ensures var r := Translate(cfg, schema, store, st, code, [(name, v)], ambient).0;
      var def := cfg.reg.defaultCode;
      && r.native == st.native
      && GetField(cfg, schema, r, name, code) == ReadAs(schema.fields, name, v)
      && GetField(cfg, schema, SelectLanguage(cfg, schema, r, def, ambient), name, def) == Raw(st.native[name])
  {
    var kw := [(name, v)];
    RegisteredIsDefaultIff(cfg.reg, code, ambient);
    assert FirstUntranslatable(kw, schema.translatable) == 1;
    assert kw[..1] == kw;
    var t := Prepared(st.translations, code);
    var sv := StoredValues(kw, store);
    assert sv == [(name, v)];
    assert Assign(t[code], sv) == t[code][name := v];
    var written := Written(cfg, schema, store, st, code, kw, ambient);
    assert StoredEntry(written.translations, code) == t[code][name := v];
    assert code != "";
    var r := SelectLanguage(cfg, schema, written, code, ambient);
    assert Translate(cfg, schema, store, st, code, kw, ambient).0 == r;
    assert !IsDefault(cfg.reg, code, ambient);
    assert Resolve(cfg.reg, code, ambient) == code;
    assert name in StoredEntry(written.translations, code);
    assert r.translated.Some?;
    assert name in r.translated.value && r.translated.value[name] == v;
  }

  /**
    What `translate` stores shows in `language_as_dict`: after translating distinct
    translatable keywords into a registered non-default code, the dictionary for that
    code holds each truthy stored value.
   */
  lemma TranslateThenAsDict(cfg: Config, schema: Schema, store: Upload -> string, st: RecordState,
                            code: string, kw: seq<(string, Value)>, ambient: string, ambient': string, i: nat)
    requires cfg.reg.Valid()
    requires code in cfg.reg.Codes() && code != cfg.reg.defaultCode
    requires DistinctKeys(kw)
    requires forall j :: 0 <= j < |kw| ==> kw[j].0 in schema.translatable
    requires i < |kw| && Truthy(StoredValue(kw[i].1, store))
    ensures var r := Translate(cfg, schema, store, st, code, kw, ambient).0;
      var d := LanguageAsDict(cfg, schema, r, code, ambient');
      kw[i].0 in d && d[kw[i].0] == StoredValue(kw[i].1, store)
  {
    RegisteredIsDefaultIff(cfg.reg, code, ambient);
    TranslateOtherWritesOverlay(cfg, schema, store, st, code, kw, ambient, i);
    var r := Translate(cfg, schema, store, st, code, kw, ambient).0;
    AsDictOfStored(cfg, schema, r, code, ambient', kw[i].0, StoredValue(kw[i].1, store));
  }

  /** A truthy value stored for a translatable field in a registered non-default code's entry shows in `language_as_dict`. */
  lemma AsDictOfStored(cfg: Config, schema: Schema, r: RecordState, code: string, ambient: string, name: string, v: Value)
    requires cfg.reg.Valid()
    requires code in cfg.reg.Codes() && code != cfg.reg.defaultCode
    requires name in schema.translatable && Truthy(v)
    requires r.translations.Some? && code in r.translations.value
    requires name in r.translations.value[code] && r.translations.value[code][name] == v
    ensures var d := LanguageAsDict(cfg, schema, r, code, ambient);
      name in d && d[name] == v
  {
    RegisteredIsDefaultIff(cfg.reg, code, ambient);
    assert StoredEntry(r.translations, code) == r.translations.value[code];
  }

  /** `language('xx')` for an unregistered code behaves exactly as `language` for the default locale. */
  lemma SelectUnregisteredIsDefault(cfg: Config, schema: Schema, st: RecordState, code: string, ambient: string)
    requires cfg.reg.Valid()
    requires code != "" && code !in cfg.reg.Codes()
    ensures SelectLanguage(cfg, schema, st, code, ambient) ==
            SelectLanguage(cfg, schema, st, cfg.reg.defaultCode, ambient)
  {
  }

  /**
    When `language_or_none` finds a non-default translation, the record's view
    holds every translatable field and every stored value of that locale.
   */
  lemma LanguageOrNoneFound(cfg: Config, schema: Schema, st: RecordState, code: string, ambient: string)
    requires cfg.reg.Valid()
    requires !IsDefault(cfg.reg, code, ambient)
    requires LanguageOrNone(cfg, schema, st, code, ambient).1
    ensures var r := LanguageOrNone(cfg, schema, st, code, ambient).0;
      var entry := StoredEntry(st.translations, Resolve(cfg.reg, code, ambient));
      && r.translated.Some?
      && (forall f :: f in schema.translatable ==> f in r.translated.value)
      && (forall k :: k in entry ==> k in r.translated.value && r.translated.value[k] == entry[k])
  {
    NonDefaultIsRegistered(cfg.reg, code, ambient);
    ResolveIdempotent(cfg.reg, code, ambient, ambient);
  }

  /**
    `save` gives back the locale the record was in, provided that locale was
    already a resolved one (a registered code or the default).
   */
  lemma SaveRestoresLocale(cfg: Config, schema: Schema, st: RecordState, ambient: string)
    requires cfg.reg.Valid()
    requires st.languageCode in cfg.reg.Codes() || st.languageCode == cfg.reg.defaultCode
    ensures Save(cfg, schema, st, ambient).languageCode == st.languageCode
  {
  }

  /** `language` keeps the overlay invariant: it only pads an entry already stored. */
  lemma SelectKeepsWellFormed(cfg: Config, schema: Schema, st: RecordState, code: string, ambient: string)
    requires WellFormed(cfg.reg, st.translations)
    ensures WellFormed(cfg.reg, SelectLanguage(cfg, schema, st, code, ambient).translations)
  {
  }

  /**
    `translate` keeps the overlay invariant: the default locale's values never enter
    the overlay, and only registered codes do.
   */
  lemma TranslateKeepsWellFormed(cfg: Config, schema: Schema, store: Upload -> string, st: RecordState,
                                 code: string, kw: seq<(string, Value)>, ambient: string)
    requires cfg.reg.Valid()
    requires WellFormed(cfg.reg, st.translations)
    ensures WellFormed(cfg.reg, Translate(cfg, schema, store, st, code, kw, ambient).0.translations)
  {
    var lc := Resolve(cfg.reg, code, ambient);
    var n := FirstUntranslatable(kw, schema.translatable);
    var written := Written(cfg, schema, store, st, lc, kw[..n], ambient);
    if !IsDefault(cfg.reg, lc, ambient) {
      NonDefaultIsRegistered(cfg.reg, lc, ambient);
      ResolveIdempotent(cfg.reg, code, ambient, ambient);
    }
    assert WellFormed(cfg.reg, written.translations);
    if n == |kw| && code != "" {
      SelectKeepsWellFormed(cfg, schema, written, code, ambient);
    }
  }

  /** `save` keeps the overlay invariant. */
  lemma SaveKeepsWellFormed(cfg: Config, schema: Schema, st: RecordState, ambient: string)
    requires WellFormed(cfg.reg, st.translations)
    ensures WellFormed(cfg.reg, Save(cfg, schema, st, ambient).translations)
  {
    var reset := Reset(st, ambient);
    var prepared :=
      if reset.translations.None? || reset.translations.value == map[] then reset.(translations := Some(map[]))
      else reset;
    SelectKeepsWellFormed(cfg, schema, prepared, st.languageCode, ambient);
  }
}
