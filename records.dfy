/**
  `TranslatableModel` of json_trans/models.py as a class whose methods update the
  record's fields in place. Each method is proved to leave the state that the
  corresponding function of overlay.dfy describes; the properties of those
  functions are proved there.
 */
module Records {
  import opened Wrappers
  import opened Collections
  import opened Locale
  import opened Fields
  import opened Overlay

  /** `populate_translations`: gives every translatable field missing from the entry the value `''`, one field at a time. */
  method PopulateTranslations(translatable: seq<string>, entry: Entry) returns (r: Entry)
    ensures r == Padded(entry, translatable)
  {
    r := entry;
    for i := 0 to |translatable|
      invariant r == Padded(entry, translatable[..i])
    {
      assert translatable[..i + 1] == translatable[..i] + [translatable[i]];
      if translatable[i] !in r {
        r := r[translatable[i] := Blank];
      }
      assert r == Padded(entry, translatable[..i + 1]);
    }
    assert translatable[..|translatable|] == translatable;
  }

  /** The skip rule of `clean_fields`: a model field is validated unless excluded or translatable. */
  predicate Validated(exclude: seq<string>, translatable: seq<string>, f: FieldSpec)
  {
    f.name !in exclude && f.name !in translatable
  }

  /** The fields `clean_fields` goes on to validate, in model order. */
  method FieldsToClean(schema: Schema, exclude: seq<string>) returns (r: seq<FieldSpec>)
    ensures r == Filter((f: FieldSpec) => Validated(exclude, schema.translatable, f), schema.fields)
    ensures forall i :: 0 <= i < |r| ==> r[i].name !in schema.translatable
  {
    var keep := (f: FieldSpec) => Validated(exclude, schema.translatable, f);
    r := [];
    for i := 0 to |schema.fields|
      invariant r == Filter(keep, schema.fields[..i])
    {
      assert schema.fields[..i + 1][..i] == schema.fields[..i];
      if Validated(exclude, schema.translatable, schema.fields[i]) {
        r := r + [schema.fields[i]];
      }
    }
    assert schema.fields[..|schema.fields|] == schema.fields;
  }

  /** One more keyword extends the keywords applied so far, and the values stored for them, by that keyword. */
  lemma KeywordStep(kw: seq<(string, Value)>, n: nat, store: Upload -> string)
    requires n < |kw|
    ensures kw[..n + 1] == kw[..n] + [(kw[n].0, kw[n].1)]
    ensures StoredValues(kw[..n + 1], store) == StoredValues(kw[..n], store) + [(kw[n].0, StoredValue(kw[n].1, store))]
  {
    assert kw[..n + 1] == kw[..n] + [kw[n]];
  }

  /** Writing keyword `n` into the overlay entry extends the run of stored writes by one. */
  lemma EntryStep(e: Entry, kw: seq<(string, Value)>, n: nat, store: Upload -> string)
    requires n < |kw|
    ensures Assign(e, StoredValues(kw[..n + 1], store))
         == Assign(e, StoredValues(kw[..n], store))[kw[n].0 := StoredValue(kw[n].1, store)]
  {
    KeywordStep(kw, n, store);
    AssignSnoc(e, StoredValues(kw[..n], store), (kw[n].0, StoredValue(kw[n].1, store)));
  }

  class TranslatableRecord {
    const cfg: Config
    const schema: Schema
    var native: map<string, Value>
    var translations: Option<Translations>
    var languageCode: string
    var translated: Option<Entry>

    /** The record's state as overlay.dfy's functions see it. */
    function State(): RecordState
      reads this
    {
      RecordState(native, translations, languageCode, translated)
    }

    /** `__init__`: the stored values, and the ambient locale, unresolved, as `_language_code`. */
    constructor (cfg: Config, schema: Schema, native: map<string, Value>, translations: Option<Translations>, ambient: string)
      ensures this.cfg == cfg && this.schema == schema
      ensures State() == RecordState(native, translations, ambient, None)
    {
      this.cfg := cfg;
      this.schema := schema;
      this.native := native;
      this.translations := translations;
      this.languageCode := ambient;
      this.translated := None;
    }

    /** `reset_language`. */
    method ResetLanguage(ambient: string)
      modifies this
      ensures State() == Reset(old(State()), ambient)
    {
      translated := None;
      languageCode := ambient;
    }

    /** `language(code)`; the padding of a stored entry happens in that entry, as in the source. */
    method Language(code: string, ambient: string)
      modifies this
      ensures State() == SelectLanguage(cfg, schema, old(State()), code, ambient)
    {
      ResetLanguage(ambient);
      languageCode := Resolve(cfg.reg, code, ambient);
      if IsDefault(cfg.reg, code, ambient) {
        return;
      }
      var all := if translations.Some? then translations.value else map[];
      var stored := languageCode in all;
      var entry := if stored then all[languageCode] else map[];
      if (entry == map[] && !cfg.fallback) || entry != map[] {
        var padded := PopulateTranslations(schema.translatable, entry);
        if stored {
          translations := Some(all[languageCode := padded]);
        }
        translated := Some(padded);
      }
    }

    /** `language_or_none(code)`: `found` is false exactly when the source returns `None`. */
    method LanguageOrNone(code: string, ambient: string) returns (found: bool)
      modifies this
      ensures (State(), found) == Overlay.LanguageOrNone(cfg, schema, old(State()), code, ambient)
    {
      var lc := Resolve(cfg.reg, code, ambient);
      if IsDefault(cfg.reg, lc, ambient) {
        Language(lc, ambient);
        return true;
      }
      if translations.None? || translations.value == map[] || lc !in translations.value || translations.value[lc] == map[] {
        return false;
      }
      Language(lc, ambient);
      return true;
    }

    /**
      `translate(code, **kw)`, one keyword at a time; an upload is handed to `store`
      (the storage collaborator's save and url) and its URL kept.
     */
    method Translate(code: string, kw: seq<(string, Value)>, ambient: string, store: Upload -> string) returns (out: Outcome)
      modifies this
      ensures (State(), out) == Overlay.Translate(cfg, schema, store, old(State()), code, kw, ambient)
    {
      var lc := Resolve(cfg.reg, code, ambient);
      var n := WriteKeywords(lc, kw, ambient, store);
      if n < |kw| {
        out := NonTranslatableFieldError(kw[n].0);
      } else {
        out := Ok;
        if code != "" {
          Language(code, ambient);
        }
      }
    }

    /**
      The loop of `translate`: `_language_code` becomes `lc`, the overlay entry of a
      non-default `lc` is created, and the keywords are written up to the first one
      naming a non-translatable field, whose index is `n`. The writes are collected
      in a copy of the native values or of the entry and stored once at the end,
      which is the same state since nothing reads them in between.
     */
    method WriteKeywords(lc: string, kw: seq<(string, Value)>, ambient: string, store: Upload -> string) returns (n: nat)
      modifies this
      ensures n == FirstUntranslatable(kw, schema.translatable)
      ensures State() == Written(cfg, schema, store, old(State()), lc, kw[..n], ambient)
    {
      ghost var st := State();
      languageCode := lc;
      var isDefault := IsDefault(cfg.reg, lc, ambient);
      var prepared := Prepared(translations, lc);
      var values := native;
      var entry := prepared[lc];
      ghost var stop := FirstUntranslatable(kw, schema.translatable);
      n := 0;
      while n < |kw| && kw[n].0 in schema.translatable
        invariant 0 <= n <= stop
        invariant State() == st.(languageCode := lc)
        invariant isDefault ==> values == Assign(st.native, kw[..n])
        invariant !isDefault ==> entry == Assign(prepared[lc], StoredValues(kw[..n], store))
      {
        var name, value := kw[n].0, kw[n].1;
        assert n < stop;
        if isDefault {
          assert kw[..n + 1] == kw[..n] + [(name, value)];
          AssignSnoc(st.native, kw[..n], (name, value));
          values := values[name := value];
        } else {
          EntryStep(prepared[lc], kw, n, store);
          entry := entry[name := StoredValue(value, store)];
        }
        n := n + 1;
      }
      if isDefault {
        native := values;
        assert State() == st.(languageCode := lc, native := Assign(st.native, kw[..n]));
      } else {
        translations := Some(prepared[lc := entry]);
        assert State() == st.(languageCode := lc, translations := Some(prepared[lc := Assign(prepared[lc], StoredValues(kw[..n], store))]));
      }
    }

    /** `save`, state part; the database write itself is not modelled. */
    method Save(ambient: string)
      modifies this
      ensures State() == Overlay.Save(cfg, schema, old(State()), ambient)
    {
      var remembered := languageCode;
      ResetLanguage(ambient);
      if translations.None? || translations.value == map[] {
        translations := Some(map[]);
      }
      Language(remembered, ambient);
    }

    /** `setattr(instance, name, value)`, as a form field's `save_form_data` does it. */
    method SetAttr(name: string, value: Value)
      modifies this
      ensures State() == old(State()).(native := old(native)[name := value])
    {
      native := native[name := value];
    }
  }
}
