/**
  The form layer of json_trans/forms.py: the per-locale clone fields of a
  multi-language form, how cleaned data is sent back to `translate`, which
  fields `construct_instance` writes and in what order, and the initial values
  `set_translation_fields` gathers from the overlay.

  A form's fields, its cleaned data and keyword dictionaries are ordered
  (sequences of pairs); `self.fields` after `update` is a `map`.
 */
module Forms {
  import opened Wrappers
  import opened Strings
  import opened Collections
  import opened Locale
  import opened Fields
  import opened Overlay
  import opened Records

  /** `_mode` of a form class: `'single'` or `'multi'`. */
  datatype Mode = Single | Multi

  /** What a form field carries that the core looks at: its model field class and `required`. */
  datatype FormField = FormField(kind: FieldKind, required: bool)

  /** The separator between a field name and a locale in a clone name. */
  const TransSep: string := "__trans__"

  /** How a locale code appears in a clone name: `code.replace("-", "_")`. */
  function Suffix(code: string): string
  {
    ReplaceChar(code, '-', '_')
  }

  /** The name of the clone of field `name` for locale `code`: `f'{name}__trans__{code.replace("-", "_")}'`. */
  function CloneName(name: string, code: string): string
  {
    name + TransSep + Suffix(code)
  }

  // ---------------------------------------------------------------------------
  // Clone names and how they are split

  /** A string without the first character of `sep` does not contain `sep`. */
  lemma LacksFirstChar(s: string, sep: string)
    requires |sep| > 0
    requires forall i :: 0 <= i < |s| ==> s[i] != sep[0]
    ensures !Contains(s, sep)
  {
    forall j: nat
      ensures !OccursAt(s, sep, j)
    {
      if j + |sep| <= |s| {
        assert s[j..j + |sep|][0] == s[j];
      }
    }
  }

  /**
    When a field name has no `__` (Django refuses such field names), no occurrence
    of the separator in a clone name starts inside the field name.
   */
  lemma SeparatorAfterName(name: string, rest: string)
    requires !Contains(name, "__")
    ensures forall j: nat :: j < |name| ==> !OccursAt(name + TransSep + rest, TransSep, j)
  {
    var s := name + TransSep + rest;
    forall j: nat | j < |name|
      ensures !OccursAt(s, TransSep, j)
    {
      if j + |TransSep| <= |s| {
        var w := s[j..j + |TransSep|];
        if j + 1 < |name| {
          assert !OccursAt(name, "__", j);
          assert name[j..j + 2] == w[..2];
          assert w[..2] != TransSep[..2];
        } else {
          assert w[2] == s[j + 2] == TransSep[1];
          assert w[2] != TransSep[2];
        }
      }
    }
  }

  /**
    `CloneName(name, code).split('__trans__')` gives back the field name and the
    code's suffix, when the name has no `__` and the suffix no separator.
   */
  lemma SplitCloneName(name: string, code: string)
    requires !Contains(name, "__")
    requires !Contains(Suffix(code), TransSep)
    ensures Split(CloneName(name, code), TransSep) == [name, Suffix(code)]
  {
    SeparatorAfterName(name, Suffix(code));
    SplitAfter(name, TransSep, Suffix(code));
    SplitWithout(Suffix(code), TransSep);
  }

  /**
    `_post_clean` as written: the first piece of the split is the field, the last the
    locale. Neither holds the separator, and a key without it gives itself twice.
   */
  function SplitAsWritten(key: string): (r: (string, string))
    ensures !Contains(r.0, TransSep) && !Contains(r.1, TransSep)
    ensures !Contains(key, TransSep) ==> r == (key, key)
  {
    var parts := Split(key, TransSep);
    (parts[0], parts[|parts| - 1])
  }

  /**
    The as-written split recovers the field name of a clone, and the locale only
    as its suffix: a hyphenated code comes back with `_`.
   */
  lemma SplitAsWrittenOfClone(name: string, code: string)
    requires !Contains(name, "__")
    requires !Contains(Suffix(code), TransSep)
    ensures SplitAsWritten(CloneName(name, code)) == (name, Suffix(code))
    ensures (forall i :: 0 <= i < |code| ==> code[i] != '-') ==> SplitAsWritten(CloneName(name, code)) == (name, code)
  {
    SplitCloneName(name, code);
    if forall i :: 0 <= i < |code| ==> code[i] != '-' {
      assert Suffix(code) == code;
    }
  }

  /** Registry codes a clone suffix identifies: no two share a suffix, and no suffix holds the separator. */
  predicate SuffixesDistinct(reg: Registry)
  {
    && (forall c, c' :: c in reg.Codes() && c' in reg.Codes() && Suffix(c) == Suffix(c') ==> c == c')
    && (forall c :: c in reg.Codes() ==> !Contains(Suffix(c), TransSep))
  }

  /** The registered code a clone suffix stands for: the first code with that suffix, or the suffix itself. */
  function CodeForSuffix(codes: seq<string>, suffix: string): (r: string)
    ensures r == suffix || (r in codes && Suffix(r) == suffix)
    ensures (exists c :: c in codes && Suffix(c) == suffix) ==> r in codes && Suffix(r) == suffix
  {
    if codes == [] then suffix
    else if Suffix(codes[0]) == suffix then codes[0]
    else
      var r := CodeForSuffix(codes[1..], suffix);
      assert forall c :: c in codes && c != codes[0] ==> c in codes[1..];
      r
  }

  /** The split `_post_clean` is meant to make: the field, and the registered code the suffix stands for. */
  function SplitClone(codes: seq<string>, key: string): (string, string)
  {
    var (field, suffix) := SplitAsWritten(key);
    (field, CodeForSuffix(codes, suffix))
  }

  /** Clone names round-trip through `SplitClone`, hyphenated codes included. */
  lemma SplitCloneRoundTrip(reg: Registry, name: string, code: string)
    requires SuffixesDistinct(reg)
    requires code in reg.Codes()
    requires !Contains(name, "__")
    ensures SplitClone(reg.Codes(), CloneName(name, code)) == (name, code)
  {
    SplitAsWrittenOfClone(name, code);
  }

  /** Two clone names are equal only for the same field and the same registered code. */
  lemma CloneNameInjective(reg: Registry, name: string, code: string, name': string, code': string)
    requires SuffixesDistinct(reg)
    requires code in reg.Codes() && code' in reg.Codes()
    requires !Contains(name, "__") && !Contains(name', "__")
    requires CloneName(name, code) == CloneName(name', code')
    ensures name == name' && code == code'
  {
    SplitCloneName(name, code);
    SplitCloneName(name', code');
  }

  // ---------------------------------------------------------------------------
  // Clone fields (`TranslatableModelFormMixin.__init__`)

  /** The clones of one form field: one per registered code other than the default, in registry order, not required. */
  function FieldClones(codes: seq<string>, defaultCode: string, name: string, field: FormField): (r: seq<(string, FormField)>)
    ensures forall p :: p in r <==>
      exists c :: c in codes && c != defaultCode && p == (CloneName(name, c), field.(required := false))
  {
    if codes == [] then []
    else
      var init := codes[..|codes| - 1];
      var code := codes[|codes| - 1];
      assert codes == init + [code];
      FieldClones(init, defaultCode, name, field)
        + (if code != defaultCode then [(CloneName(name, code), field.(required := false))] else [])
  }

  /** `self.translatable_fields`: the clones of every translatable form field in form order, in multi mode only. */
  function Clones(reg: Registry, names: seq<string>, formFields: seq<(string, FormField)>, mode: Mode): seq<(string, FormField)>
  {
    if mode == Single || formFields == [] then []
    else
      var (name, field) := formFields[|formFields| - 1];
      Clones(reg, names, formFields[..|formFields| - 1], mode)
        + (if name in names then FieldClones(reg.Codes(), reg.defaultCode, name, field) else [])
  }

  /**
    Every clone belongs to a translatable form field and a registered code other
    than the default, and is not required; there are clones in multi mode only.
   */
  lemma {:induction false} ClonesSound(reg: Registry, names: seq<string>, formFields: seq<(string, FormField)>, mode: Mode,
                                       p: (string, FormField))
    requires p in Clones(reg, names, formFields, mode)
    ensures mode == Multi
    ensures exists i, c ::
              && 0 <= i < |formFields| && formFields[i].0 in names
              && c in reg.Codes() && c != reg.defaultCode
              && p == (CloneName(formFields[i].0, c), formFields[i].1.(required := false))
  {
    var n := |formFields| - 1;
    var init := formFields[..n];
    var (name, field) := formFields[n];
    if p in Clones(reg, names, init, mode) {
      ClonesSound(reg, names, init, mode, p);
      var i, c :| 0 <= i < |init| && init[i].0 in names && c in reg.Codes() && c != reg.defaultCode &&
        p == (CloneName(init[i].0, c), init[i].1.(required := false));
      assert init[i] == formFields[i];
    } else {
      var c :| c in reg.Codes() && c != reg.defaultCode && p == (CloneName(name, c), field.(required := false));
      assert formFields[n].0 in names;
    }
  }

  /** In multi mode every translatable form field has its clone for every registered code other than the default. */
  lemma {:induction false} ClonesComplete(reg: Registry, names: seq<string>, formFields: seq<(string, FormField)>,
                                          i: nat, c: string)
    requires i < |formFields| && formFields[i].0 in names
    requires c in reg.Codes() && c != reg.defaultCode
    ensures (CloneName(formFields[i].0, c), formFields[i].1.(required := false)) in Clones(reg, names, formFields, Multi)
  {
    var n := |formFields| - 1;
    var init := formFields[..n];
    if i < n {
      ClonesComplete(reg, names, init, i, c);
      assert init[i] == formFields[i];
    }
  }

  /**
    After `self.fields.update(self.translatable_fields)` every clone is a field of the
    form, and none of them is required.
   */
  lemma ClonesInFields(reg: Registry, names: seq<string>, formFields: seq<(string, FormField)>, mode: Mode, k: string)
    requires k in Keys(Clones(reg, names, formFields, mode))
    ensures var fields := Assign(Assign(map[], formFields), Clones(reg, names, formFields, mode));
      k in fields && !fields[k].required
  {
    var clones := Clones(reg, names, formFields, mode);
    AssignFromSome(Assign(map[], formFields), clones, k);
    var i :| 0 <= i < |clones| && clones[i].0 == k &&
      Assign(Assign(map[], formFields), clones)[k] == clones[i].1;
    ClonesSound(reg, names, formFields, mode, clones[i]);
  }

  // ---------------------------------------------------------------------------
  // Selecting cleaned data (`get_translation_data`, `get_single_translation_data`)

  /** `get_translation_data`: the cleaned entries whose key contains `'__trans__'`, in order. */
  function GetTranslationData(data: seq<(string, Value)>): (r: seq<(string, Value)>)
    ensures forall p :: p in r <==> p in data && Contains(p.0, TransSep)
  {
    Filter((p: (string, Value)) => Contains(p.0, TransSep), data)
  }

  /** `get_single_translation_data`: the cleaned entries whose key is a translatable field name, in order. */
  function GetSingleTranslationData(names: seq<string>, data: seq<(string, Value)>): (r: seq<(string, Value)>)
    ensures forall p :: p in r <==> p in data && p.0 in names
  {
    Filter((p: (string, Value)) => p.0 in names, data)
  }

  // ---------------------------------------------------------------------------
  // `construct_instance`

  /**
    The skip rules every model field passes before it is written: editable, not an
    `AutoField`, present in the cleaned data, among `fields` when given, not in
    `exclude`, and not a defaulted field whose widget reports its value omitted
    (`omitted`).
   */
  predicate Eligible(f: FieldSpec, data: seq<(string, Value)>, omitted: set<string>,
                     fields: Option<seq<string>>, exclude: seq<string>)
  {
    && f.editable && !f.isAuto && f.name in Keys(data)
    && (fields.None? || f.name in fields.value)
    && f.name !in exclude
    && f.name !in omitted
  }

  /** The fields the first loop of `construct_instance` writes: eligible non-file fields whose `attname` is not translatable. */
  function FirstFields(specs: seq<FieldSpec>, data: seq<(string, Value)>, omitted: set<string>,
                       fields: Option<seq<string>>, exclude: seq<string>, translatable: seq<string>): (r: seq<FieldSpec>)
    ensures forall i :: 0 <= i < |r| ==>
      r[i] in specs && Eligible(r[i], data, omitted, fields, exclude) && r[i].kind == PlainField && r[i].attname !in translatable
    ensures forall f ::
      (f in specs && Eligible(f, data, omitted, fields, exclude) && f.kind == PlainField && f.attname !in translatable)
        ==> f in r
  {
    if specs == [] then []
    else
      var init, f := specs[..|specs| - 1], specs[|specs| - 1];
      assert specs == init + [f];
      FirstFields(init, data, omitted, fields, exclude, translatable)
        + (if Eligible(f, data, omitted, fields, exclude) && f.kind == PlainField && f.attname !in translatable then [f] else [])
  }

  /** The fields `construct_instance` defers to its second loop: eligible file and image fields. */
  function DeferredFields(specs: seq<FieldSpec>, data: seq<(string, Value)>, omitted: set<string>,
                          fields: Option<seq<string>>, exclude: seq<string>): (r: seq<FieldSpec>)
    ensures forall i :: 0 <= i < |r| ==> r[i] in specs && Eligible(r[i], data, omitted, fields, exclude) && r[i].kind != PlainField
    ensures forall f :: (f in specs && Eligible(f, data, omitted, fields, exclude) && f.kind != PlainField) ==> f in r
  {
    if specs == [] then []
    else
      var init, f := specs[..|specs| - 1], specs[|specs| - 1];
      assert specs == init + [f];
      DeferredFields(init, data, omitted, fields, exclude)
        + (if Eligible(f, data, omitted, fields, exclude) && f.kind != PlainField then [f] else [])
  }

  /**
    The model fields `construct_instance` writes, in the order it writes them. Every
    one passes the skip rules; no non-file field with a translatable `attname` is
    among them; every other eligible field is; and file fields come after all the
    others.
   */
  function WrittenFields(specs: seq<FieldSpec>, data: seq<(string, Value)>, omitted: set<string>,
                         fields: Option<seq<string>>, exclude: seq<string>, translatable: seq<string>): (r: seq<FieldSpec>)
    ensures forall i :: 0 <= i < |r| ==> r[i] in specs && Eligible(r[i], data, omitted, fields, exclude)
    ensures forall i :: 0 <= i < |r| && r[i].kind == PlainField ==> r[i].attname !in translatable
    ensures forall f ::
      (f in specs && Eligible(f, data, omitted, fields, exclude) && (f.kind != PlainField || f.attname !in translatable))
        ==> f in r
    ensures forall i, j :: 0 <= i < j < |r| && r[i].kind != PlainField ==> r[j].kind != PlainField
  {
    FirstFields(specs, data, omitted, fields, exclude, translatable) + DeferredFields(specs, data, omitted, fields, exclude)
  }

  /** `cleaned_data[name]`. */
  function CleanedValue(data: seq<(string, Value)>, name: string): Value
  {
    match Get(data, name)
    case Some(v) => v
    case None => Null
  }

  /**
    The attribute writes `save_form_data` performs for the given fields, in order:
    one per field, under the field's name; a field present in the cleaned data
    receives exactly its cleaned pair, any other one `None`.
   */
  function Writes(data: seq<(string, Value)>, fs: seq<FieldSpec>): (r: seq<(string, Value)>)
    ensures |r| == |fs|
    ensures forall i :: 0 <= i < |fs| ==> r[i] == (fs[i].name, CleanedValue(data, fs[i].name))
    ensures forall i :: 0 <= i < |r| ==> r[i].0 == fs[i].name
    ensures forall i :: 0 <= i < |r| && fs[i].name in Keys(data) ==> r[i] in data
    ensures forall i :: 0 <= i < |r| && fs[i].name !in Keys(data) ==> r[i].1 == Null
  {
    seq(|fs|, i requires 0 <= i < |fs| => (fs[i].name, CleanedValue(data, fs[i].name)))
  }

  /** Writing one more field appends its write. */
  lemma WritesSnoc(data: seq<(string, Value)>, fs: seq<FieldSpec>, f: FieldSpec)
    ensures Writes(data, fs + [f]) == Writes(data, fs) + [(f.name, CleanedValue(data, f.name))]
  {
  }

  /** The writes of `construct_instance` are those of its first loop followed by those of its second. */
  lemma WritesOfWrittenFields(specs: seq<FieldSpec>, data: seq<(string, Value)>, omitted: set<string>,
                              fields: Option<seq<string>>, exclude: seq<string>, translatable: seq<string>)
    ensures Writes(data, WrittenFields(specs, data, omitted, fields, exclude, translatable))
         == Writes(data, FirstFields(specs, data, omitted, fields, exclude, translatable))
          + Writes(data, DeferredFields(specs, data, omitted, fields, exclude))
  {
    WritesConcat(data, FirstFields(specs, data, omitted, fields, exclude, translatable),
                 DeferredFields(specs, data, omitted, fields, exclude));
  }

  /** The writes for two runs of fields are those of the first run followed by those of the second. */
  lemma WritesConcat(data: seq<(string, Value)>, a: seq<FieldSpec>, b: seq<FieldSpec>)
    ensures Writes(data, a + b) == Writes(data, a) + Writes(data, b)
  {
    var l, r := Writes(data, a + b), Writes(data, a) + Writes(data, b);
    assert |l| == |r|;
    forall i | 0 <= i < |l|
      ensures l[i] == r[i]
    {
      if i < |a| {
        assert (a + b)[i] == a[i];
      } else {
        assert (a + b)[i] == b[i - |a|];
      }
    }
  }

  /** One more model field extends the selections of `construct_instance` by at most that field. */
  lemma FirstFieldsStep(specs: seq<FieldSpec>, i: nat, data: seq<(string, Value)>, omitted: set<string>,
                        fields: Option<seq<string>>, exclude: seq<string>, translatable: seq<string>)
    requires i < |specs|
    ensures var f := specs[i];
      FirstFields(specs[..i + 1], data, omitted, fields, exclude, translatable)
        == FirstFields(specs[..i], data, omitted, fields, exclude, translatable)
         + (if Eligible(f, data, omitted, fields, exclude) && f.kind == PlainField && f.attname !in translatable then [f] else [])
    ensures var f := specs[i];
      DeferredFields(specs[..i + 1], data, omitted, fields, exclude)
        == DeferredFields(specs[..i], data, omitted, fields, exclude)
         + (if Eligible(f, data, omitted, fields, exclude) && f.kind != PlainField then [f] else [])
  {
    assert specs[..i + 1][..i] == specs[..i];
  }

  /**
    The first loop of `construct_instance`: the eligible non-file fields are written
    in model order, skipping those whose `attname` is translatable, and the
    eligible file fields are collected in `fileFieldList`.
   */
  method WriteFirstFields(data: seq<(string, Value)>, omitted: set<string>, instance: TranslatableRecord,
                          fields: Option<seq<string>>, exclude: seq<string>, translatable: seq<string>)
    returns (fileFieldList: seq<FieldSpec>)
    modifies instance
    ensures fileFieldList == DeferredFields(instance.schema.fields, data, omitted, fields, exclude)
    ensures instance.State() == old(instance.State()).(native := Assign(old(instance.native),
      Writes(data, FirstFields(instance.schema.fields, data, omitted, fields, exclude, translatable))))
  {
    var specs := instance.schema.fields;
    fileFieldList := [];
    for i := 0 to |specs|
      invariant fileFieldList == DeferredFields(specs[..i], data, omitted, fields, exclude)
      invariant instance.native == Assign(old(instance.native), Writes(data, FirstFields(specs[..i], data, omitted, fields, exclude, translatable)))
      invariant instance.State() == old(instance.State()).(native := instance.native)
    {
      var f := specs[i];
      FirstFieldsStep(specs, i, data, omitted, fields, exclude, translatable);
      ghost var done := FirstFields(specs[..i], data, omitted, fields, exclude, translatable);
      ghost var next := FirstFields(specs[..i + 1], data, omitted, fields, exclude, translatable);
      if Eligible(f, data, omitted, fields, exclude) && f.kind != PlainField {
        fileFieldList := fileFieldList + [f];
        assert next == done;
      } else if Eligible(f, data, omitted, fields, exclude) && f.attname !in translatable {
        WritesSnoc(data, done, f);
        AssignSnoc(old(instance.native), Writes(data, done), (f.name, CleanedValue(data, f.name)));
        instance.SetAttr(f.name, CleanedValue(data, f.name));
        assert next == done + [f];
      } else {
        assert next == done;
      }
      assert instance.native == Assign(old(instance.native), Writes(data, next));
    }
    assert specs[..|specs|] == specs;
  }

  /** The second loop of `construct_instance`: the deferred file fields are written in their order. */
  method WriteDeferredFields(data: seq<(string, Value)>, instance: TranslatableRecord, fileFieldList: seq<FieldSpec>)
    modifies instance
    ensures instance.State() == old(instance.State()).(native := Assign(old(instance.native), Writes(data, fileFieldList)))
  {
    for j := 0 to |fileFieldList|
      invariant instance.native == Assign(old(instance.native), Writes(data, fileFieldList[..j]))
      invariant instance.State() == old(instance.State()).(native := instance.native)
    {
      var f := fileFieldList[j];
      assert fileFieldList[..j + 1] == fileFieldList[..j] + [f];
      WritesSnoc(data, fileFieldList[..j], f);
      AssignSnoc(old(instance.native), Writes(data, fileFieldList[..j]), (f.name, CleanedValue(data, f.name)));
      instance.SetAttr(f.name, CleanedValue(data, f.name));
    }
    assert fileFieldList[..|fileFieldList|] == fileFieldList;
  }

  /**
    `construct_instance(form, instance, fields, exclude, translatable_fields)`: the
    first loop's writes, then the deferred file fields written in their order.
   */
  method ConstructInstance(data: seq<(string, Value)>, omitted: set<string>, instance: TranslatableRecord,
                           fields: Option<seq<string>>, exclude: seq<string>, translatable: seq<string>)
    modifies instance
    ensures instance.State() == old(instance.State()).(native := Assign(old(instance.native),
      Writes(data, WrittenFields(instance.schema.fields, data, omitted, fields, exclude, translatable))))
  {
    var fileFieldList := WriteFirstFields(data, omitted, instance, fields, exclude, translatable);
    WriteDeferredFields(data, instance, fileFieldList);
    WritesOfWrittenFields(instance.schema.fields, data, omitted, fields, exclude, translatable);
    AssignConcat(old(instance.native),
      Writes(data, FirstFields(instance.schema.fields, data, omitted, fields, exclude, translatable)),
      Writes(data, fileFieldList));
  }

  // ---------------------------------------------------------------------------
  // `_post_clean`: sending cleaned data to `translate`

  /** The cleaned entries `_post_clean` sends to `translate`: clone entries in multi mode, translatable ones in single mode. */
  function PostCleanData(mode: Mode, names: seq<string>, data: seq<(string, Value)>): (r: seq<(string, Value)>)
    ensures mode == Multi ==> forall p :: p in r <==> p in data && Contains(p.0, TransSep)
    ensures mode == Single ==> forall p :: p in r <==> p in data && p.0 in names
  {
    if mode == Multi then GetTranslationData(data) else GetSingleTranslationData(names, data)
  }

  /**
    The `translate(code, **{field: value})` call `_post_clean` makes for one entry, as
    written: in multi mode the key is split into field and locale with
    `SplitAsWritten`, in single mode the form's active locale is used.
   */
  function TranslateCall(mode: Mode, activeLanguage: string, entry: (string, Value)): (string, seq<(string, Value)>)
  {
    if mode == Multi then
      var (field, code) := SplitAsWritten(entry.0);
      (code, [(field, entry.1)])
    else (activeLanguage, [entry])
  }

  /** The call `_post_clean` is meant to make: in multi mode the suffix is mapped back to its registered code. */
  function IntendedCall(codes: seq<string>, mode: Mode, activeLanguage: string, entry: (string, Value)): (string, seq<(string, Value)>)
  {
    if mode == Multi then
      var (field, code) := SplitClone(codes, entry.0);
      (code, [(field, entry.1)])
    else (activeLanguage, [entry])
  }

  /** The `translate` calls of `_post_clean`, in the order of the cleaned data. */
  function TranslateCalls(mode: Mode, names: seq<string>, activeLanguage: string,
                          data: seq<(string, Value)>): (r: seq<(string, seq<(string, Value)>)>)
  {
    var entries := PostCleanData(mode, names, data);
    seq(|entries|, i requires 0 <= i < |entries| => TranslateCall(mode, activeLanguage, entries[i]))
  }

  /** There is one call per selected entry, made from that entry. */
  lemma TranslateCallAt(mode: Mode, names: seq<string>, activeLanguage: string,
                        data: seq<(string, Value)>, i: nat)
    ensures |TranslateCalls(mode, names, activeLanguage, data)| == |PostCleanData(mode, names, data)|
    ensures i < |PostCleanData(mode, names, data)| ==>
      TranslateCalls(mode, names, activeLanguage, data)[i] == TranslateCall(mode, activeLanguage, PostCleanData(mode, names, data)[i])
  {
  }

  /**
    As written, the value of a clone goes to its field under the clone's suffix: the
    code itself when it has no hyphen, the code with `_` for `-` otherwise.
   */
  lemma MultiCallOfClone(activeLanguage: string, name: string, code: string, v: Value)
    requires !Contains(name, "__")
    requires !Contains(Suffix(code), TransSep)
    ensures TranslateCall(Multi, activeLanguage, (CloneName(name, code), v)) == (Suffix(code), [(name, v)])
    ensures (forall i :: 0 <= i < |code| ==> code[i] != '-') ==>
      TranslateCall(Multi, activeLanguage, (CloneName(name, code), v)) == (code, [(name, v)])
  {
    SplitAsWrittenOfClone(name, code);
  }

  /** With the suffix mapped back, the value of a clone goes to its field under the registered code the clone was made for. */
  lemma IntendedCallOfClone(reg: Registry, activeLanguage: string, name: string, code: string, v: Value)
    requires SuffixesDistinct(reg)
    requires code in reg.Codes()
    requires !Contains(name, "__")
    ensures IntendedCall(reg.Codes(), Multi, activeLanguage, (CloneName(name, code), v)) == (code, [(name, v)])
  {
    SplitCloneRoundTrip(reg, name, code);
  }

  /** In single mode every translatable cleaned value is sent to the form's active locale, in order. */
  lemma SingleCalls(names: seq<string>, activeLanguage: string, data: seq<(string, Value)>)
    ensures var calls := TranslateCalls(Single, names, activeLanguage, data);
      forall call :: call in calls ==> call.0 == activeLanguage && |call.1| == 1 && call.1[0] in data && call.1[0].0 in names
  {
    var entries := GetSingleTranslationData(names, data);
    var calls := TranslateCalls(Single, names, activeLanguage, data);
    forall call | call in calls
      ensures call.0 == activeLanguage && |call.1| == 1 && call.1[0] in data && call.1[0].0 in names
    {
      var i :| 0 <= i < |calls| && calls[i] == call;
      assert entries[i] in entries;
    }
  }

  /**
    The `translate` calls made one after another on a record; the first
    `NonTranslatableFieldError` stops the sequence and is what the caller sees.
   */
  function TranslateEach(cfg: Config, schema: Schema, store: Upload -> string, st: RecordState,
                         calls: seq<(string, seq<(string, Value)>)>, ambient: string): (r: (RecordState, Outcome))
    ensures r.1 == Ok <==> forall i, j :: 0 <= i < |calls| && 0 <= j < |calls[i].1| ==> calls[i].1[j].0 in schema.translatable
    ensures r.1.NonTranslatableFieldError? ==> r.1.fieldname !in schema.translatable
    decreases |calls|
  {
    if calls == [] then (st, Ok)
    else
      var (st', out) := Translate(cfg, schema, store, st, calls[0].0, calls[0].1, ambient);
      if out != Ok then
        assert out.NonTranslatableFieldError?;
        (st', out)
      else
        var r := TranslateEach(cfg, schema, store, st', calls[1..], ambient);
        assert forall i :: 1 <= i < |calls| ==> calls[i] == calls[1..][i - 1];
        r
  }

  /** One call of `TranslateEach`: the first `translate`, then the rest unless it raised. */
  lemma TranslateEachStep(cfg: Config, schema: Schema, store: Upload -> string, st: RecordState,
                          calls: seq<(string, seq<(string, Value)>)>, ambient: string)
    requires calls != []
    ensures var first := Translate(cfg, schema, store, st, calls[0].0, calls[0].1, ambient);
      TranslateEach(cfg, schema, store, st, calls, ambient)
        == if first.1 != Ok then first else TranslateEach(cfg, schema, store, first.0, calls[1..], ambient)
  {
  }

  /** In single mode `_post_clean` never raises `NonTranslatableFieldError`. */
  lemma SingleModeNeverRaises(cfg: Config, schema: Schema, store: Upload -> string, st: RecordState,
                              activeLanguage: string, data: seq<(string, Value)>, ambient: string)
    ensures TranslateEach(cfg, schema, store, st,
      TranslateCalls(Single, schema.translatable, activeLanguage, data), ambient).1 == Ok
  {
    var calls := TranslateCalls(Single, schema.translatable, activeLanguage, data);
    SingleCalls(schema.translatable, activeLanguage, data);
    forall i, j | 0 <= i < |calls| && 0 <= j < |calls[i].1|
      ensures calls[i].1[j].0 in schema.translatable
    {
      assert calls[i] in calls;
    }
  }

  // ---------------------------------------------------------------------------
  // `set_translation_fields`

  /** `translations.get(code).get(field)`: the stored value, or `None`. */
  function EntryValue(entry: Entry, field: string): Value
  {
    if field in entry then entry[field] else Null
  }

  /**
    The initial values gathered for one field, as written: each registry pair is
    unpacked as `(lang, lang_code)`, so the display name is the lookup key and the
    key suffix; a failed lookup (`AttributeError`) is skipped.
   */
  function FieldInitialsAsWritten(languages: seq<(string, string)>, translations: Option<Translations>, field: string): (r: seq<(string, Value)>)
    ensures forall p :: p in r <==>
      exists l :: l in languages && Stored(translations, l.1) && p == (field + TransSep + l.1, EntryValue(translations.value[l.1], field))
  {
    if languages == [] then []
    else
      var init, last := languages[..|languages| - 1], languages[|languages| - 1];
      assert languages == init + [last];
      var display := last.1;
      FieldInitialsAsWritten(init, translations, field)
        + (if Stored(translations, display) then [(field + TransSep + display, EntryValue(translations.value[display], field))] else [])
  }

  /**
    The assignments of `set_translation_fields` as written, in the order it makes them:
    nothing in single mode; in multi mode, for each translatable field and each registry
    pair whose display name is a stored locale, that entry's value under
    `<field>__trans__<display name>`.
   */
  function InitialsAsWritten(reg: Registry, mode: Mode, names: seq<string>, fieldNames: seq<string>,
                             translations: Option<Translations>): (r: seq<(string, Value)>)
    ensures mode == Single ==> r == []
    ensures forall p :: p in r ==>
      exists f, l :: f in fieldNames && f in names && l in reg.languages && Stored(translations, l.1) &&
        p == (f + TransSep + l.1, EntryValue(translations.value[l.1], f))
    ensures mode == Multi ==> forall f, l :: f in fieldNames && f in names && l in reg.languages && Stored(translations, l.1) ==>
      (f + TransSep + l.1, EntryValue(translations.value[l.1], f)) in r
  {
    if mode == Single || fieldNames == [] then []
    else
      var init, field := fieldNames[..|fieldNames| - 1], fieldNames[|fieldNames| - 1];
      assert fieldNames == init + [field];
      InitialsAsWritten(reg, mode, names, init, translations)
        + (if field in names then FieldInitialsAsWritten(reg.languages, translations, field) else [])
  }

  /** As written, `set_translation_fields` finds nothing unless a display name happens to be a stored locale. */
  lemma {:induction false} InitialsAsWrittenLookUpDisplayNames(reg: Registry, mode: Mode, names: seq<string>,
                                                               fieldNames: seq<string>, translations: Option<Translations>)
    requires forall i :: 0 <= i < |reg.languages| ==> !Stored(translations, reg.languages[i].1)
    ensures InitialsAsWritten(reg, mode, names, fieldNames, translations) == []
  {
    if mode == Multi && fieldNames != [] {
      InitialsAsWrittenLookUpDisplayNames(reg, mode, names, fieldNames[..|fieldNames| - 1], translations);
      FieldInitialsAsWrittenEmpty(reg.languages, translations, fieldNames[|fieldNames| - 1]);
    }
  }

  lemma {:induction false} FieldInitialsAsWrittenEmpty(languages: seq<(string, string)>, translations: Option<Translations>, field: string)
    requires forall i :: 0 <= i < |languages| ==> !Stored(translations, languages[i].1)
    ensures FieldInitialsAsWritten(languages, translations, field) == []
  {
    if languages != [] {
      FieldInitialsAsWrittenEmpty(languages[..|languages| - 1], translations, field);
    }
  }

  /**
    The initial values gathered for one field: for every registered code with a
    stored overlay entry, the entry's value under the name of the field's clone.
   */
  function FieldInitials(codes: seq<string>, translations: Option<Translations>, field: string): (r: seq<(string, Value)>)
    ensures forall p :: p in r <==>
      exists c :: c in codes && Stored(translations, c) && p == (CloneName(field, c), EntryValue(translations.value[c], field))
  {
    if codes == [] then []
    else
      var init, code := codes[..|codes| - 1], codes[|codes| - 1];
      assert codes == init + [code];
      FieldInitials(init, translations, field)
        + (if Stored(translations, code) then [(CloneName(field, code), EntryValue(translations.value[code], field))] else [])
  }

  /** The assignments `set_translation_fields` is meant to make, in order: multi mode only, translatable fields only. */
  function Initials(reg: Registry, mode: Mode, names: seq<string>, fieldNames: seq<string>,
                    translations: Option<Translations>): (r: seq<(string, Value)>)
    ensures mode == Single ==> r == []
    ensures forall p :: p in r ==>
      exists f, c :: f in fieldNames && f in names && c in reg.Codes() && Stored(translations, c) &&
        p == (CloneName(f, c), EntryValue(translations.value[c], f))
    ensures mode == Multi ==> forall f, c :: f in fieldNames && f in names && c in reg.Codes() && Stored(translations, c) ==>
      (CloneName(f, c), EntryValue(translations.value[c], f)) in r
  {
    if mode == Single || fieldNames == [] then []
    else
      var init, field := fieldNames[..|fieldNames| - 1], fieldNames[|fieldNames| - 1];
      assert fieldNames == init + [field];
      Initials(reg, mode, names, init, translations)
        + (if field in names then FieldInitials(reg.Codes(), translations, field) else [])
  }

  /**
    Each clone of a translatable form field receives, as its initial value, what the
    overlay stores for its field under its locale.
   */
  lemma InitialValueOfClone(reg: Registry, names: seq<string>, fieldNames: seq<string>,
                            translations: Option<Translations>, f: string, c: string)
    requires SuffixesDistinct(reg)
    requires forall g :: g in fieldNames ==> !Contains(g, "__")
    requires f in fieldNames && f in names && c in reg.Codes() && Stored(translations, c)
    ensures var result := Assign(map[], Initials(reg, Multi, names, fieldNames, translations));
      CloneName(f, c) in result && result[CloneName(f, c)] == EntryValue(translations.value[c], f)
  {
    var w := Initials(reg, Multi, names, fieldNames, translations);
    var k := CloneName(f, c);
    assert (k, EntryValue(translations.value[c], f)) in w;
    AssignFromSome(map[], w, k);
    var j :| 0 <= j < |w| && w[j].0 == k && Assign(map[], w)[k] == w[j].1;
    assert w[j] in w;
    var f', c' :| f' in fieldNames && f' in names && c' in reg.Codes() && Stored(translations, c') &&
      w[j] == (CloneName(f', c'), EntryValue(translations.value[c'], f'));
    CloneNameInjective(reg, f, c, f', c');
  }

  /**
    `set_translation_fields(instance)` as written: in multi mode, for every
    translatable name of `Meta.fields` and every registry pair unpacked as
    `(lang, lang_code)`, the entry stored under the display name `lang_code` gives
    the initial value of `field__trans__<display name>`; a missing entry or a missing
    overlay raises `AttributeError`, which is skipped.
   */
  method SetTranslationFields(reg: Registry, mode: Mode, names: seq<string>, fieldNames: seq<string>,
                              translations: Option<Translations>) returns (result: map<string, Value>)
    ensures result == Assign(map[], InitialsAsWritten(reg, mode, names, fieldNames, translations))
  {
    result := map[];
    if mode == Multi {
      for i := 0 to |fieldNames|
        invariant result == Assign(map[], InitialsAsWritten(reg, mode, names, fieldNames[..i], translations))
      {
        var field := fieldNames[i];
        ghost var done := InitialsAsWritten(reg, mode, names, fieldNames[..i], translations);
        InitialsAsWrittenStep(reg, names, fieldNames, translations, i);
        if field in names {
          var languages := reg.languages;
          assert done + FieldInitialsAsWritten(languages[..0], translations, field) == done;
          for j := 0 to |languages|
            invariant result == Assign(map[], done + FieldInitialsAsWritten(languages[..j], translations, field))
          {
            var display := languages[j].1;
            ghost var before := done + FieldInitialsAsWritten(languages[..j], translations, field);
            GatheredStep(done, languages, translations, field, j);
            if translations.Some? && display in translations.value {
              var v := EntryValue(translations.value[display], field);
              AssignSnoc(map[], before, (field + TransSep + display, v));
              result := result[field + TransSep + display := v];
            }
          }
          assert languages[..|languages|] == languages;
        }
      }
      assert fieldNames[..|fieldNames|] == fieldNames;
    }
  }

  /** One pass of the outer loop of `set_translation_fields`. */
  lemma InitialsAsWrittenStep(reg: Registry, names: seq<string>, fieldNames: seq<string>,
                              translations: Option<Translations>, i: nat)
    requires i < |fieldNames|
    ensures fieldNames[i] in names ==>
      InitialsAsWritten(reg, Multi, names, fieldNames[..i + 1], translations)
        == InitialsAsWritten(reg, Multi, names, fieldNames[..i], translations)
           + FieldInitialsAsWritten(reg.languages, translations, fieldNames[i])
    ensures fieldNames[i] !in names ==>
      InitialsAsWritten(reg, Multi, names, fieldNames[..i + 1], translations)
        == InitialsAsWritten(reg, Multi, names, fieldNames[..i], translations)
  {
    assert fieldNames[..i + 1][..i] == fieldNames[..i];
    var prefix := InitialsAsWritten(reg, Multi, names, fieldNames[..i], translations);
    assert prefix + [] == prefix;
  }

  /** One pass of the inner loop of `set_translation_fields`, after the earlier fields' pairs. */
  lemma GatheredStep(done: seq<(string, Value)>, languages: seq<(string, string)>, translations: Option<Translations>,
                     field: string, j: nat)
    requires j < |languages|
    ensures Stored(translations, languages[j].1) ==>
      done + FieldInitialsAsWritten(languages[..j + 1], translations, field)
        == done + FieldInitialsAsWritten(languages[..j], translations, field)
           + [(field + TransSep + languages[j].1, EntryValue(translations.value[languages[j].1], field))]
    ensures !Stored(translations, languages[j].1) ==>
      done + FieldInitialsAsWritten(languages[..j + 1], translations, field)
        == done + FieldInitialsAsWritten(languages[..j], translations, field)
  {
    FieldInitialsAsWrittenStep(languages, translations, field, j);
    var prefix := FieldInitialsAsWritten(languages[..j], translations, field);
    if !Stored(translations, languages[j].1) {
      assert prefix + [] == prefix;
    }
  }

  /** One pass of the inner loop of `set_translation_fields`. */
  lemma FieldInitialsAsWrittenStep(languages: seq<(string, string)>, translations: Option<Translations>, field: string, j: nat)
    requires j < |languages|
    ensures FieldInitialsAsWritten(languages[..j + 1], translations, field)
         == FieldInitialsAsWritten(languages[..j], translations, field)
            + (if Stored(translations, languages[j].1)
               then [(field + TransSep + languages[j].1, EntryValue(translations.value[languages[j].1], field))] else [])
  {
    assert languages[..j + 1][..j] == languages[..j];
  }

  // ---------------------------------------------------------------------------
  // Two registries that show where the code as written goes wrong

  /** English by default, and French. */
  function EnglishFrench(): Registry
  {
    Registry([("en", "English"), ("fr", "French")], "en")
  }

  /** English by default, and Brazilian Portuguese, whose code is hyphenated. */
  function EnglishPortuguese(): Registry
  {
    Registry([("en", "English"), ("pt-br", "Brazilian Portuguese")], "en")
  }

  lemma EnglishFrenchSuffixes()
    ensures EnglishFrench().Codes() == ["en", "fr"]
    ensures Suffix("en") == "en" && Suffix("fr") == "fr"
    ensures SuffixesDistinct(EnglishFrench())
  {
    assert EnglishFrench().Codes() == ["en", "fr"];
    assert Suffix("en") == "en";
    assert Suffix("fr") == "fr";
  }

  lemma EnglishPortugueseSuffixes()
    ensures EnglishPortuguese().Codes() == ["en", "pt-br"]
    ensures Suffix("en") == "en" && Suffix("pt-br") == "pt_br"
    ensures SuffixesDistinct(EnglishPortuguese())
  {
    assert EnglishPortuguese().Codes() == ["en", "pt-br"];
    assert Suffix("en") == "en";
    assert Suffix("pt-br") == "pt_br";
  }

  /**
    As written, `set_translation_fields` looks the overlay up by display name: a
    record whose French title is stored gives the form no initial value at all.
   */
  lemma DisplayNameLookupFindsNothing(mode: Mode)
    ensures var translations := Some(map["fr" := map["title" := Str("Bonjour")]]);
      InitialsAsWritten(EnglishFrench(), mode, ["title"], ["title"], translations) == []
  {
    var translations := Some(map["fr" := map["title" := Str("Bonjour")]]);
    InitialsAsWrittenLookUpDisplayNames(EnglishFrench(), mode, ["title"], ["title"], translations);
  }

  /** Looking the overlay up by code, the French clone starts with the stored French title. */
  lemma CodeLookupFindsTranslation(reg: Registry, names: seq<string>, translations: Option<Translations>, title: Value)
    requires reg == EnglishFrench() && names == ["title"]
    requires translations == Some(map["fr" := map["title" := title]])
    ensures var result := Assign(map[], Initials(reg, Multi, names, names, translations));
      "title__trans__fr" in result && result["title__trans__fr"] == title
  {
    assert SuffixesDistinct(reg) && "fr" in reg.Codes() by {
      EnglishFrenchSuffixes();
    }
    assert forall g :: g in names ==> !Contains(g, "__") by {
      LacksFirstChar("title", "__");
    }
    assert Stored(translations, "fr");
    InitialValueOfClone(reg, names, names, translations, "title", "fr");
    FrenchTitleClone();
  }

  lemma FrenchTitleClone()
    ensures CloneName("title", "fr") == "title__trans__fr"
  {
    assert Suffix("fr") == "fr";
  }

  /**
    As written, `_post_clean` sends the Brazilian Portuguese clone's value to
    `translate('pt_br', ...)`; `pt_br` is not registered, so it counts as the
    default locale: the value is written to the native field and the overlay never
    receives it.
   */
  lemma HyphenatedCodeLost(cfg: Config, schema: Schema, store: Upload -> string, st: RecordState, v: Value,
                           activeLanguage: string, ambient: string)
    requires cfg.reg == EnglishPortuguese()
    ensures TranslateCall(Multi, activeLanguage, (CloneName("title", "pt-br"), v)) == ("pt_br", [("title", v)])
    ensures IsDefault(cfg.reg, "pt_br", ambient)
    ensures var r := Translate(cfg, schema, store, st, "pt_br", [("title", v)], ambient).0;
      && r.translations == st.translations
      && ("title" in schema.translatable ==> r.native == st.native["title" := v])
  {
    PortugueseTitleCall(activeLanguage, v);
    UnderscoreCodeIsDefault(cfg.reg, ambient);
    TranslateDefaultWritesNative(cfg, schema, store, st, "pt_br", [("title", v)], ambient);
    if "title" in schema.translatable {
      var kw := [("title", v)];
      assert FirstUntranslatable(kw, schema.translatable) == 1;
      assert kw[..1] == kw;
      assert Assign(st.native, kw) == st.native["title" := v];
    }
  }

  lemma PortugueseTitleCall(activeLanguage: string, v: Value)
    ensures TranslateCall(Multi, activeLanguage, (CloneName("title", "pt-br"), v)) == ("pt_br", [("title", v)])
  {
    EnglishPortugueseSuffixes();
    LacksFirstChar("title", "__");
    MultiCallOfClone(activeLanguage, "title", "pt-br", v);
  }

  lemma UnderscoreCodeIsDefault(reg: Registry, ambient: string)
    requires reg == EnglishPortuguese()
    ensures IsDefault(reg, "pt_br", ambient)
    ensures IsDefault(reg, Resolve(reg, "pt_br", ambient), ambient)
  {
    assert reg.Codes() == ["en", "pt-br"];
  }

  /**
    Mapping the suffix back to its registered code, the same clone's value is
    stored under `translations['pt-br']['title']` and the native fields stay as
    they were.
   */
  lemma HyphenatedCodeKept(cfg: Config, schema: Schema, store: Upload -> string, st: RecordState, v: Value,
                           activeLanguage: string, ambient: string)
    requires cfg.reg == EnglishPortuguese()
    requires "title" in schema.translatable
    requires !v.File?
    ensures IntendedCall(cfg.reg.Codes(), Multi, activeLanguage, (CloneName("title", "pt-br"), v)) == ("pt-br", [("title", v)])
    ensures var r := Translate(cfg, schema, store, st, "pt-br", [("title", v)], ambient).0;
      && r.native == st.native
      && r.translations.Some? && "pt-br" in r.translations.value
      && "title" in r.translations.value["pt-br"] && r.translations.value["pt-br"]["title"] == v
  {
    EnglishPortugueseSuffixes();
    LacksFirstChar("title", "__");
    IntendedCallOfClone(cfg.reg, activeLanguage, "title", "pt-br", v);
    assert cfg.reg.Valid();
    assert FirstUntranslatable([("title", v)], schema.translatable) == 1;
    TranslateOtherWritesOverlay(cfg, schema, store, st, "pt-br", [("title", v)], ambient, 0);
  }

  // ---------------------------------------------------------------------------
  // The form

  /**
    A `TranslatableModelForm` of the given mode bound to a record. `cleanedData` is
    what Django's field cleaning leaves in `cleaned_data`; that cleaning is not
    modelled, so callers fill it in.
   */
  class TranslatableModelForm {
    const mode: Mode
    const instance: TranslatableRecord
    /** `self.active_language`, the ambient locale when the form was built. */
    const activeLanguage: string
    /** `fields` and `exclude` of the form's `Meta` (`None` and `[]` when absent). */
    const metaFields: Option<seq<string>>
    const metaExclude: seq<string>
    var fields: map<string, FormField>
    var translatableFields: seq<(string, FormField)>
    var cleanedData: seq<(string, Value)>

    /**
      `TranslatableModelFormMixin.__init__`: `formFields` are the fields Django built
      for the form; in multi mode every translatable one gets its clones, which are
      then added to `self.fields`.
     */
    constructor (mode: Mode, instance: TranslatableRecord, formFields: seq<(string, FormField)>,
                 metaFields: Option<seq<string>>, metaExclude: seq<string>, ambient: string)
      ensures this.mode == mode && this.instance == instance
      ensures this.metaFields == metaFields && this.metaExclude == metaExclude
      ensures activeLanguage == ambient
      ensures translatableFields == Clones(instance.cfg.reg, instance.schema.translatable, formFields, mode)
      ensures fields == Assign(Assign(map[], formFields), translatableFields)
      ensures cleanedData == []
    {
      var reg := instance.cfg.reg;
      var names := instance.schema.translatable;
      var clones: seq<(string, FormField)> := [];
      for i := 0 to |formFields|
        invariant clones == Clones(reg, names, formFields[..i], mode)
      {
        var (name, field) := formFields[i];
        assert formFields[..i + 1][..i] == formFields[..i];
        ghost var done := clones;
        if name in names && mode == Multi {
          var codes := reg.Codes();
          for j := 0 to |codes|
            invariant clones == done + FieldClones(codes[..j], reg.defaultCode, name, field)
          {
            assert codes[..j + 1][..j] == codes[..j];
            if codes[j] != reg.defaultCode {
              clones := clones + [(CloneName(name, codes[j]), field.(required := false))];
            }
          }
          assert codes[..|codes|] == codes;
        }
      }
      assert formFields[..|formFields|] == formFields;
      this.mode := mode;
      this.instance := instance;
      this.activeLanguage := ambient;
      this.metaFields := metaFields;
      this.metaExclude := metaExclude;
      this.translatableFields := clones;
      this.fields := Assign(Assign(map[], formFields), clones);
      this.cleanedData := [];
    }

    /**
      The loop of `_post_clean`: every selected cleaned entry is sent to the record's
      `translate` in order, and a `NonTranslatableFieldError` ends it.
     */
    method TranslateEntries(store: Upload -> string, ambient: string) returns (out: Outcome)
      modifies instance
      ensures (instance.State(), out) == TranslateEach(instance.cfg, instance.schema, store, old(instance.State()),
        TranslateCalls(mode, instance.schema.translatable, activeLanguage, cleanedData), ambient)
    {
      var names := instance.schema.translatable;
      var translatable := if mode == Multi then GetTranslationData(cleanedData) else GetSingleTranslationData(names, cleanedData);
      ghost var calls := TranslateCalls(mode, names, activeLanguage, cleanedData);
      ghost var goal := TranslateEach(instance.cfg, instance.schema, store, old(instance.State()), calls, ambient);
      out := Ok;
      TranslateCallAt(mode, names, activeLanguage, cleanedData, 0);
      for i := 0 to |translatable|
        invariant out == Ok
        invariant TranslateEach(instance.cfg, instance.schema, store, instance.State(), calls[i..], ambient) == goal
      {
        var (name, data) := translatable[i];
        TranslateCallAt(mode, names, activeLanguage, cleanedData, i);
        assert calls[i..][0] == calls[i] && calls[i..][1..] == calls[i + 1..];
        TranslateEachStep(instance.cfg, instance.schema, store, instance.State(), calls[i..], ambient);
        var code, kw;
        if mode == Multi {
          var (fieldName, langCode) := SplitAsWritten(name);
          code, kw := langCode, [(fieldName, data)];
        } else {
          code, kw := activeLanguage, [(name, data)];
        }
        assert (code, kw) == calls[i];
        out := instance.Translate(code, kw, ambient, store);
        if out != Ok {
          return;
        }
      }
      assert calls[|translatable|..] == [];
    }

    /**
      `_post_clean`: the cleaned entries go to `translate`; unless that raised,
      `construct_instance` then writes the model fields, with the selected entries'
      keys as its `translatable_fields`. Validation (`full_clean`) is not modelled.
     */
    method PostClean(omitted: set<string>, store: Upload -> string, ambient: string) returns (out: Outcome)
      modifies instance
      ensures var calls := TranslateCalls(mode, instance.schema.translatable, activeLanguage, cleanedData);
        var done := TranslateEach(instance.cfg, instance.schema, store, old(instance.State()), calls, ambient);
        && out == done.1
        && instance.State() ==
             if out == Ok then
               done.0.(native := Assign(done.0.native, Writes(cleanedData,
                 WrittenFields(instance.schema.fields, cleanedData, omitted, metaFields, metaExclude,
                               Keys(PostCleanData(mode, instance.schema.translatable, cleanedData))))))
             else done.0
    {
      out := TranslateEntries(store, ambient);
      if out == Ok {
        var translatable := PostCleanData(mode, instance.schema.translatable, cleanedData);
        ConstructInstance(cleanedData, omitted, instance, metaFields, metaExclude, Keys(translatable));
      }
    }
  }
}
