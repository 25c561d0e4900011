# json_trans in Dafny

A model of the core of `django-json-trans`. The library keeps the translations of a
Django model in one JSON column. A record stores its default-locale values in its own
(native) fields. It stores every other locale's values in `translations`, a document that
maps locale code → field name → value.

The model covers three parts of the library:

- **Records** (`TranslatableModel`). Locale resolution (`get_language_code`,
  `is_default_language`), field reads through the translated view (`__getattribute__`),
  `translate`, `language`, `language_or_none`, `language_as_dict`, `reset_language`,
  `populate_translations`, the state part of `save` and the skip rule of `clean_fields`.
- **Queries** (`TranslationQuerySet`, its model iterable and `TranslationManager`). The
  locale a query set carries, how `filter` redirects lookups on translatable fields into
  the overlay entry, the `has_key` restriction of `language`, and the JSON-path ordering
  term of `order_by_json_path`.
- **Forms** (`TranslatableModelFormMixin`, `TranslatableModelForm`, `construct_instance`).
  The per-locale clone fields of a multi-language form and how cleaned data goes back to
  `translate`. Which model fields `construct_instance` writes, and in what order. The
  initial values `set_translation_fields` gathers.

Layout, one module per file:

- `wrappers.dfy`: `Option`.
- `strings.dfy`: `in`, `split` and `replace` on strings, with Python's semantics.
- `collections.dfy`: filtered comprehensions, and dictionaries as ordered pairs. `Assign`
  is a run of `d[k] = v` assignments.
- `locale.dfy`: the locale registry and locale resolution.
- `fields.dfy`: values, model fields and schemas.
- `overlay.dfy`: each operation of a record as a function on the record's state, with the
  properties of those functions.
- `records.dfy`: `TranslatableRecord`. It is a class whose methods update the record's
  fields step by step. Each method is proved to end in the state the matching
  `overlay.dfy` function gives.
- `queries.dfy`: the query set and the manager, as classes.
- `forms.dfy`: the form as a class. The functions that specify it are in the same file.

Collaborators outside the model are explicit parameters:

- The ambient locale (`get_language()`) is `ambient`.
- The file storage (`fs.save` followed by `fs.url`) is `store: Upload -> string`.
- `settings.LANGUAGES` and `LANGUAGE_CODE` form a `Registry`. `Registry.Valid()` says
  three things: the default code is not empty, no code is empty, and codes are distinct.
- A Python locale code that is `None` or `''` is the empty string. Every function of the
  core treats those two values alike.

## Model

| member | source | states |
|---|---|---|
| Strings.IndexOf | json_trans/forms.py:82 | the result is the leftmost position where the separator occurs; `None` only when it occurs nowhere |
| Strings.Split | json_trans/forms.py:94 | Python `split` with a non-empty separator: at least one piece; no piece holds the separator; joining the pieces with the separator gives the input back |
| Strings.ReplaceChar | json_trans/forms.py:71 | same length; every `a` becomes `b` and every other character is kept; when `a` and `b` differ no `a` is left; a string without `a` comes back unchanged |
| Collections.Filter | json_trans/forms.py:80-86 | a comprehension with a condition: the result holds only elements of the input that satisfy it, and each of those with its full multiplicity (as multisets, the result is the input restricted to the condition) |
| Collections.FilterConcat | json_trans/forms.py:80-86 | order: filtering a concatenation concatenates the filtered parts, so the kept elements keep their relative order |
| Collections.Keys | json_trans/forms.py:112 | one key per pair, position by position; a key is listed exactly when some pair carries it |
| Collections.Get | json_trans/forms.py:44 | `d.get(k)` finds a value exactly when `k` is a key, and that value is paired with `k` |
| Collections.AssignKeys | json_trans/forms.py:78 | after `update`, the keys are the old keys plus the keys of the pairs assigned |
| Collections.AssignDistinct | json_trans/models.py:119-135 | with distinct keys (keyword arguments), every pair ends up in the dictionary |
| Collections.AssignIdempotent | json_trans/models.py:119-135 | performing the same assignments twice leaves what performing them once leaves |
| Collections.AssignKeepsOthers | json_trans/models.py:135 | assignments that never name a key leave its value as it was |
| Locale.Resolve | json_trans/managers.py:18-25 | the result is a registered code or `LANGUAGE_CODE`; it is non-empty for a valid registry |
| Locale.IsDefault | json_trans/managers.py:27-29 | the code resolves to `LANGUAGE_CODE` (definition; its consequences are the lemmas `UnregisteredIsDefault`, `RegisteredIsDefaultIff` and `NonDefaultIsRegistered`) |
| Locale.ResolveRegistered | json_trans/managers.py:22-23 | a registered code resolves to itself, whatever the ambient locale |
| Locale.ResolveFalsyIsAmbient | json_trans/managers.py:19-20 | a falsy code resolves as the ambient locale does |
| Locale.ResolveIdempotent | json_trans/managers.py:18-25 | resolving twice gives what resolving once gives, under any ambient locale |
| Locale.UnregisteredIsDefault | json_trans/managers.py:24-29 | every non-empty unregistered code counts as the default locale |
| Locale.RegisteredIsDefaultIff | json_trans/managers.py:27-29 | a registered code is the default locale exactly when it is `LANGUAGE_CODE` |
| Locale.NonDefaultIsRegistered | json_trans/managers.py:27-29 | a code that is not the default resolves to a registered code other than `LANGUAGE_CODE`, which is itself not the default |
| Fields.KindOf | json_trans/models.py:65-69 | `_meta.get_field`: the kind of the first model field with that name, so a file or image field yields its own class; nothing (`FieldDoesNotExist`) exactly when no model field has the name |
| Overlay.ReadAs | json_trans/models.py:64-71 | a translatable field read from the view raises `FieldDoesNotExist` exactly when no model field has the name; otherwise the value wrapped by the first such field's class |
| Overlay.GetField | json_trans/models.py:50-79 | a non-translatable field, or any field while the ambient locale is the default, reads natively; a translated view that defines the field supplies it (wrapped for file and image fields), in both directions; `FieldDoesNotExist` exactly when such a read names no model field; otherwise the native value |
| Overlay.Padded | json_trans/models.py:103-108 | keys are the entry's plus every translatable field; stored values are kept; added ones are `''` |
| Overlay.Reset | json_trans/models.py:140-142 | no view, and the ambient locale as `_language_code` (definition; `SelectLanguage` states what follows) |
| Overlay.SelectLanguage | json_trans/models.py:144-161 | `_language_code` becomes the resolved code; the default locale has no view; otherwise there is no view exactly when the entry is empty and `fallback` is on; the view is the stored entry padded: every stored value kept, every missing translatable field `''`; a stored entry is padded in place |
| Overlay.SelectedMissingFieldReadsBlank | json_trans/models.py:103-108 | with `fallback` off, a translatable field the selected entry lacks reads as `''` under a non-default ambient locale |
| Overlay.LanguageOrNone | json_trans/models.py:163-172 | `None` exactly when the resolved code is not the default and its stored entry is empty; otherwise the record after `language` |
| Overlay.LanguageAsDict | json_trans/models.py:174-190 | for the default locale, the translatable native values; otherwise exactly the translatable stored values that are truthy |
| Overlay.FirstUntranslatable | json_trans/models.py:119-121 | every keyword before the result is translatable, and the one at the result is not |
| Overlay.StoredValues | json_trans/models.py:126-135 | the same keywords in the same order; no upload survives: an upload becomes its stored URL and every other value is kept |
| Overlay.Prepared | json_trans/models.py:113-117 | the overlay gains an entry for the code; every stored entry is kept |
| Overlay.Translate | json_trans/models.py:110-138 | `_language_code` becomes the resolved code; the call succeeds exactly when every keyword is translatable; an error names the first untranslatable keyword and leaves the view alone |
| Overlay.Written | json_trans/models.py:111-135 | `_language_code` becomes the code and the view is untouched; for the default locale the overlay is unchanged; otherwise the native fields are unchanged and the overlay gains exactly the code's entry |
| Overlay.Save | json_trans/models.py:192-201 | the overlay is not null afterwards, and a falsy overlay becomes `{}`; every stored value is kept; the native values are unchanged; the resolved remembered locale is selected: there is a view exactly when that locale is not the default and not (empty entry with `fallback` on), and it is the stored entry padded; no locale is added, the other locales' entries are unchanged, and a stored selected entry is padded in place to equal the view |
| Overlay.TranslateDefaultWritesNative | json_trans/models.py:119-124 | for the default locale the applied keywords are written to the native fields and the overlay is untouched |
| Overlay.ResolveOfDefault | json_trans/managers.py:27-29 | a code whose resolution is the default locale is itself the default |
| Overlay.TranslateOtherWritesOverlay | json_trans/models.py:113-135 | for another locale the native fields are untouched; each applied keyword's stored value lands in that locale's entry; every other locale's entry is unchanged |
| Overlay.WrittenOtherWritesOverlay | json_trans/models.py:113-135 | the keyword loop for another locale leaves the native fields alone, stores each applied value in that locale's entry and leaves every other entry unchanged |
| Overlay.TranslateOtherKeepsRest | json_trans/models.py:110-138 | for another locale, whatever the keywords (none, or a failing first one, included): the native fields are untouched, the locale's entry exists afterwards, every other locale's entry is unchanged, and stored values no keyword names are kept |
| Overlay.WrittenOtherKeepsRest | json_trans/models.py:113-135 | the keyword loop for another locale keeps the native fields, every other entry, and the stored values no keyword names; the locale's entry exists |
| Overlay.SelectKeepsEntries | json_trans/models.py:153-159 | `language` keeps the native fields and every stored overlay value; it only changes the entry of the selected locale |
| Overlay.SelectIdempotent | json_trans/models.py:144-161 | selecting the same locale again changes nothing |
| Overlay.TranslateIdempotent | json_trans/models.py:110-138 | repeating a `translate` call leaves the same state and outcome |
| Overlay.RewriteOtherAbsorbed | json_trans/models.py:113-135 | for another locale, writing the same keywords again into the state `translate` left changes nothing |
| Overlay.WrittenAbsorbed | json_trans/models.py:113-135 | writing keywords into an entry that already holds their stored values changes nothing |
| Overlay.TranslateThenRead | json_trans/models.py:50-79 | round trip: after `translate(code, name=v)`, a read under that locale gives `v`; after switching to the default locale, the read gives the native value |
| Overlay.TranslateThenAsDict | json_trans/models.py:174-190 | what `translate` stores for a locale appears in `language_as_dict` for it when truthy |
| Overlay.AsDictOfStored | json_trans/models.py:174-190 | a truthy value stored for a translatable field under a registered non-default code appears in `language_as_dict` for that code |
| Overlay.SelectUnregisteredIsDefault | json_trans/models.py:144-150 | `language` with an unregistered code behaves exactly as with `LANGUAGE_CODE` |
| Overlay.LanguageOrNoneFound | json_trans/models.py:163-172 | when a non-default translation is found, the view holds every translatable field and every stored value |
| Overlay.SaveRestoresLocale | json_trans/models.py:192-201 | `save` gives back a locale that was already resolved |
| Overlay.SelectKeepsWellFormed | json_trans/models.py:153-159 | `language` keeps the overlay holding only registered non-default codes |
| Overlay.TranslateKeepsWellFormed | json_trans/models.py:113-117 | `translate` keeps the overlay holding only registered non-default codes |
| Overlay.SaveKeepsWellFormed | json_trans/models.py:196-201 | `save` keeps the overlay holding only registered non-default codes |
| Records.PopulateTranslations | json_trans/models.py:103-108 | the loop leaves exactly the padded entry |
| Records.FieldsToClean | json_trans/models.py:85-88 | the fields validated are the non-excluded, non-translatable ones in model order |
| Records.TranslatableRecord.constructor | json_trans/models.py:46-48 | the stored values, the unresolved ambient locale, and no view |
| Records.TranslatableRecord.ResetLanguage | json_trans/models.py:140-142 | the new state is `Reset` of the old one |
| Records.TranslatableRecord.Language | json_trans/models.py:144-161 | the new state is `SelectLanguage` of the old one |
| Records.TranslatableRecord.LanguageOrNone | json_trans/models.py:163-172 | the state and the found flag are `LanguageOrNone` of the old state |
| Records.TranslatableRecord.Translate | json_trans/models.py:110-138 | the state and outcome are `Translate` of the old state |
| Records.TranslatableRecord.WriteKeywords | json_trans/models.py:111-135 | stops at the first untranslatable keyword, having written the keywords before it |
| Records.TranslatableRecord.Save | json_trans/models.py:192-201 | the new state is `Save` of the old one |
| Records.TranslatableRecord.SetAttr | json_trans/forms.py:44 | one native attribute changes and nothing else |
| Queries.FilterKwargs | json_trans/managers.py:68-76 | one predicate per keyword, in order, values unchanged; a key is redirected exactly when the locale is not the default and the key starts with a translatable field |
| Queries.RootName | json_trans/managers.py:71 | the root holds no `__`, and a key without `__` is its own root |
| Queries.RewriteKey | json_trans/managers.py:73 | the redirected key (definition; `RewrittenKeyPath` states its lookup path) |
| Queries.RewrittenKeyPath | json_trans/managers.py:73 | a redirected key is the path `translations`, then the locale, then the original lookup path |
| Queries.CodeThenKey | json_trans/managers.py:73 | a code without `__` followed by `__` and a key splits into the code and the key's pieces |
| Queries.DefaultFilterUnchanged | json_trans/managers.py:69 | under the default locale every predicate passes unchanged |
| Queries.FilterRedirectsTranslatable | json_trans/managers.py:68-76 | under another locale no predicate starts with a translatable field any more: redirected ones walk into the locale's entry, and the others are untouched |
| Queries.HasKeyUnchanged | json_trans/managers.py:61 | the `translations__has_key` restriction passes through `filter` unchanged |
| Queries.OrderCode | json_trans/managers.py:88 | the argument code (unvalidated), else the query's code, else the resolved ambient locale |
| Queries.JsonPath | json_trans/managers.py:89 | the path literal (definition; `JsonPathElements` states its elements) |
| Queries.JsonPathElements | json_trans/managers.py:89 | the path literal is braced, and its elements are the locale followed by the path's elements |
| Queries.JsonPathOrder | json_trans/managers.py:88-95 | the ordering is descending exactly when `order == 'desc'`; its path is built from the chosen locale |
| Queries.TranslationQuerySet.constructor | json_trans/managers.py:43-46 | a new query set starts at the resolved ambient locale with no filters |
| Queries.TranslationQuerySet.Clone | json_trans/managers.py:63-66 | a fresh query set with the same state, `_language_code` included |
| Queries.TranslationQuerySet.LanguageOrDefault | json_trans/managers.py:48-51 | the same query set, switched to the resolved code |
| Queries.TranslationQuerySet.Filter | json_trans/managers.py:68-76 | a fresh clone with one more filter call, whose keys are rewritten as `FilterKwargs` says |
| Queries.TranslationQuerySet.Language | json_trans/managers.py:53-61 | switches to the resolved code; for the default it returns itself; otherwise a clone restricted by `has_key` on the code |
| Queries.TranslationQuerySet.OrderByJsonPath | json_trans/managers.py:78-97 | a fresh clone whose ordering is the JSON-path term |
| Queries.TranslationQuerySet.Iterate | json_trans/managers.py:32-37 | each yielded record has selected the query's locale when that is truthy; others are untouched |
| Queries.TranslationManager.GetQueryset | json_trans/managers.py:103-108 | a fresh query set at the resolved code; the `has_key` restriction of `language` is dropped |
| Queries.TranslationManager.LanguageOrDefault | json_trans/managers.py:110-113 | a fresh query set at the resolved code, with no filters |
| Queries.TranslationManager.Language | json_trans/managers.py:115-118 | the default locale gives an unrestricted query set; any other gives one restricted by `has_key` on the code |
| Queries.TranslationManager.OrderByJsonPath | json_trans/managers.py:120-127 | a fresh query set with no filters, ordered by the JSON-path term; descending exactly for `'desc'` |
| Forms.SplitCloneName | json_trans/forms.py:94 | splitting a clone name gives exactly the field name and the code's suffix |
| Forms.CloneName | json_trans/forms.py:71 | the clone name `field__trans__suffix` (definition; `SplitCloneName` and `CloneNameInjective` state its properties) |
| Forms.SplitAsWritten | json_trans/forms.py:94-96 | as written: the first and last pieces; neither holds `__trans__`, and a key without it gives itself twice |
| Forms.SplitAsWrittenOfClone | json_trans/forms.py:94-96 | the split as written recovers the field, and recovers the code only as its suffix (exactly, for codes without `-`) |
| Forms.CodeForSuffix | json_trans/forms.py:94-96 | corrected half of the hyphenated-code finding: a registered code whose suffix matches, whenever one exists |
| Forms.SplitClone | json_trans/forms.py:94-96 | corrected half: the split `_post_clean` is meant to make, the field and the registered code of the suffix (definition; `SplitCloneRoundTrip` states its round trip) |
| Forms.SplitCloneRoundTrip | json_trans/forms.py:94-96 | corrected half: splitting a clone name gives back the field and the registered code, hyphenated codes included |
| Forms.CloneNameInjective | json_trans/forms.py:71 | distinct (field, code) pairs give distinct clone names |
| Forms.FieldClones | json_trans/forms.py:67-74 | a clone, not required, for each non-default code and nothing else |
| Forms.Clones | json_trans/forms.py:64-74 | the clones of every translatable form field in form order, multi mode only (definition; `ClonesSound` and `ClonesComplete` state it both ways) |
| Forms.ClonesSound | json_trans/forms.py:64-74 | every clone belongs to a translatable form field and a non-default code, and is not required; clones exist in multi mode only |
| Forms.ClonesComplete | json_trans/forms.py:64-74 | in multi mode, every translatable form field has its clone for every non-default code |
| Forms.ClonesInFields | json_trans/forms.py:78 | after `update`, every clone is a form field and is not required |
| Forms.GetTranslationData | json_trans/forms.py:80-82 | exactly the cleaned entries whose key contains `__trans__` |
| Forms.GetSingleTranslationData | json_trans/forms.py:84-86 | exactly the cleaned entries whose key is a translatable field |
| Forms.FirstFields | json_trans/forms.py:27-44 | exactly the eligible non-file fields whose `attname` is not translatable |
| Forms.DeferredFields | json_trans/forms.py:27-41 | exactly the eligible file and image fields |
| Forms.WrittenFields | json_trans/forms.py:27-47 | only eligible fields; no non-file field with a translatable `attname`; every other eligible field; file fields after all the others |
| Forms.Writes | json_trans/forms.py:44-47 | one write per field, in order, under the field's name; a field present in the cleaned data receives exactly its cleaned pair, any other one `None` |
| Forms.WriteFirstFields | json_trans/forms.py:26-45 | the first loop writes `FirstFields` and collects the file fields |
| Forms.WriteDeferredFields | json_trans/forms.py:46-47 | the second loop writes the deferred file fields' cleaned values in their order |
| Forms.ConstructInstance | json_trans/forms.py:14-49 | the record's native fields end as the writes of `WrittenFields`, in order |
| Forms.PostCleanData | json_trans/forms.py:90 | in multi mode exactly the cleaned entries whose key holds `__trans__`; in single mode exactly those whose key is a translatable field |
| Forms.TranslateCall | json_trans/forms.py:92-101 | as written: multi mode splits the key with `SplitAsWritten`; single mode uses the active locale (definition; `MultiCallOfClone` states what a clone gives) |
| Forms.IntendedCall | json_trans/forms.py:94-98 | corrected half: multi mode maps the suffix back to its registered code (definition; `IntendedCallOfClone` states it) |
| Forms.TranslateCalls | json_trans/forms.py:92-101 | one call per selected entry, in order (definition; `TranslateCallAt` states it) |
| Forms.TranslateCallAt | json_trans/forms.py:92-101 | there is exactly one call per selected entry, made from that entry |
| Forms.MultiCallOfClone | json_trans/forms.py:92-98 | as written: a clone's value goes to its field under the code's suffix, which is the code itself exactly when the code has no `-` |
| Forms.IntendedCallOfClone | json_trans/forms.py:92-98 | corrected half: a clone's value goes to its field under the registered code the clone was made for |
| Forms.SingleCalls | json_trans/forms.py:100-101 | in single mode every call uses the active locale and carries one translatable cleaned entry |
| Forms.TranslateEach | json_trans/forms.py:92-101 | the calls succeed exactly when every keyword is translatable; an error names an untranslatable field |
| Forms.SingleModeNeverRaises | json_trans/forms.py:84-101 | single mode never raises `NonTranslatableFieldError` |
| Forms.InitialsAsWrittenLookUpDisplayNames | json_trans/forms.py:150-155 | as written, nothing is gathered unless some display name is a stored locale |
| Forms.FieldInitialsAsWritten | json_trans/forms.py:150-155 | as written, for one field: exactly the pairs `field__trans__<display name>` with the value of a stored entry under that display name; a missing entry is skipped |
| Forms.InitialsAsWritten | json_trans/forms.py:146-155 | as written: nothing in single mode; every pair comes from a translatable name of `Meta.fields` and a registry display name that is a stored locale, keyed `field__trans__<display name>`; in multi mode every such pair is gathered |
| Forms.FieldInitials | json_trans/forms.py:150-152 | corrected half: exactly one value per code with a stored entry, under the clone's name |
| Forms.Initials | json_trans/forms.py:141-157 | corrected half: nothing in single mode; in multi mode exactly the clone values of the translatable fields named, looked up by code |
| Forms.InitialValueOfClone | json_trans/forms.py:147-152 | corrected half: each clone's initial value is the stored value of its field in its locale |
| Forms.SetTranslationFields | json_trans/forms.py:141-157 | as written: the loops leave exactly the dictionary of `InitialsAsWritten`, looked up and keyed by display name, so nothing in single mode and, in multi mode, exactly the entries stored under a display name |
| Forms.DisplayNameLookupFindsNothing | json_trans/forms.py:150-152 | counterexample: a stored French title yields no initial value as written |
| Forms.CodeLookupFindsTranslation | json_trans/forms.py:150-152 | looked up by code, the French clone receives the stored French title |
| Forms.HyphenatedCodeLost | json_trans/forms.py:94-98 | counterexample: as written the `pt-br` clone is sent to `pt_br`, which counts as the default locale, so the overlay is unchanged and the value is written to the native field |
| Forms.HyphenatedCodeKept | json_trans/forms.py:94-98 | corrected half: with the intended call, the value lands in `translations['pt-br']` and the native fields are untouched |
| Forms.TranslatableModelForm.constructor | json_trans/forms.py:55-78 | the clones are those of `Clones`, added to the form fields after the form's own |
| Forms.TranslatableModelForm.TranslateEntries | json_trans/forms.py:90-101 | as written: the record's state and outcome are `TranslateEach` of `TranslateCalls`, the multi-mode keys split with `SplitAsWritten` |
| Forms.TranslatableModelForm.PostClean | json_trans/forms.py:88-112 | as written: the `translate` calls of `TranslateCalls`, then, unless one raised, the writes of `construct_instance` with the selected keys as `translatable_fields` |

## Left out

- The database: queries are values (locale, filter calls, ordering) and are never
  evaluated; `save` is modelled only for the state it leaves on the record. `full_clean`,
  `validate_unique`, `_get_validation_exclusions` and the `InlineForeignKeyField`
  exclusion list of `_post_clean` (json_trans/forms.py:103-123) only feed validation and
  are not modelled.
- The dead `elif` branch of `__getattribute__` (json_trans/models.py:73-77): a `Language`
  view has no `__iter__`, so that branch is never taken; the model falls through to the
  native value, as the code does.
- `JSONEncoder`, file URLs of `FieldFile` objects, labels, placeholders and `deepcopy` of
  form fields, `print`: presentation only.
- File storage (`fs.save`, `fs.url`, `MEDIA_ROOT`) is the parameter `store`; the
  replacement of the last model field's `save_form_data` with a no-op when an upload is
  translated (json_trans/models.py:128) is a global side effect on the field class and is
  not modelled.
- `default_language` set by `language` (json_trans/models.py:152) is never read by the
  core and is not modelled.
- json_trans/admin.py, json_trans/middleware.py, json_trans/exceptions.py and setup.py
  are not part of this model.
- Forms.TranslatableModelForm.constructor: takes the form's fields as a parameter; the
  fallback to the model's fields when the form has none (json_trans/forms.py:62) is not
  modelled, since `.items()` on that tuple would fail; `self.fields` is a map, so its order
  is not kept. The merging of the gathered initial values into `initial`
  (json_trans/forms.py:128-139) is not modelled.
- Forms.ConstructInstance: `value_omitted_from_data` of a defaulted field's widget is the
  set `omitted` of such field names; `save_form_data` is a plain attribute write (Django's
  special handling of `None` and `False` for file fields is not modelled); the unused `lang`
  parameter is dropped.
- Forms.SetTranslationFields: `Meta.fields` is a list of names (`fieldNames`); `None` and
  `'__all__'` are not modelled. It is modelled as a method of a form whose
  `translatable_field_names` exists. `TranslatableModelForm.__init__` calls it
  (json_trans/forms.py:132) before `super().__init__` (json_trans/forms.py:139), and that
  attribute is only set there (json_trans/forms.py:58). So a multi-mode form built with an
  instance and a non-empty `Meta.fields` raises `AttributeError` at
  json_trans/forms.py:149, and the model does not capture that failure.
- Queries.FilterKwargs: `filter` deletes and re-inserts keys of `kwargs` while iterating
  over `kwargs.items()` (json_trans/managers.py:70-74). The model visits each keyword once,
  keeps it in its place, and rewrites it or not. CPython moves re-inserted keys to the end
  of the dictionary. From Python 3.8 on, iteration raises `RuntimeError` ("dictionary keys
  changed during iteration") once it reaches a key inserted during the loop. Key order and
  that error are not modelled; the conjunction of the predicates does not depend on the
  order.
- Values: only `None`, booleans, integers, strings and uploads are modelled. Floats, lists
  and dictionaries that the JSON overlay may hold are not. The core passes such values
  through unchanged, except that `language_as_dict` tests their truthiness.
- Overlay.TranslateIdempotent: the upload case rests on `store` being a function of the
  upload. Django's storage (`fs.save`, json_trans/models.py:132) picks a fresh name when
  the file already exists, so repeating a call with an upload stores a second copy under
  another URL.
- Forms.SplitCloneName: requires field names without `__`, which Django refuses as field
  names, and codes whose suffix has no `__trans__`.
- Overlay.SaveRestoresLocale: holds only when `_language_code` was already a resolved
  locale; an unresolved ambient code (the one `__init__` stores) comes back resolved.
- Queries.TranslationManager.LanguageOrDefault: its result is stated only for a valid
  registry (non-empty default, no empty code).
- Queries.TranslationManager.Language: its result is stated only for a valid registry.
- Queries.TranslationManager.OrderByJsonPath: its full state is stated only for a valid
  registry.
- Concurrency and the thread-local nature of `get_language()` are not modelled; the
  ambient locale is one parameter per call.

## Findings

| source | as written | input that shows it | evidently intended | confidence | as-written member | corrected member |
|---|---|---|---|---|---|---|
| json_trans/forms.py:150-152 | `for lang, lang_code in LANGUAGES.items()` binds the display name to `lang_code`, which is then both the overlay lookup key and the clone-name suffix | `LANGUAGES = [("en", "English"), ("fr", "French")]`, multi mode, `Meta.fields = ["title"]`, `translations = {"fr": {"title": "Bonjour"}}` gives `{}`. It is reached only when `set_translation_fields` runs after the mixin's `__init__`; called from `TranslatableModelForm.__init__` (json_trans/forms.py:132), line 149 raises `AttributeError` first (see "Left out") | look the overlay up by code and key the value by the clone name, giving `{"title__trans__fr": "Bonjour"}` | high, not executed | Forms.DisplayNameLookupFindsNothing | Forms.CodeLookupFindsTranslation |
| json_trans/forms.py:94-98 | the locale taken from a clone name is its suffix, in which `-` was replaced by `_` (json_trans/forms.py:71); that suffix is not a registered code, so `translate` treats it as the default locale and writes the native field | `LANGUAGES = [("en", ...), ("pt-br", ...)]`, `LANGUAGE_CODE = "en"`, cleaned entry `title__trans__pt_br = v` | translate `v` into `pt-br`, leaving the native field alone. As written, `construct_instance` then writes `title` again from the cleaned data, so the `pt-br` value is lost altogether | high, not executed | Forms.HyphenatedCodeLost | Forms.HyphenatedCodeKept |

`Forms.TranslatableModelForm.PostClean` and `Forms.SetTranslationFields` follow the code
as written: `TranslateCall` splits with `SplitAsWritten`, and `InitialsAsWritten` looks the
overlay up by display name. The corrected halves stand beside them. `IntendedCall`,
`SplitClone` and `CodeForSuffix` map a suffix back to its registered code. `Initials`
looks the overlay up by code. Lemmas state each half's properties.
