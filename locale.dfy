/**
  The locale registry and locale resolution shared by records, query sets and
  forms (`TranslationMixin` in json_trans/managers.py).

  A locale code that Python holds as `None` or `''` (both falsy, and treated alike
  by every function of the core) is the empty string here. The ambient locale,
  what `django.utils.translation.get_language()` returns, is the explicit
  parameter `ambient`.
 */
module Locale {

  /**
    `LANGUAGES` as its ordered (code, display name) pairs, and `LANGUAGE_CODE`.
    `default_language_code` of the mixin is the same setting as `LANGUAGE_CODE`.
   */
  datatype Registry = Registry(languages: seq<(string, string)>, defaultCode: string)
  {
    /** The registered codes, in registry order (`LANGUAGES.keys()`). */
    function Codes(): (r: seq<string>)
      ensures |r| == |languages|
      ensures forall i :: 0 <= i < |languages| ==> r[i] == languages[i].0
    {
      seq(|languages|, i requires 0 <= i < |languages| => languages[i].0)
    }

    /**
      A well-formed configuration: the default code is a non-empty string, no
      registered code is empty, and codes are distinct (an `OrderedDict` keeps one
      entry per code).
     */
    predicate Valid()
    {
      && defaultCode != ""
      && "" !in Codes()
      && forall i, j :: 0 <= i < j < |languages| ==> languages[i].0 != languages[j].0
    }
  }

  /**
    `get_language_code`: a falsy code is replaced by the ambient one; a registered
    code is returned as it is and anything else silently becomes the default.
   */
  function Resolve(reg: Registry, code: string, ambient: string): (r: string)
    ensures r in reg.Codes() || r == reg.defaultCode
    ensures reg.Valid() ==> r != ""
  {
    var requested := if code != "" then code else ambient;
    if requested in reg.Codes() then requested else reg.defaultCode
  }

  /** `is_default_language`: the code resolves to `LANGUAGE_CODE`. */
  predicate IsDefault(reg: Registry, code: string, ambient: string)
  {
    Resolve(reg, code, ambient) == reg.defaultCode
  }

  /** A registered code resolves to itself, whatever the ambient locale. */
  lemma ResolveRegistered(reg: Registry, code: string, ambient: string)
    requires code != "" && code in reg.Codes()
    ensures Resolve(reg, code, ambient) == code
  {
  }

  /** A falsy code resolves exactly as the ambient locale does. */
  lemma ResolveFalsyIsAmbient(reg: Registry, ambient: string)
    ensures Resolve(reg, "", ambient) == Resolve(reg, ambient, ambient)
  {
  }

  /**
    Resolution is idempotent, and a resolved code no longer depends on the ambient
    locale.
   */
  lemma ResolveIdempotent(reg: Registry, code: string, ambient: string, ambient': string)
    requires reg.Valid()
    ensures Resolve(reg, Resolve(reg, code, ambient), ambient') == Resolve(reg, code, ambient)
  {
  }

  /** Every non-empty unregistered code counts as the default locale. */
  lemma UnregisteredIsDefault(reg: Registry, code: string, ambient: string)
    requires code != "" && code !in reg.Codes()
    ensures IsDefault(reg, code, ambient)
  {
  }

  /** For a registered code, being the default locale is being `LANGUAGE_CODE`. */
  lemma RegisteredIsDefaultIff(reg: Registry, code: string, ambient: string)
    requires code != "" && code in reg.Codes()
    ensures IsDefault(reg, code, ambient) <==> code == reg.defaultCode
  {
  }

  /**
    A code that does not count as the default is a registered code other than
    `LANGUAGE_CODE`; so is every code it resolves to.
   */
  lemma NonDefaultIsRegistered(reg: Registry, code: string, ambient: string)
    requires reg.Valid()
    requires !IsDefault(reg, code, ambient)
    ensures Resolve(reg, code, ambient) in reg.Codes()
    ensures Resolve(reg, code, ambient) != reg.defaultCode
    ensures !IsDefault(reg, Resolve(reg, code, ambient), ambient)
  {
  }
}
