/**
  The values a record holds and the schema of a translatable record type
  (`_meta.fields` and the `translatable_fields` Meta option of
  json_trans/models.py).
 */
module Fields {
  import opened Wrappers

  /** An in-memory upload (`InMemoryUploadedFile`): its original name and its bytes. */
  datatype Upload = Upload(name: string, content: seq<bv8>)

  /**
    A field value: the scalars a JSON overlay holds, and an upload as a form
    delivers it before it is stored.
   */
  datatype Value =
    | Null
    | Bool(b: bool)
    | Int(i: int)
    | Str(s: string)
    | File(upload: Upload)

  /** Python truthiness of a value (a `File` is truthy when it has a name). */
  predicate Truthy(v: Value)
  {
    match v
    case Null => false
    case Bool(b) => b
    case Int(i) => i != 0
    case Str(s) => s != ""
    case File(u) => u.name != ""
  }

  /** The blank `''` that a missing translation is padded with. */
  const Blank: Value := Str("")

  /** The classes of model field the core tells apart: `ImageField`, `FileField` (which `ImageField` extends), the rest. */
  datatype FieldKind = PlainField | FileField | ImageField

  /** One model field as `_meta.fields` describes it. */
  datatype FieldSpec = FieldSpec(
    name: string,
    attname: string,
    kind: FieldKind,
    editable: bool,
    isAuto: bool)

  /** A record type: its model fields in declaration order and its translatable field names. */
  datatype Schema = Schema(fields: seq<FieldSpec>, translatable: seq<string>)

  /** `fields[i]` is the first model field named `name`. */
  predicate FirstNamed(fields: seq<FieldSpec>, name: string, i: nat)
  {
    i < |fields| && fields[i].name == name && forall j :: 0 <= j < i ==> fields[j].name != name
  }

  /**
    `_meta.get_field(name)`: the class of the first model field so named, or `None`
    when no model field has the name, where `get_field` raises `FieldDoesNotExist`.
   */
  function KindOf(fields: seq<FieldSpec>, name: string): (k: Option<FieldKind>)
    ensures forall i: nat :: FirstNamed(fields, name, i) ==> k == Some(fields[i].kind)
    ensures k.None? <==> forall i :: 0 <= i < |fields| ==> fields[i].name != name
    ensures k.Some? ==> exists i :: 0 <= i < |fields| && fields[i].name == name && fields[i].kind == k.value
  {
    if fields == [] then None
    else if fields[0].name == name then Some(fields[0].kind)
    else
      var k := KindOf(fields[1..], name);
      assert forall i: nat :: FirstNamed(fields, name, i) ==> i >= 1 && FirstNamed(fields[1..], name, i - 1);
      assert k.Some? ==> exists i :: 1 <= i < |fields| && fields[i].name == name && fields[i].kind == k.value by {
        if k.Some? {
          var i :| 0 <= i < |fields[1..]| && fields[1..][i].name == name && fields[1..][i].kind == k.value;
          assert fields[i + 1] == fields[1..][i];
        }
      }
      assert k.None? ==> forall i :: 0 <= i < |fields| ==> fields[i].name != name by {
        if k.None? {
          forall i | 0 <= i < |fields| ensures fields[i].name != name {
            if i > 0 { assert fields[i] == fields[1..][i - 1]; }
          }
        }
      }
      k
  }
}
