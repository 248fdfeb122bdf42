/**
 The backend's declared step schema (`SCHEMA`) and the subset of JSON
 Schema 2020-12 it uses: `type` (section 6.1.1 of JSON Schema Validation),
 `required` (section 6.5.3 of JSON Schema Validation), `properties` and
 `additionalProperties` (sections 10.3.2.1 and 10.3.2.3 of JSON Schema Core).
 */
module Schema {

  datatype Json =
    | JNull
    | JBool(b: bool)
    | JNum(n: int)
    | JStr(s: string)
    | JArr(items: seq<Json>)
    | JObj(fields: map<string, Json>)

  /** The primitive types a `type` keyword can name. */
  datatype JsonType = TNull | TBoolean | TNumber | TString | TArray | TObject

  /**
   An object schema: `type`, the `required` names, the `type` declared
   for each entry of `properties`, and the boolean `additionalProperties`.
   */
  datatype ObjectSchema = ObjectSchema(
    kind: JsonType,
    required: seq<string>,
    properties: map<string, JsonType>,
    additionalProperties: bool)

  /** One reason a document is rejected, naming the offending field. */
  datatype Violation =
    | WrongType(field: string, expected: JsonType)
    | Missing(field: string)
    | NotAllowed(field: string)

  /** The top-level document itself, as the field of a `WrongType` violation. */
  const Root: string := ""

  /** `SCHEMA`: an object whose `playbook` is required and is an array, and nothing else. */
  const StepSchema: ObjectSchema :=
    ObjectSchema(TObject, ["playbook"], map["playbook" := TArray], false)

  predicate HasType(v: Json, t: JsonType) {
    match t
    case TNull => v.JNull?
    case TBoolean => v.JBool?
    case TNumber => v.JNum?
    case TString => v.JStr?
    case TArray => v.JArr?
    case TObject => v.JObj?
  }

  /**
   Every violation of `s` by `doc`. The object keywords apply only when
   `doc` is an object, as in JSON Schema.
   */
  function Violations(s: ObjectSchema, doc: Json): (v: set<Violation>)
    // every reported violation names a field that really offends the schema
    ensures forall x :: x in v && x.Missing? ==> doc.JObj? && x.field in s.required && x.field !in doc.fields
    ensures forall x :: x in v && x.NotAllowed? ==>
              doc.JObj? && !s.additionalProperties && x.field in doc.fields && x.field !in s.properties
    ensures forall x :: x in v && x.WrongType? ==>
              || (x.field == Root && x.expected == s.kind && !HasType(doc, s.kind))
              || (&& doc.JObj? && x.field in doc.fields && x.field in s.properties
                  && x.expected == s.properties[x.field] && !HasType(doc.fields[x.field], x.expected))
  {
    var typeErrors := if HasType(doc, s.kind) then {} else {WrongType(Root, s.kind)};
    if !doc.JObj? then typeErrors
    else
      var fs := doc.fields;
      typeErrors
      + (set r | r in s.required && r !in fs :: Missing(r))
      + (set k | k in fs && k in s.properties && !HasType(fs[k], s.properties[k]) :: WrongType(k, s.properties[k]))
      + (if s.additionalProperties then {} else set k | k in fs && k !in s.properties :: NotAllowed(k))
  }

  predicate Accepts(s: ObjectSchema, doc: Json) {
    Violations(s, doc) == {}
  }

  /** The step schema accepts exactly the objects whose only key is `playbook`, holding an array. */
  lemma StepSchemaExact(doc: Json)
    ensures Accepts(StepSchema, doc)
        <==> doc.JObj? && doc.fields.Keys == {"playbook"} && doc.fields["playbook"].JArr?
  {
    var v := Violations(StepSchema, doc);
    if doc.JObj? {
      var fs := doc.fields;
      if "playbook" !in fs {
        assert Missing("playbook") in v;
      } else if !fs["playbook"].JArr? {
        assert WrongType("playbook", TArray) in v;
      } else if k :| k in fs && k != "playbook" {
        assert NotAllowed(k) in v;
      } else {
        assert fs.Keys == {"playbook"};
        assert v == {};
      }
    } else {
      assert WrongType(Root, TObject) in v;
    }
  }

  /** A step without `playbook` is rejected with a violation naming `playbook`. */
  lemma MissingPlaybookNamed(doc: Json)
    requires doc.JObj? && "playbook" !in doc.fields
    ensures Missing("playbook") in Violations(StepSchema, doc)
    ensures !Accepts(StepSchema, doc)
  {
    assert Missing("playbook") in Violations(StepSchema, doc);
  }

  /** Any top-level key other than `playbook` is rejected by name. */
  lemma ExtraKeyRejected(doc: Json, k: string)
    requires doc.JObj? && k in doc.fields && k != "playbook"
    ensures NotAllowed(k) in Violations(StepSchema, doc)
  {
  }

  /** An empty object violates the step schema only by missing `playbook`. */
  lemma EmptyObjectViolations()
    ensures Violations(StepSchema, JObj(map[])) == {Missing("playbook")}
  {
    var v := Violations(StepSchema, JObj(map[]));
    assert Missing("playbook") in v;
    forall x | x in v ensures x == Missing("playbook") {
    }
  }
}
