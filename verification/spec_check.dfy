/** validateJSON (env.go): the structural check of a spec document, run over
    the parsed document tree, independent of loading it. */
module SpecCheck {
  import opened Wrappers
  import opened JsonValue
  import EnvSpec

  /** What validation reports; each names the offending key where Go's message does. */
  datatype Violation =
    | NotAnObject                // the document does not decode into a map
    | BadMember(name: string)    // top-level member `name` is neither a string nor an object
    | UnknownField(key: string)  // an entry object has a key other than the four known ones
    | MistypedField(key: string) // `key` is a known field holding the wrong JSON type

  /** Field `key` of an entry object is known and has the type it must have:
      `value` and `doc` strings, `required` and `inherit` bools. */
  predicate FieldOk(key: string, v: Json) {
    if key == "value" || key == "doc" then v.JString?
    else if key == "required" || key == "inherit" then v.JBool?
    else false
  }

  /** A top-level member is a bare string or an object of well-typed known fields. */
  predicate MemberOk(v: Json) {
    v.JString? || (v.JObject? && forall key :: key in v.members ==> FieldOk(key, v.members[key]))
  }

  /** The document passes validation. Go decodes a null document into a nil
      map, whose empty loop accepts it. */
  predicate WellFormed(doc: Json) {
    doc.JNull? || (doc.JObject? && forall name :: name in doc.members ==> MemberOk(doc.members[name]))
  }

  /** `e` is a genuine defect of entry value `v`. */
  predicate ExplainsMember(v: Json, name: string, e: Violation) {
    match e
    case NotAnObject => false
    case BadMember(n) => n == name && !v.JString? && !v.JObject?
    case UnknownField(key) =>
      v.JObject? && key in v.members && key !in {"value", "doc", "required", "inherit"}
    case MistypedField(key) =>
      v.JObject? && key in v.members && key in {"value", "doc", "required", "inherit"} && !FieldOk(key, v.members[key])
  }

  /** `e` is a genuine defect of the document. */
  predicate Explains(doc: Json, e: Violation) {
    if e.NotAnObject? then !doc.JNull? && !doc.JObject?
    else doc.JObject? && exists name :: name in doc.members && ExplainsMember(doc.members[name], name, e)
  }

  /** Validation of one top-level member `name`, walking an entry object's
      fields in any order and stopping at the first bad one. */
  method CheckMember(name: string, v: Json) returns (err: Option<Violation>)
    ensures err.None? <==> MemberOk(v)
    ensures err.Some? ==> ExplainsMember(v, name, err.value)
  {
    match v
    case JString(_) => return None;
    case JObject(fields) =>
      var todo := fields.Keys;
      while todo != {}
        invariant todo <= fields.Keys
        invariant forall key :: key in fields && key !in todo ==> FieldOk(key, fields[key])
        decreases todo
      {
        var key :| key in todo;
        if key == "value" || key == "doc" {
          if !fields[key].JString? {
            return Some(MistypedField(key));
          }
        } else if key == "required" || key == "inherit" {
          if !fields[key].JBool? {
            return Some(MistypedField(key));
          }
        } else {
          return Some(UnknownField(key));
        }
        todo := todo - {key};
      }
      return None;
    case _ => return Some(BadMember(name));
  }

  /** validateJSON over a parsed document: `ok` is true exactly when the
      document passes, and otherwise `err` is one real defect of it (Go's map
      order decides which, when there are several). */
  method Validate(doc: Json) returns (ok: bool, err: Option<Violation>)
    ensures ok <==> WellFormed(doc)
    ensures ok <==> err.None?
    ensures err.Some? ==> Explains(doc, err.value)
  {
    match doc
    case JNull => return true, None;
    case JObject(members) =>
      var todo := members.Keys;
      while todo != {}
        invariant todo <= members.Keys
        invariant forall name :: name in members && name !in todo ==> MemberOk(members[name])
        decreases todo
      {
        var name :| name in todo;
        var e := CheckMember(name, members[name]);
        if e.Some? {
          return false, e;
        }
        todo := todo - {name};
      }
      return true, None;
    case _ => return false, Some(NotAnObject);
  }

  /** Every document that passes validation also loads: its entries use only
      known fields of the types the decoder accepts. */
  lemma WellFormedLoads(c: EnvSpec.Env, doc: Json)
    requires WellFormed(doc)
    ensures EnvSpec.Read(c, doc).Success?
  {
  }

  /** The converse fails: the decoder ignores unknown fields and accepts
      null, both of which validation rejects. */
  lemma LoadsButIllFormed()
    ensures var doc := JObject(map["X" := JObject(map["extra" := JNum("1")]), "Y" := JNull]);
            EnvSpec.Read(map[], doc).Success? && !WellFormed(doc)
  {
    var fields := map["extra" := JNum("1")];
    assert "extra" in fields && !FieldOk("extra", fields["extra"]);
    assert !MemberOk(JObject(fields));
    var doc := JObject(map["X" := JObject(fields), "Y" := JNull]);
    assert "X" in doc.members && doc.members["X"] == JObject(fields);
  }

  /** `{"X": {"value": 1}}` is rejected, and the only defect validation can
      report for it is that `value` has the wrong type. */
  lemma NumericValueRejected()
    ensures var doc := JObject(map["X" := JObject(map["value" := JNum("1")])]);
            && !WellFormed(doc)
            && forall e :: Explains(doc, e) ==> e == MistypedField("value")
  {
    var fields := map["value" := JNum("1")];
    assert "value" in fields && !FieldOk("value", fields["value"]);
    assert !MemberOk(JObject(fields));
    var doc := JObject(map["X" := JObject(fields)]);
    assert "X" in doc.members && doc.members["X"] == JObject(fields);
  }
}
