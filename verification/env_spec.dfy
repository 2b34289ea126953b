/** The environment-spec data model of env.go: one `EnvValue` per variable,
    the `Env` map, decoding of a single spec entry from JSON and loading a whole
    spec document into an existing map. */
module EnvSpec {
  import opened Wrappers
  import opened JsonValue

  /** One variable of a spec (envValue). `isSet` is the hidden flag that
      records that some source gave the variable a value. */
  datatype EnvValue = EnvValue(value: string, required: bool, inherit: bool, doc: string, isSet: bool)

  /** The zero envValue: every member of a spec document is decoded into it. */
  const Unset := EnvValue("", false, false, "", false)

  /** A spec: variable name (case-sensitive) to its entry. */
  type Env = map<string, EnvValue>

  /** Why a single entry does not decode. */
  datatype EntryError =
    | NotAnEntry     // the entry is a number, a bool or an array
    | MistypedField  // a known field holds a value of the wrong JSON type

  /** Why a spec document does not load. */
  datatype ReadError =
    | NotAnObject    // the document is neither an object nor null
    | MalformedEntry // some member fails to decode as an entry

  // ---------------------------------------------------------------------
  // Reading the four known fields of an object entry. Go's decoder leaves a
  // struct field at its zero value when the member is absent or null, and
  // reports a type error for any other mismatching JSON type. Unknown
  // members are ignored.

  /** The string field `key`: absent or null give "", a string is copied. */
  function StringField(fields: map<string, Json>, key: string): Result<string, EntryError>
  {
    if key !in fields then Success("")
    else match fields[key]
      case JNull => Success("")
      case JString(s) => Success(s)
      case _ => Failure(MistypedField)
  }

  /** The bool field `key`: absent or null give false, a bool is copied. */
  function BoolField(fields: map<string, Json>, key: string): Result<bool, EntryError>
  {
    if key !in fields then Success(false)
    else match fields[key]
      case JNull => Success(false)
      case JBool(b) => Success(b)
      case _ => Failure(MistypedField)
  }

  /** `key`, when present, holds a string or null. */
  predicate StringTyped(fields: map<string, Json>, key: string) {
    key in fields ==> fields[key].JString? || fields[key].JNull?
  }

  /** `key`, when present, holds a bool or null. */
  predicate BoolTyped(fields: map<string, Json>, key: string) {
    key in fields ==> fields[key].JBool? || fields[key].JNull?
  }

  /** Every field the entry decoder knows has a type it accepts. */
  predicate FieldsDecode(fields: map<string, Json>) {
    && StringTyped(fields, "value")
    && BoolTyped(fields, "required")
    && BoolTyped(fields, "inherit")
    && StringTyped(fields, "doc")
  }

  /** The text member `key` holds, or "" when it holds no string. */
  function TextOf(fields: map<string, Json>, key: string): string {
    if key in fields && fields[key].JString? then fields[key].text else ""
  }

  /** Member `key` holds the bool true. */
  predicate FlagOf(fields: map<string, Json>, key: string) {
    key in fields && fields[key] == JBool(true)
  }

  /** The members of an object entry; null decodes like an object without members. */
  function FieldsOf(j: Json): map<string, Json> {
    if j.JObject? then j.members else map[]
  }

  /** The object path of envValue.UnmarshalJSON: all four visible fields are
      replaced, and `isSet` is switched on by a non-empty value but never off. */
  function DecodeObject(c: EnvValue, fields: map<string, Json>): Result<EnvValue, EntryError>
  {
    var value :- StringField(fields, "value");
    var required :- BoolField(fields, "required");
    var inherit :- BoolField(fields, "inherit");
    var doc :- StringField(fields, "doc");
    Success(EnvValue(value, required, inherit, doc, c.isSet || value != ""))
  }

  /** envValue.UnmarshalJSON with receiver `c`. A bare string token sets the
      value to its characters between the quotes and marks it set. Anything
      else goes through Go's struct decoding: an object or null is accepted,
      a number, bool or array is an error, and on error `c` is unchanged. */
  function DecodeEntry(c: EnvValue, j: Json): (r: Result<EnvValue, EntryError>)
    ensures r.Success? <==> j.JString? || j.JNull? || (j.JObject? && FieldsDecode(j.members))
    // bare string: the value verbatim, set; required, inherit and doc untouched
    ensures j.JString? ==> r.Success? && r.value == c.(value := j.text, isSet := true)
    // object or null: the four visible fields come from the members, defaults otherwise
    ensures r.Success? && !j.JString? ==>
              && r.value.value == TextOf(FieldsOf(j), "value")
              && r.value.required == FlagOf(FieldsOf(j), "required")
              && r.value.inherit == FlagOf(FieldsOf(j), "inherit")
              && r.value.doc == TextOf(FieldsOf(j), "doc")
              && r.value.isSet == (c.isSet || TextOf(FieldsOf(j), "value") != "")
    // isSet is never cleared, and a non-empty decoded value is always marked set
    ensures r.Success? ==> (c.isSet ==> r.value.isSet) && (r.value.value != "" ==> r.value.isSet)
  {
    match j
    case JString(s) => Success(c.(value := s, isSet := true))
    case JNull => DecodeObject(c, map[])
    case JObject(fields) => DecodeObject(c, fields)
    case _ => Failure(NotAnEntry)
  }

  /** Every member of a spec document decodes from the zero entry. */
  predicate AllDecode(members: map<string, Json>) {
    forall k :: k in members ==> DecodeEntry(Unset, members[k]).Success?
  }

  /** The entries a spec document's members decode to. */
  function Decoded(members: map<string, Json>): (d: Env)
    requires AllDecode(members)
  {
    map k | k in members :: DecodeEntry(Unset, members[k]).value
  }

  /** env.Read over an already-parsed document. Each member of an object is
      decoded from the zero entry and overwrites the key it names; keys the
      document does not mention are kept. A null document leaves the map as it
      is, and a document of any other kind is an error. */
  function Read(c: Env, doc: Json): (r: Result<Env, ReadError>)
    ensures doc.JNull? ==> r == Success(c)
    ensures !doc.JNull? && !doc.JObject? ==> r == Failure(NotAnObject)
    ensures doc.JObject? ==> (r.Success? <==> AllDecode(doc.members))
    ensures r.Success? ==> r.value.Keys == c.Keys + FieldsOf(doc).Keys
    ensures r.Success? ==> forall k :: k in FieldsOf(doc) ==> r.value[k] == DecodeEntry(Unset, doc.members[k]).value
    ensures r.Success? ==> forall k :: k in c && k !in FieldsOf(doc) ==> r.value[k] == c[k]
  {
    match doc
    case JNull => Success(c)
    case JObject(members) =>
      if AllDecode(members) then Success(c + Decoded(members)) else Failure(MalformedEntry)
    case _ => Failure(NotAnObject)
  }

  /** Reading the same document twice is the same as reading it once, because
      every member is decoded afresh from the zero entry. */
  lemma ReadIdempotent(c: Env, doc: Json)
    requires Read(c, doc).Success?
    ensures Read(Read(c, doc).value, doc) == Read(c, doc)
  {
    if doc.JObject? {
      var d := Decoded(doc.members);
      assert c + d + d == c + d;
    }
  }

  /** A document whose members are all bare strings loads each of them as a
      value marked set, with no flags and no documentation. */
  lemma ReadBareStrings(c: Env, members: map<string, Json>)
    requires forall k :: k in members ==> members[k].JString?
    ensures Read(c, JObject(members)).Success?
    ensures forall k :: k in members ==>
              Read(c, JObject(members)).value[k] == EnvValue(members[k].text, false, false, "", true)
  {
  }
}
