/** The older revision of the spec logic in main.go (`config`/`configValue`).
    Its entries carry no documentation, its FromEnviron leaves a bare name
    unset, and its Merge follows a different policy: it adds no keys, and
    only variables that inherit, or are required but empty, consult the
    parent, which must then have them. */
module LegacyConfig {
  import opened Wrappers
  import opened JsonValue
  import EnvSpec
  import ProcessEnv
  import Reconcile

  /** configValue: an entry without a doc string. */
  datatype ConfigValue = ConfigValue(value: string, required: bool, inherit: bool, isSet: bool)

  /** The zero configValue. */
  const Unset := ConfigValue("", false, false, false)

  /** config: variable name to its entry. */
  type Config = map<string, ConfigValue>

  /** Why an old Merge fails, naming the offending key. */
  datatype MergeError =
    | CannotInherit(name: string)    // an inheriting variable is absent from the parent
    | RequiredNotFound(name: string) // a required, empty variable is absent from the parent

  /** A newer entry with the doc string dropped. */
  function Narrow(e: EnvSpec.EnvValue): ConfigValue {
    ConfigValue(e.value, e.required, e.inherit, e.isSet)
  }

  /** An old entry given a doc string. */
  function Widen(c: ConfigValue, doc: string): EnvSpec.EnvValue {
    EnvSpec.EnvValue(c.value, c.required, c.inherit, doc, c.isSet)
  }

  /** configValue.UnmarshalJSON with receiver `c`. The object path still
      decodes (and type-checks) the `doc` field, then throws it away. Apart
      from that it behaves exactly like the newer entry decoder, whatever doc
      string the receiver is given there. */
  function DecodeEntry(c: ConfigValue, j: Json): (r: Result<ConfigValue, EnvSpec.EntryError>)
    ensures forall doc :: r == match EnvSpec.DecodeEntry(Widen(c, doc), j)
                               case Success(e) => Success(Narrow(e))
                               case Failure(f) => Failure(f)
  {
    match j
    case JString(s) => Success(c.(value := s, isSet := true))
    case JNull => DecodeObject(c, map[])
    case JObject(fields) => DecodeObject(c, fields)
    case _ => Failure(EnvSpec.NotAnEntry)
  }

  /** The object path of configValue.UnmarshalJSON: value, required and
      inherit are replaced, doc is type-checked and dropped, and `isSet` is
      switched on by a non-empty value but never off. */
  function DecodeObject(c: ConfigValue, fields: map<string, Json>): Result<ConfigValue, EnvSpec.EntryError>
  {
    var value :- EnvSpec.StringField(fields, "value");
    var required :- EnvSpec.BoolField(fields, "required");
    var inherit :- EnvSpec.BoolField(fields, "inherit");
    var _ :- EnvSpec.StringField(fields, "doc");
    Success(ConfigValue(value, required, inherit, c.isSet || value != ""))
  }

  /** Every member of a document decodes from the zero entry. */
  predicate AllDecode(members: map<string, Json>) {
    forall k :: k in members ==> DecodeEntry(Unset, members[k]).Success?
  }

  /** config.Read over an already-parsed document, as at the `--stdin` step
      that lays a document over the process environment: members overwrite
      the keys they name, each decoded from the zero entry, and other keys
      are kept. */
  function Read(c: Config, doc: Json): (r: Result<Config, EnvSpec.ReadError>)
    ensures doc.JNull? ==> r == Success(c)
    ensures !doc.JNull? && !doc.JObject? ==> r.Failure?
    ensures doc.JObject? ==> (r.Success? <==> AllDecode(doc.members))
    ensures r.Success? ==> r.value.Keys == c.Keys + EnvSpec.FieldsOf(doc).Keys
    ensures r.Success? ==> forall k :: k in EnvSpec.FieldsOf(doc) ==> r.value[k] == DecodeEntry(Unset, doc.members[k]).value
    ensures r.Success? ==> forall k :: k in c && k !in EnvSpec.FieldsOf(doc) ==> r.value[k] == c[k]
  {
    match doc
    case JNull => Success(c)
    case JObject(members) =>
      if AllDecode(members) then
        Success(c + map k | k in members :: DecodeEntry(Unset, members[k]).value)
      else Failure(EnvSpec.MalformedEntry)
    case _ => Failure(EnvSpec.NotAnObject)
  }

  /** The entry the old FromEnviron stores for one string: with a '=' the
      text after it, marked set; a bare name gets an empty value left unset. */
  function EntryOf(kv: string): ConfigValue {
    match ProcessEnv.Split(kv).1
    case Some(v) => ConfigValue(v, false, false, true)
    case None => ConfigValue("", false, false, false)
  }

  /** config.FromEnviron with the process environment passed in as `environ`.
      It adds exactly the names the list defines, each holding the entry made
      from its last string, and keeps every other key. A name is marked set
      exactly when its last string contains '='. */
  function FromEnviron(c: Config, environ: seq<string>): (r: Config)
    ensures r.Keys == c.Keys + ProcessEnv.Names(environ)
    ensures forall k :: k in c && k !in ProcessEnv.Names(environ) ==> r[k] == c[k]
    ensures forall i :: 0 <= i < |environ| && ProcessEnv.LastNamed(environ, i) ==>
              && r[ProcessEnv.Name(environ[i])] == EntryOf(environ[i])
              && (r[ProcessEnv.Name(environ[i])].isSet <==> '=' in environ[i])
    ensures forall k :: k in ProcessEnv.Names(environ) ==> !r[k].required && !r[k].inherit
    decreases |environ|
  {
    if |environ| == 0 then c
    else
      var c' := c[ProcessEnv.Name(environ[0]) := EntryOf(environ[0])];
      var r := FromEnviron(c', environ[1..]);
      ProcessEnv.NamesCons(environ);
      ProcessEnv.LastNamedTail(environ);
      forall i | 0 <= i < |environ| && ProcessEnv.LastNamed(environ, i)
        ensures r[ProcessEnv.Name(environ[i])] == EntryOf(environ[i])
      {
        if i == 0 {
          assert ProcessEnv.Name(environ[0]) !in ProcessEnv.Names(environ[1..]);
        } else {
          assert ProcessEnv.LastNamed(environ[1..], i - 1);
        }
      }
      r
  }

  /** The entry config.Inherit stores: the parent's value, marked set, with
      both flags cleared. */
  function Inherited(pv: ConfigValue): ConfigValue {
    ConfigValue(pv.value, false, false, true)
  }

  /** config.Inherit(name, p): fails when the parent lacks `name`; otherwise
      replaces (or adds) the local entry with the inherited one and changes
      nothing else. */
  function Inherit(c: Config, name: string, p: Config): (r: Result<Config, MergeError>)
    ensures r.Success? <==> name in p
    ensures r.Failure? ==> r.error == CannotInherit(name)
    ensures r.Success? ==> && r.value.Keys == c.Keys + {name}
                           && r.value[name] == ConfigValue(p[name].value, false, false, true)
                           && forall k :: k in c && k != name ==> r.value[k] == c[k]
  {
    if name !in p then Failure(CannotInherit(name))
    else Success(c[name := Inherited(p[name])])
  }

  /** A local entry that the old Merge takes from the parent. */
  predicate NeedsParent(v: ConfigValue) {
    v.inherit || (v.required && v.value == "")
  }

  /** The old Merge succeeds: every entry that needs the parent finds its key there. */
  predicate MergeSucceeds(c: Config, p: Config) {
    forall k :: k in c && NeedsParent(c[k]) ==> k in p
  }

  /** The local config after a successful old Merge, however Go orders it. */
  function Merged(c: Config, p: Config): (r: Config)
    requires MergeSucceeds(c, p)
    ensures r.Keys == c.Keys
    ensures forall k :: k in c && NeedsParent(c[k]) ==> r[k] == ConfigValue(p[k].value, false, false, true)
    ensures forall k :: k in c && !NeedsParent(c[k]) ==> r[k] == c[k]
  {
    map k | k in c :: if NeedsParent(c[k]) then Inherited(p[k]) else c[k]
  }

  /** config.Merge(p) on local config `c`, visiting the local keys in any
      order. Each visit writes only its own key. It adds no keys. It fails
      exactly when some entry that inherits, or is required and empty,
      is missing from the parent, naming such a key, and then `r` holds the
      visits made so far: each entry either untouched or inherited. On
      success `r` is the merged config; the inherited value is not checked
      again, so a required variable may end up empty. */
  method Merge(c: Config, p: Config) returns (r: Config, err: Option<MergeError>)
    ensures r.Keys == c.Keys
    ensures err.None? <==> MergeSucceeds(c, p)
    ensures err.None? ==> MergeSucceeds(c, p) && r == Merged(c, p)
    ensures err.Some? ==> && err.value.name in c && err.value.name !in p
                          && NeedsParent(c[err.value.name])
                          && (err.value.CannotInherit? <==> c[err.value.name].inherit)
    ensures forall k :: k in c && !NeedsParent(c[k]) ==> r[k] == c[k]
    ensures forall k :: k in c && NeedsParent(c[k]) ==> r[k] == c[k] || (k in p && r[k] == Inherited(p[k]))
  {
    r := c;
    var todo := c.Keys;
    while todo != {}
      invariant todo <= c.Keys
      invariant r.Keys == c.Keys
      invariant forall k :: k in c && k !in todo && NeedsParent(c[k]) ==> k in p
      invariant forall k :: k in c && (k in todo || !NeedsParent(c[k])) ==> r[k] == c[k]
      invariant forall k :: k in c && k !in todo && NeedsParent(c[k]) ==> r[k] == Inherited(p[k])
      decreases todo
    {
      var k :| k in todo;
      var v := c[k];
      if v.inherit {
        var res := Inherit(r, k, p);
        if res.Failure? {
          return r, Some(res.error);
        }
        r := res.value;
      }
      if v.required && v.value == "" {
        var res := Inherit(r, k, p);
        if res.Failure? {
          return r, Some(RequiredNotFound(k));
        }
        r := res.value;
      }
      todo := todo - {k};
    }
    return r, None;
  }

  /** config.Environ is a stub that returns a nil slice, written `None`
      here: the config is never rendered. */
  function Environ(c: Config): (kv: Option<seq<string>>)
    ensures kv.None?
  {
    None
  }

  /** The environment a command started through exec.Cmd receives: its `Env`
      when one is given, even an empty one, and the launching process's own
      environment `ambient` when `Env` is nil. */
  function ChildEnvironment(env: Option<seq<string>>, ambient: seq<string>): seq<string> {
    match env
    case Some(kv) => kv
    case None => ambient
  }

  /** run hands the old Environ to the command, so the child inherits the
      launching process's environment unchanged and never sees the config. */
  lemma ChildInheritsAmbient(c: Config, ambient: seq<string>)
    ensures ChildEnvironment(Environ(c), ambient) == ambient
  {
  }

  /** The two merge policies disagree on a required variable the parent has
      with an empty value: the old Merge takes the empty value and succeeds,
      the newer one reports the variable as missing. */
  lemma PoliciesDisagreeOnEmptyParent()
    ensures var c := map["TOKEN" := ConfigValue("", true, false, false)];
            var p := map["TOKEN" := ConfigValue("", false, false, true)];
            MergeSucceeds(c, p) && Merged(c, p)["TOKEN"].value == ""
    ensures var c := map["TOKEN" := EnvSpec.EnvValue("", true, false, "", false)];
            var p := map["TOKEN" := EnvSpec.EnvValue("", false, false, "", true)];
            Reconcile.MissingRequired(Reconcile.Merged(c, p), "TOKEN")
  {
  }
}
