/** The process-environment side of env.go: loading a spec from `NAME=VALUE`
    strings (FromEnviron), rendering a spec back into such strings (Environ)
    and the name-to-value projection that Dump encodes. */
module ProcessEnv {
  import opened Wrappers
  import opened EnvSpec
  import JsonValue

  /** strings.SplitN(kv, "=", 2): the text before the first '=', and the rest
      after it when there is a '=' at all. */
  function Split(kv: string): (r: (string, Option<string>))
    ensures '=' !in r.0
    ensures r.1.Some? ==> r.0 + "=" + r.1.value == kv
    ensures r.1.None? ==> r.0 == kv
    decreases |kv|
  {
    if |kv| == 0 then ("", None)
    else if kv[0] == '=' then ("", Some(kv[1..]))
    else
      var (name, rest) := Split(kv[1..]);
      assert [kv[0]] + kv[1..] == kv;
      ([kv[0]] + name, rest)
  }

  /** Joining a name without '=' to a value and splitting the result gives both back. */
  lemma {:induction false} SplitJoined(name: string, value: string)
    requires '=' !in name
    ensures Split(name + "=" + value) == (name, Some(value))
    decreases |name|
  {
    var kv := name + "=" + value;
    if |name| == 0 {
      assert kv[1..] == value;
    } else {
      assert kv[1..] == name[1..] + "=" + value;
      SplitJoined(name[1..], value);
      assert [name[0]] + name[1..] == name;
    }
  }

  /** The variable name an environment string defines. */
  function Name(kv: string): string {
    Split(kv).0
  }

  /** The entry FromEnviron stores for one string: the text after the first
      '=' (or "" when there is none), marked set, with no flags and no doc. */
  function EntryOf(kv: string): EnvValue {
    var value := match Split(kv).1 case Some(v) => v case None => "";
    EnvValue(value, false, false, "", true)
  }

  /** The names an environment list defines. */
  function Names(environ: seq<string>): set<string> {
    set i | 0 <= i < |environ| :: Name(environ[i])
  }

  /** No later string of `environ` defines the same name as the one at `i`. */
  predicate LastNamed(environ: seq<string>, i: int)
    requires 0 <= i < |environ|
  {
    forall j :: i < j < |environ| ==> Name(environ[j]) != Name(environ[i])
  }

  lemma NamesCons(environ: seq<string>)
    requires |environ| > 0
    ensures Names(environ) == {Name(environ[0])} + Names(environ[1..])
  {
    forall k | k in Names(environ) ensures k in {Name(environ[0])} + Names(environ[1..]) {
      var i :| 0 <= i < |environ| && Name(environ[i]) == k;
      if i > 0 {
        assert environ[1..][i - 1] == environ[i];
      }
    }
    forall k | k in Names(environ[1..]) ensures k in Names(environ) {
      var i :| 0 <= i < |environ[1..]| && Name(environ[1..][i]) == k;
      assert environ[i + 1] == environ[1..][i];
    }
  }

  /** A string after the first that is last for its name in `environ` is
      still last for it in the tail, at the position one lower. */
  lemma LastNamedTail(environ: seq<string>)
    requires |environ| > 0
    ensures forall i :: 0 < i < |environ| ==> environ[1..][i - 1] == environ[i]
    ensures forall i :: 0 < i < |environ| && LastNamed(environ, i) ==> LastNamed(environ[1..], i - 1)
  {
  }

  /** `r` is what loading `environ` on top of `c` must give: exactly the
      names the list defines are added, each holding the entry made from its
      last string, and every other key of `c` is kept. */
  predicate Loaded(c: Env, environ: seq<string>, r: Env) {
    && r.Keys == c.Keys + Names(environ)
    && (forall k :: k in c && k !in Names(environ) ==> r[k] == c[k])
    && (forall i :: 0 <= i < |environ| && LastNamed(environ, i) ==> r[Name(environ[i])] == EntryOf(environ[i]))
    && (forall k :: k in Names(environ) ==> r[k].isSet && !r[k].required && !r[k].inherit && r[k].doc == "")
  }

  /** Loading the tail on top of `c` updated with the first string is
      loading the whole list on top of `c`. */
  lemma LoadedCons(c: Env, environ: seq<string>, r: Env)
    requires |environ| > 0
    requires Loaded(c[Name(environ[0]) := EntryOf(environ[0])], environ[1..], r)
    ensures Loaded(c, environ, r)
  {
    NamesCons(environ);
    LastNamedTail(environ);
    forall i | 0 <= i < |environ| && LastNamed(environ, i) ensures r[Name(environ[i])] == EntryOf(environ[i]) {
      if i == 0 {
        assert Name(environ[0]) !in Names(environ[1..]);
      } else {
        assert LastNamed(environ[1..], i - 1);
      }
    }
  }

  /** env.FromEnviron(environ) applied to `c`, processing the strings in order.
      It never fails: it adds exactly the names the list defines, each name
      holds the entry made from its last string, and every other key of `c`
      is kept. */
  function FromEnviron(c: Env, environ: seq<string>): (r: Env)
    ensures r.Keys == c.Keys + Names(environ)
    ensures forall k :: k in c && k !in Names(environ) ==> r[k] == c[k]
    ensures forall i :: 0 <= i < |environ| && LastNamed(environ, i) ==> r[Name(environ[i])] == EntryOf(environ[i])
    ensures forall k :: k in Names(environ) ==>
              r[k].isSet && !r[k].required && !r[k].inherit && r[k].doc == ""
    decreases |environ|
  {
    if |environ| == 0 then c
    else
      var r := FromEnviron(c[Name(environ[0]) := EntryOf(environ[0])], environ[1..]);
      LoadedCons(c, environ, r);
      r
  }

  // ---------------------------------------------------------------------
  // Serialisation

  /** The `NAME=VALUE` string for one variable. */
  function Pair(name: string, value: string): string {
    name + "=" + value
  }

  /** `order` lists every key of `keys` exactly once. */
  predicate Enumerates(order: seq<string>, keys: set<string>) {
    && (forall i, j :: 0 <= i < j < |order| ==> order[i] != order[j])
    && (forall i :: 0 <= i < |order| ==> order[i] in keys)
    && (forall k :: k in keys ==> k in order)
  }

  /** `kv` holds, position by position, the pair of each key of `order`. */
  predicate RendersAs(kv: seq<string>, c: Env, order: seq<string>) {
    && |kv| == |order|
    && forall i :: 0 <= i < |kv| ==> order[i] in c && kv[i] == Pair(order[i], c[order[i]].value)
  }

  /** env.Environ: one `NAME=VALUE` string per variable, empty values
      included, in whatever order the map is walked (`order`, which the
      caller cannot rely on). */
  method Environ(c: Env) returns (kv: seq<string>, ghost order: seq<string>)
    ensures |kv| == |c|
    ensures Enumerates(order, c.Keys)
    ensures RendersAs(kv, c, order)
  {
    kv, order := [], [];
    var rest := c.Keys;
    while rest != {}
      invariant rest <= c.Keys
      invariant |order| + |rest| == |c.Keys|
      invariant forall i :: 0 <= i < |order| ==> order[i] !in rest
      invariant forall i, j :: 0 <= i < j < |order| ==> order[i] != order[j]
      invariant forall i :: 0 <= i < |order| ==> order[i] in c.Keys
      invariant forall k :: k in c.Keys ==> k in rest || k in order
      invariant RendersAs(kv, c, order)
      decreases rest
    {
      var k :| k in rest;
      kv := kv + [Pair(k, c[k].value)];
      order := order + [k];
      rest := rest - {k};
    }
  }

  /** The map that Dump encodes: each variable to its value only. */
  function Dump(c: Env): (values: map<string, string>)
    ensures values.Keys == c.Keys
    ensures forall k :: k in values ==> values[k] == c[k].value
  {
    map k | k in c :: c[k].value
  }

  /** Each rendered string of a spec without '=' in its names defines the
      key at its position, with that key's value. */
  lemma RenderedEntries(c: Env, kv: seq<string>, order: seq<string>)
    requires RendersAs(kv, c, order)
    requires forall k :: k in c ==> '=' !in k
    ensures forall i :: 0 <= i < |kv| ==> Name(kv[i]) == order[i] && EntryOf(kv[i]).value == c[order[i]].value
  {
    forall i | 0 <= i < |kv|
      ensures Name(kv[i]) == order[i] && EntryOf(kv[i]).value == c[order[i]].value
    {
      SplitJoined(order[i], c[order[i]].value);
    }
  }

  /** The rendered strings of such a spec define exactly its keys, each once. */
  lemma RenderedNames(c: Env, kv: seq<string>, order: seq<string>)
    requires Enumerates(order, c.Keys)
    requires RendersAs(kv, c, order)
    requires forall k :: k in c ==> '=' !in k
    ensures Names(kv) == c.Keys
    ensures forall i :: 0 <= i < |kv| ==> LastNamed(kv, i)
  {
    RenderedEntries(c, kv, order);
    forall k | k in c ensures k in Names(kv) {
      var i :| 0 <= i < |order| && order[i] == k;
      assert Name(kv[i]) == k;
    }
  }

  /** Rendering a spec with Environ and loading the strings back with
      FromEnviron restores every variable's value, provided no variable name
      contains '='. Each variable comes back marked set. */
  lemma {:induction false} EnvironRoundTrip(c: Env, kv: seq<string>, order: seq<string>)
    requires Enumerates(order, c.Keys)
    requires RendersAs(kv, c, order)
    requires forall k :: k in c ==> '=' !in k
    ensures Dump(FromEnviron(map[], kv)) == Dump(c)
    ensures forall k :: k in c ==> FromEnviron(map[], kv)[k].isSet
  {
    var r := FromEnviron(map[], kv);
    RestoredKeys(c, kv, order);
    forall k | k in c ensures r[k].value == c[k].value && r[k].isSet {
      RestoredValue(c, kv, order, k);
    }
    SameValuesSameDump(r, c);
  }

  /** The rendered strings of such a spec load back to exactly its keys. */
  lemma RestoredKeys(c: Env, kv: seq<string>, order: seq<string>)
    requires Enumerates(order, c.Keys)
    requires RendersAs(kv, c, order)
    requires forall k :: k in c ==> '=' !in k
    ensures FromEnviron(map[], kv).Keys == c.Keys
  {
    RenderedNames(c, kv, order);
    var r := FromEnviron(map[], kv);
    var empty: Env := map[];
    assert r.Keys == empty.Keys + Names(kv);
  }

  /** Two specs with the same keys and the same value under each key dump alike. */
  lemma SameValuesSameDump(a: Env, b: Env)
    requires a.Keys == b.Keys
    requires forall k :: k in b ==> a[k].value == b[k].value
    ensures Dump(a) == Dump(b)
  {
    var d, e := Dump(a), Dump(b);
    assert forall k :: k in d ==> d[k] == e[k];
  }

  /** One key of a spec comes back from its rendered strings with its value. */
  lemma RestoredValue(c: Env, kv: seq<string>, order: seq<string>, k: string)
    requires Enumerates(order, c.Keys)
    requires RendersAs(kv, c, order)
    requires forall k :: k in c ==> '=' !in k
    requires k in c
    ensures k in FromEnviron(map[], kv)
    ensures FromEnviron(map[], kv)[k].value == c[k].value && FromEnviron(map[], kv)[k].isSet
  {
    RenderedEntries(c, kv, order);
    RenderedNames(c, kv, order);
    var i :| 0 <= i < |order| && order[i] == k;
    assert Name(kv[i]) == k;
    assert FromEnviron(map[], kv)[Name(kv[i])] == EntryOf(kv[i]);
  }

  /** A name containing '=' does not survive the round trip: the variable
      `A=B` with value `C` is rendered as `A=B=C`, which loads as `A` with
      value `B=C`. */
  lemma RoundTripNeedsPlainNames()
    ensures var c := map["A=B" := EnvValue("C", false, false, "", true)];
            Dump(FromEnviron(map[], [Pair("A=B", "C")])) != Dump(c)
  {
  }

  /** The value a document member gives its variable: a bare string's
      characters, or an object's `value` member ("" when there is none). */
  function MemberValue(j: JsonValue.Json): string {
    if j.JString? then j.text else TextOf(FieldsOf(j), "value")
  }

  /** The variable a document member names holds that member's value once
      the document has loaded. */
  lemma ReadMemberValue(c: Env, members: map<string, JsonValue.Json>, k: string)
    requires AllDecode(members)
    requires k in members
    ensures Read(c, JsonValue.JObject(members)).Success?
    ensures Read(c, JsonValue.JObject(members)).value[k].value == MemberValue(members[k])
  {
    assert DecodeEntry(Unset, members[k]).Success?;
  }

  /** A spec that agrees with `c` off the keys of `m` and holds the values
      of `m` on them dumps as `c`'s values overridden by `m`. */
  lemma DumpOverride(r: Env, c: Env, m: map<string, string>)
    requires r.Keys == c.Keys + m.Keys
    requires forall k :: k in m ==> r[k].value == m[k]
    requires forall k :: k in c && k !in m ==> r[k] == c[k]
    ensures Dump(r) == Dump(c) + m
  {
    var d, e := Dump(r), Dump(c) + m;
    assert d.Keys == e.Keys;
    assert forall k :: k in d ==> d[k] == e[k];
  }

  /** Loading a document and projecting to values gives the old values
      overridden by each member's value: every value the document holds
      comes back unchanged. */
  lemma ReadThenDump(c: Env, members: map<string, JsonValue.Json>)
    requires AllDecode(members)
    ensures Read(c, JsonValue.JObject(members)).Success?
    ensures Dump(Read(c, JsonValue.JObject(members)).value)
            == Dump(c) + map k | k in members :: MemberValue(members[k])
  {
    var r := Read(c, JsonValue.JObject(members)).value;
    var m := map k | k in members :: MemberValue(members[k]);
    forall k | k in m ensures r[k].value == m[k] {
      ReadMemberValue(c, members, k);
    }
    DumpOverride(r, c, m);
  }
}
