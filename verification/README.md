# envjson environment specs, modelled in Dafny

envjson prepares a process environment from a JSON spec before it launches a
command. Each variable in a spec (an `envValue`) has a value, a `required`
flag, an `inherit` flag, a doc string and a hidden `isSet` flag. A spec (`env`)
maps variable names to entries. The program builds a *parent* spec from the
process environment (and optionally a JSON document read from stdin) and a
*local* spec from a spec file. It merges the parent into the local spec and
hands the result to the child as `NAME=VALUE` strings.

This project models that core as pure Dafny over immutable maps:

- `wrappers.dfy`, module `Wrappers`: `Option` and `Result`.
- `json.dfy`, module `JsonValue`: the parsed JSON tree (`JNull | JBool | JNum | JString | JArray | JObject`).
- `env_spec.dfy`, module `EnvSpec` (env.go): `EnvValue`, `Env`, per-entry decoding (`DecodeEntry`) and loading a document into a spec (`Read`).
- `process_env.dfy`, module `ProcessEnv` (env.go): splitting `NAME=VALUE`, `FromEnviron`, `Environ`, the `Dump` projection, and the round trip between them.
- `reconcile.dfy`, module `Reconcile` (env.go): `Merge`, with the declarative merged map `Merged`.
- `spec_check.dfy`, module `SpecCheck` (env.go): `validateJSON` over the parsed tree.
- `legacy_config.dfy`, module `LegacyConfig` (main.go): the older `config`/`configValue` revision. It has its own decoder, `FromEnviron`, `Inherit`, `Merge` and stub `Environ`, and it is kept separate from the newer policy.
- `scenarios.dfy`, module `Scenarios`: the concrete cases of env_test.go.

Go walks maps in an unspecified order. `Merge`, `Environ`, `validateJSON` and the
old `Merge` are therefore methods that pick the next key with `:|`, so any walk
order is covered. Each of them is proved to agree with an order-free
description. Where Go's answer depends on the order (which offending key an
error names, or the order of the `Environ` strings), the contract says only
that the key is *some* key with the stated defect, or that the order is *some*
enumeration of the keys.

### Behaviour worth knowing

- **Null entries.** An entry that is JSON `null` is accepted. Go passes `null` to `UnmarshalJSON`, and `json.Unmarshal` of `null` into the target struct is a no-op. The entry therefore gets `""`/`false` fields and keeps its `isSet`.
- **Null fields.** A `null` field inside an entry object (`{"value": null}`) also decodes, to the field's default. `validateJSON` rejects both kinds of null.
- **Merge policy.** The newer `Merge` copies parent-only keys into the local spec; the old `Merge` adds no keys. The newer `Merge` also marks `isSet` on a shared, non-inheriting key whose local value is non-empty.
- **Null documents.** A `null` document is accepted by `Read` and by `validateJSON`, and leaves the spec unchanged. `Read` decodes into a copy of the map header, so setting that copy to nil does not reach the caller.
- **Old `FromEnviron`.** A bare `NAME` without `=` gets an empty value that is *not* marked set.

## Model

| member | source | states |
|---|---|---|
| EnvSpec.DecodeEntry | env.go:22-51 | Decoding succeeds exactly for a string, null, or an object whose known fields have accepted types. A bare string sets the value to the quoted characters, marks it set, and keeps required/inherit/doc. An object replaces value/required/inherit/doc with its members, defaulting to ""/false. isSet is switched on by a non-empty value and is never cleared. |
| EnvSpec.Read | env.go:53-59 | Loading a document keeps every key it does not mention. Each member overwrites its key with the entry decoded from the zero entry. The result has the old keys plus the document's. It fails iff some member fails to decode, or the document is not an object (null leaves the spec as is). |
| EnvSpec.ReadIdempotent | env.go:53-59 | Reading the same document a second time changes nothing. |
| EnvSpec.ReadBareStrings | env.go:22-27 | A document of bare strings loads each one as a set value with no flags and no doc. |
| ProcessEnv.Split | env.go:75 | Splitting at the first '=' gives a name without '='. Name, '=' and value re-join to the original string. Without '=', the whole string is the name. |
| ProcessEnv.SplitJoined | env.go:75-79 | For a name without '=', joining name and value and splitting again gives both back. The value may itself contain '='. |
| ProcessEnv.FromEnviron | env.go:72-83 | Loading NAME=VALUE strings never fails. It adds exactly the names listed and keeps every other key. Each name holds the entry from its last string, so a later duplicate wins. That entry has the text after the first '=' ("" when there is none), is marked set, and has no flags or doc. |
| ProcessEnv.Environ | env.go:115-122 | There is one string per variable: the result has the spec's size. The strings are name=value for each key exactly once, in some enumeration order of the keys. |
| ProcessEnv.Dump | env.go:124-128 | The map Dump encodes has exactly the spec's keys, each mapped to that variable's value. |
| ProcessEnv.ReadThenDump | env.go:124-128 | A document whose members all decode loads without error. The values Dump then encodes are the old values, with each member's value written over its key: a bare string's characters, or an object's `value` member ("" when absent or null). |
| ProcessEnv.EnvironRoundTrip | env.go:115-122 | When no variable name contains '=', loading the Environ strings back with FromEnviron restores every name and value, each marked set. |
| ProcessEnv.RoundTripNeedsPlainNames | env.go:75-79 | A name containing '=' breaks the round trip: A=B with value C comes back as A with value B=C. |
| Reconcile.Merged | env.go:87-104 | After the copy/inherit pass the keys are local ∪ parent. Parent-only entries are copied verbatim. An inheriting shared key takes the parent's value, even an empty one, is marked set, and keeps its own flags and doc. Every other local key keeps its value, flags and doc, and a shared non-inheriting key is marked set when its local value is non-empty. Local-only keys are unchanged. |
| Reconcile.Merge | env.go:86-113 | For any map walk order, the local map ends up as Merged, on failure as well as on success. Merge reports an error iff some key is required and empty after the pass, and the error names such a key. |
| Reconcile.MissingIffUnsatisfied | env.go:94-110 | Stated in terms of the inputs, a key is missing after the merge iff one of two things holds. Either it is a required local key whose own value (or the parent's, when it inherits a shared key) is empty. Or it is a parent-only key that is required and empty. |
| Reconcile.MergeValuesIdempotent | env.go:87-104 | Merging the same parent a second time changes no value. |
| Reconcile.MergeIdempotent | env.go:87-104 | With a parent whose value-bearing or inheriting entries are marked set, merging twice equals merging once. |
| SpecCheck.CheckMember | env.go:152-177 | A top-level member passes iff it is a string, or an object whose keys are only value/doc holding strings and required/inherit holding bools. Otherwise the reported defect is a real one of that member. |
| SpecCheck.Validate | env.go:136-180 | Validation returns true iff every member passes (a null document passes), and returns an error exactly when it returns false. The error is a genuine defect: an unknown key, a mistyped field, a member of another kind, or a document that is not an object. |
| SpecCheck.WellFormedLoads | env.go:151-179 | Every document that passes validation loads without error. |
| SpecCheck.LoadsButIllFormed | env.go:29-39 | The converse fails: an unknown field or a null entry loads but fails validation. |
| SpecCheck.NumericValueRejected | env.go:159-163 | {"X": {"value": 1}} is rejected, and the only defect that can be reported is that value has the wrong type. |
| LegacyConfig.DecodeEntry | main.go:34-62 | The old decoder agrees with the newer one on every input, whatever doc the receiver is given there, once the doc is dropped. This holds on failure too, because the doc field is still type-checked. |
| LegacyConfig.Read | main.go:64-70 | As for the newer Read, with the old decoder: document members overwrite their keys and other keys are kept. |
| LegacyConfig.FromEnviron | main.go:83-94 | Loading adds exactly the listed names, a later duplicate wins, and other keys are kept. A name is marked set iff its last string contains '=', so a bare NAME gets "" unset. |
| LegacyConfig.Inherit | main.go:96-105 | Inherit fails iff the parent lacks the name. Otherwise only that key is replaced, by the parent's value marked set with both flags cleared. |
| LegacyConfig.Merged | main.go:108-132 | On success, entries that inherit or are required-and-empty take the parent's value (even an empty one), with flags cleared. All other entries are unchanged, and no key is added. |
| LegacyConfig.Merge | main.go:108-135 | The old Merge never adds keys. It fails iff some entry that inherits, or is required and empty, is absent from the parent, and names such a key. CannotInherit is reported exactly for an inheriting entry. On failure each entry is untouched or inherited. On success the result is Merged. |
| LegacyConfig.Environ | main.go:138-142 | The old Environ is a stub that returns a nil slice (`None`), whatever the config holds: the config is never rendered. |
| LegacyConfig.ChildInheritsAmbient | main.go:161-162 | Because run sets the command's Env to that nil slice, the child receives the launching process's own environment unchanged, not the merged config. |
| LegacyConfig.PoliciesDisagreeOnEmptyParent | main.go:122-131 | Take a required variable that the parent holds with an empty value. The old Merge accepts it and leaves it empty, while the newer Merge reports it missing. |
| Scenarios.BareStringEntry | env_test.go:5-20 | "default value" decodes to that value, marked set. |
| Scenarios.FullObjectEntry | env_test.go:23-51 | An object with all four fields decodes to exactly those fields, marked set. |
| Scenarios.EnvironEntries | env_test.go:54-80 | Loading SHELL=/bin/bash, CWD=/tmp and AGENT= gives SHELL its value and AGENT an empty value, both marked set, and defines no KWYJIBO. |
| Scenarios.InheritedShell | env_test.go:83-99 | A required, inheriting SHELL takes the parent's /bin/sh, and nothing is missing. |
| Scenarios.MissingToken | env.go:106-110 | A required TOKEN that the parent lacks is the only key Merge can report. |

## Left out

- Process launching, exit codes and signal relaying are not modelled, apart from the environment `run` gives the command (`LegacyConfig.ChildInheritsAmbient`): `run`, `forwardSignals`, `main` and `usage` in main.go, and run_unix.go and run_windows.go. They are OS and concurrency plumbing with no data-model content.
- File and stream I/O is not modelled: `FromFile`, the `os.Open` in `validateJSON`, `json.Decoder` and `json.Encoder`. `Read` and `Validate` take an already-parsed document, and `Dump` stops at the name→value map it would encode.
- JSON tokenising is not modelled. A `JString` holds the characters between the quotes. Go's bare-string path copies those raw bytes, so escape sequences stay as written. The object path runs them through `json.Unmarshal`, which does interpret escapes. The model gives both paths the same characters, so the two agree only on strings without escapes.
- EnvSpec.DecodeEntry, LegacyConfig.DecodeEntry: Go matches object member names to fields case-insensitively (`"Value"` also fills `value`). The model matches only the exact lower-case names, because which of several case variants wins depends on document order, and the parsed object does not keep that order. Repeated member names are likewise represented only by the surviving member.
- EnvSpec.Read, LegacyConfig.Read: on failure Go leaves the entries decoded before the bad member (in document order) in the map. The model returns only the failure. `env.FromFile` (env.go:62-70) passes that error on to its own caller, which is not part of this model; the old `config.Read` and `config.FromFile` callers in main.go (main.go:214-218, main.go:229-233) exit on it, so the half-written map is never used there. Repeated top-level member names are not modelled either: the parsed object keeps only the surviving member, so `{"A": 1, "A": "x"}` loads, where Go stops with an error at the first `A`.
- LegacyConfig.Environ: the os/exec rule that a nil `Env` gives the child the launching process's environment is stated by `ChildEnvironment`; the library itself is not part of this model.
- Error message texts are not modelled, nor the verbose `fmt.Printf` logging in the old `Merge`. Errors carry only their kind and the offending key where Go's message names one.
- `validKeys` (env.go:134) is not modelled: nothing uses it.
