/** The concrete cases of env_test.go, stated over the model. */
module Scenarios {
  import opened Wrappers
  import opened JsonValue
  import opened EnvSpec
  import Reconcile
  import ProcessEnv

  /** A bare string entry: the value as written, marked set. */
  lemma BareStringEntry()
    ensures DecodeEntry(Unset, JString("default value"))
            == Success(EnvValue("default value", false, false, "", true))
  {
  }

  /** An object entry with all four fields. */
  lemma FullObjectEntry()
    ensures var j := JObject(map["value" := JString("default value"), "required" := JBool(true),
                                 "inherit" := JBool(true), "doc" := JString("the rain in Spain")]);
            DecodeEntry(Unset, j) == Success(EnvValue("default value", true, true, "the rain in Spain", true))
  {
  }

  /** A required, inheriting SHELL takes the parent's `/bin/sh` and the merge succeeds. */
  lemma InheritedShell()
    ensures var p := map["SHELL" := EnvValue("/bin/sh", false, false, "", false)];
            var c := map["SHELL" := EnvValue("", true, true, "", false)];
            var r := Reconcile.Merged(c, p);
            r["SHELL"].value == "/bin/sh" && forall k :: k in r ==> !Reconcile.MissingRequired(r, k)
  {
  }

  /** A required TOKEN the parent lacks makes the merge fail on TOKEN. */
  lemma MissingToken()
    ensures var c := map["TOKEN" := EnvValue("", true, false, "", false)];
            var r := Reconcile.Merged(c, map[]);
            forall k :: Reconcile.MissingRequired(r, k) <==> k == "TOKEN"
  {
  }

  /** The names a three-string environment defines. */
  lemma NamesOfThree(a: string, b: string, c: string)
    ensures ProcessEnv.Names([a, b, c]) == {ProcessEnv.Name(a), ProcessEnv.Name(b), ProcessEnv.Name(c)}
  {
    var e := [a, b, c];
    assert e[0] == a && e[1] == b && e[2] == c;
  }

  /** Three strings with distinct names load to exactly those names, each
      holding the entry made from its own string. */
  lemma LoadThree(a: string, b: string, c: string)
    requires ProcessEnv.Name(a) != ProcessEnv.Name(b)
    requires ProcessEnv.Name(a) != ProcessEnv.Name(c)
    requires ProcessEnv.Name(b) != ProcessEnv.Name(c)
    ensures var r := ProcessEnv.FromEnviron(map[], [a, b, c]);
            && r.Keys == {ProcessEnv.Name(a), ProcessEnv.Name(b), ProcessEnv.Name(c)}
            && r[ProcessEnv.Name(a)] == ProcessEnv.EntryOf(a)
            && r[ProcessEnv.Name(c)] == ProcessEnv.EntryOf(c)
  {
    NamesOfThree(a, b, c);
  }

  /** Three NAME=VALUE strings with distinct plain names load to exactly
      those names; the first and last hold their values, marked set. */
  lemma LoadThreePairs(environ: seq<string>, n1: string, v1: string, n2: string, v2: string, n3: string, v3: string)
    requires '=' !in n1 && '=' !in n2 && '=' !in n3
    requires n1 != n2 && n1 != n3 && n2 != n3
    requires environ == [ProcessEnv.Pair(n1, v1), ProcessEnv.Pair(n2, v2), ProcessEnv.Pair(n3, v3)]
    ensures var r := ProcessEnv.FromEnviron(map[], environ);
            && (forall k :: k in r <==> k == n1 || k == n2 || k == n3)
            && n1 in r && r[n1] == EnvValue(v1, false, false, "", true)
            && n3 in r && r[n3] == EnvValue(v3, false, false, "", true)
  {
    ProcessEnv.SplitJoined(n1, v1);
    ProcessEnv.SplitJoined(n2, v2);
    ProcessEnv.SplitJoined(n3, v3);
    LoadThree(ProcessEnv.Pair(n1, v1), ProcessEnv.Pair(n2, v2), ProcessEnv.Pair(n3, v3));
  }

  /** The three strings of the environment below, as NAME=VALUE pairs. */
  lemma TestPairs()
    ensures [ProcessEnv.Pair("SHELL", "/bin/bash"), ProcessEnv.Pair("CWD", "/tmp"), ProcessEnv.Pair("AGENT", "")]
            == ["SHELL=/bin/bash", "CWD=/tmp", "AGENT="]
  {
    assert ProcessEnv.Pair("SHELL", "/bin/bash") == "SHELL=/bin/bash";
    assert ProcessEnv.Pair("CWD", "/tmp") == "CWD=/tmp";
    assert ProcessEnv.Pair("AGENT", "") == "AGENT=";
  }

  /** Loading SHELL=/bin/bash, CWD=/tmp and AGENT= gives SHELL and AGENT
      their values, both marked set, an empty AGENT included, and defines no
      other name such as KWYJIBO. The environment is a parameter fixed by
      the precondition rather than a literal in the postcondition, which
      keeps the solver from unfolding FromEnviron on the literal list. */
  lemma EnvironEntries(environ: seq<string>)
    requires environ == ["SHELL=/bin/bash", "CWD=/tmp", "AGENT="]
    ensures var r := ProcessEnv.FromEnviron(map[], environ);
            && "SHELL" in r && r["SHELL"].value == "/bin/bash" && r["SHELL"].isSet
            && "AGENT" in r && r["AGENT"].value == "" && r["AGENT"].isSet
            && "KWYJIBO" !in r
  {
    TestPairs();
    LoadThreePairs(environ, "SHELL", "/bin/bash", "CWD", "/tmp", "AGENT", "");
    assert "KWYJIBO" != "SHELL" && "KWYJIBO" != "CWD" && "KWYJIBO" != "AGENT";
  }
}
