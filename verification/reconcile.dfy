/** env.Merge: folding a parent spec into the local one. For a key the two
    share, a local `inherit` flag makes the parent's value win; a key only the
    parent has is copied in whole. Afterwards every variable that is required
    but still has an empty value is an error. */
module Reconcile {
  import opened Wrappers
  import opened EnvSpec

  /** The local entry `l` after Merge visited its key with parent entry `v`.
      Inheriting takes the parent's value and marks it set; a local non-empty
      value is kept and marked set; otherwise the entry is left alone. */
  function Reconciled(l: EnvValue, v: EnvValue): EnvValue {
    if l.inherit then l.(value := v.value, isSet := true)
    else if l.value != "" then l.(isSet := true)
    else l
  }

  /** The local map after Merge's copy/inherit pass, however Go orders it:
      each step of that pass writes only the key it visits. */
  function Merged(c: Env, p: Env): (r: Env)
    ensures r.Keys == c.Keys + p.Keys
    // parent-only entries are copied verbatim, flags and doc included
    ensures forall k :: k in p && k !in c ==> r[k] == p[k]
    // an inheriting shared key takes the parent's value, even an empty one
    ensures forall k :: k in c && k in p && c[k].inherit ==>
              r[k] == c[k].(value := p[k].value, isSet := true)
    // every other local key keeps its value, flags and doc
    ensures forall k :: k in c && !(k in p && c[k].inherit) ==>
              && r[k].value == c[k].value && r[k].required == c[k].required
              && r[k].inherit == c[k].inherit && r[k].doc == c[k].doc
    // a shared, non-inheriting key is marked set when its local value is non-empty
    ensures forall k :: k in c && k in p && !c[k].inherit ==> r[k].isSet == (c[k].isSet || c[k].value != "")
    // a local-only key is unchanged, isSet included
    ensures forall k :: k in c && k !in p ==> r[k] == c[k]
  {
    map k | k in c.Keys + p.Keys ::
      if k !in c then p[k] else if k in p then Reconciled(c[k], p[k]) else c[k]
  }

  /** The entry Merged holds under a key of the parent. */
  function MergedEntry(c: Env, p: Env, k: string): EnvValue
    requires k in p
  {
    if k in c then Reconciled(c[k], p[k]) else p[k]
  }

  /** A map that agrees with Merged key by key is Merged. */
  lemma IsMerged(c: Env, p: Env, r: Env)
    requires r.Keys == c.Keys + p.Keys
    requires forall k :: k in r && k !in p ==> r[k] == c[k]
    requires forall k :: k in p ==> r[k] == MergedEntry(c, p, k)
    ensures r == Merged(c, p)
  {
    var m := Merged(c, p);
    assert forall k :: k in r ==> r[k] == m[k];
  }

  /** Variable `k` of `e` is required but has no value. */
  predicate MissingRequired(e: Env, k: string) {
    k in e && e[k].required && e[k].value == ""
  }

  /** When `k` is missing after the merge, stated in terms of the inputs: the
      local entry is required and its value (the parent's, when it inherits
      from a parent that has the key) is empty, or the key is parent-only and
      the parent's entry is required and empty. */
  predicate Unsatisfied(c: Env, p: Env, k: string) {
    if k in c then
      c[k].required && (if k in p && c[k].inherit then p[k].value else c[k].value) == ""
    else
      k in p && p[k].required && p[k].value == ""
  }

  /** env.Merge(p) on local map `c`. The map is rewritten in place, so `r` is
      the merged map whether or not the required-value check fails; `err` names some key
      that is required and empty after the merge (Go's map order decides
      which), or is None when there is no such key. */
  method Merge(c: Env, p: Env) returns (r: Env, err: Option<string>)
    ensures r == Merged(c, p)
    ensures err.None? <==> forall k :: k in r ==> !MissingRequired(r, k)
    ensures err.Some? ==> MissingRequired(r, err.value)
  {
    r := c;
    var todo := p.Keys;
    while todo != {}
      invariant todo <= p.Keys
      invariant r.Keys == c.Keys + (p.Keys - todo)
      invariant forall k :: k in r && !(k in p && k !in todo) ==> r[k] == c[k]
      invariant forall k :: k in p && k !in todo ==> r[k] == MergedEntry(c, p, k)
      decreases todo
    {
      var k :| k in todo;
      var v := p[k];
      if k !in r {
        r := r[k := v];
      } else {
        var l := r[k];
        if l.inherit {
          l := l.(value := v.value, isSet := true);
          r := r[k := l];
        } else if l.value != "" {
          l := l.(isSet := true);
          r := r[k := l];
        }
      }
      todo := todo - {k};
    }
    IsMerged(c, p, r);
    var unchecked := r.Keys;
    while unchecked != {}
      invariant unchecked <= r.Keys
      invariant forall k :: k in r && k !in unchecked ==> !MissingRequired(r, k)
      decreases unchecked
    {
      var k :| k in unchecked;
      if r[k].required && r[k].value == "" {
        return r, Some(k);
      }
      unchecked := unchecked - {k};
    }
    err := None;
  }

  /** Merge fails exactly on the keys the inputs leave unsatisfied. */
  lemma MissingIffUnsatisfied(c: Env, p: Env, k: string)
    ensures MissingRequired(Merged(c, p), k) <==> Unsatisfied(c, p, k)
  {
  }

  /** Merging the same parent again changes no value, because every key of
      the parent is present after the first merge and an inheriting key
      already holds the parent's value. */
  lemma MergeValuesIdempotent(c: Env, p: Env)
    ensures var r := Merged(c, p);
            forall k :: k in Merged(r, p) ==> k in r && Merged(r, p)[k].value == r[k].value
  {
  }

  /** Parent entries are settled when an entry that inherits or holds a value
      is already marked set (every entry FromEnviron produces is). */
  predicate Settled(p: Env) {
    forall k :: k in p && (p[k].inherit || p[k].value != "") ==> p[k].isSet
  }

  /** With a settled parent, merging twice is merging once. */
  lemma MergeIdempotent(c: Env, p: Env)
    requires Settled(p)
    ensures Merged(Merged(c, p), p) == Merged(c, p)
  {
  }
}
