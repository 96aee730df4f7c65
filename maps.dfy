/**
 * A dictionary built by a loop that, element by element, either assigns
 * `d[k] = v` or skips the element: the shape of every loop in the login
 * code that fills a dict. `None` stands for a skipped element.
 */
module Maps {
  import opened Outcomes

  /** The keys the elements assign. */
  function KeysOf<K, V>(kvs: seq<Option<(K, V)>>): set<K>
  {
    set i | 0 <= i < |kvs| && kvs[i].Some? :: kvs[i].value.0
  }

  /** What the loop does with each element, in order: an assignment or a skip. */
  function Assignments<A, K, V>(step: A -> Option<(K, V)>, xs: seq<A>): (r: seq<Option<(K, V)>>)
    ensures |r| == |xs|
    ensures forall i :: 0 <= i < |xs| ==> r[i] == step(xs[i])
  {
    if xs == [] then [] else Assignments(step, xs[..|xs| - 1]) + [step(xs[|xs| - 1])]
  }

  /** One more element of the loop's input. */
  lemma AssignmentsSnoc<A, K, V>(step: A -> Option<(K, V)>, xs: seq<A>, x: A)
    ensures Assignments(step, xs + [x]) == Assignments(step, xs) + [step(x)]
  {
    assert (xs + [x])[..|xs|] == xs;
  }

  /** `m` after `m[k] = v` for every `Some((k, v))` of `kvs`, first to last. */
  function Updates<K, V>(m: map<K, V>, kvs: seq<Option<(K, V)>>): (r: map<K, V>)
    ensures m.Keys <= r.Keys
  {
    if kvs == [] then m
    else
      var prior := Updates(m, kvs[..|kvs| - 1]);
      match kvs[|kvs| - 1]
      case None => prior
      case Some((k, v)) => prior[k := v]
  }

  /** The keys afterwards are the old keys plus the assigned ones. */
  lemma {:induction false} UpdatesKeys<K, V>(m: map<K, V>, kvs: seq<Option<(K, V)>>)
    ensures Updates(m, kvs).Keys == m.Keys + KeysOf(kvs)
  {
    if kvs != [] {
      var n := |kvs| - 1;
      UpdatesKeys(m, kvs[..n]);
      var last := if kvs[n].Some? then {kvs[n].value.0} else {};
      assert KeysOf(kvs) == KeysOf(kvs[..n]) + last by {
        forall k | k in KeysOf(kvs) ensures k in KeysOf(kvs[..n]) + last {
          var i :| 0 <= i < |kvs| && kvs[i].Some? && kvs[i].value.0 == k;
          if i < n { assert kvs[..n][i] == kvs[i]; }
        }
        forall k | k in KeysOf(kvs[..n]) ensures k in KeysOf(kvs) {
          var i :| 0 <= i < n && kvs[..n][i].Some? && kvs[..n][i].value.0 == k;
          assert kvs[i] == kvs[..n][i];
        }
      }
    }
  }

  /** A key's value is the one from the last element that assigns it. */
  lemma {:induction false} LastWriteWins<K, V>(m: map<K, V>, kvs: seq<Option<(K, V)>>, i: nat)
    requires i < |kvs| && kvs[i].Some?
    requires forall j :: i < j < |kvs| && kvs[j].Some? ==> kvs[j].value.0 != kvs[i].value.0
    ensures kvs[i].value.0 in Updates(m, kvs) && Updates(m, kvs)[kvs[i].value.0] == kvs[i].value.1
  {
    var n := |kvs| - 1;
    if i < n {
      assert forall j :: 0 <= j < n ==> kvs[..n][j] == kvs[j];
      LastWriteWins(m, kvs[..n], i);
    }
  }

  /** A key no element assigns keeps its old value. */
  lemma {:induction false} Untouched<K, V>(m: map<K, V>, kvs: seq<Option<(K, V)>>, k: K)
    requires k in m
    requires forall j :: 0 <= j < |kvs| && kvs[j].Some? ==> kvs[j].value.0 != k
    ensures k in Updates(m, kvs) && Updates(m, kvs)[k] == m[k]
  {
    if kvs != [] {
      var n := |kvs| - 1;
      assert forall j :: 0 <= j < n ==> kvs[..n][j] == kvs[j];
      Untouched(m, kvs[..n], k);
    }
  }

  /** Whatever holds of every old entry and of every assignment holds of every entry afterwards. */
  lemma {:induction false} UpdatesKeep<K, V>(m: map<K, V>, kvs: seq<Option<(K, V)>>, p: (K, V) -> bool)
    requires forall k | k in m :: p(k, m[k])
    requires forall i | 0 <= i < |kvs| && kvs[i].Some? :: p(kvs[i].value.0, kvs[i].value.1)
    ensures forall k | k in Updates(m, kvs) :: p(k, Updates(m, kvs)[k])
  {
    if kvs != [] {
      var n := |kvs| - 1;
      assert forall i :: 0 <= i < n ==> kvs[..n][i] == kvs[i];
      UpdatesKeep(m, kvs[..n], p);
    }
  }

  /** One more element, as the loop body applies it. */
  lemma UpdatesSnoc<K, V>(m: map<K, V>, kvs: seq<Option<(K, V)>>, x: Option<(K, V)>)
    ensures Updates(m, kvs + [x]) == match x case None => Updates(m, kvs) case Some((k, v)) => Updates(m, kvs)[k := v]
  {
    assert (kvs + [x])[..|kvs|] == kvs;
  }
}
