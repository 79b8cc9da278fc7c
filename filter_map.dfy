/**
 * What `iter.filter_map(f).collect::<Vec<_>>()` produces, stated over the
 * sequence of per-element outcomes `f(x)`: the `Some` values, in order, with
 * every `None` leaving no entry at all.
 */
module FilterMap {
  import opened Wrappers

  /** The values of the `Some` outcomes, in their original order. */
  function Somes<T>(o: seq<Option<T>>): (r: seq<T>)
    ensures |r| <= |o|
  {
    if o == [] then []
    else
      var last := o[|o| - 1];
      Somes(o[..|o| - 1]) + (if last.Some? then [last.value] else [])
  }

  /** How many outcomes are `None`, i.e. how many elements were dropped. */
  function Nones<T>(o: seq<Option<T>>): (n: nat)
    ensures n <= |o|
  {
    if o == [] then 0
    else Nones(o[..|o| - 1]) + (if o[|o| - 1].None? then 1 else 0)
  }

  /** The positions of the `Some` outcomes, in increasing order. */
  ghost function Kept<T>(o: seq<Option<T>>): seq<nat>
  {
    if o == [] then []
    else Kept(o[..|o| - 1]) + (if o[|o| - 1].Some? then [|o| - 1] else [])
  }

  /**
   * `Kept(o)` says exactly where every collected value came from: the k-th
   * collected value is the outcome at position `Kept(o)[k]`, those positions
   * are strictly increasing, a position is kept exactly when its outcome is
   * `Some`, and the collection falls short of `|o|` by exactly the number of
   * `None` outcomes.
   */
  lemma {:induction false} KeptCharacterises<T>(o: seq<Option<T>>)
    ensures |Kept(o)| == |Somes(o)| == |o| - Nones(o)
    ensures forall k :: 0 <= k < |Kept(o)| ==>
              Kept(o)[k] < |o| && o[Kept(o)[k]] == Some(Somes(o)[k])
    ensures forall k, l :: 0 <= k < l < |Kept(o)| ==> Kept(o)[k] < Kept(o)[l]
    ensures forall i :: 0 <= i < |o| ==> (o[i].Some? <==> i in Kept(o))
  {
    if o != [] {
      var n := |o| - 1;
      var init := o[..n];
      KeptCharacterises(init);
      assert forall i :: 0 <= i < n ==> o[i] == init[i];
      forall i | 0 <= i < n
        ensures (o[i].Some? <==> i in Kept(o))
      {
        assert i in Kept(o) <==> i in Kept(init);
      }
    }
  }

  /** Collecting a prefix of the outcomes gives a prefix of the collection. */
  lemma {:induction false} PrefixCollectsPrefix<T>(o: seq<Option<T>>, m: nat)
    requires m <= |o|
    ensures Somes(o[..m]) <= Somes(o)
    ensures Kept(o[..m]) <= Kept(o)
    decreases |o| - m
  {
    if m < |o| {
      var init := o[..|o| - 1];
      assert o[..m] == init[..m];
      PrefixCollectsPrefix(init, m);
    } else {
      assert o[..m] == o;
    }
  }

  /**
   * The pairing `test_hiscore_response_parse` relies on: a `Some` outcome at position `i`
   * is collected at position `i - skipped`, where `skipped` counts the `None`
   * outcomes before it.
   */
  lemma {:induction false} ShiftedIndex<T>(o: seq<Option<T>>, i: nat)
    requires i < |o| && o[i].Some?
    ensures i - Nones(o[..i]) < |Somes(o)| == |Kept(o)|
    ensures Kept(o)[i - Nones(o[..i])] == i
    ensures Somes(o)[i - Nones(o[..i])] == o[i].value
  {
    var pre := o[..i + 1];
    assert pre[..i] == o[..i];
    KeptCharacterises(o[..i]);
    KeptCharacterises(pre);
    KeptCharacterises(o);
    PrefixCollectsPrefix(o, i + 1);
    assert Kept(pre) == Kept(o[..i]) + [i];
    assert Somes(pre) == Somes(o[..i]) + [o[i].value];
  }

  /** Without any `None` outcome, every value stays at its own position. */
  lemma {:induction false} NoNonesKeepsPositions<T>(o: seq<Option<T>>)
    requires Nones(o) == 0
    ensures |Somes(o)| == |o|
    ensures forall i :: 0 <= i < |o| ==> o[i] == Some(Somes(o)[i])
  {
    KeptCharacterises(o);
    NoNonesAllSome(o);
    forall i | 0 <= i < |o|
      ensures o[i] == Some(Somes(o)[i])
    {
      NonesPrefix(o, i);
      ShiftedIndex(o, i);
    }
  }

  /** No `None` is counted exactly when every outcome is `Some`. */
  lemma {:induction false} NoNonesAllSome<T>(o: seq<Option<T>>)
    requires Nones(o) == 0
    ensures forall i :: 0 <= i < |o| ==> o[i].Some?
  {
    if o != [] {
      var n := |o| - 1;
      NoNonesAllSome(o[..n]);
      assert forall i :: 0 <= i < n ==> o[..n][i] == o[i];
    }
  }

  /** Every outcome `Some` means no `None` is counted. */
  lemma {:induction false} AllSomeNoNones<T>(o: seq<Option<T>>)
    requires forall i :: 0 <= i < |o| ==> o[i].Some?
    ensures Nones(o) == 0
  {
    if o != [] {
      var n := |o| - 1;
      assert forall i :: 0 <= i < n ==> o[..n][i] == o[i];
      AllSomeNoNones(o[..n]);
    }
  }

  /** Counting the `None`s of a prefix never gives more than the whole. */
  lemma {:induction false} NonesPrefix<T>(o: seq<Option<T>>, m: nat)
    requires m <= |o|
    ensures Nones(o[..m]) <= Nones(o)
    decreases |o| - m
  {
    if m < |o| {
      var init := o[..|o| - 1];
      assert o[..m] == init[..m];
      NonesPrefix(init, m);
    } else {
      assert o[..m] == o;
    }
  }
}
