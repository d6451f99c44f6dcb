/**
  Filling a Python dictionary from a sequence of optional key/value pairs, in order, where a
  later pair for a key overwrites an earlier one. Both the header parser and the playlist
  auto-creation build their dictionaries this way.
*/
module Dicts {
  import opened Wrappers

  /** Storing key/value pairs into a dictionary in order: a later pair for a key overwrites. */
  function Assign<K(==), V>(e: seq<Option<(K, V)>>): map<K, V> {
    if e == [] then map[]
    else
      var m := Assign(e[..|e| - 1]);
      match e[|e| - 1]
      case None => m
      case Some(kv) => m[kv.0 := kv.1]
  }

  /** Python's `m.get(k, default)`. */
  function Get<K, V>(m: map<K, V>, k: K, default: V): V {
    if k in m then m[k] else default
  }

  /** What each item contributes, in order, when `parse` turns it into an optional pair. */
  function Entries<A, K, V>(parse: A -> Option<(K, V)>, xs: seq<A>): (e: seq<Option<(K, V)>>)
    ensures |e| == |xs|
  {
    if xs == [] then []
    else Entries(parse, xs[..|xs| - 1]) + [parse(xs[|xs| - 1])]
  }

  /** Entry `j` is what item `j` parses to. */
  lemma {:induction false} EntriesAt<A, K, V>(parse: A -> Option<(K, V)>, xs: seq<A>)
    ensures forall j :: 0 <= j < |xs| ==> Entries(parse, xs)[j] == parse(xs[j])
  {
    if xs != [] {
      var init := xs[..|xs| - 1];
      EntriesAt(parse, init);
      assert forall j :: 0 <= j < |init| ==> init[j] == xs[j];
    }
  }

  /** One more item adds the entry it parses to. */
  lemma EntriesPrefix<A, K, V>(parse: A -> Option<(K, V)>, xs: seq<A>, i: int)
    requires 0 <= i < |xs|
    ensures Entries(parse, xs[..i + 1]) == Entries(parse, xs[..i]) + [parse(xs[i])]
  {
    assert xs[..i + 1][..i] == xs[..i];
  }

  /** One more pair after `e`. */
  lemma AssignSnoc<K, V>(e: seq<Option<(K, V)>>, x: Option<(K, V)>)
    ensures x.None? ==> Assign(e + [x]) == Assign(e)
    ensures x.Some? ==> Assign(e + [x]) == Assign(e)[x.value.0 := x.value.1]
  {
    assert (e + [x])[..|e|] == e;
  }

  /** One more pair on top of the first `i`. */
  lemma AssignAppend<K, V>(e: seq<Option<(K, V)>>, i: int)
    requires 0 <= i < |e|
    ensures e[i].None? ==> Assign(e[..i + 1]) == Assign(e[..i])
    ensures e[i].Some? ==> Assign(e[..i + 1]) == Assign(e[..i])[e[i].value.0 := e[i].value.1]
  {
    var done := e[..i + 1];
    assert done[..i] == e[..i] && done[i] == e[i];
  }

  /** A key is stored exactly when some pair carries it. */
  lemma {:induction false} AssignKeys<K, V>(e: seq<Option<(K, V)>>, k: K)
    ensures k in Assign(e) <==> exists j :: 0 <= j < |e| && e[j].Some? && e[j].value.0 == k
  {
    if e != [] {
      var last := |e| - 1;
      var init := e[..last];
      AssignKeys(init, k);
      if k in Assign(e) && !(e[last].Some? && e[last].value.0 == k) {
        var j :| 0 <= j < |init| && init[j].Some? && init[j].value.0 == k;
        assert e[j] == init[j];
      }
      if exists j :: 0 <= j < |e| && e[j].Some? && e[j].value.0 == k {
        var j :| 0 <= j < |e| && e[j].Some? && e[j].value.0 == k;
        if j < last { assert init[j] == e[j]; }
      }
    }
  }

  /** Every stored entry is one of the pairs. */
  lemma {:induction false} AssignFrom<K, V>(e: seq<Option<(K, V)>>, k: K)
    requires k in Assign(e)
    ensures exists j :: 0 <= j < |e| && e[j] == Some((k, Assign(e)[k]))
  {
    var last := |e| - 1;
    var init := e[..last];
    if e[last] == Some((k, Assign(e)[k])) {
    } else {
      AssignFrom(init, k);
      var j :| 0 <= j < |init| && init[j] == Some((k, Assign(init)[k]));
      assert e[j] == init[j];
    }
  }

  /** The last pair for a key decides its value. */
  lemma {:induction false} AssignLastWins<K, V>(e: seq<Option<(K, V)>>, j: int)
    requires 0 <= j < |e| && e[j].Some?
    requires forall j' :: j < j' < |e| ==> !(e[j'].Some? && e[j'].value.0 == e[j].value.0)
    ensures e[j].value.0 in Assign(e) && Assign(e)[e[j].value.0] == e[j].value.1
  {
    var last := |e| - 1;
    var init := e[..last];
    if j < last {
      assert init[j] == e[j];
      forall j' | j < j' < |init| ensures !(init[j'].Some? && init[j'].value.0 == init[j].value.0) {
        assert init[j'] == e[j'];
      }
      AssignLastWins(init, j);
    }
  }
}
