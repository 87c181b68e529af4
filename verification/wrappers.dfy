/** The optional value used wherever the crawler gets back `None` from a lookup
    (a missing attribute, a search that found no element). */
module Wrappers {

  datatype Option<+T> = None | Some(value: T) {

    /** The value, or `default` when there is none. */
    function GetOr(default: T): T {
      match this
      case Some(v) => v
      case None => default
    }
  }

  /** The positions of `os` that hold a value, in increasing order. */
  function SomePositions<T>(os: seq<Option<T>>): (q: seq<nat>)
    ensures |q| <= |os|
    ensures forall k :: 0 <= k < |q| ==> q[k] < |os|
    ensures forall x: nat :: x in q <==> x < |os| && os[x].Some?
    ensures forall a, b :: 0 <= a < b < |q| ==> q[a] < q[b]
  {
    if os == [] then []
    else
      var q := SomePositions(os[..|os| - 1]);
      assert forall k :: 0 <= k < |q| ==> q[k] in q;
      q + (if os[|os| - 1].Some? then [|os| - 1] else [])
  }

  /** The values held in `os`, in order: one for each position that holds one. */
  function Somes<T>(os: seq<Option<T>>): (r: seq<T>)
    ensures |r| == |SomePositions(os)|
    ensures forall k :: 0 <= k < |r| ==> os[SomePositions(os)[k]] == Some(r[k])
  {
    if os == [] then []
    else
      var init := os[..|os| - 1];
      assert forall k :: 0 <= k < |init| ==> init[k] == os[k];
      Somes(init) + (if os[|os| - 1].Some? then [os[|os| - 1].value] else [])
  }

  /** Reading from the front: the first position's value, if any, then the rest. */
  lemma {:induction false} SomesCons<T>(o: Option<T>, os: seq<Option<T>>)
    ensures Somes([o] + os) == (if o.Some? then [o.value] else []) + Somes(os)
    decreases |os|
  {
    var xs := [o] + os;
    if os == [] {
      assert xs[..0] == [];
    } else {
      var init, last := os[..|os| - 1], os[|os| - 1];
      assert xs[..|xs| - 1] == [o] + init;
      SomesCons(o, init);
      assert os[..|os| - 1] == init;
    }
  }

  /** A value is kept exactly when some position holds it. */
  lemma SomesMembers<T>(os: seq<Option<T>>, v: T)
    ensures v in Somes(os) <==> Some(v) in os
  {
    var r, q := Somes(os), SomePositions(os);
    if v in r {
      var k :| 0 <= k < |r| && r[k] == v;
      assert os[q[k]] == Some(v);
    }
    if Some(v) in os {
      var x :| 0 <= x < |os| && os[x] == Some(v);
      assert x in q;
      var k :| 0 <= k < |q| && q[k] == x;
      assert r[k] == v;
    }
  }

  /** A property every held value has is a property of every kept value. */
  lemma SomesHold<T>(os: seq<Option<T>>, p: T -> bool)
    requires forall i :: 0 <= i < |os| && os[i].Some? ==> p(os[i].value)
    ensures forall k :: 0 <= k < |Somes(os)| ==> p(Somes(os)[k])
  {
    var r, q := Somes(os), SomePositions(os);
    forall k | 0 <= k < |r| ensures p(r[k]) {
      assert os[q[k]] == Some(r[k]);
    }
  }
}
