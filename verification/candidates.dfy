/** Result records and the order-preserving de-duplication the crawler applies to
    the concatenated scan output (simple_crawler.py:436-443). */
module Candidates {
  import opened Wrappers
  import opened Strings

  /** One result: its title, resolved link (possibly empty) and abstract
      (`summary`, since `abstract` is a Dafny keyword). */
  datatype Candidate = Candidate(title: string, link: string, summary: string)

  /** How many leading abstract characters take part in the key. */
  const KeyPrefix: nat := 50

  /** `f"{title}_{abstract[:50]}"`: two results with the same key are duplicates.
      It is as long as the title plus the separator plus at most 50 abstract characters. */
  function Key(c: Candidate): (k: string)
    ensures |c.title| + 1 <= |k| <= |c.title| + 1 + KeyPrefix
  {
    c.title + "_" + c.summary[..Min(KeyPrefix, |c.summary|)]
  }

  /** Two results with the same title are duplicates exactly when their abstracts
      agree on the first 50 characters; whatever follows is ignored. */
  lemma SameTitleKeys(a: Candidate, b: Candidate)
    requires a.title == b.title
    ensures Key(a) == Key(b) <==>
              a.summary[..Min(KeyPrefix, |a.summary|)] == b.summary[..Min(KeyPrefix, |b.summary|)]
  {
    var n := |a.title| + 1;
    if Key(a) == Key(b) {
      assert Key(a)[n..] == a.summary[..Min(KeyPrefix, |a.summary|)];
      assert Key(b)[n..] == b.summary[..Min(KeyPrefix, |b.summary|)];
    }
  }

  function KeySet(cs: seq<Candidate>): set<string> {
    set c | c in cs :: Key(c)
  }

  /** No two results share a key, and none has a key from `seen`. */
  predicate DistinctKeys(cs: seq<Candidate>, seen: set<string>) {
    && (forall i :: 0 <= i < |cs| ==> Key(cs[i]) !in seen)
    && (forall i, j :: 0 <= i < j < |cs| ==> Key(cs[i]) != Key(cs[j]))
  }

  /** `cs[i]` is the first element of `cs` with its key. */
  predicate FirstWithKey(cs: seq<Candidate>, i: nat)
    requires i < |cs|
  {
    forall j :: 0 <= j < i ==> Key(cs[j]) != Key(cs[i])
  }

  /** `a` can be obtained from `b` by deleting elements. */
  predicate IsSubsequence(a: seq<Candidate>, b: seq<Candidate>)
    decreases |b|
  {
    if a == [] then true
    else if b == [] then false
    else if a[0] == b[0] then IsSubsequence(a[1..], b[1..])
    else IsSubsequence(a, b[1..])
  }

  /** The loop at lines 439-443, started with the set `seen` of keys already kept:
      it only ever drops elements, never one with a new key at the front. */
  function DedupFrom(cs: seq<Candidate>, seen: set<string>): (r: seq<Candidate>)
    decreases |cs|
    ensures |r| <= |cs|
    ensures forall c :: c in r ==> c in cs && Key(c) !in seen
    ensures cs != [] && Key(cs[0]) !in seen ==> r != [] && r[0] == cs[0]
  {
    if cs == [] then []
    else if Key(cs[0]) in seen then DedupFrom(cs[1..], seen)
    else [cs[0]] + DedupFrom(cs[1..], seen + {Key(cs[0])})
  }

  /** Lines 437-443: the results in order, each key kept once, on its first element. */
  function Dedup(cs: seq<Candidate>): (r: seq<Candidate>)
    ensures r == Somes(Firsts(cs, {}))
    ensures IsSubsequence(r, cs)
    ensures DistinctKeys(r, {})
    ensures KeySet(r) == KeySet(cs)
    ensures forall i :: 0 <= i < |cs| && FirstWithKey(cs, i) ==> cs[i] in r
  {
    DedupFromSpec(cs, {});
    DedupFrom(cs, {})
  }

  /** A result that reappears later is reported where it first appeared: for
      `[x, p, x]` with different keys the output is `[x, p]`, not `[p, x]`. */
  lemma RepeatKeepsFirstPlace(x: Candidate, p: Candidate)
    requires Key(x) != Key(p)
    ensures Dedup([x, p, x]) == [x, p]
  {
    var none: set<string> := {};
    assert [x, p, x][1..] == [p, x];
    assert [p, x][1..] == [x];
    assert DedupFrom([x], none + {Key(x)} + {Key(p)}) == [];
  }

  /** The de-duplication read element by element: position `i` keeps `cs[i]`
      exactly when its key is new and no earlier element carries it. */
  function Firsts(cs: seq<Candidate>, seen: set<string>): (os: seq<Option<Candidate>>)
    ensures |os| == |cs|
    ensures forall i :: 0 <= i < |cs| ==>
              os[i] == if Key(cs[i]) !in seen && FirstWithKey(cs, i) then Some(cs[i]) else None
  {
    seq(|cs|, i requires 0 <= i < |cs| => if Key(cs[i]) !in seen && FirstWithKey(cs, i) then Some(cs[i]) else None)
  }

  /** Past the head, an element is the first with its key exactly when it does
      not share the head's key and is the first with its key in the tail. */
  lemma FirstWithKeyTail(cs: seq<Candidate>, i: nat)
    requires 0 < i < |cs|
    ensures FirstWithKey(cs, i) <==> Key(cs[0]) != Key(cs[i]) && FirstWithKey(cs[1..], i - 1)
  {
    var tail := cs[1..];
    if Key(cs[0]) != Key(cs[i]) && FirstWithKey(tail, i - 1) {
      forall j | 0 <= j < i ensures Key(cs[j]) != Key(cs[i]) {
        if j > 0 {
          assert tail[j - 1] == cs[j];
        }
      }
    }
  }

  /** The element-wise reading of a non-empty list: the head's verdict, then the
      tail's read with the head's key added to `seen` when it was kept. */
  lemma FirstsCons(cs: seq<Candidate>, seen: set<string>)
    requires cs != []
    ensures var seen' := if Key(cs[0]) in seen then seen else seen + {Key(cs[0])};
            Firsts(cs, seen) == [if Key(cs[0]) in seen then None else Some(cs[0])] + Firsts(cs[1..], seen')
  {
    var seen' := if Key(cs[0]) in seen then seen else seen + {Key(cs[0])};
    var os, ts := Firsts(cs, seen), Firsts(cs[1..], seen');
    forall i | 0 < i < |cs| ensures os[i] == ts[i - 1] {
      FirstWithKeyTail(cs, i);
    }
    assert os == [os[0]] + os[1..];
  }

  /** The loop keeps exactly the elements the element-wise reading keeps, in order. */
  lemma {:induction false} DedupFromIsFirsts(cs: seq<Candidate>, seen: set<string>)
    ensures DedupFrom(cs, seen) == Somes(Firsts(cs, seen))
    decreases |cs|
  {
    if cs == [] {
      assert Firsts(cs, seen) == [];
    } else {
      var seen' := if Key(cs[0]) in seen then seen else seen + {Key(cs[0])};
      var head: Option<Candidate> := if Key(cs[0]) in seen then None else Some(cs[0]);
      FirstsCons(cs, seen);
      SomesCons(head, Firsts(cs[1..], seen'));
      DedupFromIsFirsts(cs[1..], seen');
    }
  }

  /** What the de-duplication keeps: a subsequence of its input whose keys are
      pairwise distinct and new, that carries every new key of the input, each on
      the first input element with that key. */
  lemma DedupFromSpec(cs: seq<Candidate>, seen: set<string>)
    ensures DedupFrom(cs, seen) == Somes(Firsts(cs, seen))
    ensures IsSubsequence(DedupFrom(cs, seen), cs)
    ensures DistinctKeys(DedupFrom(cs, seen), seen)
    ensures KeySet(DedupFrom(cs, seen)) == KeySet(cs) - seen
    ensures forall i :: 0 <= i < |cs| && FirstWithKey(cs, i) && Key(cs[i]) !in seen ==>
              cs[i] in DedupFrom(cs, seen)
  {
    DedupFromIsFirsts(cs, seen);
    DedupFromSubsequence(cs, seen);
    DedupFromDistinctKeys(cs, seen);
    DedupFromKeySet(cs, seen);
    DedupFromKeepsFirst(cs, seen);
  }

  lemma {:induction false} DedupFromSubsequence(cs: seq<Candidate>, seen: set<string>)
    ensures IsSubsequence(DedupFrom(cs, seen), cs)
    decreases |cs|
  {
    if cs != [] {
      if Key(cs[0]) in seen {
        DedupFromSubsequence(cs[1..], seen);
        var r := DedupFrom(cs[1..], seen);
        IsSubsequenceCons(r, cs);
      } else {
        DedupFromSubsequence(cs[1..], seen + {Key(cs[0])});
      }
    }
  }

  /** Dropping the head of `b` keeps `a` a subsequence. */
  lemma {:induction false} IsSubsequenceCons(a: seq<Candidate>, b: seq<Candidate>)
    requires b != [] && IsSubsequence(a, b[1..])
    ensures IsSubsequence(a, b)
    decreases |b|, 0
  {
    if a != [] && a[0] == b[0] {
      IsSubsequenceTail(a, b[1..]);
    }
  }

  /** Dropping the head of `a` keeps it a subsequence. */
  lemma {:induction false} IsSubsequenceTail(a: seq<Candidate>, b: seq<Candidate>)
    requires a != [] && IsSubsequence(a, b)
    ensures IsSubsequence(a[1..], b)
    decreases |b|, 1
  {
    if b != [] {
      if a[0] == b[0] {
        if a[1..] != [] {
          IsSubsequenceTail(a[1..], b[1..]);
          IsSubsequenceCons(a[1..], b);
        }
      } else {
        IsSubsequenceTail(a, b[1..]);
        if a[1..] != [] {
          IsSubsequenceCons(a[1..], b);
        }
      }
    }
  }

  /** The kept keys are pairwise distinct and new. */
  lemma {:induction false} DedupFromDistinctKeys(cs: seq<Candidate>, seen: set<string>)
    ensures DistinctKeys(DedupFrom(cs, seen), seen)
    decreases |cs|
  {
    if cs != [] && Key(cs[0]) in seen {
      DedupFromDistinctKeys(cs[1..], seen);
    } else if cs != [] {
      var c := cs[0];
      var seen' := seen + {Key(c)};
      DedupFromDistinctKeys(cs[1..], seen');
      var tail := DedupFrom(cs[1..], seen');
      var r := [c] + tail;
      forall i | 0 <= i < |r| ensures Key(r[i]) !in seen {
        if i > 0 {
          assert r[i] == tail[i - 1];
        }
      }
      forall i, j | 0 <= i < j < |r| ensures Key(r[i]) != Key(r[j]) {
        assert r[j] == tail[j - 1];
        if i > 0 {
          assert r[i] == tail[i - 1];
        }
      }
    }
  }

  /** The kept keys are exactly the keys of the input that were not seen before. */
  lemma {:induction false} DedupFromKeySet(cs: seq<Candidate>, seen: set<string>)
    ensures KeySet(DedupFrom(cs, seen)) == KeySet(cs) - seen
    decreases |cs|
  {
    if cs != [] {
      var c, rest := cs[0], cs[1..];
      assert cs == [c] + rest;
      assert KeySet(cs) == {Key(c)} + KeySet(rest);
      if Key(c) in seen {
        DedupFromKeySet(rest, seen);
      } else {
        var seen' := seen + {Key(c)};
        DedupFromKeySet(rest, seen');
        var tail := DedupFrom(rest, seen');
        assert ([c] + tail)[1..] == tail;
        assert KeySet([c] + tail) == {Key(c)} + KeySet(tail);
      }
    }
  }

  /** The first element with each new key is kept. */
  lemma {:induction false} DedupFromKeepsFirst(cs: seq<Candidate>, seen: set<string>)
    ensures forall i :: 0 <= i < |cs| && FirstWithKey(cs, i) && Key(cs[i]) !in seen ==>
              cs[i] in DedupFrom(cs, seen)
    decreases |cs|
  {
    if cs != [] {
      var c, rest := cs[0], cs[1..];
      var seen' := if Key(c) in seen then seen else seen + {Key(c)};
      DedupFromKeepsFirst(rest, seen');
      forall i | 0 < i < |cs| && FirstWithKey(cs, i) && Key(cs[i]) !in seen
        ensures cs[i] in DedupFrom(cs, seen)
      {
        assert Key(cs[0]) != Key(cs[i]);
        assert rest[i - 1] == cs[i];
        assert FirstWithKey(rest, i - 1) by {
          forall j | 0 <= j < i - 1 ensures Key(rest[j]) != Key(rest[i - 1]) {
            assert rest[j] == cs[j + 1];
          }
        }
      }
    }
  }

  /** A list whose keys are already distinct and new passes through unchanged. */
  lemma {:induction false} DedupFromDistinct(cs: seq<Candidate>, seen: set<string>)
    requires DistinctKeys(cs, seen)
    ensures DedupFrom(cs, seen) == cs
    decreases |cs|
  {
    if cs != [] {
      var seen' := seen + {Key(cs[0])};
      assert DistinctKeys(cs[1..], seen') by {
        forall i | 0 <= i < |cs[1..]| ensures Key(cs[1..][i]) !in seen' {
          assert cs[1..][i] == cs[i + 1];
        }
      }
      DedupFromDistinct(cs[1..], seen');
    }
  }

  /** De-duplicating twice is de-duplicating once. */
  lemma DedupIdempotent(cs: seq<Candidate>)
    ensures Dedup(Dedup(cs)) == Dedup(cs)
  {
    DedupFromSpec(cs, {});
    DedupFromDistinct(Dedup(cs), {});
  }

  /** De-duplication of a concatenation continues with the keys the first part kept. */
  lemma {:induction false} DedupFromAppend(xs: seq<Candidate>, ys: seq<Candidate>, seen: set<string>)
    ensures DedupFrom(xs + ys, seen) == DedupFrom(xs, seen) + DedupFrom(ys, seen + KeySet(xs))
    decreases |xs|
  {
    if xs == [] {
      assert xs + ys == ys;
      assert KeySet(xs) == {};
      assert seen + KeySet(xs) == seen;
    } else {
      var c := xs[0];
      assert (xs + ys)[0] == c;
      assert (xs + ys)[1..] == xs[1..] + ys;
      KeySetCons(xs);
      if Key(c) in seen {
        DedupFromAppend(xs[1..], ys, seen);
        assert seen + KeySet(xs[1..]) == seen + KeySet(xs);
      } else {
        DedupFromAppend(xs[1..], ys, seen + {Key(c)});
        assert seen + {Key(c)} + KeySet(xs[1..]) == seen + KeySet(xs);
      }
    }
  }

  /** The keys of a non-empty list: its head's key and the keys of its tail. */
  lemma KeySetCons(xs: seq<Candidate>)
    requires xs != []
    ensures KeySet(xs) == {Key(xs[0])} + KeySet(xs[1..])
  {
    assert xs == [xs[0]] + xs[1..];
  }

  /** Elements whose keys were all seen already contribute nothing. */
  lemma {:induction false} DedupFromSeen(ys: seq<Candidate>, seen: set<string>)
    requires KeySet(ys) <= seen
    ensures DedupFrom(ys, seen) == []
    decreases |ys|
  {
    if ys != [] {
      assert Key(ys[0]) in KeySet(ys);
      assert KeySet(ys[1..]) <= KeySet(ys) by {
        forall c | c in ys[1..] ensures c in ys { }
      }
      DedupFromSeen(ys[1..], seen);
    }
  }

  /** A block whose keys all occur earlier in the list can be dropped before
      de-duplicating without changing the result. */
  lemma ShadowedBlockRemoved(xs: seq<Candidate>, ys: seq<Candidate>, zs: seq<Candidate>)
    requires KeySet(ys) <= KeySet(xs)
    ensures Dedup(xs + ys + zs) == Dedup(xs + zs)
  {
    ShadowedBlockRemovedFrom(xs, ys, zs);
  }

  lemma ShadowedBlockRemovedFrom(xs: seq<Candidate>, ys: seq<Candidate>, zs: seq<Candidate>)
    requires KeySet(ys) <= KeySet(xs)
    ensures DedupFrom(xs + ys + zs, {}) == DedupFrom(xs + zs, {})
  {
    var none: set<string> := {};
    var s1 := none + KeySet(xs);
    assert xs + ys + zs == xs + (ys + zs);
    DedupFromAppend(xs, ys + zs, none);
    DedupFromAppend(ys, zs, s1);
    DedupFromSeen(ys, s1);
    assert s1 + KeySet(ys) == s1;
    var tail := DedupFrom(ys + zs, s1);
    assert tail == DedupFrom(zs, s1);
    DedupFromAppend(xs, zs, none);
  }

  /** Nothing is kept exactly when there was nothing to keep. */
  lemma DedupEmptyIff(cs: seq<Candidate>)
    ensures Dedup(cs) == [] <==> cs == []
  {
  }
}
