/** What createDiff and applyDiff promise together: applying
    `createDiff(a, b)` to `b` gives back `a` (test/end-to-end.test.ts), and a
    chain of such diffs, applied newest first with applyDiffs, walks back to
    the oldest revision. */
module RoundTrip {
  import opened JsonValues
  import opened DiffTree
  import opened DiffBuilder
  import opened DiffApplier

  /** createDiff does not throw when the old value is a null-free container
      and the new value is not null. */
  lemma {:induction false} NullFreeDefined(before: Value, after: Value)
    requires IsContainer(before) && NullFree(before) && after != Null
    ensures DiffDefined(before, after)
    decreases before
  {
    var was, now := Entries(before), Entries(after);
    forall k | k in was && Descends(was[k], now, k) ensures DiffDefined(was[k], now[k]) {
      EntryBelow(before, k);
      NullFreeDefined(was[k], now[k]);
    }
  }

  /** A created diff can always be applied to the new value: a subtree is
      only recorded where the new value has a container to descend into. */
  lemma {:induction false} CreatedDiffApplies(before: Value, after: Value)
    requires DiffDefined(before, after)
    ensures ApplyDefined(after, DiffOf(before, after))
    decreases before
  {
    var d := DiffOf(before, after);
    forall k | k in d && d[k].Sub?
      ensures after != Null && ApplyDefined(Child(after, k), d[k].children)
    {
      DiffOfAt(before, after, k);
      EntryBelow(before, k);
      CreatedDiffApplies(Entries(before)[k], Entries(after)[k]);
    }
  }

  /** Applying a created diff to the new value leaves only keys of the old
      value: a key only the new value has is recorded as an added leaf, and
      applying that leaf deletes it. */
  lemma RestoredKeys(before: Value, after: Value)
    requires DiffDefined(before, after) && ApplyDefined(after, DiffOf(before, after))
    ensures Patched(after, DiffOf(before, after)).Keys <= Entries(before).Keys
  {
    var d := DiffOf(before, after);
    forall k | k in Patched(after, d) ensures k in Entries(before) {
      DiffOfAt(before, after, k);
      PatchedAt(after, d, k);
    }
  }

  /** The reversal round trip, comparing arrays and objects by their
      index-keyed entries: applying `createDiff(a, b)` to `b` rebuilds a
      value equivalent to `a`, provided `a` holds no null (a null old value
      is read back as a deletion, line 52) and its containers face
      containers, null or nothing in `b`. */
  lemma {:induction false} RoundTripEquiv(before: Value, after: Value)
    requires IsContainer(before) && NullFree(before) && after != Null && Aligned(before, after)
    ensures DiffDefined(before, after) && ApplyDefined(after, DiffOf(before, after))
    ensures Equiv(before, Applied(after, DiffOf(before, after)))
    decreases before, 1
  {
    NullFreeDefined(before, after);
    CreatedDiffApplies(before, after);
    var was, d := Entries(before), DiffOf(before, after);
    var p := Patched(after, d);
    forall k | k in was ensures k in p && Equiv(was[k], p[k]) {
      RoundTripEquivAt(before, after, k);
    }
    RestoredKeys(before, after);
  }

  /** RoundTripEquiv under one key of the old value. */
  lemma {:induction false} RoundTripEquivAt(before: Value, after: Value, k: string)
    requires IsContainer(before) && NullFree(before) && after != Null && Aligned(before, after)
    requires DiffDefined(before, after) && ApplyDefined(after, DiffOf(before, after))
    requires k in Entries(before)
    ensures var p := Patched(after, DiffOf(before, after)); k in p && Equiv(Entries(before)[k], p[k])
    decreases before, 0
  {
    var was, now, d := Entries(before), Entries(after), DiffOf(before, after);
    DiffOfAt(before, after, k);
    PatchedAt(after, d, k);
    if Descends(was[k], now, k) {
      EntryBelow(before, k);
      if |DiffOf(was[k], now[k])| > 0 {
        RoundTripEquiv(was[k], now[k]);
      } else {
        EmptyDiffEquiv(was[k], now[k]);
      }
    } else {
      EquivReflexive(was[k]);
    }
  }

  /** When both revisions also have the shape applyDiff rebuilds (no empty
      array, no object keyed `"0"`, ..., `"n-1"`), the round trip is exact. */
  lemma {:induction false} RoundTripExact(before: Value, after: Value)
    requires IsContainer(before) && NullFree(before) && after != Null && Aligned(before, after)
    requires Canonical(before) && Canonical(after)
    ensures DiffDefined(before, after) && ApplyDefined(after, DiffOf(before, after))
    ensures Applied(after, DiffOf(before, after)) == before
    decreases before, 1
  {
    NullFreeDefined(before, after);
    CreatedDiffApplies(before, after);
    var was, d := Entries(before), DiffOf(before, after);
    var p := Patched(after, d);
    forall k | k in was ensures k in p && p[k] == was[k] {
      RoundTripExactAt(before, after, k);
    }
    RestoredKeys(before, after);
    SameMap(p, was);
    ReconstituteOfEntries(before);
  }

  /** RoundTripExact under one key of the old value. */
  lemma {:induction false} RoundTripExactAt(before: Value, after: Value, k: string)
    requires IsContainer(before) && NullFree(before) && after != Null && Aligned(before, after)
    requires Canonical(before) && Canonical(after)
    requires DiffDefined(before, after) && ApplyDefined(after, DiffOf(before, after))
    requires k in Entries(before)
    ensures var p := Patched(after, DiffOf(before, after)); k in p && p[k] == Entries(before)[k]
    decreases before, 0
  {
    var was, now, d := Entries(before), Entries(after), DiffOf(before, after);
    DiffOfAt(before, after, k);
    PatchedAt(after, d, k);
    if Descends(was[k], now, k) {
      EntryBelow(before, k);
      if |DiffOf(was[k], now[k])| > 0 {
        RoundTripExact(was[k], now[k]);
      } else {
        EmptyDiffEquiv(was[k], now[k]);
        EquivCanonicalEqual(was[k], now[k]);
      }
    }
  }

  /** Successive revisions a diff can be taken between: null-free
      containers in the shape applyDiff rebuilds, each aligned with the
      next. */
  predicate Revisions(vs: seq<Value>)
    decreases |vs|
  {
    if vs == [] then true
    else
      var last := vs[|vs| - 1];
      && IsContainer(last) && NullFree(last) && Canonical(last)
      && (|vs| >= 2 ==> Aligned(vs[|vs| - 2], last))
      && Revisions(vs[..|vs| - 1])
  }

  /** The two newest revisions meet what RoundTripExact asks of a pair. */
  lemma NewestPair(vs: seq<Value>)
    requires |vs| >= 2 && Revisions(vs)
    ensures var before, after := vs[|vs| - 2], vs[|vs| - 1];
      && IsContainer(before) && NullFree(before) && Canonical(before)
      && IsContainer(after) && NullFree(after) && Canonical(after)
      && Aligned(before, after)
  {
    var init := vs[..|vs| - 1];
    assert init[|init| - 1] == vs[|vs| - 2];
  }

  /** The diffs between successive revisions, newest first:
      `[createDiff(v[n-2], v[n-1]), ..., createDiff(v[0], v[1])]`. */
  function ReverseDiffs(vs: seq<Value>): (ds: seq<map<string, Diff>>)
    requires Revisions(vs)
    ensures |ds| == if |vs| < 2 then 0 else |vs| - 1
    decreases |vs|
  {
    if |vs| < 2 then []
    else
      NewestPair(vs);
      NullFreeDefined(vs[|vs| - 2], vs[|vs| - 1]);
      [DiffOf(vs[|vs| - 2], vs[|vs| - 1])] + ReverseDiffs(vs[..|vs| - 1])
  }

  /** applyDiffs over the reverse diffs walks the newest revision back to the
      oldest (test/end-to-end.test.ts:48-51). */
  lemma {:induction false} ReverseChainRestores(vs: seq<Value>)
    requires |vs| > 0 && Revisions(vs)
    ensures FoldDefined(vs[|vs| - 1], ReverseDiffs(vs))
    ensures ApplyDiffs(vs[|vs| - 1], ReverseDiffs(vs)) == vs[0]
    decreases |vs|
  {
    if |vs| >= 2 {
      var n := |vs|;
      var init := vs[..n - 1];
      assert init[|init| - 1] == vs[n - 2] && init[0] == vs[0];
      RoundTripExact(vs[n - 2], vs[n - 1]);
      ReverseChainRestores(init);
      var d, rest := DiffOf(vs[n - 2], vs[n - 1]), ReverseDiffs(init);
      assert ReverseDiffs(vs) == [d] + rest;
      ApplyDiffsCons(vs[n - 1], d, rest);
    }
  }
}
