/** createDiff (src/index.ts:10-36): compares an old and a new value key by
    key and records what changed. */
module DiffBuilder {
  import opened JsonValues
  import opened DiffTree

  /** The test at line 16: the old value is of type 'object' (null included)
      and the new value under the same key is present and not null. */
  predicate Descends(ov: Value, now: map<string, Value>, k: string) {
    IsObjectType(ov) && k in now && now[k] != Null
  }

  /** The `JSON.stringify` comparison at line 22 finds the key unchanged. It
      is only reached when the old value is a scalar or the new one is absent
      or null, so comparing serialisations is comparing values. */
  predicate SameJson(ov: Value, now: map<string, Value>, k: string) {
    k in now && now[k] == ov
  }

  /** The inputs on which createDiff does not throw. `key in oldObj` (line 32)
      throws a TypeError when `oldObj` is not an object or array and `newObj`
      has a key to ask about; this happens in particular for an old `null`
      facing a new non-empty container under the same key. Reading
      `newObj[key]` (lines 16 and 22) throws when `newObj` is null or
      undefined and `oldObj` has a key; the recursion never passes such a
      `newObj`, only the outermost call can. */
  predicate DiffDefined(before: Value, after: Value)
    decreases before
  {
    var was, now := Entries(before), Entries(after);
    && (IsContainer(before) || now == map[])
    && (after != Null || was == map[])
    && forall k :: k in was && Descends(was[k], now, k) ==> DiffDefined(was[k], now[k])
  }

  /** What the first loop (lines 14-28) records for a key of the old value. */
  function KeyChange(before: Value, after: Value, k: string): Option<Diff>
    requires DiffDefined(before, after) && k in Entries(before)
    decreases before, 0
  {
    var was, now := Entries(before), Entries(after);
    if Descends(was[k], now, k) then
      var sub := DiffOf(was[k], now[k]);
      if |sub| > 0 then Some(Sub(sub)) else None
    else if SameJson(was[k], now, k) then None
    else Some(Leaf(was[k], if k in now then now[k] else Null))
  }

  /** The diff createDiff returns: what the first loop records for the old
      keys, and a leaf `{oldValue: null, newValue}` for every key only the
      new value has (lines 31-33). */
  function DiffOf(before: Value, after: Value): map<string, Diff>
    requires DiffDefined(before, after)
    decreases before, 1
  {
    var was, now := Entries(before), Entries(after);
    map k | k in was.Keys + now.Keys && (k in was ==> KeyChange(before, after, k).Some?) ::
      if k in was then KeyChange(before, after, k).value else Leaf(Null, now[k])
  }

  /** What DiffOf records under any key: for a key of the old value, what
      the first loop records; for a key only the new value has, an added
      leaf; for any other key, nothing. */
  lemma DiffOfAt(before: Value, after: Value, k: string)
    requires DiffDefined(before, after)
    ensures var d := DiffOf(before, after);
      if k in Entries(before) then
        && (k in d <==> KeyChange(before, after, k).Some?)
        && (k in d ==> d[k] == KeyChange(before, after, k).value)
      else if k in Entries(after) then k in d && d[k] == Leaf(Null, Entries(after)[k])
      else k !in d
  {
  }

  /** Every recorded key is a key of the old or of the new value. */
  lemma DiffOfKeys(before: Value, after: Value)
    requires DiffDefined(before, after)
    ensures DiffOf(before, after).Keys <= Entries(before).Keys + Entries(after).Keys
  {
  }

  /** The recursion never stores an empty sub-diff: every subtree of a
      created diff is non-empty (lines 18-19). */
  lemma {:induction false} DiffOfNoEmptySubtrees(before: Value, after: Value)
    requires DiffDefined(before, after)
    ensures NoEmptySubtrees(DiffOf(before, after))
    decreases before
  {
    var was, now, d := Entries(before), Entries(after), DiffOf(before, after);
    forall k | k in d && d[k].Sub?
      ensures |d[k].children| > 0 && NoEmptySubtrees(d[k].children)
    {
      DiffOfAt(before, after, k);
      EntryBelow(before, k);
      DiffOfNoEmptySubtrees(was[k], now[k]);
    }
  }

  /** Comparing a value with an equivalent one never throws and finds
      nothing to record; in particular `createDiff(x, x)` is empty. (A
      non-empty string on the old side throws at line 32 instead.) */
  lemma {:induction false} EquivNotRecorded(before: Value, after: Value)
    requires Equiv(before, after) && KeyedAsEnumerated(before)
    ensures DiffDefined(before, after) && DiffOf(before, after) == map[]
    decreases before
  {
    var was, now := Entries(before), Entries(after);
    forall k | k in was && Descends(was[k], now, k)
      ensures DiffDefined(was[k], now[k]) && DiffOf(was[k], now[k]) == map[]
    {
      EntryBelow(before, k);
      EquivNotRecorded(was[k], now[k]);
    }
    assert DiffDefined(before, after);
    forall k ensures k !in DiffOf(before, after) {
      DiffOfAt(before, after, k);
    }
  }

  lemma DiffOfSelf(x: Value)
    requires KeyedAsEnumerated(x)
    ensures DiffDefined(x, x) && DiffOf(x, x) == map[]
  {
    EquivReflexive(x);
    EquivNotRecorded(x, x);
  }

  /** A key whose value is the same on both sides is never recorded. */
  lemma UnchangedNotRecorded(before: Value, after: Value, k: string)
    requires DiffDefined(before, after)
    requires k in Entries(before) && k in Entries(after) && Entries(before)[k] == Entries(after)[k]
    ensures k !in DiffOf(before, after)
  {
    DiffOfAt(before, after, k);
    if IsObjectType(Entries(before)[k]) {
      DiffOfSelf(Entries(before)[k]);
    }
  }

  /** Wherever the old value holds a container, the new value holds a
      container too, or null, or nothing, at every depth. */
  predicate Aligned(before: Value, after: Value)
    decreases before
  {
    var was, now := Entries(before), Entries(after);
    forall k :: k in was && IsContainer(was[k]) && k in now && now[k] != Null ==>
      IsContainer(now[k]) && Aligned(was[k], now[k])
  }

  /** Conversely, when the old value holds no null and its containers face
      containers, an empty diff means the two containers hold equivalent
      entries. */
  lemma {:induction false} EmptyDiffEquiv(before: Value, after: Value)
    requires DiffDefined(before, after) && NullFree(before) && Aligned(before, after)
    requires IsContainer(before) && IsContainer(after)
    requires DiffOf(before, after) == map[]
    ensures Equiv(before, after)
    decreases before
  {
    var was, now := Entries(before), Entries(after);
    forall k | k in was
      ensures k in now && Equiv(was[k], now[k])
    {
      DiffOfAt(before, after, k);
      if IsContainer(was[k]) && k in now && IsContainer(now[k]) {
        EntryBelow(before, k);
        EmptyDiffEquiv(was[k], now[k]);
      } else {
        EquivReflexive(was[k]);
      }
    }
    forall k | k in now ensures k in was {
      DiffOfAt(before, after, k);
    }
  }

  /** An empty container replaced by a scalar other than a non-empty string
      is descended into as well; the recursive call finds no key on either
      side and the change is dropped. This is why EmptyDiffEquiv needs
      Aligned. */
  lemma EmptyToScalarNotRecorded(before: Value, after: Value, k: string)
    requires DiffDefined(before, after)
    requires k in Entries(before) && IsContainer(Entries(before)[k]) && Entries(Entries(before)[k]) == map[]
    requires k in Entries(after) && !IsContainer(Entries(after)[k]) && Entries(after)[k] != Null
    requires KeyedAsEnumerated(Entries(after)[k])
    ensures k !in DiffOf(before, after)
  {
    DiffOfAt(before, after, k);
    var ov, nv := Entries(before)[k], Entries(after)[k];
    assert DiffOf(ov, nv) == map[] by {
      forall j ensures j !in DiffOf(ov, nv) {
        DiffOfKeys(ov, nv);
      }
    }
  }

  /** Because `typeof null === 'object'`, an old null facing a new scalar
      other than a non-empty string is descended into (line 16); the
      recursive call iterates over nothing and the key is silently dropped,
      although the value changed. */
  lemma NullToScalarNotRecorded(before: Value, after: Value, k: string)
    requires DiffDefined(before, after)
    requires k in Entries(before) && Entries(before)[k] == Null
    requires k in Entries(after) && !IsContainer(Entries(after)[k]) && Entries(after)[k] != Null
    requires KeyedAsEnumerated(Entries(after)[k])
    ensures k !in DiffOf(before, after)
  {
    DiffOfAt(before, after, k);
    assert DiffOf(Null, Entries(after)[k]) == map[] by {
      forall j ensures j !in DiffOf(Null, Entries(after)[k]) {
        DiffOfKeys(Null, Entries(after)[k]);
      }
    }
  }

  /** The part of `m` whose keys lie in `s`. */
  function Restrict(m: map<string, Diff>, s: set<string>): (r: map<string, Diff>)
    ensures forall k :: k in r <==> k in m && k in s
    ensures forall k :: k in r ==> r[k] == m[k]
  {
    map k | k in m && k in s :: m[k]
  }

  /** Visiting one more pending key extends the restriction by that key. */
  lemma RestrictVisit(m: map<string, Diff>, done: set<string>, all: set<string>, pending: set<string>, key: string)
    requires key in pending
    ensures var r, r' := Restrict(m, done + (all - pending)), Restrict(m, done + (all - (pending - {key})));
      r' == if key in m && key in all then r[key := m[key]] else r
  {
  }

  lemma RestrictAll(m: map<string, Diff>, s: set<string>)
    requires m.Keys <= s
    ensures Restrict(m, s) == m
  {
  }

  /** createDiff itself: a `for..in` loop over the old keys that fills a
      local dictionary, followed by the loop over the new keys (AddNewKeys).
      The body of the first loop is RecordOldKey. */
  method CreateDiff(before: Value, after: Value) returns (diff: map<string, Diff>)
    requires DiffDefined(before, after)
    ensures diff == DiffOf(before, after)
    decreases before, 2
  {
    var was := Entries(before);
    ghost var target := DiffOf(before, after);
    diff := map[];
    var pending := was.Keys;
    while pending != {}
      invariant pending <= was.Keys
      invariant diff == Restrict(target, {} + (was.Keys - pending))
      decreases pending
    {
      var key :| key in pending;
      RestrictVisit(target, {}, was.Keys, pending, key);
      diff := RecordOldKey(before, after, key, diff);
      pending := pending - {key};
    }
    assert {} + (was.Keys - pending) == was.Keys;
    diff := AddNewKeys(before, after, diff);
  }

  /** The second loop (lines 31-33): every key only the new value has is
      recorded as an added leaf `{oldValue: null, newValue}`. */
  method AddNewKeys(before: Value, after: Value, diff: map<string, Diff>) returns (diff': map<string, Diff>)
    requires DiffDefined(before, after)
    requires diff == Restrict(DiffOf(before, after), Entries(before).Keys)
    ensures diff' == DiffOf(before, after)
  {
    var was, now := Entries(before), Entries(after);
    ghost var target := DiffOf(before, after);
    diff' := diff;
    var pending := now.Keys;
    assert was.Keys + (now.Keys - pending) == was.Keys;
    while pending != {}
      invariant pending <= now.Keys
      invariant diff' == Restrict(target, was.Keys + (now.Keys - pending))
      decreases pending
    {
      var key :| key in pending;
      if key !in was {
        DiffOfAt(before, after, key);
        RestrictVisit(target, was.Keys, now.Keys, pending, key);
        diff' := diff'[key := Leaf(Null, now[key])];
      } else {
        assert was.Keys + (now.Keys - (pending - {key})) == was.Keys + (now.Keys - pending);
      }
      pending := pending - {key};
    }
    DiffOfKeys(before, after);
    RestrictAll(target, was.Keys + (now.Keys - pending));
  }

  /** One pass of the first loop (lines 15-27): descend into a nested
      container and keep a non-empty sub-diff, or record a leaf when the
      serialisations differ. */
  method RecordOldKey(before: Value, after: Value, key: string, diff: map<string, Diff>) returns (diff': map<string, Diff>)
    requires DiffDefined(before, after) && key in Entries(before)
    ensures var d := DiffOf(before, after); diff' == if key in d then diff[key := d[key]] else diff
    decreases before, 0
  {
    var was, now := Entries(before), Entries(after);
    DiffOfAt(before, after, key);
    diff' := diff;
    if IsObjectType(was[key]) && key in now && now[key] != Null {
      EntryBelow(before, key);
      var subDiff := CreateDiff(was[key], now[key]);
      if |subDiff| > 0 {
        diff' := diff'[key := Sub(subDiff)];
      }
    } else if !SameJson(was[key], now, key) {
      diff' := diff'[key := Leaf(was[key], if key in now then now[key] else Null)];
    }
  }
}
