/** applyDiff (src/index.ts:44-67), isArrayLike (113-116) and applyDiffs
    (75-77): patch a copy of a value with a diff, writing back the recorded
    old values, and rebuild an array when the patched keys are `"0"`, ...,
    `"n-1"`. */
module DiffApplier {
  import opened JsonValues
  import opened DiffTree

  /** `isArrayLike` (lines 113-116): the object has at least one key and,
      listed in enumeration order, its i-th key is `i.toString()`. Integer
      keys are enumerated first and in ascending order, so this says that
      `"0"`, ..., `"n-1"` are all keys of an object with n keys. */
  predicate IsArrayLike(m: map<string, Value>) {
    |m| > 0 && forall i :: 0 <= i < |m| ==> IndexKey(i) in m
  }

  /** An object is array-like exactly when its keys are `"0"`, ..., `"n-1"`
      for some n >= 1. */
  lemma ArrayLikeKeys(m: map<string, Value>)
    ensures IsArrayLike(m) <==> |m| > 0 && m.Keys == IndexKeys(|m|)
  {
    if IsArrayLike(m) {
      IndexKeysCount(|m|);
      SubsetCard(IndexKeys(|m|), m.Keys);
    }
  }

  /** Lines 62-66: `Object.values(result)` when the result is array-like,
      the result object itself otherwise. Rebuilding loses nothing: the keys
      and values seen through the rebuilt value are the patched ones, since
      `Object.values` keeps element i under key `"i"`. */
  function Reconstitute(m: map<string, Value>): (r: Value)
    ensures r.Arr? <==> IsArrayLike(m)
    ensures r.Obj? <==> !IsArrayLike(m)
    ensures Entries(r) == m
  {
    if IsArrayLike(m) then
      var s := seq(|m|, i requires 0 <= i < |m| => m[IndexKey(i)]);
      ArrayLikeKeys(m);
      IndexMapOf(s, m);
      Arr(s)
    else Obj(m)
  }

  /** The shape applyDiff rebuilds at every depth: no empty array, and no
      object whose keys are `"0"`, ..., `"n-1"`. */
  predicate Canonical(v: Value)
    decreases v
  {
    && (v.Obj? ==> !IsArrayLike(v.fields))
    && (v.Arr? ==> |v.items| > 0)
    && forall k :: k in Entries(v) ==> Canonical(Entries(v)[k])
  }

  /** A container in the shape applyDiff rebuilds is rebuilt exactly from
      its entries. */
  lemma ReconstituteOfEntries(v: Value)
    requires IsContainer(v) && Canonical(v)
    ensures Reconstitute(Entries(v)) == v
  {
    if v.Arr? {
      var s := v.items;
      IndexMapKeys(s);
      IndexKeysCount(|s|);
      forall i | 0 <= i < |s| ensures IndexKey(i) in Entries(v) && Entries(v)[IndexKey(i)] == s[i] {
        IndexMapAt(s, i);
      }
    }
  }

  /** Equivalent values in that shape are equal: the shape fixes whether a
      container with index keys is an array or an object. */
  lemma {:induction false} EquivCanonicalEqual(x: Value, y: Value)
    requires Equiv(x, y) && Canonical(x) && Canonical(y)
    ensures x == y
    decreases x
  {
    if IsContainer(x) && IsContainer(y) {
      var ex, ey := Entries(x), Entries(y);
      forall k | k in ex ensures ex[k] == ey[k] {
        EntryBelow(x, k);
        EquivCanonicalEqual(ex[k], ey[k]);
      }
      assert ex == ey;
      ReconstituteOfEntries(x);
      ReconstituteOfEntries(y);
    }
  }

  /** `sourceObject[key]`, with an absent key read as null (both spread to
      `{}` and both throw when indexed). */
  function Child(v: Value, k: string): Value {
    if k in Entries(v) then Entries(v)[k] else Null
  }

  /** The inputs on which applyDiff does not throw: `sourceObject[key]`
      (line 50) throws a TypeError when a subtree is applied to a null or
      absent source that is itself indexed again. */
  predicate ApplyDefined(source: Value, diff: map<string, Diff>)
    decreases Sub(diff)
  {
    forall k :: k in diff && diff[k].Sub? ==>
      source != Null && ApplyDefined(Child(source, k), diff[k].children)
  }

  /** What the loop (lines 47-59) leaves under a key of the diff: the
      recursively patched child for a subtree, nothing for a leaf whose old
      value is null, the old value for any other leaf. */
  function KeyResult(source: Value, diff: map<string, Diff>, k: string): Option<Value>
    requires ApplyDefined(source, diff) && k in diff
    decreases Sub(diff), 0
  {
    match diff[k]
    case Sub(children) => Some(Applied(Child(source, k), children))
    case Leaf(oldValue, _) => if oldValue == Null then None else Some(oldValue)
  }

  /** The `result` dictionary after the loop: the spread copy of the source
      (line 45) with every key of the diff written or deleted. */
  function Patched(source: Value, diff: map<string, Diff>): map<string, Value>
    requires ApplyDefined(source, diff)
    decreases Sub(diff), 1
  {
    var base := Entries(source);
    map k | k in base.Keys + diff.Keys && (k in diff ==> KeyResult(source, diff, k).Some?) ::
      if k in diff then KeyResult(source, diff, k).value else base[k]
  }

  /** What applyDiff returns. */
  function Applied(source: Value, diff: map<string, Diff>): Value
    requires ApplyDefined(source, diff)
    decreases Sub(diff), 2
  {
    Reconstitute(Patched(source, diff))
  }

  /** What Patched holds under any key. */
  lemma PatchedAt(source: Value, diff: map<string, Diff>, k: string)
    requires ApplyDefined(source, diff)
    ensures var p := Patched(source, diff);
      if k in diff then
        && (k in p <==> KeyResult(source, diff, k).Some?)
        && (k in p ==> p[k] == KeyResult(source, diff, k).value)
      else
        && (k in p <==> k in Entries(source))
        && (k in p ==> p[k] == Entries(source)[k])
  {
  }

  /** The effect of applyDiff, key by key: a leaf writes back its old value
      or deletes the key when that is null (lines 52-56), a subtree replaces
      the key by the child patched recursively (line 50), and every key the
      diff does not mention keeps the source's value (line 45). */
  lemma AppliedAt(source: Value, diff: map<string, Diff>, k: string)
    requires ApplyDefined(source, diff)
    ensures var r := Entries(Applied(source, diff));
      && (k in diff && diff[k].Leaf? && diff[k].oldValue == Null ==> k !in r)
      && (k in diff && diff[k].Leaf? && diff[k].oldValue != Null ==> k in r && r[k] == diff[k].oldValue)
      && (k in diff && diff[k].Sub? ==> k in r && r[k] == Applied(Child(source, k), diff[k].children))
      && (k !in diff ==> (k in r <==> k in Entries(source)) && (k in r ==> r[k] == Entries(source)[k]))
  {
    PatchedAt(source, diff, k);
  }

  /** An empty diff gives back the source's contents (the spread copy). */
  lemma AppliedEmpty(source: Value)
    ensures ApplyDefined(source, map[]) && Entries(Applied(source, map[])) == Entries(source)
  {
    forall k ensures (k in Patched(source, map[]) <==> k in Entries(source)) {
      PatchedAt(source, map[], k);
    }
  }

  /** `base` with the keys in `s` taken from `upd` instead: bound as in
      `upd` when `upd` has them, removed otherwise. */
  function Overlay(base: map<string, Value>, upd: map<string, Value>, s: set<string>): (r: map<string, Value>)
    ensures forall k :: k in r <==> if k in s then k in upd else k in base
    ensures forall k :: k in r ==> r[k] == if k in s then upd[k] else base[k]
  {
    map k | k in base.Keys + upd.Keys && (if k in s then k in upd else k in base) :: if k in s then upd[k] else base[k]
  }

  /** Taking one more pending key from `upd`. */
  lemma OverlayVisit(base: map<string, Value>, upd: map<string, Value>, all: set<string>, pending: set<string>, key: string)
    requires key in pending && pending <= all
    ensures var r, r' := Overlay(base, upd, all - pending), Overlay(base, upd, all - (pending - {key}));
      r' == if key in upd then r[key := upd[key]] else r - {key}
  {
  }

  /** Once every key where `base` and `upd` may differ is taken from
      `upd`, the overlay is `upd`. */
  lemma OverlayAll(base: map<string, Value>, upd: map<string, Value>, s: set<string>)
    requires forall k :: k !in s ==> (k in base <==> k in upd) && (k in base ==> base[k] == upd[k])
    ensures Overlay(base, upd, s) == upd
  {
  }

  /** applyDiff itself: a `for..in` loop over the diff that patches a copy of
      the source, then the array check. The loop body is ApplyKey. */
  method ApplyDiff(source: Value, diff: map<string, Diff>) returns (r: Value)
    requires ApplyDefined(source, diff)
    ensures r == Applied(source, diff)
    decreases Sub(diff), 1
  {
    var result := Entries(source);
    ghost var target := Patched(source, diff);
    var pending := diff.Keys;
    while pending != {}
      invariant pending <= diff.Keys
      invariant result == Overlay(Entries(source), target, diff.Keys - pending)
      decreases pending
    {
      var key :| key in pending;
      OverlayVisit(Entries(source), target, diff.Keys, pending, key);
      result := ApplyKey(source, diff, key, result);
      pending := pending - {key};
    }
    forall k | k !in diff.Keys - pending
      ensures (k in Entries(source) <==> k in target) && (k in Entries(source) ==> Entries(source)[k] == target[k])
    {
      PatchedAt(source, diff, k);
    }
    OverlayAll(Entries(source), target, diff.Keys - pending);
    r := Reconstitute(result);
  }

  /** One pass of the loop (lines 48-58). */
  method ApplyKey(source: Value, diff: map<string, Diff>, key: string, result: map<string, Value>) returns (result': map<string, Value>)
    requires ApplyDefined(source, diff) && key in diff
    ensures var p := Patched(source, diff); result' == if key in p then result[key := p[key]] else result - {key}
    decreases Sub(diff), 0
  {
    PatchedAt(source, diff, key);
    match diff[key]
    case Sub(children) =>
      var patched := ApplyDiff(Child(source, key), children);
      result' := result[key := patched];
    case Leaf(oldValue, _) =>
      if oldValue == Null {
        result' := result - {key};
      } else {
        result' := result[key := oldValue];
      }
  }

  /** The inputs on which applyDiffs does not throw: no step does. */
  predicate FoldDefined(source: Value, diffs: seq<map<string, Diff>>)
    decreases |diffs|
  {
    diffs == [] || (ApplyDefined(source, diffs[0]) && FoldDefined(Applied(source, diffs[0]), diffs[1..]))
  }

  /** applyDiffs (line 76): `reduce` folds applyDiff over the diffs from the
      first to the last, starting from the source. */
  function ApplyDiffs(source: Value, diffs: seq<map<string, Diff>>): (r: Value)
    requires FoldDefined(source, diffs)
    ensures diffs == [] ==> r == source
    ensures |diffs| == 1 ==> r == Applied(source, diffs[0])
    decreases |diffs|
  {
    if diffs == [] then source else ApplyDiffs(Applied(source, diffs[0]), diffs[1..])
  }

  /** Applying `[d] + ds` is applying `d` and then `ds`
      (test/cascade.test.ts:56-62). */
  lemma ApplyDiffsCons(source: Value, d: map<string, Diff>, ds: seq<map<string, Diff>>)
    ensures FoldDefined(source, [d] + ds) <==> ApplyDefined(source, d) && FoldDefined(Applied(source, d), ds)
    ensures FoldDefined(source, [d] + ds) ==> ApplyDiffs(source, [d] + ds) == ApplyDiffs(Applied(source, d), ds)
  {
    assert ([d] + ds)[0] == d && ([d] + ds)[1..] == ds;
  }

  /** Applying a concatenation is applying one part after the other, and
      it throws exactly when one of the parts does. */
  lemma {:induction false} ApplyDiffsAppend(source: Value, a: seq<map<string, Diff>>, b: seq<map<string, Diff>>)
    ensures FoldDefined(source, a + b) <==> FoldDefined(source, a) && FoldDefined(ApplyDiffs(source, a), b)
    ensures FoldDefined(source, a + b) ==> ApplyDiffs(source, a + b) == ApplyDiffs(ApplyDiffs(source, a), b)
    decreases |a|
  {
    if a == [] {
      assert a + b == b;
    } else {
      assert (a + b)[0] == a[0];
      assert (a + b)[1..] == a[1..] + b;
      if ApplyDefined(source, a[0]) {
        ApplyDiffsAppend(Applied(source, a[0]), a[1..], b);
      }
    }
  }
}
