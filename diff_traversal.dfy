/** diffIterator (src/index.ts:91-110): a depth-first walk over a diff that
    yields one record per leaf, carrying the chain of keys from the root. */
module DiffTraversal {
  import opened JsonValues
  import opened DiffTree

  /** One yielded record: the path to the changed key (ending in the key),
      the key, and the leaf's old and new values. */
  datatype Change = Change(path: seq<string>, key: string, oldValue: Value, newValue: Value)

  /** The records the walk yields below `path` for key `k` of `diff`: one
      record for a leaf, the records of the recursive walk for a subtree. */
  function KeyYields(diff: map<string, Diff>, path: seq<string>, k: string): set<Change>
    requires k in diff
    decreases Sub(diff), 0
  {
    match diff[k]
    case Leaf(oldValue, newValue) => {Change(path + [k], k, oldValue, newValue)}
    case Sub(children) => Yields(children, path + [k])
  }

  /** The records the walk over the keys in `s` yields. */
  function PartYields(diff: map<string, Diff>, path: seq<string>, s: set<string>): set<Change>
    decreases Sub(diff), 1
  {
    set k, c | k in diff && k in s && c in KeyYields(diff, path, k) :: c
  }

  /** Every record the walk over `diff` yields below `path`. */
  function Yields(diff: map<string, Diff>, path: seq<string>): set<Change>
    decreases Sub(diff), 2
  {
    PartYields(diff, path, diff.Keys)
  }

  /** Every record stands for a leaf: its path extends `path` by the keys
      leading from the root of `diff` to a leaf holding the record's values,
      and its key is the last key of its path. Subtrees yield nothing of
      their own. */
  lemma {:induction false} YieldsSound(diff: map<string, Diff>, path: seq<string>, c: Change)
    requires c in Yields(diff, path)
    ensures |c.path| > |path| && c.path[..|path|] == path
    ensures c.key == c.path[|c.path| - 1]
    ensures NodeAt(diff, c.path[|path|..]) == Some(Leaf(c.oldValue, c.newValue))
    decreases Sub(diff)
  {
    var k :| k in diff && c in KeyYields(diff, path, k);
    match diff[k]
    case Leaf(_, _) =>
    case Sub(children) =>
      YieldsSound(children, path + [k], c);
      var rel := c.path[|path|..];
      assert c.path[..|path| + 1] == path + [k];
      assert rel[1..] == c.path[|path + [k]|..];
  }

  /** Every leaf reachable from the root is yielded, with its path. */
  lemma {:induction false} YieldsComplete(diff: map<string, Diff>, path: seq<string>, rel: seq<string>)
    requires NodeAt(diff, rel).Some? && NodeAt(diff, rel).value.Leaf?
    ensures |rel| > 0
    ensures var leaf := NodeAt(diff, rel).value;
      Change(path + rel, rel[|rel| - 1], leaf.oldValue, leaf.newValue) in Yields(diff, path)
    decreases |rel|
  {
    var k := rel[0];
    var leaf := NodeAt(diff, rel).value;
    var c := Change(path + rel, rel[|rel| - 1], leaf.oldValue, leaf.newValue);
    if |rel| > 1 {
      var children := diff[k].children;
      YieldsComplete(children, path + [k], rel[1..]);
      assert path + [k] + rel[1..] == path + rel;
    } else {
      assert path + rel == path + [k];
    }
    assert c in KeyYields(diff, path, k);
  }

  /** Visiting one more key adds that key's records. */
  lemma PartYieldsVisit(diff: map<string, Diff>, path: seq<string>, all: set<string>, pending: set<string>, key: string)
    requires key in pending && key in diff
    ensures PartYields(diff, path, all - (pending - {key})) ==
      PartYields(diff, path, all - pending) + (if key in all then KeyYields(diff, path, key) else {})
  {
  }

  /** diffIterator itself: a `for..in` loop over the diff whose body is
      YieldKey. The records come out as a sequence, with no two for the same
      path. */
  method DiffIterator(diff: map<string, Diff>, path: seq<string>) returns (changes: seq<Change>)
    ensures (set c | c in changes) == Yields(diff, path)
    ensures forall i :: 0 <= i < |changes| ==> |changes[i].path| > |path| && changes[i].path[..|path|] == path
    ensures forall i, j :: 0 <= i < j < |changes| ==> changes[i].path != changes[j].path
    decreases Sub(diff), 1
  {
    changes := [];
    var pending := diff.Keys;
    while pending != {}
      invariant pending <= diff.Keys
      invariant (set c | c in changes) == PartYields(diff, path, diff.Keys - pending)
      invariant forall i :: 0 <= i < |changes| ==>
        |changes[i].path| > |path| && changes[i].path[..|path|] == path && changes[i].path[|path|] !in pending
      invariant forall i, j :: 0 <= i < j < |changes| ==> changes[i].path != changes[j].path
      decreases pending
    {
      var key :| key in pending;
      PartYieldsVisit(diff, path, diff.Keys, pending, key);
      var found := YieldKey(diff, path, key);
      changes := changes + found;
      pending := pending - {key};
    }
  }

  /** One pass of the loop (lines 93-108): a leaf yields its record, a
      subtree everything the recursive walk below `path + [key]` yields. */
  method YieldKey(diff: map<string, Diff>, path: seq<string>, key: string) returns (found: seq<Change>)
    requires key in diff
    ensures (set c | c in found) == KeyYields(diff, path, key)
    ensures forall i :: 0 <= i < |found| ==>
      |found[i].path| > |path| && found[i].path[..|path|] == path && found[i].path[|path|] == key
    ensures forall i, j :: 0 <= i < j < |found| ==> found[i].path != found[j].path
    decreases Sub(diff), 0
  {
    var currentPath := path + [key];
    match diff[key] {
      case Sub(children) =>
        found := DiffIterator(children, currentPath);
        assert forall i :: 0 <= i < |found| ==> found[i].path[..|path| + 1] == currentPath;
      case Leaf(oldValue, newValue) =>
        found := [Change(currentPath, key, oldValue, newValue)];
    }
  }
}
