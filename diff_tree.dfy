/** The diff tree that the builder produces and the applier and the
    traversal consume. A node is either a leaf recording one key's old and new
    value, or a subtree of further nodes keyed by the nested container's keys.
    The root of a diff is the map of its top-level nodes. */
module DiffTree {
  import opened JsonValues

  datatype Option<+T> = None | Some(value: T)

  datatype Diff =
    | Leaf(oldValue: Value, newValue: Value)
    | Sub(children: map<string, Diff>)

  /** Every subtree reachable from the root is non-empty. */
  predicate NoEmptySubtrees(tree: map<string, Diff>)
    decreases Sub(tree)
  {
    forall k :: k in tree && tree[k].Sub? ==>
      |tree[k].children| > 0 && NoEmptySubtrees(tree[k].children)
  }

  /** The node reached from the root by following the keys of `path`, if any. */
  function NodeAt(tree: map<string, Diff>, path: seq<string>): Option<Diff>
    decreases |path|
  {
    if path == [] || path[0] !in tree then None
    else if |path| == 1 then Some(tree[path[0]])
    else match tree[path[0]]
      case Leaf(_, _) => None
      case Sub(children) => NodeAt(children, path[1..])
  }
}
