/** The diff as it exists at run time, and applyDiff's test at line 49 that
    tells a leaf from a subtree by the presence of an own `oldValue` key. A
    sub-diff of an object that itself has a key named `oldValue` fails that
    test. */
module WireFormat {
  import opened JsonValues
  import opened DiffTree
  import opened DiffBuilder
  import opened DiffApplier
  import opened RoundTrip

  /** A diff node as createDiff builds it: a leaf is the object
      `{oldValue, newValue}` (lines 23-26, 33), a subtree the sub-diff object
      itself (line 19). */
  function EncodeNode(node: Diff): (r: Value)
    ensures r.Obj?
    ensures node.Leaf? ==> "oldValue" in r.fields
    decreases node, 1
  {
    match node
    case Leaf(oldValue, newValue) => Obj(map["oldValue" := oldValue, "newValue" := newValue])
    case Sub(children) => Obj(Encode(children))
  }

  function Encode(diff: map<string, Diff>): (r: map<string, Value>)
    ensures r.Keys == diff.Keys
    decreases Sub(diff), 0
  {
    map k | k in diff :: EncodeNode(diff[k])
  }

  /** Line 49 as written: a node is a subtree when it is an object (not
      null, not an array) without an own `oldValue` key. */
  predicate IsSubtreeAsWritten(node: Value) {
    node.Obj? && "oldValue" !in node.fields
  }

  /** The encoded diffs applyDiff is modelled on here: every node is an
      object, and no subtree is applied to a null or absent source. */
  predicate WireDefined(source: Value, diff: map<string, Value>)
    decreases Obj(diff)
  {
    forall k :: k in diff ==>
      && diff[k].Obj?
      && (IsSubtreeAsWritten(diff[k]) ==> source != Null && WireDefined(Child(source, k), diff[k].fields))
  }

  /** The patched copy of the source, on the run-time form, as written. */
  function WirePatched(source: Value, diff: map<string, Value>): map<string, Value>
    requires WireDefined(source, diff)
    decreases Obj(diff), 1
  {
    var base := Entries(source);
    map k | k in base.Keys + diff.Keys && (k in diff ==> WireResult(source, diff, k).Some?) ::
      if k in diff then WireResult(source, diff, k).value else base[k]
  }

  /** applyDiff on the run-time form, as written. */
  function ApplyWire(source: Value, diff: map<string, Value>): Value
    requires WireDefined(source, diff)
    decreases Obj(diff), 2
  {
    Reconstitute(WirePatched(source, diff))
  }

  function WireResult(source: Value, diff: map<string, Value>, k: string): Option<Value>
    requires WireDefined(source, diff) && k in diff
    decreases Obj(diff), 0
  {
    var node := diff[k];
    if IsSubtreeAsWritten(node) then Some(ApplyWire(Child(source, k), node.fields))
    else if node.fields["oldValue"] == Null then None
    else Some(node.fields["oldValue"])
  }

  /** applyDiff on the run-time form, key by key: a node that is an object
      without an own `oldValue` key is applied recursively to the child
      (line 50); any other node is read as a leaf, deleting the key when its
      `oldValue` is null (line 53) and writing that `oldValue` otherwise
      (line 56); every key the diff does not mention keeps the source's
      value (line 45). */
  lemma WireAppliedAt(source: Value, diff: map<string, Value>, k: string)
    requires WireDefined(source, diff)
    ensures var r := Entries(ApplyWire(source, diff));
      && (k in diff && IsSubtreeAsWritten(diff[k]) ==>
            k in r && r[k] == ApplyWire(Child(source, k), diff[k].fields))
      && (k in diff && !IsSubtreeAsWritten(diff[k]) ==>
            "oldValue" in diff[k].fields
            && (diff[k].fields["oldValue"] == Null ==> k !in r)
            && (diff[k].fields["oldValue"] != Null ==> k in r && r[k] == diff[k].fields["oldValue"]))
      && (k !in diff ==> (k in r <==> k in Entries(source)) && (k in r ==> r[k] == Entries(source)[k]))
  {
    var p := WirePatched(source, diff);
    assert Entries(ApplyWire(source, diff)) == p;
    if k in diff {
      assert k in p <==> WireResult(source, diff, k).Some?;
      assert k in p ==> p[k] == WireResult(source, diff, k).value;
    } else {
      assert k in p <==> k in Entries(source);
    }
  }

  /** The revisions `{x: {oldValue: 1}}` and `{x: {oldValue: 2}}`. */
  const ExampleOld := Obj(map["x" := Obj(map["oldValue" := Num(1)])])
  const ExampleNew := Obj(map["x" := Obj(map["oldValue" := Num(2)])])

  /** Their diff: under `x`, a subtree recording `oldValue` going from 1 to 2. */
  const ExampleSub := map["oldValue" := Leaf(Num(1), Num(2))]
  const ExampleDiff := map["x" := Sub(ExampleSub)]

  /** The leaf under `x.oldValue` on the wire: `{oldValue: 1, newValue: 2}`. */
  const ExampleLeaf := Obj(map["oldValue" := Num(1), "newValue" := Num(2)])

  lemma ExampleSubDiffOf()
    ensures var ov, nv := ExampleOld.fields["x"], ExampleNew.fields["x"];
      DiffDefined(ov, nv) && DiffOf(ov, nv) == ExampleSub
  {
    var ov, nv := ExampleOld.fields["x"], ExampleNew.fields["x"];
    assert DiffDefined(ov, nv);
    DiffOfAt(ov, nv, "oldValue");
    DiffOfKeys(ov, nv);
    SameMap(DiffOf(ov, nv), ExampleSub);
  }

  lemma ExampleDefined()
    ensures DiffDefined(ExampleOld, ExampleNew)
  {
    ExampleSubDiffOf();
  }

  lemma ExampleDiffAtX()
    requires DiffDefined(ExampleOld, ExampleNew)
    ensures var d := DiffOf(ExampleOld, ExampleNew); "x" in d && d["x"] == Sub(ExampleSub)
  {
    ExampleSubDiffOf();
    DiffOfAt(ExampleOld, ExampleNew, "x");
  }

  lemma ExampleDiffOf()
    ensures DiffDefined(ExampleOld, ExampleNew) && DiffOf(ExampleOld, ExampleNew) == ExampleDiff
  {
    ExampleDefined();
    ExampleDiffAtX();
    var d := DiffOf(ExampleOld, ExampleNew);
    DiffOfKeys(ExampleOld, ExampleNew);
    assert d.Keys <= {"x"};
    SameMap(d, ExampleDiff);
  }

  lemma ExampleEncoded()
    ensures Encode(ExampleDiff) == map["x" := Obj(map["oldValue" := ExampleLeaf])]
  {
    assert EncodeNode(Leaf(Num(1), Num(2))) == ExampleLeaf;
    assert Encode(ExampleSub) == map["oldValue" := ExampleLeaf];
    assert EncodeNode(Sub(ExampleSub)) == Obj(map["oldValue" := ExampleLeaf]);
  }

  /** Read back through line 49, the sub-diff under `x` passes for a leaf,
      and `x` comes back as `{oldValue: 1, newValue: 2}`. */
  lemma ExampleMisread()
    ensures WireDefined(ExampleNew, Encode(ExampleDiff))
    ensures var r := Entries(ApplyWire(ExampleNew, Encode(ExampleDiff))); "x" in r && r["x"] == ExampleLeaf
  {
    ExampleEncoded();
    var wire := Encode(ExampleDiff);
    assert WireDefined(ExampleNew, wire);
    assert WireResult(ExampleNew, wire, "x") == Some(ExampleLeaf);
    var p := WirePatched(ExampleNew, wire);
    assert "x" in p && p["x"] == ExampleLeaf;
  }

  lemma ExampleAligned()
    ensures NullFree(ExampleOld) && Aligned(ExampleOld, ExampleNew)
  {
    assert NullFree(ExampleOld.fields["x"]);
  }

  lemma ExampleCanonical()
    ensures Canonical(ExampleOld) && Canonical(ExampleNew)
  {
    IndexKeyZero();
    assert Canonical(Num(1)) && Canonical(Num(2));
    assert Canonical(ExampleOld.fields["x"]) && Canonical(ExampleNew.fields["x"]);
  }

  lemma ExampleDiffers(r: Value)
    requires "x" in Entries(r) && Entries(r)["x"] == ExampleLeaf
    ensures r != ExampleOld
  {
    assert "newValue" in ExampleLeaf.fields;
  }

  /** On the tagged diff the round trip holds for the example revisions,
      while on the run-time form it fails. */
  lemma OldValueKeyMisread()
    ensures DiffDefined(ExampleOld, ExampleNew) && ApplyDefined(ExampleNew, DiffOf(ExampleOld, ExampleNew))
    ensures Applied(ExampleNew, DiffOf(ExampleOld, ExampleNew)) == ExampleOld
    ensures WireDefined(ExampleNew, Encode(DiffOf(ExampleOld, ExampleNew)))
    ensures ApplyWire(ExampleNew, Encode(DiffOf(ExampleOld, ExampleNew))) != ExampleOld
  {
    ExampleDiffOf();
    ExampleMisread();
    ExampleCanonical();
    ExampleAligned();
    RoundTripExact(ExampleOld, ExampleNew);
    ExampleDiffers(ApplyWire(ExampleNew, Encode(ExampleDiff)));
  }
}
