/** JSON-compatible values, and the view of their keys that the diff engine
    works through: what `for (key in v)`, `key in v`, `v[key]` and the spread
    `{...v}` see of a value. */
module JsonValues {

  datatype Value =
    | Null
    | Bool(b: bool)
    | Num(n: int)
    | Str(s: string)
    | Obj(fields: map<string, Value>)
    | Arr(items: seq<Value>)

  /** `typeof v === 'object'`: true of null as well as of objects and arrays. */
  predicate IsObjectType(v: Value) {
    v.Null? || v.Obj? || v.Arr?
  }

  /** A genuine keyed container: a plain object or an array. */
  predicate IsContainer(v: Value) {
    v.Obj? || v.Arr?
  }

  function DigitChar(d: nat): char
    requires d < 10
  {
    ('0' as int + d) as char
  }

  function DigitValue(c: char): nat {
    if '0' <= c <= '9' then c as int - '0' as int else 0
  }

  /** `n.toString()` for a non-negative integer: its decimal digits. */
  function IndexKey(n: nat): string {
    if n < 10 then [DigitChar(n)] else IndexKey(n / 10) + [DigitChar(n % 10)]
  }

  lemma IndexKeyZero()
    ensures IndexKey(0) == "0"
  {
  }

  /** Reads a string of decimal digits back as a number. */
  function DecimalValue(s: string): nat {
    if s == [] then 0 else 10 * DecimalValue(s[..|s| - 1]) + DigitValue(s[|s| - 1])
  }

  lemma {:induction false} DecimalValueOfIndexKey(n: nat)
    ensures DecimalValue(IndexKey(n)) == n
  {
    if n >= 10 {
      DecimalValueOfIndexKey(n / 10);
      var s := IndexKey(n);
      assert s[..|s| - 1] == IndexKey(n / 10);
    }
  }

  /** Distinct indices have distinct keys. */
  lemma IndexKeyInjective(i: nat, j: nat)
    ensures IndexKey(i) == IndexKey(j) ==> i == j
  {
    DecimalValueOfIndexKey(i);
    DecimalValueOfIndexKey(j);
  }

  /** The keys `"0"`, ..., `"n-1"`. */
  function IndexKeys(n: nat): set<string> {
    set i | 0 <= i < n :: IndexKey(i)
  }

  lemma IndexKeysSucc(n: nat)
    ensures IndexKeys(n + 1) == IndexKeys(n) + {IndexKey(n)}
  {
  }

  lemma {:induction false} IndexKeysCount(n: nat)
    ensures |IndexKeys(n)| == n
  {
    if n > 0 {
      IndexKeysCount(n - 1);
      IndexKeysSucc(n - 1);
      if IndexKey(n - 1) in IndexKeys(n - 1) {
        var i :| 0 <= i < n - 1 && IndexKey(i) == IndexKey(n - 1);
        IndexKeyInjective(i, n - 1);
      }
    }
  }

  /** A subset is no larger than its superset, and equal to it when it is
      as large. */
  lemma {:induction false} SubsetCard(a: set<string>, b: set<string>)
    requires a <= b
    ensures |a| <= |b| && (|a| == |b| ==> a == b)
    decreases b
  {
    if a != b {
      var x :| x in b && x !in a;
      SubsetCard(a, b - {x});
    }
  }

  /** An array's elements under their index keys: element `i` of `s` is
      found under `IndexKey(i)`. Built up one element at a time. */
  function IndexMap(s: seq<Value>): (r: map<string, Value>)
    ensures forall k :: k in r ==> r[k] in s
  {
    if s == [] then map[] else IndexMap(s[..|s| - 1])[IndexKey(|s| - 1) := s[|s| - 1]]
  }

  /** The keys of an array are exactly `"0"`, ..., `"n-1"`. */
  lemma {:induction false} IndexMapKeys(s: seq<Value>)
    ensures IndexMap(s).Keys == IndexKeys(|s|)
  {
    if s != [] {
      IndexMapKeys(s[..|s| - 1]);
      IndexKeysSucc(|s| - 1);
    }
  }

  /** Element `i` is found under its index key. */
  lemma {:induction false} IndexMapAt(s: seq<Value>, i: nat)
    requires i < |s|
    ensures IndexKey(i) in IndexMap(s) && IndexMap(s)[IndexKey(i)] == s[i]
  {
    if i < |s| - 1 {
      IndexMapAt(s[..|s| - 1], i);
      IndexKeyInjective(i, |s| - 1);
    }
  }

  /** Every key of an array is the index key of one of its elements. */
  lemma IndexOfKey(s: seq<Value>, k: string) returns (i: nat)
    requires k in IndexMap(s)
    ensures i < |s| && k == IndexKey(i) && IndexMap(s)[k] == s[i]
  {
    IndexMapKeys(s);
    i :| 0 <= i < |s| && IndexKey(i) == k;
    IndexMapAt(s, i);
  }

  /** A map whose keys are the index keys of `s` and whose value under
      each index key is the element at that index is `s`'s index map. */
  lemma IndexMapOf(s: seq<Value>, m: map<string, Value>)
    requires m.Keys == IndexKeys(|s|)
    requires forall i :: 0 <= i < |s| ==> m[IndexKey(i)] == s[i]
    ensures IndexMap(s) == m
  {
    IndexMapKeys(s);
    forall k | k in m ensures IndexMap(s)[k] == m[k] {
      var i :| 0 <= i < |s| && IndexKey(i) == k;
      IndexMapAt(s, i);
    }
  }

  /** The own enumerable properties of a value, as `for..in`, `v[key]` and
      `{...v}` see them: an object's fields, an array's elements under their
      index keys, and nothing for a scalar or null. */
  function Entries(v: Value): map<string, Value> {
    match v
    case Obj(m) => m
    case Arr(s) => IndexMap(s)
    case _ => map[]
  }

  /** Two maps that agree on the keys of the second and have no other key
      are equal. */
  lemma SameMap<K, V>(p: map<K, V>, q: map<K, V>)
    requires forall k :: k in q ==> k in p && p[k] == q[k]
    requires p.Keys <= q.Keys
    ensures p == q
  {
  }

  /** Every entry of a container is a proper part of it. */
  lemma EntryBelow(v: Value, k: string)
    requires k in Entries(v)
    ensures Entries(v)[k] < v
  {
    if v.Arr? {
      var i := IndexOfKey(v.items, k);
    }
  }

  /** Anything but a non-empty string. `for..in` and the spread visit a
      string's index keys, which Entries does not give it; for every other
      value Entries lists exactly the keys they visit. */
  predicate KeyedAsEnumerated(v: Value) {
    !v.Str? || v.s == ""
  }

  /** Structural equality in which an array and an object are compared as
      the index-keyed maps they are: two containers are equivalent when they
      have the same keys and equivalent values under every key. */
  predicate Equiv(a: Value, b: Value)
    decreases a
  {
    if IsContainer(a) && IsContainer(b) then
      var ea, eb := Entries(a), Entries(b);
      ea.Keys == eb.Keys && forall k :: k in ea ==> Equiv(ea[k], eb[k])
    else
      a == b
  }

  lemma {:induction false} EquivReflexive(a: Value)
    ensures Equiv(a, a)
    decreases a
  {
    if IsContainer(a) {
      var ea := Entries(a);
      forall k | k in ea ensures Equiv(ea[k], ea[k]) {
        EquivReflexive(ea[k]);
      }
    }
  }

  /** No `null` occurs anywhere in the value. */
  predicate NullFree(v: Value)
    decreases v
  {
    && v != Null
    && (IsContainer(v) ==> forall k :: k in Entries(v) ==> NullFree(Entries(v)[k]))
  }
}
