/**
 The difference of two configurations. A difference sits at a path where both sides still
 agree that everything above is an object.
 */
module ConfigDiffing {
  import opened Json
  import opened Options

  datatype Kind = Added | Removed | Modified

  datatype ConfigDiff = ConfigDiff(path: Path, oldValue: Option<Value>, newValue: Option<Value>, kind: Kind)

  // ------------------------------------------------------------------ what a difference is

  /**
   `before` and `after` part at `p`: both hold objects all the way to the last key, and there
   they hold different things that are not both objects.
   */
  ghost predicate Differs(before: Value, after: Value, p: Path) {
    && p != []
    && ObjectAt(before, p[..|p| - 1]) && ObjectAt(after, p[..|p| - 1])
    && Lookup(before, p) != Lookup(after, p)
    && !(ObjectAt(before, p) && ObjectAt(after, p))
  }

  ghost function EntryAt(before: Value, after: Value, prefix: Path, p: Path): ConfigDiff {
    var x, y := Lookup(before, p), Lookup(after, p);
    ConfigDiff(prefix + p, x, y, if x.None? then Added else if y.None? then Removed else Modified)
  }

  /** `d` holds exactly the differences that start with one of `keys`, each once. */
  ghost predicate Covers(d: seq<ConfigDiff>, prefix: Path, before: Value, after: Value, keys: set<Key>) {
    && (forall i :: 0 <= i < |d| ==> Explains(d[i], prefix, before, after, keys))
    && (forall i, j :: 0 <= i < j < |d| ==> d[i].path != d[j].path)
    && (forall p :: Differs(before, after, p) && StartsIn(p, keys) ==> Listed(d, prefix + p))
  }

  ghost predicate Explains(e: ConfigDiff, prefix: Path, before: Value, after: Value, keys: set<Key>) {
    && prefix <= e.path
    && var p := e.path[|prefix|..];
       Differs(before, after, p) && StartsIn(p, keys) && e == EntryAt(before, after, prefix, p)
  }

  predicate StartsIn(p: Path, keys: set<Key>) {
    p != [] && p[0] in keys
  }

  ghost predicate Listed(d: seq<ConfigDiff>, p: Path) {
    exists i :: 0 <= i < |d| && d[i].path == p
  }

  ghost function AllKeys(before: Value, after: Value): set<Key>
    requires before.Object? && after.Object?
  {
    before.fields.Keys + after.fields.Keys
  }

  lemma DiffersStep(before: Value, after: Value, k: Key, q: Path)
    requires before.Object? && after.Object?
    ensures Differs(before, after, [k] + q) <==>
      if q == [] then
        && Lookup(before, [k]) != Lookup(after, [k])
        && !(ObjectAt(before, [k]) && ObjectAt(after, [k]))
      else
        && k in before.fields && k in after.fields
        && Differs(before.fields[k], after.fields[k], q)
  {
    var p := [k] + q;
    LookupStep(before, k, q);
    LookupStep(after, k, q);
    if q == [] {
      assert p == [k] && p[..0] == [];
    } else {
      assert p[..|p| - 1] == [k] + q[..|q| - 1];
      LookupStep(before, k, q[..|q| - 1]);
      LookupStep(after, k, q[..|q| - 1]);
    }
  }

  lemma DiffersInObjects(before: Value, after: Value, p: Path)
    requires Differs(before, after, p)
    ensures before.Object? && after.Object? && p[0] in AllKeys(before, after)
  {
    var front := p[..|p| - 1];
    if front == [] {
      assert p == [p[0]];
    }
  }

  // ------------------------------------------------------------------ the pieces of the comparison

  lemma ListedInConcat(d: seq<ConfigDiff>, e: seq<ConfigDiff>, p: Path)
    requires Listed(d, p) || Listed(e, p)
    ensures Listed(d + e, p)
  {
    if Listed(d, p) {
      var i :| 0 <= i < |d| && d[i].path == p;
      assert (d + e)[i].path == p;
    } else {
      var i :| 0 <= i < |e| && e[i].path == p;
      assert (d + e)[|d| + i].path == p;
    }
  }

  lemma ExplainedApart(x: ConfigDiff, y: ConfigDiff, prefix: Path, before: Value, after: Value,
                       keys: set<Key>, more: set<Key>)
    requires Explains(x, prefix, before, after, keys) && Explains(y, prefix, before, after, more)
    requires keys !! more
    ensures x.path != y.path
    ensures Explains(x, prefix, before, after, keys + more) && Explains(y, prefix, before, after, keys + more)
  {
  }

  lemma CoversUnion(d: seq<ConfigDiff>, e: seq<ConfigDiff>, prefix: Path, before: Value, after: Value,
                    keys: set<Key>, more: set<Key>)
    requires Covers(d, prefix, before, after, keys) && Covers(e, prefix, before, after, more)
    requires keys !! more
    ensures Covers(d + e, prefix, before, after, keys + more)
  {
    hide Differs, Explains, Listed;
    var all := d + e;
    assert forall i :: |d| <= i < |all| ==> all[i] == e[i - |d|];
    forall i, j | 0 <= i < |d| && 0 <= j < |e|
      ensures Explains(d[i], prefix, before, after, keys + more) && Explains(e[j], prefix, before, after, keys + more)
      ensures d[i].path != e[j].path
    {
      ExplainedApart(d[i], e[j], prefix, before, after, keys, more);
    }
    forall i | 0 <= i < |d|
      ensures Explains(d[i], prefix, before, after, keys + more)
    {
      ExplainsMore(d[i], prefix, before, after, keys, keys + more);
    }
    forall i | 0 <= i < |e|
      ensures Explains(e[i], prefix, before, after, keys + more)
    {
      ExplainsMore(e[i], prefix, before, after, more, keys + more);
    }
    forall p | Differs(before, after, p) && StartsIn(p, keys + more)
      ensures Listed(all, prefix + p)
    {
      ListedInConcat(d, e, prefix + p);
    }
  }

  lemma ExplainsMore(x: ConfigDiff, prefix: Path, before: Value, after: Value, keys: set<Key>, more: set<Key>)
    requires Explains(x, prefix, before, after, keys) && keys <= more
    ensures Explains(x, prefix, before, after, more)
  {
  }

  /** A key whose two values are not both objects contributes at most one difference, at the key itself. */
  lemma CoversLeaf(prefix: Path, before: Value, after: Value, k: Key)
    requires before.Object? && after.Object?
    requires !(ObjectAt(before, [k]) && ObjectAt(after, [k]))
    ensures
      var changed := Lookup(before, [k]) != Lookup(after, [k]);
      Covers(if changed then [EntryAt(before, after, prefix, [k])] else [], prefix, before, after, {k})
  {
    var changed := Lookup(before, [k]) != Lookup(after, [k]);
    var entry := EntryAt(before, after, prefix, [k]);
    var d := if changed then [entry] else [];
    DiffersStep(before, after, k, []);
    assert [k] + [] == [k];
    assert entry.path[|prefix|..] == [k];
    assert changed ==> Explains(entry, prefix, before, after, {k});
    forall p | Differs(before, after, p) && StartsIn(p, {k})
      ensures Listed(d, prefix + p)
    {
      var q := p[1..];
      assert p == [k] + q;
      DiffersStep(before, after, k, q);
      if q != [] {
        DiffersInObjects(before.fields[k], after.fields[k], q);
        LookupStep(before, k, []);
        LookupStep(after, k, []);
        assert false;
      }
      assert d[0].path == prefix + p;
    }
  }

  /** A key with an object on both sides contributes the differences of the two objects. */
  lemma CoversNested(d: seq<ConfigDiff>, prefix: Path, before: Value, after: Value, k: Key)
    requires before.Object? && after.Object? && k in before.fields && k in after.fields
    requires before.fields[k].Object? && after.fields[k].Object?
    requires Covers(d, prefix + [k], before.fields[k], after.fields[k], AllKeys(before.fields[k], after.fields[k]))
    ensures Covers(d, prefix, before, after, {k})
  {
    var x, y := before.fields[k], after.fields[k];
    forall i | 0 <= i < |d|
      ensures Explains(d[i], prefix, before, after, {k})
    {
      NestedEntry(d[i], prefix, before, after, k);
    }
    forall p | Differs(before, after, p) && StartsIn(p, {k})
      ensures Listed(d, prefix + p)
    {
      var q := p[1..];
      assert p == [k] + q;
      DiffersStep(before, after, k, q);
      LookupStep(before, k, []);
      LookupStep(after, k, []);
      assert [k] + [] == [k];
      DiffersInObjects(x, y, q);
      assert prefix + p == (prefix + [k]) + q;
    }
  }

  lemma NestedEntry(e: ConfigDiff, prefix: Path, before: Value, after: Value, k: Key)
    requires before.Object? && after.Object? && k in before.fields && k in after.fields
    requires before.fields[k].Object? && after.fields[k].Object?
    requires Explains(e, prefix + [k], before.fields[k], after.fields[k],
                      AllKeys(before.fields[k], after.fields[k]))
    ensures Explains(e, prefix, before, after, {k})
  {
    var q := e.path[|prefix| + 1..];
    assert e.path == (prefix + [k]) + q;
    assert e.path == prefix + ([k] + q) && e.path[|prefix|..] == [k] + q;
    DiffersStep(before, after, k, q);
    LookupStep(before, k, q);
    LookupStep(after, k, q);
  }

  // ------------------------------------------------------------------ the comparison

  datatype TypeTag = ObjectType | StringType | NumberType | BooleanType

  /** `typeof`: null and arrays are objects, too. */
  function TypeOf(v: Value): TypeTag {
    match v
    case Null => ObjectType
    case Array(_) => ObjectType
    case Object(_) => ObjectType
    case Bool(_) => BooleanType
    case Number(_) => NumberType
    case String(_) => StringType
  }

  /** `compareObjects`, which pushes onto a list that all its calls share. */
  class ConfigComparer {
    var differences: seq<ConfigDiff>

    constructor ()
      ensures differences == []
    {
      differences := [];
    }

    /** The keys may come in any order. */
    method CompareObjects(before: Value, after: Value, path: Path)
      requires before.Object? && after.Object?
      modifies this
      ensures old(differences) <= differences
      ensures Covers(differences[|old(differences)|..], path, before, after, AllKeys(before, after))
      decreases before, 1
    {
      var allKeys := before.fields.Keys + after.fields.Keys;
      assert allKeys == AllKeys(before, after);
      ghost var done: set<Key>, n := {}, |differences|;
      assert Covers([], path, before, after, {});
      hide *;
      while allKeys != {}
        invariant old(differences) <= differences
        invariant done !! allKeys && done + allKeys == AllKeys(before, after)
        invariant Covers(differences[n..], path, before, after, done)
        decreases allKeys
      {
        var key :| key in allKeys;
        ghost var soFar := differences;
        CompareKey(before, after, path, key);
        CoversUnion(soFar[n..], differences[|soFar|..], path, before, after, done, {key});
        assert differences[n..] == soFar[n..] + differences[|soFar|..];
        done, allKeys := done + {key}, allKeys - {key};
      }
      assert done == AllKeys(before, after);
    }

    /** The body of the loop over the keys. */
    method CompareKey(before: Value, after: Value, path: Path, key: Key)
      requires before.Object? && after.Object? && (key in before.fields || key in after.fields)
      modifies this
      ensures old(differences) <= differences
      ensures Covers(differences[|old(differences)|..], path, before, after, {key})
      decreases before, 0
    {
      var currentPath := path + [key];
      LookupKey(before, key);
      LookupKey(after, key);
      if key !in before.fields {
        Push(before, after, path, key, ConfigDiff(currentPath, None, Some(after.fields[key]), Added));
      } else if key !in after.fields {
        Push(before, after, path, key, ConfigDiff(currentPath, Some(before.fields[key]), None, Removed));
      } else {
        var oldValue, newValue := before.fields[key], after.fields[key];
        var modified := ConfigDiff(currentPath, Some(oldValue), Some(newValue), Modified);
        if TypeOf(oldValue) != TypeOf(newValue) {
          Push(before, after, path, key, modified);
        } else if TypeOf(oldValue) == ObjectType && oldValue != Null && newValue != Null {
          if oldValue.Array? && newValue.Array? {
            if oldValue.items != newValue.items {
              Push(before, after, path, key, modified);
            } else {
              CoversLeaf(path, before, after, key);
              assert differences[|differences|..] == [];
            }
          } else if !oldValue.Array? && !newValue.Array? {
            CompareObjects(oldValue, newValue, currentPath);
            CoversNested(differences[|old(differences)|..], path, before, after, key);
          } else {
            Push(before, after, path, key, modified);
          }
        } else if oldValue != newValue {
          Push(before, after, path, key, modified);
        } else {
          CoversLeaf(path, before, after, key);
          assert differences[|differences|..] == [];
        }
      }
    }

    /** `differences.push`, of the difference at `key`. */
    method Push(ghost before: Value, ghost after: Value, ghost path: Path, ghost key: Key, entry: ConfigDiff)
      requires before.Object? && after.Object?
      requires Lookup(before, [key]) != Lookup(after, [key])
      requires !(ObjectAt(before, [key]) && ObjectAt(after, [key]))
      requires entry == EntryAt(before, after, path, [key])
      modifies this
      ensures differences == old(differences) + [entry]
      ensures Covers(differences[|old(differences)|..], path, before, after, {key})
    {
      CoversLeaf(path, before, after, key);
      differences := differences + [entry];
      assert differences[|old(differences)|..] == [entry];
    }
  }

  // ------------------------------------------------------------------ laws of the difference

  /** The list `d` of `diffConfigs(before, after)`. */
  ghost predicate IsDiff(d: seq<ConfigDiff>, before: Value, after: Value) {
    before.Object? && after.Object? && Covers(d, [], before, after, AllKeys(before, after))
  }

  lemma DiffLists(d: seq<ConfigDiff>, before: Value, after: Value, p: Path)
    requires IsDiff(d, before, after)
    ensures Differs(before, after, p) <==> Listed(d, p)
  {
    assert [] + p == p;
    if Differs(before, after, p) {
      DiffersInObjects(before, after, p);
    }
    if Listed(d, p) {
      var i :| 0 <= i < |d| && d[i].path == p;
      assert Explains(d[i], [], before, after, AllKeys(before, after));
      assert d[i].path[0..] == p;
    }
  }

  lemma DiffEntry(d: seq<ConfigDiff>, before: Value, after: Value, i: nat)
    requires IsDiff(d, before, after) && i < |d|
    ensures Differs(before, after, d[i].path) && d[i] == EntryAt(before, after, [], d[i].path)
  {
    assert Explains(d[i], [], before, after, AllKeys(before, after));
    assert d[i].path[0..] == d[i].path;
  }

  /** Different objects part somewhere. */
  lemma {:induction false} SomewhereDifferent(before: Value, after: Value)
    requires before.Object? && after.Object? && before != after
    ensures exists p :: Differs(before, after, p)
    decreases before
  {
    var k :| k in AllKeys(before, after) && Lookup(before, [k]) != Lookup(after, [k])
      by { DifferentKey(before, after); }
    assert [k] + [] == [k];
    DiffersStep(before, after, k, []);
    if ObjectAt(before, [k]) && ObjectAt(after, [k]) {
      LookupStep(before, k, []);
      LookupStep(after, k, []);
      SomewhereDifferent(before.fields[k], after.fields[k]);
      var q :| Differs(before.fields[k], after.fields[k], q);
      DiffersStep(before, after, k, q);
    }
  }

  lemma DifferentKey(before: Value, after: Value)
    requires before.Object? && after.Object? && before != after
    ensures exists k :: k in AllKeys(before, after) && Lookup(before, [k]) != Lookup(after, [k])
  {
    if forall k :: k in AllKeys(before, after) ==> Lookup(before, [k]) == Lookup(after, [k]) {
      forall k
        ensures k in before.fields <==> k in after.fields
        ensures k in before.fields && k in after.fields ==> before.fields[k] == after.fields[k]
      {
        assert [k] + [] == [k];
        LookupStep(before, k, []);
        LookupStep(after, k, []);
      }
    }
  }

  /** `diffConfigs` is empty exactly when the two configurations are equal. */
  lemma DiffEmpty(d: seq<ConfigDiff>, before: Value, after: Value)
    requires IsDiff(d, before, after)
    ensures d == [] <==> before == after
  {
    if d != [] {
      DiffEntry(d, before, after, 0);
    } else if before != after {
      SomewhereDifferent(before, after);
      var p :| Differs(before, after, p);
      DiffLists(d, before, after, p);
    }
  }

  /** No reported path lies on the way to another one. */
  lemma DiffPrefixFree(before: Value, after: Value, p: Path, q: Path)
    requires Differs(before, after, p) && Differs(before, after, q)
    ensures p <= q ==> p == q
  {
    if p < q {
      var front := q[..|q| - 1];
      if p != front {
        LookupBelow(before, p, front);
        LookupBelow(after, p, front);
      }
    }
  }

  function Swap(e: ConfigDiff): ConfigDiff {
    ConfigDiff(e.path, e.newValue, e.oldValue,
               match e.kind case Added => Removed case Removed => Added case Modified => Modified)
  }

  /** Swapping the arguments swaps the sides of every difference, and added with removed. */
  lemma DiffSwaps(d: seq<ConfigDiff>, e: seq<ConfigDiff>, before: Value, after: Value)
    requires IsDiff(d, before, after) && IsDiff(e, after, before)
    ensures forall x :: x in e <==> Swap(x) in d
  {
    forall x | x in e
      ensures Swap(x) in d
    {
      DiffMemberSwaps(e, d, after, before, x);
    }
    forall x | Swap(x) in d
      ensures x in e
    {
      DiffMemberSwaps(d, e, before, after, Swap(x));
      assert Swap(Swap(x)) == x;
    }
  }

  lemma DiffMemberSwaps(d: seq<ConfigDiff>, e: seq<ConfigDiff>, before: Value, after: Value, x: ConfigDiff)
    requires IsDiff(d, before, after) && IsDiff(e, after, before) && x in d
    ensures Swap(x) in e
  {
    var i :| 0 <= i < |d| && d[i] == x;
    DiffEntry(d, before, after, i);
    assert Differs(after, before, x.path);
    DiffLists(e, after, before, x.path);
    var j :| 0 <= j < |e| && e[j].path == x.path;
    DiffEntry(e, after, before, j);
    assert e[j] == Swap(x);
  }

  // ------------------------------------------------------------------ applying a difference

  ghost function ApplyAll(v: Value, d: seq<ConfigDiff>): Value
    requires forall i :: 0 <= i < |d| ==> d[i].path != []
    decreases |d|
  {
    if d == [] then v else ApplyAll(Put(v, d[0].path, d[0].newValue), d[1..])
  }

  /** `d` lists what is still different between `current` and `after`. */
  ghost predicate Remaining(d: seq<ConfigDiff>, current: Value, after: Value) {
    && current.Object? && after.Object?
    && (forall p :: Differs(current, after, p) <==> Listed(d, p))
    && (forall i, j :: 0 <= i < j < |d| ==> d[i].path != d[j].path)
    && (forall i :: 0 <= i < |d| ==> d[i].newValue == Lookup(after, d[i].path))
  }

  /** Applying one difference removes it and no other, and adds none. */
  lemma ApplyOne(current: Value, after: Value, p: Path, q: Path)
    requires Differs(current, after, p)
    ensures Differs(Put(current, p, Lookup(after, p)), after, q) <==> Differs(current, after, q) && q != p
  {
    if q != [] {
      var x := Lookup(after, p);
      var front := q[..|q| - 1];
      LookupPut(current, p, x, q);
      LookupPut(current, p, x, front);
      if p <= q {
        LookupConcat(after, p, q[|p|..]);
        assert p + q[|p|..] == q;
        if Differs(current, after, q) {
          DiffPrefixFree(current, after, p, q);
        }
      } else if q < p {
        LookupBelowOrAt(after, q, p[..|p| - 1]);
        if Differs(current, after, q) {
          DiffPrefixFree(current, after, q, p);
        }
      } else {
        assert !(p <= front) by {
          assert p <= front ==> p <= q;
        }
      }
    }
  }

  lemma LookupBelowOrAt(v: Value, p: Path, q: Path)
    requires p <= q && ObjectAt(v, q)
    ensures ObjectAt(v, p)
  {
    if p != q {
      LookupBelow(v, p, q);
    }
  }

  lemma {:induction false} ApplyRemaining(d: seq<ConfigDiff>, current: Value, after: Value)
    requires Remaining(d, current, after)
    ensures forall i :: 0 <= i < |d| ==> d[i].path != []
    ensures ApplyAll(current, d) == after
    decreases |d|
  {
    forall i | 0 <= i < |d|
      ensures Differs(current, after, d[i].path)
    {
      assert Listed(d, d[i].path);
    }
    if d == [] {
      if current != after {
        SomewhereDifferent(current, after);
      }
    } else {
      RemainingStep(d, current, after);
      ApplyRemaining(d[1..], Put(current, d[0].path, d[0].newValue), after);
    }
  }

  lemma RemainingStep(d: seq<ConfigDiff>, current: Value, after: Value)
    requires d != [] && Remaining(d, current, after) && Differs(current, after, d[0].path)
    ensures Remaining(d[1..], Put(current, d[0].path, d[0].newValue), after)
  {
    var p, rest := d[0].path, d[1..];
    var next := Put(current, p, d[0].newValue);
    forall q
      ensures Differs(next, after, q) <==> Listed(rest, q)
    {
      ApplyOne(current, after, p, q);
      hide Differs;
      if Listed(d, q) && q != p {
        var i :| 0 <= i < |d| && d[i].path == q;
        assert rest[i - 1].path == q;
      }
      if Listed(rest, q) {
        var i :| 0 <= i < |rest| && rest[i].path == q;
        assert d[i + 1].path == q;
      }
    }
  }

  /** Applying the differences to the old configuration gives the new one. */
  lemma ApplyDiff(d: seq<ConfigDiff>, before: Value, after: Value)
    requires IsDiff(d, before, after)
    ensures forall i :: 0 <= i < |d| ==> d[i].path != []
    ensures ApplyAll(before, d) == after
  {
    forall i | 0 <= i < |d|
      ensures d[i].newValue == Lookup(after, d[i].path)
    {
      DiffEntry(d, before, after, i);
    }
    forall p
      ensures Differs(before, after, p) <==> Listed(d, p)
    {
      DiffLists(d, before, after, p);
    }
    ApplyRemaining(d, before, after);
  }

  function CountKind(d: seq<ConfigDiff>, kind: Kind): nat {
    if d == [] then 0
    else CountKind(d[..|d| - 1], kind) + if d[|d| - 1].kind == kind then 1 else 0
  }

  lemma {:induction false} KindsAddUp(d: seq<ConfigDiff>)
    ensures CountKind(d, Added) + CountKind(d, Removed) + CountKind(d, Modified) == |d|
  {
    if d != [] {
      KindsAddUp(d[..|d| - 1]);
    }
  }

  /** Where the differences of one kind stand. */
  ghost function OfKind(d: seq<ConfigDiff>, kind: Kind): set<nat> {
    set i | 0 <= i < |d| && d[i].kind == kind
  }

  lemma {:induction false} CountIsNumber(d: seq<ConfigDiff>, kind: Kind)
    ensures CountKind(d, kind) == |OfKind(d, kind)|
  {
    if d == [] {
      assert OfKind(d, kind) == {};
    } else {
      CountIsNumber(d[..|d| - 1], kind);
      OfKindSnoc(d, kind);
    }
  }

  lemma OfKindSnoc(d: seq<ConfigDiff>, kind: Kind)
    requires d != []
    ensures |OfKind(d, kind)| == |OfKind(d[..|d| - 1], kind)| + if d[|d| - 1].kind == kind then 1 else 0
  {
    var n := |d| - 1;
    assert forall i :: 0 <= i < n ==> d[..n][i] == d[i];
    assert OfKind(d, kind) == OfKind(d[..n], kind) + if d[n].kind == kind then {n} else {};
  }

  /**
   Each entry shows what the two configurations hold at its path: an added key is missing in the
   old one, a removed key in the new one, and a modified one is in both.
   */
  ghost predicate ShowsBoth(e: ConfigDiff, before: Value, after: Value) {
    && e.oldValue == Lookup(before, e.path) && e.newValue == Lookup(after, e.path)
    && match e.kind
       case Added => e.oldValue.None? && e.newValue.Some?
       case Removed => e.oldValue.Some? && e.newValue.None?
       case Modified => e.oldValue.Some? && e.newValue.Some?
  }

  lemma EntryShowsBoth(d: seq<ConfigDiff>, before: Value, after: Value, i: nat)
    requires IsDiff(d, before, after) && i < |d|
    ensures ShowsBoth(d[i], before, after)
  {
    DiffEntry(d, before, after, i);
    assert [] + d[i].path == d[i].path;
  }

  /** No listed path is another one or lies on the way to it. */
  ghost predicate PathsApart(d: seq<ConfigDiff>) {
    forall i, j :: 0 <= i < |d| && 0 <= j < |d| && d[i].path <= d[j].path ==> i == j
  }

  /** The comparison with swapped arguments lists the swapped differences. */
  ghost predicate SwapsWith(d: seq<ConfigDiff>, before: Value, after: Value) {
    forall e :: IsDiff(e, after, before) ==> forall x :: x in e <==> Swap(x) in d
  }

  lemma DiffLaws(d: seq<ConfigDiff>, before: Value, after: Value)
    requires IsDiff(d, before, after)
    ensures PathsApart(d) && SwapsWith(d, before, after)
  {
    forall i, j | 0 <= i < |d| && 0 <= j < |d| && d[i].path <= d[j].path
      ensures i == j
    {
      DiffEntry(d, before, after, i);
      DiffEntry(d, before, after, j);
      DiffPrefixFree(before, after, d[i].path, d[j].path);
    }
    forall e | IsDiff(e, after, before)
      ensures forall x :: x in e <==> Swap(x) in d
    {
      DiffSwaps(d, e, before, after);
    }
  }

  datatype ConfigDiffResult = ConfigDiffResult(identical: bool, differences: seq<ConfigDiff>,
                                               added: nat, removed: nat, modified: nat)

  /**
   `diffConfigs`: every difference once and nothing else, so that applying them to the old
   configuration gives the new one, there are none exactly when the two are equal, no path lies
   on the way to another, and swapping the arguments swaps every difference.
   */
  method DiffConfigs(before: Value, after: Value) returns (r: ConfigDiffResult)
    requires before.Object? && after.Object?
    ensures IsDiff(r.differences, before, after)
    ensures r.identical <==> before == after
    ensures forall i :: 0 <= i < |r.differences| ==> r.differences[i].path != []
    ensures ApplyAll(before, r.differences) == after
    ensures PathsApart(r.differences) && SwapsWith(r.differences, before, after)
    ensures forall i :: 0 <= i < |r.differences| ==> ShowsBoth(r.differences[i], before, after)
    ensures r.added == |set i | 0 <= i < |r.differences| && r.differences[i].kind == Added|
    ensures r.removed == |set i | 0 <= i < |r.differences| && r.differences[i].kind == Removed|
    ensures r.modified == |set i | 0 <= i < |r.differences| && r.differences[i].kind == Modified|
    ensures r.added + r.removed + r.modified == |r.differences|
  {
    var comparer := new ConfigComparer();
    comparer.CompareObjects(before, after, []);
    var d := comparer.differences;
    assert d[0..] == d;
    DiffEmpty(d, before, after);
    ApplyDiff(d, before, after);
    DiffLaws(d, before, after);
    KindsAddUp(d);
    forall kind
      ensures CountKind(d, kind) == |OfKind(d, kind)|
    {
      CountIsNumber(d, kind);
    }
    forall i | 0 <= i < |d|
      ensures ShowsBoth(d[i], before, after)
    {
      EntryShowsBoth(d, before, after, i);
    }
    hide *;
    r := ConfigDiffResult(|d| == 0, d, CountKind(d, Added), CountKind(d, Removed), CountKind(d, Modified));
  }
}
