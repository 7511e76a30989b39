/**
 Configuration values and look-up along a path of keys.
 */
module Json {
  import opened Options

  /**
   A value inside an array. The programs compare and merge arrays only as a whole, by their JSON
   text, so the order of object keys counts here.
   */
  datatype Item =
    | ItemNull
    | ItemBool(b: bool)
    | ItemNumber(n: real)
    | ItemString(s: string)
    | ItemArray(items: seq<Item>)
    | ItemObject(fields: seq<(string, Item)>)

  /** A value outside arrays; the order of object keys does not count. */
  datatype Value =
    | Null
    | Bool(b: bool)
    | Number(n: real)
    | String(s: string)
    | Array(items: seq<Item>)
    | Object(fields: map<string, Value>)

  type Key = string
  type Path = seq<Key>
  type Fields = map<Key, Value>

  /** The value at a path, if every step before it leads through an object. */
  ghost function Lookup(v: Value, p: Path): Option<Value>
    decreases |p|
  {
    if p == [] then Some(v)
    else if v.Object? && p[0] in v.fields then Lookup(v.fields[p[0]], p[1..])
    else None
  }

  ghost predicate ObjectAt(v: Value, p: Path) {
    Lookup(v, p).Some? && Lookup(v, p).value.Object?
  }

  lemma LookupStep(v: Value, k: Key, p: Path)
    ensures Lookup(v, [k] + p) == if v.Object? && k in v.fields then Lookup(v.fields[k], p) else None
  {
    assert ([k] + p)[1..] == p;
  }

  lemma LookupKey(v: Value, k: Key)
    ensures Lookup(v, [k]) == if v.Object? && k in v.fields then Some(v.fields[k]) else None
  {
    assert [k] + [] == [k];
    LookupStep(v, k, []);
  }

  lemma {:induction false} LookupConcat(v: Value, p: Path, q: Path)
    ensures Lookup(v, p + q) == if Lookup(v, p).Some? then Lookup(Lookup(v, p).value, q) else None
    decreases |p|
  {
    if p == [] {
      assert p + q == q;
    } else {
      assert (p + q)[1..] == p[1..] + q;
      if v.Object? && p[0] in v.fields {
        LookupConcat(v.fields[p[0]], p[1..], q);
      }
    }
  }

  /** What lies below a path needs objects all the way. */
  lemma LookupBelow(v: Value, p: Path, q: Path)
    requires p < q && Lookup(v, q).Some?
    ensures ObjectAt(v, p)
  {
    LookupConcat(v, p, q[|p|..]);
    assert p + q[|p|..] == q;
  }

  /** `v` with the value at `p` set to `x`, or removed when `x` is `None`, if objects lead to `p`. */
  ghost function Put(v: Value, p: Path, x: Option<Value>): Value
    requires p != []
    decreases |p|
  {
    if !v.Object? then v
    else if |p| == 1 then
      Object(if x.Some? then v.fields[p[0] := x.value] else v.fields - {p[0]})
    else if p[0] in v.fields then
      Object(v.fields[p[0] := Put(v.fields[p[0]], p[1..], x)])
    else v
  }

  /** After a write, a path at or below the written one leads into the new value, and a path beside it is as before. */
  lemma {:induction false} LookupPut(v: Value, p: Path, x: Option<Value>, q: Path)
    requires p != [] && ObjectAt(v, p[..|p| - 1])
    ensures p <= q ==> Lookup(Put(v, p, x), q) == if x.Some? then Lookup(x.value, q[|p|..]) else None
    ensures q < p ==> ObjectAt(v, q) && ObjectAt(Put(v, p, x), q)
    ensures !(p <= q) && !(q < p) ==> Lookup(Put(v, p, x), q) == Lookup(v, q)
    decreases |p|
  {
    assert v.Object?;
    if |p| > 1 {
      assert p[..|p| - 1][0] == p[0] && p[..|p| - 1][1..] == p[1..][..|p| - 2];
      if q != [] {
        LookupPut(v.fields[p[0]], p[1..], x, q[1..]);
        if p[0] == q[0] {
          assert p == [p[0]] + p[1..] && q == [q[0]] + q[1..];
          assert p <= q <==> p[1..] <= q[1..];
          assert q < p <==> q[1..] < p[1..];
          assert p <= q ==> q[|p|..] == q[1..][|p| - 1..];
        }
      }
    } else if q != [] {
      assert p == [p[0]] && q == [q[0]] + q[1..];
      assert p <= q <==> p[0] == q[0];
    }
  }
}
