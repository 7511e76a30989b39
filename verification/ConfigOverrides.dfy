/**
 Writing environment overrides into a loaded configuration, and reading values back.
 */
module ConfigOverriding {
  import J = Json
  import opened Options

  /**
   A value of the running program. An array is an object in JavaScript: besides its items it can
   be given named properties, and an override whose way leads through one does that.
   */
  datatype Node =
    | Null
    | Bool(b: bool)
    | Number(n: real)
    | String(s: string)
    | Array(items: seq<J.Item>, fields: map<J.Key, Node>)
    | Object(fields: map<J.Key, Node>)
  {
    predicate HasFields() {
      Object? || Array?
    }

    /** An assignment to a property. */
    function With(k: J.Key, x: Node): Node
      requires HasFields()
    {
      this.(fields := fields[k := x])
    }
  }

  /** A value as it was parsed: arrays have items only. */
  ghost function Loaded(v: J.Value): Node {
    match v
    case Null => Null
    case Bool(b) => Bool(b)
    case Number(n) => Number(n)
    case String(s) => String(s)
    case Array(items) => Array(items, map[])
    case Object(fields) => Object(map k | k in fields :: Loaded(fields[k]))
  }

  /** The value at a path, if every step before it leads through something with properties. */
  ghost function Find(v: Node, p: J.Path): Option<Node>
    decreases |p|
  {
    if p == [] then Some(v)
    else if v.HasFields() && p[0] in v.fields then Find(v.fields[p[0]], p[1..])
    else None
  }

  lemma FindStep(v: Node, k: J.Key, p: J.Path)
    ensures Find(v, [k] + p) == if v.HasFields() && k in v.fields then Find(v.fields[k], p) else None
  {
    assert ([k] + p)[1..] == p;
  }

  lemma {:induction false} FindConcat(v: Node, p: J.Path, q: J.Path)
    ensures Find(v, p + q) == if Find(v, p).Some? then Find(Find(v, p).value, q) else None
    decreases |p|
  {
    if p == [] {
      assert p + q == q;
    } else {
      assert (p + q)[1..] == p[1..] + q;
      if v.HasFields() && p[0] in v.fields {
        FindConcat(v.fields[p[0]], p[1..], q);
      }
    }
  }

  /** In a configuration as parsed, this is the look-up along objects. */
  lemma {:induction false} FindLoaded(v: J.Value, p: J.Path)
    ensures Find(Loaded(v), p) == if J.Lookup(v, p).Some? then Some(Loaded(J.Lookup(v, p).value)) else None
    decreases |p|
  {
    if p != [] && v.Object? && p[0] in v.fields {
      FindLoaded(v.fields[p[0]], p[1..]);
    }
  }

  // ------------------------------------------------------------------ one override

  /** `typeof v === 'object'`. */
  predicate IsObjectType(v: Node) {
    v.HasFields() || v.Null?
  }

  /** Where one step of the way leads: an empty object is created unless there is an object, an array or null. */
  function Below(v: Node, k: J.Key): Node
    requires v.HasFields()
  {
    if k in v.fields && IsObjectType(v.fields[k]) then v.fields[k] else Object(map[])
  }

  /**
   One override. A null on the way passes the `typeof` test and makes the next access throw,
   which is `None`.
   */
  function Write(v: Node, p: J.Path, x: Node): Option<Node>
    requires v.HasFields() && p != []
    decreases |p|
  {
    if |p| == 1 then Some(v.With(p[0], x))
    else
      var below := Below(v, p[0]);
      var written := if below.Null? then None else Write(below, p[1..], x);
      if written.None? then None else Some(v.With(p[0], written.value))
  }

  /** A null stands on the way to the last key. */
  ghost predicate NullAbove(v: Node, p: J.Path) {
    exists i :: 0 < i < |p| && Find(v, p[..i]) == Some(Null)
  }

  lemma NullAboveLoaded(v: J.Value, p: J.Path)
    ensures NullAbove(Loaded(v), p) <==> exists i :: 0 < i < |p| && J.Lookup(v, p[..i]) == Some(J.Null)
  {
    forall i | 0 < i < |p|
      ensures Find(Loaded(v), p[..i]) == Some(Null) <==> J.Lookup(v, p[..i]) == Some(J.Null)
    {
      FindLoaded(v, p[..i]);
    }
  }

  lemma NullAboveStep(v: Node, k: J.Key, p: J.Path)
    requires v.HasFields() && p != []
    ensures NullAbove(v, [k] + p) <==> k in v.fields && (v.fields[k].Null? || NullAbove(v.fields[k], p))
  {
    var kp := [k] + p;
    assert kp[..1] == [k] + [];
    FindStep(v, k, []);
    forall i | 0 < i < |p|
      ensures kp[..i + 1] == [k] + p[..i]
      ensures Find(v, kp[..i + 1]) == if k in v.fields then Find(v.fields[k], p[..i]) else None
    {
      assert kp[..i + 1] == [k] + p[..i];
      FindStep(v, k, p[..i]);
    }
    if NullAbove(v, kp) {
      var i :| 0 < i < |kp| && Find(v, kp[..i]) == Some(Null);
      assert i == 1 || Find(v, kp[..(i - 1) + 1]) == Find(v.fields[k], p[..i - 1]);
    }
    if k in v.fields && NullAbove(v.fields[k], p) {
      var i :| 0 < i < |p| && Find(v.fields[k], p[..i]) == Some(Null);
      assert Find(v, kp[..i + 1]) == Some(Null);
    }
  }

  lemma NothingAboveLeaf(v: Node, p: J.Path)
    requires !v.HasFields() || v.fields == map[]
    ensures !NullAbove(v, p) && (p != [] ==> Find(v, p).None?)
  {
  }

  /** A write throws exactly when a null stands on the way. */
  lemma {:induction false} WriteThrows(v: Node, p: J.Path, x: Node)
    requires v.HasFields() && p != []
    ensures Write(v, p, x).None? <==> NullAbove(v, p)
    ensures Write(v, p, x).Some? ==> Write(v, p, x).value.HasFields()
    decreases |p|
  {
    if |p| > 1 {
      var k, q := p[0], p[1..];
      assert p == [k] + q;
      NullAboveStep(v, k, q);
      var below := Below(v, k);
      if below.HasFields() {
        WriteThrows(below, q, x);
      }
      NothingAboveLeaf(Object(map[]), q);
      if k in v.fields && !v.fields[k].HasFields() {
        NothingAboveLeaf(v.fields[k], q);
      }
    }
  }

  /** What a write stores at the first key of its path. */
  ghost function Stored(v: Node, p: J.Path, x: Node): Option<Node>
    requires v.HasFields() && p != []
  {
    if |p| == 1 then Some(x)
    else if Below(v, p[0]).Null? then None
    else Write(Below(v, p[0]), p[1..], x)
  }

  lemma WriteStores(v: Node, p: J.Path, x: Node)
    requires v.HasFields() && p != []
    ensures Write(v, p, x) == if Stored(v, p, x).None? then None else Some(v.With(p[0], Stored(v, p, x).value))
  {
  }

  /**
   What a write changes: the written path and what lies below or above it, nothing beside it.
   What lies above and had properties keeps its kind and its items.
   */
  lemma {:induction false} FindWrite(v: Node, p: J.Path, x: Node, q: J.Path)
    requires v.HasFields() && p != [] && Write(v, p, x).Some?
    ensures p <= q ==> Find(Write(v, p, x).value, q) == Find(x, q[|p|..])
    ensures q < p ==>
      && Find(Write(v, p, x).value, q).Some?
      && var after, before := Find(Write(v, p, x).value, q).value, Find(v, q);
         if before.Some? && before.value.HasFields() then
           after.HasFields() && after == before.value.(fields := after.fields)
         else after.Object?
    ensures !(p <= q) && !(q < p) ==> Find(Write(v, p, x).value, q) == Find(v, q)
    decreases |p|
  {
    hide Write, NullAbove;
    WriteStores(v, p, x);
    if q != [] && q[0] == p[0] && |p| > 1 {
      SameHead(p, q);
      FindWrite(Below(v, p[0]), p[1..], x, q[1..]);
      NothingAboveLeaf(Object(map[]), q[1..]);
    } else if q != [] && |p| == 1 {
      assert p <= q <==> q[0] == p[0];
    }
  }

  lemma SameHead(p: J.Path, q: J.Path)
    requires p != [] && q != [] && p[0] == q[0]
    ensures p <= q <==> p[1..] <= q[1..]
    ensures q < p <==> q[1..] < p[1..]
    ensures p <= q ==> q[|p|..] == q[1..][|p| - 1..]
  {
    assert p == [p[0]] + p[1..] && q == [q[0]] + q[1..];
  }

  type Override = (J.Path, Node)

  ghost predicate Apart(p: J.Path, q: J.Path) {
    !(p <= q) && !(q <= p)
  }

  ghost predicate AllApart(ws: seq<Override>) {
    && (forall i :: 0 <= i < |ws| ==> ws[i].0 != [])
    && (forall i, j :: 0 <= i < j < |ws| ==> Apart(ws[i].0, ws[j].0))
  }

  /** The loop of `applyEnvVarOverrides`; it ends at the first write that throws. */
  ghost function WriteAll(v: Node, ws: seq<Override>): Option<Node>
    requires v.HasFields() && AllApart(ws)
    decreases |ws|
  {
    if ws == [] then Some(v)
    else
      var written := Write(v, ws[0].0, ws[0].1);
      if written.None? then None
      else
        WriteThrows(v, ws[0].0, ws[0].1);
        WriteAll(written.value, ws[1..])
  }

  /** A write puts no null on the way of another one, and takes none away. */
  lemma NullAside(v: Node, p: J.Path, x: Node, q: J.Path)
    requires v.HasFields() && p != [] && Write(v, p, x).Some? && Apart(p, q)
    ensures NullAbove(Write(v, p, x).value, q) <==> NullAbove(v, q)
  {
    var w := Write(v, p, x).value;
    WriteThrows(v, p, x);
    forall i | 0 < i < |q|
      ensures Find(w, q[..i]) == Some(Null) <==> Find(v, q[..i]) == Some(Null)
    {
      FindWrite(v, p, x, q[..i]);
      if q[..i] < p {
        assert q[..i] == p[..i];
      }
    }
  }

  /** The loop throws exactly when a null stands on the way of some override in the configuration as loaded. */
  lemma {:induction false} WriteAllThrows(v: Node, ws: seq<Override>)
    requires v.HasFields() && AllApart(ws)
    ensures WriteAll(v, ws).None? <==> exists i :: 0 <= i < |ws| && NullAbove(v, ws[i].0)
    decreases |ws|
  {
    if ws != [] {
      var (p, x) := ws[0];
      WriteThrows(v, p, x);
      if Write(v, p, x).Some? {
        var next := Write(v, p, x).value;
        WriteAllThrows(next, ws[1..]);
        forall i | 1 <= i < |ws|
          ensures NullAbove(next, ws[i].0) <==> NullAbove(v, ws[i].0)
          ensures ws[1..][i - 1] == ws[i]
        {
          NullAside(v, p, x, ws[i].0);
        }
        assert forall i :: 0 <= i < |ws[1..]| ==> ws[1..][i] == ws[i + 1];
      }
    }
  }

  /** Every override can be read back after all of them have been written. */
  lemma {:induction false} OverridesReadBack(v: Node, ws: seq<Override>, q: J.Path)
    requires v.HasFields() && AllApart(ws) && WriteAll(v, ws).Some?
    ensures (forall i :: 0 <= i < |ws| ==> Apart(ws[i].0, q)) ==> Find(WriteAll(v, ws).value, q) == Find(v, q)
    ensures forall i :: 0 <= i < |ws| && ws[i].0 == q ==> Find(WriteAll(v, ws).value, q) == Some(ws[i].1)
    decreases |ws|
  {
    if ws != [] {
      var (p, x) := ws[0];
      WriteThrows(v, p, x);
      OverridesReadBack(Write(v, p, x).value, ws[1..], q);
      FindWrite(v, p, x, q);
      assert forall i :: 1 <= i < |ws| ==> ws[i] == ws[1..][i - 1];
    }
  }

  ghost function WriteTwo(v: Node, p: J.Path, x: Node, q: J.Path, y: Node): Option<Node>
    requires v.HasFields() && p != [] && q != []
  {
    var first := Write(v, p, x);
    if first.None? || !first.value.HasFields() then None else Write(first.value, q, y)
  }

  lemma WithTwice(v: Node, k: J.Key, x: Node, l: J.Key, y: Node)
    requires v.HasFields()
    ensures v.With(k, x).HasFields() && Below(v.With(k, x), l) == if k != l then Below(v, l)
              else if IsObjectType(x) then x else Object(map[])
    ensures v.With(k, x).With(l, y) == if k == l then v.With(l, y) else v.With(l, y).With(k, x)
  {
    if k == l {
      assert v.fields[k := x][l := y] == v.fields[l := y];
    } else {
      assert v.fields[k := x][l := y] == v.fields[l := y][k := x];
    }
  }

  /** Two overrides whose paths lie apart may be written in either order. */
  lemma {:induction false} WritesCommute(v: Node, p: J.Path, x: Node, q: J.Path, y: Node)
    requires v.HasFields() && p != [] && q != [] && Apart(p, q)
    ensures WriteTwo(v, p, x, q, y) == WriteTwo(v, q, y, p, x)
    decreases |p|
  {
    hide Write, WriteTwo;
    if p[0] != q[0] {
      WritesElsewhere(v, p, x, q, y);
      WritesElsewhere(v, q, y, p, x);
      if Stored(v, p, x).Some? && Stored(v, q, y).Some? {
        WithTwice(v, p[0], Stored(v, p, x).value, q[0], Stored(v, q, y).value);
      }
    } else {
      SameHead(p, q);
      SameHead(q, p);
      WritesInside(v, p, x, q, y);
      WritesInside(v, q, y, p, x);
      if Below(v, p[0]).HasFields() {
        WritesCommute(Below(v, p[0]), p[1..], x, q[1..], y);
      }
    }
  }

  lemma WritesElsewhere(v: Node, p: J.Path, x: Node, q: J.Path, y: Node)
    requires v.HasFields() && p != [] && q != [] && p[0] != q[0]
    ensures
      var a, b := Stored(v, p, x), Stored(v, q, y);
      WriteTwo(v, p, x, q, y) ==
        if a.None? || b.None? then None else Some(v.With(p[0], a.value).With(q[0], b.value))
  {
    hide Write;
    WriteStores(v, p, x);
    if Stored(v, p, x).Some? {
      var first := v.With(p[0], Stored(v, p, x).value);
      WithTwice(v, p[0], Stored(v, p, x).value, q[0], x);
      WriteStores(first, q, y);
    }
  }

  lemma WritesInside(v: Node, p: J.Path, x: Node, q: J.Path, y: Node)
    requires v.HasFields() && |p| > 1 && |q| > 1 && p[0] == q[0]
    ensures
      var below := Below(v, p[0]);
      var inner := if below.Null? then None else WriteTwo(below, p[1..], x, q[1..], y);
      WriteTwo(v, p, x, q, y) == if inner.None? then None else Some(v.With(p[0], inner.value))
  {
    var below := Below(v, p[0]);
    if below.HasFields() {
      WriteThrows(below, p[1..], x);
    }
    hide Write;
    WriteStores(v, p, x);
    var stored := Stored(v, p, x);
    if stored.Some? {
      var first := v.With(p[0], stored.value);
      WithTwice(v, p[0], stored.value, p[0], x);
      WriteStores(first, q, y);
      if Stored(first, q, y).Some? {
        WithTwice(v, p[0], stored.value, p[0], Stored(first, q, y).value);
      }
    }
  }

  /** Moving an override to the front changes nothing. */
  lemma {:induction false} WriteFirst(v: Node, ws: seq<Override>, i: nat)
    requires v.HasFields() && AllApart(ws) && i < |ws|
    ensures AllApart([ws[i]] + ws[..i] + ws[i + 1..])
    ensures WriteAll(v, ws) == WriteAll(v, [ws[i]] + ws[..i] + ws[i + 1..])
    decreases i
  {
    var moved := [ws[i]] + ws[..i] + ws[i + 1..];
    if i == 0 {
      assert moved == ws;
    } else {
      // swap with the neighbour on the left, then go on from there
      var swapped := ws[i - 1 := ws[i]][i := ws[i - 1]];
      SwapNeighbours(v, ws, i - 1);
      hide WriteAll, AllApart;
      WriteFirst(v, swapped, i - 1);
      MovedTwice(ws, i);
    }
  }

  /** Swapping with the left neighbour first changes nothing about the result of a move to the front. */
  lemma MovedTwice(ws: seq<Override>, i: nat)
    requires 0 < i < |ws|
    ensures
      var swapped := ws[i - 1 := ws[i]][i := ws[i - 1]];
      [swapped[i - 1]] + swapped[..i - 1] + swapped[i - 1 + 1..] == [ws[i]] + ws[..i] + ws[i + 1..]
  {
    var swapped := ws[i - 1 := ws[i]][i := ws[i - 1]];
    assert swapped[..i - 1] == ws[..i - 1] && swapped[i..] == [ws[i - 1]] + ws[i + 1..];
    assert ws[..i] == ws[..i - 1] + [ws[i - 1]];
  }

  lemma {:induction false} SwapNeighbours(v: Node, ws: seq<Override>, i: nat)
    requires v.HasFields() && AllApart(ws) && i + 1 < |ws|
    ensures
      var swapped := ws[i := ws[i + 1]][i + 1 := ws[i]];
      AllApart(swapped) && WriteAll(v, ws) == WriteAll(v, swapped)
    decreases i
  {
    var swapped := ws[i := ws[i + 1]][i + 1 := ws[i]];
    assert AllApart(swapped);
    WriteThrows(v, ws[0].0, ws[0].1);
    if i > 0 {
      if Write(v, ws[0].0, ws[0].1).Some? {
        SwapNeighbours(Write(v, ws[0].0, ws[0].1).value, ws[1..], i - 1);
        assert swapped[1..] == ws[1..][i - 1 := ws[1..][i]][i := ws[1..][i - 1]];
      }
    } else {
      WritesCommute(v, ws[0].0, ws[0].1, ws[1].0, ws[1].1);
      WriteThrows(v, ws[1].0, ws[1].1);
      TwoFirst(v, ws);
      TwoFirst(v, swapped);
      assert ws[2..] == swapped[2..];
    }
  }

  lemma TwoFirst(v: Node, ws: seq<Override>)
    requires v.HasFields() && AllApart(ws) && |ws| >= 2
    ensures
      var two := WriteTwo(v, ws[0].0, ws[0].1, ws[1].0, ws[1].1);
      && (two.Some? ==> two.value.HasFields())
      && WriteAll(v, ws) == if two.None? then None else WriteAll(two.value, ws[2..])
  {
    var (p, x) := ws[0];
    var (q, y) := ws[1];
    WriteThrows(v, p, x);
    if Write(v, p, x).Some? {
      WriteThrows(Write(v, p, x).value, q, y);
      assert ws[1..][0] == ws[1] && ws[1..][1..] == ws[2..];
    }
  }

  /** The order of the override table does not matter. */
  lemma {:induction false} OrderDoesNotMatter(v: Node, ws: seq<Override>, us: seq<Override>)
    requires v.HasFields() && AllApart(ws) && AllApart(us) && multiset(ws) == multiset(us)
    ensures WriteAll(v, ws) == WriteAll(v, us)
    decreases |ws|
  {
    hide *;
    if ws == [] {
      assert |multiset(us)| == 0;
    } else {
      var i := WithoutFirst(ws, us);
      var moved := [us[i]] + us[..i] + us[i + 1..];
      WriteFirst(v, us, i);
      WriteAllCons(v, ws);
      WriteAllCons(v, moved);
      assert moved[1..] == us[..i] + us[i + 1..];
      if Write(v, ws[0].0, ws[0].1).Some? {
        OrderDoesNotMatter(Write(v, ws[0].0, ws[0].1).value, ws[1..], moved[1..]);
      }
    }
  }

  lemma WriteAllCons(v: Node, ws: seq<Override>)
    requires v.HasFields() && AllApart(ws) && ws != []
    ensures ws[0].0 != [] && AllApart(ws[1..])
    ensures
      var written := Write(v, ws[0].0, ws[0].1);
      && (written.Some? ==> written.value.HasFields())
      && WriteAll(v, ws) == if written.None? then None else WriteAll(written.value, ws[1..])
  {
    WriteThrows(v, ws[0].0, ws[0].1);
    hide Write;
  }

  lemma WithoutFirst(ws: seq<Override>, us: seq<Override>) returns (i: nat)
    requires ws != [] && multiset(ws) == multiset(us)
    ensures i < |us| && us[i] == ws[0]
    ensures multiset(ws[1..]) == multiset(us[..i] + us[i + 1..])
  {
    assert ws[0] in multiset(us);
    i :| 0 <= i < |us| && us[i] == ws[0];
    assert us == us[..i] + [us[i]] + us[i + 1..] && ws == [ws[0]] + ws[1..];
    DropOne(us, i);
    DropOne(ws, 0);
    assert ws[..0] + ws[0 + 1..] == ws[1..];
  }

  lemma DropOne(us: seq<Override>, i: nat)
    requires i < |us|
    ensures multiset(us[..i] + us[i + 1..]) == multiset(us) - multiset{us[i]}
  {
    assert us == us[..i] + [us[i]] + us[i + 1..];
  }

  // ------------------------------------------------------------------ the table of overrides

  const OVERRIDE_PATHS: seq<J.Path> := [
    ["server", "port"], ["server", "host"], ["server", "rateLimit"],
    ["database", "url"], ["redis", "url"], ["auth", "jwtSecret"],
    ["logging", "level"], ["metrics", "enabled"],
    ["openclaw", "gatewayUrl"], ["openclaw", "gatewayUrls"], ["openclaw", "gatewayToken"],
    ["openclaw", "maxConcurrentSessions"], ["openclaw", "perGatewayMaxConcurrentSessions"],
    ["openclaw", "autoStartGateway"], ["openclaw", "gatewayStartCommand"],
    ["openclaw", "gatewayStartupTimeoutMs"], ["openclaw", "gatewayStartupProbeIntervalMs"]
  ]

  /** Lengths, and one letter where they agree, tell the paths of the table apart. */
  function Fingerprint(p: J.Path): int
    requires |p| == 2
  {
    |p[0]| * 100 + |p[1]| + if p[1] != "" && p[1][0] == 'h' then 50 else 0
  }

  const FINGERPRINTS := [604, 654, 609, 803, 503, 409, 705, 707, 810, 811, 812, 821, 831, 816, 819, 823, 829]

  lemma TableFingerprint(i: nat)
    requires i < |OVERRIDE_PATHS|
    ensures |OVERRIDE_PATHS| == |FINGERPRINTS| == 17
    ensures |OVERRIDE_PATHS[i]| == 2 && Fingerprint(OVERRIDE_PATHS[i]) == FINGERPRINTS[i]
  {
    assert i in {0, 1, 2, 3, 4, 5, 6, 7, 8, 9, 10, 11, 12, 13, 14, 15, 16};
  }

  lemma TablePathsApart(i: nat, j: nat)
    requires i < j < |OVERRIDE_PATHS|
    ensures Apart(OVERRIDE_PATHS[i], OVERRIDE_PATHS[j])
  {
    TableFingerprint(i);
    TableFingerprint(j);
    assert FINGERPRINTS[i] != FINGERPRINTS[j];
    assert OVERRIDE_PATHS[i] != OVERRIDE_PATHS[j];
    hide *;
    SameLengthApart(OVERRIDE_PATHS[i], OVERRIDE_PATHS[j]);
  }

  lemma SameLengthApart(p: J.Path, q: J.Path)
    requires |p| == |q| && p != q
    ensures Apart(p, q)
  {
  }

  /** The overrides whose variable is set, from the `i`th line of the table on. */
  function Selected(values: seq<Option<Node>>, i: nat): seq<Override>
    requires |values| == |OVERRIDE_PATHS| && i <= |values|
    decreases |values| - i
  {
    if i == |values| then []
    else (if values[i].Some? then [(OVERRIDE_PATHS[i], values[i].value)] else []) + Selected(values, i + 1)
  }

  ghost predicate InTable(values: seq<Option<Node>>, i: nat, w: Override)
    requires |values| == |OVERRIDE_PATHS|
  {
    exists j :: i <= j < |values| && w.0 == OVERRIDE_PATHS[j] && values[j] == Some(w.1)
  }

  lemma {:induction false} SelectedMembers(values: seq<Option<Node>>, i: nat)
    requires |values| == |OVERRIDE_PATHS| && i <= |values|
    ensures forall w :: w in Selected(values, i) <==> InTable(values, i, w)
    decreases |values| - i
  {
    hide OVERRIDE_PATHS;
    if i < |values| {
      SelectedMembers(values, i + 1);
      forall w
        ensures w in Selected(values, i) <==> InTable(values, i, w)
      {
        TableLine(values, i, w);
      }
    }
  }

  lemma TableLine(values: seq<Option<Node>>, i: nat, w: Override)
    requires |values| == |OVERRIDE_PATHS| && i < |values|
    ensures InTable(values, i, w) <==>
      InTable(values, i + 1, w) || (w.0 == OVERRIDE_PATHS[i] && values[i] == Some(w.1))
  {
    hide OVERRIDE_PATHS;
  }

  lemma {:induction false} SelectedIsApart(values: seq<Option<Node>>, i: nat)
    requires |values| == |OVERRIDE_PATHS| && i <= |values|
    ensures AllApart(Selected(values, i))
    decreases |values| - i
  {
    hide OVERRIDE_PATHS;
    if i < |values| {
      SelectedIsApart(values, i + 1);
      SelectedMembers(values, i + 1);
      TableFingerprint(i);
      var rest := Selected(values, i + 1);
      forall k | 0 <= k < |rest|
        ensures Apart(OVERRIDE_PATHS[i], rest[k].0)
      {
        assert rest[k] in rest;
        var j :| i + 1 <= j < |values| && rest[k].0 == OVERRIDE_PATHS[j];
        TablePathsApart(i, j);
      }
    }
  }

  /**
   `applyEnvVarOverrides`: all variables that are set are written, or the program throws, exactly
   when a null stands on the way of one of them. Afterwards each can be read back.
   */
  method ApplyEnvVarOverrides(config: Node, values: seq<Option<Node>>) returns (r: Option<Node>)
    requires config.HasFields() && |values| == |OVERRIDE_PATHS|
    ensures AllApart(Selected(values, 0)) && r == WriteAll(config, Selected(values, 0))
    ensures r.None? <==>
      exists i :: 0 <= i < |values| && values[i].Some? && NullAbove(config, OVERRIDE_PATHS[i])
    ensures r.Some? ==>
      forall i :: 0 <= i < |values| && values[i].Some? ==> Find(r.value, OVERRIDE_PATHS[i]) == values[i]
  {
    SelectedIsApart(values, 0);
    ghost var ws := Selected(values, 0);
    var current := config;
    for i := 0 to |values|
      invariant current.HasFields() && AllApart(Selected(values, i))
      invariant WriteAll(config, ws) == WriteAll(current, Selected(values, i))
    {
      SelectedIsApart(values, i + 1);
      if values[i].Some? {
        TableFingerprint(i);
        WriteThrows(current, OVERRIDE_PATHS[i], values[i].value);
        assert Selected(values, i)[1..] == Selected(values, i + 1);
        var written := Write(current, OVERRIDE_PATHS[i], values[i].value);
        if written.None? {
          OverridesOutcome(config, values);
          return None;
        }
        current := written.value;
      } else {
        assert Selected(values, i) == Selected(values, i + 1);
      }
    }
    OverridesOutcome(config, values);
    r := Some(current);
  }

  lemma OverridesOutcome(config: Node, values: seq<Option<Node>>)
    requires config.HasFields() && |values| == |OVERRIDE_PATHS|
    ensures AllApart(Selected(values, 0))
    ensures
      var r := WriteAll(config, Selected(values, 0));
      && (r.None? <==> exists i :: 0 <= i < |values| && values[i].Some? && NullAbove(config, OVERRIDE_PATHS[i]))
      && (r.Some? ==>
            forall i :: 0 <= i < |values| && values[i].Some? ==> Find(r.value, OVERRIDE_PATHS[i]) == values[i])
  {
    var ws := Selected(values, 0);
    SelectedIsApart(values, 0);
    SelectedMembers(values, 0);
    WriteAllThrows(config, ws);
    forall i | 0 <= i < |values| && values[i].Some?
      ensures exists k :: 0 <= k < |ws| && ws[k] == (OVERRIDE_PATHS[i], values[i].value)
      ensures WriteAll(config, ws).Some? ==> Find(WriteAll(config, ws).value, OVERRIDE_PATHS[i]) == values[i]
    {
      assert InTable(values, 0, (OVERRIDE_PATHS[i], values[i].value));
      if WriteAll(config, ws).Some? {
        OverridesReadBack(config, ws, OVERRIDE_PATHS[i]);
      }
    }
    forall k | 0 <= k < |ws|
      ensures InTable(values, 0, ws[k])
    {
    }
  }

  /** `getConfigValue`: null and missing values give the default. */
  method GetConfigValue(config: Node, parts: J.Path, default: Option<Node>) returns (r: Option<Node>)
    ensures
      var found := Find(config, parts);
      r == if found.Some? && found != Some(Null) then found else default
  {
    var current := Some(config);
    for i := 0 to |parts|
      invariant current == Find(config, parts[..i])
    {
      assert parts[..i + 1] == parts[..i] + [parts[i]];
      FindConcat(config, parts[..i], [parts[i]]);
      if current.None? || !current.value.HasFields() {
        MissingStaysMissing(config, parts, i);
        return default;
      }
      current := if parts[i] in current.value.fields then Some(current.value.fields[parts[i]]) else None;
    }
    assert parts[..|parts|] == parts;
    r := if current.Some? && current != Some(Null) then current else default;
  }

  lemma MissingStaysMissing(v: Node, p: J.Path, i: nat)
    requires i < |p| && (Find(v, p[..i]).None? || !Find(v, p[..i]).value.HasFields())
    ensures Find(v, p).None?
  {
    FindConcat(v, p[..i], p[i..]);
    assert p == p[..i] + p[i..];
  }
}
