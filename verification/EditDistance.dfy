/**
 The string distance that deduplicates errors. The program fills a matrix and takes the
 diagonal whenever two characters agree; what it promises is the least number of edits. Both
 are defined here independently of each other and proved equal.
 */
module EditDistance {

  // ------------------------------------------------------------------ what an edit is

  datatype Edit =
    | Insert(at: nat, c: char)
    | Delete(at: nat)
    | Substitute(at: nat, c: char)

  ghost predicate Applicable(e: Edit, s: string) {
    match e
    case Insert(at, _) => at <= |s|
    case Delete(at) => at < |s|
    case Substitute(at, _) => at < |s|
  }

  ghost function Apply(e: Edit, s: string): string
    requires Applicable(e, s)
  {
    match e
    case Insert(at, c) => s[..at] + [c] + s[at..]
    case Delete(at) => s[..at] + s[at + 1..]
    case Substitute(at, c) => s[at := c]
  }

  /** Applying the edits of `script` in order turns `s` into `t`. */
  ghost predicate Rewrites(script: seq<Edit>, s: string, t: string) {
    if script == [] then s == t
    else Applicable(script[0], s) && Rewrites(script[1..], Apply(script[0], s), t)
  }

  /** `d` edits suffice and fewer do not. */
  ghost predicate IsEditDistance(s: string, t: string, d: nat) {
    && (exists script :: Rewrites(script, s, t) && |script| == d)
    && (forall script :: Rewrites(script, s, t) ==> d <= |script|)
  }

  // ------------------------------------------------------------------ what the matrix holds

  function Min(a: nat, b: nat): nat {
    if a < b then a else b
  }

  /** The entry of the matrix for two prefixes, by the recurrence of the nested loops. */
  ghost function Lev(s: string, t: string): nat
    decreases |s| + |t|
  {
    if s == "" then |t|
    else if t == "" then |s|
    else
      var s', t' := s[..|s| - 1], t[..|t| - 1];
      if s[|s| - 1] == t[|t| - 1] then Lev(s', t')
      else 1 + Min(Lev(s', t'), Min(Lev(s', t), Lev(s, t')))
  }

  /** `levenshteinDistance`: the least number of edits that turn `a` into `b`. */
  method LevenshteinDistance(a: string, b: string) returns (d: nat)
    ensures d == Lev(a, b) && IsEditDistance(a, b, d)
  {
    hide *;
    LevEdge(a, b);
    var matrix := new nat[|b| + 1, |a| + 1];
    for i := 0 to |b| + 1
      invariant forall k :: 0 <= k < i ==> matrix[k, 0] == k
    {
      matrix[i, 0] := i;
    }
    for j := 0 to |a| + 1
      invariant forall k :: 0 <= k <= |b| ==> matrix[k, 0] == k
      invariant forall k :: 0 <= k < j ==> matrix[0, k] == k
    {
      matrix[0, j] := j;
    }
    for i := 1 to |b| + 1
      invariant forall k :: 0 <= k <= |b| ==> matrix[k, 0] == k
      invariant forall k, l :: 0 <= k < i && 0 <= l <= |a| ==> matrix[k, l] == Lev(a[..l], b[..k])
    {
      for j := 1 to |a| + 1
        invariant forall k :: 0 <= k <= |b| ==> matrix[k, 0] == k
        invariant forall k, l :: 0 <= k < i && 0 <= l <= |a| ==> matrix[k, l] == Lev(a[..l], b[..k])
        invariant forall l :: 0 <= l < j ==> matrix[i, l] == Lev(a[..l], b[..i])
      {
        LevEntry(a, b, i, j);
        if b[i - 1] == a[j - 1] {
          matrix[i, j] := matrix[i - 1, j - 1];
        } else {
          matrix[i, j] := Min(matrix[i - 1, j - 1] + 1, Min(matrix[i, j - 1] + 1, matrix[i - 1, j] + 1));
        }
      }
    }
    assert a[..|a|] == a && b[..|b|] == b;
    LevIsEditDistance(a, b);
    d := matrix[|b|, |a|];
  }

  lemma LevEdge(a: string, b: string)
    ensures forall i :: 0 <= i <= |b| ==> Lev(a[..0], b[..i]) == i
    ensures forall j :: 0 <= j <= |a| ==> Lev(a[..j], b[..0]) == j
  {
  }

  lemma LevEntry(a: string, b: string, i: nat, j: nat)
    requires 1 <= i <= |b| && 1 <= j <= |a|
    ensures Lev(a[..j], b[..i]) ==
      if b[i - 1] == a[j - 1] then Lev(a[..j - 1], b[..i - 1])
      else Min(Lev(a[..j - 1], b[..i - 1]) + 1, Min(Lev(a[..j - 1], b[..i]) + 1, Lev(a[..j], b[..i - 1]) + 1))
  {
    assert a[..j][..j - 1] == a[..j - 1] && b[..i][..i - 1] == b[..i - 1];
  }

  // ------------------------------------------------------------------ metric laws of the recurrence

  lemma {:induction false} LevSymmetric(s: string, t: string)
    ensures Lev(s, t) == Lev(t, s)
    decreases |s| + |t|
  {
    if s != "" && t != "" {
      var s', t' := s[..|s| - 1], t[..|t| - 1];
      LevSymmetric(s', t');
      LevSymmetric(s', t);
      LevSymmetric(s, t');
    }
  }

  /** One character more or less at the end moves the distance by at most one. */
  lemma {:induction false} LevLipschitz(s: string, x: char, t: string)
    ensures Lev(s + [x], t) <= Lev(s, t) + 1
    ensures Lev(s, t) <= Lev(s + [x], t) + 1
    decreases |s| + |t|
  {
    var sx := s + [x];
    assert sx[..|sx| - 1] == s;
    if t != "" {
      var t', y := t[..|t| - 1], t[|t| - 1];
      assert t == t' + [y];
      LevLipschitz(t', y, s);
      LevSymmetric(s, t);
      LevSymmetric(s, t');
      LevLipschitz(s, x, t');
    }
  }

  // ------------------------------------------------------------------ fewer edits do not suffice

  /** No string tells the two apart by more than one edit. */
  ghost predicate Near(u: string, v: string) {
    forall t :: Lev(u, t) <= Lev(v, t) + 1 && Lev(v, t) <= Lev(u, t) + 1
  }

  lemma {:induction false} NearSnoc(u: string, v: string, x: char, t: string)
    requires Near(u, v)
    ensures Lev(u + [x], t) <= Lev(v + [x], t) + 1
    ensures Lev(v + [x], t) <= Lev(u + [x], t) + 1
    decreases |t|
  {
    var ux, vx := u + [x], v + [x];
    assert ux[..|ux| - 1] == u && vx[..|vx| - 1] == v;
    assert Lev(u, t) <= Lev(v, t) + 1 && Lev(v, t) <= Lev(u, t) + 1;
    if t == "" {
    } else {
      var t' := t[..|t| - 1];
      assert Lev(u, t') <= Lev(v, t') + 1 && Lev(v, t') <= Lev(u, t') + 1;
      NearSnoc(u, v, x, t');
    }
  }

  lemma {:induction false} NearAppend(u: string, v: string, w: string)
    requires Near(u, v)
    ensures Near(u + w, v + w)
  {
    if w == "" {
      assert u + w == u && v + w == v;
    } else {
      var w', x := w[..|w| - 1], w[|w| - 1];
      NearAppend(u, v, w');
      forall t {
        NearSnoc(u + w', v + w', x, t);
      }
      assert u + w == (u + w') + [x] && v + w == (v + w') + [x];
    }
  }

  lemma NearLonger(p: string, c: char)
    ensures Near(p, p + [c]) && Near(p + [c], p)
  {
    forall t {
      LevLipschitz(p, c, t);
    }
  }

  lemma {:induction false} LevSubstitute(p: string, c: char, d: char, t: string)
    ensures Lev(p + [c], t) <= Lev(p + [d], t) + 1
    decreases |t|
  {
    var pc, pd := p + [c], p + [d];
    assert pc[..|pc| - 1] == p && pd[..|pd| - 1] == p;
    if t != "" {
      var t', y := t[..|t| - 1], t[|t| - 1];
      assert t == t' + [y];
      LevSubstitute(p, c, d, t');
      LevLipschitz(t', y, p);
      LevSymmetric(p, t);
      LevSymmetric(p, t');
      LevLipschitz(p, d, t');
    }
  }

  lemma NearSubstituted(p: string, c: char, d: char)
    ensures Near(p + [c], p + [d])
  {
    forall t
      ensures Lev(p + [c], t) <= Lev(p + [d], t) + 1 && Lev(p + [d], t) <= Lev(p + [c], t) + 1
    {
      LevSubstitute(p, c, d, t);
      LevSubstitute(p, d, c, t);
    }
  }

  /** A single edit moves the distance to any string by at most one. */
  lemma EditIsNear(e: Edit, s: string)
    requires Applicable(e, s)
    ensures Near(s, Apply(e, s))
  {
    match e
    case Insert(at, c) =>
      NearLonger(s[..at], c);
      NearAppend(s[..at], s[..at] + [c], s[at..]);
      assert s == s[..at] + s[at..];
    case Delete(at) =>
      NearLonger(s[..at], s[at]);
      NearAppend(s[..at] + [s[at]], s[..at], s[at + 1..]);
      assert s == s[..at] + [s[at]] + s[at + 1..];
    case Substitute(at, c) =>
      NearSubstituted(s[..at], s[at], c);
      NearAppend(s[..at] + [s[at]], s[..at] + [c], s[at + 1..]);
      assert s == s[..at] + [s[at]] + s[at + 1..];
      assert s[at := c] == s[..at] + [c] + s[at + 1..];
  }

  lemma {:induction false} LevSelf(s: string)
    ensures Lev(s, s) == 0
  {
    if s != "" {
      LevSelf(s[..|s| - 1]);
    }
  }

  lemma {:induction false} ScriptIsLongEnough(script: seq<Edit>, s: string, t: string)
    requires Rewrites(script, s, t)
    ensures Lev(s, t) <= |script|
  {
    if script == [] {
      LevSelf(s);
    } else {
      var s' := Apply(script[0], s);
      EditIsNear(script[0], s);
      ScriptIsLongEnough(script[1..], s', t);
      assert Lev(s, t) <= Lev(s', t) + 1;
    }
  }

  // ------------------------------------------------------------------ so many edits suffice

  lemma {:induction false} RewritesConcat(e1: seq<Edit>, e2: seq<Edit>, s: string, t: string, u: string)
    requires Rewrites(e1, s, t) && Rewrites(e2, t, u)
    ensures Rewrites(e1 + e2, s, u)
  {
    if e1 == [] {
      assert e1 + e2 == e2;
    } else {
      assert (e1 + e2)[1..] == e1[1..] + e2;
      RewritesConcat(e1[1..], e2, Apply(e1[0], s), t, u);
    }
  }

  /** Edits of a prefix do not disturb the character behind it. */
  lemma {:induction false} RewritesSnoc(script: seq<Edit>, s: string, t: string, x: char)
    requires Rewrites(script, s, t)
    ensures Rewrites(script, s + [x], t + [x])
  {
    if script != [] {
      var e := script[0];
      RewritesSnoc(script[1..], Apply(e, s), t, x);
      ApplySnoc(e, s, x);
      hide Apply, Applicable;
    }
  }

  lemma ApplySnoc(e: Edit, s: string, x: char)
    requires Applicable(e, s)
    ensures Applicable(e, s + [x]) && Apply(e, s + [x]) == Apply(e, s) + [x]
  {
  }

  lemma RewritesThen(script: seq<Edit>, e: Edit, s: string, t: string)
    requires Rewrites(script, s, t) && Applicable(e, t)
    ensures Rewrites(script + [e], s, Apply(e, t))
  {
    assert [e][1..] == [];
    assert Rewrites([e], t, Apply(e, t));
    RewritesConcat(script, [e], s, t, Apply(e, t));
  }

  lemma InsertLast(script: seq<Edit>, s: string, t: string, y: char)
    requires Rewrites(script, s, t)
    ensures Rewrites(script + [Insert(|t|, y)], s, t + [y])
  {
    RewritesThen(script, Insert(|t|, y), s, t);
    assert Apply(Insert(|t|, y), t) == t + [y];
  }

  lemma DeleteLast(script: seq<Edit>, s: string, t: string, x: char)
    requires Rewrites(script, s, t)
    ensures Rewrites(script + [Delete(|t|)], s + [x], t)
  {
    RewritesSnoc(script, s, t, x);
    RewritesThen(script, Delete(|t|), s + [x], t + [x]);
    assert Apply(Delete(|t|), t + [x]) == t;
  }

  lemma SubstituteLast(script: seq<Edit>, s: string, t: string, x: char, y: char)
    requires Rewrites(script, s, t)
    ensures Rewrites(script + [Substitute(|t|, y)], s + [x], t + [y])
  {
    RewritesSnoc(script, s, t, x);
    RewritesThen(script, Substitute(|t|, y), s + [x], t + [x]);
    assert Apply(Substitute(|t|, y), t + [x]) == t + [y];
  }

  /** A script read off the matrix, from the corner back to the start. */
  lemma {:induction false} BestScript(s: string, t: string) returns (script: seq<Edit>)
    ensures Rewrites(script, s, t) && |script| == Lev(s, t)
    decreases |s| + |t|, 1
  {
    if s == "" && t == "" {
      return [];
    }
    var s', t' := if s == "" then s else s[..|s| - 1], if t == "" then t else t[..|t| - 1];
    assert s != "" ==> s == s' + [s[|s| - 1]];
    assert t != "" ==> t == t' + [t[|t| - 1]];
    if s == "" {
      script := BestScript(s, t');
      InsertLast(script, s, t', t[|t| - 1]);
      script := script + [Insert(|t'|, t[|t| - 1])];
    } else if t == "" {
      script := BestScript(s', t);
      DeleteLast(script, s', t, s[|s| - 1]);
      script := script + [Delete(|t|)];
    } else {
      script := BestScriptInside(s', t', s[|s| - 1], t[|t| - 1]);
    }
  }

  lemma {:induction false} BestScriptInside(s: string, t: string, x: char, y: char) returns (script: seq<Edit>)
    ensures Rewrites(script, s + [x], t + [y]) && |script| == Lev(s + [x], t + [y])
    decreases |s| + |t| + 2, 0
  {
    var sx, ty := s + [x], t + [y];
    assert sx[..|sx| - 1] == s && ty[..|ty| - 1] == t;
    if x == y {
      script := BestScript(s, t);
      RewritesSnoc(script, s, t, x);
    } else if Lev(sx, ty) == 1 + Lev(s, t) {
      script := BestScript(s, t);
      SubstituteLast(script, s, t, x, y);
      script := script + [Substitute(|t|, y)];
    } else if Lev(sx, ty) == 1 + Lev(s, ty) {
      script := BestScript(s, ty);
      DeleteLast(script, s, ty, x);
      script := script + [Delete(|ty|)];
    } else {
      script := BestScript(sx, t);
      InsertLast(script, sx, t, y);
      script := script + [Insert(|t|, y)];
    }
  }

  // ------------------------------------------------------------------ main results

  /** The corner of the matrix is the least number of edits, although matches are taken greedily. */
  lemma LevIsEditDistance(s: string, t: string)
    ensures IsEditDistance(s, t, Lev(s, t))
  {
    var script := BestScript(s, t);
    forall other | Rewrites(other, s, t)
      ensures Lev(s, t) <= |other|
    {
      ScriptIsLongEnough(other, s, t);
    }
  }

  lemma LevZero(s: string, t: string)
    ensures Lev(s, t) == 0 <==> s == t
  {
    var script := BestScript(s, t);
    LevSelf(s);
  }

  lemma LevTriangle(s: string, t: string, u: string)
    ensures Lev(s, u) <= Lev(s, t) + Lev(t, u)
  {
    var first := BestScript(s, t);
    var second := BestScript(t, u);
    RewritesConcat(first, second, s, t, u);
    ScriptIsLongEnough(first + second, s, u);
  }

  lemma {:induction false} LevBounds(s: string, t: string)
    ensures Lev(s, t) <= if |s| > |t| then |s| else |t|
    ensures Lev(s, t) >= if |s| > |t| then |s| - |t| else |t| - |s|
    decreases |s| + |t|
  {
    if s != "" && t != "" {
      var s', t' := s[..|s| - 1], t[..|t| - 1];
      LevBounds(s', t');
      LevBounds(s', t);
      LevBounds(s, t');
    }
  }

  // ------------------------------------------------------------------ similarity

  /** `stringSimilarity`: an empty string is similar to nothing, not even to itself. */
  ghost function Similarity(a: string, b: string): real {
    if a == "" || b == "" then 0.0
    else
      var maxLen := if |a| > |b| then |a| else |b|;
      1.0 - Lev(a, b) as real / maxLen as real
  }

  lemma SimilarityLaws(a: string, b: string)
    ensures 0.0 <= Similarity(a, b) <= 1.0
    ensures Similarity(a, b) == Similarity(b, a)
    ensures Similarity(a, b) == 1.0 <==> a == b && a != ""
  {
    LevBounds(a, b);
    LevSymmetric(a, b);
    LevZero(a, b);
    if a != "" && b != "" {
      UnitFraction(Lev(a, b), if |a| > |b| then |a| else |b|);
    }
  }

  function Longer(a: string, b: string): nat {
    if |a| > |b| then |a| else |b|
  }

  /** `d` parts of `m`. */
  function Share(d: nat, m: nat): real
    requires m > 0
  {
    d as real / m as real
  }

  /** `x` of the whole `m` is `d`. */
  ghost predicate IsShareOf(d: nat, x: real, m: nat) {
    x * m as real == d as real
  }

  lemma ShareOf(d: nat, m: nat)
    requires m > 0
    ensures IsShareOf(d, Share(d, m), m)
  {
  }

  /** Comparing a share with a number is comparing its parts with that part of the whole. */
  lemma ShareAgainst(d: nat, m: nat, y: real)
    requires m > 0
    ensures Share(d, m) > y <==> d as real > y * m as real
    ensures Share(d, m) < y <==> (d as real) < y * m as real
  {
    ShareOf(d, m);
    hide Share;
    Scale(Share(d, m), y, m as real);
    Scale(y, Share(d, m), m as real);
  }

  lemma Scale(x: real, y: real, z: real)
    requires z > 0.0
    ensures x > y <==> x * z > y * z
  {
  }

  /** The similarity of non-empty strings, by the number of edits and the longer length. */
  lemma SimilarityCountsEdits(a: string, b: string)
    requires a != "" && b != ""
    ensures exists d :: IsEditDistance(a, b, d) && IsShareOf(d, 1.0 - Similarity(a, b), Longer(a, b))
  {
    hide *;
    LevIsEditDistance(a, b);
    SimilarityIsShare(a, b);
    ShareOf(Lev(a, b), Longer(a, b));
    assert 1.0 - Similarity(a, b) == Share(Lev(a, b), Longer(a, b));
  }

  lemma SimilarityIsShare(a: string, b: string)
    requires a != "" && b != ""
    ensures Longer(a, b) > 0 && Similarity(a, b) == 1.0 - Share(Lev(a, b), Longer(a, b))
  {
    hide Lev;
  }

  lemma OneDistance(a: string, b: string, d: nat, e: nat)
    requires IsEditDistance(a, b, d) && IsEditDistance(a, b, e)
    ensures d == e
  {
    hide Rewrites;
  }

  /** Strings are more than 0.8 similar exactly when fewer than a fifth of the longer one is edited. */
  lemma SimilarAboveFourFifths(a: string, b: string, d: nat)
    requires IsEditDistance(a, b, d)
    ensures Similarity(a, b) > 0.8 <==> a != "" && b != "" && 5 * d < Longer(a, b)
  {
    hide *;
    LevIsEditDistance(a, b);
    OneDistance(a, b, d, Lev(a, b));
    if a != "" && b != "" {
      SimilarityIsShare(a, b);
      ShareAgainst(d, Longer(a, b), 0.2);
    } else {
      EmptyIsDissimilar(a, b);
    }
  }

  lemma EmptyIsDissimilar(a: string, b: string)
    requires a == "" || b == ""
    ensures Similarity(a, b) == 0.0
  {
  }

  lemma UnitFraction(d: nat, m: nat)
    requires d <= m && m > 0
    ensures 0.0 <= d as real / m as real <= 1.0
    ensures d as real / m as real == 0.0 <==> d == 0
  {
  }

  method StringSimilarity(a: string, b: string) returns (r: real)
    ensures r == Similarity(a, b)
    ensures a == "" || b == "" ==> r == 0.0
    ensures a != "" && b != "" ==>
      exists d :: IsEditDistance(a, b, d) && IsShareOf(d, 1.0 - r, Longer(a, b))
  {
    if a == "" || b == "" {
      EmptyIsDissimilar(a, b);
      return 0.0;
    }
    SimilarityCountsEdits(a, b);
    SimilarityIsShare(a, b);
    hide IsEditDistance, Lev, Similarity, Share, IsShareOf;
    var distance := LevenshteinDistance(a, b);
    var maxLen := if |a| > |b| then |a| else |b|;
    r := 1.0 - Share(distance, maxLen);
  }
}
