/**
 Splitting and joining strings at a separator.
 */
module Strings {

  /** `t.split(sep)` for a separator of one character. */
  function Split(t: string, sep: char): (parts: seq<string>)
    ensures parts != []
  {
    if t == "" then [""]
    else
      var rest := Split(t[1..], sep);
      if t[0] == sep then [""] + rest else [[t[0]] + rest[0]] + rest[1..]
  }

  /** `parts.join(sep)`. */
  function Join(parts: seq<string>, sep: char): string
    requires parts != []
  {
    if |parts| == 1 then parts[0] else parts[0] + [sep] + Join(parts[1..], sep)
  }

  ghost predicate Lacks(parts: seq<string>, sep: char) {
    forall i :: 0 <= i < |parts| ==> sep !in parts[i]
  }

  lemma JoinCons(c: char, parts: seq<string>, sep: char)
    requires parts != []
    ensures Join([[c] + parts[0]] + parts[1..], sep) == [c] + Join(parts, sep)
  {
    var longer := [[c] + parts[0]] + parts[1..];
    assert longer[1..] == parts[1..] && longer[0] == [c] + parts[0];
    if |parts| > 1 {
      ConsBefore(c, parts[0], sep, Join(parts[1..], sep));
    }
  }

  lemma ConsBefore(c: char, u: string, sep: char, v: string)
    ensures ([c] + u) + [sep] + v == [c] + (u + [sep] + v)
  {
  }

  lemma {:induction false} JoinSplit(t: string, sep: char)
    ensures Join(Split(t, sep), sep) == t
  {
    if t != "" {
      JoinSplit(t[1..], sep);
      if t[0] == sep {
        assert Split(t, sep)[1..] == Split(t[1..], sep);
        assert t == "" + [sep] + t[1..];
      } else {
        JoinCons(t[0], Split(t[1..], sep), sep);
      }
    }
  }

  lemma {:induction false} SplitLacks(t: string, sep: char)
    ensures Lacks(Split(t, sep), sep)
  {
    if t != "" {
      SplitLacks(t[1..], sep);
    }
  }

  lemma {:induction false} SplitAlone(t: string, sep: char)
    requires sep !in t
    ensures Split(t, sep) == [t]
  {
    if t != "" {
      SplitAlone(t[1..], sep);
      assert [t[0]] + t[1..] == t;
    }
  }

  lemma {:induction false} SplitAt(u: string, v: string, sep: char)
    ensures Split(u + [sep] + v, sep) == Split(u, sep) + Split(v, sep)
  {
    var t := u + [sep] + v;
    if u == "" {
      assert t == [sep] + v && t[1..] == v;
    } else {
      assert t[1..] == u[1..] + [sep] + v;
      SplitAt(u[1..], v, sep);
    }
  }

  lemma {:induction false} SplitJoin(parts: seq<string>, sep: char)
    requires parts != [] && Lacks(parts, sep)
    ensures Split(Join(parts, sep), sep) == parts
  {
    SplitAlone(parts[0], sep);
    if |parts| == 1 {
      assert parts == [parts[0]];
    } else {
      SplitJoin(parts[1..], sep);
      SplitAt(parts[0], Join(parts[1..], sep), sep);
      assert parts == [parts[0]] + parts[1..];
    }
  }

  lemma {:induction false} JoinAt(parts: seq<string>, j: nat, sep: char)
    requires 1 <= j < |parts|
    ensures Join(parts, sep) == Join(parts[..j], sep) + [sep] + Join(parts[j..], sep)
  {
    if j == 1 {
      assert parts[..1] == [parts[0]];
    } else {
      JoinAt(parts[1..], j - 1, sep);
      assert parts[..j][1..] == parts[1..][..j - 1] && parts[1..][j - 1..] == parts[j..];
      var u, v, w := parts[0], Join(parts[1..][..j - 1], sep), Join(parts[j..], sep);
      assert u + [sep] + (v + [sep] + w) == (u + [sep] + v) + [sep] + w;
    }
  }

  lemma {:induction false} SplitCharacters(t: string, i: nat, c: char, sep: char)
    requires i < |Split(t, sep)| && c in Split(t, sep)[i]
    ensures c in t
    decreases |t|
  {
    if t != "" {
      var rest := Split(t[1..], sep);
      if t[0] == sep {
        SplitCharacters(t[1..], i - 1, c, sep);
      } else if i > 0 {
        SplitCharacters(t[1..], i, c, sep);
      } else if c != t[0] {
        assert c in rest[0];
        SplitCharacters(t[1..], 0, c, sep);
      }
    }
  }
}
