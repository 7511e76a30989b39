/**
 Topic patterns of the message bus. A pattern is rewritten into the text of a regular
 expression by four replacements; what it is for is matching dot-separated segments.
 */
module TopicPatterns {
  import opened Options
  import opened Strings

  // ------------------------------------------------------------------ rewriting the pattern

  predicate IsSpecial(c: char) {
    c in ".+^$()|[]\\"
  }

  /** Puts a backslash before every special character. */
  function Escape(s: string): string {
    if s == "" then ""
    else (if IsSpecial(s[0]) then ['\\', s[0]] else [s[0]]) + Escape(s[1..])
  }

  /** The text `([^\.]+)` and the text `(.*)`. */
  const SEGMENT := "([^\\.]+)"
  const ANYTHING := "(.*)"

  /** The number of characters before the first closing brace, or the length of `s`. */
  function UntilBrace(s: string): nat {
    if s == "" || s[0] == '}' then 0 else 1 + UntilBrace(s[1..])
  }

  /** Replaces every match of `\{[^}]+\}` from the left. */
  function ReplaceBraces(s: string): string
    decreases |s|
  {
    if s == "" then ""
    else
      var n := UntilBrace(s[1..]);
      if s[0] == '{' && n >= 1 && n + 1 < |s| then SEGMENT + ReplaceBraces(s[n + 2..])
      else [s[0]] + ReplaceBraces(s[1..])
  }

  /** Replaces every star that does not follow a backslash; `escaped` says whether the first one does. */
  function ReplaceStars(s: string, escaped: bool): string {
    if s == "" then ""
    else (if s[0] == '*' && !escaped then SEGMENT else [s[0]]) + ReplaceStars(s[1..], s[0] == '\\')
  }

  function ReplaceHashes(s: string): string {
    if s == "" then ""
    else (if s[0] == '#' then ANYTHING else [s[0]]) + ReplaceHashes(s[1..])
  }

  /** The text between `^` and `$` that `patternToRegex` builds. */
  function PatternToRegex(pattern: string): string {
    ReplaceHashes(ReplaceStars(ReplaceBraces(Escape(pattern)), false))
  }

  // ------------------------------------------------------------------ meaning of the regular expression

  datatype Item =
    | Literal(c: char)
    | OneSegment
    | Anything

  /** Reads the fragment of regular expressions that the rewriting can produce; anything else is `None`. */
  function ParseRegex(r: string): Option<seq<Item>>
    decreases |r|
  {
    if r == "" then Some([])
    else if SEGMENT <= r then Prepend(OneSegment, ParseRegex(r[|SEGMENT|..]))
    else if ANYTHING <= r then Prepend(Anything, ParseRegex(r[|ANYTHING|..]))
    else if r[0] == '\\' then
      if |r| >= 2 && IsSpecial(r[1]) then Prepend(Literal(r[1]), ParseRegex(r[2..])) else None
    else if IsSpecial(r[0]) || r[0] in "*?{" then None
    else Prepend(Literal(r[0]), ParseRegex(r[1..]))
  }

  function Prepend(item: Item, items: Option<seq<Item>>): Option<seq<Item>> {
    if items.None? then None else Some([item] + items.value)
  }

  /** What the dot of a regular expression does not match. */
  predicate IsLineTerminator(c: char) {
    c == '\n' || c == '\r' || c == '\U{2028}' || c == '\U{2029}'
  }

  predicate OneLine(t: string) {
    forall c :: c in t ==> !IsLineTerminator(c)
  }

  /** The items match the whole text, with any way of splitting it. */
  ghost predicate Accepts(items: seq<Item>, t: string)
    decreases |items|
  {
    if items == [] then t == ""
    else match items[0]
      case Literal(c) => t != "" && t[0] == c && Accepts(items[1..], t[1..])
      case OneSegment => exists k :: 1 <= k <= |t| && '.' !in t[..k] && Accepts(items[1..], t[k..])
      case Anything =>
        exists k :: 0 <= k <= |t| && OneLine(t[..k]) && Accepts(items[1..], t[k..])
  }

  // ------------------------------------------------------------------ well-formed patterns

  predicate IsBraces(seg: string) {
    |seg| >= 3 && seg[0] == '{' && seg[|seg| - 1] == '}' && '}' !in seg[..|seg| - 1]
  }

  predicate IsLiteral(seg: string) {
    forall c :: c in seg ==> c !in "*#{?\\"
  }

  /** A wildcard fills its whole segment, and the other segments hold no character with a meaning of its own. */
  predicate WellFormedSegment(seg: string) {
    seg == "*" || seg == "#" || IsBraces(seg) || IsLiteral(seg)
  }

  ghost predicate WellFormed(pattern: string) {
    forall i :: 0 <= i < |Split(pattern, '.')| ==> WellFormedSegment(Split(pattern, '.')[i])
  }

  predicate SegmentAccepts(seg: string, part: string) {
    if seg == "*" || IsBraces(seg) then part != "" else seg == part
  }

  ghost predicate AllOneLine(parts: seq<string>) {
    forall i :: 0 <= i < |parts| ==> OneLine(parts[i])
  }

  /**
   The promise of the documentation: `*` and `{x}` stand for one segment, `#` for one or more. The
   program adds that `#` stands only for segments without line terminators.
   */
  ghost predicate SegmentsMatch(segs: seq<string>, parts: seq<string>)
    decreases |segs|
  {
    if segs == [] then parts == []
    else if segs[0] == "#" then
      exists k :: 1 <= k <= |parts| && AllOneLine(parts[..k]) && SegmentsMatch(segs[1..], parts[k..])
    else parts != [] && SegmentAccepts(segs[0], parts[0]) && SegmentsMatch(segs[1..], parts[1..])
  }

  function Letters(s: string): seq<Item> {
    seq(|s|, i requires 0 <= i < |s| => Literal(s[i]))
  }

  function SegmentItems(seg: string): seq<Item> {
    if seg == "*" || IsBraces(seg) then [OneSegment] else if seg == "#" then [Anything] else Letters(seg)
  }

  function PatternItems(segs: seq<string>): seq<Item>
    requires segs != []
  {
    if |segs| == 1 then SegmentItems(segs[0])
    else SegmentItems(segs[0]) + [Literal('.')] + PatternItems(segs[1..])
  }

  // ------------------------------------------------------------------ the rewriting, segment by segment

  lemma {:induction false} EscapeConcat(u: string, v: string)
    ensures Escape(u + v) == Escape(u) + Escape(v)
  {
    if u == "" {
      assert u + v == v;
    } else {
      assert (u + v)[1..] == u[1..] + v;
      EscapeConcat(u[1..], v);
    }
  }

  lemma {:induction false} BracesSkip(u: string, v: string)
    requires '{' !in u
    ensures ReplaceBraces(u + v) == u + ReplaceBraces(v)
  {
    hide UntilBrace;
    if u == "" {
      assert u + v == v;
    } else {
      var c, tail := u[0], u[1..];
      assert u == [c] + tail && c != '{' && '{' !in tail;
      assert (u + v)[1..] == tail + v;
      BracesSkip(tail, v);
      assert [c] + (tail + ReplaceBraces(v)) == u + ReplaceBraces(v);
    }
  }

  lemma {:induction false} UntilBraceOf(x: string, v: string)
    requires '}' !in x
    ensures UntilBrace(x + "}" + v) == |x|
  {
    if x == "" {
      assert x + "}" + v == "}" + v;
    } else {
      assert (x + "}" + v)[1..] == x[1..] + "}" + v;
      UntilBraceOf(x[1..], v);
    }
  }

  lemma BracesTake(x: string, v: string)
    requires x != "" && '}' !in x
    ensures ReplaceBraces("{" + x + "}" + v) == SEGMENT + ReplaceBraces(v)
  {
    var s := "{" + x + "}" + v;
    assert s[1..] == x + "}" + v;
    UntilBraceOf(x, v);
    assert s[|x| + 2..] == v;
  }

  lemma {:induction false} StarsSkip(u: string, v: string, escaped: bool)
    requires '*' !in u
    ensures ReplaceStars(u + v, escaped)
         == u + ReplaceStars(v, if u == "" then escaped else u[|u| - 1] == '\\')
  {
    if u == "" {
      assert u + v == v;
    } else {
      var c, tail := u[0], u[1..];
      assert c in u && u == [c] + tail && (u + v)[1..] == tail + v && '*' !in tail;
      assert ReplaceStars(u + v, escaped) == [c] + ReplaceStars(tail + v, c == '\\');
      StarsSkip(tail, v, c == '\\');
    }
  }

  lemma {:induction false} HashesSkip(u: string, v: string)
    requires '#' !in u
    ensures ReplaceHashes(u + v) == u + ReplaceHashes(v)
  {
    if u == "" {
      assert u + v == v;
    } else {
      assert (u + v)[1..] == u[1..] + v;
      HashesSkip(u[1..], v);
      assert u == [u[0]] + u[1..];
    }
  }

  /** Escaping adds backslashes only, and never at the end. */
  lemma {:induction false} EscapeCharacters(s: string)
    ensures forall c :: c in Escape(s) ==> c == '\\' || c in s
    ensures s != "" ==> Escape(s) != "" && Escape(s)[|Escape(s)| - 1] == s[|s| - 1]
  {
    if s != "" {
      EscapeCharacters(s[1..]);
    }
  }

  /** What the rewriting makes of one segment. */
  function SegmentText(seg: string): string {
    if seg == "*" || IsBraces(seg) then SEGMENT else if seg == "#" then ANYTHING else Escape(seg)
  }

  /** The last two replacements, and all but the first. */
  function Finish(s: string): string {
    ReplaceHashes(ReplaceStars(s, false))
  }

  lemma LiteralText(seg: string, rest: string)
    requires IsLiteral(seg)
    ensures Finish(ReplaceBraces(Escape(seg) + rest)) == Escape(seg) + Finish(ReplaceBraces(rest))
  {
    EscapeCharacters(seg);
    var e := Escape(seg);
    BracesSkip(e, rest);
    StarsSkip(e, ReplaceBraces(rest), false);
    assert e != "" ==> e[|e| - 1] in seg;
    HashesSkip(e, ReplaceStars(ReplaceBraces(rest), false));
  }

  lemma BracesText(seg: string, rest: string)
    requires IsBraces(seg)
    ensures Finish(ReplaceBraces(Escape(seg) + rest)) == SEGMENT + Finish(ReplaceBraces(rest))
  {
    var x := EscapedBraces(seg);
    hide ReplaceBraces, ReplaceStars, ReplaceHashes, Escape;
    BracesTake(x, rest);
    StarsSkip(SEGMENT, ReplaceBraces(rest), false);
    HashesSkip(SEGMENT, ReplaceStars(ReplaceBraces(rest), false));
  }

  lemma EscapedBraces(seg: string) returns (x: string)
    requires IsBraces(seg)
    ensures x != "" && '}' !in x && Escape(seg) == "{" + x + "}"
  {
    var inner := seg[1..|seg| - 1];
    assert Escape("{") == "{" && Escape("}") == "}";
    EscapeConcat("{" + inner, "}");
    EscapeConcat("{", inner);
    EscapeCharacters(inner);
    x := Escape(inner);
    hide Escape;
    assert seg == "{" + inner + "}";
  }

  lemma WildcardText(seg: string, rest: string)
    requires seg == "*" || seg == "#"
    ensures Finish(ReplaceBraces(Escape(seg) + rest)) == SegmentText(seg) + Finish(ReplaceBraces(rest))
  {
    var r := ReplaceBraces(rest);
    assert Escape(seg) == seg;
    BracesSkip(seg, rest);
    assert (seg + r)[1..] == r;
    if seg == "*" {
      assert ReplaceStars(seg + r, false) == SEGMENT + ReplaceStars(r, false);
      HashesSkip(SEGMENT, ReplaceStars(r, false));
    } else {
      var q := ReplaceStars(r, false);
      assert ReplaceStars(seg + r, false) == seg + q;
      assert (seg + q)[1..] == q;
    }
  }

  lemma SegmentIsRewritten(seg: string, rest: string)
    requires WellFormedSegment(seg)
    ensures Finish(ReplaceBraces(Escape(seg) + rest)) == SegmentText(seg) + Finish(ReplaceBraces(rest))
  {
    if IsBraces(seg) {
      BracesText(seg, rest);
    } else if seg == "*" || seg == "#" {
      WildcardText(seg, rest);
    } else {
      LiteralText(seg, rest);
    }
  }

  function PatternText(segs: seq<string>): string
    requires segs != []
  {
    if |segs| == 1 then SegmentText(segs[0]) else SegmentText(segs[0]) + "\\." + PatternText(segs[1..])
  }

  lemma {:induction false} PatternIsRewritten(segs: seq<string>)
    requires segs != [] && forall i :: 0 <= i < |segs| ==> WellFormedSegment(segs[i])
    ensures PatternToRegex(Join(segs, '.')) == PatternText(segs)
  {
    if |segs| == 1 {
      SegmentIsRewritten(segs[0], "");
      assert Escape(segs[0]) + "" == Escape(segs[0]);
      assert SegmentText(segs[0]) + "" == SegmentText(segs[0]);
    } else {
      FirstSegmentIsRewritten(segs[0], Join(segs[1..], '.'));
      PatternIsRewritten(segs[1..]);
    }
  }

  lemma EscapedDot()
    ensures Escape(".") == "\\." && IsLiteral(".")
  {
  }

  lemma RegexIsFinished(pattern: string)
    ensures PatternToRegex(pattern) == Finish(ReplaceBraces(Escape(pattern)))
  {
  }

  lemma FirstSegmentIsRewritten(seg: string, tail: string)
    requires WellFormedSegment(seg)
    ensures PatternToRegex(seg + "." + tail) == SegmentText(seg) + "\\." + PatternToRegex(tail)
  {
    hide *;
    EscapedDot();
    RegexIsFinished(tail);
    RegexIsFinished(seg + "." + tail);
    var rest := Escape(".") + Escape(tail);
    EscapeConcat(seg + ".", tail);
    EscapeConcat(seg, ".");
    assert Escape(seg + "." + tail) == Escape(seg) + rest;
    SegmentIsRewritten(seg, rest);
    LiteralText(".", Escape(tail));
    assert (SegmentText(seg) + "\\.") + PatternToRegex(tail) == SegmentText(seg) + ("\\." + PatternToRegex(tail));
  }

  // ------------------------------------------------------------------ reading the expression back

  function Append(items: seq<Item>, rest: Option<seq<Item>>): Option<seq<Item>> {
    if rest.None? then None else Some(items + rest.value)
  }

  lemma {:induction false} ParseLiteral(s: string, rest: string)
    requires IsLiteral(s)
    ensures ParseRegex(Escape(s) + rest) == Append(Letters(s), ParseRegex(rest))
  {
    if s == "" {
      assert Escape(s) + rest == rest;
      AppendLaws(Literal('.'), [], ParseRegex(rest));
      assert Letters(s) == [];
    } else {
      var c, tail := s[0], s[1..];
      assert c !in "*#{?\\" by {
        assert c in s;
      }
      assert IsLiteral(tail) && Letters(s) == [Literal(c)] + Letters(tail);
      assert s == [c] + tail;
      hide *;
      EscapeConcat([c], tail);
      assert Escape(s) + rest == Escape([c]) + (Escape(tail) + rest);
      ParseLiteral(tail, rest);
      ParseLetter(c, Escape(tail) + rest);
      AppendLaws(Literal(c), Letters(tail), ParseRegex(rest));
    }
  }

  lemma AppendLaws(item: Item, items: seq<Item>, rest: Option<seq<Item>>)
    ensures Append([item] + items, rest) == Prepend(item, Append(items, rest))
    ensures Append([], rest) == rest
  {
    if rest.Some? {
      assert [item] + items + rest.value == [item] + (items + rest.value);
      assert [] + rest.value == rest.value;
    }
  }

  lemma ParseLetter(c: char, rest: string)
    requires c !in "*#{?\\"
    ensures ParseRegex(Escape([c]) + rest) == Prepend(Literal(c), ParseRegex(rest))
  {
    var text := Escape([c]) + rest;
    assert text[0] == if IsSpecial(c) then '\\' else c;
    assert SEGMENT[0] == '(' && ANYTHING[0] == '(';
    assert text[|Escape([c])|..] == rest;
  }

  lemma ParseSegment(seg: string, rest: string)
    requires WellFormedSegment(seg)
    ensures ParseRegex(SegmentText(seg) + rest) == Append(SegmentItems(seg), ParseRegex(rest))
  {
    var text := SegmentText(seg) + rest;
    if seg == "*" || IsBraces(seg) {
      assert SEGMENT <= text && text[|SEGMENT|..] == rest;
    } else if seg == "#" {
      assert text[1] == '.' && SEGMENT[1] == '[';
      assert ANYTHING <= text && text[|ANYTHING|..] == rest;
    } else {
      ParseLiteral(seg, rest);
    }
  }

  lemma {:induction false} ParsePattern(segs: seq<string>)
    requires segs != [] && forall i :: 0 <= i < |segs| ==> WellFormedSegment(segs[i])
    ensures ParseRegex(PatternText(segs)) == Some(PatternItems(segs))
  {
    if |segs| == 1 {
      ParseSegment(segs[0], "");
      assert SegmentText(segs[0]) + "" == SegmentText(segs[0]);
      assert SegmentItems(segs[0]) + [] == SegmentItems(segs[0]);
    } else {
      var tail := PatternText(segs[1..]);
      ParsePattern(segs[1..]);
      ParseLetter('.', tail);
      assert Escape(".") == "\\.";
      ParseSegment(segs[0], "\\." + tail);
      hide ParseRegex, Escape, SegmentText, SegmentItems, WellFormedSegment;
      assert SegmentText(segs[0]) + "\\." + tail == SegmentText(segs[0]) + ("\\." + tail);
      assert SegmentItems(segs[0]) + ([Literal('.')] + PatternItems(segs[1..])) == PatternItems(segs);
    }
  }

  /** On a well-formed pattern the four replacements build the expression that spells out its segments. */
  lemma PatternToRegexItems(pattern: string)
    requires WellFormed(pattern)
    ensures ParseRegex(PatternToRegex(pattern)) == Some(PatternItems(Split(pattern, '.')))
  {
    JoinSplit(pattern, '.');
    PatternIsRewritten(Split(pattern, '.'));
    ParsePattern(Split(pattern, '.'));
  }

  // ------------------------------------------------------------------ the expression against the segments

  /** Between two segments of a topic there is a dot, and behind it the rest of the segments. */
  lemma DotBehind(t: string, j: nat) returns (k: nat)
    requires 1 <= j < |Split(t, '.')|
    ensures k < |t| && t[k] == '.'
    ensures t[..k] == Join(Split(t, '.')[..j], '.') && Split(t[k + 1..], '.') == Split(t, '.')[j..]
  {
    var parts := Split(t, '.');
    JoinSplit(t, '.');
    SplitLacks(t, '.');
    JoinAt(parts, j, '.');
    SplitJoin(parts[j..], '.');
    k := |Join(parts[..j], '.')|;
    assert t == Join(parts[..j], '.') + "." + Join(parts[j..], '.');
    assert t[k + 1..] == Join(parts[j..], '.');
  }

  lemma SegmentsAroundDot(t: string, k: nat)
    requires k < |t| && t[k] == '.'
    ensures Split(t, '.') == Split(t[..k], '.') + Split(t[k + 1..], '.')
  {
    hide *;
    assert t == t[..k] + "." + t[k + 1..];
    SplitAt(t[..k], t[k + 1..], '.');
  }

  lemma {:induction false} AcceptsLetters(s: string, rest: seq<Item>, t: string)
    ensures Accepts(Letters(s) + rest, t) <==> s <= t && Accepts(rest, t[|s|..])
  {
    var items := Letters(s) + rest;
    if s == "" {
      assert items == rest;
    } else if t != "" && t[0] == s[0] {
      AcceptsLetters(s[1..], rest, t[1..]);
      assert items[1..] == Letters(s[1..]) + rest;
      assert |s| <= |t| ==> t[1..][|s| - 1..] == t[|s|..];
      assert s <= t <==> s[1..] <= t[1..];
    }
  }

  /** A prefix of the text that the items of a segment may take, when `rest` takes the remaining text. */
  ghost predicate Takes(seg: string, u: string) {
    if seg == "#" then OneLine(u)
    else if seg == "*" || IsBraces(seg) then u != "" && '.' !in u
    else u == seg
  }

  lemma AcceptsSegment(seg: string, rest: seq<Item>, t: string)
    requires WellFormedSegment(seg)
    ensures Accepts(SegmentItems(seg) + rest, t) <==>
      exists k :: 0 <= k <= |t| && Takes(seg, t[..k]) && Accepts(rest, t[k..])
  {
    var items := SegmentItems(seg) + rest;
    if seg == "*" || seg == "#" || IsBraces(seg) {
      assert items[1..] == rest;
    } else {
      AcceptsLetters(seg, rest, t);
      if seg <= t {
        assert Takes(seg, t[..|seg|]);
      }
    }
  }

  lemma AcceptsDot(rest: seq<Item>, t: string)
    ensures Accepts([Literal('.')] + rest, t) <==> t != "" && t[0] == '.' && Accepts(rest, t[1..])
  {
    assert ([Literal('.')] + rest)[1..] == rest;
  }

  lemma {:induction false} OneLineSplit(t: string)
    ensures OneLine(t) <==> AllOneLine(Split(t, '.'))
  {
    if t != "" {
      var c, tail := t[0], t[1..];
      var rest := Split(tail, '.');
      OneLineSplit(tail);
      OneLineCons(c, tail);
      assert t == [c] + tail;
      if c == '.' {
        AllOneLineCons("", rest);
      } else {
        OneLineCons(c, rest[0]);
        AllOneLineCons(rest[0], rest[1..]);
        AllOneLineCons([c] + rest[0], rest[1..]);
        assert rest == [rest[0]] + rest[1..];
      }
    }
  }

  lemma AllOneLineCons(part: string, parts: seq<string>)
    ensures AllOneLine([part] + parts) <==> OneLine(part) && AllOneLine(parts)
  {
    hide OneLine;
    var all := [part] + parts;
    assert all[0] == part && forall i :: 0 <= i < |parts| ==> all[i + 1] == parts[i];
  }

  lemma OneLineCons(c: char, t: string)
    ensures OneLine([c] + t) <==> !IsLineTerminator(c) && OneLine(t)
  {
  }

  lemma TakesAll(seg: string, t: string)
    requires WellFormedSegment(seg) && '.' !in seg
    ensures Takes(seg, t) <==> SegmentsMatch([seg], Split(t, '.'))
  {
    var parts := Split(t, '.');
    JoinSplit(t, '.');
    SplitLacks(t, '.');
    if '.' !in t {
      SplitAlone(t, '.');
    }
    if |parts| == 1 {
      assert '.' !in parts[0];
    }
    assert [seg][1..] == [];
    if seg == "#" {
      OneLineSplit(t);
      assert parts[|parts|..] == [] && parts[..|parts|] == parts;
      assert forall k :: 1 <= k <= |parts| && SegmentsMatch([], parts[k..]) ==> k == |parts|;
    }
  }

  /** The expression for the segments accepts a topic exactly when the segments match. */
  lemma {:induction false} AcceptsSegments(segs: seq<string>, t: string)
    requires segs != [] && Lacks(segs, '.')
    requires forall i :: 0 <= i < |segs| ==> WellFormedSegment(segs[i])
    ensures Accepts(PatternItems(segs), t) <==> SegmentsMatch(segs, Split(t, '.'))
    decreases |segs|
  {
    var seg := segs[0];
    if |segs| == 1 {
      AcceptsSegment(seg, [], t);
      assert SegmentItems(seg) + [] == SegmentItems(seg) && segs == [seg];
      TakesAll(seg, t);
      assert t[..|t|] == t;
    } else {
      var rest := PatternItems(segs[1..]);
      assert PatternItems(segs) == SegmentItems(seg) + ([Literal('.')] + rest);
      AcceptsSegment(seg, [Literal('.')] + rest, t);
      forall k | 0 <= k <= |t|
        ensures Takes(seg, t[..k]) && Accepts([Literal('.')] + rest, t[k..]) <==> k < |t| && TakesUpTo(segs, t, k)
      {
        AcceptsDot(rest, t[k..]);
        if k < |t| {
          assert t[k..][1..] == t[k + 1..];
          AcceptsSegments(segs[1..], t[k + 1..]);
        }
      }
      DotForSegment(segs, t);
    }
  }

  /** The first segment takes the text before the dot at `k`, the others match behind it. */
  ghost predicate TakesUpTo(segs: seq<string>, t: string, k: nat)
    requires segs != [] && k < |t|
  {
    Takes(segs[0], t[..k]) && t[k] == '.' && SegmentsMatch(segs[1..], Split(t[k + 1..], '.'))
  }

  lemma DotForSegment(segs: seq<string>, t: string)
    requires |segs| > 1 && '.' !in segs[0] && WellFormedSegment(segs[0])
    ensures SegmentsMatch(segs, Split(t, '.')) <==> exists k :: 0 <= k < |t| && TakesUpTo(segs, t, k)
  {
    hide *;
    if k :| 0 <= k < |t| && TakesUpTo(segs, t, k) {
      TakenMatches(segs, t, k);
    }
    if SegmentsMatch(segs, Split(t, '.')) {
      var k := MatchingIsTaken(segs, t);
    }
  }

  lemma TakenMatches(segs: seq<string>, t: string, k: nat)
    requires |segs| > 1 && '.' !in segs[0] && WellFormedSegment(segs[0])
    requires k < |t| && TakesUpTo(segs, t, k)
    ensures SegmentsMatch(segs, Split(t, '.'))
  {
    SegmentsAroundDot(t, k);
    OneLineSplit(t[..k]);
    hide Split;
    var first, parts := Split(t[..k], '.'), Split(t, '.');
    assert parts[|first|..] == Split(t[k + 1..], '.') && parts[..|first|] == first;
    if segs[0] != "#" {
      SplitAlone(t[..k], '.');
    }
  }

  lemma MatchingIsTaken(segs: seq<string>, t: string) returns (k: nat)
    requires |segs| > 1 && '.' !in segs[0] && WellFormedSegment(segs[0])
    requires SegmentsMatch(segs, Split(t, '.'))
    ensures k < |t| && TakesUpTo(segs, t, k)
  {
    hide Split;
    var parts := Split(t, '.');
    var j := FirstShare(segs, parts);
    k := DotBehind(t, j);
    SplitLacks(t, '.');
    if segs[0] == "#" {
      SplitJoin(parts[..j], '.');
      OneLineSplit(t[..k]);
    } else {
      assert parts[..1] == [parts[0]];
    }
  }

  /** How many segments of the topic the first segment of the pattern takes. */
  lemma FirstShare(segs: seq<string>, parts: seq<string>) returns (j: nat)
    requires |segs| > 1 && SegmentsMatch(segs, parts)
    ensures 1 <= j < |parts| && SegmentsMatch(segs[1..], parts[j..])
    ensures if segs[0] == "#" then AllOneLine(parts[..j]) else j == 1 && SegmentAccepts(segs[0], parts[0])
  {
    if segs[0] == "#" {
      j :| 1 <= j <= |parts| && AllOneLine(parts[..j]) && SegmentsMatch(segs[1..], parts[j..]);
    } else {
      j := 1;
    }
    assert parts[j..] != [];
  }

  // ------------------------------------------------------------------ the message bus

  /** `patternToRegex(pattern).test(topic)`. */
  ghost predicate RegexTest(pattern: string, topic: string) {
    var items := ParseRegex(PatternToRegex(pattern));
    items.Some? && Accepts(items.value, topic)
  }

  /** The regular expression of a well-formed pattern accepts exactly the topics whose segments match. */
  lemma RegexMatchesSegments(pattern: string, topic: string)
    requires WellFormed(pattern)
    ensures RegexTest(pattern, topic) <==> SegmentsMatch(Split(pattern, '.'), Split(topic, '.'))
  {
    PatternToRegexItems(pattern);
    SplitLacks(pattern, '.');
    AcceptsSegments(Split(pattern, '.'), topic);
  }

  predicate HasWildcard(pattern: string) {
    '*' in pattern || '#' in pattern || '{' in pattern
  }

  ghost predicate MatchesPattern(topic: string, pattern: string) {
    topic == pattern || (HasWildcard(pattern) && RegexTest(pattern, topic))
  }

  /** The topic test of `shouldDeliver`, on a subscription made by `subscribe(pattern)`. */
  ghost predicate Delivers(topic: string, pattern: string) {
    if HasWildcard(pattern) then RegexTest(pattern, topic) else pattern == topic
  }

  lemma {:induction false} SegmentsMatchThemselves(segs: seq<string>)
    requires forall i :: 0 <= i < |segs| ==> WellFormedSegment(segs[i])
    ensures SegmentsMatch(segs, segs)
  {
    if segs != [] {
      SegmentsMatchThemselves(segs[1..]);
    }
  }

  /** Without `#` the segments match one by one. */
  lemma {:induction false} MatchOneByOne(segs: seq<string>, parts: seq<string>)
    requires forall i :: 0 <= i < |segs| ==> segs[i] != "#"
    ensures SegmentsMatch(segs, parts) <==>
      |segs| == |parts| && forall i :: 0 <= i < |segs| ==> SegmentAccepts(segs[i], parts[i])
    decreases |segs|
  {
    if segs != [] && parts != [] {
      var more, others := segs[1..], parts[1..];
      MatchOneByOne(more, others);
      assert forall i :: 1 <= i < |segs| ==> segs[i] == more[i - 1];
      assert forall i :: 1 <= i < |parts| ==> parts[i] == others[i - 1];
    }
  }

  lemma WildcardShows(seg: string)
    ensures seg == "*" || seg == "#" || IsBraces(seg) ==> '*' in seg || '#' in seg || '{' in seg
  {
    if seg == "*" || seg == "#" || IsBraces(seg) {
      assert seg[0] in seg;
    }
  }

  /** A pattern without wildcards stands for itself only. */
  lemma PlainPattern(pattern: string, topic: string)
    requires !HasWildcard(pattern)
    ensures SegmentsMatch(Split(pattern, '.'), Split(topic, '.')) <==> topic == pattern
  {
    var segs, parts := Split(pattern, '.'), Split(topic, '.');
    forall i | 0 <= i < |segs|
      ensures segs[i] != "#" && segs[i] != "*" && !IsBraces(segs[i])
    {
      forall c | c in segs[i]
        ensures c in pattern
      {
        SplitCharacters(pattern, i, c, '.');
      }
      WildcardShows(segs[i]);
    }
    hide *;
    MatchOneByOne(segs, parts);
    SameSegments(segs, parts);
    JoinSplit(pattern, '.');
    JoinSplit(topic, '.');
  }

  lemma SameSegments(segs: seq<string>, parts: seq<string>)
    requires forall i :: 0 <= i < |segs| ==> segs[i] != "#" && segs[i] != "*" && !IsBraces(segs[i])
    ensures |segs| == |parts| && (forall i :: 0 <= i < |segs| ==> SegmentAccepts(segs[i], parts[i])) <==> segs == parts
  {
  }

  /** Subscriptions, `matchesPattern` and the documentation agree on every topic. */
  lemma BusDeliversBySegments(topic: string, pattern: string)
    requires WellFormed(pattern)
    ensures Delivers(topic, pattern) <==> SegmentsMatch(Split(pattern, '.'), Split(topic, '.'))
    ensures MatchesPattern(topic, pattern) <==> SegmentsMatch(Split(pattern, '.'), Split(topic, '.'))
  {
    RegexMatchesSegments(pattern, topic);
    SegmentsMatchThemselves(Split(pattern, '.'));
    if !HasWildcard(pattern) {
      PlainPattern(pattern, topic);
    }
  }

  // ------------------------------------------------------------------ the websocket matcher

  /** Part `j` of a subscription lets an event pass; a star does so even beyond the end of the event. */
  ghost predicate PartPasses(subscribed: seq<string>, event: seq<string>, j: nat)
    requires j < |subscribed|
  {
    subscribed[j] == "*" || (j < |event| && subscribed[j] == event[j])
  }

  ghost predicate WebSocketMatches(subscribed: seq<string>, event: seq<string>) {
    || (exists i :: 0 <= i < |subscribed| && subscribed[i] == "#"
          && forall j :: 0 <= j < i ==> PartPasses(subscribed, event, j))
    || (|event| == |subscribed| && forall j :: 0 <= j < |subscribed| ==> PartPasses(subscribed, event, j))
  }

  method MatchesTopic(eventTopic: string, subscribedTopic: string) returns (r: bool)
    ensures r <==> WebSocketMatches(Split(subscribedTopic, '.'), Split(eventTopic, '.'))
    ensures
      var sub, ev := Split(subscribedTopic, '.'), Split(eventTopic, '.');
      r <==>
        || (exists i :: 0 <= i < |sub| && sub[i] == "#"
              && forall j :: 0 <= j < i ==> sub[j] == "*" || (j < |ev| && sub[j] == ev[j]))
        || (|ev| == |sub| && forall j :: 0 <= j < |sub| ==> sub[j] == "*" || sub[j] == ev[j])
  {
    var eventParts, subscribedParts := Split(eventTopic, '.'), Split(subscribedTopic, '.');
    for i := 0 to |subscribedParts|
      invariant forall j :: 0 <= j < i ==> subscribedParts[j] != "#" && PartPasses(subscribedParts, eventParts, j)
    {
      var part := subscribedParts[i];
      if part == "#" {
        return true;
      }
      if part == "*" {
        continue;
      }
      if i >= |eventParts| || part != eventParts[i] {
        assert !PartPasses(subscribedParts, eventParts, i);
        return false;
      }
    }
    return |eventParts| == |subscribedParts|;
  }

  /**
   For patterns whose only wildcard is the star, the bus and the websocket differ on one thing:
   a star of the websocket also accepts an empty segment.
   */
  lemma BusAgainstWebSocket(pattern: string, topic: string)
    requires WellFormed(pattern)
    requires forall i :: 0 <= i < |Split(pattern, '.')| ==>
      Split(pattern, '.')[i] != "#" && !IsBraces(Split(pattern, '.')[i])
    ensures Delivers(topic, pattern) <==>
      && WebSocketMatches(Split(pattern, '.'), Split(topic, '.'))
      && forall i :: 0 <= i < |Split(pattern, '.')| && Split(pattern, '.')[i] == "*" ==> Split(topic, '.')[i] != ""
  {
    BusDeliversBySegments(topic, pattern);
    var segs, parts := Split(pattern, '.'), Split(topic, '.');
    MatchOneByOne(segs, parts);
    hide Split, Delivers, WellFormed, SegmentsMatch;
    if |segs| == |parts| {
      forall i | 0 <= i < |segs|
        ensures SegmentAccepts(segs[i], parts[i]) <==> PartPasses(segs, parts, i) && (segs[i] == "*" ==> parts[i] != "")
      {
      }
    }
  }

  /** A trailing `#` takes what the segments before it leave, at least one segment. */
  lemma {:induction false} MatchWithTail(front: seq<string>, parts: seq<string>)
    requires forall i :: 0 <= i < |front| ==> front[i] != "#"
    ensures SegmentsMatch(front + ["#"], parts) <==>
      && |parts| > |front| && AllOneLine(parts[|front|..])
      && forall i :: 0 <= i < |front| ==> SegmentAccepts(front[i], parts[i])
    decreases |front|
  {
    var segs := front + ["#"];
    if front == [] {
      assert segs == ["#"] && segs[1..] == [] && parts[0..] == parts;
      assert parts[..|parts|] == parts && parts[|parts|..] == [];
      assert forall k :: 1 <= k <= |parts| && SegmentsMatch([], parts[k..]) ==> k == |parts|;
    } else if parts != [] {
      var more, others := front[1..], parts[1..];
      assert segs[0] == front[0] && segs[1..] == more + ["#"];
      MatchWithTail(more, others);
      assert |parts| > |front| ==> others[|more|..] == parts[|front|..];
      assert forall i :: 1 <= i < |front| ==> front[i] == more[i - 1];
      assert forall i :: 1 <= i < |parts| ==> parts[i] == others[i - 1];
    }
  }

  lemma WebSocketWithTail(front: seq<string>, parts: seq<string>)
    requires forall i :: 0 <= i < |front| ==> front[i] != "#"
    ensures WebSocketMatches(front + ["#"], parts) <==> forall j :: 0 <= j < |front| ==> PartPasses(front, parts, j)
  {
    var segs := front + ["#"];
    assert segs[|front|] == "#" && forall j :: 0 <= j < |front| ==> segs[j] == front[j];
    forall j | 0 <= j < |front|
      ensures PartPasses(segs, parts, j) <==> PartPasses(front, parts, j)
    {
    }
    assert forall i :: 0 <= i < |segs| && segs[i] == "#" ==> i == |front|;
  }

  /**
   For patterns that end in their only `#`: the bus delivers exactly what the websocket delivers
   and what also has a segment for the `#`, a non-empty one under every star, and no line
   terminator in the segments of the `#`.
   */
  lemma BusAgainstWebSocketTail(pattern: string, topic: string, front: seq<string>)
    requires WellFormed(pattern) && Split(pattern, '.') == front + ["#"]
    requires forall i :: 0 <= i < |front| ==> front[i] != "#" && !IsBraces(front[i])
    ensures
      var parts := Split(topic, '.');
      Delivers(topic, pattern) <==>
        && WebSocketMatches(Split(pattern, '.'), parts)
        && |parts| > |front| && AllOneLine(parts[|front|..])
        && forall i :: 0 <= i < |front| && front[i] == "*" ==> parts[i] != ""
  {
    BusDeliversBySegments(topic, pattern);
    var parts := Split(topic, '.');
    MatchWithTail(front, parts);
    WebSocketWithTail(front, parts);
    hide Split, Delivers, WellFormed, SegmentsMatch, WebSocketMatches, AllOneLine;
    if |parts| > |front| {
      forall i | 0 <= i < |front|
        ensures SegmentAccepts(front[i], parts[i]) <==>
          PartPasses(front, parts, i) && (front[i] == "*" ==> parts[i] != "")
      {
      }
    }
  }

  /** With `#` the websocket delivers at least what the bus delivers. */
  lemma {:induction false} BusImpliesWebSocket(segs: seq<string>, parts: seq<string>)
    requires SegmentsMatch(segs, parts)
    requires forall i :: 0 <= i < |segs| ==> !IsBraces(segs[i])
    ensures WebSocketMatches(segs, parts)
    decreases |segs|
  {
    if segs != [] && segs[0] != "#" {
      var more, others := segs[1..], parts[1..];
      BusImpliesWebSocket(more, others);
      assert forall j :: 0 <= j < |more| ==> more[j] == segs[j + 1];
      forall j | 0 <= j < |more| && PartPasses(more, others, j)
        ensures PartPasses(segs, parts, j + 1)
      {
      }
      ShiftedMatch(segs, parts);
    }
  }

  lemma ShiftedMatch(segs: seq<string>, parts: seq<string>)
    requires segs != [] && parts != [] && PartPasses(segs, parts, 0)
    requires WebSocketMatches(segs[1..], parts[1..])
    ensures WebSocketMatches(segs, parts)
  {
    var more, others := segs[1..], parts[1..];
    forall j | 0 < j < |segs|
      ensures PartPasses(segs, parts, j) <==> PartPasses(more, others, j - 1)
    {
    }
    if i :| 0 <= i < |more| && more[i] == "#" && forall j :: 0 <= j < i ==> PartPasses(more, others, j) {
      assert segs[i + 1] == "#";
    }
  }
}
