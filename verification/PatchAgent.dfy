/**
 The patch agent: the line diff it prints, and the transaction that applies a fix and takes it
 back when anything fails.
 */
module PatchAgents {
  import opened Options
  import opened OrderedMaps
  import opened Sequences
  import opened Strings

  // ------------------------------------------------------------------ printing a diff

  datatype Row = Row(mark: char, line: string)

  /** One line of a diff body. */
  function RowText(r: Row): string {
    [r.mark] + r.line + "\n"
  }

  function RowsText(rows: seq<Row>): string {
    if rows == [] then "" else RowText(rows[0]) + RowsText(rows[1..])
  }

  /** The lines that `mark` or a blank precedes. */
  function Side(rows: seq<Row>, mark: char): seq<string> {
    if rows == [] then []
    else (if rows[0].mark == ' ' || rows[0].mark == mark then [rows[0].line] else []) + Side(rows[1..], mark)
  }

  const HEADER := "--- original\n+++ modified\n"

  function Digit(n: nat): char
    requires n < 10
  {
    "0123456789"[n]
  }

  /** A number in decimal, as a template string prints it. */
  function Decimal(n: nat): string {
    if n < 10 then [Digit(n)] else Decimal(n / 10) + [Digit(n % 10)]
  }

  function HunkLine(oldLines: nat, newLines: nat): string {
    "@@ -1," + Decimal(oldLines) + " +1," + Decimal(newLines) + " @@"
  }

  function HunkHeader(oldLines: nat, newLines: nat): string {
    HunkLine(oldLines, newLines) + "\n"
  }

  /** What the loop of `createDiff` prints for line `i`. */
  function RowsAt(a: seq<string>, b: seq<string>, i: nat): seq<Row> {
    if i >= |a| then (if i >= |b| then [] else [Row('+', b[i])])
    else if i >= |b| then [Row('-', a[i])]
    else if a[i] != b[i] then [Row('-', a[i]), Row('+', b[i])]
    else [Row(' ', a[i])]
  }

  ghost function Take(s: seq<string>, i: nat): seq<string> {
    if i < |s| then s[..i] else s
  }

  lemma {:induction false} SideConcat(x: seq<Row>, y: seq<Row>, mark: char)
    ensures Side(x + y, mark) == Side(x, mark) + Side(y, mark)
  {
    if x == [] {
      assert x + y == y;
    } else {
      assert (x + y)[1..] == x[1..] + y;
      SideConcat(x[1..], y, mark);
    }
  }

  lemma {:induction false} TextConcat(x: seq<Row>, y: seq<Row>)
    ensures RowsText(x + y) == RowsText(x) + RowsText(y)
  {
    if x == [] {
      assert x + y == y;
    } else {
      assert (x + y)[1..] == x[1..] + y;
      TextConcat(x[1..], y);
      assert RowText(x[0]) + (RowsText(x[1..]) + RowsText(y)) == RowText(x[0]) + RowsText(x[1..]) + RowsText(y);
    }
  }

  ghost predicate GoodRows(rows: seq<Row>) {
    forall i :: 0 <= i < |rows| ==> rows[i].mark in " -+" && '\n' !in rows[i].line
  }

  /** `rows` describes the first `i` lines of both texts. */
  ghost predicate Describes(rows: seq<Row>, a: seq<string>, b: seq<string>, i: nat) {
    GoodRows(rows) && Side(rows, '-') == Take(a, i) && Side(rows, '+') == Take(b, i)
  }

  lemma DescribesStep(rows: seq<Row>, a: seq<string>, b: seq<string>, i: nat)
    requires Describes(rows, a, b, i) && Lacks(a, '\n') && Lacks(b, '\n')
    ensures Describes(rows + RowsAt(a, b, i), a, b, i + 1)
  {
    var more := RowsAt(a, b, i);
    GoodRowsAt(rows, a, b, i);
    TakeNext(a, i);
    TakeNext(b, i);
    hide RowsAt, Side, GoodRows, Take;
    SideConcat(rows, more, '-');
    SideConcat(rows, more, '+');
    SideOfRows(a, b, i);
  }

  lemma GoodRowsAt(rows: seq<Row>, a: seq<string>, b: seq<string>, i: nat)
    requires GoodRows(rows) && Lacks(a, '\n') && Lacks(b, '\n')
    ensures GoodRows(rows + RowsAt(a, b, i))
  {
    assert GoodRows(RowsAt(a, b, i));
    hide RowsAt;
  }

  lemma TakeNext(s: seq<string>, i: nat)
    ensures Take(s, i + 1) == Take(s, i) + if i < |s| then [s[i]] else []
  {
  }

  lemma SideOfRows(a: seq<string>, b: seq<string>, i: nat)
    ensures Side(RowsAt(a, b, i), '-') == if i < |a| then [a[i]] else []
    ensures Side(RowsAt(a, b, i), '+') == if i < |b| then [b[i]] else []
  {
    assert Side([], '-') == [] && Side([], '+') == [];
    hide Side;
    if i < |a| {
      SideOfOne(Row('-', a[i]), '-');
      SideOfOne(Row('-', a[i]), '+');
      SideOfOne(Row(' ', a[i]), '-');
      SideOfOne(Row(' ', a[i]), '+');
    }
    if i < |b| {
      SideOfOne(Row('+', b[i]), '-');
      SideOfOne(Row('+', b[i]), '+');
    }
    if i < |a| && i < |b| {
      SideConcat([Row('-', a[i])], [Row('+', b[i])], '-');
      SideConcat([Row('-', a[i])], [Row('+', b[i])], '+');
      assert [Row('-', a[i])] + [Row('+', b[i])] == [Row('-', a[i]), Row('+', b[i])];
    }
  }

  lemma SideOfOne(r: Row, mark: char)
    ensures Side([r], mark) == if r.mark == ' ' || r.mark == mark then [r.line] else []
    ensures RowsText([r]) == RowText(r)
  {
    assert [r][1..] == [];
  }

  // ------------------------------------------------------------------ where the lines are

  /** The lines before `i` that both texts have and that differ; each takes two rows. */
  ghost function Differing(a: seq<string>, b: seq<string>, i: nat): set<nat> {
    set j | 0 <= j < i && j < |a| && j < |b| && a[j] != b[j]
  }

  /** The row at which line `i` begins. */
  ghost function RowOf(a: seq<string>, b: seq<string>, i: nat): nat {
    i + |Differing(a, b, i)|
  }

  /**
   Line `i` is a blank row where both texts agree, a removed and an added row where they differ,
   and one of these where only one of them goes on.
   */
  ghost predicate LineIsAt(rows: seq<Row>, a: seq<string>, b: seq<string>, i: nat) {
    var p := RowOf(a, b, i);
    && p < |rows|
    && (i < |a| && i < |b| && a[i] == b[i] ==> rows[p] == Row(' ', a[i]))
    && (i < |a| && i < |b| && a[i] != b[i] ==>
          p + 1 < |rows| && rows[p] == Row('-', a[i]) && rows[p + 1] == Row('+', b[i]))
    && (i < |a| && i >= |b| ==> rows[p] == Row('-', a[i]))
    && (i >= |a| && i < |b| ==> rows[p] == Row('+', b[i]))
  }

  /** The rows are those of the first `n` lines, in order, and no others. */
  ghost predicate LaidOut(rows: seq<Row>, a: seq<string>, b: seq<string>, n: nat) {
    |rows| == RowOf(a, b, n) && forall i :: 0 <= i < n ==> LineIsAt(rows, a, b, i)
  }

  lemma RowOfNext(a: seq<string>, b: seq<string>, i: nat)
    ensures RowOf(a, b, i + 1) == RowOf(a, b, i) + if i < |a| && i < |b| && a[i] != b[i] then 2 else 1
    ensures RowOf(a, b, 0) == 0
  {
    assert Differing(a, b, 0) == {};
    assert Differing(a, b, i + 1) == Differing(a, b, i) + if i < |a| && i < |b| && a[i] != b[i] then {i} else {};
  }

  lemma LaidOutStep(rows: seq<Row>, a: seq<string>, b: seq<string>, i: nat)
    requires LaidOut(rows, a, b, i) && (i < |a| || i < |b|)
    ensures LaidOut(rows + RowsAt(a, b, i), a, b, i + 1)
  {
    var more := rows + RowsAt(a, b, i);
    RowOfNext(a, b, i);
    assert |RowsAt(a, b, i)| == RowOf(a, b, i + 1) - RowOf(a, b, i);
    forall k | 0 <= k < i
      ensures LineIsAt(more, a, b, k)
    {
      assert LineIsAt(rows, a, b, k);
    }
    hide RowOf;
    assert LineIsAt(more, a, b, i);
  }

  // ------------------------------------------------------------------ reading a diff

  /** The position of the first newline, or the length. */
  function LineEnd(s: string): (n: nat)
    ensures n <= |s| && '\n' !in s[..n] && (n < |s| ==> s[n] == '\n')
  {
    if s == "" || s[0] == '\n' then 0 else 1 + LineEnd(s[1..])
  }

  /** The rows of a diff body: a mark and the rest of the line. */
  function ParseRows(s: string): seq<Row>
    decreases |s|
  {
    var n := LineEnd(s);
    if n == 0 || n == |s| then [] else [Row(s[0], s[1..n])] + ParseRows(s[n + 1..])
  }

  lemma {:induction false} LineEndAt(line: string, rest: string)
    requires '\n' !in line
    ensures LineEnd(line + "\n" + rest) == |line|
  {
    if line == "" {
      assert line + "\n" + rest == "\n" + rest;
    } else {
      assert (line + "\n" + rest)[1..] == line[1..] + "\n" + rest;
      assert line[0] in line;
      LineEndAt(line[1..], rest);
    }
  }

  lemma {:induction false} ParseRowsText(rows: seq<Row>)
    requires GoodRows(rows)
    ensures ParseRows(RowsText(rows)) == rows
  {
    if rows != [] {
      ParseRow(rows[0], RowsText(rows[1..]));
      ParseRowsText(rows[1..]);
      hide ParseRows, RowText;
      assert rows == [rows[0]] + rows[1..];
    }
  }

  lemma ParseRow(r: Row, tail: string)
    requires r.mark != '\n' && '\n' !in r.line
    ensures ParseRows(RowText(r) + tail) == [r] + ParseRows(tail)
  {
    var line := [r.mark] + r.line;
    var text := line + "\n" + tail;
    LineEndAt(line, tail);
    hide LineEnd;
    assert RowText(r) + tail == text;
    assert text[|line| + 1..] == tail && text[1..|line|] == r.line && text[0] == r.mark;
  }

  predicate IsDigits(s: string) {
    s != "" && forall i :: 0 <= i < |s| ==> '0' <= s[i] <= '9'
  }

  function ParseDecimal(s: string): nat
    requires IsDigits(s)
  {
    var last := s[|s| - 1] as int - '0' as int;
    if |s| == 1 then last else ParseDecimal(s[..|s| - 1]) * 10 + last
  }

  lemma {:induction false} DecimalReadsBack(n: nat)
    ensures IsDigits(Decimal(n)) && ParseDecimal(Decimal(n)) == n
  {
    if n >= 10 {
      DecimalReadsBack(n / 10);
      var s := Decimal(n);
      assert s[..|s| - 1] == Decimal(n / 10);
    }
  }

  datatype Diff = Diff(oldLines: nat, newLines: nat, rows: seq<Row>)

  /** Reads a diff with one hunk. */
  function ReadDiff(diff: string): Option<Diff> {
    if HEADER <= diff then ReadHunk(diff[|HEADER|..]) else None
  }

  function ReadHunk(hunk: string): Option<Diff> {
    var n := LineEnd(hunk);
    if n < |hunk| then ReadFields(Split(hunk[..n], ' '), hunk[n + 1..]) else None
  }

  function ReadFields(fields: seq<string>, body: string): Option<Diff> {
    if |fields| == 4 && |fields[1]| > 3 && |fields[2]| > 3
       && IsDigits(fields[1][3..]) && IsDigits(fields[2][3..]) then
      Some(Diff(ParseDecimal(fields[1][3..]), ParseDecimal(fields[2][3..]), ParseRows(body)))
    else None
  }

  lemma HunkFields(n: nat, m: nat)
    ensures Split(HunkLine(n, m), ' ') == ["@@", "-1," + Decimal(n), "+1," + Decimal(m), "@@"]
  {
    var p, q := "-1," + Decimal(n), "+1," + Decimal(m);
    CountField("-1,", n);
    CountField("+1,", m);
    HunkParts(n, m);
    hide *;
    SplitAt("@@", p + [' '] + (q + [' '] + "@@"), ' ');
    SplitAt(p, q + [' '] + "@@", ' ');
    SplitAt(q, "@@", ' ');
    SplitAlone("@@", ' ');
    SplitAlone(p, ' ');
    SplitAlone(q, ' ');
    assert ["@@"] + ([p] + ([q] + ["@@"])) == ["@@", p, q, "@@"];
  }

  lemma HunkParts(n: nat, m: nat)
    ensures HunkLine(n, m) == "@@" + [' '] + (("-1," + Decimal(n)) + [' '] + (("+1," + Decimal(m)) + [' '] + "@@"))
  {
    hide Decimal;
  }

  lemma HunkIsOneLine(n: nat, m: nat)
    ensures '\n' !in HunkLine(n, m)
  {
    CountField("-1,", n);
    CountField("+1,", m);
    HunkParts(n, m);
    hide *;
  }

  lemma CountField(prefix: string, n: nat)
    requires ' ' !in prefix && '\n' !in prefix
    ensures ' ' !in prefix + Decimal(n) && '\n' !in prefix + Decimal(n)
  {
    DecimalReadsBack(n);
    hide Decimal, ParseDecimal;
  }

  lemma DiffReadsBack(n: nat, m: nat, rows: seq<Row>)
    requires GoodRows(rows)
    ensures ReadDiff(HEADER + HunkHeader(n, m) + RowsText(rows)) == Some(Diff(n, m, rows))
  {
    HunkReadsBack(n, m, rows);
    hide RowsText, HunkLine, GoodRows, ReadHunk;
    var hunk := HunkLine(n, m) + "\n" + RowsText(rows);
    var diff := HEADER + HunkHeader(n, m) + RowsText(rows);
    assert diff == HEADER + hunk && diff[|HEADER|..] == hunk;
  }

  lemma HunkReadsBack(n: nat, m: nat, rows: seq<Row>)
    requires GoodRows(rows)
    ensures ReadHunk(HunkLine(n, m) + "\n" + RowsText(rows)) == Some(Diff(n, m, rows))
  {
    HunkFields(n, m);
    HunkIsOneLine(n, m);
    FieldsReadBack(n, m, rows);
    hide Decimal, RowsText, HunkLine, Split, GoodRows, LineEnd, ReadFields;
    var line, body := HunkLine(n, m), RowsText(rows);
    var hunk := line + "\n" + body;
    LineEndAt(line, body);
    assert hunk[..|line|] == line && hunk[|line| + 1..] == body;
  }

  lemma FieldsReadBack(n: nat, m: nat, rows: seq<Row>)
    requires GoodRows(rows)
    ensures ReadFields(["@@", "-1," + Decimal(n), "+1," + Decimal(m), "@@"], RowsText(rows)) == Some(Diff(n, m, rows))
  {
    DecimalReadsBack(n);
    DecimalReadsBack(m);
    DecimalIsLong(n);
    DecimalIsLong(m);
    ParseRowsText(rows);
    hide Decimal, ParseDecimal, ParseRows, RowsText, IsDigits, GoodRows;
    assert ("-1," + Decimal(n))[3..] == Decimal(n) && ("+1," + Decimal(m))[3..] == Decimal(m);
  }

  lemma DecimalIsLong(n: nat)
    ensures Decimal(n) != ""
  {
  }

  /** Both texts can be recovered from the rows of the printed diff, and its hunk counts are right. */
  ghost predicate ReadsBackTo(diff: string, original: string, modified: string) {
    && ReadDiff(diff).Some?
    && var d := ReadDiff(diff).value;
       var a, b := Side(d.rows, '-'), Side(d.rows, '+');
       && a != [] && Join(a, '\n') == original && d.oldLines == |a|
       && b != [] && Join(b, '\n') == modified && d.newLines == |b|
       && LaidOut(d.rows, a, b, if |a| > |b| then |a| else |b|)
  }

  /** The printed form: the header, the hunk with its counts, and the rows. */
  ghost predicate IsPrinted(diff: string, d: Diff) {
    diff == "--- original\n+++ modified\n"
      + ("@@ -1," + Decimal(d.oldLines) + " +1," + Decimal(d.newLines) + " @@\n") + RowsText(d.rows)
  }

  /**
   `createDiff`: for different texts the printed string reads back to rows from which both texts
   can be recovered, with the counts of the hunk header; for equal texts only the header is printed.
   */
  method CreateDiff(original: string, modified: string) returns (diff: string)
    ensures original == modified ==> diff == "--- original\n+++ modified\n"
    ensures original != modified ==> ReadsBackTo(diff, original, modified) && IsPrinted(diff, ReadDiff(diff).value)
  {
    hide *;
    var lines1, lines2 := Split(original, '\n'), Split(modified, '\n');
    SplitLacks(original, '\n');
    SplitLacks(modified, '\n');
    diff := HEADER;
    HeaderText();
    if original != modified {
      var body, rows := PrintLines(lines1, lines2);
      PrintedReadsBack(original, modified, rows);
      diff := diff + HunkHeader(|lines1|, |lines2|) + body;
    }
  }

  lemma HeaderText()
    ensures HEADER == "--- original\n+++ modified\n"
  {
  }

  lemma PrintedReadsBack(original: string, modified: string, rows: seq<Row>)
    requires GoodRows(rows)
    requires Side(rows, '-') == Split(original, '\n') && Side(rows, '+') == Split(modified, '\n')
    requires
      var a, b := Split(original, '\n'), Split(modified, '\n');
      LaidOut(rows, a, b, if |a| > |b| then |a| else |b|)
    ensures
      var diff := HEADER + HunkHeader(|Split(original, '\n')|, |Split(modified, '\n')|) + RowsText(rows);
      ReadsBackTo(diff, original, modified) && IsPrinted(diff, ReadDiff(diff).value)
  {
    var a, b := Split(original, '\n'), Split(modified, '\n');
    JoinSplit(original, '\n');
    JoinSplit(modified, '\n');
    DiffReadsBack(|a|, |b|, rows);
    HunkText(|a|, |b|);
    HeaderText();
    hide HunkHeader, Decimal, ReadDiff, Side, Split, Join, RowsText, LaidOut, GoodRows;
  }

  lemma HunkText(n: nat, m: nat)
    ensures HunkHeader(n, m) == "@@ -1," + Decimal(n) + " +1," + Decimal(m) + " @@\n"
  {
    hide Decimal;
    assert " @@" + "\n" == " @@\n";
  }

  /** The loop of `createDiff`. */
  method PrintLines(lines1: seq<string>, lines2: seq<string>) returns (body: string, ghost rows: seq<Row>)
    requires Lacks(lines1, '\n') && Lacks(lines2, '\n')
    ensures body == RowsText(rows) && GoodRows(rows)
    ensures Side(rows, '-') == lines1 && Side(rows, '+') == lines2
    ensures LaidOut(rows, lines1, lines2, if |lines1| > |lines2| then |lines1| else |lines2|)
  {
    hide *;
    body, rows := "", [];
    EmptyDescribes(lines1, lines2);
    var n := if |lines1| > |lines2| then |lines1| else |lines2|;
    for i := 0 to n
      invariant body == RowsText(rows) && Describes(rows, lines1, lines2, i) && LaidOut(rows, lines1, lines2, i)
    {
      LaidOutStep(rows, lines1, lines2, i);
      DescribesStep(rows, lines1, lines2, i);
      TextConcat(rows, RowsAt(lines1, lines2, i));
      var printed := PrintLine(lines1, lines2, i);
      body, rows := body + printed, rows + RowsAt(lines1, lines2, i);
    }
    DescribesAll(rows, lines1, lines2, n);
  }

  lemma EmptyDescribes(a: seq<string>, b: seq<string>)
    ensures Describes([], a, b, 0) && RowsText([]) == "" && LaidOut([], a, b, 0)
  {
    RowOfNext(a, b, 0);
  }

  lemma DescribesAll(rows: seq<Row>, a: seq<string>, b: seq<string>, n: nat)
    requires Describes(rows, a, b, n) && n >= |a| && n >= |b|
    ensures GoodRows(rows) && Side(rows, '-') == a && Side(rows, '+') == b
  {
  }

  /** The branches of the loop; a line beyond the end of a text is `undefined`. */
  method PrintLine(lines1: seq<string>, lines2: seq<string>, i: nat) returns (s: string)
    requires i < |lines1| || i < |lines2|
    ensures s == RowsText(RowsAt(lines1, lines2, i))
  {
    if i >= |lines1| {
      s := "+" + lines2[i] + "\n";
      SideOfOne(Row('+', lines2[i]), '+');
    } else if i >= |lines2| {
      s := "-" + lines1[i] + "\n";
      SideOfOne(Row('-', lines1[i]), '-');
    } else if lines1[i] != lines2[i] {
      s := "-" + lines1[i] + "\n" + ("+" + lines2[i] + "\n");
      SideOfOne(Row('-', lines1[i]), '-');
      SideOfOne(Row('+', lines2[i]), '+');
      TextConcat([Row('-', lines1[i])], [Row('+', lines2[i])]);
      assert [Row('-', lines1[i])] + [Row('+', lines2[i])] == [Row('-', lines1[i]), Row('+', lines2[i])];
    } else {
      s := " " + lines1[i] + "\n";
      SideOfOne(Row(' ', lines1[i]), ' ');
    }
  }

  // ------------------------------------------------------------------ applying a fix

  type Path = string
  type Files = map<Path, string>
  type Backup = OrderedMap<Path, string>

  datatype Change = Change(file: Path, modified: string)

  datatype FileChange = FileChange(file: Path, original: string, modified: string, diff: string)

  /** A write that throws may leave anything in the file, or nothing. */
  datatype WriteOutcome = Written | Threw(left: Option<string>)

  /**
   What the outside world answers: whether reads succeed, how the writes of the changes and those
   of the revert end, and whether the test passes.
   */
  datatype World = World(readable: seq<bool>, writes: seq<WriteOutcome>, testPasses: bool, reverts: seq<WriteOutcome>)

  /** What a write leaves in its file. */
  function LeftBy(content: string, outcome: WriteOutcome): Option<string> {
    if outcome.Written? then Some(content) else outcome.left
  }

  function AfterWrite(files: Files, file: Path, content: string, outcome: WriteOutcome): Files {
    var left := LeftBy(content, outcome);
    if left.Some? then files[file := left.value] else files - {file}
  }

  function ContentOf(files: Files, file: Path): Option<string> {
    if file in files then Some(files[file]) else None
  }

  /** All changes written one after the other. */
  ghost function Overlay(files: Files, changes: seq<Change>): Files {
    if changes == [] then files
    else
      var c := changes[|changes| - 1];
      Overlay(files, changes[..|changes| - 1])[c.file := c.modified]
  }

  /** The files after the first `n` writes, the last of which may have thrown. */
  ghost function AfterWrites(files: Files, changes: seq<Change>, writes: seq<WriteOutcome>, n: nat): Files
    requires n <= |changes| == |writes|
  {
    if n == 0 then files
    else AfterWrite(Overlay(files, changes[..n - 1]), changes[n - 1].file, changes[n - 1].modified, writes[n - 1])
  }

  /** The backups after the first `n` changes; a later backup of the same file replaces an earlier one. */
  ghost function Backups(files: Files, changes: seq<Change>, n: nat): Backup
    requires n <= |changes|
    requires forall i :: 0 <= i < n ==> changes[i].file in files
  {
    if n == 0 then MapData([], map[])
    else
      var f := changes[n - 1].file;
      OverlayDomain(files, changes[..n - 1]);
      Backups(files, changes, n - 1).Set(f, Overlay(files, changes[..n - 1])[f])
  }

  lemma {:induction false} OverlayDomain(files: Files, changes: seq<Change>)
    requires forall i :: 0 <= i < |changes| ==> changes[i].file in files
    ensures Overlay(files, changes).Keys == files.Keys
  {
    if changes != [] {
      OverlayDomain(files, changes[..|changes| - 1]);
    }
  }

  // ------------------------------------------------------------------ the revert

  /** The first write of the revert that throws, from the `k`th one on, or `count`. */
  function Restored(reverts: seq<WriteOutcome>, k: nat, count: nat): (m: nat)
    requires k <= count <= |reverts|
    ensures k <= m <= count && (forall i :: k <= i < m ==> reverts[i].Written?) && (m < count ==> reverts[m].Threw?)
    decreases count - k
  {
    if k == count || reverts[k].Threw? then k else Restored(reverts, k + 1, count)
  }

  /** The revert from the `k`th file on: one file after the other, up to the first write that throws. */
  ghost function Reverted(files: Files, backups: Backup, reverts: seq<WriteOutcome>, k: nat): Files
    requires |reverts| >= |backups.keys| >= k
    decreases |backups.keys| - k
  {
    if k == |backups.keys| then files
    else
      var next := Rewrite(files, backups, reverts, k);
      if reverts[k].Threw? then next else Reverted(next, backups, reverts, k + 1)
  }

  ghost function Rewrite(files: Files, backups: Backup, reverts: seq<WriteOutcome>, k: nat): Files
    requires k < |backups.keys| <= |reverts|
  {
    KeysHaveEntries(backups, k);
    AfterWrite(files, backups.keys[k], backups.entries[backups.keys[k]], reverts[k])
  }

  lemma KeysHaveEntries(backups: Backup, k: nat)
    requires k < |backups.keys|
    ensures backups.keys[k] in backups.entries
  {
    assert backups.keys[k] in Elems(backups.keys);
  }

  /**
   What the revert leaves: the backup in every file before the first write that throws, whatever
   that write leaves in its file, and every other file as it was. `j` is the position of `f`.
   */
  lemma {:induction false} RevertedFiles(
    files: Files, backups: Backup, reverts: seq<WriteOutcome>, k: nat, f: Path, j: nat)
    requires |reverts| >= |backups.keys| >= k && j <= |backups.keys|
    requires if j < |backups.keys| then f == backups.keys[j] else f !in backups.keys
    ensures
      var m := Restored(reverts, k, |backups.keys|);
      ContentOf(Reverted(files, backups, reverts, k), f) ==
        if k <= j < m then ContentOf(backups.entries, f)
        else if j == m < |backups.keys| then reverts[m].left
        else ContentOf(files, f)
    decreases |backups.keys| - k
  {
    if k < |backups.keys| {
      KeysHaveEntries(backups, k);
      RewriteFile(files, backups, reverts, k, f);
      if reverts[k].Written? {
        hide Rewrite;
        RevertedFiles(Rewrite(files, backups, reverts, k), backups, reverts, k + 1, f, j);
      }
    }
  }

  lemma RewriteFile(files: Files, backups: Backup, reverts: seq<WriteOutcome>, k: nat, f: Path)
    requires k < |backups.keys| <= |reverts|
    ensures backups.keys[k] in backups.entries
    ensures ContentOf(Rewrite(files, backups, reverts, k), f) ==
      if f == backups.keys[k] then LeftBy(backups.entries[f], reverts[k]) else ContentOf(files, f)
  {
    KeysHaveEntries(backups, k);
  }

  class FileSystem {
    var files: Files

    method ReadFile(file: Path, ok: bool) returns (content: Option<string>)
      ensures content == if ok then ContentOf(files, file) else None
    {
      content := if ok && file in files then Some(files[file]) else None;
    }

    method WriteFile(file: Path, content: string, outcome: WriteOutcome) returns (threw: bool)
      modifies this
      ensures threw <==> outcome.Threw?
      ensures files == AfterWrite(old(files), file, content, outcome)
    {
      threw := outcome.Threw?;
      match outcome
      case Written => files := files[file := content];
      case Threw(Some(left)) => files := files[file := left];
      case Threw(None) => files := files - {file};
    }

    /** Writes the backups in the order in which they were first made; a write that throws ends it. */
    method Revert(backups: Backup, reverts: seq<WriteOutcome>) returns (threw: bool)
      requires |reverts| >= |backups.keys|
      modifies this
      ensures files == Reverted(old(files), backups, reverts, 0)
      ensures threw <==> Restored(reverts, 0, |backups.keys|) < |backups.keys|
    {
      for k := 0 to |backups.keys|
        invariant Reverted(old(files), backups, reverts, 0) == Reverted(files, backups, reverts, k)
        invariant Restored(reverts, 0, |backups.keys|) == Restored(reverts, k, |backups.keys|)
      {
        KeysHaveEntries(backups, k);
        threw := WriteFile(backups.keys[k], backups.entries[backups.keys[k]], reverts[k]);
        if threw {
          return;
        }
      }
      threw := false;
    }
  }

  // ------------------------------------------------------------------ the transaction

  /** The first `n` changes found their files and were written. */
  ghost predicate WentWell(world: World, changes: seq<Change>, files: Files, n: nat)
    requires |world.readable| == |world.writes| == |changes| && n <= |changes|
  {
    forall k :: 0 <= k < n ==> world.readable[k] && changes[k].file in files && world.writes[k].Written?
  }

  /** The transaction fails after `n` backups: in a read, in a write, or in the test. */
  ghost predicate FailsAfter(world: World, changes: seq<Change>, files: Files, n: nat)
    requires |world.readable| == |world.writes| == |changes| && n <= |changes|
  {
    || (n < |changes| && WentWell(world, changes, files, n) && !(world.readable[n] && changes[n].file in files))
    || (n > 0 && WentWell(world, changes, files, n - 1)
        && world.readable[n - 1] && changes[n - 1].file in files && world.writes[n - 1].Threw?)
    || (n == |changes| && WentWell(world, changes, files, n) && !world.testPasses)
  }

  /** The files after a failure with `n` backups, and what the revert makes of them. */
  ghost function AfterFailure(files: Files, changes: seq<Change>, world: World, n: nat): Files
    requires n <= |changes| == |world.writes| == |world.reverts|
    requires forall k :: 0 <= k < n ==> changes[k].file in files
  {
    BackupOrder(files, changes, n);
    Reverted(AfterWrites(files, changes, world.writes, n), Backups(files, changes, n), world.reverts, 0)
  }

  /** The files that the first `n` changes name, in the order in which they are first named. */
  function FilesOf(changes: seq<Change>, n: nat): (names: seq<Path>)
    requires n <= |changes|
    ensures |names| <= n && Distinct(names)
    ensures forall f :: f in names <==> exists i :: 0 <= i < n && changes[i].file == f
  {
    if n == 0 then []
    else
      var front := FilesOf(changes, n - 1);
      if changes[n - 1].file in front then front else front + [changes[n - 1].file]
  }

  lemma {:induction false} BackupOrder(files: Files, changes: seq<Change>, n: nat)
    requires n <= |changes| && forall k :: 0 <= k < n ==> changes[k].file in files
    ensures Backups(files, changes, n).keys == FilesOf(changes, n)
  {
    if n > 0 {
      BackupOrder(files, changes, n - 1);
      var front := Backups(files, changes, n - 1);
      assert changes[n - 1].file in front.entries <==> changes[n - 1].file in Elems(front.keys);
    }
  }

  /** What is reported about the first changes. */
  ghost predicate Reported(applied: seq<FileChange>, changes: seq<Change>, files: Files)
    requires |applied| <= |changes|
  {
    forall k :: 0 <= k < |applied| ==>
      && applied[k].file == changes[k].file && applied[k].modified == changes[k].modified
      && Some(applied[k].original) == ContentOf(Overlay(files, changes[..k]), changes[k].file)
      && (applied[k].original != applied[k].modified ==>
            ReadsBackTo(applied[k].diff, applied[k].original, applied[k].modified))
      && (applied[k].original == applied[k].modified ==> applied[k].diff == "--- original\n+++ modified\n")
  }

  /** The state of the loop after `i` changes. */
  ghost predicate Progress(before: Files, changes: seq<Change>, world: World, i: nat,
    now: Files, backups: Backup, applied: seq<FileChange>)
    requires |world.readable| == |world.writes| == |changes|
  {
    && i == |applied| <= |changes| && WentWell(world, changes, before, i) && Reported(applied, changes, before)
    && now == Overlay(before, changes[..i]) == AfterWrites(before, changes, world.writes, i)
    && backups == Backups(before, changes, i)
  }

  lemma ProgressStarts(before: Files, changes: seq<Change>, world: World)
    requires |world.readable| == |world.writes| == |changes|
    ensures Progress(before, changes, world, 0, before, MapData([], map[]), [])
  {
  }

  lemma OneMore(files: Files, changes: seq<Change>, writes: seq<WriteOutcome>, i: nat)
    requires i < |changes| == |writes| && forall k :: 0 <= k <= i ==> changes[k].file in files
    ensures
      var c, now := changes[i], Overlay(files, changes[..i]);
      && c.file in now
      && Overlay(files, changes[..i + 1]) == now[c.file := c.modified]
      && Backups(files, changes, i + 1) == Backups(files, changes, i).Set(c.file, now[c.file])
      && AfterWrites(files, changes, writes, i + 1) == AfterWrite(now, c.file, c.modified, writes[i])
      && (writes[i].Written? ==> AfterWrites(files, changes, writes, i + 1) == Overlay(files, changes[..i + 1]))
  {
    OverlayDomain(files, changes[..i]);
    assert changes[..i + 1][..i] == changes[..i];
  }

  /** One more change is read and written. */
  lemma ProgressStep(before: Files, changes: seq<Change>, world: World, i: nat,
    now: Files, backups: Backup, applied: seq<FileChange>, c: FileChange)
    requires |world.readable| == |world.writes| == |changes| && i < |changes|
    requires Progress(before, changes, world, i, now, backups, applied)
    requires c.file == changes[i].file && c.modified == changes[i].modified
    requires world.readable[i] && ContentOf(now, c.file) == Some(c.original) && world.writes[i].Written?
    requires c.original != c.modified ==> ReadsBackTo(c.diff, c.original, c.modified)
    requires c.original == c.modified ==> c.diff == "--- original\n+++ modified\n"
    ensures Progress(before, changes, world, i + 1,
      AfterWrite(now, c.file, c.modified, Written), backups.Set(c.file, c.original), applied + [c])
  {
    hide Overlay, AfterWrites, AfterWrite, Backups, ReadsBackTo;
    OverlayDomain(before, changes[..i]);
    OneMore(before, changes, world.writes, i);
  }

  lemma WriteFails(before: Files, changes: seq<Change>, world: World, i: nat,
    now: Files, backups: Backup, applied: seq<FileChange>, original: string)
    requires |world.readable| == |world.writes| == |changes| && i < |changes|
    requires Progress(before, changes, world, i, now, backups, applied)
    requires world.readable[i] && ContentOf(now, changes[i].file) == Some(original) && world.writes[i].Threw?
    ensures forall k :: 0 <= k <= i ==> changes[k].file in before
    ensures FailsAfter(world, changes, before, i + 1)
    ensures AfterWrites(before, changes, world.writes, i + 1)
         == AfterWrite(now, changes[i].file, changes[i].modified, world.writes[i])
    ensures backups.Set(changes[i].file, original) == Backups(before, changes, i + 1)
  {
    hide Overlay, AfterWrites, AfterWrite, Backups;
    OverlayDomain(before, changes[..i]);
    OneMore(before, changes, world.writes, i);
  }

  lemma ReadFails(before: Files, changes: seq<Change>, world: World, i: nat,
    now: Files, backups: Backup, applied: seq<FileChange>)
    requires |world.readable| == |world.writes| == |changes| && i < |changes|
    requires Progress(before, changes, world, i, now, backups, applied)
    requires !(world.readable[i] && changes[i].file in now)
    ensures forall k :: 0 <= k < i ==> changes[k].file in before
    ensures FailsAfter(world, changes, before, i)
    ensures now == AfterWrites(before, changes, world.writes, i) && backups == Backups(before, changes, i)
  {
    OverlayDomain(before, changes[..i]);
  }

  lemma ProgressEnds(before: Files, changes: seq<Change>, world: World,
    now: Files, backups: Backup, applied: seq<FileChange>)
    requires |world.readable| == |world.writes| == |changes|
    requires Progress(before, changes, world, |changes|, now, backups, applied)
    ensures forall k :: 0 <= k < |changes| ==> changes[k].file in before
    ensures |applied| == |changes| && WentWell(world, changes, before, |changes|)
    ensures now == Overlay(before, changes) && now == AfterWrites(before, changes, world.writes, |changes|)
    ensures backups == Backups(before, changes, |changes|) && Reported(applied, changes, before)
    ensures !world.testPasses ==> FailsAfter(world, changes, before, |changes|)
  {
    assert changes[..|changes|] == changes;
  }

  lemma FailureIsNoSuccess(world: World, changes: seq<Change>, files: Files, n: nat)
    requires |world.readable| == |world.writes| == |changes| && n <= |changes|
    requires FailsAfter(world, changes, files, n)
    ensures !(WentWell(world, changes, files, |changes|) && world.testPasses)
  {
  }

  /**
   The body of the `try` block: backs up and writes one change after the other and runs the test.
   `touched` counts the changes that were backed up.
   */
  method TryChanges(fs: FileSystem, changes: seq<Change>, world: World)
    returns (success: bool, applied: seq<FileChange>, backups: Backup, touched: nat)
    requires |world.readable| == |world.writes| == |changes|
    modifies fs
    ensures touched <= |changes| && forall i :: 0 <= i < touched ==> changes[i].file in old(fs.files)
    ensures success <==> WentWell(world, changes, old(fs.files), |changes|) && world.testPasses
    ensures if success then touched == |changes| else FailsAfter(world, changes, old(fs.files), touched)
    ensures success ==> |applied| == |changes| && Reported(applied, changes, old(fs.files))
    ensures success ==> fs.files == Overlay(old(fs.files), changes)
    ensures fs.files == AfterWrites(old(fs.files), changes, world.writes, touched)
    ensures backups == Backups(old(fs.files), changes, touched)
  {
    ghost var before := fs.files;
    backups, applied, touched := MapData([], map[]), [], 0;
    ProgressStarts(before, changes, world);
    hide *;
    for i := 0 to |changes|
      invariant touched == i && Progress(before, changes, world, i, fs.files, backups, applied)
    {
      ghost var now, saved := fs.files, backups;
      var change := changes[i];
      var original := fs.ReadFile(change.file, world.readable[i]);
      if original.None? {
        ReadFails(before, changes, world, i, now, backups, applied);
        FailureIsNoSuccess(world, changes, before, i);
        success := false;
        return;
      }
      backups := backups.Set(change.file, original.value);
      touched := i + 1;
      var threw := fs.WriteFile(change.file, change.modified, world.writes[i]);
      if threw {
        WriteFails(before, changes, world, i, now, saved, applied, original.value);
        FailureIsNoSuccess(world, changes, before, i + 1);
        success := false;
        return;
      }
      var diff := CreateDiff(original.value, change.modified);
      var fileChange := FileChange(change.file, original.value, change.modified, diff);
      ProgressStep(before, changes, world, i, now, saved, applied, fileChange);
      applied := applied + [fileChange];
    }
    ProgressEnds(before, changes, world, fs.files, backups, applied);
    success := world.testPasses;
  }

  /**
   The transaction of `generateFix`, from the parsed changes on: either every change is written
   and the test passes, or the backups made so far are written back, as far as that goes.
   */
  method ApplyFix(fs: FileSystem, changes: seq<Change>, world: World)
    returns (success: bool, applied: seq<FileChange>, touched: nat)
    requires |world.readable| == |world.writes| == |world.reverts| == |changes|
    modifies fs
    ensures touched <= |changes| && forall i :: 0 <= i < touched ==> changes[i].file in old(fs.files)
    ensures success <==> WentWell(world, changes, old(fs.files), |changes|) && world.testPasses
    ensures success ==> fs.files == Overlay(old(fs.files), changes)
    ensures success ==> |applied| == |changes| && Reported(applied, changes, old(fs.files))
    ensures !success ==> FailsAfter(world, changes, old(fs.files), touched)
    ensures !success ==> fs.files == AfterFailure(old(fs.files), changes, world, touched)
  {
    hide Overlay, AfterWrites, Backups, FilesOf, Reported, WentWell, FailsAfter, Reverted;
    ghost var before := fs.files;
    var backups;
    success, applied, backups, touched := TryChanges(fs, changes, world);
    if !success {
      BackupOrder(before, changes, touched);
      var _ := fs.Revert(backups, world.reverts);
    }
  }

  // ------------------------------------------------------------------ when a failure leaves no trace

  /** `j` is the last of the first `n` changes to touch its file. */
  ghost predicate LastOf(changes: seq<Change>, j: nat, n: nat)
    requires n <= |changes|
  {
    j < n && forall m :: j < m < n ==> changes[m].file != changes[j].file
  }

  lemma {:induction false} FindLast(changes: seq<Change>, f: Path, n: nat) returns (j: nat)
    requires n <= |changes| && exists i :: 0 <= i < n && changes[i].file == f
    ensures LastOf(changes, j, n) && changes[j].file == f
  {
    if changes[n - 1].file == f {
      j := n - 1;
    } else {
      j := FindLast(changes, f, n - 1);
    }
  }

  lemma {:induction false} OverlayLast(files: Files, changes: seq<Change>, i: nat)
    requires LastOf(changes, i, |changes|)
    ensures ContentOf(Overlay(files, changes), changes[i].file) == Some(changes[i].modified)
  {
    if i < |changes| - 1 {
      OverlayLast(files, changes[..|changes| - 1], i);
    }
  }

  /** Files that no change names are untouched. */
  lemma {:induction false} OverlayAside(files: Files, changes: seq<Change>, f: Path)
    requires forall i :: 0 <= i < |changes| ==> changes[i].file != f
    ensures ContentOf(Overlay(files, changes), f) == ContentOf(files, f)
  {
    if changes != [] {
      OverlayAside(files, changes[..|changes| - 1], f);
    }
  }

  /** When the revert starts, a file holds what its last write has left. */
  lemma ContentAtFailure(files: Files, changes: seq<Change>, writes: seq<WriteOutcome>, n: nat, j: nat)
    requires n <= |changes| == |writes| && LastOf(changes, j, n)
    requires forall k :: 0 <= k < n - 1 ==> writes[k].Written?
    ensures ContentOf(AfterWrites(files, changes, writes, n), changes[j].file) == LeftBy(changes[j].modified, writes[j])
  {
    if j < n - 1 {
      assert LastOf(changes[..n - 1], j, n - 1);
      OverlayLast(files, changes[..n - 1], j);
    }
  }

  lemma UntouchedAtFailure(files: Files, changes: seq<Change>, writes: seq<WriteOutcome>, n: nat, f: Path)
    requires n <= |changes| == |writes| && forall i :: 0 <= i < n ==> changes[i].file != f
    ensures ContentOf(AfterWrites(files, changes, writes, n), f) == ContentOf(files, f)
  {
    if n > 0 {
      OverlayAside(files, changes[..n - 1], f);
    }
  }

  lemma {:induction false} BackupOfLast(files: Files, changes: seq<Change>, n: nat, j: nat)
    requires n <= |changes| && (forall k :: 0 <= k < n ==> changes[k].file in files) && LastOf(changes, j, n)
    ensures ContentOf(Backups(files, changes, n).entries, changes[j].file)
         == ContentOf(Overlay(files, changes[..j]), changes[j].file)
  {
    OverlayDomain(files, changes[..n - 1]);
    if j < n - 1 {
      BackupOfLast(files, changes, n - 1, j);
    }
  }

  /** The backup that an earlier change of the same file has spoilt holds what that change wrote. */
  ghost predicate BackupIsOriginal(files: Files, changes: seq<Change>, j: nat)
    requires j < |changes| && changes[j].file in files
  {
    forall i ::
      0 <= i < j && changes[i].file == changes[j].file && LastOf(changes, i, j) ==>
        changes[i].modified == files[changes[j].file]
  }

  lemma BackupContent(files: Files, changes: seq<Change>, n: nat, j: nat)
    requires n <= |changes| && (forall k :: 0 <= k < n ==> changes[k].file in files) && LastOf(changes, j, n)
    ensures ContentOf(Backups(files, changes, n).entries, changes[j].file) == Some(files[changes[j].file])
      <==> BackupIsOriginal(files, changes, j)
  {
    hide Overlay, Backups;
    var f := changes[j].file;
    BackupOfLast(files, changes, n, j);
    if exists k :: 0 <= k < j && changes[k].file == f {
      var i := FindLast(changes, f, j);
      assert LastOf(changes[..j], i, j);
      OverlayLast(files, changes[..j], i);
      assert forall k :: 0 <= k < j && changes[k].file == f && LastOf(changes, k, j) ==> k == i;
    } else {
      OverlayAside(files, changes[..j], f);
    }
  }

  /**
   The file of the change `j`, the last one to touch it, has its original content back. Files are
   reverted in the order in which they were first named, up to the first write that throws: a
   file before it gets its backup, the file of that write what the write leaves, and a file after
   it keeps what the change has left.
   */
  ghost predicate Harmless(files: Files, changes: seq<Change>, world: World, n: nat, j: nat)
    requires n <= |changes| == |world.writes| == |world.reverts|
    requires j < n && forall k :: 0 <= k < n ==> changes[k].file in files
  {
    var f := changes[j].file;
    var names := FilesOf(changes, n);
    var position, stop := IndexOf(names, f), Restored(world.reverts, 0, |names|);
    if position < stop then BackupIsOriginal(files, changes, j)
    else if position == stop then world.reverts[stop].left == Some(files[f])
    else LeftBy(changes[j].modified, world.writes[j]) == Some(files[f])
  }

  lemma FileAfterFailure(files: Files, changes: seq<Change>, world: World, n: nat, j: nat)
    requires n <= |changes| == |world.writes| == |world.reverts| && LastOf(changes, j, n)
    requires forall k :: 0 <= k < n ==> changes[k].file in files
    requires forall k :: 0 <= k < n - 1 ==> world.writes[k].Written?
    ensures ContentOf(AfterFailure(files, changes, world, n), changes[j].file) == Some(files[changes[j].file])
      <==> Harmless(files, changes, world, n, j)
  {
    hide AfterWrites, Backups, Reverted, BackupIsOriginal;
    var f := changes[j].file;
    var backups := Backups(files, changes, n);
    assert f in FilesOf(changes, n);
    BackupOrder(files, changes, n);
    RevertedFiles(AfterWrites(files, changes, world.writes, n), backups, world.reverts, 0, f, IndexOf(backups.keys, f));
    ContentAtFailure(files, changes, world.writes, n, j);
    BackupContent(files, changes, n, j);
  }

  lemma OtherFilesAfterFailure(files: Files, changes: seq<Change>, world: World, n: nat, f: Path)
    requires n <= |changes| == |world.writes| == |world.reverts|
    requires forall k :: 0 <= k < n ==> changes[k].file in files && changes[k].file != f
    ensures ContentOf(AfterFailure(files, changes, world, n), f) == ContentOf(files, f)
  {
    hide AfterWrites, Backups, Reverted;
    var backups := Backups(files, changes, n);
    BackupOrder(files, changes, n);
    RevertedFiles(AfterWrites(files, changes, world.writes, n), backups, world.reverts, 0, f, |backups.keys|);
    UntouchedAtFailure(files, changes, world.writes, n, f);
  }

  /** A failure leaves the files exactly as they were if and only if it is harmless to every file. */
  lemma FailureLeavesNoTrace(files: Files, changes: seq<Change>, world: World, n: nat)
    requires n <= |changes| == |world.writes| == |world.reverts|
    requires forall k :: 0 <= k < n ==> changes[k].file in files
    requires forall k :: 0 <= k < n - 1 ==> world.writes[k].Written?
    ensures AfterFailure(files, changes, world, n) == files
      <==> forall j :: 0 <= j < n && LastOf(changes, j, n) ==> Harmless(files, changes, world, n, j)
  {
    var after := AfterFailure(files, changes, world, n);
    hide AfterFailure, Harmless, LastOf;
    forall j | 0 <= j < n && LastOf(changes, j, n)
      ensures ContentOf(after, changes[j].file) == Some(files[changes[j].file])
        <==> Harmless(files, changes, world, n, j)
    {
      FileAfterFailure(files, changes, world, n, j);
    }
    if forall j :: 0 <= j < n && LastOf(changes, j, n) ==> Harmless(files, changes, world, n, j) {
      forall f
        ensures ContentOf(after, f) == ContentOf(files, f)
      {
        if exists i :: 0 <= i < n && changes[i].file == f {
          var j := FindLast(changes, f, n);
        } else {
          OtherFilesAfterFailure(files, changes, world, n, f);
        }
      }
      SameContent(after, files);
    }
  }

  lemma SameContent(a: Files, b: Files)
    requires forall f :: ContentOf(a, f) == ContentOf(b, f)
    ensures a == b
  {
    forall f
      ensures f in a <==> f in b
      ensures f in a && f in b ==> a[f] == b[f]
    {
      assert ContentOf(a, f) == ContentOf(b, f);
    }
  }

  ghost predicate DistinctFiles(changes: seq<Change>) {
    forall i, j :: 0 <= i < j < |changes| ==> changes[i].file != changes[j].file
  }

  lemma {:induction false} FilesOfDistinct(changes: seq<Change>, n: nat)
    requires n <= |changes| && DistinctFiles(changes)
    ensures |FilesOf(changes, n)| == n && forall k :: 0 <= k < n ==> FilesOf(changes, n)[k] == changes[k].file
  {
    if n > 0 {
      FilesOfDistinct(changes, n - 1);
    }
  }

  /**
   No file is changed twice: a failure leaves no trace exactly when no write of the revert throws,
   or else that write and the files it keeps from being reverted hold the original contents anyway.
   */
  lemma DistinctFilesLeaveNoTrace(files: Files, changes: seq<Change>, world: World, n: nat)
    requires n <= |changes| == |world.writes| == |world.reverts| && DistinctFiles(changes)
    requires forall k :: 0 <= k < n ==> changes[k].file in files
    requires forall k :: 0 <= k < n - 1 ==> world.writes[k].Written?
    ensures AfterFailure(files, changes, world, n) == files <==>
      var stop := Restored(world.reverts, 0, n);
      stop < n ==>
        && world.reverts[stop].left == Some(files[changes[stop].file])
        && forall k :: stop < k < n ==>
             LeftBy(changes[k].modified, world.writes[k]) == Some(files[changes[k].file])
  {
    FailureLeavesNoTrace(files, changes, world, n);
    hide AfterFailure, Harmless;
    forall j | 0 <= j < n
      ensures LastOf(changes, j, n)
      ensures Harmless(files, changes, world, n, j) <==> HarmlessAlone(files, changes, world, n, j)
    {
      HarmlessWhenDistinct(files, changes, world, n, j);
    }
    var stop := Restored(world.reverts, 0, n);
    if forall j :: 0 <= j < n ==> HarmlessAlone(files, changes, world, n, j) {
      forall k | stop <= k < n
        ensures if k == stop then world.reverts[k].left == Some(files[changes[k].file])
                else LeftBy(changes[k].modified, world.writes[k]) == Some(files[changes[k].file])
      {
        assert HarmlessAlone(files, changes, world, n, k);
      }
    }
  }

  /** The case of a file that no other change touches. */
  ghost predicate HarmlessAlone(files: Files, changes: seq<Change>, world: World, n: nat, j: nat)
    requires j < n <= |changes| == |world.writes| == |world.reverts| && changes[j].file in files
  {
    var original, stop := Some(files[changes[j].file]), Restored(world.reverts, 0, n);
    && (j == stop ==> world.reverts[j].left == original)
    && (j > stop ==> LeftBy(changes[j].modified, world.writes[j]) == original)
  }

  lemma HarmlessWhenDistinct(files: Files, changes: seq<Change>, world: World, n: nat, j: nat)
    requires j < n <= |changes| == |world.writes| == |world.reverts| && DistinctFiles(changes)
    requires forall k :: 0 <= k < n ==> changes[k].file in files
    ensures LastOf(changes, j, n)
    ensures Harmless(files, changes, world, n, j) <==> HarmlessAlone(files, changes, world, n, j)
  {
    FilesOfDistinct(changes, n);
    var position := IndexOf(FilesOf(changes, n), changes[j].file);
    hide FilesOf;
    assert position == j;
    assert BackupIsOriginal(files, changes, j);
  }

  /** A disk that fills up: the second change and the revert of the first both fail, and both files are lost. */
  lemma FullDiskLeavesTrace()
    ensures
      var files := map["a" := "1", "b" := "1"];
      var world := World([true, true], [Written, Threw(Some(""))], true, [Threw(Some("")), Written]);
      var changes := [Change("a", "2"), Change("b", "2")];
      && FailsAfter(world, changes, files, 2)
      && AfterFailure(files, changes, world, 2) != files
  {
    var files := map["a" := "1", "b" := "1"];
    var world := World([true, true], [Written, Threw(Some(""))], true, [Threw(Some("")), Written]);
    var changes := [Change("a", "2"), Change("b", "2")];
    DistinctFilesLeaveNoTrace(files, changes, world, 2);
  }

  /** A file that is changed twice, the first time to something new, is not restored when the test fails. */
  lemma SecondBackupLeavesTrace(files: Files, f: Path, first: string, second: string)
    requires f in files && first != files[f]
    ensures
      var world := World([true, true], [Written, Written], false, [Written, Written]);
      var changes := [Change(f, first), Change(f, second)];
      && FailsAfter(world, changes, files, 2)
      && AfterFailure(files, changes, world, 2) != files
  {
    var world := World([true, true], [Written, Written], false, [Written, Written]);
    var changes := [Change(f, first), Change(f, second)];
    assert changes[0].file == changes[1].file == f;
    FileAfterFailure(files, changes, world, 2, 1);
    assert LastOf(changes, 0, 1) && !BackupIsOriginal(files, changes, 1);
    assert FilesOf(changes, 1) == [f] && FilesOf(changes, 2) == [f];
    hide AfterFailure, FilesOf, BackupIsOriginal, LastOf;
    assert IndexOf([f], f) == 0;
    assert !Harmless(files, changes, world, 2, 1);
  }
}
