/**
 * Reading one race-result file (`parseRaceFile`), with the file's text given as a
 * parameter. The text is split into lines and each line into tab-separated fields.
 * A line with at least ten fields and a numeric bib (field 1) is a data line. The
 * first data line of each bib consumes that bib; it becomes a row only when its
 * category (field 7) is a high-school or no-score category that is not a short
 * course, its gender (field 8) is exactly "Male" or "Female", and both cleaned
 * names (fields 3 and 4) are non-empty. The finish time is field 9.
 */
module RaceFile {
  import opened Wrappers
  import opened Text
  import opened RaceTime
  import opened Names

  // ---------------------------------------------------------------- records

  datatype Gender = Male | Female

  /** One admitted athlete result of one race. */
  datatype Row = Row(
    first: string,
    last: string,
    key: string,
    gender: Gender,
    category: string,
    time: Option<real>)

  /** The text of a gender, as the results files spell it. */
  function GenderName(g: Gender): string {
    match g
    case Male => "Male"
    case Female => "Female"
  }

  /** The gender a trimmed gender cell names; only the exact spellings count. */
  function GenderOf(s: string): (r: Option<Gender>)
    ensures r.Some? <==> s == "Male" || s == "Female"
    ensures r.Some? ==> GenderName(r.value) == s
  {
    if s == "Male" then Some(Male)
    else if s == "Female" then Some(Female)
    else None
  }

  /** Every gender is read back from its own name. */
  lemma GenderOfName(g: Gender)
    ensures GenderOf(GenderName(g)) == Some(g)
  {
  }

  // ---------------------------------------------------------------- bibs

  /** The bib as `parseInt` reads it: leading whitespace, then an integer. */
  function ParseBib(s: string): Option<int> {
    ReadInt(TrimStart(s))
  }

  /** An optional sign, then the longest run of decimal digits; anything after the
      digits is ignored, and text with no digit there is not a number. */
  function ReadInt(t: string): Option<int> {
    var start := if t != [] && (t[0] == '+' || t[0] == '-') then 1 else 0;
    var j := DigitRun(t, start);
    if j == start then None
    else
      var n: int := Decimal(t[start..j]);
      Some(if start == 1 && t[0] == '-' then -n else n)
  }

  /** Decimal text of an integer, with a minus sign when negative. */
  function ShowInt(b: int): string {
    if b < 0 then "-" + ShowNat(-b) else ShowNat(b)
  }

  /** Digits followed by text that does not start with a digit read as their value. */
  lemma ReadUnsigned(d: string, junk: string, n: nat)
    requires |d| > 0 && AllDigits(d) && Decimal(d) == n
    requires junk == [] || !IsDigit(junk[0])
    ensures ReadInt(d + junk) == Some(n)
  {
    var x := d + junk;
    assert x[0] == d[0];
    assert x[0..|d|] == d;
    assert |d| == |x| || x[|d|] == junk[0];
    DigitRunUnique(x, 0, |d|);
  }

  /** A minus sign, digits, then text that does not start with a digit read as the
      negated value. */
  lemma ReadNegative(d: string, junk: string, n: nat)
    requires |d| > 0 && AllDigits(d) && Decimal(d) == n
    requires junk == [] || !IsDigit(junk[0])
    ensures ReadInt("-" + d + junk) == Some(-(n as int))
  {
    var x := "-" + d + junk;
    assert x[1..1 + |d|] == d;
    assert 1 + |d| == |x| || x[1 + |d|] == junk[0];
    DigitRunUnique(x, 1, 1 + |d|);
  }

  /** Reading a printed integer back gives the integer, whatever non-digit text follows it. */
  lemma ReadShowInt(b: int, junk: string)
    requires junk == [] || !IsDigit(junk[0])
    ensures ReadInt(ShowInt(b) + junk) == Some(b)
  {
    if b < 0 {
      DecimalShowNat(-b);
      ReadNegative(ShowNat(-b), junk, -b);
    } else {
      DecimalShowNat(b);
      ReadUnsigned(ShowNat(b), junk, b);
    }
  }

  /** Reading a printed bib back gives the bib, whatever whitespace precedes it and
      whatever non-digit text follows it. */
  lemma ParseBibRoundTrip(pre: string, b: int, junk: string)
    requires AllSpace(pre)
    requires junk == [] || !IsDigit(junk[0])
    ensures ParseBib(pre + ShowInt(b) + junk) == Some(b)
  {
    var x := ShowInt(b) + junk;
    assert pre + ShowInt(b) + junk == pre + x;
    assert x[0] == ShowInt(b)[0];
    TrimStartPadded(pre, x);
    ReadShowInt(b, junk);
  }

  /** A cell that starts, after whitespace, with neither a sign nor a digit is not a number. */
  lemma ParseBibRejects(s: string)
    requires var t := TrimStart(s); t == [] || (t[0] != '+' && t[0] != '-' && !IsDigit(t[0]))
    ensures ParseBib(s) == None
  {
  }

  // ---------------------------------------------------------------- filters

  /** The category filter: no "short course", and "high school" or "no score",
      all compared case-insensitively. */
  predicate CategoryAdmitted(category: string) {
    && !ContainsIgnoringCase(category, "short course")
    && (ContainsIgnoringCase(category, "high school") || ContainsIgnoringCase(category, "no score"))
  }

  /** A "Short Course" category is refused whatever else it says. */
  lemma ShortCourseExcluded()
    ensures !CategoryAdmitted("Short Course Male")
  {
    var category, pat := "Short Course Male", "short course";
    assert Lower(pat) == pat;
    assert Lower(category)[0..|pat|] == pat;
    assert OccursAt(Lower(category), Lower(pat), 0);
  }

  /** The conditions every emitted row meets. */
  predicate WellFormed(r: Row) {
    && CategoryAdmitted(r.category)
    && r.first != [] && r.last != []
    && Clean(r.first) == r.first && Clean(r.last) == r.last
    && r.key == AthleteKey(r.first, r.last)
  }

  /** The row a data line's fields make, once its bib has been consumed; None when the
      category, gender or name filter rejects it. */
  function RowOf(f: seq<string>): (r: Option<Row>)
    requires |f| >= 10
    ensures r.Some? ==> WellFormed(r.value)
  {
    CleanIdempotent(f[3]);
    CleanIdempotent(f[4]);
    MakeRow(Trim(f[7]), GenderOf(Trim(f[8])), Clean(f[3]), Clean(f[4]), ParseTime(f[9]))
  }

  /** The row of a line whose cells have been trimmed, read and cleaned, if the
      filters admit it. */
  function MakeRow(category: string, gender: Option<Gender>, first: string, last: string, time: Option<real>): (r: Option<Row>)
    ensures r.Some? <==> CategoryAdmitted(category) && gender.Some? && first != [] && last != []
    ensures r.Some? ==> r.value == Row(first, last, AthleteKey(first, last), gender.value, category, time)
  {
    if !CategoryAdmitted(category) then None
    else
      match gender
      case None => None
      case Some(g) =>
        if first == [] || last == [] then None
        else Some(Row(first, last, AthleteKey(first, last), g, category, time))
  }

  /** The filters, all together: a consumed line becomes a row exactly when its trimmed
      category is admitted, its trimmed gender cell names a gender and both cleaned names
      are non-empty. */
  lemma RowOfFilters(f: seq<string>)
    requires |f| >= 10
    ensures RowOf(f).Some?
            <==> && CategoryAdmitted(Trim(f[7]))
                 && (Trim(f[8]) == "Male" || Trim(f[8]) == "Female")
                 && Clean(f[3]) != [] && Clean(f[4]) != []
  {
  }

  /** A row holds the cleaned names, the gender its cell names, the trimmed category
      and the parsed time. */
  lemma RowOfFields(f: seq<string>)
    requires |f| >= 10 && RowOf(f).Some?
    ensures var r := RowOf(f).value;
            && r.first == Clean(f[3]) && r.last == Clean(f[4])
            && GenderName(r.gender) == Trim(f[8])
            && r.category == Trim(f[7]) && r.time == ParseTime(f[9])
  {
  }

  /** The key of an emitted row is its lower-cased first name, `|`, its lower-cased last name. */
  lemma RowKeyFolded(r: Row)
    requires WellFormed(r)
    ensures r.key == Lower(r.first) + "|" + Lower(r.last)
  {
  }

  // ---------------------------------------------------------------- lines

  /** What one line of a results file is to the loop: not a data line (fewer than ten
      tab-separated fields, or no numeric bib in field 1), or a data line with its bib
      and the row it makes if the filters admit it. */
  datatype LineKind = Other | Data(bib: int, row: Option<Row>)

  /** Classifies one line. */
  function Classify(line: string): (k: LineKind)
    ensures k.Data? && k.row.Some? ==> WellFormed(k.row.value)
  {
    var f := Split(line, '\t');
    if |f| < 10 then Other
    else
      match ParseBib(f[1])
      case None => Other
      case Some(b) => Data(b, RowOf(f))
  }

  /** An emitted row with the bib of the line it came from. */
  datatype Entry = Entry(bib: int, row: Row)

  /** The bibs consumed by the data lines among `ks`. */
  function BibsOf(ks: seq<LineKind>): set<int> {
    if ks == [] then {}
    else (if ks[0].Data? then {ks[0].bib} else {}) + BibsOf(ks[1..])
  }

  /** The rows of the data lines among `ks` are well formed. */
  predicate RowsWellFormed(ks: seq<LineKind>) {
    forall i :: 0 <= i < |ks| && ks[i].Data? && ks[i].row.Some? ==> WellFormed(ks[i].row.value)
  }

  /** The loop over the classified lines, with `seen` the bibs consumed before them. */
  function Scan(ks: seq<LineKind>, seen: set<int>): (r: seq<Entry>)
    ensures forall i :: 0 <= i < |r| ==> r[i].bib !in seen
    ensures forall i, j :: 0 <= i < j < |r| ==> r[i].bib != r[j].bib
  {
    if ks == [] then []
    else
      match ks[0]
      case Other => Scan(ks[1..], seen)
      case Data(b, row) =>
        if b in seen then Scan(ks[1..], seen)
        else
          var rest := Scan(ks[1..], seen + {b});
          match row
          case None => rest
          case Some(x) => [Entry(b, x)] + rest
  }

  /** Every line, classified. */
  function Kinds(lines: seq<string>): (ks: seq<LineKind>)
    ensures |ks| == |lines| && RowsWellFormed(ks)
  {
    seq(|lines|, i requires 0 <= i < |lines| => Classify(lines[i]))
  }

  function RowsOf(es: seq<Entry>): (rows: seq<Row>)
    ensures |rows| == |es| && forall i :: 0 <= i < |es| ==> rows[i] == es[i].row
  {
    seq(|es|, i requires 0 <= i < |es| => es[i].row)
  }

  /** The rows of a race-result file, in file order. */
  function ParseRaceFile(text: string): (rows: seq<Row>)
    ensures forall i :: 0 <= i < |rows| ==> WellFormed(rows[i])
  {
    var ks := Kinds(Split(text, '\n'));
    var es := Scan(ks, {});
    ScanWellFormed(ks, {});
    RowsOf(es)
  }

  // ---------------------------------------------------------------- scan properties

  /** Line `k` is the first data line of bib `b`, and `b` was not consumed before the lines. */
  predicate FirstWithBib(ks: seq<LineKind>, k: nat, seen: set<int>, b: int) {
    && k < |ks| && ks[k].Data? && ks[k].bib == b
    && b !in seen && b !in BibsOf(ks[..k])
  }

  lemma BibsOfCons(k: LineKind, ks: seq<LineKind>)
    ensures BibsOf([k] + ks) == (if k.Data? then {k.bib} else {}) + BibsOf(ks)
  {
    assert ([k] + ks)[1..] == ks;
  }

  /** Every emitted entry comes from the first data line of its bib, and is that line's row. */
  lemma {:induction false} ScanSound(ks: seq<LineKind>, seen: set<int>, i: nat)
    requires i < |Scan(ks, seen)|
    ensures var e := Scan(ks, seen)[i];
            exists k: nat :: FirstWithBib(ks, k, seen, e.bib) && ks[k].row == Some(e.row)
  {
    var l, rest := ks[0], ks[1..];
    var e := Scan(ks, seen)[i];
    var isNew := l.Data? && l.bib !in seen;
    if isNew && l.row.Some? && i == 0 {
      assert ks[..0] == [];
      assert FirstWithBib(ks, 0, seen, e.bib);
    } else {
      var i' := if isNew && l.row.Some? then i - 1 else i;
      var seenRest := if isNew then seen + {l.bib} else seen;
      assert Scan(rest, seenRest)[i'] == e;
      ScanSound(rest, seenRest, i');
      var k': nat :| FirstWithBib(rest, k', seenRest, e.bib) && rest[k'].row == Some(e.row);
      assert ks[..k' + 1] == [l] + rest[..k'];
      BibsOfCons(l, rest[..k']);
      assert FirstWithBib(ks, k' + 1, seen, e.bib);
    }
  }

  /** Only rows of data lines are emitted, so the emitted rows are well formed. */
  lemma ScanWellFormed(ks: seq<LineKind>, seen: set<int>)
    requires RowsWellFormed(ks)
    ensures forall i :: 0 <= i < |Scan(ks, seen)| ==> WellFormed(Scan(ks, seen)[i].row)
  {
    forall i | 0 <= i < |Scan(ks, seen)|
      ensures WellFormed(Scan(ks, seen)[i].row)
    {
      ScanSound(ks, seen, i);
    }
  }

  /** The first data line of every bib that passes the filters is emitted. */
  lemma {:induction false} ScanComplete(ks: seq<LineKind>, seen: set<int>, k: nat, b: int, row: Row)
    requires FirstWithBib(ks, k, seen, b) && ks[k].row == Some(row)
    ensures Entry(b, row) in Scan(ks, seen)
  {
    var l, rest := ks[0], ks[1..];
    if k == 0 {
      assert Scan(ks, seen)[0] == Entry(b, row);
    } else {
      assert ks[..k] == [l] + rest[..k - 1];
      BibsOfCons(l, rest[..k - 1]);
      var seenRest := if l.Data? && l.bib !in seen then seen + {l.bib} else seen;
      assert rest[k - 1] == ks[k];
      assert FirstWithBib(rest, k - 1, seenRest, b);
      ScanComplete(rest, seenRest, k - 1, b, row);
    }
  }

  /** File order: the entries of two stretches of lines are the entries of the first
      followed by the entries of the second, which sees the bibs the first consumed. */
  lemma {:induction false} ScanAppend(a: seq<LineKind>, b: seq<LineKind>, seen: set<int>)
    ensures Scan(a + b, seen) == Scan(a, seen) + Scan(b, seen + BibsOf(a))
  {
    if a == [] {
      assert a + b == b;
      assert seen + BibsOf(a) == seen;
    } else {
      var l := a[0];
      assert (a + b)[0] == l && (a + b)[1..] == a[1..] + b;
      var seen' := if l.Data? && l.bib !in seen then seen + {l.bib} else seen;
      ScanAppend(a[1..], b, seen');
      assert seen' + BibsOf(a[1..]) == seen + BibsOf(a);
    }
  }

  /** A data line whose bib is new but which the filters reject still consumes the bib:
      nothing after it with that bib is emitted. */
  lemma FilteredBibBlocksLater(b: int, rest: seq<LineKind>, seen: set<int>)
    requires b !in seen
    ensures Scan([Data(b, None)] + rest, seen) == Scan(rest, seen + {b})
    ensures forall i :: 0 <= i < |Scan([Data(b, None)] + rest, seen)| ==>
              Scan([Data(b, None)] + rest, seen)[i].bib != b
  {
    assert ([Data(b, None)] + rest)[1..] == rest;
  }

  /** A line that is not a data line consumes nothing and emits nothing. */
  lemma NonDataLineSkipped(rest: seq<LineKind>, seen: set<int>)
    ensures Scan([Other] + rest, seen) == Scan(rest, seen)
  {
    assert ([Other] + rest)[1..] == rest;
  }

  /** A file assembled from lines that hold no line break is read line by line. */
  lemma ParseRaceFileLines(lines: seq<string>)
    requires |lines| >= 1
    requires forall i :: 0 <= i < |lines| ==> '\n' !in lines[i]
    ensures ParseRaceFile(Join(lines, '\n')) == RowsOf(Scan(Kinds(lines), {}))
  {
    SplitJoin(lines, '\n');
  }
}
