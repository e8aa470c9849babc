/**
 * The pure steps of the medal-table loader (scripts/ExtraerCSV_Olimpiadas.py): splitting an
 * athlete's "APELLIDO, Nombre" into its parts, choosing the field separator from the
 * header line, the required-column check, and the row filter of the insertion loop.
 * Reading the file, pandas and PostgreSQL are outside the model: a table arrives as its
 * column names and its rows, and loading yields the rows that would be inserted.
 */
module Ingest {
  import opened Wrappers
  import opened Text
  import Store

  // ------------------------------------------------------------ athlete names

  /** `nombre`, `apellido` and `nombre_completo` of one athlete. */
  datatype AthleteName = AthleteName(first: string, last: string, full: string)

  const COMMA := ","

  /** `procesar_nombre_atleta`: "APELLIDO, Nombre" is split at its first comma; a name
      without a comma is taken in natural order. */
  function ProcessAthleteName(original: string): AthleteName {
    var o := Strip(original);
    match IndexOf(o, COMMA)
    case Some(k) => SurnameFirst(o[..k], o[k + 1..])
    case None => GivenFirst(o)
  }

  /** The comma case: each side trimmed and title-cased, the full name in natural order. */
  function SurnameFirst(before: string, after: string): AthleteName {
    var last := Title(Strip(before));
    var first := Title(Strip(after));
    AthleteName(first, last, if first != "" then Strip(first + " " + last) else last)
  }

  /** The case without a comma: the whole name title-cased, its last word taken as the
      surname when there are at least two. */
  function GivenFirst(o: string): AthleteName {
    var full := Title(o);
    var ws := Words(full);
    if |ws| >= 2 then AthleteName(Join(" ", ws[..|ws| - 1]), ws[|ws| - 1], full)
    else AthleteName(if |ws| == 1 then ws[0] else "", "", full)
  }

  /** With a comma: the surname is the title-cased text before the first comma (so it holds
      no comma), the given name the title-cased text after it, both trimmed, and the full
      name is "given surname", or whichever of the two is non-empty. */
  lemma CommaName(original: string)
    requires Contains(Strip(original), COMMA)
    ensures var n := ProcessAthleteName(original);
      var o := Strip(original);
      var k := IndexOf(o, COMMA).value;
      && k < |o| && !Contains(o[..k], COMMA)
      && n.last == Title(Strip(o[..k])) && n.first == Title(Strip(o[k + 1..]))
      && !Contains(n.last, COMMA) && Trimmed(n.first) && Trimmed(n.last)
      && (n.first != "" && n.last != "" ==> n.full == n.first + " " + n.last)
      && (n.first == "" ==> n.full == n.last)
      && (n.last == "" ==> n.full == n.first)
  {
    var o := Strip(original);
    var k := IndexOf(o, COMMA).value;
    CommaInside(o, k);
    assert ProcessAthleteName(original) == SurnameFirst(o[..k], o[k + 1..]);
    BeforeFirstLacks(o, COMMA, k);
    SurnameFirstSpec(o[..k], o[k + 1..]);
  }

  /** The parts of a comma name are trimmed and assembled in natural order, and a surname
      side without a comma gives a surname without one. */
  lemma SurnameFirstSpec(before: string, after: string)
    ensures var n := SurnameFirst(before, after);
      && n.last == Title(Strip(before)) && n.first == Title(Strip(after))
      && (!Contains(before, COMMA) ==> !Contains(n.last, COMMA)) && Trimmed(n.first) && Trimmed(n.last)
      && (n.first != "" && n.last != "" ==> n.full == n.first + " " + n.last)
      && (n.first == "" ==> n.full == n.last)
      && (n.last == "" ==> n.full == n.first)
  {
    var b, f := Strip(before), Strip(after);
    TitleKeepsTrimmed(b);
    TitleKeepsTrimmed(f);
    if !Contains(before, COMMA) {
      StripKeepsAbsence(before, COMMA);
      TitleKeepsAbsence(b);
    }
    FullNameOf(Title(f), Title(b));
  }

  /** `f"{nombre} {apellido}".strip()` of two trimmed parts. */
  lemma FullNameOf(first: string, last: string)
    requires Trimmed(first) && Trimmed(last)
    ensures first != "" && last != "" ==> Strip(first + " " + last) == first + " " + last
    ensures first != "" && last == "" ==> Strip(first + " " + last) == first
  {
    if first != "" {
      if last != "" {
        JoinTrimmed(first, last);
      } else {
        assert first + " " + last == first + " ";
        StripDropsTrailingSpace(first);
      }
    }
  }

  lemma JoinTrimmed(a: string, b: string)
    requires a != [] && b != [] && Trimmed(a) && Trimmed(b)
    ensures Strip(a + " " + b) == a + " " + b
  {
    var s := a + " " + b;
    assert s[0] == a[0] && s[|s| - 1] == b[|b| - 1];
    StripOfTrimmed(s);
  }

  /** The text before the first occurrence of `t` does not contain `t`. */
  lemma BeforeFirstLacks(s: string, t: string, k: nat)
    requires |t| > 0 && IndexOf(s, t) == Some(k)
    ensures !Contains(s[..k], t)
  {
    IndexOfSpec(s, t);
    IndexOfSpec(s[..k], t);
    if Contains(s[..k], t) {
      var j := IndexOf(s[..k], t).value;
      assert s[..k][j..j + |t|] == s[j..j + |t|];
      assert OccursAt(s, t, j);
    }
  }

  /** Title-casing a comma-free text leaves it comma-free: commas are not cased. */
  lemma TitleKeepsAbsence(s: string)
    requires !Contains(s, COMMA)
    ensures !Contains(Title(s), COMMA)
  {
    IndexOfSpec(Title(s), COMMA);
    if Contains(Title(s), COMMA) {
      var j := IndexOf(Title(s), COMMA).value;
      assert Title(s)[j] == ',';
      assert s[j] == ',';
      assert s[j..j + 1] == COMMA;
      ContainsAt(s, COMMA, j);
    }
  }

  lemma StripDropsTrailingSpace(a: string)
    requires a != [] && Trimmed(a)
    ensures Strip(a + " ") == a
  {
    var s := a + " ";
    assert LStrip(s) == s;
    assert s[..|s| - 1] == a;
    assert RStrip(s) == RStrip(a);
    StripOfTrimmed(a);
  }

  /** Without a comma: the full name is the title-cased input, and given name and surname
      are its words, the surname being the last of at least two, so that rejoining them
      with one space gives the full name's words. */
  lemma PlainName(original: string)
    requires !Contains(Strip(original), COMMA)
    ensures var n := ProcessAthleteName(original);
      && n.full == Title(Strip(original))
      && (n.last != "" <==> |Words(n.full)| >= 2)
      && (n.last == "" ==> Normalize(n.full) == n.first)
      && (n.last != "" ==> Normalize(n.full) == n.first + " " + n.last && Words(n.first) + [n.last] == Words(n.full))
  {
    var o := Strip(original);
    assert ProcessAthleteName(original) == GivenFirst(o);
    GivenFirstSpec(o);
  }

  lemma GivenFirstSpec(o: string)
    ensures var n := GivenFirst(o);
      && n.full == Title(o)
      && (n.last != "" <==> |Words(n.full)| >= 2)
      && (n.last == "" ==> Normalize(n.full) == n.first)
      && (n.last != "" ==> Normalize(n.full) == n.first + " " + n.last && Words(n.first) + [n.last] == Words(n.full))
  {
    var full := Title(o);
    var ws := Words(full);
    var n := GivenFirst(o);
    assert Normalize(full) == Join(" ", ws);
    if |ws| >= 2 {
      SplitLastWord(ws);
      assert n.first == Join(" ", ws[..|ws| - 1]) && n.last == ws[|ws| - 1];
      assert ws[|ws| - 1] in ws;
    } else if |ws| == 1 {
      assert n.first == ws[0] && n.last == "";
    }
  }

  /** Two or more words are the words before the last, joined, then the last word. */
  lemma SplitLastWord(ws: seq<string>)
    requires |ws| >= 2 && forall w :: w in ws ==> IsWord(w)
    ensures Join(" ", ws) == Join(" ", ws[..|ws| - 1]) + " " + ws[|ws| - 1]
    ensures Words(Join(" ", ws[..|ws| - 1])) + [ws[|ws| - 1]] == ws
  {
    JoinLast(ws);
    InitWords(ws);
    WordsOfJoin(ws[..|ws| - 1]);
    SnocInit(ws);
  }

  /** Joining two or more parts ends with a separator and the last part. */
  lemma {:induction false} JoinLast(ws: seq<string>)
    requires |ws| >= 2
    ensures Join(" ", ws) == Join(" ", ws[..|ws| - 1]) + " " + ws[|ws| - 1]
  {
    if |ws| == 2 {
      assert ws[..1] == [ws[0]];
    } else {
      JoinLast(ws[1..]);
      assert ws[1..][..|ws| - 2] == ws[..|ws| - 1][1..];
      JoinCons(" ", ws[0], ws[..|ws| - 1][1..]);
      assert [ws[0]] + ws[..|ws| - 1][1..] == ws[..|ws| - 1];
    }
  }

  lemma SnocInit<T>(s: seq<T>)
    requires |s| >= 1
    ensures s[..|s| - 1] + [s[|s| - 1]] == s
  {
  }

  lemma InitWords(ws: seq<string>)
    requires |ws| >= 1 && forall w :: w in ws ==> IsWord(w)
    ensures forall w :: w in ws[..|ws| - 1] ==> IsWord(w)
  {
    forall w | w in ws[..|ws| - 1] ensures IsWord(w) {
      var i :| 0 <= i < |ws| - 1 && ws[..|ws| - 1][i] == w;
      assert ws[i] == w;
    }
  }

  /** The docstring's example: "KÖHLER, Christa" becomes Christa / Köhler / "Christa Köhler". */
  lemma KohlerExample()
    ensures ProcessAthleteName(SURNAME + ", " + GIVEN) == AthleteName(GIVEN, "Köhler", GIVEN + " " + "Köhler")
  {
    var o := SURNAME + ", " + GIVEN;
    assert Trimmed(o) by {
      assert o[0] == SURNAME[0] && o[|o| - 1] == GIVEN[|GIVEN| - 1];
    }
    SplitAtComma(o, SURNAME, GIVEN);
    KohlerSides();
    JoinTrimmed(GIVEN, "Köhler");
  }

  const SURNAME := "KÖHLER"
  const GIVEN := "Christa"

  /** In "a, b" with a comma-free `a`, the first comma follows `a`. */
  lemma CommaAfter(a: string, b: string)
    requires forall j :: 0 <= j < |a| ==> a[j] != ','
    ensures IndexOf(a + ", " + b, COMMA) == Some(|a|)
    ensures (a + ", " + b)[..|a|] == a && (a + ", " + b)[|a| + 1..] == " " + b
  {
    var o := a + ", " + b;
    FirstChar(o, ',', |a|);
  }

  /** A trimmed "a, b" with a comma-free `a` splits at the comma after `a`. */
  lemma SplitAtComma(o: string, a: string, b: string)
    requires o == a + ", " + b && Trimmed(o)
    requires forall j :: 0 <= j < |a| ==> a[j] != ','
    ensures ProcessAthleteName(o) == SurnameFirst(a, " " + b)
  {
    var after := " " + b;
    StripOfTrimmed(o);
    CommaAfter(a, b);
    assert |a| < |o| && o[..|a|] == a && o[|a| + 1..] == after;
    SplitAtFirstComma(o, a, after);
  }

  lemma SplitAtFirstComma(o: string, before: string, after: string)
    requires Strip(o) == o && IndexOf(o, COMMA) == Some(|before|)
    requires o[..|before|] == before && |before| < |o| && o[|before| + 1..] == after
    ensures ProcessAthleteName(o) == SurnameFirst(before, after)
  {
    CommaSplit(o, |before|);
  }

  /** A name that is already trimmed splits at its first comma. */
  lemma CommaSplit(o: string, k: nat)
    requires Strip(o) == o && IndexOf(o, COMMA) == Some(k)
    ensures k < |o| && ProcessAthleteName(o) == SurnameFirst(o[..k], o[k + 1..])
  {
    CommaInside(o, k);
    assert IndexOf(Strip(o), COMMA) == Some(k);
  }

  lemma CommaInside(s: string, k: nat)
    requires IndexOf(s, COMMA) == Some(k)
    ensures k < |s| && s[k] == ','
  {
    IndexOfSpec(s, COMMA);
    assert OccursAt(s, COMMA, k);
    assert s[k..k + 1][0] == s[k];
  }

  /** The first `c` of `s` is at `k`. */
  lemma FirstChar(s: string, c: char, k: nat)
    requires k < |s| && s[k] == c && forall j :: 0 <= j < k ==> s[j] != c
    ensures IndexOf(s, [c]) == Some(k)
  {
    IndexOfSpec(s, [c]);
    assert s[k..k + 1] == [c];
    assert OccursAt(s, [c], k);
    forall j | 0 <= j < k ensures !OccursAt(s, [c], j) {
      assert s[j..j + 1][0] == s[j];
    }
  }

  lemma KohlerSides()
    ensures Title(Strip(SURNAME)) == "Köhler"
    ensures Title(Strip(" " + GIVEN)) == GIVEN
  {
    KohlerTrimmed();
    StripOfTrimmed(SURNAME);
    KohlerSurname();
    StripAfterSpace(GIVEN);
    KohlerGiven();
  }

  lemma KohlerTrimmed()
    ensures Trimmed(SURNAME) && Trimmed(GIVEN)
  {
    assert SURNAME[0] == 'K' && SURNAME[|SURNAME| - 1] == 'R';
    assert GIVEN[0] == 'C' && GIVEN[|GIVEN| - 1] == 'a';
  }

  /** A single leading space is all `strip()` removes from a trimmed string. */
  lemma StripAfterSpace(x: string)
    requires Trimmed(x)
    ensures Strip(" " + x) == x
  {
    assert (" " + x)[1..] == x;
    assert LStrip(x) == x;
    assert LStrip(" " + x) == x;
    StripOfTrimmed(x);
  }

  lemma KohlerSurname()
    ensures Title(SURNAME) == "Köhler"
  {
    assert TitleFrom("R", true) == "r";
    assert TitleFrom("ER", true) == "er";
    assert TitleFrom("LER", true) == "ler";
    assert TitleFrom("HLER", true) == "hler";
    assert TitleFrom("ÖHLER", true) == "öhler";
  }

  lemma KohlerGiven()
    ensures Title(GIVEN) == GIVEN
  {
    assert TitleFrom("a", true) == "a";
    assert TitleFrom("ta", true) == "ta";
    assert TitleFrom("sta", true) == "sta";
    assert TitleFrom("ista", true) == "ista";
    assert TitleFrom("rista", true) == "rista";
    assert TitleFrom("hrista", true) == "hrista";
  }

  // --------------------------------------------------------- separator choice

  /** The candidate separators, in the order they are tried. */
  const SEPARATORS: seq<char> := [',', ';', '\t', '|']

  /** `len(primera_linea.split(sep))`. */
  function FieldCount(line: string, sep: char): (n: nat)
    ensures n >= 1
  {
    |Split(line, [sep])|
  }

  /** The separator that splits the header line into the most fields; on a tie the earlier
      candidate is kept, since only a strictly larger count replaces the current choice. */
  method DetectSeparator(line: string) returns (sep: char, fields: nat)
    ensures sep in SEPARATORS && fields == FieldCount(line, sep)
    ensures forall i :: 0 <= i < |SEPARATORS| ==> FieldCount(line, SEPARATORS[i]) <= fields
    ensures exists k :: 0 <= k < |SEPARATORS| && SEPARATORS[k] == sep
                        && forall i :: 0 <= i < k ==> FieldCount(line, SEPARATORS[i]) < fields
  {
    sep, fields := ',', 0;
    var best := 0;
    var i := 0;
    while i < |SEPARATORS|
      invariant 0 <= i <= |SEPARATORS|
      invariant i == 0 ==> fields == 0
      invariant i > 0 ==> 0 <= best < i && sep == SEPARATORS[best] && fields == FieldCount(line, sep)
      invariant forall j :: 0 <= j < i ==> FieldCount(line, SEPARATORS[j]) <= fields
      invariant i > 0 ==> forall j :: 0 <= j < best ==> FieldCount(line, SEPARATORS[j]) < fields
    {
      var n := FieldCount(line, SEPARATORS[i]);
      if n > fields {
        sep, fields, best := SEPARATORS[i], n, i;
      }
      i := i + 1;
    }
  }

  // --------------------------------------------------------- required columns

  /** `columnas_esperadas`, in declared order. */
  const EXPECTED_COLUMNS: seq<string> := ["City", "Year", "Sport", "Discipline", "Event", "Athlete",
                                          "Gender", "Country_Code", "Country", "Event_gender", "Medal"]

  /** `columnas_faltantes`: the expected columns the table lacks, in declared order. */
  function MissingColumns(columns: seq<string>): (r: seq<string>)
    ensures |r| <= |EXPECTED_COLUMNS|
  {
    Store.Filter(EXPECTED_COLUMNS, (c: string) => c !in columns)
  }

  /** A column is reported missing exactly when it is expected and absent, the missing
      columns are reported in their declared order, and nothing is reported exactly when
      every expected column is present. */
  lemma MissingColumnsSpec(columns: seq<string>, c: string)
    ensures c in MissingColumns(columns) <==> c in EXPECTED_COLUMNS && c !in columns
    ensures Store.Subsequence(MissingColumns(columns), EXPECTED_COLUMNS)
    ensures MissingColumns(columns) == [] <==> forall e :: e in EXPECTED_COLUMNS ==> e in columns
  {
    Store.FilterSubsequence(EXPECTED_COLUMNS, (c: string) => c !in columns);
    Store.FilterMembers(EXPECTED_COLUMNS, (c: string) => c !in columns, c);
    if MissingColumns(columns) == [] {
      forall e | e in EXPECTED_COLUMNS ensures e in columns {
        Store.FilterMembers(EXPECTED_COLUMNS, (c: string) => c !in columns, e);
      }
    } else {
      var e := MissingColumns(columns)[0];
      Store.FilterMembers(EXPECTED_COLUMNS, (c: string) => c !in columns, e);
    }
  }

  // ---------------------------------------------------------------- row filter

  /** One cell as pandas holds it: missing (NaN), text, or a whole number. */
  datatype Cell = Missing | Text(text: string) | Whole(value: int)

  /** A row of the table by column name; a column the row lacks reads as missing. */
  type CsvRow = map<string, Cell>

  function CellOf(r: CsvRow, column: string): Cell {
    if column in r then r[column] else Missing
  }

  /** `df.dropna(subset=columnas_esperadas)` keeps the rows with every expected cell present. */
  predicate Complete(r: CsvRow) {
    forall c :: c in EXPECTED_COLUMNS ==> !CellOf(r, c).Missing?
  }

  /** `str(cell).strip()`. */
  function CellText(c: Cell): string {
    match c
    case Missing => "nan"
    case Text(s) => Strip(s)
    case Whole(n) => IntToString(n)
  }

  /** `int(cell)`: `None` where Python raises. */
  function CellInt(c: Cell): Option<int> {
    match c
    case Missing => None
    case Text(s) => ParseInt(s)
    case Whole(n) => Some(n)
  }

  /** A row of `medallas_olimpicas` as the loader inserts it. */
  datatype MedalRow = MedalRow(city: string, year: int, sport: string, discipline: string,
                               event: string, athlete: string, first: string, last: string,
                               full: string, gender: string, countryCode: string,
                               country: string, eventGender: string, medal: string)

  /** The row built from one CSV record, or `None` when `int(row['Year'])` raises and the
      record is skipped by the loop's `except`. */
  function ConvertRow(r: CsvRow): Option<MedalRow> {
    var year :- CellInt(CellOf(r, "Year"));
    var athlete := CellText(CellOf(r, "Athlete"));
    var name := ProcessAthleteName(athlete);
    Some(MedalRow(CellText(CellOf(r, "City")), year, CellText(CellOf(r, "Sport")),
                  CellText(CellOf(r, "Discipline")), CellText(CellOf(r, "Event")), athlete,
                  name.first, name.last, name.full, CellText(CellOf(r, "Gender")),
                  CellText(CellOf(r, "Country_Code")), CellText(CellOf(r, "Country")),
                  CellText(CellOf(r, "Event_gender")), CellText(CellOf(r, "Medal"))))
  }

  /** `all([city, year, ...])`: every required field is truthy, the year non-zero. */
  predicate Insertable(m: MedalRow) {
    && m.city != "" && m.year != 0 && m.sport != "" && m.discipline != "" && m.event != ""
    && m.athlete != "" && m.gender != "" && m.countryCode != "" && m.country != ""
    && m.eventGender != "" && m.medal != ""
  }

  /** The converted items a loop keeps, in order: those whose conversion succeeds and
      passes `ok`. */
  function Keep<A, B>(s: seq<A>, f: A -> Option<B>, ok: B -> bool): (r: seq<B>)
    ensures |r| <= |s|
  {
    if |s| == 0 then []
    else
      var rest := Keep(s[1..], f, ok);
      match f(s[0])
      case Some(m) => if ok(m) then [m] + rest else rest
      case None => rest
  }

  /** Every kept item passed `ok` and is the conversion of some input, and every input
      whose conversion passes `ok` is kept. */
  lemma {:induction false} KeepSpec<A, B>(s: seq<A>, f: A -> Option<B>, ok: B -> bool, m: B)
    ensures m in Keep(s, f, ok) <==> ok(m) && exists i :: 0 <= i < |s| && f(s[i]) == Some(m)
  {
    if |s| > 0 {
      KeepSpec(s[1..], f, ok, m);
      if exists i :: 0 <= i < |s| && f(s[i]) == Some(m) {
        var i :| 0 <= i < |s| && f(s[i]) == Some(m);
        if i > 0 {
          assert s[1..][i - 1] == s[i];
        }
      }
      if exists i :: 0 <= i < |s[1..]| && f(s[1..][i]) == Some(m) {
        var i :| 0 <= i < |s[1..]| && f(s[1..][i]) == Some(m);
        assert s[i + 1] == s[1..][i];
      }
    }
  }

  /** Processing a table in two parts keeps the same items as processing it whole. */
  lemma {:induction false} KeepAppend<A, B>(a: seq<A>, b: seq<A>, f: A -> Option<B>, ok: B -> bool)
    ensures Keep(a + b, f, ok) == Keep(a, f, ok) + Keep(b, f, ok)
  {
    if |a| == 0 {
      assert a + b == b;
    } else {
      assert (a + b)[1..] == a[1..] + b;
      KeepAppend(a[1..], b, f, ok);
    }
  }

  /** The rows the insertion loop inserts, in table order. */
  function InsertedRows(rows: seq<CsvRow>): (r: seq<MedalRow>)
    ensures |r| <= |rows|
  {
    Keep(rows, ConvertRow, Insertable)
  }

  /** What `cargar_datos_en_tablas` does with a table: `False` before any insertion when an
      expected column is missing, otherwise the inserted rows and the two counters. */
  datatype LoadOutcome =
    | ColumnsMissing(missing: seq<string>)
    | Loaded(inserted: seq<MedalRow>, processed: nat, total: nat)

  function LoadTable(columns: seq<string>, rows: seq<CsvRow>): (r: LoadOutcome)
    ensures r.ColumnsMissing? <==> MissingColumns(columns) != []
    ensures r.ColumnsMissing? ==> r.missing == MissingColumns(columns)
    ensures r.Loaded? ==> |r.inserted| <= r.processed == r.total
  {
    var missing := MissingColumns(columns);
    if missing != [] then ColumnsMissing(missing)
    else
      var kept := Store.Filter(rows, Complete);
      Loaded(InsertedRows(kept), |kept|, |kept|)
  }

  /** A loaded table's inserted rows are exactly the complete records whose conversion
      passes the truthiness check, and its total counts the complete records. */
  lemma LoadTableSpec(columns: seq<string>, rows: seq<CsvRow>, m: MedalRow)
    requires LoadTable(columns, rows).Loaded?
    ensures LoadTable(columns, rows).total == |Store.Filter(rows, Complete)|
    ensures m in LoadTable(columns, rows).inserted
            <==> Insertable(m) && exists r :: r in rows && Complete(r) && ConvertRow(r) == Some(m)
  {
    KeepFiltered(rows, Complete, ConvertRow, Insertable, m);
  }

  /** Keeping the converted items of the selected inputs: an item is kept exactly when it
      passes `ok` and converts from some selected input. */
  lemma KeepFiltered<A, B>(s: seq<A>, p: A -> bool, f: A -> Option<B>, ok: B -> bool, m: B)
    ensures m in Keep(Store.Filter(s, p), f, ok) <==> ok(m) && exists x :: x in s && p(x) && f(x) == Some(m)
  {
    var kept := Store.Filter(s, p);
    KeepSpec(kept, f, ok, m);
    if exists i :: 0 <= i < |kept| && f(kept[i]) == Some(m) {
      var i :| 0 <= i < |kept| && f(kept[i]) == Some(m);
      Store.FilterMembers(s, p, kept[i]);
    }
    if exists x :: x in s && p(x) && f(x) == Some(m) {
      var x :| x in s && p(x) && f(x) == Some(m);
      Store.FilterMembers(s, p, x);
      var i :| 0 <= i < |kept| && kept[i] == x;
    }
  }

  // ------------------------------------------------------------ load report

  /** What `cargar_datos_olimpicos` reports once the file has been read, as written: the
      loader's `False` for missing columns is discarded and success reported regardless. */
  function ReportedSuccessAsWritten(columns: seq<string>, rows: seq<CsvRow>): bool {
    var _ := LoadTable(columns, rows);
    true
  }

  /** The report the loader's own result calls for: success only when the table was loaded. */
  function ReportedSuccess(columns: seq<string>, rows: seq<CsvRow>): (ok: bool)
    ensures ok <==> forall e :: e in EXPECTED_COLUMNS ==> e in columns
  {
    MissingColumnsSpec(columns, "");
    LoadTable(columns, rows).Loaded?
  }

  /** A table with no "Year" column inserts nothing, yet the run reports success as written. */
  lemma MissingColumnReportedAsSuccess()
    ensures LoadTable(["City"], []).ColumnsMissing?
    ensures ReportedSuccessAsWritten(["City"], [])
    ensures !ReportedSuccess(["City"], [])
  {
    assert "Year" in EXPECTED_COLUMNS;
    MissingColumnsSpec(["City"], "Year");
  }
}
