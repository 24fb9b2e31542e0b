/**
 * The schema diff: normalising column types, splitting table, column, view and procedure
 * names into only-in-DB1, only-in-DB2 and common, and appending labelled entries to one
 * growing comparison log. The databases are given as catalogs; the log holds structured
 * entries, and `Render` gives each entry's text.
 */
module CompareDb {
  import opened Wrappers
  import opened Strings

  // ---------------------------------------------------------------- catalogs

  /**
   * A reflected column type, as far as `normalize_type` looks at it: the Integer family,
   * the String family with its optional length, or anything else, with `repr` the type's
   * own `str()`, produced by the database library.
   */
  datatype ColumnType =
    | IntegerType
    | StringType(length: Option<nat>)
    | OtherType(repr: string)

  datatype ColumnInfo = ColumnInfo(name: string, columnType: ColumnType)

  /** One database: each table's columns in catalog order, and the definition text of each
      view (`SHOW CREATE VIEW`) and stored procedure (`SHOW CREATE PROCEDURE`). */
  datatype Database = Database(
    tables: map<string, seq<ColumnInfo>>,
    views: map<string, string>,
    procedures: map<string, string>)

  /**
   * `normalize_type`: of the two families, the Integer family alone normalises to
   * "INTEGER", and a String-family type names its length inside "VARCHAR(...)".
   */
  function NormalizeType(t: ColumnType): (r: string)
    ensures !t.OtherType? ==> (r == "INTEGER" <==> t.IntegerType?)
    ensures t.StringType? ==>
      (|r| > 9 && r[..8] == "VARCHAR(" && r[|r| - 1] == ')' && r[8..|r| - 1] == LengthText(t.length))
    ensures t.OtherType? ==> r == t.repr
  {
    match t
    case IntegerType => "INTEGER"
    case StringType(length) => "VARCHAR(" + LengthText(length) + ")"
    case OtherType(repr) => repr
  }

  /** `str()` of an optional length: the decimal digits, or `None`. */
  function LengthText(length: Option<nat>): string
  {
    match length
    case Some(n) => NatToString(n)
    case None => "None"
  }

  /**
   * Normalisation hides everything but the family and, for strings, the length: two
   * Integer-family types always compare equal, two String-family types compare equal
   * exactly when their lengths agree, and the two families never compare equal.
   */
  lemma NormalizeTypeEquality(t1: ColumnType, t2: ColumnType)
    requires !t1.OtherType? && !t2.OtherType?
    ensures NormalizeType(t1) == NormalizeType(t2) <==>
      (t1.IntegerType? && t2.IntegerType?) ||
      (t1.StringType? && t2.StringType? && t1.length == t2.length)
  {
    if t1.StringType? && t2.StringType? && NormalizeType(t1) == NormalizeType(t2) {
      var a, b := LengthText(t1.length), LengthText(t2.length);
      assert a == NormalizeType(t1)[8..|NormalizeType(t1)| - 1];
      assert b == NormalizeType(t2)[8..|NormalizeType(t2)| - 1];
      LengthTextInjective(t1.length, t2.length);
    }
    if t1.IntegerType? && t2.StringType? {
      assert NormalizeType(t2)[0] == 'V';
    }
    if t1.StringType? && t2.IntegerType? {
      assert NormalizeType(t1)[0] == 'V';
    }
  }

  lemma LengthTextInjective(l1: Option<nat>, l2: Option<nat>)
    requires LengthText(l1) == LengthText(l2)
    ensures l1 == l2
  {
    match (l1, l2)
    case (Some(m), Some(n)) => NatToStringInjective(m, n);
    case (Some(m), None) => DigitsAreNotNone(m); assert false;
    case (None, Some(n)) => DigitsAreNotNone(n); assert false;
    case (None, None) =>
  }

  lemma DigitsAreNotNone(n: nat)
    ensures NatToString(n) != "None"
  {
    assert IsDigit(NatToString(n)[0]);
  }

  /** `{col['name']: col['type'] for col in columns}`: a later column of the same name wins. */
  function ColumnMap(columns: seq<ColumnInfo>): (m: map<string, ColumnType>)
    ensures m.Keys == set c | c in columns :: c.name
  {
    if columns == [] then map[]
    else
      var last := columns[|columns| - 1];
      var m := ColumnMap(columns[..|columns| - 1]);
      assert columns == columns[..|columns| - 1] + [last];
      m[last.name := last.columnType]
  }

  /** Each name maps to the type of its last column in catalog order. */
  lemma {:induction false} ColumnMapLastWins(columns: seq<ColumnInfo>, i: nat)
    requires i < |columns|
    requires forall j :: i < j < |columns| ==> columns[j].name != columns[i].name
    ensures ColumnMap(columns)[columns[i].name] == columns[i].columnType
  {
    if i < |columns| - 1 {
      ColumnMapLastWins(columns[..|columns| - 1], i);
    }
  }

  // ---------------------------------------------------------------- the log

  datatype Side = Db1 | Db2
  datatype Listing = TableNames | ColumnNames | ViewNames | ProcedureNames
  datatype DefinitionKind = ViewDefinition | ProcedureDefinition

  /** One line of the comparison log. */
  datatype Entry =
    | TablesHeader
    | TableHeader(table: string)
    | DefinitionsHeader(kind: DefinitionKind)
    | OnlyIn(listing: Listing, side: Side, names: set<string>)
    | ColumnTypeDiff(column: string, type1: string, type2: string)
    | DefinitionDiff(kind: DefinitionKind, name: string)
  {
    predicate IsHeader() { TablesHeader? || TableHeader? || DefinitionsHeader? }
  }

  function ListingLabel(listing: Listing): string
  {
    match listing
    case TableNames => "Tables"
    case ColumnNames => "Columns"
    case ViewNames => "Views"
    case ProcedureNames => "Stored procedures"
  }

  function SideLabel(side: Side): string
  {
    match side
    case Db1 => "DB1"
    case Db2 => "DB2"
  }

  /**
   * The text of one log line. `setText` is Python's rendering of a set of names, whose
   * order is not fixed. Headers start a section ("\n" or at column 0), all other lines are
   * indented by two spaces.
   */
  function Render(e: Entry, setText: set<string> -> string): (r: string)
    ensures !e.IsHeader() <==> (|r| >= 2 && r[0] == ' ' && r[1] == ' ')
  {
    match e
    case TablesHeader => "Comparing tables:"
    case TableHeader(t) => "\nComparing table: " + t
    case DefinitionsHeader(k) =>
      if k == ViewDefinition then "\nComparing views:" else "\nComparing stored procedures:"
    case OnlyIn(listing, side, names) =>
      "  " + ListingLabel(listing) + " only in " + SideLabel(side) + ": " + setText(names)
    case ColumnTypeDiff(c, t1, t2) =>
      "  Column type difference in '" + c + "': DB1 (" + t1 + ") vs DB2 (" + t2 + ")"
    case DefinitionDiff(k, n) =>
      "  Difference in " + (if k == ViewDefinition then "view" else "stored procedure")
      + " definition for '" + n + "'."
  }

  /** The log that the comparison functions append to in place. */
  class ComparisonLog {
    var lines: seq<Entry>

    constructor ()
      ensures lines == []
    {
      lines := [];
    }

    /** `log.append(e)` */
    method Append(e: Entry)
      modifies this
      ensures lines == old(lines) + [e]
    {
      lines := lines + [e];
    }
  }

  // ---------------------------------------------------------------- specification of the sections

  /** The "only in" lines for two name sets: one per non-empty difference, DB1's first. */
  function OnlyInEntries(listing: Listing, names1: set<string>, names2: set<string>): seq<Entry>
  {
    (if names1 - names2 != {} then [OnlyIn(listing, Db1, names1 - names2)] else [])
    + (if names2 - names1 != {} then [OnlyIn(listing, Db2, names2 - names1)] else [])
  }

  /** The type-difference lines for the columns among `names`. */
  function TypeDiffsAmong(m1: map<string, ColumnType>, m2: map<string, ColumnType>, names: set<string>): set<Entry>
  {
    set c | c in names && c in m1 && c in m2 && NormalizeType(m1[c]) != NormalizeType(m2[c])
      :: ColumnTypeDiff(c, NormalizeType(m1[c]), NormalizeType(m2[c]))
  }

  /** The type-difference lines of a table compared in both databases. */
  function TypeDiffs(m1: map<string, ColumnType>, m2: map<string, ColumnType>): set<Entry>
  {
    TypeDiffsAmong(m1, m2, m1.Keys * m2.Keys)
  }

  function TableSectionHead(table: string, m1: map<string, ColumnType>, m2: map<string, ColumnType>): seq<Entry>
  {
    [TableHeader(table)] + OnlyInEntries(ColumnNames, m1.Keys, m2.Keys)
  }

  /** `section` is what `compare_table_structure` appends: its header, its "only in" lines,
      then one type-difference line per differing common column, in any order. */
  ghost predicate IsTableSection(section: seq<Entry>, table: string, m1: map<string, ColumnType>, m2: map<string, ColumnType>)
  {
    var head := TableSectionHead(table, m1, m2);
    && |section| >= |head|
    && section[..|head|] == head
    && multiset(section[|head|..]) == multiset(TypeDiffs(m1, m2))
  }

  /** The definition-difference lines of views or procedures present in both databases. */
  function DefinitionDiffsAmong(kind: DefinitionKind, d1: map<string, string>, d2: map<string, string>, names: set<string>): set<Entry>
  {
    set n | n in names && n in d1 && n in d2 && d1[n] != d2[n] :: DefinitionDiff(kind, n)
  }

  function DefinitionDiffs(kind: DefinitionKind, d1: map<string, string>, d2: map<string, string>): set<Entry>
  {
    DefinitionDiffsAmong(kind, d1, d2, d1.Keys * d2.Keys)
  }

  function DefinitionListing(kind: DefinitionKind): Listing
  {
    if kind == ViewDefinition then ViewNames else ProcedureNames
  }

  function DefinitionSectionHead(kind: DefinitionKind, d1: map<string, string>, d2: map<string, string>): seq<Entry>
  {
    [DefinitionsHeader(kind)] + OnlyInEntries(DefinitionListing(kind), d1.Keys, d2.Keys)
  }

  function DefinitionSectionLength(kind: DefinitionKind, d1: map<string, string>, d2: map<string, string>): nat
  {
    |DefinitionSectionHead(kind, d1, d2)| + |DefinitionDiffs(kind, d1, d2)|
  }

  /** `section` is what `compare_views` or `compare_stored_procedures` appends. */
  ghost predicate IsDefinitionSection(section: seq<Entry>, kind: DefinitionKind, d1: map<string, string>, d2: map<string, string>)
  {
    var head := DefinitionSectionHead(kind, d1, d2);
    && |section| >= |head|
    && section[..|head|] == head
    && multiset(section[|head|..]) == multiset(DefinitionDiffs(kind, d1, d2))
  }

  /** The sections one after another. */
  function Concat(sections: seq<seq<Entry>>): (r: seq<Entry>)
    ensures sections == [] ==> r == []
  {
    if sections == [] then [] else Concat(sections[..|sections| - 1]) + sections[|sections| - 1]
  }

  /** `sections[i]` is the section of table `order[i]`, compared in both databases. */
  ghost predicate TableSections(sections: seq<seq<Entry>>, order: seq<string>, db1: Database, db2: Database)
  {
    && |sections| == |order|
    && forall i :: 0 <= i < |order| ==>
         && order[i] in db1.tables && order[i] in db2.tables
         && IsTableSection(sections[i], order[i], ColumnMap(db1.tables[order[i]]), ColumnMap(db2.tables[order[i]]))
  }

  function TablesHead(db1: Database, db2: Database): seq<Entry>
  {
    [TablesHeader] + OnlyInEntries(TableNames, db1.tables.Keys, db2.tables.Keys)
  }

  /**
   * `lines` is the log of `generate_comparison_log`, with the common tables compared in
   * the order `order`: the tables header and its "only in" lines, the table sections
   * `sections`, then the views section `views`, then the stored-procedures section
   * `procedures`.
   */
  ghost predicate IsComparisonLog(lines: seq<Entry>, db1: Database, db2: Database, order: seq<string>,
                                  sections: seq<seq<Entry>>, views: seq<Entry>, procedures: seq<Entry>)
  {
    && lines == TablesHead(db1, db2) + Concat(sections) + views + procedures
    && TableSections(sections, order, db1, db2)
    && IsDefinitionSection(views, ViewDefinition, db1.views, db2.views)
    && IsDefinitionSection(procedures, ProcedureDefinition, db1.procedures, db2.procedures)
  }

  // ---------------------------------------------------------------- the comparisons

  /** Appends the "only in" lines for two name sets, as each comparison does. */
  method AppendOnlyIn(listing: Listing, names1: set<string>, names2: set<string>, log: ComparisonLog)
    modifies log
    ensures log.lines == old(log.lines) + OnlyInEntries(listing, names1, names2)
  {
    var onlyIn1 := names1 - names2;
    if onlyIn1 != {} {
      log.Append(OnlyIn(listing, Db1, onlyIn1));
    }
    var onlyIn2 := names2 - names1;
    if onlyIn2 != {} {
      log.Append(OnlyIn(listing, Db2, onlyIn2));
    }
  }

  /** The loop of `compare_table_structure` over the common columns, in set iteration order. */
  method AppendTypeDiffs(m1: map<string, ColumnType>, m2: map<string, ColumnType>, log: ComparisonLog)
    modifies log
    ensures |log.lines| >= |old(log.lines)|
    ensures log.lines[..|old(log.lines)|] == old(log.lines)
    ensures multiset(log.lines[|old(log.lines)|..]) == multiset(TypeDiffs(m1, m2))
  {
    ghost var base := log.lines;
    ghost var added: seq<Entry> := [];
    var remaining := m1.Keys * m2.Keys;
    ghost var done: set<string> := {};
    while remaining != {}
      invariant remaining + done == m1.Keys * m2.Keys && remaining !! done
      invariant log.lines == base + added
      invariant multiset(added) == multiset(TypeDiffsAmong(m1, m2, done))
      decreases |remaining|
    {
      var column :| column in remaining;
      var type1 := NormalizeType(m1[column]);
      var type2 := NormalizeType(m2[column]);
      TypeDiffsStep(m1, m2, done, column, added);
      ghost var lines: seq<Entry> := if type1 != type2 then [ColumnTypeDiff(column, type1, type2)] else [];
      ConcatAssoc(base, added, lines);
      MoveElement(remaining, done, column);
      if type1 != type2 {
        log.Append(ColumnTypeDiff(column, type1, type2));
      }
      added := added + lines;
      remaining := remaining - {column};
      done := done + {column};
    }
    assert log.lines[..|base|] == base && log.lines[|base|..] == added;
  }

  /**
   * `compare_table_structure`: appends the table's header, a line for the columns only in
   * DB1 and one for those only in DB2 when there are any, then a type-difference line for
   * each common column whose normalised types differ (in set iteration order).
   */
  method CompareTableStructure(columns1: seq<ColumnInfo>, columns2: seq<ColumnInfo>, table: string, log: ComparisonLog)
    modifies log
    ensures |log.lines| >= |old(log.lines)|
    ensures log.lines[..|old(log.lines)|] == old(log.lines)
    ensures IsTableSection(log.lines[|old(log.lines)|..], table, ColumnMap(columns1), ColumnMap(columns2))
  {
    var m1 := ColumnMap(columns1);
    var m2 := ColumnMap(columns2);
    ghost var start := log.lines;
    log.Append(TableHeader(table));
    AppendOnlyIn(ColumnNames, m1.Keys, m2.Keys, log);
    ghost var middle := log.lines;
    AppendTypeDiffs(m1, m2, log);
    AppendedInTwoSteps(start, TableSectionHead(table, m1, m2), middle, log.lines);
  }

  /**
   * A log extended first by `head` and then by more entries: the old log is kept, and the
   * appended part is `head` followed by what the second step appended.
   */
  lemma AppendedInTwoSteps(start: seq<Entry>, head: seq<Entry>, middle: seq<Entry>, final: seq<Entry>)
    requires middle == start + head
    requires |final| >= |middle| && final[..|middle|] == middle
    ensures |final| >= |start| && final[..|start|] == start
    ensures |final[|start|..]| >= |head|
    ensures final[|start|..][..|head|] == head
    ensures final[|start|..][|head|..] == final[|middle|..]
  {
    assert final[..|middle|][..|start|] == start;
    assert final[|start|..][..|head|] == middle[|start|..];
  }

  /** Adding one more common column adds its type-difference line, if any, to what was appended. */
  lemma TypeDiffsStep(m1: map<string, ColumnType>, m2: map<string, ColumnType>, done: set<string>, c: string, added: seq<Entry>)
    requires c !in done && c in m1 && c in m2
    requires multiset(added) == multiset(TypeDiffsAmong(m1, m2, done))
    ensures var t1, t2 := NormalizeType(m1[c]), NormalizeType(m2[c]);
      multiset(added + if t1 != t2 then [ColumnTypeDiff(c, t1, t2)] else [])
      == multiset(TypeDiffsAmong(m1, m2, done + {c}))
  {
    if NormalizeType(m1[c]) != NormalizeType(m2[c]) {
      var e := ColumnTypeDiff(c, NormalizeType(m1[c]), NormalizeType(m2[c]));
      TypeDiffsGrow(m1, m2, done, c);
      assert multiset(added + [e]) == multiset(added) + multiset{e};
    } else {
      TypeDiffsKeep(m1, m2, done, c);
      assert added + [] == added;
    }
  }

  lemma TypeDiffsGrow(m1: map<string, ColumnType>, m2: map<string, ColumnType>, done: set<string>, c: string)
    requires c !in done && c in m1 && c in m2
    requires NormalizeType(m1[c]) != NormalizeType(m2[c])
    ensures var e := ColumnTypeDiff(c, NormalizeType(m1[c]), NormalizeType(m2[c]));
      e !in TypeDiffsAmong(m1, m2, done)
      && TypeDiffsAmong(m1, m2, done + {c}) == TypeDiffsAmong(m1, m2, done) + {e}
  {
  }

  lemma TypeDiffsKeep(m1: map<string, ColumnType>, m2: map<string, ColumnType>, done: set<string>, c: string)
    requires c !in done && c in m1 && c in m2
    requires NormalizeType(m1[c]) == NormalizeType(m2[c])
    ensures TypeDiffsAmong(m1, m2, done + {c}) == TypeDiffsAmong(m1, m2, done)
  {
  }

  /** Adding one more common name adds its definition-difference line, if any, to what was appended. */
  lemma DefinitionDiffsStep(kind: DefinitionKind, d1: map<string, string>, d2: map<string, string>, done: set<string>, n: string, added: seq<Entry>)
    requires n !in done && n in d1 && n in d2
    requires multiset(added) == multiset(DefinitionDiffsAmong(kind, d1, d2, done))
    ensures multiset(added + if d1[n] != d2[n] then [DefinitionDiff(kind, n)] else [])
         == multiset(DefinitionDiffsAmong(kind, d1, d2, done + {n}))
  {
    var e := DefinitionDiff(kind, n);
    var a := DefinitionDiffsAmong(kind, d1, d2, done);
    var b := DefinitionDiffsAmong(kind, d1, d2, done + {n});
    if d1[n] != d2[n] {
      assert e !in a;
      assert b == a + {e};
      assert multiset(added + [e]) == multiset(added) + multiset{e};
    } else {
      assert b == a;
      assert added + [] == added;
    }
  }

  /** The loop over the names in both maps shared by `compare_views` and `compare_stored_procedures`. */
  method AppendDefinitionDiffs(kind: DefinitionKind, d1: map<string, string>, d2: map<string, string>, log: ComparisonLog)
    modifies log
    ensures |log.lines| >= |old(log.lines)|
    ensures log.lines[..|old(log.lines)|] == old(log.lines)
    ensures multiset(log.lines[|old(log.lines)|..]) == multiset(DefinitionDiffs(kind, d1, d2))
  {
    ghost var base := log.lines;
    ghost var added: seq<Entry> := [];
    var remaining := d1.Keys * d2.Keys;
    ghost var done: set<string> := {};
    while remaining != {}
      invariant remaining + done == d1.Keys * d2.Keys && remaining !! done
      invariant log.lines == base + added
      invariant multiset(added) == multiset(DefinitionDiffsAmong(kind, d1, d2, done))
      decreases |remaining|
    {
      var name :| name in remaining;
      DefinitionDiffsStep(kind, d1, d2, done, name, added);
      ghost var lines: seq<Entry> := if d1[name] != d2[name] then [DefinitionDiff(kind, name)] else [];
      ConcatAssoc(base, added, lines);
      MoveElement(remaining, done, name);
      if d1[name] != d2[name] {
        log.Append(DefinitionDiff(kind, name));
      }
      added := added + lines;
      remaining := remaining - {name};
      done := done + {name};
    }
    assert log.lines[..|base|] == base && log.lines[|base|..] == added;
  }

  /** Regrouping a concatenation; stated once so that loops over the log need not rediscover it. */
  lemma ConcatAssoc<T>(a: seq<T>, b: seq<T>, c: seq<T>)
    ensures a + (b + c) == (a + b) + c
    ensures a + b + [] == a + b
  {
  }

  /** Moving one element from the names still to visit to those visited. */
  lemma MoveElement<T>(remaining: set<T>, done: set<T>, x: T)
    requires x in remaining && remaining !! done
    ensures (remaining - {x}) + (done + {x}) == remaining + done
    ensures (remaining - {x}) !! (done + {x})
    ensures |remaining - {x}| < |remaining|
  {
  }

  /** A sequence holding the elements of a set once each is as long as the set. */
  lemma MultisetSetLength<T>(s: seq<T>, x: set<T>)
    requires multiset(s) == multiset(x)
    ensures |s| == |x|
  {
    assert |multiset(s)| == |s|;
  }

  /**
   * The shared shape of `compare_views` and `compare_stored_procedures`: a header, the
   * "only in" lines, then a difference line for each name in both whose definition text
   * differs (in set iteration order).
   */
  method CompareDefinitions(kind: DefinitionKind, d1: map<string, string>, d2: map<string, string>, log: ComparisonLog)
    returns (ghost section: seq<Entry>)
    modifies log
    ensures log.lines == old(log.lines) + section
    ensures |section| == DefinitionSectionLength(kind, d1, d2)
    ensures IsDefinitionSection(section, kind, d1, d2)
  {
    ghost var start := log.lines;
    log.Append(DefinitionsHeader(kind));
    AppendOnlyIn(DefinitionListing(kind), d1.Keys, d2.Keys, log);
    ghost var middle := log.lines;
    AppendDefinitionDiffs(kind, d1, d2, log);
    section := log.lines[|start|..];
    DefinitionSectionAppended(kind, d1, d2, start, middle, log.lines);
  }

  /** The entries after the old log form a definitions section: its head, then the differences. */
  lemma DefinitionSectionAppended(kind: DefinitionKind, d1: map<string, string>, d2: map<string, string>,
                                  start: seq<Entry>, middle: seq<Entry>, final: seq<Entry>)
    requires middle == start + DefinitionSectionHead(kind, d1, d2)
    requires |final| >= |middle| && final[..|middle|] == middle
    requires multiset(final[|middle|..]) == multiset(DefinitionDiffs(kind, d1, d2))
    ensures |final| >= |start| && final == start + final[|start|..]
    ensures |final[|start|..]| == DefinitionSectionLength(kind, d1, d2)
    ensures IsDefinitionSection(final[|start|..], kind, d1, d2)
  {
    AppendedInTwoSteps(start, DefinitionSectionHead(kind, d1, d2), middle, final);
    MultisetSetLength(final[|middle|..], DefinitionDiffs(kind, d1, d2));
    SplitAt(final, |start|);
  }

  /** `compare_views`: appends the views section, given back as `section`. */
  method CompareViews(db1: Database, db2: Database, log: ComparisonLog) returns (ghost section: seq<Entry>)
    modifies log
    ensures log.lines == old(log.lines) + section
    ensures |section| == DefinitionSectionLength(ViewDefinition, db1.views, db2.views)
    ensures IsDefinitionSection(section, ViewDefinition, db1.views, db2.views)
  {
    section := CompareDefinitions(ViewDefinition, db1.views, db2.views, log);
  }

  /** `compare_stored_procedures`: appends the stored-procedures section, given back as `section`. */
  method CompareStoredProcedures(db1: Database, db2: Database, log: ComparisonLog) returns (ghost section: seq<Entry>)
    modifies log
    ensures log.lines == old(log.lines) + section
    ensures |section| == DefinitionSectionLength(ProcedureDefinition, db1.procedures, db2.procedures)
    ensures IsDefinitionSection(section, ProcedureDefinition, db1.procedures, db2.procedures)
  {
    section := CompareDefinitions(ProcedureDefinition, db1.procedures, db2.procedures, log);
  }

  /** A table section is exactly as long as its header, its "only in" lines and its differences. */
  lemma TableSectionLength(section: seq<Entry>, t: string, m1: map<string, ColumnType>, m2: map<string, ColumnType>)
    requires IsTableSection(section, t, m1, m2)
    ensures |section| == |TableSectionHead(t, m1, m2)| + |TypeDiffs(m1, m2)|
  {
    var head := TableSectionHead(t, m1, m2);
    assert section == head + section[|head|..];
    MultisetSetLength(section[|head|..], TypeDiffs(m1, m2));
  }

  /** Recording one more table's section. */
  lemma TableSectionsAppend(sections: seq<seq<Entry>>, order: seq<string>, section: seq<Entry>, t: string, db1: Database, db2: Database)
    requires TableSections(sections, order, db1, db2)
    requires t in db1.tables && t in db2.tables
    requires IsTableSection(section, t, ColumnMap(db1.tables[t]), ColumnMap(db2.tables[t]))
    ensures TableSections(sections + [section], order + [t], db1, db2)
    ensures Concat(sections + [section]) == Concat(sections) + section
  {
    assert (sections + [section])[..|sections|] == sections;
  }

  /**
   * The loop of `generate_comparison_log` over the tables present in both databases, in set
   * iteration order (given back as `order`); `sections` are what each comparison appended.
   */
  method CompareCommonTables(db1: Database, db2: Database, log: ComparisonLog) returns (ghost order: seq<string>, ghost sections: seq<seq<Entry>>)
    modifies log
    ensures multiset(order) == multiset(db1.tables.Keys * db2.tables.Keys)
    ensures TableSections(sections, order, db1, db2)
    ensures log.lines == old(log.lines) + Concat(sections)
  {
    ghost var start := log.lines;
    var remaining := db1.tables.Keys * db2.tables.Keys;
    ghost var done: set<string> := {};
    order := [];
    sections := [];
    while remaining != {}
      invariant remaining + done == db1.tables.Keys * db2.tables.Keys && remaining !! done
      invariant multiset(order) == multiset(done)
      invariant log.lines == start + Concat(sections)
      invariant TableSections(sections, order, db1, db2)
      decreases |remaining|
    {
      var table :| table in remaining;
      ghost var before := log.lines;
      CompareTableStructure(db1.tables[table], db2.tables[table], table, log);
      ghost var section := log.lines[|before|..];
      SplitAt(log.lines, |before|);
      TableSectionsAppend(sections, order, section, table, db1, db2);
      ConcatAssoc(start, Concat(sections), section);
      MoveElement(remaining, done, table);
      AddToOrder(order, done, table);
      order := order + [table];
      sections := sections + [section];
      remaining := remaining - {table};
      done := done + {table};
    }
  }

  /**
   * `generate_comparison_log`: the tables header and the "only in" lines for table names,
   * one table section per table present in both databases (in set iteration order, given
   * back as `order`, the sections as `sections`), then the views section, then the
   * stored-procedures section.
   */
  method GenerateComparisonLog(db1: Database, db2: Database)
    returns (lines: seq<Entry>, ghost order: seq<string>, ghost sections: seq<seq<Entry>>, ghost views: seq<Entry>, ghost procedures: seq<Entry>)
    ensures multiset(order) == multiset(db1.tables.Keys * db2.tables.Keys)
    ensures IsComparisonLog(lines, db1, db2, order, sections, views, procedures)
    ensures |lines| > 0 && lines[0] == TablesHeader
    ensures forall x :: TableHeader(x) in lines <==> x in db1.tables && x in db2.tables
  {
    var log := new ComparisonLog();
    log.Append(TablesHeader);
    AppendOnlyIn(TableNames, db1.tables.Keys, db2.tables.Keys, log);
    assert log.lines == TablesHead(db1, db2);
    order, sections := CompareCommonTables(db1, db2, log);
    views := CompareViews(db1, db2, log);
    procedures := CompareStoredProcedures(db1, db2, log);
    lines := log.lines;
    forall x ensures TableHeader(x) in lines <==> x in db1.tables && x in db2.tables {
      TableSectionIffCommon(lines, db1, db2, order, sections, views, procedures, x);
    }
  }

  /** The visited tables, in order, are the visited set plus the one just visited. */
  lemma AddToOrder(order: seq<string>, done: set<string>, t: string)
    requires multiset(order) == multiset(done) && t !in done
    ensures multiset(order + [t]) == multiset(done + {t})
  {
    assert multiset(done + {t}) == multiset(done) + multiset{t};
  }

  // ---------------------------------------------------------------- properties of the log

  /** The only-in-DB1, only-in-DB2 and common names split the names of both sides. */
  lemma NamePartition(names1: set<string>, names2: set<string>)
    ensures (names1 - names2) !! (names2 - names1)
    ensures (names1 - names2) !! (names1 * names2) && (names2 - names1) !! (names1 * names2)
    ensures (names1 - names2) + (names2 - names1) + (names1 * names2) == names1 + names2
  {
  }

  /** An "only in" line is written for a side exactly when that side has names of its own,
      and it lists exactly those names. */
  lemma OnlyInMeaning(listing: Listing, names1: set<string>, names2: set<string>, e: Entry)
    ensures e in OnlyInEntries(listing, names1, names2) <==>
      && e.OnlyIn? && e.listing == listing && e.names != {}
      && e.names == (if e.side == Db1 then names1 - names2 else names2 - names1)
  {
  }

  /** What may occur in a table section: its header, "only in" lines and type differences. */
  lemma TableSectionEntries(section: seq<Entry>, t: string, m1: map<string, ColumnType>, m2: map<string, ColumnType>, e: Entry)
    requires IsTableSection(section, t, m1, m2)
    ensures multiset(section)[e] ==
      if e.ColumnTypeDiff? then multiset(TypeDiffs(m1, m2))[e]
      else multiset(TableSectionHead(t, m1, m2))[e]
  {
    var head := TableSectionHead(t, m1, m2);
    assert section == head + section[|head|..];
    assert multiset(section) == multiset(head) + multiset(section[|head|..]);
    if e.ColumnTypeDiff? {
      assert e !in head;
    } else {
      assert e !in TypeDiffs(m1, m2);
    }
  }

  /**
   * `compare_table_structure` writes one type-difference line for a column exactly when the
   * column is in both tables and its normalised types differ, and none for any other column.
   */
  lemma TypeDiffLine(section: seq<Entry>, t: string, m1: map<string, ColumnType>, m2: map<string, ColumnType>,
                     c: string, type1: string, type2: string)
    requires IsTableSection(section, t, m1, m2)
    ensures multiset(section)[ColumnTypeDiff(c, type1, type2)] ==
      if c in m1 && c in m2 && type1 == NormalizeType(m1[c]) && type2 == NormalizeType(m2[c]) && type1 != type2
      then 1 else 0
  {
    var e := ColumnTypeDiff(c, type1, type2);
    TableSectionEntries(section, t, m1, m2, e);
    if c in m1 && c in m2 && type1 == NormalizeType(m1[c]) && type2 == NormalizeType(m2[c]) && type1 != type2 {
      assert e in TypeDiffs(m1, m2);
    }
  }

  /** Two tables with the same columns and the same normalised types add only the header. */
  lemma IdenticalTables(section: seq<Entry>, t: string, m1: map<string, ColumnType>, m2: map<string, ColumnType>)
    requires IsTableSection(section, t, m1, m2)
    requires m1.Keys == m2.Keys
    requires forall c :: c in m1 ==> NormalizeType(m1[c]) == NormalizeType(m2[c])
    ensures section == [TableHeader(t)]
  {
    assert TypeDiffs(m1, m2) == {};
    var head := TableSectionHead(t, m1, m2);
    assert head == [TableHeader(t)];
    assert |section[|head|..]| == 0;
    assert section == head + section[|head|..];
  }

  /** What may occur in a definitions section: its header, "only in" lines and its differences. */
  lemma DefinitionSectionEntries(section: seq<Entry>, kind: DefinitionKind, d1: map<string, string>, d2: map<string, string>, e: Entry)
    requires IsDefinitionSection(section, kind, d1, d2)
    ensures multiset(section)[e] ==
      if e.DefinitionDiff? then multiset(DefinitionDiffs(kind, d1, d2))[e]
      else multiset(DefinitionSectionHead(kind, d1, d2))[e]
  {
    var head := DefinitionSectionHead(kind, d1, d2);
    assert section == head + section[|head|..];
    assert multiset(section) == multiset(head) + multiset(section[|head|..]);
    if e.DefinitionDiff? {
      assert e !in head;
    } else {
      assert e !in DefinitionDiffs(kind, d1, d2);
    }
  }

  /**
   * `compare_views` and `compare_stored_procedures` write one difference line for a name
   * exactly when it is in both databases and its definition texts differ.
   */
  lemma DefinitionDiffLine(section: seq<Entry>, kind: DefinitionKind, d1: map<string, string>, d2: map<string, string>,
                           k: DefinitionKind, n: string)
    requires IsDefinitionSection(section, kind, d1, d2)
    ensures multiset(section)[DefinitionDiff(k, n)] ==
      if k == kind && n in d1 && n in d2 && d1[n] != d2[n] then 1 else 0
  {
    var e := DefinitionDiff(k, n);
    DefinitionSectionEntries(section, kind, d1, d2, e);
    if k == kind && n in d1 && n in d2 && d1[n] != d2[n] {
      assert e in DefinitionDiffs(kind, d1, d2);
    }
  }

  /** The only table header in a table section is its own. */
  lemma TableSectionHeader(section: seq<Entry>, t: string, m1: map<string, ColumnType>, m2: map<string, ColumnType>, x: string)
    requires IsTableSection(section, t, m1, m2)
    ensures TableHeader(x) in section <==> x == t
  {
    TableSectionEntries(section, t, m1, m2, TableHeader(x));
    assert TableHeader(x) in TableSectionHead(t, m1, m2) <==> x == t;
  }

  /** Dropping the last table section keeps the rest a run of table sections. */
  lemma TableSectionsSplitLast(sections: seq<seq<Entry>>, order: seq<string>, db1: Database, db2: Database)
    requires TableSections(sections, order, db1, db2) && sections != []
    ensures var n := |sections| - 1;
      && TableSections(sections[..n], order[..n], db1, db2)
      && order[n] in db1.tables && order[n] in db2.tables
      && IsTableSection(sections[n], order[n], ColumnMap(db1.tables[order[n]]), ColumnMap(db2.tables[order[n]]))
  {
  }

  /** A table header in a run of table sections names one of the tables compared. */
  lemma {:induction false} TableHeaderInSections(sections: seq<seq<Entry>>, order: seq<string>, db1: Database, db2: Database, x: string)
    requires TableSections(sections, order, db1, db2)
    ensures TableHeader(x) in Concat(sections) <==> x in order
    decreases |sections|
  {
    if sections != [] {
      var n := |sections| - 1;
      var t := order[n];
      TableSectionsSplitLast(sections, order, db1, db2);
      TableHeaderInSections(sections[..n], order[..n], db1, db2, x);
      TableSectionHeader(sections[n], t, ColumnMap(db1.tables[t]), ColumnMap(db2.tables[t]), x);
      InConcatLast(sections, TableHeader(x));
      InLast(order, x);
    }
  }

  /** An entry is in the concatenated sections exactly when it is in the earlier ones or the last. */
  lemma InConcatLast(sections: seq<seq<Entry>>, e: Entry)
    requires sections != []
    ensures var n := |sections| - 1;
      e in Concat(sections) <==> e in Concat(sections[..n]) || e in sections[n]
  {
  }

  /** An element is in a non-empty sequence exactly when it is in all but the last or is the last. */
  lemma InLast<T>(s: seq<T>, x: T)
    requires s != []
    ensures x in s <==> x in s[..|s| - 1] || x == s[|s| - 1]
  {
    assert s == s[..|s| - 1] + [s[|s| - 1]];
  }

  /** No table header occurs in the views or stored-procedures section. */
  lemma NoTableHeaderInDefinitions(section: seq<Entry>, kind: DefinitionKind, d1: map<string, string>, d2: map<string, string>, x: string)
    requires IsDefinitionSection(section, kind, d1, d2)
    ensures TableHeader(x) !in section
  {
    DefinitionSectionEntries(section, kind, d1, d2, TableHeader(x));
    assert TableHeader(x) !in DefinitionSectionHead(kind, d1, d2);
  }

  /** Membership in four concatenated parts. */
  lemma InFourParts<T>(a: seq<T>, b: seq<T>, c: seq<T>, d: seq<T>, x: T)
    ensures x in a + b + c + d <==> x in a || x in b || x in c || x in d
  {
  }

  /**
   * A table gets a "Comparing table" section exactly when it is in both databases; a table in
   * one database only is reported just by the tables' "only in" line of its side.
   */
  lemma TableSectionIffCommon(lines: seq<Entry>, db1: Database, db2: Database, order: seq<string>,
                              sections: seq<seq<Entry>>, views: seq<Entry>, procedures: seq<Entry>, x: string)
    requires IsComparisonLog(lines, db1, db2, order, sections, views, procedures)
    requires multiset(order) == multiset(db1.tables.Keys * db2.tables.Keys)
    ensures TableHeader(x) in lines <==> x in db1.tables && x in db2.tables
    ensures x in db1.tables && x !in db2.tables ==> OnlyIn(TableNames, Db1, db1.tables.Keys - db2.tables.Keys) in lines
    ensures x in db2.tables && x !in db1.tables ==> OnlyIn(TableNames, Db2, db2.tables.Keys - db1.tables.Keys) in lines
  {
    var head := TablesHead(db1, db2);
    TableHeaderInSections(sections, order, db1, db2, x);
    NoTableHeaderInDefinitions(views, ViewDefinition, db1.views, db2.views, x);
    NoTableHeaderInDefinitions(procedures, ProcedureDefinition, db1.procedures, db2.procedures, x);
    InFourParts(head, Concat(sections), views, procedures, TableHeader(x));
    assert x in order <==> x in multiset(order);
    TablesHeadEntries(db1, db2, x);
    InFourParts(head, Concat(sections), views, procedures, OnlyIn(TableNames, Db1, db1.tables.Keys - db2.tables.Keys));
    InFourParts(head, Concat(sections), views, procedures, OnlyIn(TableNames, Db2, db2.tables.Keys - db1.tables.Keys));
  }

  /**
   * The tables' head holds no table header, and a table in one database only makes its
   * side's "only in" line part of it.
   */
  lemma TablesHeadEntries(db1: Database, db2: Database, x: string)
    ensures TableHeader(x) !in TablesHead(db1, db2)
    ensures x in db1.tables && x !in db2.tables ==> OnlyIn(TableNames, Db1, db1.tables.Keys - db2.tables.Keys) in TablesHead(db1, db2)
    ensures x in db2.tables && x !in db1.tables ==> OnlyIn(TableNames, Db2, db2.tables.Keys - db1.tables.Keys) in TablesHead(db1, db2)
  {
    var only1, only2 := db1.tables.Keys - db2.tables.Keys, db2.tables.Keys - db1.tables.Keys;
    var e1 := if only1 != {} then [OnlyIn(TableNames, Db1, only1)] else [];
    var e2 := if only2 != {} then [OnlyIn(TableNames, Db2, only2)] else [];
    assert TablesHead(db1, db2) == [TablesHeader] + e1 + e2;
    assert TableHeader(x) !in e1 && TableHeader(x) !in e2;
    if x in db1.tables && x !in db2.tables {
      assert x in only1;
    }
    if x in db2.tables && x !in db1.tables {
      assert x in only2;
    }
  }

  /** In the tables' head only the first line is a header, the tables header. */
  lemma TablesHeadHeaders(db1: Database, db2: Database, k: nat)
    requires k < |TablesHead(db1, db2)| && TablesHead(db1, db2)[k].IsHeader()
    ensures k == 0 && TablesHead(db1, db2)[k] == TablesHeader
  {
  }

  /** The only header in a table section is its table header. */
  lemma TableSectionHeaders(section: seq<Entry>, t: string, m1: map<string, ColumnType>, m2: map<string, ColumnType>, e: Entry)
    requires IsTableSection(section, t, m1, m2)
    requires e in section && e.IsHeader()
    ensures e == TableHeader(t)
  {
    TableSectionEntries(section, t, m1, m2, e);
    assert e in TableSectionHead(t, m1, m2);
  }

  /** The only headers in a run of table sections are table headers. */
  lemma {:induction false} TableSectionsHeaders(sections: seq<seq<Entry>>, order: seq<string>, db1: Database, db2: Database, e: Entry)
    requires TableSections(sections, order, db1, db2)
    requires e in Concat(sections) && e.IsHeader()
    ensures e.TableHeader?
    decreases |sections|
  {
    var n := |sections| - 1;
    var t := order[n];
    TableSectionsSplitLast(sections, order, db1, db2);
    assert Concat(sections) == Concat(sections[..n]) + sections[n];
    if e in sections[n] {
      TableSectionHeaders(sections[n], t, ColumnMap(db1.tables[t]), ColumnMap(db2.tables[t]), e);
    } else {
      TableSectionsHeaders(sections[..n], order[..n], db1, db2, e);
    }
  }

  /** In a definitions section only the first line is a header, the section's own. */
  lemma DefinitionSectionHeaders(section: seq<Entry>, kind: DefinitionKind, d1: map<string, string>, d2: map<string, string>, k: nat)
    requires IsDefinitionSection(section, kind, d1, d2)
    requires k < |section|
    ensures section[k].IsHeader() ==> k == 0 && section[k] == DefinitionsHeader(kind)
  {
    var head := DefinitionSectionHead(kind, d1, d2);
    if k < |head| {
      assert section[k] == head[k];
    } else {
      DefinitionDiffsEntry(section[|head|..], kind, d1, d2, k - |head|);
      assert section[k] == section[|head|..][k - |head|];
    }
  }

  /** The lines after a definitions section's head are all definition differences. */
  lemma DefinitionDiffsEntry(tail: seq<Entry>, kind: DefinitionKind, d1: map<string, string>, d2: map<string, string>, i: nat)
    requires multiset(tail) == multiset(DefinitionDiffs(kind, d1, d2)) && i < |tail|
    ensures tail[i].DefinitionDiff?
  {
    assert tail[i] in multiset(tail);
  }

  /** Where the headers of four concatenated parts stand, given where they stand in each part. */
  lemma HeadersOfParts(head: seq<Entry>, tables: seq<Entry>, views: seq<Entry>, procedures: seq<Entry>, j: nat)
    requires j < |head + tables + views + procedures| && (head + tables + views + procedures)[j].IsHeader()
    requires forall k :: 0 <= k < |head| && head[k].IsHeader() ==> k == 0 && head[k] == TablesHeader
    requires forall k :: 0 <= k < |tables| && tables[k].IsHeader() ==> tables[k].TableHeader?
    requires forall k :: 0 <= k < |views| && views[k].IsHeader() ==> k == 0 && views[k] == DefinitionsHeader(ViewDefinition)
    requires forall k :: 0 <= k < |procedures| && procedures[k].IsHeader() ==> k == 0 && procedures[k] == DefinitionsHeader(ProcedureDefinition)
    ensures var lines, a, b := head + tables + views + procedures, |head|, |tables|;
      || (j == 0 && lines[j] == TablesHeader)
      || (a <= j < a + b && lines[j].TableHeader?)
      || (j == a + b && lines[j] == DefinitionsHeader(ViewDefinition))
      || (j == a + b + |views| && lines[j] == DefinitionsHeader(ProcedureDefinition))
  {
    var a, b, c := |head|, |tables|, |views|;
    var lines := head + tables + views + procedures;
    if j < a {
      assert lines[j] == head[j];
    } else if j < a + b {
      assert lines[j] == tables[j - a];
    } else if j < a + b + c {
      assert lines[j] == views[j - a - b];
    } else {
      assert lines[j] == procedures[j - a - b - c];
    }
  }

  /**
   * The headers of the comparison log and where they stand: the tables header first, then the
   * table headers (within the table sections), then the views header, then the stored
   * procedures header.
   */
  lemma LogHeaderAt(lines: seq<Entry>, db1: Database, db2: Database, order: seq<string>,
                    sections: seq<seq<Entry>>, views: seq<Entry>, procedures: seq<Entry>, j: nat)
    requires IsComparisonLog(lines, db1, db2, order, sections, views, procedures)
    requires j < |lines| && lines[j].IsHeader()
    ensures var a, b := |TablesHead(db1, db2)|, |Concat(sections)|;
      || (j == 0 && lines[j] == TablesHeader)
      || (a <= j < a + b && lines[j].TableHeader?)
      || (j == a + b && lines[j] == DefinitionsHeader(ViewDefinition))
      || (j == a + b + |views| && lines[j] == DefinitionsHeader(ProcedureDefinition))
  {
    var head, tables := TablesHead(db1, db2), Concat(sections);
    forall k | 0 <= k < |head| && head[k].IsHeader()
      ensures k == 0 && head[k] == TablesHeader
    {
      TablesHeadHeaders(db1, db2, k);
    }
    forall k | 0 <= k < |tables| && tables[k].IsHeader()
      ensures tables[k].TableHeader?
    {
      TableSectionsHeaders(sections, order, db1, db2, tables[k]);
    }
    forall k | 0 <= k < |views| && views[k].IsHeader()
      ensures k == 0 && views[k] == DefinitionsHeader(ViewDefinition)
    {
      DefinitionSectionHeaders(views, ViewDefinition, db1.views, db2.views, k);
    }
    forall k | 0 <= k < |procedures| && procedures[k].IsHeader()
      ensures k == 0 && procedures[k] == DefinitionsHeader(ProcedureDefinition)
    {
      DefinitionSectionHeaders(procedures, ProcedureDefinition, db1.procedures, db2.procedures, k);
    }
    HeadersOfParts(head, tables, views, procedures, j);
  }

  /** The order of sections in the log, as a rank of its headers. */
  function HeaderRank(e: Entry): nat
  {
    match e
    case TablesHeader => 0
    case TableHeader(_) => 1
    case DefinitionsHeader(k) => if k == ViewDefinition then 2 else 3
    case _ => 4
  }

  /**
   * The log is ordered: the tables header, the table sections, the views section, then the
   * stored-procedures section, each of the first, third and fourth headers appearing once.
   */
  lemma LogOrder(lines: seq<Entry>, db1: Database, db2: Database, order: seq<string>,
                 sections: seq<seq<Entry>>, views: seq<Entry>, procedures: seq<Entry>, i: nat, j: nat)
    requires IsComparisonLog(lines, db1, db2, order, sections, views, procedures)
    requires i < j < |lines| && lines[i].IsHeader() && lines[j].IsHeader()
    ensures HeaderRank(lines[i]) <= HeaderRank(lines[j])
    ensures lines[i] == lines[j] ==> lines[i].TableHeader?
  {
    LogHeaderAt(lines, db1, db2, order, sections, views, procedures, i);
    LogHeaderAt(lines, db1, db2, order, sections, views, procedures, j);
  }

  // ---------------------------------------------------------------- the log as text

  /** The log's lines as the text that `write_comparison_log` joins and writes. */
  function RenderLog(lines: seq<Entry>, setText: set<string> -> string): seq<string>
  {
    seq(|lines|, i requires 0 <= i < |lines| => Render(lines[i], setText))
  }

  /** The text of a table header is the text of no other entry. */
  lemma TableHeaderText(e: Entry, setText: set<string> -> string, x: string)
    ensures Render(e, setText) == "\nComparing table: " + x <==> e == TableHeader(x)
  {
    var prefix := "\nComparing table: ";
    var r := Render(e, setText);
    var text := prefix + x;
    assert text[0] == '\n' && text[11] == 't';
    match e
    case TablesHeader =>
      assert r[0] == 'C';
    case TableHeader(t) =>
      if r == text {
        assert t == r[|prefix|..] == text[|prefix|..] == x;
      }
    case DefinitionsHeader(k) =>
      assert r[11] != 't';
    case _ =>
      assert r[0] == ' ';
  }

  /** The table-header text is among the rendered lines exactly when the header is among the entries. */
  lemma TableHeaderRendered(lines: seq<Entry>, setText: set<string> -> string, x: string)
    ensures "\nComparing table: " + x in RenderLog(lines, setText) <==> TableHeader(x) in lines
  {
    var texts := RenderLog(lines, setText);
    if "\nComparing table: " + x in texts {
      var i :| 0 <= i < |texts| && texts[i] == "\nComparing table: " + x;
      TableHeaderText(lines[i], setText, x);
    }
    if TableHeader(x) in lines {
      var i :| 0 <= i < |lines| && lines[i] == TableHeader(x);
      TableHeaderText(lines[i], setText, x);
      assert texts[i] == "\nComparing table: " + x;
    }
  }

  /**
   * In the written log, the line "\nComparing table: <name>" appears exactly when the table
   * is in both databases.
   */
  lemma RenderedTableSectionIffCommon(lines: seq<Entry>, db1: Database, db2: Database, order: seq<string>,
                                      sections: seq<seq<Entry>>, views: seq<Entry>, procedures: seq<Entry>,
                                      setText: set<string> -> string, x: string)
    requires IsComparisonLog(lines, db1, db2, order, sections, views, procedures)
    requires multiset(order) == multiset(db1.tables.Keys * db2.tables.Keys)
    ensures "\nComparing table: " + x in RenderLog(lines, setText) <==> x in db1.tables && x in db2.tables
  {
    TableSectionIffCommon(lines, db1, db2, order, sections, views, procedures, x);
    TableHeaderRendered(lines, setText, x);
  }
}
