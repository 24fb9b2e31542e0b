# Database developer scripts: a verified model of their pure core

The repository holds developer scripts for two MySQL databases and a Spring Boot code
generator. Most of each script talks to a database or writes files. Between those calls sit
four pieces of string, sequence and set logic, and this project models those in Dafny:

- **Code generator** (`CodeGenerator/db_obj.py`), in module `DbObj` (`db_obj.dfy`). It covers:
  - conversion of snake_case names to camelCase and to PascalCase class names;
  - the SQL-to-Java type table;
  - the per-column descriptors built from a reflected catalog;
  - the table and view listing;
  - the choice of repository template;
  - the output locations of the generated entity and repository files.
- **Schema diff** (`Database/compare_db.py`), in module `CompareDb` (`compare_db.dfy`):
  - column types are normalised;
  - table, column, view and procedure names are split into only-in-DB1, only-in-DB2 and common;
  - labelled entries are appended to one comparison log, held by a `ComparisonLog` object that the comparisons update in place.
- **Table transfer** (`Database/transfer_table.py`), in module `TransferTable` (`transfer_table.dfy`). It covers:
  - rendering a row's values as a SQL tuple, with single quotes doubled, `NULL` and integers unquoted;
  - assembling the multi-row `INSERT` statement.
  
  A small reader of the produced SQL shows that every literal, tuple and statement reads back as written, for a reader that follows standard SQL quoting. In standard quoting only a doubled quote is special, as in MySQL's `NO_BACKSLASH_ESCAPES` mode; MySQL's default backslash escapes are not part of that reader.
- **View transfer** (`Database/transfer_view.py`), in module `TransferView` (`transfer_view.dfy`): the chain of replace-all and strip steps that cleans a captured view definition, and the `CREATE VIEW` statement built from it.
- **Selection** (module `Selection`, `selection.dfy`). Both transfer scripts parse an operator's comma-separated 1-based numbers in the same way, and this module is that shared parsing, including Python's negative indexing and its two errors.

`strings.dfy` models the Python `str` operations the scripts use, on ASCII text:
- `split`, `join`, `capitalize`, `lower` and `upper`;
- left-to-right `replace` and `strip`;
- `int()` and `str()` of integers.

`wrappers.dfy` holds `Option` and `Result`.

The databases are plain values. A catalog is a set of tables, views and relations. A database for the diff is a map from table names to column lists, plus maps from view and procedure names to their definition text.

Python's set iteration order is not fixed. Each loop over a set is therefore modelled with a choice (`:|`) of the next element. The specification of each section fixes the header and "only in" lines in order, and fixes the per-item lines as a multiset.

## Model

| member | source | states |
|---|---|---|
| `Strings.Split` | CodeGenerator/db_obj.py:87 | `str.split(sep)`: never empty, and no part contains the separator |
| `Strings.Join` | Database/transfer_table.py:63 | `sep.join(parts)`: as long as the parts together plus one separator between each pair of neighbours |
| `Strings.Lower` | CodeGenerator/db_obj.py:88 | `str.lower()`: same length, no upper-case ASCII letter left, every other character unchanged; each character is the same letter as the input's at that place, ignoring case |
| `Strings.Upper` | CodeGenerator/db_obj.py:117 | `str.upper()`: same length, no lower-case ASCII letter left, every other character unchanged; each character is the same letter as the input's at that place, ignoring case |
| `Strings.Capitalize` | CodeGenerator/db_obj.py:88 | `str.capitalize()`: same length, the first character not lower-case, no upper-case letter after it; each character is the same letter as the input's at that place, ignoring case |
| `Strings.SplitJoin` | CodeGenerator/db_obj.py:87 | splitting a join of separator-free parts on that separator gives the parts back |
| `Strings.JoinSplit` | CodeGenerator/db_obj.py:87 | joining the parts of a split with the separator gives the text back |
| `Strings.Strip` | Database/transfer_view.py:43-45 | `str.strip()`: no longer than its input, with no whitespace at either end |
| `Strings.StripRemovesOnlySpace` | Database/transfer_view.py:43-45 | the stripped text is the input between its leading and its trailing whitespace run, and everything cut off on either side is whitespace |
| `Strings.StripIdempotent` | Database/transfer_view.py:44-45 | stripping twice is stripping once |
| `Strings.ReplaceAllAbsent` | Database/transfer_view.py:41-45 | replacing a pattern that does not occur changes nothing |
| `Strings.ReplaceAll` | Database/transfer_view.py:41-45 | `str.replace`, one left-to-right scan over non-overlapping occurrences; a replacement no longer than the pattern never lengthens the text |
| `Strings.ReplaceAllFirst` | Database/transfer_view.py:41-45 | the text before the first occurrence is kept as it is, that occurrence becomes the replacement, and the scan resumes right after it |
| `Strings.ReplaceAllPatFirst` | Database/transfer_view.py:44 | a text that starts with the pattern gets the replacement in front of the rest, itself replaced |
| `Strings.RemoveSoleOccurrence` | Database/transfer_view.py:41-45 | removing a pattern that occurs exactly once, where nothing around it can combine with it into another occurrence, joins the text before and after it |
| `Strings.ReplaceCharMap` | CodeGenerator/db_obj.py:145 | replacing a one-character pattern by one character maps each character on its own: the pattern character becomes the replacement, every other character stays |
| `Strings.IntRoundTrip` | Database/transfer_table.py:54-56 | `int(str(i)) == i` for every integer, negative ones included |
| `Strings.IntToString` | Database/transfer_table.py:54-56 | `str(i)`: a minus sign followed by digits exactly for a negative number, only digits otherwise |
| `Strings.ParseInt` | Database/transfer_table.py:33 | `int(s)` on stripped text: accepted exactly when the text is a non-empty run of decimal digits, optionally after one `+` or `-`; the value is the digits' decimal value, negated after `-`; anything else (empty, a lone sign, a letter, an inner space) is rejected |
| `Strings.LeadingZeroIgnored` | Database/transfer_table.py:33 | a leading zero does not change what `int()` reads: `int("07") == int("7")` |
| `Selection.EntryNumber` | Database/transfer_table.py:33 | `int(entry.strip())` succeeds exactly when the stripped entry is an optionally signed run of decimal digits |
| `Selection.EntryNumberRoundTrip` | Database/transfer_table.py:33 | a number printed with whitespace on either side is read back as that number |
| `Strings.NatToStringInjective` | Database/compare_db.py:20 | distinct lengths print as distinct decimal texts |
| `Selection.PyIndex` | Database/transfer_table.py:34 | `items[i]`: succeeds exactly for -len <= i < len, a negative index counting from the end; otherwise an `IndexError`; the index it carries is the model's own annotation, Python's error carries only a message |
| `Selection.ZeroBasedIndices` | Database/transfer_table.py:33 | succeeds exactly when every entry parsed, giving each number minus one in order; otherwise a ValueError |
| `Selection.PickAll` | Database/transfer_table.py:34 | succeeds exactly when every index is in range, picking each in order; otherwise an `IndexError` |
| `Selection.SelectByNumbers` | Database/transfer_table.py:32-34 | a successful selection has one item per entry, each taken from the list |
| `Selection.SelectNumbers` | Database/transfer_table.py:33-34 | succeeds iff every number parsed and lies in 1-len..len; keeps entry order and repeats; k >= 1 picks item k-1 and k <= 0 picks item len+k-1; an unparsable entry gives ValueError even when another is out of range; with all parsed, a failure is an IndexError (the same code is `select_views`, `transfer_view.py:29-31`) |
| `Selection.SelectSingleNumber` | Database/transfer_table.py:32-34 | entering one k with 1 <= k <= len selects exactly `[items[k-1]]`; entering 0 selects the last item |
| `DbObj.CaseScanAgrees` | CodeGenerator/db_obj.py:86-92 | both name conversions equal one character scan that drops underscores and upper-cases the character after one |
| `DbObj.ToCamelCase` | CodeGenerator/db_obj.py:86-88 | a name starting with a letter keeps that letter, lower-cased, as the first character |
| `DbObj.GenerateClassName` | CodeGenerator/db_obj.py:91-92 | a name starting with a letter keeps that letter, upper-cased, as the first character |
| `DbObj.LeadingUnderscoreCapitalizes` | CodeGenerator/db_obj.py:87-88 | a leading underscore leaves the first segment empty, so `_id` becomes `Id`: the camel-case name then starts with a capital |
| `DbObj.CamelCaseShape` | CodeGenerator/db_obj.py:86-88 | the camelCase name contains no `_`, and its length is the input's minus its underscores |
| `DbObj.ClassNameShape` | CodeGenerator/db_obj.py:91-92 | the class name contains no `_`, and its length is the input's minus its underscores, so leading, trailing or doubled underscores only vanish |
| `DbObj.NoUnderscoreConversions` | CodeGenerator/db_obj.py:86-92 | an underscore-free name becomes its lower-cased self in camelCase and its capitalization as a class name |
| `DbObj.ClassNameAndCamelCase` | CodeGenerator/db_obj.py:86-92 | with a non-empty first segment, class name and camelCase name differ only in the first character, upper-cased in one and lower-cased in the other |
| `DbObj.JavaTypeTable` | CodeGenerator/db_obj.py:75-84 | the seven listed Java types, and `String` for every other key |
| `DbObj.JavaType` | CodeGenerator/db_obj.py:117 | the lookup always gives one of the table's Java types, and `String` for a key outside the table |
| `DbObj.GetColumns` | CodeGenerator/db_obj.py:95-120 | one descriptor per catalog column, in order, with its camelCase name, upper-cased type and Java type; primary key exactly when constrained (no constraint entry means none); auto-increment only on primary keys; a missing relation is an error |
| `DbObj.ListTables` | CodeGenerator/db_obj.py:182-187 | the tables, then the views, duplicates kept, and the length is the sum |
| `DbObj.IsView` | CodeGenerator/db_obj.py:125-127 | a name that is a view is among the listed names |
| `DbObj.PackageDirectory` | CodeGenerator/db_obj.py:145 | `package_name.replace('.', sep)`: same length, each dot turned into the separator, every other character kept |
| `DbObj.PackageDirectoryLevels` | CodeGenerator/db_obj.py:145 | the package directory has no dot, and its separator-split levels are the package's dot-split parts |
| `DbObj.GenerateEntity` | CodeGenerator/db_obj.py:130-147 | the entity file `<ClassName>.java` under `src/main/java/<package dir>/entity`, rendered with the package, table, class name and the column descriptors; a missing relation is an error |
| `DbObj.GenerateRepository` | CodeGenerator/db_obj.py:155-174 | the view template exactly when the name is a view; `<ClassName>Repository.java` under `src/main/java/<package dir>/repository` |
| `CompareDb.NormalizeType` | Database/compare_db.py:14-23 | of the two families only the Integer family gives `INTEGER`; a String-family type gives `VARCHAR(` + its length's text + `)`; any other type gives its own text, `str(column_type)` |
| `CompareDb.NormalizeTypeEquality` | Database/compare_db.py:14-20 | two Integer-family types always compare equal; two String-family types compare equal exactly when their lengths agree; the families never compare equal |
| `CompareDb.ColumnMap` | Database/compare_db.py:30-31 | the map's keys are exactly the column names |
| `CompareDb.ColumnMapLastWins` | Database/compare_db.py:30-31 | a name maps to the type of its last column |
| `CompareDb.Render` | Database/compare_db.py:33-50 | a line starts with two spaces exactly when it is not a section header |
| `CompareDb.ComparisonLog.constructor` | Database/compare_db.py:110 | the log starts empty |
| `CompareDb.ComparisonLog.Append` | Database/compare_db.py:116 | `log.append(e)` adds `e` at the end and changes nothing else |
| `CompareDb.AppendOnlyIn` | Database/compare_db.py:119-126 | appends the only-in-DB1 line and then the only-in-DB2 line, each only when its set is non-empty |
| `CompareDb.AppendTypeDiffs` | Database/compare_db.py:46-50 | keeps the log and appends exactly the type-difference lines of the common columns, one each, in any order |
| `CompareDb.CompareTableStructure` | Database/compare_db.py:26-50 | keeps the log and appends a table section: header, "only in" lines, then the type differences |
| `CompareDb.AppendDefinitionDiffs` | Database/compare_db.py:74-78 | keeps the log and appends one difference line per common name whose definition text differs |
| `CompareDb.CompareDefinitions` | Database/compare_db.py:61-78 | returns the section it appended: the new log is the old log followed by it, its length is header plus "only in" lines plus differences, and it is a definitions section (header, "only in" lines, then one line per name in both with differing text, as a multiset) |
| `CompareDb.CompareViews` | Database/compare_db.py:53-78 | the new log is the old log followed by the returned views section, which has the definitions-section shape over the two view maps |
| `CompareDb.CompareStoredProcedures` | Database/compare_db.py:81-106 | the new log is the old log followed by the returned stored-procedures section, which has the definitions-section shape over the two procedure maps |
| `CompareDb.CompareCommonTables` | Database/compare_db.py:129-130 | one table section per table in both databases, each once, appended in iteration order |
| `CompareDb.GenerateComparisonLog` | Database/compare_db.py:109-138 | the log is the tables header and its "only in" lines, the table sections of all common tables (each common table once), the views section, then the stored-procedures section; it starts with the tables header, and a "Comparing table" header for a name is in it exactly when the table is in both databases |
| `CompareDb.TableSectionLength` | Database/compare_db.py:33-50 | a table section is as long as its header, its "only in" lines and its type differences |
| `CompareDb.NamePartition` | Database/compare_db.py:36-46 | only-in-DB1, only-in-DB2 and common names are pairwise disjoint and cover both sides |
| `CompareDb.OnlyInMeaning` | Database/compare_db.py:36-43 | an "only in" line exists for a side exactly when that side has names of its own, and it lists exactly those |
| `CompareDb.TableSectionEntries` | Database/compare_db.py:33-50 | a table section holds only its header, its "only in" lines and its type differences |
| `CompareDb.TypeDiffLine` | Database/compare_db.py:46-50 | a type-difference line appears once for a column exactly when it is in both tables with differing normalised types, carrying those types; otherwise never |
| `CompareDb.IdenticalTables` | Database/compare_db.py:33-50 | tables with the same columns and normalised types add only the header |
| `CompareDb.DefinitionSectionEntries` | Database/compare_db.py:61-78 | a definitions section holds only its header, its "only in" lines and its differences |
| `CompareDb.DefinitionDiffLine` | Database/compare_db.py:74-78 | a difference line appears once for a name exactly when it is in both databases with differing text; otherwise never |
| `CompareDb.TableSectionHeader` | Database/compare_db.py:33 | the only table header in a section is its own |
| `CompareDb.TableHeaderInSections` | Database/compare_db.py:129-130 | the table headers of the table sections are exactly those of the tables compared |
| `CompareDb.NoTableHeaderInDefinitions` | Database/compare_db.py:61-106 | the views and procedures sections hold no table header |
| `CompareDb.TableSectionIffCommon` | Database/compare_db.py:119-130 | a table gets a section exactly when it is in both databases; a one-sided table is listed in its side's "only in" line |
| `CompareDb.TableHeaderText` | Database/compare_db.py:33 | the text "\nComparing table: <name>" is the rendering of that table's header and of no other log line |
| `CompareDb.RenderedTableSectionIffCommon` | Database/compare_db.py:141-145 | in the written log, the line "\nComparing table: <name>" appears exactly when the table is in both databases |
| `CompareDb.TableSectionsHeaders` | Database/compare_db.py:129-130 | the only headers among the table sections are table headers |
| `CompareDb.DefinitionSectionHeaders` | Database/compare_db.py:61-78 | in a definitions section only the first line is a header, the section's own |
| `CompareDb.LogHeaderAt` | Database/compare_db.py:109-138 | where each header stands: tables header first, table headers within the table sections, then the views header, then the procedures header |
| `CompareDb.LogOrder` | Database/compare_db.py:109-138 | headers occur in section order, and only table headers repeat |
| `TransferTable.RenderValue` | Database/transfer_table.py:42-60 | never empty; `NULL` exactly for None; quoted exactly for dicts, strings and other values, bare for None, ints and bools |
| `TransferTable.SqlTuple` | Database/transfer_table.py:63 | the tuple opens with `(` and closes with `)` |
| `TransferTable.ConvertToSqlValues` | Database/transfer_table.py:37-63 | the loop builds `"(" + value texts joined by ", " + ")"` |
| `TransferTable.EscapeRoundTrip` | Database/transfer_table.py:45-49 | collapsing each `''` of an escaped string back to `'` gives the string |
| `TransferTable.EscapePairsQuotes` | Database/transfer_table.py:45-59 | an escaped string holds its quotes in adjacent pairs, so every run of quotes has even length |
| `TransferTable.RenderValueMeaning` | Database/transfer_table.py:42-60 | None is the bare `NULL`; an integer is a decimal that reads back as itself; a bool is `True` or `False` unquoted; other values are quoted and collapse back to their text |
| `TransferTable.QuotedRoundTrip` | Database/transfer_table.py:47-50 | a SQL reader reads an escaped string up to its closing quote and gets the string back |
| `TransferTable.LiteralRoundTrip` | Database/transfer_table.py:42-60 | every value's text reads back as its literal, stopping at the next `,` or `)` |
| `TransferTable.LiteralsRoundTrip` | Database/transfer_table.py:63 | a non-empty row's texts joined by ", " and closed read back as the row's literals |
| `TransferTable.TupleRoundTrip` | Database/transfer_table.py:63 | a row's tuple reads back as the row's literals, whatever follows |
| `TransferTable.GenerateInsertSql` | Database/transfer_table.py:66-72 | the statement is longer than its head and ends with `;`; with no rows it is the head and `;` |
| `TransferTable.TuplesRoundTrip` | Database/transfer_table.py:69-71 | the tuples joined by ",\n" and closed by `;` read back as the rows' literals |
| `TransferTable.InsertRoundTrip` | Database/transfer_table.py:66-72 | the statement starts with `INSERT INTO <table> (<columns>) VALUES` and a newline, and the rest reads back as every row's literals in order |
| `TransferView.CleanViewDefinition` | Database/transfer_view.py:41-45 | the cleaned definition is never longer than the captured one and has no whitespace at either end |
| `TransferView.CapturedDefinitionCleaned` | Database/transfer_view.py:41-45 | a definition as MySQL reports it, `CREATE ALGORITHM=UNDEFINED DEFINER=`root`@`%` SQL SECURITY DEFINER VIEW `<name>` AS <body>`, comes out as the stripped body, for a name without `=` and a name and body that hold none of the markers |
| `TransferView.NameEndingInViewWord` | Database/transfer_view.py:44-45 | for a view named `<p>VIEW`, the same captured definition comes out as `` `<p>` AS `` followed by the body: the name loses its `VIEW` and the quoted name is no longer found |
| `TransferView.CreateViewSql` | Database/transfer_view.py:48 | the statement is `CREATE VIEW <name> AS ` followed by the cleaned definition, whose ends are not whitespace |
| `TransferView.NoMarkersOnlyStripped` | Database/transfer_view.py:41-45 | a definition holding none of the six markers comes out only stripped |
| `TransferView.SinglePassLeavesMarker` | Database/transfer_view.py:44 | one replace-all pass can leave a marker behind: `VIVIEWEW` becomes `VIEW` |
| `TransferView.ViewWordRemovedInsideNames` | Database/transfer_view.py:44 | the `VIEW` removal also cuts the word out of identifiers: `REVIEW_ID` becomes `RE_ID` |

## Left out

- Database access is not modelled: engines, sessions, inspectors, `SHOW ...` queries, `execute` and `commit`. The catalogs and definition texts are given as input values instead.
- The Jinja2 templates (`CodeGenerator/db_obj.py:15-72`) are rendered by a third-party engine. The model keeps which template is chosen and what it is rendered with, but not the rendered text.
- File output is not modelled: `os.makedirs`, `open`/`write` and the `print` calls. The output path is a sequence of segments instead of the result of `os.path.join`, and the directory separator is a parameter.
- Console input is not modelled. The `main` block of `db_obj.py` selects a single table by `int(input()) - 1`, and that selection is left out.
- The transfer loops and their per-item `try`/`except` (`transfer_table.py:74-127`, `transfer_view.py:53-65`) are I/O and are left out. So is the `CREATE TABLE` statement produced by `CreateTable(...).compile`, a library call.
- `TransferTable.RenderValueMeaning`: floats (`transfer_table.py:54-56`) are left out, because `str(float)` is floating point. A value that is neither a dict, a string, None, an int nor a bool is an `OtherValue` carrying its `str()`.
- `json.dumps` of a dict is taken as a given string.
- In `CompareDb`, a type's `str()` is taken as a given string. So is Python's set repr in the "only in" lines, which is a parameter of `Render`.
- `CompareDb.GenerateComparisonLog` fixes the order of the per-item lines only as a multiset, because Python's set iteration order is not determined. The order in which common tables are compared is given back as a ghost sequence holding each common table once.
- Only ASCII is modelled. `lower`, `upper`, `capitalize` and `strip` act on ASCII letters and ASCII whitespace only. `int()` accepts an optional sign and decimal digits, but not underscores or non-ASCII digits.
- `DbObj.GetColumns`: the `autoincrement` entry of a reflected column is modelled as a boolean that every column has. SQLAlchemy's `"auto"` value is not distinguished. `get_columns` reads the entry by direct indexing (`db_obj.py:106`), so a primary-key column whose record lacks it raises `KeyError`; that error is not modelled.
- `TransferTable.QuotedRoundTrip`: holds for a reader that follows standard SQL quoting, where only a doubled quote is special (MySQL's `NO_BACKSLASH_ESCAPES` mode). Under MySQL's default mode a backslash also escapes, so a value holding `\` (such as `a\`, rendered `'a\'`) or the `\"` and `\n` that `json.dumps` writes does not read back as written.
- `TransferTable.LiteralRoundTrip`: the same standard-quoting reader; under MySQL's default backslash escapes a value holding `\` does not read back.
- `TransferTable.LiteralsRoundTrip`: the same standard-quoting reader; under MySQL's default backslash escapes a value holding `\` does not read back.
- `TransferTable.TupleRoundTrip`: the same standard-quoting reader; under MySQL's default backslash escapes a value holding `\` does not read back.
- `TransferTable.TuplesRoundTrip`: the same standard-quoting reader; under MySQL's default backslash escapes a value holding `\` does not read back.
- `TransferTable.InsertRoundTrip`: the same standard-quoting reader; under MySQL's default backslash escapes a value holding `\` does not read back.
- The INSERT statement is run through SQLAlchemy's `text()` (`transfer_table.py:120`), which takes a `:word` inside a value for a bind parameter. That reading is not modelled.

## Behaviour of the code

The model follows the code in these places, where a reader might expect otherwise:
- `DATE` and `DATETIME` map to `LocalDateTime`, and `DECIMAL` to `BigDecimal`;
- auto-increment is honoured on any primary key, with no integer-type guard;
- only the entity and repository files are generated;
- a camel-case name does not always start in lower case: a leading underscore leaves the first segment empty, so `_id` becomes `Id` (`DbObj.LeadingUnderscoreCapitalizes`);
- the view cleaning removes only the exact spellings `DEFINER=`root`@`%``, `SQL SECURITY DEFINER` and `CREATE ALGORITHM=UNDEFINED`; any other definer, `SQL SECURITY INVOKER` and `ALGORITHM=MERGE` or `TEMPTABLE` stay in the text that follows `CREATE VIEW <name> AS`;
- a view whose name holds `VIEW` keeps a broken head: for the view `A_VIEW` with body `x`, the `VIEW` removal turns `` `A_VIEW` AS x `` into `` `A_` AS x ``, the quoted-name removal then finds nothing, and the script builds ``CREATE VIEW A_VIEW AS `A_` AS x`` (`TransferView.NameEndingInViewWord`).
