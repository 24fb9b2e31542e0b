/**
 * The code generator's pure core: identifier case conversion, the SQL-to-Java type table,
 * column descriptors built from a reflected catalog, the table/view listing, the choice of
 * repository template and the output file locations.
 */
module DbObj {
  import opened Wrappers
  import opened Strings

  // ---------------------------------------------------------------- identifiers

  /** Python's `''.join(x.capitalize() for x in parts)` */
  function CapitalizedConcat(parts: seq<string>): string
  {
    Join("", seq(|parts|, i requires 0 <= i < |parts| => Capitalize(parts[i])))
  }

  /**
   * `to_camel_case`: the first segment lower-cased, every later segment capitalized. A name
   * that starts with a letter keeps it, lower-cased, as its first character.
   */
  function ToCamelCase(s: string): (r: string)
    ensures s != [] && s[0] != '_' ==> r != [] && r[0] == LowerChar(s[0])
  {
    var components := Split(s, '_');
    Lower(components[0]) + CapitalizedConcat(components[1..])
  }

  /**
   * `generate_class_name`: every segment capitalized. A name that starts with a letter
   * keeps it, upper-cased, as its first character.
   */
  function GenerateClassName(tableName: string): (r: string)
    ensures tableName != [] && tableName[0] != '_' ==> r != [] && r[0] == UpperChar(tableName[0])
  {
    var parts := Split(tableName, '_');
    assert parts == [parts[0]] + parts[1..];
    CapitalizedConcatCons(parts[0], parts[1..]);
    CapitalizedConcat(parts)
  }

  /**
   * A one-pass reading of both conversions: underscores are dropped, the character after
   * an underscore is upper-cased, every other character lower-cased. `capitalizeNext`
   * says whether the next character starts a segment that is capitalized.
   */
  function CaseScan(s: string, capitalizeNext: bool): string
    decreases |s|
  {
    if s == [] then ""
    else if s[0] == '_' then CaseScan(s[1..], true)
    else [if capitalizeNext then UpperChar(s[0]) else LowerChar(s[0])] + CaseScan(s[1..], false)
  }

  lemma CapitalizedConcatCons(p: string, rest: seq<string>)
    ensures CapitalizedConcat([p] + rest) == Capitalize(p) + CapitalizedConcat(rest)
  {
    var all := [p] + rest;
    var caps := seq(|all|, i requires 0 <= i < |all| => Capitalize(all[i]));
    var restCaps := seq(|rest|, i requires 0 <= i < |rest| => Capitalize(rest[i]));
    assert caps == [Capitalize(p)] + restCaps;
    ConcatCons(Capitalize(p), restCaps);
  }

  /** Both conversions agree with the one-pass reading, starting in its two states. */
  lemma {:induction false} CaseScanAgrees(s: string)
    ensures GenerateClassName(s) == CaseScan(s, true)
    ensures ToCamelCase(s) == CaseScan(s, false)
    decreases |s|
  {
    if s == [] {
      CapitalizedConcatCons("", []);
    } else {
      CaseScanAgrees(s[1..]);
      if s[0] == '_' {
        ScanStepUnderscore(s);
      } else {
        ScanStepLetter(s);
      }
    }
  }

  lemma ScanStepUnderscore(s: string)
    requires s != [] && s[0] == '_'
    requires GenerateClassName(s[1..]) == CaseScan(s[1..], true)
    ensures GenerateClassName(s) == CaseScan(s, true)
    ensures ToCamelCase(s) == CaseScan(s, false)
  {
    var rest := Split(s[1..], '_');
    var parts := Split(s, '_');
    assert parts == [""] + rest;
    assert parts[1..] == rest;
    CapitalizedConcatCons("", rest);
  }

  lemma ScanStepLetter(s: string)
    requires s != [] && s[0] != '_'
    requires ToCamelCase(s[1..]) == CaseScan(s[1..], false)
    ensures GenerateClassName(s) == CaseScan(s, true)
    ensures ToCamelCase(s) == CaseScan(s, false)
  {
    ClassNameStepLetter(s);
    CamelStepLetter(s);
  }

  lemma ClassNameStepLetter(s: string)
    requires s != [] && s[0] != '_'
    requires ToCamelCase(s[1..]) == CaseScan(s[1..], false)
    ensures GenerateClassName(s) == CaseScan(s, true)
  {
    var rest := Split(s[1..], '_');
    var parts := Split(s, '_');
    CaseScanLetter(s);
    SplitLetterCons(s, rest, parts);
    ClassNameStep(s[0], rest[0], rest[1..], parts);
    assert GenerateClassName(s) == CapitalizedConcat(parts);
  }

  lemma CamelStepLetter(s: string)
    requires s != [] && s[0] != '_'
    requires ToCamelCase(s[1..]) == CaseScan(s[1..], false)
    ensures ToCamelCase(s) == CaseScan(s, false)
  {
    var rest := Split(s[1..], '_');
    var parts := Split(s, '_');
    CaseScanLetter(s);
    SplitLetterCons(s, rest, parts);
    CamelStep(s[0], rest[0], rest[1..], parts);
    CamelGlue(s, parts, [LowerChar(s[0])] + (Lower(rest[0]) + CapitalizedConcat(rest[1..])));
  }

  lemma CamelGlue(s: string, parts: seq<string>, t: string)
    requires parts == Split(s, '_')
    requires Lower(parts[0]) + CapitalizedConcat(parts[1..]) == t
    ensures ToCamelCase(s) == t
  {
  }

  lemma CaseScanLetter(s: string)
    requires s != [] && s[0] != '_'
    ensures CaseScan(s, true) == [UpperChar(s[0])] + CaseScan(s[1..], false)
    ensures CaseScan(s, false) == [LowerChar(s[0])] + CaseScan(s[1..], false)
  {
  }

  lemma SplitLetterCons(s: string, rest: seq<string>, parts: seq<string>)
    requires s != [] && s[0] != '_'
    requires rest == Split(s[1..], '_') && parts == Split(s, '_')
    ensures parts == [[s[0]] + rest[0]] + rest[1..]
    ensures ToCamelCase(s[1..]) == Lower(rest[0]) + CapitalizedConcat(rest[1..])
  {
  }

  lemma ClassNameStep(c: char, first: string, more: seq<string>, parts: seq<string>)
    requires parts == [[c] + first] + more
    ensures CapitalizedConcat(parts) == [UpperChar(c)] + (Lower(first) + CapitalizedConcat(more))
  {
    CapitalizedConcatCons([c] + first, more);
    CapitalizeCons(c, first);
    Reassociate([UpperChar(c)], Lower(first), CapitalizedConcat(more));
  }

  lemma CamelStep(c: char, first: string, more: seq<string>, parts: seq<string>)
    requires parts == [[c] + first] + more
    ensures Lower(parts[0]) + CapitalizedConcat(parts[1..])
         == [LowerChar(c)] + (Lower(first) + CapitalizedConcat(more))
  {
    assert parts[0] == [c] + first && parts[1..] == more;
    LowerCons(c, first);
    Reassociate([LowerChar(c)], Lower(first), CapitalizedConcat(more));
  }

  lemma {:induction false} CaseScanShape(s: string, capitalizeNext: bool)
    ensures '_' !in CaseScan(s, capitalizeNext)
    ensures |CaseScan(s, capitalizeNext)| == |s| - CountChar(s, '_')
    decreases |s|
  {
    if s != [] {
      CaseScanShape(s[1..], true);
      CaseScanShape(s[1..], false);
    }
  }

  /**
   * The camel-case name holds no underscore, and is as long as the input without its
   * underscores (case mapping is length-preserving on ASCII).
   */
  lemma CamelCaseShape(s: string)
    ensures '_' !in ToCamelCase(s)
    ensures |ToCamelCase(s)| == |s| - CountChar(s, '_')
  {
    CaseScanAgrees(s);
    CaseScanShape(s, false);
  }

  /** The class name holds no underscore; leading, trailing or doubled underscores only vanish. */
  lemma ClassNameShape(s: string)
    ensures '_' !in GenerateClassName(s)
    ensures |GenerateClassName(s)| == |s| - CountChar(s, '_')
  {
    CaseScanAgrees(s);
    CaseScanShape(s, true);
  }

  /** Without underscores, the camel-case name is the lower-cased input and the class name its capitalization. */
  lemma NoUnderscoreConversions(s: string)
    requires '_' !in s
    ensures ToCamelCase(s) == Lower(s)
    ensures GenerateClassName(s) == Capitalize(s)
  {
    SplitJoin([s], '_');
    assert Join(['_'], [s]) == s;
    assert Split(s, '_') == [s];
    assert Split(s, '_')[1..] == [];
    CapitalizedConcatCons(s, []);
  }

  /**
   * When the first segment is non-empty, the class name and the camel-case name differ
   * only in their first character: upper-cased in one, lower-cased in the other.
   */
  lemma ClassNameAndCamelCase(s: string)
    requires s != [] && s[0] != '_'
    ensures var cls, camel := GenerateClassName(s), ToCamelCase(s);
      |cls| == |camel| > 0
      && cls[0] == UpperChar(s[0]) && camel[0] == LowerChar(s[0])
      && cls[1..] == camel[1..]
  {
    CaseScanAgrees(s);
  }

  /**
   * A leading underscore makes the first segment empty, so the camel-case name then starts
   * with a capital letter: `_id` becomes `Id`.
   */
  lemma LeadingUnderscoreCapitalizes()
    ensures ToCamelCase("_id") == "Id"
  {
    CaseScanAgrees("_id");
    assert "_id"[1..] == "id" && "id"[1..] == "d" && "d"[1..] == "";
  }

  // ---------------------------------------------------------------- type mapping

  /** MySQL type names (upper-cased class names) to Java types. */
  const TypeMapping: map<string, string> := map[
    "INTEGER" := "Integer",
    "BIGINT" := "Long",
    "VARCHAR" := "String",
    "TEXT" := "String",
    "DATE" := "LocalDateTime",
    "DATETIME" := "LocalDateTime",
    "DECIMAL" := "BigDecimal"]

  /** `type_mapping.get(key, 'String')`: always one of the table's Java types. */
  function JavaType(typeName: string): (r: string)
    ensures r in {"Integer", "Long", "String", "LocalDateTime", "BigDecimal"}
    ensures typeName !in TypeMapping ==> r == "String"
  {
    if typeName in TypeMapping then TypeMapping[typeName] else "String"
  }

  /** The table's seven entries, and "String" for every other key: the lookup is total. */
  lemma JavaTypeTable(typeName: string)
    ensures JavaType("INTEGER") == "Integer" && JavaType("BIGINT") == "Long"
    ensures JavaType("VARCHAR") == "String" && JavaType("TEXT") == "String"
    ensures JavaType("DATE") == "LocalDateTime" && JavaType("DATETIME") == "LocalDateTime"
    ensures JavaType("DECIMAL") == "BigDecimal"
    ensures typeName !in {"INTEGER", "BIGINT", "VARCHAR", "TEXT", "DATE", "DATETIME", "DECIMAL"}
      ==> JavaType(typeName) == "String"
  {
  }

  // ---------------------------------------------------------------- catalog and columns

  /** A column as the catalog reflects it: `typeClass` is the name of its type's class. */
  datatype CatalogColumn = CatalogColumn(
    name: string,
    typeClass: string,
    length: Option<nat>,     // the type's `length`, None when it has none
    autoincrement: bool)

  /** A table or view: its columns in catalog order, and its primary-key constraint's
      `constrained_columns` entry (None when the entry is absent). */
  datatype Relation = Relation(columns: seq<CatalogColumn>, constrainedColumns: Option<seq<string>>)

  datatype Catalog = Catalog(
    tableNames: seq<string>,
    viewNames: seq<string>,
    relations: map<string, Relation>)

  datatype CatalogError = NoSuchTable(name: string)

  /** The per-column record handed to the entity template. */
  datatype ColumnDescriptor = ColumnDescriptor(
    name: string,
    camelCaseName: string,
    typeName: string,
    isPrimaryKey: bool,
    isAutoIncrement: bool,
    javaType: string,
    length: Option<nat>)

  /** `d` is the descriptor of catalog column `c` when the primary key is `primaryKeys`. */
  ghost predicate Describes(d: ColumnDescriptor, c: CatalogColumn, primaryKeys: seq<string>)
  {
    && d.name == c.name
    && d.camelCaseName == ToCamelCase(c.name)
    && d.typeName == Upper(c.typeClass)
    && d.isPrimaryKey == (c.name in primaryKeys)
    && d.isAutoIncrement == (d.isPrimaryKey && c.autoincrement)
    && d.javaType == JavaType(Upper(c.typeClass))
    && d.length == c.length
  }

  /**
   * `get_columns`: one descriptor per catalog column, in catalog order. A column is a
   * primary key exactly when it is constrained (no constraint entry means none is), and
   * auto-increment is honoured only on primary keys. A missing relation is an error.
   */
  method GetColumns(catalog: Catalog, tableName: string)
    returns (r: Result<seq<ColumnDescriptor>, CatalogError>)
    ensures tableName in catalog.relations <==> r.Success?
    ensures tableName !in catalog.relations ==> r == Failure(NoSuchTable(tableName))
    ensures r.Success? ==>
      var rel := catalog.relations[tableName];
      && |r.value| == |rel.columns|
      && (forall i :: 0 <= i < |rel.columns| ==>
            Describes(r.value[i], rel.columns[i], rel.constrainedColumns.GetOr([])))
      && (forall d :: d in r.value ==> d.isAutoIncrement ==> d.isPrimaryKey)
  {
    if tableName !in catalog.relations {
      return Failure(NoSuchTable(tableName));
    }
    var rel := catalog.relations[tableName];
    var primaryKeys := rel.constrainedColumns.GetOr([]);
    var columns: seq<ColumnDescriptor> := [];
    for i := 0 to |rel.columns|
      invariant |columns| == i
      invariant forall k :: 0 <= k < i ==> Describes(columns[k], rel.columns[k], primaryKeys)
    {
      var column := rel.columns[i];
      var isPrimaryKey := column.name in primaryKeys;
      var isAutoIncrement := if isPrimaryKey then column.autoincrement else false;
      columns := columns + [ColumnDescriptor(
        column.name,
        ToCamelCase(column.name),
        Upper(column.typeClass),
        isPrimaryKey,
        isAutoIncrement,
        JavaType(Upper(column.typeClass)),
        column.length)];
    }
    return Success(columns);
  }

  /** `is_view`: a view is always among the listed names. */
  function IsView(catalog: Catalog, tableName: string): (r: bool)
    ensures r ==> tableName in ListTables(catalog)
  {
    tableName in catalog.viewNames
  }

  /** `list_tables`: the tables followed by the views, duplicates kept. */
  function ListTables(catalog: Catalog): (r: seq<string>)
    ensures |r| == |catalog.tableNames| + |catalog.viewNames|
    ensures r[..|catalog.tableNames|] == catalog.tableNames
    ensures r[|catalog.tableNames|..] == catalog.viewNames
    ensures multiset(r) == multiset(catalog.tableNames) + multiset(catalog.viewNames)
  {
    catalog.tableNames + catalog.viewNames
  }

  // ---------------------------------------------------------------- generated artifacts

  datatype RepositoryTemplate = ViewRepositoryTemplate | TableRepositoryTemplate

  /** What a template is rendered with. */
  datatype RenderRequest =
    | EntityRequest(packageName: string, tableName: string, className: string,
                    columns: seq<ColumnDescriptor>)
    | RepositoryRequest(template: RepositoryTemplate, packageName: string, className: string)

  /** A file to write: its path as a sequence of segments, and what is rendered into it. */
  datatype Artifact = Artifact(path: seq<string>, request: RenderRequest)

  /** `package_name.replace('.', sep)`: each dot becomes the separator, nothing else changes. */
  function PackageDirectory(packageName: string, sep: char): (d: string)
    ensures |d| == |packageName|
    ensures forall i :: 0 <= i < |d| ==> d[i] == if packageName[i] == '.' then sep else packageName[i]
  {
    ReplaceCharMap(packageName, '.', sep);
    ReplaceAll(packageName, ".", [sep])
  }

  /**
   * The package directory names the package's dot-separated parts as directory levels:
   * splitting it on the separator gives the package split on dots.
   */
  lemma {:induction false} PackageDirectoryLevels(packageName: string, sep: char)
    requires sep != '.' && sep !in packageName
    ensures '.' !in PackageDirectory(packageName, sep)
    ensures Split(PackageDirectory(packageName, sep), sep) == Split(packageName, '.')
    decreases |packageName|
  {
    if packageName != [] {
      var c, t := packageName[0], packageName[1..];
      assert packageName == [c] + t;
      ReplaceCharCons(c, t, '.', [sep]);
      PackageDirectoryLevels(t, sep);
      var x := PackageDirectory(t, sep);
      if c == '.' {
        assert PackageDirectory(packageName, sep) == [sep] + x;
        assert ([sep] + x)[1..] == x;
      } else {
        assert PackageDirectory(packageName, sep) == [c] + x;
        assert ([c] + x)[1..] == x;
      }
    }
  }

  /** `os.path.join(project, 'src', 'main', 'java', <package dir>, subdir, fileName)` as segments. */
  function OutputPath(projectFolder: string, packageName: string, sep: char, subdir: string, fileName: string): seq<string>
  {
    [projectFolder, "src", "main", "java", PackageDirectory(packageName, sep), subdir, fileName]
  }

  /**
   * The entity half of `generate_entity`: `<ClassName>.java` under `entity`, rendered with
   * the descriptors of `get_columns`; a missing relation is an error.
   */
  method GenerateEntity(catalog: Catalog, projectFolder: string, packageName: string, sep: char, tableName: string)
    returns (r: Result<Artifact, CatalogError>)
    ensures tableName !in catalog.relations <==> r.Failure?
    ensures r.Success? ==>
      var className := GenerateClassName(tableName);
      var rel := catalog.relations[tableName];
      && r.value.path == OutputPath(projectFolder, packageName, sep, "entity", className + ".java")
      && r.value.request.EntityRequest?
      && r.value.request.packageName == packageName
      && r.value.request.tableName == tableName
      && r.value.request.className == className
      && |r.value.request.columns| == |rel.columns|
      && forall i :: 0 <= i < |rel.columns| ==>
           Describes(r.value.request.columns[i], rel.columns[i], rel.constrainedColumns.GetOr([]))
  {
    var columns := GetColumns(catalog, tableName);
    if columns.Failure? {
      return Failure(columns.error);
    }
    var className := GenerateClassName(tableName);
    var request := EntityRequest(packageName, tableName, className, columns.value);
    return Success(Artifact(OutputPath(projectFolder, packageName, sep, "entity", className + ".java"), request));
  }

  /** `generate_repository`: the view template for a view, the table template otherwise. */
  function GenerateRepository(catalog: Catalog, projectFolder: string, packageName: string, sep: char, tableName: string): (a: Artifact)
    ensures a.request.RepositoryRequest?
    ensures a.request.template == ViewRepositoryTemplate <==> tableName in catalog.viewNames
    ensures a.request.className == GenerateClassName(tableName)
    ensures |a.path| == 7
    ensures a.path[..6] == [projectFolder, "src", "main", "java", PackageDirectory(packageName, sep), "repository"]
    ensures a.path[6] == GenerateClassName(tableName) + "Repository.java"
  {
    var className := GenerateClassName(tableName);
    var template := if IsView(catalog, tableName) then ViewRepositoryTemplate else TableRepositoryTemplate;
    Artifact(OutputPath(projectFolder, packageName, sep, "repository", className + "Repository.java"),
             RepositoryRequest(template, packageName, className))
  }
}
