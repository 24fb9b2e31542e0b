/**
 * The SQL text that the table-transfer script builds from rows read out of the source
 * database: one literal per value, one parenthesised tuple per row, and one multi-row
 * INSERT statement per table. Alongside the writer, a small reader of that SQL text shows
 * that every literal and tuple reads back as written, for a reader that follows standard
 * SQL quoting, where only a doubled quote is special (MySQL with `NO_BACKSLASH_ESCAPES`).
 * Under MySQL's default mode a backslash also escapes, and a value holding one need not
 * read back; that reading is not part of this model.
 */
module TransferTable {
  import opened Wrappers
  import opened Strings

  // ---------------------------------------------------------------- values and literals

  /** A value of a fetched row, by the Python type `convert_to_sql_values` tests for. */
  datatype SqlValue =
    | JsonValue(dumped: string)  // a dict; `dumped` is what `json.dumps` made of it
    | Text(s: string)            // a str
    | Null                       // None
    | Integer(i: int)            // an int that is not a bool
    | Boolean(b: bool)           // a bool, which takes the int branch
    | OtherValue(shown: string)  // anything else; `shown` is its `str()`

  /** `s.replace("'", "''")`: every single quote doubled. */
  function Escape(s: string): string
  {
    ReplaceAll(s, "'", "''")
  }

  /** A quoted SQL string literal holding `s`. */
  function Quote(s: string): (r: string)
    ensures |r| >= 2 && r[0] == '\'' && r[|r| - 1] == '\''
  {
    "'" + Escape(s) + "'"
  }

  /**
   * The SQL text for one value. `NULL` stands for None and nothing else, and exactly the
   * string-like values are quoted.
   */
  function RenderValue(v: SqlValue): (r: string)
    ensures r != []
    ensures r == "NULL" <==> v.Null?
    ensures r[0] == '\'' <==> v.JsonValue? || v.Text? || v.OtherValue?
  {
    match v
    case JsonValue(dumped) => Quote(dumped)
    case Text(s) => Quote(s)
    case Null => "NULL"
    case Integer(i) => IntToString(i)
    case Boolean(b) => if b then "True" else "False"
    case OtherValue(shown) => Quote(shown)
  }

  /** The text of each value of a row, in row order. */
  function RenderAll(row: seq<SqlValue>): (r: seq<string>)
    ensures |r| == |row| && forall i :: 0 <= i < |row| ==> r[i] == RenderValue(row[i])
  {
    seq(|row|, i requires 0 <= i < |row| => RenderValue(row[i]))
  }

  /** The SQL tuple for a row: its values' texts joined by ", ", in parentheses. */
  function SqlTuple(row: seq<SqlValue>): (r: string)
    ensures |r| >= 2 && r[0] == '(' && r[|r| - 1] == ')'
  {
    "(" + Join(", ", RenderAll(row)) + ")"
  }

  /**
   * `convert_to_sql_values`: renders each value of the row in turn, appending to a list,
   * then joins the list into a tuple.
   */
  method ConvertToSqlValues(row: seq<SqlValue>) returns (r: string)
    ensures r == SqlTuple(row)
  {
    var values: seq<string> := [];
    for i := 0 to |row|
      invariant values == RenderAll(row[..i])
    {
      var item: string;
      match row[i] {
        case JsonValue(dumped) =>
          var escaped := ReplaceAll(dumped, "'", "''");
          item := "'" + escaped + "'";
        case Text(s) =>
          var escaped := ReplaceAll(s, "'", "''");
          item := "'" + escaped + "'";
        case Null =>
          item := "NULL";
        case Integer(n) =>
          item := IntToString(n);
        case Boolean(b) =>
          item := if b then "True" else "False";
        case OtherValue(shown) =>
          var escaped := ReplaceAll(shown, "'", "''");
          item := "'" + escaped + "'";
      }
      assert item == RenderValue(row[i]);
      assert RenderAll(row[..i + 1]) == RenderAll(row[..i]) + [item];
      values := values + [item];
    }
    assert row[..|row|] == row;
    r := "(" + Join(", ", values) + ")";
  }

  /** The text of an INSERT statement up to its first tuple. */
  function InsertHead(table: string, columns: seq<string>): string
  {
    "INSERT INTO " + table + " (" + Join(", ", columns) + ") VALUES\n"
  }

  /**
   * `generate_insert_sql`: the statement's head naming the table and its columns, then the
   * rows' tuples joined by ",\n", then ";". With no rows the statement is its head and ";".
   */
  function GenerateInsertSql(table: string, columns: seq<string>, rows: seq<seq<SqlValue>>): (r: string)
    ensures |r| > |InsertHead(table, columns)| && r[|r| - 1] == ';'
    ensures rows == [] ==> r == InsertHead(table, columns) + ";"
  {
    InsertHead(table, columns) + Join(",\n", Tuples(rows)) + ";"
  }

  /** The tuple of each row, in row order. */
  function Tuples(rows: seq<seq<SqlValue>>): (r: seq<string>)
    ensures |r| == |rows| && forall i :: 0 <= i < |rows| ==> r[i] == SqlTuple(rows[i])
  {
    seq(|rows|, i requires 0 <= i < |rows| => SqlTuple(rows[i]))
  }

  // ---------------------------------------------------------------- reading the SQL back

  /** A literal as a SQL reader sees it: a quoted string (unescaped) or a bare word. */
  datatype Literal = Quoted(body: string) | Bare(word: string)

  /** What a value's text reads back as. */
  function LiteralOf(v: SqlValue): Literal
  {
    match v
    case JsonValue(dumped) => Quoted(dumped)
    case Text(s) => Quoted(s)
    case Null => Bare("NULL")
    case Integer(i) => Bare(IntToString(i))
    case Boolean(b) => Bare(if b then "True" else "False")
    case OtherValue(shown) => Quoted(shown)
  }

  function LiteralsOf(row: seq<SqlValue>): (r: seq<Literal>)
    ensures |r| == |row| && forall i :: 0 <= i < |row| ==> r[i] == LiteralOf(row[i])
  {
    seq(|row|, i requires 0 <= i < |row| => LiteralOf(row[i]))
  }

  /**
   * Reads the rest of a quoted literal whose opening quote is already consumed, by standard
   * SQL quoting: a doubled quote stands for one quote, a single quote closes the literal,
   * and every other character, a backslash included, stands for itself. Gives the body and
   * the text after the closing quote.
   */
  function ReadQuoted(t: string): (r: Option<(string, string)>)
    ensures r.Some? ==> |r.value.1| < |t|
    decreases |t|
  {
    if t == [] then None
    else if t[0] == '\'' then
      if |t| >= 2 && t[1] == '\'' then
        match ReadQuoted(t[2..])
        case None => None
        case Some((body, rest)) => Some(("'" + body, rest))
      else Some(([], t[1..]))
    else
      match ReadQuoted(t[1..])
      case None => None
      case Some((body, rest)) => Some(([t[0]] + body, rest))
  }

  /** Reads a bare word: everything up to the next ',' or ')'. */
  function ReadBare(t: string): (r: (string, string))
    ensures r.0 + r.1 == t
    decreases |t|
  {
    if t == [] || t[0] == ',' || t[0] == ')' then ([], t)
    else
      var (word, rest) := ReadBare(t[1..]);
      ([t[0]] + word, rest)
  }

  /** Reads one literal. */
  function ReadLiteral(t: string): (r: Option<(Literal, string)>)
    ensures r.Some? ==> |r.value.1| < |t|
  {
    if t != [] && t[0] == '\'' then
      match ReadQuoted(t[1..])
      case None => None
      case Some((body, rest)) => Some((Quoted(body), rest))
    else
      var (word, rest) := ReadBare(t);
      if word == [] then None else Some((Bare(word), rest))
  }

  /** Reads literals separated by ", " up to and including the closing ')'. */
  function ReadLiterals(t: string): (r: Option<(seq<Literal>, string)>)
    ensures r.Some? ==> |r.value.1| < |t|
    decreases |t|
  {
    match ReadLiteral(t)
    case None => None
    case Some((literal, rest)) =>
      if |rest| >= 2 && rest[..2] == ", " then
        match ReadLiterals(rest[2..])
        case None => None
        case Some((more, after)) => Some(([literal] + more, after))
      else if rest != [] && rest[0] == ')' then Some(([literal], rest[1..]))
      else None
  }

  /** Reads one parenthesised tuple. */
  function ReadTuple(t: string): (r: Option<(seq<Literal>, string)>)
    ensures r.Some? ==> |r.value.1| < |t|
  {
    if |t| >= 2 && t[..2] == "()" then Some(([], t[2..]))
    else if t != [] && t[0] == '(' then ReadLiterals(t[1..])
    else None
  }

  /** Reads tuples separated by ",\n" up to the closing ";", which must end the text. */
  function ReadTuples(t: string): Option<seq<seq<Literal>>>
    decreases |t|
  {
    if t == ";" then Some([])
    else
      match ReadTuple(t)
      case None => None
      case Some((literals, rest)) =>
        if rest == ";" then Some([literals])
        else if |rest| >= 2 && rest[..2] == ",\n" then
          match ReadTuples(rest[2..])
          case None => None
          case Some(more) => Some([literals] + more)
        else None
  }

  // ---------------------------------------------------------------- escaping

  /** Escaping works character by character: a quote becomes two, anything else stays. */
  lemma EscapeCons(c: char, t: string)
    ensures Escape([c] + t) == (if c == '\'' then "''" else [c]) + Escape(t)
  {
    ReplaceCharCons(c, t, '\'', "''");
  }

  /** Collapsing every doubled quote of an escaped string gives the string back. */
  lemma {:induction false} EscapeRoundTrip(s: string)
    ensures ReplaceAll(Escape(s), "''", "'") == s
    decreases |s|
  {
    if s != [] {
      var c, t := s[0], s[1..];
      assert s == [c] + t;
      EscapeCons(c, t);
      EscapeRoundTrip(t);
      var e := Escape(s);
      if c == '\'' {
        assert e[..2] == "''" && e[2..] == Escape(t);
      } else {
        assert e == [c] + Escape(t);
        if |e| >= 2 {
          assert e[..2][0] == c;
          assert e[1..] == Escape(t);
        } else {
          assert Escape(t) == [];
        }
      }
    }
  }

  /**
   * Scanning from the left, every single quote is immediately followed by a second one and
   * the pair is passed over together; so every maximal run of quotes has even length.
   */
  predicate QuotesPaired(e: string)
    decreases |e|
  {
    if e == [] then true
    else if e[0] == '\'' then |e| >= 2 && e[1] == '\'' && QuotesPaired(e[2..])
    else QuotesPaired(e[1..])
  }

  /** An escaped string holds its quotes in pairs, so no quote in it can close a literal. */
  lemma {:induction false} EscapePairsQuotes(s: string)
    ensures QuotesPaired(Escape(s))
    decreases |s|
  {
    if s != [] {
      var c, t := s[0], s[1..];
      assert s == [c] + t;
      EscapeCons(c, t);
      EscapePairsQuotes(t);
      var e := Escape(s);
      if c == '\'' {
        assert e[2..] == Escape(t);
      } else {
        assert e[1..] == Escape(t);
      }
    }
  }

  /** The text of a string-like value: its text quoted, with its quotes doubled. */
  function QuotedText(v: SqlValue): string
    requires v.JsonValue? || v.Text? || v.OtherValue?
  {
    match v
    case JsonValue(dumped) => dumped
    case Text(s) => s
    case OtherValue(shown) => shown
  }

  /**
   * What each kind of value renders as: NULL unquoted for None, an unquoted decimal that
   * reads back as the integer, True or False unquoted for a bool, and otherwise the text
   * between single quotes, from which collapsing doubled quotes gives the text back.
   */
  lemma RenderValueMeaning(v: SqlValue)
    ensures v.Null? ==> RenderValue(v) == "NULL"
    ensures v.Integer? ==> ParseInt(RenderValue(v)) == Some(v.i)
    ensures v.Boolean? ==> RenderValue(v) == if v.b then "True" else "False"
    ensures v.JsonValue? || v.Text? || v.OtherValue? ==>
      var r := RenderValue(v);
      && |r| >= 2 && r[0] == '\'' && r[|r| - 1] == '\''
      && ReplaceAll(r[1..|r| - 1], "''", "'") == QuotedText(v)
  {
    if v.Integer? {
      IntRoundTrip(v.i);
    } else if v.JsonValue? || v.Text? || v.OtherValue? {
      var s := QuotedText(v);
      var r := RenderValue(v);
      assert r == "'" + Escape(s) + "'";
      assert r[1..|r| - 1] == Escape(s);
      EscapeRoundTrip(s);
    }
  }

  /**
   * Reading an escaped string followed by its closing quote stops exactly at that quote
   * and gives the string back, whatever follows the quote unless it is another quote.
   */
  lemma {:induction false} QuotedRoundTrip(s: string, tail: string)
    requires tail == [] || tail[0] != '\''
    ensures ReadQuoted(Escape(s) + "'" + tail) == Some((s, tail))
    decreases |s|
  {
    var t := Escape(s) + "'" + tail;
    if s == [] {
      assert t == "'" + tail;
      assert t[1..] == tail;
    } else {
      var c, rest := s[0], s[1..];
      assert s == [c] + rest;
      EscapeCons(c, rest);
      QuotedRoundTrip(rest, tail);
      if c == '\'' {
        assert t == "''" + (Escape(rest) + "'" + tail);
        assert t[2..] == Escape(rest) + "'" + tail;
        assert "'" + rest == s;
      } else {
        assert t == [c] + (Escape(rest) + "'" + tail);
        assert t[1..] == Escape(rest) + "'" + tail;
        assert [c] + rest == s;
      }
    }
  }

  /** A word with no ',', ')' or quote, read before a ',' or ')' or the end. */
  lemma {:induction false} BareRoundTrip(word: string, tail: string)
    requires forall k :: 0 <= k < |word| ==> word[k] != ',' && word[k] != ')'
    requires tail == [] || tail[0] == ',' || tail[0] == ')'
    ensures ReadBare(word + tail) == (word, tail)
    decreases |word|
  {
    if word == [] {
      assert word + tail == tail;
    } else {
      assert (word + tail)[1..] == word[1..] + tail;
      BareRoundTrip(word[1..], tail);
      assert [word[0]] + word[1..] == word;
    }
  }

  /** The text of a bare value holds no ',', ')' or quote and is not empty. */
  lemma BareWord(v: SqlValue)
    requires v.Null? || v.Integer? || v.Boolean?
    ensures RenderValue(v) != [] && RenderValue(v)[0] != '\''
    ensures forall k :: 0 <= k < |RenderValue(v)| ==> RenderValue(v)[k] != ',' && RenderValue(v)[k] != ')'
    ensures RenderValue(v) == LiteralOf(v).word
  {
    if v.Integer? {
      var s := IntToString(v.i);
      if v.i < 0 {
        assert s == "-" + NatToString(-v.i as nat);
      } else {
        assert s == NatToString(v.i as nat);
      }
    }
  }

  /** A quoted literal reads back as its string, stopping before a ',' or ')' or the end. */
  lemma QuoteRoundTrip(s: string, tail: string)
    requires tail == [] || tail[0] == ',' || tail[0] == ')'
    ensures ReadLiteral(Quote(s) + tail) == Some((Quoted(s), tail))
  {
    var t := Quote(s) + tail;
    QuotedRoundTrip(s, tail);
    assert t == "'" + (Escape(s) + "'" + tail);
    assert t[1..] == Escape(s) + "'" + tail;
  }

  /** A bare word reads back as itself, stopping before a ',' or ')' or the end. */
  lemma BareLiteralRoundTrip(word: string, tail: string)
    requires word != [] && word[0] != '\''
    requires forall k :: 0 <= k < |word| ==> word[k] != ',' && word[k] != ')'
    requires tail == [] || tail[0] == ',' || tail[0] == ')'
    ensures ReadLiteral(word + tail) == Some((Bare(word), tail))
  {
    BareRoundTrip(word, tail);
    assert (word + tail)[0] == word[0];
  }

  /** Every value's text reads back as its literal, stopping before a ',' or ')' or the end. */
  lemma LiteralRoundTrip(v: SqlValue, tail: string)
    requires tail == [] || tail[0] == ',' || tail[0] == ')'
    ensures ReadLiteral(RenderValue(v) + tail) == Some((LiteralOf(v), tail))
  {
    match v
    case JsonValue(dumped) => QuoteRoundTrip(dumped, tail);
    case Text(s) => QuoteRoundTrip(s, tail);
    case OtherValue(shown) => QuoteRoundTrip(shown, tail);
    case _ =>
      BareWord(v);
      BareLiteralRoundTrip(RenderValue(v), tail);
  }

  /** Reading a literal that a ", " follows goes on with the next one. */
  lemma ReadLiteralsStep(x: string, literal: Literal, more: string, literals: seq<Literal>, tail: string)
    requires ReadLiteral(x + (", " + more)) == Some((literal, ", " + more))
    requires ReadLiterals(more) == Some((literals, tail))
    ensures ReadLiterals(x + (", " + more)) == Some(([literal] + literals, tail))
  {
    assert (", " + more)[..2] == ", " && (", " + more)[2..] == more;
  }

  /** Reading a literal that a ')' follows ends the tuple. */
  lemma ReadLiteralsLast(x: string, literal: Literal, tail: string)
    requires ReadLiteral(x + (")" + tail)) == Some((literal, ")" + tail))
    ensures ReadLiterals(x + (")" + tail)) == Some(([literal], tail))
  {
    var u := ")" + tail;
    assert u[0] == ')' && u[1..] == tail;
    assert !(|u| >= 2 && u[..2] == ", ") by {
      if |u| >= 2 {
        assert u[..2][0] == ')';
      }
    }
  }

  /** The texts and literals of a row are those of its first value, then those of the rest. */
  lemma RowCons(row: seq<SqlValue>)
    requires row != []
    ensures RenderAll(row) == [RenderValue(row[0])] + RenderAll(row[1..])
    ensures LiteralsOf(row) == [LiteralOf(row[0])] + LiteralsOf(row[1..])
  {
    MapCons(RenderValue, row, RenderAll(row), RenderAll(row[1..]));
    MapCons(LiteralOf, row, LiteralsOf(row), LiteralsOf(row[1..]));
  }

  /** A sequence of images is the first element's image followed by the images of the rest. */
  lemma MapCons<A, B>(f: A -> B, xs: seq<A>, ys: seq<B>, rest: seq<B>)
    requires xs != [] && |ys| == |xs| && |rest| == |xs| - 1
    requires forall i :: 0 <= i < |xs| ==> ys[i] == f(xs[i])
    requires forall i :: 0 <= i < |xs[1..]| ==> rest[i] == f(xs[1..][i])
    ensures ys == [f(xs[0])] + rest
  {
    forall i | 1 <= i < |xs|
      ensures ys[i] == rest[i - 1]
    {
      assert xs[1..][i - 1] == xs[i];
    }
  }

  /** A row of several values joins as its first value's text, ", ", then the rest joined. */
  lemma JoinRow(row: seq<SqlValue>, tail: string)
    requires |row| >= 2
    ensures Join(", ", RenderAll(row)) + ")" + tail
         == RenderValue(row[0]) + (", " + (Join(", ", RenderAll(row[1..])) + ")" + tail))
  {
    RowCons(row);
    JoinCons(", ", RenderValue(row[0]), RenderAll(row[1..]));
  }

  /** The texts of a non-empty row, joined by ", " and closed by ')', read back as its literals. */
  lemma {:induction false} LiteralsRoundTrip(row: seq<SqlValue>, tail: string)
    requires row != []
    ensures ReadLiterals(Join(", ", RenderAll(row)) + ")" + tail) == Some((LiteralsOf(row), tail))
    decreases |row|
  {
    var first := RenderValue(row[0]);
    RowCons(row);
    if |row| == 1 {
      assert RenderAll(row) == [first] && LiteralsOf(row) == [LiteralOf(row[0])];
      assert Join(", ", RenderAll(row)) + ")" + tail == first + (")" + tail);
      LiteralRoundTrip(row[0], ")" + tail);
      ReadLiteralsLast(first, LiteralOf(row[0]), tail);
    } else {
      var more := Join(", ", RenderAll(row[1..])) + ")" + tail;
      JoinRow(row, tail);
      LiteralRoundTrip(row[0], ", " + more);
      LiteralsRoundTrip(row[1..], tail);
      ReadLiteralsStep(first, LiteralOf(row[0]), more, LiteralsOf(row[1..]), tail);
    }
  }

  /** A row's tuple reads back as the row's literals, whatever text follows it. */
  lemma TupleRoundTrip(row: seq<SqlValue>, tail: string)
    ensures ReadTuple(SqlTuple(row) + tail) == Some((LiteralsOf(row), tail))
  {
    var t := SqlTuple(row) + tail;
    if row == [] {
      assert t == "()" + tail;
      assert t[..2] == "()" && t[2..] == tail;
    } else {
      var j := Join(", ", RenderAll(row));
      FirstCharOfJoin(row);
      OpenTuple(j, tail);
      LiteralsRoundTrip(row, tail);
    }
  }

  /** A tuple whose first value does not start with ')' is read past its '('. */
  lemma OpenTuple(j: string, tail: string)
    requires j != [] && j[0] != ')'
    ensures ReadTuple("(" + j + ")" + tail) == ReadLiterals(j + ")" + tail)
  {
    var t := "(" + j + ")" + tail;
    assert t[0] == '(' && t[1] == j[0];
    assert t[1..] == j + ")" + tail;
  }

  /** A non-empty row's joined texts start with its first value's first character, never ')'. */
  lemma FirstCharOfJoin(row: seq<SqlValue>)
    requires row != []
    ensures var j := Join(", ", RenderAll(row)); j != [] && j[0] != ')'
  {
    var items := RenderAll(row);
    var first := RenderValue(row[0]);
    assert first != [] && first[0] != ')' by {
      if row[0].Null? || row[0].Integer? || row[0].Boolean? {
        BareWord(row[0]);
      }
    }
    if |items| == 1 {
      assert Join(", ", items) == first;
    } else {
      assert items == [items[0]] + items[1..];
      JoinCons(", ", items[0], items[1..]);
      assert Join(", ", items) == first + (", " + Join(", ", items[1..]));
    }
  }

  /** The literals of each row, in row order. */
  function LiteralRows(rows: seq<seq<SqlValue>>): (r: seq<seq<Literal>>)
    ensures |r| == |rows| && forall i :: 0 <= i < |rows| ==> r[i] == LiteralsOf(rows[i])
  {
    seq(|rows|, i requires 0 <= i < |rows| => LiteralsOf(rows[i]))
  }

  /** The tuples and literal rows of rows are those of the first row, then those of the rest. */
  lemma RowsCons(rows: seq<seq<SqlValue>>)
    requires rows != []
    ensures Tuples(rows) == [SqlTuple(rows[0])] + Tuples(rows[1..])
    ensures LiteralRows(rows) == [LiteralsOf(rows[0])] + LiteralRows(rows[1..])
  {
    MapCons(SqlTuple, rows, Tuples(rows), Tuples(rows[1..]));
    MapCons(LiteralsOf, rows, LiteralRows(rows), LiteralRows(rows[1..]));
  }

  /** Reading a tuple that a ",\n" follows goes on with the next one. */
  lemma ReadTuplesStep(x: string, literals: seq<Literal>, more: string, rest: seq<seq<Literal>>)
    requires ReadTuple(x + (",\n" + more)) == Some((literals, ",\n" + more))
    requires ReadTuples(more) == Some(rest)
    ensures ReadTuples(x + (",\n" + more)) == Some([literals] + rest)
  {
    var t := x + (",\n" + more);
    assert |t| > |",\n" + more|;
    assert (",\n" + more)[..2] == ",\n" && (",\n" + more)[2..] == more;
    assert ",\n" + more != ";";
    assert t != ";";
  }

  /** Reading a tuple that the closing ';' follows ends the statement. */
  lemma ReadTuplesLast(x: string, literals: seq<Literal>)
    requires ReadTuple(x + ";") == Some((literals, ";"))
    ensures ReadTuples(x + ";") == Some([literals])
  {
    assert |x + ";"| > 1;
  }

  /** The tuples of rows joined by ",\n" and closed by ';' read back as the rows' literals. */
  lemma {:induction false} TuplesRoundTrip(rows: seq<seq<SqlValue>>)
    ensures ReadTuples(Join(",\n", Tuples(rows)) + ";") == Some(LiteralRows(rows))
    decreases |rows|
  {
    if rows == [] {
      assert Join(",\n", Tuples(rows)) + ";" == ";";
      assert LiteralRows(rows) == [];
    } else {
      var first := SqlTuple(rows[0]);
      RowsCons(rows);
      if |rows| == 1 {
        assert Tuples(rows) == [first] && LiteralRows(rows) == [LiteralsOf(rows[0])];
        TupleRoundTrip(rows[0], ";");
        ReadTuplesLast(first, LiteralsOf(rows[0]));
      } else {
        var more := Join(",\n", Tuples(rows[1..])) + ";";
        JoinConsThen(",\n", first, Tuples(rows[1..]), ";");
        TupleRoundTrip(rows[0], ",\n" + more);
        TuplesRoundTrip(rows[1..]);
        ReadTuplesStep(first, LiteralsOf(rows[0]), more, LiteralRows(rows[1..]));
      }
    }
  }

  /** A join of several parts followed by `end`, as its first part, the separator, then the rest. */
  lemma JoinConsThen(sep: string, p: string, rest: seq<string>, end: string)
    requires rest != []
    ensures Join(sep, [p] + rest) + end == p + (sep + (Join(sep, rest) + end))
  {
    JoinCons(sep, p, rest);
  }

  /**
   * An INSERT statement starts with its head, and what follows reads back as one tuple per
   * row, in row order, each holding the row's literals.
   */
  lemma InsertRoundTrip(table: string, columns: seq<string>, rows: seq<seq<SqlValue>>)
    ensures var r, head := GenerateInsertSql(table, columns, rows), InsertHead(table, columns);
      && r[..|head|] == head
      && ReadTuples(r[|head|..]) == Some(LiteralRows(rows))
  {
    var head := InsertHead(table, columns);
    var r := GenerateInsertSql(table, columns, rows);
    assert r == head + (Join(",\n", Tuples(rows)) + ";");
    TuplesRoundTrip(rows);
  }
}
