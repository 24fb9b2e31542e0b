/**
 * The view-transfer script's rewriting of a view definition captured from the source
 * database into a plain `CREATE VIEW` statement: a fixed chain of replace-all and strip
 * steps removes exactly these spellings: DEFINER=`root`@`%`, SQL SECURITY DEFINER,
 * CREATE ALGORITHM=UNDEFINED, CREATE VIEW, every VIEW, and the quoted view name with its
 * AS. Any other definer, SQL SECURITY INVOKER and ALGORITHM=MERGE or TEMPTABLE stay in the
 * text. The result is prefixed with a fresh head.
 */
module TransferView {
  import opened Strings

  const DefinerClause: string := "DEFINER=`root`@`%`"
  const SecurityClause: string := "SQL SECURITY DEFINER"
  const AlgorithmClause: string := "CREATE ALGORITHM=UNDEFINED"
  const CreateViewWords: string := "CREATE VIEW"
  const ViewWord: string := "VIEW"

  /** The quoted view name followed by AS, as the captured definition names the view. */
  function NamedHead(viewName: string): string
  {
    "`" + viewName + "`" + " AS"
  }

  /**
   * The cleaning in `transfer_view`, step by step in the script's order: remove the definer
   * clause, the security clause and the algorithm clause; remove "CREATE VIEW" and strip;
   * remove "VIEW" and strip; remove the quoted name with its AS and strip. Each removal is
   * one left-to-right replace-all.
   */
  function CleanViewDefinition(definition: string, viewName: string): (r: string)
    ensures |r| <= |definition|
    ensures r == [] || (!IsSpace(r[0]) && !IsSpace(r[|r| - 1]))
  {
    var d1 := ReplaceAll(definition, DefinerClause, "");
    var d2 := ReplaceAll(d1, SecurityClause, "");
    var d3 := ReplaceAll(d2, AlgorithmClause, "");
    var d4 := Strip(ReplaceAll(d3, CreateViewWords, ""));
    var d5 := Strip(ReplaceAll(d4, ViewWord, ""));
    var d6 := Strip(ReplaceAll(d5, NamedHead(viewName), ""));
    d6
  }

  /**
   * The statement `transfer_view` runs on the target database: the fresh head, then the
   * cleaned body, which has no whitespace at either end and is never longer than the
   * captured definition.
   */
  function CreateViewSql(viewName: string, definition: string): (r: string)
    ensures var head := "CREATE VIEW " + viewName + " AS ";
      && |head| <= |r| <= |head| + |definition|
      && r[..|head|] == head
      && var body := r[|head|..];
      && body == CleanViewDefinition(definition, viewName)
      && (body == [] || (!IsSpace(body[0]) && !IsSpace(body[|body| - 1])))
  {
    "CREATE VIEW " + viewName + " AS " + CleanViewDefinition(definition, viewName)
  }

  /** None of the removed markers occurs in the definition. */
  predicate HasNoMarkers(definition: string, viewName: string)
  {
    && !Contains(definition, DefinerClause)
    && !Contains(definition, SecurityClause)
    && !Contains(definition, AlgorithmClause)
    && !Contains(definition, CreateViewWords)
    && !Contains(definition, ViewWord)
    && !Contains(definition, NamedHead(viewName))
  }

  /** A definition holding none of the markers comes out with only its whitespace stripped. */
  lemma NoMarkersOnlyStripped(definition: string, viewName: string)
    requires HasNoMarkers(definition, viewName)
    ensures CleanViewDefinition(definition, viewName) == Strip(definition)
  {
    ReplaceAllAbsent(definition, DefinerClause, "");
    ReplaceAllAbsent(definition, SecurityClause, "");
    ReplaceAllAbsent(definition, AlgorithmClause, "");
    ReplaceAllAbsent(definition, CreateViewWords, "");
    var s := Strip(definition);
    StripKeepsAbsent(definition, ViewWord);
    StripKeepsAbsent(definition, NamedHead(viewName));
    ReplaceAllAbsent(s, ViewWord, "");
    ReplaceAllAbsent(s, NamedHead(viewName), "");
    StripIdempotent(definition);
  }

  /**
   * One replace-all pass need not remove every occurrence: removing "VIEW" from "VIVIEWEW"
   * joins the text around it into a new "VIEW".
   */
  lemma SinglePassLeavesMarker()
    ensures ReplaceAll("VIVIEWEW", ViewWord, "") == "VIEW"
    ensures Contains(ReplaceAll("VIVIEWEW", ViewWord, ""), ViewWord)
  {
    var s := "VIVIEWEW";
    assert s[..4] != ViewWord by { assert s[2] != ViewWord[2]; }
    assert s[1..][..4] != ViewWord by { assert s[1..][0] != ViewWord[0]; }
    assert s[2..][..4] == ViewWord;
    assert ReplaceAll(s[6..], ViewWord, "") == "EW";
    assert ReplaceAll(s[2..], ViewWord, "") == "EW";
    assert ReplaceAll(s[1..], ViewWord, "") == "IEW";
    assert OccursAt("VIEW", ViewWord, 0);
  }

  /**
   * The "VIEW" removal is not limited to the statement head: it also cuts the word out of
   * identifiers in the body, so a column REVIEW_ID is renamed RE_ID.
   */
  lemma ViewWordRemovedInsideNames()
    ensures ReplaceAll("REVIEW_ID", ViewWord, "") == "RE_ID"
  {
    var s := "REVIEW_ID";
    assert s[..4] != ViewWord by { assert s[0] != ViewWord[0]; }
    assert s[1..][..4] != ViewWord by { assert s[1..][0] != ViewWord[0]; }
    assert s[2..][..4] == ViewWord;
    assert s[6..] == "_ID";
    assert ReplaceAll(s[6..], ViewWord, "") == "_ID";
  }

  // ---------------------------------------------------------------- the captured definition

  /**
   * The definition MySQL reports for a view created with the default options by
   * `root`@`%`: the algorithm, definer and security clauses, then the view head and body.
   */
  function CapturedDefinition(viewName: string, body: string): string
  {
    AlgorithmClause + " " + DefinerClause + (" " + SecurityClause + ViewTail(viewName, body))
  }

  /** What follows the security clause in a captured definition. */
  function ViewTail(viewName: string, body: string): string
  {
    " " + ViewWord + " " + NamedHead(viewName) + " " + body
  }

  /** The body up to its trailing whitespace, behind one space, or nothing for a blank body. */
  function BodyRest(body: string): string
  {
    if Strip(body) == [] then [] else " " + body[..StripEnd(body)]
  }

  /**
   * A captured definition comes out as its stripped body, so the script's statement is the
   * fresh head followed by the view's query. This holds for a name without `=` and a name
   * and body that hold none of the removed markers.
   */
  lemma CapturedDefinitionCleaned(viewName: string, body: string)
    requires '=' !in viewName
    requires HasNoMarkers(viewName, viewName) && HasNoMarkers(body, viewName)
    ensures CleanViewDefinition(CapturedDefinition(viewName, body), viewName) == Strip(body)
  {
    ClausesRemoved(viewName, body);
    ViewWordRemoved(viewName, body);
    NamedHeadRemoved(viewName, body);
  }

  /** The first four steps leave the statement's `VIEW`, then the quoted name and the body. */
  lemma ClausesRemoved(n: string, b: string)
    requires '=' !in n
    requires !Contains(n, SecurityClause) && !Contains(n, AlgorithmClause) && !Contains(n, CreateViewWords)
    requires HasNoMarkers(b, n)
    ensures var d1 := ReplaceAll(CapturedDefinition(n, b), DefinerClause, "");
      var d2 := ReplaceAll(d1, SecurityClause, "");
      var d3 := ReplaceAll(d2, AlgorithmClause, "");
      Strip(ReplaceAll(d3, CreateViewWords, "")) == ViewWord + NameAndBody(n, b)
  {
    DefinerRemoved(n, b);
    SecurityRemoved(n, b);
    AlgorithmRemoved(n, b);
    TailAbsent(n, b, CreateViewWords);
    ReplaceAllAbsent(" " + " " + ViewTail(n, b), CreateViewWords, "");
    HeadStripped(n, b);
  }

  lemma DefinerRemoved(n: string, b: string)
    requires '=' !in n && !Contains(b, DefinerClause)
    ensures ReplaceAll(CapturedDefinition(n, b), DefinerClause, "")
         == AlgorithmClause + " " + (" " + SecurityClause + ViewTail(n, b))
  {
    var x := AlgorithmClause + " ";
    assert DefinerClause[8] == '`';
    AbsentForeignChar(x, DefinerClause, 8);
    NoDefinerAfterIt(n, b);
    RemoveSoleOccurrence(x, DefinerClause, " " + SecurityClause + ViewTail(n, b));
  }

  lemma NoDefinerAfterIt(n: string, b: string)
    requires '=' !in n && !Contains(b, DefinerClause)
    ensures !Contains(" " + SecurityClause + ViewTail(n, b), DefinerClause)
  {
    var m := " " + ViewWord + " " + NamedHead(n);
    var front := " " + SecurityClause + m;
    assert DefinerClause[7] == '=';
    AbsentForeignChar(front, DefinerClause, 7);
    AbsentAcrossSeparator(front, ' ', b, DefinerClause);
    SplitAtSpace(" " + SecurityClause, m, b);
  }

  lemma SplitAtSpace(a: string, m: string, b: string)
    ensures a + (m + " " + b) == a + m + [' '] + b
  {
  }

  lemma SecurityRemoved(n: string, b: string)
    requires !Contains(n, SecurityClause) && !Contains(b, SecurityClause)
    ensures ReplaceAll(AlgorithmClause + " " + (" " + SecurityClause + ViewTail(n, b)), SecurityClause, "")
         == AlgorithmClause + " " + " " + ViewTail(n, b)
  {
    var x := AlgorithmClause + " ";
    var p := " " + ViewWord + " ";
    var q := " AS" + " " + b;
    Regroup(x, " ", SecurityClause, ViewTail(n, b));
    TailShape(p, n, " AS", " ", b);
    AbsentAcrossSeparator(p, '`', n, SecurityClause);
    SecurityNotAfterAs(b);
    AbsentAcrossSeparator(p + "`" + n, '`', q, SecurityClause);
    RemoveSoleOccurrenceLead(x + " ", SecurityClause, ViewTail(n, b));
  }

  lemma Regroup(a: string, b: string, c: string, d: string)
    ensures a + (b + c + d) == a + b + c + d
  {
  }

  /** The view tail cut at the backquote that closes the name. */
  lemma TailShape(p: string, n: string, q: string, r: string, b: string)
    ensures p + ("`" + n + "`" + q) + r + b == p + "`" + n + ['`'] + (q + r + b)
  {
  }

  /** The security clause cannot start in the " AS " that comes before the body. */
  lemma SecurityNotAfterAs(b: string)
    requires !Contains(b, SecurityClause)
    ensures !Contains(" AS" + " " + b, SecurityClause)
  {
    var s := " AS" + " " + b;
    var pat := SecurityClause;
    forall k | 0 <= k <= |s| - |pat|
      ensures !OccursAt(s, pat, k)
    {
      if k == 2 {
        assert s[k..k + |pat|][1] == s[3] == ' ';
      } else if k < 4 {
        assert s[k..k + |pat|][0] == s[k] != 'S';
      } else {
        assert s[k..k + |pat|] == b[k - 4..k - 4 + |pat|];
        assert !OccursAt(b, pat, k - 4);
      }
    }
  }

  /** A marker with no backquote, longer than "   VIEW " and not starting in " AS " is not in the tail. */
  lemma TailAbsent(n: string, b: string, pat: string)
    requires pat != [] && '`' !in pat && |pat| > 8 && pat[0] !in " AS" + " "
    requires !Contains(n, pat) && !Contains(b, pat)
    ensures !Contains(" " + " " + ViewTail(n, b), pat)
  {
    var p := " " + " " + (" " + ViewWord + " ");
    SpacedTailShape(" " + " ", " " + ViewWord + " ", n, " AS", " ", b);
    AbsentAcrossSeparator(p, '`', n, pat);
    AbsentBehindLead(" AS" + " ", b, pat);
    AbsentAcrossSeparator(p + "`" + n, '`', " AS" + " " + b, pat);
  }

  lemma SpacedTailShape(s: string, p: string, n: string, q: string, r: string, b: string)
    ensures s + (p + ("`" + n + "`" + q) + r + b) == (s + p) + "`" + n + ['`'] + (q + r + b)
  {
  }

  lemma AlgorithmRemoved(n: string, b: string)
    requires !Contains(n, AlgorithmClause) && !Contains(b, AlgorithmClause)
    ensures ReplaceAll(AlgorithmClause + " " + " " + ViewTail(n, b), AlgorithmClause, "")
         == " " + " " + ViewTail(n, b)
  {
    Regroup4(AlgorithmClause, " ", " ", ViewTail(n, b));
    TailAbsent(n, b, AlgorithmClause);
    RemoveFront(AlgorithmClause, " " + " " + ViewTail(n, b));
  }

  lemma Regroup4(a: string, b: string, c: string, d: string)
    ensures a + b + c + d == a + (b + c + d)
  {
  }

  /** What is left of the tail after "VIEW": the quoted name with AS, then the body. */
  function NameAndBody(n: string, b: string): string
  {
    " " + NamedHead(n) + BodyRest(b)
  }

  /** Stripping the tail leaves "VIEW", the quoted name with AS, then the body up to its trailing whitespace. */
  lemma HeadStripped(n: string, b: string)
    ensures Strip(" " + " " + ViewTail(n, b)) == ViewWord + NameAndBody(n, b)
  {
    if Strip(b) == [] {
      BlankBodyStripped(n, b);
    } else {
      BodyStripped(n, b);
    }
  }

  lemma BlankBodyStripped(n: string, b: string)
    requires Strip(b) == []
    ensures Strip(" " + " " + ViewTail(n, b)) == ViewWord + NameAndBody(n, b)
  {
    StripRemovesOnlySpace(b);
    var m := ViewWord + NameAndBody(n, b);
    assert forall k :: 0 <= k < |" " + b| ==> IsSpace((" " + b)[k]);
    BlankBodyShape(" ", ViewWord, NamedHead(n), b);
    StripExact(" " + " " + " ", m, " " + b);
  }

  lemma BodyStripped(n: string, b: string)
    requires Strip(b) != []
    ensures Strip(" " + " " + ViewTail(n, b)) == ViewWord + NameAndBody(n, b)
  {
    var e := StripEnd(b);
    StripRemovesOnlySpace(b);
    var m := ViewWord + NameAndBody(n, b);
    SplitAt(b, e);
    BodyShape(" ", ViewWord, NamedHead(n), b[..e], b[e..]);
    assert m[|m| - 1] == b[e - 1] == Strip(b)[|Strip(b)| - 1];
    StripExact(" " + " " + " ", m, b[e..]);
  }

  lemma BlankBodyShape(sp: string, v: string, h: string, b: string)
    ensures sp + sp + (sp + v + sp + h + sp + b) == sp + sp + sp + (v + (sp + h + [])) + (sp + b)
  {
  }

  lemma BodyShape(sp: string, v: string, h: string, b1: string, b2: string)
    ensures sp + sp + (sp + v + sp + h + sp + (b1 + b2)) == sp + sp + sp + (v + (sp + h + (sp + b1))) + b2
  {
  }

  /** The body up to its trailing whitespace holds no marker the body does not hold. */
  lemma BodyRestAbsent(b: string, pat: string)
    requires pat != [] && pat[0] != ' ' && !Contains(b, pat)
    ensures !Contains(BodyRest(b), pat)
  {
    if Strip(b) != [] {
      AbsentFromSlice(b, 0, StripEnd(b), pat);
      assert b[0..StripEnd(b)] == b[..StripEnd(b)];
      AbsentBehindLead(" ", b[..StripEnd(b)], pat);
    }
  }

  lemma ViewWordRemoved(n: string, b: string)
    requires !Contains(n, ViewWord) && !Contains(b, ViewWord)
    ensures Strip(ReplaceAll(ViewWord + NameAndBody(n, b), ViewWord, "")) == NamedHead(n) + BodyRest(b)
  {
    NameAndBodyNoViewWord(n, b);
    RemoveFront(ViewWord, NameAndBody(n, b));
    NameAndBodyStripped(n, b);
  }

  lemma NameAndBodyNoViewWord(n: string, b: string)
    requires !Contains(n, ViewWord) && !Contains(b, ViewWord)
    ensures !Contains(NameAndBody(n, b), ViewWord)
  {
    var rest := BodyRest(b);
    NameShape(" ", n, " AS", rest);
    AbsentAcrossSeparator(" ", '`', n, ViewWord);
    BodyRestAbsent(b, ViewWord);
    AbsentBehindLead(" AS", rest, ViewWord);
    AbsentAcrossSeparator(" " + "`" + n, '`', " AS" + rest, ViewWord);
  }

  lemma NameAndBodyStripped(n: string, b: string)
    ensures Strip(NameAndBody(n, b)) == NamedHead(n) + BodyRest(b)
  {
    var rest := BodyRest(b);
    var m := NamedHead(n) + rest;
    Reassociate(" ", NamedHead(n), rest);
    assert NameAndBody(n, b) == " " + m + [];
    if rest != [] {
      var e := StripEnd(b);
      StripRemovesOnlySpace(b);
      assert m[|m| - 1] == b[e - 1] == Strip(b)[|Strip(b)| - 1];
    }
    StripExact(" ", m, []);
  }

  lemma NameShape(sp: string, n: string, q: string, rest: string)
    ensures sp + ("`" + n + "`" + q) + rest == sp + "`" + n + ['`'] + (q + rest)
  {
  }

  lemma NamedHeadRemoved(n: string, b: string)
    requires !Contains(b, NamedHead(n))
    ensures Strip(ReplaceAll(NamedHead(n) + BodyRest(b), NamedHead(n), "")) == Strip(b)
  {
    BodyRestAbsent(b, NamedHead(n));
    RemoveFront(NamedHead(n), BodyRest(b));
    if Strip(b) != [] {
      var a, e := StripStart(b), StripEnd(b);
      StripRemovesOnlySpace(b);
      assert b[..e] == b[..a] + b[a..e];
      assert BodyRest(b) == (" " + b[..a]) + b[a..e] + [];
      assert b[a..e][|b[a..e]| - 1] == b[e - 1];
      StripExact(" " + b[..a], b[a..e], []);
    }
  }

  /**
   * A view whose name ends in "VIEW" loses that part of its name in the body: for the view
   * A_VIEW the "VIEW" removal turns the quoted name into `A_`, the quoted-name removal then
   * finds nothing, and the cleaned text keeps "`A_` AS" in front of the query, so the
   * statement has a second, broken head.
   */
  lemma NameEndingInViewWord(p: string, b: string)
    requires 'V' !in p && '`' !in p && ' ' !in p && '=' !in p
    requires HasNoMarkers(b, p + ViewWord)
    ensures CleanViewDefinition(CapturedDefinition(p + ViewWord, b), p + ViewWord) == NamedHead(p) + BodyRest(b)
  {
    var n := p + ViewWord;
    assert SecurityClause[3] == ' ' && AlgorithmClause[6] == ' ' && CreateViewWords[6] == ' ';
    AbsentForeignChar(n, SecurityClause, 3);
    AbsentForeignChar(n, AlgorithmClause, 6);
    AbsentForeignChar(n, CreateViewWords, 6);
    ClausesRemoved(n, b);
    InnerViewWordRemoved(p, b);
    ShortNameNotFound(p, b);
  }

  /** Both "VIEW"s go: the statement's and the one that ends the name. */
  lemma InnerViewWordRemoved(p: string, b: string)
    requires 'V' !in p && !Contains(b, ViewWord)
    ensures Strip(ReplaceAll(ViewWord + NameAndBody(p + ViewWord, b), ViewWord, "")) == NamedHead(p) + BodyRest(b)
  {
    var rest := BodyRest(b);
    var nb := NameAndBody(p + ViewWord, b);
    var after := "`" + " AS" + rest;
    ReplaceAllPatFirst(ViewWord, nb, "");
    InnerShape(" ", p, ViewWord, " AS", rest);
    BodyRestAbsent(b, ViewWord);
    AbsentBehindLead("`" + " AS", rest, ViewWord);
    RemoveSoleOccurrenceLead(" " + "`" + p, ViewWord, after);
    var m := NamedHead(p) + rest;
    ShortHeadShape(" ", p, " AS", rest);
    if rest != [] {
      var e := StripEnd(b);
      StripRemovesOnlySpace(b);
      assert m[|m| - 1] == b[e - 1] == Strip(b)[|Strip(b)| - 1];
    }
    StripExact(" ", m, []);
  }

  lemma InnerShape(sp: string, p: string, v: string, q: string, rest: string)
    ensures sp + ("`" + (p + v) + "`" + q) + rest == sp + "`" + p + v + ("`" + q + rest)
  {
  }

  lemma ShortHeadShape(sp: string, p: string, q: string, rest: string)
    ensures "" + (sp + "`" + p + ("`" + q + rest)) == sp + (("`" + p + "`" + q) + rest) + []
  {
  }

  /** The full quoted name is no longer there to remove, and nothing else is cut. */
  lemma ShortNameNotFound(p: string, b: string)
    requires 'V' !in p && '`' !in p && ' ' !in p
    requires !Contains(b, NamedHead(p + ViewWord))
    ensures Strip(ReplaceAll(NamedHead(p) + BodyRest(b), NamedHead(p + ViewWord), "")) == NamedHead(p) + BodyRest(b)
  {
    var h, rest, pat := NamedHead(p), BodyRest(b), NamedHead(p + ViewWord);
    var s := h + rest;
    BodyRestAbsent(b, pat);
    ShortHeadAbsent(p, rest);
    ReplaceAllAbsent(s, pat, "");
    if rest != [] {
      var e := StripEnd(b);
      StripRemovesOnlySpace(b);
      assert s[|s| - 1] == b[e - 1] == Strip(b)[|Strip(b)| - 1];
    }
    assert s == [] + s + [];
    StripExact([], s, []);
  }

  lemma ShortHeadAbsent(p: string, rest: string)
    requires 'V' !in p && '`' !in p && ' ' !in p
    requires !Contains(rest, NamedHead(p + ViewWord))
    ensures !Contains(NamedHead(p) + rest, NamedHead(p + ViewWord))
  {
    var h, pat := NamedHead(p), NamedHead(p + ViewWord);
    var s := h + rest;
    forall k | 0 <= k <= |s| - |pat|
      ensures !OccursAt(s, pat, k)
    {
      if k < |h| {
        NotInShortHead(p, rest, k);
      } else {
        assert s[k..k + |pat|] == rest[k - |h|..k - |h| + |pat|];
        assert !OccursAt(rest, pat, k - |h|);
      }
    }
  }

  /** No occurrence of the full quoted name starts inside the shortened one. */
  lemma NotInShortHead(p: string, rest: string, k: nat)
    requires 'V' !in p && '`' !in p && ' ' !in p
    requires k < |NamedHead(p)|
    ensures !OccursAt(NamedHead(p) + rest, NamedHead(p + ViewWord), k)
  {
    var h, pat := NamedHead(p), NamedHead(p + ViewWord);
    var s := h + rest;
    if k + |pat| <= |s| {
      var w := s[k..k + |pat|];
      if k == 0 {
        assert w[|p| + 1] == h[|p| + 1] == '`';
        assert pat[|p| + 1] == 'V';
      } else if k == |p| + 1 {
        assert w[1] == h[|p| + 2] == ' ';
        assert pat[1] != ' ';
      } else {
        assert w[0] == h[k];
        assert h[k] == (if k <= |p| then p[k - 1] else " AS"[k - |p| - 2]);
        assert pat[0] == '`';
      }
    }
  }
}
