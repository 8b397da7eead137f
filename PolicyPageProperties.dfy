/**
 * What the rendered policy pages promise: section tables with one line per
 * rule in order, well-formed rows, rule extraction per relation, the title
 * and description fallbacks, and worked examples of a row and a heading.
 */
module PolicyPageProperties {
  import opened Wrappers
  import opened Text
  import opened RdfGraph
  import opened PolicyPage

  // ---------------------------------------------------------------------------
  // Sections

  /** The `k`-th table line is the line of the `k`-th rule. */
  lemma {:induction false} RowLinesAt(rows: seq<RuleRow>, k: nat)
    requires k < |rows|
    ensures RowLines(rows)[k] == RowText(rows[k])
  {
    if k < |rows| - 1 {
      var init := rows[..|rows| - 1];
      RowLinesAt(init, k);
    }
  }

  lemma {:induction false} RowLinesAppend(a: seq<RuleRow>, b: seq<RuleRow>)
    ensures RowLines(a + b) == RowLines(a) + RowLines(b)
  {
    if |b| == 0 {
      assert a + b == a;
    } else {
      var init := b[..|b| - 1];
      assert (a + b)[..|a + b| - 1] == a + init;
      RowLinesAppend(a, init);
    }
  }

  lemma RowsAppend(a: seq<RuleRow>, b: seq<RuleRow>)
    ensures Rows(a + b) == Rows(a) + Rows(b)
  {
    RowLinesAppend(a, b);
    ConcatAppend(RowLines(a), RowLines(b));
  }

  /** The table body splits around any one of its rules. */
  lemma RowsSplitAt(rows: seq<RuleRow>, k: nat)
    requires k < |rows|
    ensures Rows(rows) == Rows(rows[..k]) + RowText(rows[k]) + Rows(rows[k + 1..])
  {
    assert rows == rows[..k] + [rows[k]] + rows[k + 1..];
    RowsAppend(rows[..k] + [rows[k]], rows[k + 1..]);
    RowsAppend(rows[..k], [rows[k]]);
    assert Rows([rows[k]]) == RowText(rows[k]) by {
      assert RowLines([rows[k]]) == [RowText(rows[k])];
      assert [RowText(rows[k])][..0] == [];
    }
  }

  /**
   * A non-empty section is its header, then the line of each rule in input
   * order, then the footer.
   */
  lemma SectionRowAt(sectionName: string, rows: seq<RuleRow>, k: nat)
    requires k < |rows|
    ensures Section(sectionName, rows)
            == TableHeader(sectionName) + Rows(rows[..k]) + RowText(rows[k]) + Rows(rows[k + 1..]) + TableFooter
  {
    RowsSplitAt(rows, k);
    Regroup(TableHeader(sectionName), Rows(rows[..k]), RowText(rows[k]), Rows(rows[k + 1..]), TableFooter);
  }

  lemma Regroup(header: string, before: string, line: string, after: string, footer: string)
    ensures header + (before + line + after) + footer == header + before + line + after + footer
  {
  }

  /**
   * The assignee cell lists the assignees separated by ", ": with comma-free
   * names it holds one comma fewer than there are assignees, it is empty
   * without assignees and it is the name itself for a single one.
   */
  lemma AssigneeCellCommas(assignees: seq<string>)
    requires forall k :: 0 <= k < |assignees| ==> ',' !in assignees[k]
    ensures CountChar(AssigneeCell(assignees), ',') == if |assignees| == 0 then 0 else |assignees| - 1
    ensures |assignees| == 0 ==> AssigneeCell(assignees) == ""
    ensures |assignees| == 1 ==> AssigneeCell(assignees) == assignees[0]
  {
    if |assignees| > 0 {
      assert ", "[1..] == " ";
      assert CountChar(", ", ',') == 1;
      JoinCount(", ", assignees, ',');
    }
  }

  /** The assignees of two lists, joined, are the two cells with a separator between them. */
  lemma AssigneeCellAppend(xs: seq<string>, ys: seq<string>)
    requires |xs| > 0 && |ys| > 0
    ensures AssigneeCell(xs + ys) == AssigneeCell(xs) + ", " + AssigneeCell(ys)
  {
    JoinAppend(", ", xs, ys);
  }

  /** A row has the characters of its fields and its own line break; escaping adds no line break. */
  lemma RowLineBreaks(row: RuleRow)
    requires '\n' !in row.uid && '\n' !in row.description && '\n' !in row.action
    requires forall k :: 0 <= k < |row.assignees| ==> '\n' !in row.assignees[k]
    ensures CountChar(RowText(row), '\n') == 1
  {
    var e := EscapePipes(row.description);
    var cell := AssigneeCell(row.assignees);
    EscapePipesKeepsCount(row.description, '\n');
    if |row.assignees| > 0 {
      JoinAvoids(", ", row.assignees, '\n');
    }
    assert '\n' !in "| " && '\n' !in " | ";
    var s1 := "| " + row.uid;
    CountCharAppend("| ", row.uid, '\n');
    var s2 := s1 + " | ";
    CountCharAppend(s1, " | ", '\n');
    var s3 := s2 + e;
    CountCharAppend(s2, e, '\n');
    var s4 := s3 + " | ";
    CountCharAppend(s3, " | ", '\n');
    var s5 := s4 + row.action;
    CountCharAppend(s4, row.action, '\n');
    var s6 := s5 + " | ";
    CountCharAppend(s5, " | ", '\n');
    var s7 := s6 + cell;
    CountCharAppend(s6, cell, '\n');
    CountCharAppend(s7, "\n", '\n');
  }

  /** With line-break-free fields, the table body has exactly one line per rule. */
  lemma RowsLineCount(rows: seq<RuleRow>)
    requires forall k :: 0 <= k < |rows| ==> NoLineBreak(rows[k])
    ensures CountChar(Rows(rows), '\n') == |rows|
  {
    var lines := RowLines(rows);
    forall k | 0 <= k < |lines|
      ensures CountChar(lines[k], '\n') == 1
    {
      RowLinesAt(rows, k);
      RowLineBreaks(rows[k]);
    }
    ConcatCountOnce(lines, '\n');
  }

  predicate NoLineBreak(row: RuleRow)
  {
    && '\n' !in row.uid && '\n' !in row.description && '\n' !in row.action
    && forall k :: 0 <= k < |row.assignees| ==> '\n' !in row.assignees[k]
  }

  lemma PlaceholderLineCount(sectionName: string)
    requires '\n' !in sectionName
    ensures CountChar(Placeholder(sectionName), '\n') == 2
  {
    var low := Lower(sectionName);
    assert '\n' !in low by {
      forall i | 0 <= i < |low| ensures low[i] != '\n' {
        assert sectionName[i] != '\n' by { assert sectionName[i] in sectionName; }
      }
    }
    CountCharAppend("*No ", low, '\n');
    CountCharAppend("*No " + low, " defined.*", '\n');
    CountCharAppend("*No " + low + " defined.*", "\n\n", '\n');
    LineBreakCounts();
  }

  lemma TableHeaderLineCount(sectionName: string)
    requires '\n' !in sectionName
    ensures CountChar(TableHeader(sectionName), '\n') == 4
  {
    assert '\n' !in ColumnTitles && '\n' !in TableDelimiter;
    LineBreakCounts();
    var title := "." + sectionName;
    CountCharAppend(".", sectionName, '\n');
    CountCharAppend(title, "\n", '\n');
    CountCharAppend(title + "\n", TableDelimiter, '\n');
    CountCharAppend(title + "\n" + TableDelimiter, "\n", '\n');
    CountCharAppend(title + "\n" + TableDelimiter + "\n", ColumnTitles, '\n');
    CountCharAppend(title + "\n" + TableDelimiter + "\n" + ColumnTitles, "\n\n", '\n');
  }

  lemma TableFooterLineCount()
    ensures CountChar(TableFooter, '\n') == 2
  {
    assert '\n' !in TableDelimiter;
    CountCharAppend(TableDelimiter, "\n\n", '\n');
    LineBreakCounts();
  }

  lemma LineBreakCounts()
    ensures CountChar("\n", '\n') == 1 && CountChar("\n\n", '\n') == 2
  {
    assert "\n"[1..] == "" && "\n\n"[1..] == "\n";
  }

  /**
   * Line count of a section: the placeholder is one line and a blank one; a
   * table is a title line, the column header, a blank line, one line per rule,
   * the closing delimiter and a blank line.
   */
  lemma SectionLineCount(sectionName: string, rows: seq<RuleRow>)
    requires '\n' !in sectionName
    requires forall k :: 0 <= k < |rows| ==> NoLineBreak(rows[k])
    ensures CountChar(Section(sectionName, rows), '\n') == if |rows| == 0 then 2 else |rows| + 6
  {
    if |rows| == 0 {
      PlaceholderLineCount(sectionName);
    } else {
      var header := TableHeader(sectionName);
      TableHeaderLineCount(sectionName);
      RowsLineCount(rows);
      CountCharAppend(header, Rows(rows), '\n');
      CountCharAppend(header + Rows(rows), TableFooter, '\n');
      TableFooterLineCount();
    }
  }

  // ---------------------------------------------------------------------------
  // Row well-formedness

  /** The pipe at index `i` is a column delimiter: not preceded by a backslash. */
  predicate BarePipeAt(s: string, i: nat)
    requires i < |s|
  {
    s[i] == '|' && (i == 0 || s[i - 1] != '\\')
  }

  /** The number of column delimiters in `s`. */
  function Delimiters(s: string): nat
  {
    if |s| == 0 then 0
    else Delimiters(s[..|s| - 1]) + (if BarePipeAt(s, |s| - 1) then 1 else 0)
  }

  /**
   * Delimiters of a concatenation are those of its parts, unless a backslash
   * ends the first part and a pipe starts the second.
   */
  lemma {:induction false} DelimitersConcat(x: string, y: string)
    requires |x| > 0 && |y| > 0 && y[0] == '|' ==> x[|x| - 1] != '\\'
    ensures Delimiters(x + y) == Delimiters(x) + Delimiters(y)
  {
    if |y| == 0 {
      assert x + y == x;
    } else {
      var init := y[..|y| - 1];
      var s := x + y;
      assert s[..|s| - 1] == x + init;
      DelimitersConcat(x, init);
      if |y| == 1 {
        assert init == [];
        assert x + init == x;
      }
      assert BarePipeAt(s, |s| - 1) == BarePipeAt(y, |y| - 1);
    }
  }

  /** A string in which no pipe stands bare has no delimiter. */
  lemma {:induction false} NoBarePipes(s: string)
    requires forall i :: 0 <= i < |s| ==> !BarePipeAt(s, i)
    ensures Delimiters(s) == 0
  {
    if |s| > 0 {
      var init := s[..|s| - 1];
      forall i | 0 <= i < |init| ensures !BarePipeAt(init, i) {
        assert !BarePipeAt(s, i);
      }
      NoBarePipes(init);
    }
  }

  lemma NoPipeNoDelimiters(t: string)
    requires '|' !in t
    ensures Delimiters(t) == 0
  {
    forall i | 0 <= i < |t| ensures !BarePipeAt(t, i) {
      assert t[i] in t;
    }
    NoBarePipes(t);
  }

  /** An escaped description holds no column delimiter. */
  lemma EscapedHasNoDelimiters(description: string)
    ensures Delimiters(EscapePipes(description)) == 0
  {
    EscapePipesEscapes(description);
    NoBarePipes(EscapePipes(description));
  }

  /** The cell separators of a row each hold one delimiter; its line break none. */
  lemma SeparatorDelimiters()
    ensures Delimiters("| ") == 1 && Delimiters(" | ") == 1 && Delimiters("\n") == 0
  {
    assert "| "[..1] == "|" && "|"[..0] == "";
    assert " | "[..2] == " |" && " |"[..1] == " " && " "[..0] == "";
    assert "\n"[..0] == "";
  }

  /** A pipe in a description is written with a backslash before it. */
  lemma EscapeExample()
    ensures EscapePipes("A|B") == "A\\|B"
    ensures UnescapePipes("A\\|B") == "A|B"
  {
  }

  /** A rule with a pipe-free description and one assignee, as a table line. */
  lemma RowExample()
    ensures RowText(RuleRow("ex:p1", "Read only", "read", ["Data Provider"]))
            == "| ex:p1 | Read only | read | Data Provider\n"
  {
    EscapePipesNoPipe("Read only");
    RowExampleText();
  }

  lemma RowExampleText()
    ensures "| " + "ex:p1" + " | " + "Read only" + " | " + "read" + " | " + "Data Provider" + "\n"
            == "| ex:p1 | Read only | read | Data Provider\n"
  {
  }

  /**
   * When the uid, action and assignees hold no pipe (only the description is
   * escaped), a row has exactly four column delimiters: the leading one and one
   * before each of the description, action and assignee cells. The description
   * cell is the escaped description, and unescaping it gives the description back.
   */
  lemma RowColumns(row: RuleRow)
    requires '|' !in row.uid && '|' !in row.action
    requires forall k :: 0 <= k < |row.assignees| ==> '|' !in row.assignees[k]
    ensures var r := RowText(row);
            var e := EscapePipes(row.description);
            var p1 := |row.uid| + 3;
            var p2 := p1 + |e| + 3;
            var p3 := p2 + |row.action| + 3;
            && p3 < |r|
            && Delimiters(r) == 4
            && BarePipeAt(r, 0) && BarePipeAt(r, p1) && BarePipeAt(r, p2) && BarePipeAt(r, p3)
            && r[p1 + 2..p2 - 1] == e
            && UnescapePipes(r[p1 + 2..p2 - 1]) == row.description
  {
    RowDelimiterCount(row);
    RowDelimiterPositions(row);
    UnescapeEscape(row.description);
  }

  lemma RowDelimiterCount(row: RuleRow)
    requires '|' !in row.uid && '|' !in row.action
    requires forall k :: 0 <= k < |row.assignees| ==> '|' !in row.assignees[k]
    ensures Delimiters(RowText(row)) == 4
  {
    var u, act := row.uid, row.action;
    var e := EscapePipes(row.description);
    var cell := AssigneeCell(row.assignees);
    if |row.assignees| > 0 {
      JoinAvoids(", ", row.assignees, '|');
    }
    NoPipeNoDelimiters(u);
    NoPipeNoDelimiters(act);
    NoPipeNoDelimiters(cell);
    EscapedHasNoDelimiters(row.description);
    SeparatorDelimiters();
    var s1 := "| " + u;
    DelimitersConcat("| ", u);
    var s2 := s1 + " | ";
    DelimitersConcat(s1, " | ");
    var s3 := s2 + e;
    DelimitersConcat(s2, e);
    var s4 := s3 + " | ";
    DelimitersConcat(s3, " | ");
    var s5 := s4 + act;
    DelimitersConcat(s4, act);
    var s6 := s5 + " | ";
    DelimitersConcat(s5, " | ");
    var s7 := s6 + cell;
    DelimitersConcat(s6, cell);
    DelimitersConcat(s7, "\n");
  }

  lemma RowDelimiterPositions(row: RuleRow)
    ensures var r := RowText(row);
            var e := EscapePipes(row.description);
            var p1 := |row.uid| + 3;
            var p2 := p1 + |e| + 3;
            var p3 := p2 + |row.action| + 3;
            && p3 < |r|
            && BarePipeAt(r, 0) && BarePipeAt(r, p1) && BarePipeAt(r, p2) && BarePipeAt(r, p3)
            && r[p1 + 2..p2 - 1] == e
  {
    var u, act := row.uid, row.action;
    var e := EscapePipes(row.description);
    var cell := AssigneeCell(row.assignees);
    var s2 := "| " + u + " | ";
    var s4 := s2 + e + " | ";
    var s6 := s4 + act + " | ";
    var r := RowText(row);
    assert r == s6 + cell + "\n";
    assert r[..|s6|] == s6;
    assert s6[..|s4|] == s4;
    assert s4[..|s2|] == s2;
    assert s4[|s2|..|s2| + |e|] == e;
  }

  // ---------------------------------------------------------------------------
  // Rule extraction

  /** A rule has a row in a relation's list exactly when the policy links it under that relation. */
  lemma RuleRowPresent(g: Graph, policy: string, relation: string, rule: string)
    ensures RuleRowOf(g, rule) in RuleRows(g, policy, relation) <==> Triple(policy, relation, rule) in g
  {
    var rules := Objects(g, policy, relation);
    var rows := RuleRows(g, policy, relation);
    if Triple(policy, relation, rule) in g {
      var k :| 0 <= k < |rules| && rules[k] == rule;
      RowsOfRulesAt(g, rules, k);
    }
    if RuleRowOf(g, rule) in rows {
      var k :| 0 <= k < |rows| && rows[k] == RuleRowOf(g, rule);
      RowsOfRulesAt(g, rules, k);
      assert rules[k] == rows[k].uid;
      assert rules[k] in rules;
    }
  }

  /**
   * The assignee list of a rule is the query result itself, repeats included:
   * for a graph in two parts, the assignees found in the first part come first.
   */
  lemma RuleRowAssignees(g1: Graph, g2: Graph, rule: string)
    ensures RuleRowOf(g1 + g2, rule).assignees == Objects(g1 + g2, rule, OdrlAssignee)
    ensures RuleRowOf(g1 + g2, rule).assignees
            == Objects(g1, rule, OdrlAssignee) + Objects(g2, rule, OdrlAssignee)
  {
    ObjectsAppend(g1, g2, rule, OdrlAssignee);
  }

  /** A rule's description is the object of its first description triple. */
  lemma RuleDescriptionFromFirstTriple(g: Graph, rule: string, k: nat)
    requires k < |g| && g[k].subj == rule && g[k].pred == DctermsDescription
    requires forall j :: 0 <= j < k ==> !(g[j].subj == rule && g[j].pred == DctermsDescription)
    ensures RuleRowOf(g, rule).description == g[k].obj
  {
    ValueIsFirstMatch(g, rule, DctermsDescription, k);
  }

  /** A rule's action is the object of its first `odrl:action` triple. */
  lemma RuleActionFromFirstTriple(g: Graph, rule: string, k: nat)
    requires k < |g| && g[k].subj == rule && g[k].pred == OdrlAction
    requires forall j :: 0 <= j < k ==> !(g[j].subj == rule && g[j].pred == OdrlAction)
    ensures RuleRowOf(g, rule).action == g[k].obj
  {
    ValueIsFirstMatch(g, rule, OdrlAction, k);
  }

  /** Relations are traversed independently: a rule linked as permission and obligation is listed in both. */
  lemma RuleInTwoRelations(g: Graph, policy: string, rule: string)
    requires Triple(policy, OdrlPermission, rule) in g && Triple(policy, OdrlObligation, rule) in g
    ensures RuleRowOf(g, rule) in RuleRows(g, policy, OdrlPermission)
    ensures RuleRowOf(g, rule) in RuleRows(g, policy, OdrlObligation)
  {
    RuleRowPresent(g, policy, OdrlPermission, rule);
    RuleRowPresent(g, policy, OdrlObligation, rule);
  }

  // ---------------------------------------------------------------------------
  // Title and description

  /**
   * The heading comes from the first title triple of the policy; a title that
   * reads "None" is indistinguishable from a missing one and gives the identifier.
   */
  lemma TitleFromFirstTriple(g: Graph, policy: string, k: nat)
    requires k < |g| && g[k].subj == policy && g[k].pred == DctermsTitle
    requires forall j :: 0 <= j < k ==> !(g[j].subj == policy && g[j].pred == DctermsTitle)
    ensures TitleOf(g, policy) == if g[k].obj == "None" then policy else g[k].obj
  {
    ValueIsFirstMatch(g, policy, DctermsTitle, k);
  }

  /** The same for the description paragraph, whose fallback is the empty text. */
  lemma DescriptionFromFirstTriple(g: Graph, policy: string, k: nat)
    requires k < |g| && g[k].subj == policy && g[k].pred == DctermsDescription
    requires forall j :: 0 <= j < k ==> !(g[j].subj == policy && g[j].pred == DctermsDescription)
    ensures DescriptionOf(g, policy) == if g[k].obj == "None" then "" else g[k].obj
  {
    ValueIsFirstMatch(g, policy, DctermsDescription, k);
  }

  /**
   * Without a title the heading is the whole policy identifier: no fragment or
   * last path segment is taken from it.
   */
  lemma HeadingWithoutTitle(g: Graph, policy: string)
    requires forall o :: Triple(policy, DctermsTitle, o) !in g
    ensures "= " + policy + "\n\n" <= PageOf(g, policy)
  {
    var heading := "= " + policy + "\n\n";
    var paragraph := if DescriptionOf(g, policy) != "" then DescriptionOf(g, policy) + "\n\n" else "";
    var permissions := Section("Permissions", RuleRows(g, policy, OdrlPermission));
    var obligations := Section("Obligations", RuleRows(g, policy, OdrlObligation));
    var prohibitions := Section("Prohibitions", RuleRows(g, policy, OdrlProhibition));
    assert TitleOf(g, policy) == policy;
    assert PageOf(g, policy) == heading + paragraph + permissions + obligations + prohibitions;
    PrefixChain(heading, paragraph, permissions, obligations, prohibitions);
  }

  lemma PrefixChain(a: string, b: string, c: string, d: string, e: string)
    ensures a <= a + b + c + d + e
  {
    assert a <= a + b;
    assert a + b <= a + b + c;
    assert a + b + c <= a + b + c + d;
    assert a + b + c + d <= a + b + c + d + e;
  }

  /**
   * A title-less policy `http://ex.org/p#frag` is headed by its whole
   * identifier, not by the fragment `frag`.
   */
  lemma FragmentIdentifierHeading(g: Graph)
    requires forall o :: Triple("http://ex.org/p#frag", DctermsTitle, o) !in g
    ensures TitleOf(g, "http://ex.org/p#frag") == "http://ex.org/p#frag" != "frag"
  {
  }

  // ---------------------------------------------------------------------------
  // Pages

  /** A relation the policy does not use gives no rows. */
  lemma NoLinksNoRows(g: Graph, policy: string, relation: string)
    requires forall o :: Triple(policy, relation, o) !in g
    ensures RuleRows(g, policy, relation) == []
  {
    assert Value(g, policy, relation).None?;
  }

  /** The placeholders name their section in lower case. */
  lemma PermissionsPlaceholder()
    ensures Placeholder("Permissions") == "*No permissions defined.*\n\n"
  {
    assert Lower("Permissions") == "permissions";
  }

  lemma ObligationsPlaceholder()
    ensures Placeholder("Obligations") == "*No obligations defined.*\n\n"
  {
    assert Lower("Obligations") == "obligations";
  }

  lemma ProhibitionsPlaceholder()
    ensures Placeholder("Prohibitions") == "*No prohibitions defined.*\n\n"
  {
    assert Lower("Prohibitions") == "prohibitions";
  }

  /**
   * A policy without rules still gets its page: the heading, the paragraph
   * when there is a description, and three placeholders in the fixed order.
   */
  lemma PageWithoutRules(g: Graph, policy: string)
    requires forall o :: Triple(policy, OdrlPermission, o) !in g
    requires forall o :: Triple(policy, OdrlObligation, o) !in g
    requires forall o :: Triple(policy, OdrlProhibition, o) !in g
    ensures PageOf(g, policy)
            == "= " + TitleOf(g, policy) + "\n\n"
               + (if DescriptionOf(g, policy) != "" then DescriptionOf(g, policy) + "\n\n" else "")
               + "*No permissions defined.*\n\n"
               + "*No obligations defined.*\n\n"
               + "*No prohibitions defined.*\n\n"
  {
    NoLinksNoRows(g, policy, OdrlPermission);
    NoLinksNoRows(g, policy, OdrlObligation);
    NoLinksNoRows(g, policy, OdrlProhibition);
    PermissionsPlaceholder();
    ObligationsPlaceholder();
    ProhibitionsPlaceholder();
  }
}
