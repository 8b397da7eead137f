/**
 * Rendering of ODRL policies as AsciiDoc pages: a title heading, an optional
 * description paragraph and three sections (Permissions, Obligations,
 * Prohibitions), each a table of rules or a "none defined" placeholder.
 *
 * The pure functions below specify the text; the methods follow the
 * source's step-by-step construction and are proved to produce it.
 */
module PolicyPage {
  import opened Wrappers
  import opened Text
  import opened RdfGraph

  // ---------------------------------------------------------------------------
  // Vocabulary: the ODRL 2.2 namespace, Dublin Core Terms and rdf:type

  const OdrlNamespace: string := "http://www.w3.org/ns/odrl/2/"
  const OdrlPolicy: string := OdrlNamespace + "Policy"
  const OdrlPermission: string := OdrlNamespace + "permission"
  const OdrlObligation: string := OdrlNamespace + "obligation"
  const OdrlProhibition: string := OdrlNamespace + "prohibition"
  const OdrlAction: string := OdrlNamespace + "action"
  const OdrlAssignee: string := OdrlNamespace + "assignee"
  const DctermsTitle: string := "http://purl.org/dc/terms/title"
  const DctermsDescription: string := "http://purl.org/dc/terms/description"
  const RdfType: string := "http://www.w3.org/1999/02/22-rdf-syntax-ns#type"

  /** One rule of a section: (uid, description, action, assignees). */
  datatype RuleRow = RuleRow(uid: string, description: string, action: string, assignees: seq<string>)

  // ---------------------------------------------------------------------------
  // Section rendering

  /** The assignee column: the assignees separated by ", ", empty when there are none. */
  function AssigneeCell(assignees: seq<string>): string
  {
    if |assignees| > 0 then Join(", ", assignees) else ""
  }

  /** One table line; only the description is pipe-escaped. */
  function RowText(row: RuleRow): string
  {
    "| " + row.uid + " | " + EscapePipes(row.description) + " | " + row.action + " | "
    + AssigneeCell(row.assignees) + "\n"
  }

  /** The table line of each rule, in input order. */
  function RowLines(rows: seq<RuleRow>): (lines: seq<string>)
    ensures |lines| == |rows|
  {
    if |rows| == 0 then [] else RowLines(rows[..|rows| - 1]) + [RowText(rows[|rows| - 1])]
  }

  /** The table body: the lines of `rows` one after the other. */
  function Rows(rows: seq<RuleRow>): string
  {
    Concat(RowLines(rows))
  }

  /** The line that opens and closes an AsciiDoc table. */
  const TableDelimiter: string := "|==="

  /** The column header row of every rule table. */
  const ColumnTitles: string := "| UID | Description | Action | Assignee(s)"

  /** The section's title line, the table delimiter and the column header row. */
  function TableHeader(sectionName: string): string
  {
    "." + sectionName + "\n" + TableDelimiter + "\n" + ColumnTitles + "\n\n"
  }

  const TableFooter: string := TableDelimiter + "\n\n"

  /** What an empty section shows instead of a table. */
  function Placeholder(sectionName: string): string
  {
    "*No " + Lower(sectionName) + " defined.*" + "\n\n"
  }

  /** The text of one section. */
  function Section(sectionName: string, rows: seq<RuleRow>): string
  {
    if |rows| == 0 then Placeholder(sectionName)
    else TableHeader(sectionName) + Rows(rows) + TableFooter
  }

  /** The body of the loop of `_format_odrl_section`: one table line. */
  method FormatRow(item: RuleRow) returns (line: string)
    ensures line == RowText(item)
  {
    var assigneeStr := if |item.assignees| > 0 then Join(", ", item.assignees) else "";
    var descr := EscapePipes(item.description);
    line := "| " + item.uid + " | " + descr + " | " + item.action + " | " + assigneeStr + "\n";
  }

  /** Taking one more rule adds its line to the table body. */
  lemma RowsStep(table: string, items: seq<RuleRow>, i: nat)
    requires i < |items|
    ensures table + Rows(items[..i + 1]) == table + Rows(items[..i]) + RowText(items[i])
  {
    assert items[..i + 1][..i] == items[..i];
    assert (RowLines(items[..i]) + [RowText(items[i])])[..i] == RowLines(items[..i]);
  }

  /** The loop of `_format_odrl_section`: appends the line of each item in turn. */
  method AppendRows(table: string, items: seq<RuleRow>) returns (result: string)
    ensures result == table + Rows(items)
  {
    result := table;
    for i := 0 to |items|
      invariant result == table + Rows(items[..i])
    {
      var line := FormatRow(items[i]);
      RowsStep(table, items, i);
      result := result + line;
    }
    assert items[..|items|] == items;
  }

  /** `_format_odrl_section`: the placeholder, or the table built line by line. */
  method FormatSection(sectionName: string, items: seq<RuleRow>) returns (table: string)
    ensures |items| == 0 ==> table == Placeholder(sectionName)
    ensures |items| > 0 ==> table == TableHeader(sectionName) + Rows(items) + TableFooter
  {
    if |items| == 0 {
      return Placeholder(sectionName);
    }
    table := TableHeader(sectionName);
    table := AppendRows(table, items);
    table := table + TableFooter;
  }

  // ---------------------------------------------------------------------------
  // Rule extraction

  /** The row of rule resource `rule`: missing description and action become "". */
  function RuleRowOf(g: Graph, rule: string): (row: RuleRow)
    ensures row.uid == rule
    ensures row.description != "" ==> Triple(rule, DctermsDescription, row.description) in g
    ensures (forall o :: Triple(rule, DctermsDescription, o) !in g) ==> row.description == ""
    ensures row.action != "" ==> Triple(rule, OdrlAction, row.action) in g
    ensures (forall o :: Triple(rule, OdrlAction, o) !in g) ==> row.action == ""
    ensures forall a :: a in row.assignees <==> Triple(rule, OdrlAssignee, a) in g
  {
    RuleRow(rule,
            Value(g, rule, DctermsDescription).GetOr(""),
            Value(g, rule, OdrlAction).GetOr(""),
            Objects(g, rule, OdrlAssignee))
  }

  /** One row per object of `policy` under `relation`, in query order. */
  /** The rows of `rules`, in their order. */
  function RowsOfRules(g: Graph, rules: seq<string>): (rows: seq<RuleRow>)
    ensures |rows| == |rules|
  {
    if |rules| == 0 then []
    else RowsOfRules(g, rules[..|rules| - 1]) + [RuleRowOf(g, rules[|rules| - 1])]
  }

  /** The `k`-th row is the row of the `k`-th rule. */
  lemma {:induction false} RowsOfRulesAt(g: Graph, rules: seq<string>, k: nat)
    requires k < |rules|
    ensures RowsOfRules(g, rules)[k] == RuleRowOf(g, rules[k])
  {
    if k < |rules| - 1 {
      RowsOfRulesAt(g, rules[..|rules| - 1], k);
    }
  }

  /** One row per object of `policy` under `relation`, in query order. */
  function RuleRows(g: Graph, policy: string, relation: string): seq<RuleRow>
  {
    RowsOfRules(g, Objects(g, policy, relation))
  }

  /** The body of a collecting loop: reads the fields of one rule. */
  method ExtractRule(g: Graph, rule: string) returns (row: RuleRow)
    ensures row == RuleRowOf(g, rule)
  {
    var uid := rule;
    var descr := Value(g, rule, DctermsDescription).GetOr("");
    var action := Value(g, rule, OdrlAction).GetOr("");
    var assignees := Objects(g, rule, OdrlAssignee);
    row := RuleRow(uid, descr, action, assignees);
  }

  /** The loop of a collecting step: reads the fields of each rule in turn. */
  method CollectRows(g: Graph, rules: seq<string>) returns (rows: seq<RuleRow>)
    ensures rows == RowsOfRules(g, rules)
  {
    rows := [];
    for i := 0 to |rules|
      invariant rows == RowsOfRules(g, rules[..i])
    {
      var row := ExtractRule(g, rules[i]);
      assert rules[..i + 1][..i] == rules[..i];
      rows := rows + [row];
    }
    assert rules[..|rules|] == rules;
  }

  /** One of the three collecting loops of `create_policy_page`. */
  method ExtractRules(g: Graph, policy: string, relation: string) returns (rows: seq<RuleRow>)
    ensures |rows| == |Objects(g, policy, relation)|
    ensures forall k :: 0 <= k < |rows| ==> rows[k] == RuleRowOf(g, Objects(g, policy, relation)[k])
    ensures rows == RuleRows(g, policy, relation)
  {
    var rules := Objects(g, policy, relation);
    rows := CollectRows(g, rules);
    forall k | 0 <= k < |rows|
      ensures rows[k] == RuleRowOf(g, rules[k])
    {
      RowsOfRulesAt(g, rules, k);
    }
  }

  // ---------------------------------------------------------------------------
  // Title, description and page assembly

  /**
   * The heading text. `str(value)` turns an absent value into the text "None",
   * which is then taken for "no title": a title that is literally "None" falls
   * back to the policy identifier as well.
   */
  function TitleOf(g: Graph, policy: string): (title: string)
    ensures (forall o :: Triple(policy, DctermsTitle, o) !in g) ==> title == policy
    ensures title == policy || (title != "None" && Triple(policy, DctermsTitle, title) in g)
  {
    var shown := Value(g, policy, DctermsTitle).GetOr("None");
    if shown == "None" then policy else shown
  }

  /** The description paragraph text, "" when absent (or literally "None"). */
  function DescriptionOf(g: Graph, policy: string): (description: string)
    ensures (forall o :: Triple(policy, DctermsDescription, o) !in g) ==> description == ""
    ensures description == "" || (description != "None" && Triple(policy, DctermsDescription, description) in g)
  {
    var shown := Value(g, policy, DctermsDescription).GetOr("None");
    if shown == "None" then "" else shown
  }

  /** The page: heading, optional paragraph, then the three sections in fixed order. */
  function Page(title: string, description: string, permissions: seq<RuleRow>,
                obligations: seq<RuleRow>, prohibitions: seq<RuleRow>): string
  {
    "= " + title + "\n\n"
    + (if description != "" then description + "\n\n" else "")
    + Section("Permissions", permissions)
    + Section("Obligations", obligations)
    + Section("Prohibitions", prohibitions)
  }

  /** The page of `policy` in `g`. */
  function PageOf(g: Graph, policy: string): string
  {
    Page(TitleOf(g, policy), DescriptionOf(g, policy),
         RuleRows(g, policy, OdrlPermission),
         RuleRows(g, policy, OdrlObligation),
         RuleRows(g, policy, OdrlProhibition))
  }

  /** The page-building tail of `create_policy_page`: concatenates the page piece by piece. */
  method AssemblePage(title: string, description: string, permissions: seq<RuleRow>,
                      obligations: seq<RuleRow>, prohibitions: seq<RuleRow>) returns (adoc: string)
    ensures adoc == Page(title, description, permissions, obligations, prohibitions)
  {
    adoc := "= " + title + "\n\n";
    if description != "" {
      adoc := adoc + description + "\n\n";
    }
    assert adoc == "= " + title + "\n\n" + (if description != "" then description + "\n\n" else "");
    var permissionsText := FormatSection("Permissions", permissions);
    adoc := adoc + permissionsText;
    var obligationsText := FormatSection("Obligations", obligations);
    adoc := adoc + obligationsText;
    var prohibitionsText := FormatSection("Prohibitions", prohibitions);
    adoc := adoc + prohibitionsText;
  }

  /** The body of the per-policy loop of `create_policy_page`, up to the file write. */
  method RenderPolicy(g: Graph, policy: string) returns (adoc: string)
    ensures adoc == PageOf(g, policy)
  {
    var title := Value(g, policy, DctermsTitle).GetOr("None");
    if title == "None" {
      title := policy;
    }
    var description := Value(g, policy, DctermsDescription).GetOr("None");
    description := if description == "None" then "" else description;

    var permissions := ExtractRules(g, policy, OdrlPermission);
    var obligations := ExtractRules(g, policy, OdrlObligation);
    var prohibitions := ExtractRules(g, policy, OdrlProhibition);

    adoc := AssemblePage(title, description, permissions, obligations, prohibitions);
  }

  /** The subjects typed `odrl:Policy`. */
  function PolicySubjects(g: Graph): set<string>
  {
    set t | t in g && t.pred == RdfType && t.obj == OdrlPolicy :: t.subj
  }

  /** The first loop of `create_policy_page`: gathers the Policy-typed subjects into a set. */
  method CollectPolicies(g: Graph) returns (policyUris: set<string>)
    ensures forall s :: s in policyUris <==> Triple(s, RdfType, OdrlPolicy) in g
    ensures policyUris == PolicySubjects(g)
  {
    policyUris := {};
    var subjects := Subjects(g, RdfType, OdrlPolicy);
    for i := 0 to |subjects|
      invariant forall s :: s in policyUris <==> s in subjects[..i]
    {
      policyUris := policyUris + {subjects[i]};
    }
    assert subjects[..|subjects|] == subjects;
    assert policyUris == PolicySubjects(g) by {
      forall s ensures s in policyUris <==> s in PolicySubjects(g) {
        if s in policyUris {
          var t := Triple(s, RdfType, OdrlPolicy);
          assert t in g;
        }
      }
    }
  }

  /** The second loop of `create_policy_page`: renders each collected policy. */
  method RenderPolicies(g: Graph, policyUris: set<string>) returns (pages: map<string, string>)
    ensures pages.Keys == policyUris
    ensures forall p :: p in pages ==> pages[p] == PageOf(g, p)
  {
    pages := map[];
    var todo := policyUris;
    while todo != {}
      invariant todo <= policyUris
      invariant pages.Keys == policyUris - todo
      invariant forall p :: p in pages ==> pages[p] == PageOf(g, p)
      decreases |todo|
    {
      var p :| p in todo;
      var adoc := RenderPolicy(g, p);
      pages := pages[p := adoc];
      todo := todo - {p};
    }
  }

  /**
   * `create_policy_page`: one page per Policy-typed subject, keyed by that
   * subject (the file write is left out). The `policy` argument is not used:
   * the loop renders every policy in the graph.
   */
  method CreatePolicyPage(policy: string, g: Graph) returns (pages: map<string, string>)
    ensures pages.Keys == PolicySubjects(g)
    ensures forall p :: p in pages ==> pages[p] == PageOf(g, p)
    ensures |pages| == 0 <==> forall s :: Triple(s, RdfType, OdrlPolicy) !in g
  {
    var policyUris := CollectPolicies(g);
    if policyUris == {} {
      return map[];
    }
    pages := RenderPolicies(g, policyUris);
  }
}
