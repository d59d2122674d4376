/** `TEDSMetric`: normalises both tables to HTML, builds their trees, measures
    the tree edit distance between their bracket notations and turns it into a
    similarity score in [0, 1]. */
module TedsMetric {
  import opened Wrappers
  import opened Text
  import opened PyValues
  import opened Normalize
  import opened Trees
  import opened TableConfig
  import opened Bracket

  /** A tree edit distance as the external computation reports it. */
  type Cost = r: real | r >= 0.0

  /** The external tree edit distance over two bracket notations with the
      `TableConfig` costs; `None` when the computation raises. */
  type Apted = (string, string) -> Option<Cost>

  /** An element named `table`, the only kind `soup.find('table')` returns. */
  type TableElement = m: Markup | m.Element? && m.name == "table" witness Element("table", map[], [])

  /** The HTML parser's `soup.find('table')`: the first table element of an
      HTML text, or `None` when there is none or parsing raises. */
  type FindTable = string -> Option<TableElement>

  /** The entries of `self.config` that `_setup` reads, when present. */
  datatype Config = Config(structureOnly: Option<bool>, ignoreNodes: Option<seq<string>>)

  /** The metric's settings after `_setup`. */
  datatype Settings = Settings(structureOnly: bool, ignoreNodes: seq<string>)

  /** `_setup`: text is compared unless the configuration asks for structure
      only, and `tbody`, `thead` and `tfoot` are ignored unless it names
      other tags. */
  function Setup(config: Config): (settings: Settings)
    ensures settings.structureOnly <==> config.structureOnly == Some(true)
    ensures config.ignoreNodes.None? ==> settings.ignoreNodes == DefaultIgnoreNodes
    ensures config.ignoreNodes.Some? ==> settings.ignoreNodes == config.ignoreNodes.value
  {
    Settings(
      if config.structureOnly.Some? then config.structureOnly.value else false,
      if config.ignoreNodes.Some? then config.ignoreNodes.value else DefaultIgnoreNodes)
  }

  /** The prerequisite `table_edit_result` a caller passes in: whether the
      table-edit step succeeded and its details. */
  datatype TableEditResult = TableEditResult(success: bool, details: map<string, Value>)

  /** What a scored result's `details` hold. */
  datatype Details =
    | Note(note: string)
    | Diagnostics(editDistance: real, predictedNodes: nat, groundtruthNodes: nat,
                  maxNodes: nat, structureOnly: bool, algorithm: string)

  /** A metric result: a score with details, or an error result with its message. */
  datatype MetricResult = Scored(score: real, details: Details) | Failure(message: string)

  /** `_parse_html_table`: no tree for a blank text or when no table element is
      found, otherwise the tree of the first table, rooted at that table. */
  function ParseHtmlTable(html: string, findTable: FindTable, settings: Settings): (r: Option<Tree>)
    ensures r.None? <==> IsBlank(html) || findTable(html).None?
    ensures r.Some? ==> r.value.tag == "table"
  {
    StripEmpty(html);
    if Strip(html) == "" then Option.None
    else
      var table := findTable(html);
      if table.None? then Option.None
      else Some(BuildTree(table.value, settings.structureOnly, settings.ignoreNodes))
  }

  /** `_tree_edit_distance`: the external distance between the two bracket
      notations, or the difference of the node counts when it raises. */
  function TreeEditDistance(t1: Tree, t2: Tree, structureOnly: bool, apted: Apted): (d: real)
    ensures d >= 0.0
  {
    match apted(ToBracket(t1, structureOnly), ToBracket(t2, structureOnly))
    case Some(d) => d
    case None => if Size(t1) >= Size(t2) then (Size(t1) - Size(t2)) as real else (Size(t2) - Size(t1)) as real
  }

  /** `max(0.0, min(1.0, x))`. */
  function Clamp(x: real): real {
    if x < 0.0 then 0.0 else if x > 1.0 then 1.0 else x
  }

  /** The score for an edit distance: `1 - distance / max_nodes`, clamped to
      [0, 1], or 1 when there are no nodes. */
  function ScoreFromDistance(d: real, maxNodes: nat): (score: real)
    ensures 0.0 <= score <= 1.0
  {
    var teds := if maxNodes > 0 then 1.0 - d / maxNodes as real else 1.0;
    Clamp(teds)
  }

  /** `details.get('error', 'unknown reason')` as an f-string prints it: the
      printed `error` entry, or `unknown reason` when there is none. */
  function FailureReason(details: map<string, Value>): (reason: string)
    ensures "error" in details ==> reason == Show(details["error"])
    ensures "error" !in details ==> reason == "unknown reason"
  {
    if "error" in details then Show(details["error"]) else "unknown reason"
  }

  /** `_calculate_score`: checks the prerequisite, normalises and parses both
      tables, and scores their trees. The result is an error exactly when the
      prerequisite is missing or failed, and every score lies in [0, 1]. */
  function CalculateScore(settings: Settings, predicted: Value, groundtruth: Value,
                          tableEdit: Option<TableEditResult>,
                          findTable: FindTable, apted: Apted): (r: MetricResult)
    ensures r.Failure? <==> tableEdit.None? || !tableEdit.value.success
    ensures tableEdit.None? ==> r == Failure("Missing table_edit result in kwargs")
    ensures tableEdit.Some? && !tableEdit.value.success ==>
      r == Failure("Skipped due to table_edit failure: " + FailureReason(tableEdit.value.details))
    ensures r.Scored? ==> 0.0 <= r.score <= 1.0
    ensures var p := ParseHtmlTable(NormalizeToHtml(predicted), findTable, settings);
      var g := ParseHtmlTable(NormalizeToHtml(groundtruth), findTable, settings);
      tableEdit.Some? && tableEdit.value.success && p.None? && g.None? ==>
        r == Scored(1.0, Note("Both tables are empty or invalid"))
    ensures var p := ParseHtmlTable(NormalizeToHtml(predicted), findTable, settings);
      var g := ParseHtmlTable(NormalizeToHtml(groundtruth), findTable, settings);
      tableEdit.Some? && tableEdit.value.success && p.None? != g.None? ==>
        r == Scored(0.0, Note("One table is empty or invalid"))
  {
    if tableEdit.None? then Failure("Missing table_edit result in kwargs")
    else if !tableEdit.value.success then
      Failure("Skipped due to table_edit failure: " + FailureReason(tableEdit.value.details))
    else
      var predTree := ParseHtmlTable(NormalizeToHtml(predicted), findTable, settings);
      var gtTree := ParseHtmlTable(NormalizeToHtml(groundtruth), findTable, settings);
      if predTree.None? && gtTree.None? then Scored(1.0, Note("Both tables are empty or invalid"))
      else if predTree.None? || gtTree.None? then Scored(0.0, Note("One table is empty or invalid"))
      else
        var d := TreeEditDistance(predTree.value, gtTree.value, settings.structureOnly, apted);
        var predNodes := CountNodes(predTree);
        var gtNodes := CountNodes(gtTree);
        var maxNodes := Max(predNodes, gtNodes);
        Scored(ScoreFromDistance(d, maxNodes),
               Diagnostics(d, predNodes, gtNodes, maxNodes, settings.structureOnly, "TEDS"))
  }

  // ---------------------------------------------------------------------------
  // What the score promises

  /** The score falls as the distance grows, is 1 exactly for distance 0 and
      0 exactly once the distance reaches the node count. */
  lemma ScoreMonotone(d1: real, d2: real, maxNodes: nat)
    requires 0.0 <= d1 <= d2 && maxNodes > 0
    ensures ScoreFromDistance(d2, maxNodes) <= ScoreFromDistance(d1, maxNodes)
    ensures ScoreFromDistance(d1, maxNodes) == 1.0 <==> d1 == 0.0
    ensures ScoreFromDistance(d1, maxNodes) == 0.0 <==> d1 >= maxNodes as real
  {
    var m := maxNodes as real;
    assert d1 / m <= d2 / m by {
      assert d1 / m * m == d1 && d2 / m * m == d2;
    }
    assert d1 / m == 0.0 <==> d1 == 0.0 by {
      assert d1 / m * m == d1;
    }
    assert d1 / m >= 1.0 <==> d1 >= m by {
      assert d1 / m * m == d1;
    }
  }

  /** When the external distance raises, the score is the smaller node count
      over the larger one. */
  lemma FallbackScore(t1: Tree, t2: Tree, structureOnly: bool, apted: Apted)
    requires apted(ToBracket(t1, structureOnly), ToBracket(t2, structureOnly)).None?
    ensures var n1 := Size(t1); var n2 := Size(t2);
      ScoreFromDistance(TreeEditDistance(t1, t2, structureOnly, apted), Max(n1, n2))
        == (if n1 <= n2 then n1 as real / n2 as real else n2 as real / n1 as real)
  {
    var n1 := Size(t1) as real;
    var n2 := Size(t2) as real;
    if n1 <= n2 {
      ComplementRatio(n1, n2);
    } else {
      ComplementRatio(n2, n1);
    }
  }

  /** `1 - (big - small) / big` is `small / big`, and lies in [0, 1]. */
  lemma ComplementRatio(small: real, big: real)
    requires 0.0 <= small <= big && big > 0.0
    ensures 1.0 - (big - small) / big == small / big
    ensures 0.0 <= small / big <= 1.0
  {
    var q := (big - small) / big;
    var r := small / big;
    assert q * big == big - small;
    assert r * big == small;
    var x := q - (1.0 - r);
    assert x * big == 0.0;
    assert x == 0.0 by {
      PositiveFactor(x, big);
    }
  }

  /** A product with a positive factor is 0 only when the other factor is. */
  lemma PositiveFactor(x: real, y: real)
    requires y > 0.0 && x * y == 0.0
    ensures x == 0.0
  {
  }

  /** The external distance gives 0 between a notation and itself whenever it
      returns at all. */
  ghost predicate ZeroOnEqual(apted: Apted) {
    forall s :: apted(s, s).Some? ==> apted(s, s).value == 0.0
  }

  /** Two trees whose notations agree are at distance 0, whether the external
      distance answers or the fallback is used. The fallback compares node
      counts, which equal notations fix only for well-tagged trees
      (`NotationDecidesSize`, `NotationHidesSize`), so the counts are
      required to agree. */
  lemma EqualNotationsZero(t1: Tree, t2: Tree, structureOnly: bool, apted: Apted)
    requires ZeroOnEqual(apted)
    requires ToBracket(t1, structureOnly) == ToBracket(t2, structureOnly)
    requires Size(t1) == Size(t2)
    ensures TreeEditDistance(t1, t2, structureOnly, apted) == 0.0
  {
  }

  /** A table compared with itself scores 1, given a distance that is 0
      between equal notations. */
  lemma IdenticalTablesScoreOne(settings: Settings, table: Value,
                                edit: TableEditResult, findTable: FindTable, apted: Apted)
    requires edit.success && ZeroOnEqual(apted)
    ensures CalculateScore(settings, table, table, Some(edit), findTable, apted).Scored?
    ensures CalculateScore(settings, table, table, Some(edit), findTable, apted).score == 1.0
  {
    var tree := ParseHtmlTable(NormalizeToHtml(table), findTable, settings);
    if tree.Some? {
      EqualNotationsZero(tree.value, tree.value, settings.structureOnly, apted);
      ScoreMonotone(0.0, 0.0, Size(tree.value));
    }
  }

  /** In structure-only mode two tables whose trees have the same shape score
      1, whatever their cell texts. */
  lemma SameShapeScoresOne(settings: Settings, predicted: Value, groundtruth: Value,
                           edit: TableEditResult, findTable: FindTable, apted: Apted)
    requires edit.success && settings.structureOnly && ZeroOnEqual(apted)
    requires var p := ParseHtmlTable(NormalizeToHtml(predicted), findTable, settings);
      var g := ParseHtmlTable(NormalizeToHtml(groundtruth), findTable, settings);
      p.Some? && g.Some? && SameShape(p.value, g.value)
    ensures CalculateScore(settings, predicted, groundtruth, Some(edit), findTable, apted).Scored?
    ensures CalculateScore(settings, predicted, groundtruth, Some(edit), findTable, apted).score == 1.0
  {
    var p := ParseHtmlTable(NormalizeToHtml(predicted), findTable, settings).value;
    var g := ParseHtmlTable(NormalizeToHtml(groundtruth), findTable, settings).value;
    ShapeDecidesStructure(p, g);
    SameShapeSize(p, g);
    EqualNotationsZero(p, g, true, apted);
    ScoreMonotone(0.0, 0.0, Size(p));
  }

  /** Two empty table values (`None`, a blank string or an empty list) score
      1; an empty table value against a table that parses scores 0, in either
      order. */
  lemma EmptyTables(settings: Settings, predicted: Value, groundtruth: Value,
                    edit: TableEditResult, findTable: FindTable, apted: Apted)
    requires edit.success
    ensures EmptyTable(predicted) && EmptyTable(groundtruth)
        ==> CalculateScore(settings, predicted, groundtruth, Some(edit), findTable, apted)
              == Scored(1.0, Note("Both tables are empty or invalid"))
    ensures EmptyTable(predicted) && ParseHtmlTable(NormalizeToHtml(groundtruth), findTable, settings).Some?
        ==> CalculateScore(settings, predicted, groundtruth, Some(edit), findTable, apted)
              == Scored(0.0, Note("One table is empty or invalid"))
    ensures ParseHtmlTable(NormalizeToHtml(predicted), findTable, settings).Some? && EmptyTable(groundtruth)
        ==> CalculateScore(settings, predicted, groundtruth, Some(edit), findTable, apted)
              == Scored(0.0, Note("One table is empty or invalid"))
  {
    StripEmpty("");
  }
}
