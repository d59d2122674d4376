/** The trees the scorer compares: the parsed HTML element a table comes from,
    the dictionary tree `_element_to_tree` builds from it, and the node count. */
module Trees {
  import opened Text
  import opened Wrappers

  /** A node of a parsed HTML document, as the HTML parser hands it over: an
      element with its tag name, attributes and children in document order; a
      run of character data; or any other node (a comment, a doctype, a
      processing instruction), which has no tag name and whose text
      `get_text` does not collect. */
  datatype Markup =
    | Element(name: string, attrs: map<string, string>, children: seq<Markup>)
    | Chars(text: string)
    | Other(text: string)

  /** The tags `_setup` ignores unless the configuration names others. */
  const DefaultIgnoreNodes: seq<string> := ["tbody", "thead", "tfoot"]

  /** The tree `_element_to_tree` builds: `{'tag', 'attrs', 'text', 'children'}`. */
  datatype Tree = Tree(tag: string, attrs: map<string, string>, text: string, children: seq<Tree>)

  /** `hasattr(child, 'name') and child.name`: the child is an element with a
      non-empty tag name. */
  predicate IsElementChild(m: Markup) {
    m.Element? && m.name != ""
  }

  /** `element.get_text(strip=True)`: every string below the node, stripped,
      joined with no separator. */
  function GetText(m: Markup): string
    decreases m, 1
  {
    match m
    case Chars(t) => Strip(t)
    case Other(_) => ""
    case Element(_, _, cs) => TextOf(cs)
  }

  /** The text of a sequence of sibling nodes, in document order. */
  function TextOf(cs: seq<Markup>): string
    decreases cs, 0
  {
    if cs == [] then "" else TextOf(cs[..|cs| - 1]) + GetText(cs[|cs| - 1])
  }

  /** What `_element_to_tree` returns for an element: its tag, its attributes,
      its text (or "" when only the structure is compared) and the trees of
      its element children. */
  function BuildTree(e: Markup, structureOnly: bool, ignoreNodes: seq<string>): Tree
    requires e.Element?
    decreases e, 1
  {
    Tree(e.name, e.attrs, if structureOnly then "" else GetText(e),
         ChildTrees(e.children, e.name in ignoreNodes, structureOnly, ignoreNodes))
  }

  /** The `children` list built from a sequence of child nodes. Characters and
      other nodes without a tag name contribute nothing. With `splice` (the
      parent's tag is in `ignore_nodes`) each element child contributes the
      children of its own tree (`extend`), otherwise its tree (`append`). */
  function ChildTrees(cs: seq<Markup>, splice: bool, structureOnly: bool, ignoreNodes: seq<string>): seq<Tree>
    decreases cs, 0
  {
    if cs == [] then []
    else
      var last := cs[|cs| - 1];
      ChildTrees(cs[..|cs| - 1], splice, structureOnly, ignoreNodes) +
      (if IsElementChild(last) then
         var t := BuildTree(last, structureOnly, ignoreNodes);
         if splice then t.children else [t]
       else [])
  }

  /** `_element_to_tree`: fills the node's `children` list one child at a time,
      recursing into each element child. */
  method ElementToTree(element: Markup, structureOnly: bool, ignoreNodes: seq<string>) returns (tree: Tree)
    requires element.Element?
    ensures tree == BuildTree(element, structureOnly, ignoreNodes)
    decreases element
  {
    var text := if structureOnly then "" else GetText(element);
    var cs := element.children;
    var splice := element.name in ignoreNodes;
    var children: seq<Tree> := [];
    var i := 0;
    while i < |cs|
      invariant 0 <= i <= |cs|
      invariant children == ChildTrees(cs[..i], splice, structureOnly, ignoreNodes)
    {
      var child := cs[i];
      assert cs[..i + 1][..i] == cs[..i];
      if IsElementChild(child) {
        var sub := ElementToTree(child, structureOnly, ignoreNodes);
        if splice {
          children := children + sub.children;
        } else {
          children := children + [sub];
        }
      }
      i := i + 1;
    }
    assert cs[..i] == cs;
    tree := Tree(element.name, element.attrs, text, children);
  }

  // ---------------------------------------------------------------------------
  // What the builder promises

  /** The element children of a node, in document order. */
  function ElementChildren(cs: seq<Markup>): (els: seq<Markup>)
    ensures forall i :: 0 <= i < |els| ==> IsElementChild(els[i])
    ensures |els| <= |cs|
    decreases |cs|
  {
    if cs == [] then []
    else ElementChildren(cs[..|cs| - 1]) + (if IsElementChild(cs[|cs| - 1]) then [cs[|cs| - 1]] else [])
  }

  /** The children lists of a sequence of trees, one after the other. */
  function Grandchildren(ts: seq<Tree>): seq<Tree>
    decreases |ts|
  {
    if ts == [] then [] else Grandchildren(ts[..|ts| - 1]) + ts[|ts| - 1].children
  }

  /** Without splicing, a node gets exactly one tree per element child, in
      document order; characters and other nodes are skipped. */
  lemma {:induction false} PlainChildren(cs: seq<Markup>, structureOnly: bool, ignoreNodes: seq<string>)
    ensures var els := ElementChildren(cs);
      ChildTrees(cs, false, structureOnly, ignoreNodes)
        == seq(|els|, i requires 0 <= i < |els| => BuildTree(els[i], structureOnly, ignoreNodes))
    decreases |cs|
  {
    if cs != [] {
      var n := |cs|;
      PlainChildren(cs[..n - 1], structureOnly, ignoreNodes);
    }
  }

  /** With splicing (the parent's tag is ignored) a node's children are the
      children lists of the trees it would otherwise have had, concatenated in
      order: its element children themselves do not appear. */
  lemma {:induction false} SplicedChildren(cs: seq<Markup>, structureOnly: bool, ignoreNodes: seq<string>)
    ensures ChildTrees(cs, true, structureOnly, ignoreNodes)
         == Grandchildren(ChildTrees(cs, false, structureOnly, ignoreNodes))
    decreases |cs|
  {
    if cs != [] {
      var n := |cs|;
      var plain := ChildTrees(cs[..n - 1], false, structureOnly, ignoreNodes);
      SplicedChildren(cs[..n - 1], structureOnly, ignoreNodes);
      assert cs[..n - 1] == cs[..|cs| - 1];
      if IsElementChild(cs[n - 1]) {
        var t := BuildTree(cs[n - 1], structureOnly, ignoreNodes);
        assert ChildTrees(cs, false, structureOnly, ignoreNodes) == plain + [t];
        assert (plain + [t])[..|plain|] == plain;
        assert Grandchildren(plain + [t]) == Grandchildren(plain) + t.children;
      } else {
        assert ChildTrees(cs, false, structureOnly, ignoreNodes) == plain + [];
        assert plain + [] == plain;
      }
    }
  }

  /** Every text in the tree is "". */
  predicate NoText(t: Tree)
    decreases t, 1
  {
    t.text == "" && NoTextIn(t.children)
  }

  predicate NoTextIn(ts: seq<Tree>)
    decreases ts, 0
  {
    forall i :: 0 <= i < |ts| ==> NoText(ts[i])
  }

  /** In structure-only mode the builder records no text anywhere. */
  lemma {:induction false} StructureOnlyNoText(e: Markup, ignoreNodes: seq<string>)
    requires e.Element?
    ensures NoText(BuildTree(e, true, ignoreNodes))
    decreases e, 1
  {
    ChildrenNoText(e.children, e.name in ignoreNodes, ignoreNodes);
  }

  lemma {:induction false} ChildrenNoText(cs: seq<Markup>, splice: bool, ignoreNodes: seq<string>)
    ensures NoTextIn(ChildTrees(cs, splice, true, ignoreNodes))
    decreases cs, 0
  {
    if cs != [] {
      var n := |cs|;
      ChildrenNoText(cs[..n - 1], splice, ignoreNodes);
      var last := cs[n - 1];
      if IsElementChild(last) {
        StructureOnlyNoText(last, ignoreNodes);
      }
    }
  }

  /** A `table` holding a `tbody` holding one `tr` holding one `td`, with the
      default ignore set: the `tbody` node stays and the `tr` level vanishes,
      so the cell hangs directly under `tbody`. The same table written without
      the `tbody` wrapper therefore builds a different tree. */
  lemma IgnoredWrapperExample(td: Markup, tr: Markup, tbody: Markup, table: Markup,
                              unwrapped: Markup, ignoreNodes: seq<string>)
    requires td == Element("td", map[], [Chars("1")])
    requires tr == Element("tr", map[], [td])
    requires tbody == Element("tbody", map[], [tr])
    requires table == Element("table", map[], [tbody])
    requires unwrapped == Element("table", map[], [tr])
    requires ignoreNodes == DefaultIgnoreNodes
    ensures BuildTree(table, true, ignoreNodes)
         == Tree("table", map[], "", [Tree("tbody", map[], "", [Tree("td", map[], "", [])])])
    ensures BuildTree(unwrapped, true, ignoreNodes)
         == Tree("table", map[], "", [Tree("tr", map[], "", [Tree("td", map[], "", [])])])
    ensures BuildTree(table, true, ignoreNodes) != BuildTree(unwrapped, true, ignoreNodes)
  {
    assert unwrapped.children[..0] == [];
    assert "table" !in ignoreNodes && "tr" !in ignoreNodes && "td" !in ignoreNodes;
    assert "tbody" in ignoreNodes;
    var tdTree := Tree("td", map[], "", []);
    assert ChildTrees(td.children, false, true, ignoreNodes) == [] by {
      assert td.children[..0] == [];
    }
    assert BuildTree(td, true, ignoreNodes) == tdTree;
    assert ChildTrees(tr.children, false, true, ignoreNodes) == [tdTree] by {
      assert tr.children[..0] == [];
    }
    assert ChildTrees(tbody.children, true, true, ignoreNodes) == [tdTree] by {
      assert tbody.children[..0] == [];
    }
    assert ChildTrees(table.children, false, true, ignoreNodes)
        == [Tree("tbody", map[], "", [tdTree])] by {
      assert table.children[..0] == [];
    }
    assert BuildTree(tr, true, ignoreNodes) == Tree("tr", map[], "", [tdTree]);
    assert ChildTrees(unwrapped.children, false, true, ignoreNodes)
        == [Tree("tr", map[], "", [tdTree])];
  }

  // ---------------------------------------------------------------------------
  // Node counts

  /** `_count_nodes` of a tree: the node itself plus the nodes below it. */
  function Size(t: Tree): (n: nat)
    ensures n >= 1
    decreases t, 1
  {
    1 + ForestSize(t.children)
  }

  /** The nodes of a sequence of trees; each tree counts at least one. */
  function ForestSize(ts: seq<Tree>): (n: nat)
    ensures n >= |ts|
    decreases ts, 0
  {
    if ts == [] then 0 else ForestSize(ts[..|ts| - 1]) + Size(ts[|ts| - 1])
  }

  /** `_count_nodes(tree)`, where the tree may be `None`: 0 exactly for `None`. */
  function CountNodes(t: Option<Tree>): (n: nat)
    ensures n == 0 <==> t.None?
    ensures t.Some? ==> n == Size(t.value)
  {
    if t.None? then 0 else Size(t.value)
  }

  /** Counting is additive over concatenated sequences of trees. */
  lemma {:induction false} ForestSizeAppend(a: seq<Tree>, b: seq<Tree>)
    ensures ForestSize(a + b) == ForestSize(a) + ForestSize(b)
    decreases |b|
  {
    if b != [] {
      var n := |b|;
      assert (a + b)[..|a| + n - 1] == a + b[..n - 1];
      assert (a + b)[|a| + n - 1] == b[n - 1];
      ForestSizeAppend(a, b[..n - 1]);
    } else {
      assert a + b == a;
    }
  }

  /** Splicing removes exactly one node per spliced tree: the children lists of
      `ts`, concatenated, hold all the nodes of `ts` except their roots. */
  lemma {:induction false} GrandchildrenSize(ts: seq<Tree>)
    ensures ForestSize(Grandchildren(ts)) + |ts| == ForestSize(ts)
    decreases |ts|
  {
    if ts != [] {
      var n := |ts|;
      GrandchildrenSize(ts[..n - 1]);
      ForestSizeAppend(Grandchildren(ts[..n - 1]), ts[n - 1].children);
    }
  }
}
