/** `_to_bracket_notation`: the tree as the bracket string the tree edit
    distance reads, `label(child,child,...)`, with each node's label `tag` or
    `tag:text`. */
module Bracket {
  import opened Trees
  import opened TableConfig

  /** One character of `text.replace('(', '[').replace(')', ']').replace(',', ';')`. */
  function SafeChar(c: char): char {
    if c == '(' then '[' else if c == ')' then ']' else if c == ',' then ';' else c
  }

  /** The node text with the three characters the bracket notation reserves
      replaced; every other character is kept in place. */
  function SafeText(text: string): (r: string)
    ensures |r| == |text|
    ensures '(' !in r && ')' !in r && ',' !in r
    ensures forall i :: 0 <= i < |text| ==> (r[i] == text[i] <==> text[i] !in "(),")
  {
    seq(|text|, i requires 0 <= i < |text| => SafeChar(text[i]))
  }

  /** The node's label: the bare tag in structure-only mode or when the text
      is empty, otherwise `tag:safe_text`. It always starts with the tag, and
      is the bare tag exactly in those two cases. */
  function Label(t: Tree, structureOnly: bool): (written: string)
    ensures |written| >= |t.tag| && written[..|t.tag|] == t.tag
    ensures written == t.tag <==> structureOnly || t.text == ""
  {
    if structureOnly || t.text == "" then t.tag else t.tag + ":" + SafeText(t.text)
  }

  /** `_to_bracket_notation(node)`: a leaf is its label alone; any other node
      is its label followed by its children's notations, comma-separated, in
      parentheses. A node is written as its bare label exactly when it is a
      leaf. */
  function ToBracket(t: Tree, structureOnly: bool): (s: string)
    ensures s == Label(t, structureOnly) <==> t.children == []
    decreases t, 1
  {
    if t.children == [] then Label(t, structureOnly)
    else Label(t, structureOnly) + "(" + JoinBrackets(t.children, structureOnly) + ")"
  }

  /** `",".join(self._to_bracket_notation(c) for c in children)`: it holds
      at least the commas between the notations. */
  function JoinBrackets(ts: seq<Tree>, structureOnly: bool): (s: string)
    ensures |s| >= |ts| - 1
    decreases ts, 0
  {
    if ts == [] then ""
    else if |ts| == 1 then ToBracket(ts[0], structureOnly)
    else JoinBrackets(ts[..|ts| - 1], structureOnly) + "," + ToBracket(ts[|ts| - 1], structureOnly)
  }

  // ---------------------------------------------------------------------------
  // Labels parse back

  /** The tag and text the cost model reads back from a node's label: its
      tag, and its escaped text unless only the structure is compared. A tag
      holding no colon is required, as `_parse_node` splits at the first one. */
  lemma LabelParses(t: Tree, structureOnly: bool)
    requires ':' !in t.tag
    ensures ParseNode(Label(t, structureOnly)) == (t.tag, if structureOnly then "" else SafeText(t.text))
  {
    if !structureOnly && t.text != "" {
      ParseLabel(t.tag, SafeText(t.text));
    }
  }

  /** A tag holding a colon, as the HTML parser keeps for namespaced tags
      such as `o:p`, does not parse back: `_parse_node` splits inside the tag,
      so the cost model reads a shorter tag. */
  lemma ColonTagMisread(t: Tree, structureOnly: bool)
    requires ':' in t.tag
    ensures ParseNode(Label(t, structureOnly)).0 != t.tag
    ensures |ParseNode(Label(t, structureOnly)).0| < |t.tag|
  {
    var written := Label(t, structureOnly);
    var j :| 0 <= j < |t.tag| && t.tag[j] == ':';
    assert written[j] == ':';
    var tag := ParseNode(written).0;
    assert written == tag + ":" + ParseNode(written).1;
    PrefixColon(tag, t.tag, written);
  }

  /** A prefix of a text at least as long as a colon-holding tag the text
      starts with holds that colon too. */
  lemma PrefixColon(prefix: string, tag: string, s: string)
    requires ':' in tag && |s| >= |tag| && s[..|tag|] == tag
    requires |prefix| <= |s| && s[..|prefix|] == prefix
    ensures |prefix| >= |tag| ==> ':' in prefix
  {
    var j :| 0 <= j < |tag| && tag[j] == ':';
    assert |prefix| >= |tag| ==> prefix[j] == s[j] == ':';
  }

  /** Two textless cells tagged `o:p` and `o:pp` are read as one tag `o` with
      the texts `p` and `pp`, so renaming one into the other costs 0.5 rather
      than the 1 two different tags cost. */
  lemma NamespacedRename(t1: Tree, t2: Tree, structureOnly: bool)
    requires t1.tag == "o:p" && t2.tag == "o:pp" && t1.text == "" && t2.text == ""
    ensures Rename(Label(t1, structureOnly), Label(t2, structureOnly)) == 0.5
  {
    var tag, text1, text2 := "o", "p", "pp";
    assert t1.tag == tag + ":" + text1 && t2.tag == tag + ":" + text2;
    ParseLabel(tag, text1);
    ParseLabel(tag, text2);
    HalfDistance(text1, text2);
  }

  /** The texts `p` and `pp` lie one edit apart, half the longer length. */
  lemma HalfDistance(a: string, b: string)
    requires a == "p" && b == "pp"
    ensures Levenshtein(a, b) == 0.5
  {
    EditDistanceZero(a, b[1..]);
    assert b[1..] == a;
    EditDistanceBounds(a, b);
    assert EditDistance(a, b) == 1;
  }

  // ---------------------------------------------------------------------------
  // The notation encodes the node count

  /** Every tag in the tree is free of the characters the notation reserves. */
  predicate WellTagged(t: Tree)
    decreases t
  {
    && '(' !in t.tag && ')' !in t.tag && ',' !in t.tag
    && forall i :: 0 <= i < |t.children| ==> WellTagged(t.children[i])
  }

  /** A label holds none of the reserved characters. */
  lemma LabelClean(t: Tree, structureOnly: bool)
    requires WellTagged(t)
    ensures var m := multiset(Label(t, structureOnly)); m['('] == 0 && m[')'] == 0 && m[','] == 0
  {
    if !(structureOnly || t.text == "") {
      var s := SafeText(t.text);
      assert multiset(s)['('] == 0 && multiset(s)[')'] == 0 && multiset(s)[','] == 0;
    }
  }

  /** A well-tagged tree's notation has as many nodes as opening parentheses
      and commas plus one, and its parentheses balance in number. */
  lemma {:induction false} BracketCounts(t: Tree, structureOnly: bool)
    requires WellTagged(t)
    ensures var m := multiset(ToBracket(t, structureOnly));
      Size(t) == m['('] + m[','] + 1 && m['('] == m[')']
    decreases t, 1
  {
    LabelClean(t, structureOnly);
    var head := Label(t, structureOnly);
    if t.children != [] {
      JoinCounts(t.children, structureOnly);
      var inner := JoinBrackets(t.children, structureOnly);
      assert ToBracket(t, structureOnly) == head + "(" + inner + ")";
      ParenCounts(head, inner);
      assert Size(t) == 1 + ForestSize(t.children);
    }
  }

  /** Reserved-character counts of a label followed by a parenthesised list. */
  lemma ParenCounts(x: string, y: string)
    ensures var m := multiset(x + "(" + y + ")");
      && m['('] == multiset(x)['('] + 1 + multiset(y)['(']
      && m[')'] == multiset(x)[')'] + multiset(y)[')'] + 1
      && m[','] == multiset(x)[','] + multiset(y)[',']
  {
    assert multiset(x + "(" + y + ")") == multiset(x) + multiset("(") + multiset(y) + multiset(")");
  }

  /** The same count for the comma-joined notations of a non-empty sequence of
      trees: the joining commas make up for the roots beyond the first. */
  lemma {:induction false} JoinCounts(ts: seq<Tree>, structureOnly: bool)
    requires ts != []
    requires forall i :: 0 <= i < |ts| ==> WellTagged(ts[i])
    ensures var m := multiset(JoinBrackets(ts, structureOnly));
      ForestSize(ts) == m['('] + m[','] + 1 && m['('] == m[')']
    decreases ts, 0
  {
    var n := |ts|;
    BracketCounts(ts[n - 1], structureOnly);
    if n == 1 {
      assert ts[..0] == [];
    } else {
      JoinCounts(ts[..n - 1], structureOnly);
      JoinStep(ts, structureOnly);
    }
  }

  /** One step of `JoinCounts`: adding a last tree and its comma. */
  lemma JoinStep(ts: seq<Tree>, structureOnly: bool)
    requires |ts| > 1
    requires var m := multiset(JoinBrackets(ts[..|ts| - 1], structureOnly));
      ForestSize(ts[..|ts| - 1]) == m['('] + m[','] + 1 && m['('] == m[')']
    requires var m := multiset(ToBracket(ts[|ts| - 1], structureOnly));
      Size(ts[|ts| - 1]) == m['('] + m[','] + 1 && m['('] == m[')']
    ensures var m := multiset(JoinBrackets(ts, structureOnly));
      ForestSize(ts) == m['('] + m[','] + 1 && m['('] == m[')']
  {
    var n := |ts|;
    CommaCounts(JoinBrackets(ts[..n - 1], structureOnly), ToBracket(ts[n - 1], structureOnly));
  }

  /** Reserved-character counts of two notations joined by a comma. */
  lemma CommaCounts(x: string, y: string)
    ensures var m := multiset(x + "," + y);
      && m['('] == multiset(x)['('] + multiset(y)['(']
      && m[')'] == multiset(x)[')'] + multiset(y)[')']
      && m[','] == multiset(x)[','] + 1 + multiset(y)[',']
  {
  }

  /** Two well-tagged trees with the same notation have the same node count. */
  lemma NotationDecidesSize(t1: Tree, t2: Tree, structureOnly: bool)
    requires WellTagged(t1) && WellTagged(t2)
    requires ToBracket(t1, structureOnly) == ToBracket(t2, structureOnly)
    ensures Size(t1) == Size(t2)
  {
    BracketCounts(t1, structureOnly);
    BracketCounts(t2, structureOnly);
  }

  /** A tag holding `(` lets a leaf share its notation with a larger tree: the
      leaf tagged `a(b)` and the node `a` with one child `b` are both written
      `a(b)`, with one node against two. */
  lemma NotationHidesSize(t1: Tree, t2: Tree, structureOnly: bool)
    requires t1 == Tree("a(b)", map[], "", [])
    requires t2 == Tree("a", map[], "", [Tree("b", map[], "", [])])
    ensures ToBracket(t1, structureOnly) == ToBracket(t2, structureOnly)
    ensures Size(t1) == 1 && Size(t2) == 2
  {
    assert t2.children[..0] == [];
    assert ForestSize(t2.children) == 1;
  }

  // ---------------------------------------------------------------------------
  // Structure-only notation sees only the shape

  /** Two trees with the same tags in the same arrangement. */
  predicate SameShape(t1: Tree, t2: Tree)
    decreases t1
  {
    && t1.tag == t2.tag
    && |t1.children| == |t2.children|
    && forall i :: 0 <= i < |t1.children| ==> SameShape(t1.children[i], t2.children[i])
  }

  /** In structure-only mode two trees of the same shape serialise to the same
      string, whatever their texts. */
  lemma {:induction false} ShapeDecidesStructure(t1: Tree, t2: Tree)
    requires SameShape(t1, t2)
    ensures ToBracket(t1, true) == ToBracket(t2, true)
    decreases t1, 1
  {
    if t1.children != [] {
      JoinSameShape(t1.children, t2.children);
    }
  }

  /** Trees of the same shape have the same number of nodes. */
  lemma {:induction false} SameShapeSize(t1: Tree, t2: Tree)
    requires SameShape(t1, t2)
    ensures Size(t1) == Size(t2)
    decreases t1, 1
  {
    ForestSameShapeSize(t1.children, t2.children);
  }

  lemma {:induction false} ForestSameShapeSize(ts1: seq<Tree>, ts2: seq<Tree>)
    requires |ts1| == |ts2|
    requires forall i :: 0 <= i < |ts1| ==> SameShape(ts1[i], ts2[i])
    ensures ForestSize(ts1) == ForestSize(ts2)
    decreases ts1, 0
  {
    var n := |ts1|;
    if n > 0 {
      SameShapeSize(ts1[n - 1], ts2[n - 1]);
      ForestSameShapeSize(ts1[..n - 1], ts2[..n - 1]);
    }
  }

  lemma {:induction false} JoinSameShape(ts1: seq<Tree>, ts2: seq<Tree>)
    requires |ts1| == |ts2|
    requires forall i :: 0 <= i < |ts1| ==> SameShape(ts1[i], ts2[i])
    ensures JoinBrackets(ts1, true) == JoinBrackets(ts2, true)
    decreases ts1, 0
  {
    var n := |ts1|;
    if n > 0 {
      ShapeDecidesStructure(ts1[n - 1], ts2[n - 1]);
      if n > 1 {
        JoinSameShape(ts1[..n - 1], ts2[..n - 1]);
      } else {
        ShapeDecidesStructure(ts1[0], ts2[0]);
      }
    }
  }
}
