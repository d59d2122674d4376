/** `TableConfig`: the costs the tree edit distance charges for deleting,
    inserting and renaming a node, where a node is the label `tag` or
    `tag:text` written by the bracket serialiser. */
module TableConfig {

  function Max(x: int, y: int): int {
    if x >= y then x else y
  }

  /** `delete(node)`: removing a node costs one unit, whatever the node. */
  function Delete(node: string): (cost: real)
    ensures cost == 1.0
  {
    1.0
  }

  /** `insert(node)`: adding a node costs one unit, whatever the node. */
  function Insert(node: string): (cost: real)
    ensures cost == 1.0
  {
    1.0
  }

  /** The position of the first occurrence of `c` in `s`. */
  function FirstIndex(s: string, c: char): (k: nat)
    requires c in s
    ensures k < |s| && s[k] == c && c !in s[..k]
  {
    if s[0] == c then 0
    else
      var k := 1 + FirstIndex(s[1..], c);
      assert s[..k] == [s[0]] + s[1..][..k - 1];
      k
  }

  /** `_parse_node`: `node.split(':', 1)` when the label holds a colon, else
      the label with an empty text. The tag is everything before the first
      colon, the text everything after it. */
  function ParseNode(node: string): (r: (string, string))
    ensures ':' !in node ==> r == (node, "")
    ensures ':' in node ==> ':' !in r.0 && node == r.0 + ":" + r.1
  {
    if ':' in node then
      var k := FirstIndex(node, ':');
      assert node == node[..k] + ":" + node[k + 1..];
      (node[..k], node[k + 1..])
    else (node, "")
  }

  /** The textbook Levenshtein distance: the fewest single-character
      insertions, deletions and substitutions turning `a` into `b`. */
  function EditDistance(a: string, b: string): nat
    decreases |a| + |b|
  {
    if a == [] then |b|
    else if b == [] then |a|
    else
      var drop := EditDistance(a[1..], b) + 1;
      var add := EditDistance(a, b[1..]) + 1;
      var change := EditDistance(a[1..], b[1..]) + (if a[0] == b[0] then 0 else 1);
      if drop <= add && drop <= change then drop
      else if add <= change then add
      else change
  }

  /** The distance lies between the difference of the lengths and the longer length. */
  lemma {:induction false} EditDistanceBounds(a: string, b: string)
    ensures EditDistance(a, b) <= Max(|a|, |b|)
    ensures EditDistance(a, b) >= |a| - |b| && EditDistance(a, b) >= |b| - |a|
    decreases |a| + |b|
  {
    if a != [] && b != [] {
      EditDistanceBounds(a[1..], b);
      EditDistanceBounds(a, b[1..]);
      EditDistanceBounds(a[1..], b[1..]);
    }
  }

  /** The distance does not depend on the order of its arguments. */
  lemma {:induction false} EditDistanceSymmetric(a: string, b: string)
    ensures EditDistance(a, b) == EditDistance(b, a)
    decreases |a| + |b|
  {
    if a != [] && b != [] {
      EditDistanceSymmetric(a[1..], b);
      EditDistanceSymmetric(a, b[1..]);
      EditDistanceSymmetric(a[1..], b[1..]);
    }
  }

  /** The distance is 0 exactly between equal strings. */
  lemma {:induction false} EditDistanceZero(a: string, b: string)
    ensures EditDistance(a, b) == 0 <==> a == b
    decreases |a| + |b|
  {
    if a != [] && b != [] {
      EditDistanceZero(a[1..], b[1..]);
      if a == b {
        assert a[1..] == b[1..];
      }
    }
  }

  /** `_levenshtein`: 0 for two empty texts, the other text's length when one
      is empty, and otherwise the edit distance divided by the longer length.
      It is never negative, is 0 exactly between equal texts and lies in
      [0, 1] when both texts are non-empty. */
  function Levenshtein(a: string, b: string): (d: real)
    ensures d >= 0.0
    ensures d == 0.0 <==> a == b
    ensures a != [] && b != [] ==> d <= 1.0
  {
    if a == [] && b == [] then 0.0
    else if a == [] then |b| as real
    else if b == [] then |a| as real
    else
      var maxLen := Max(|a|, |b|);
      if maxLen == 0 then 0.0
      else
        EditDistanceZero(a, b);
        EditDistanceBounds(a, b);
        Ratio(EditDistance(a, b), maxLen);
        EditDistance(a, b) as real / maxLen as real
  }

  /** The normalised distance is symmetric, and is the other text's length
      (which may exceed 1) when one text is empty. */
  lemma LevenshteinFacts(a: string, b: string)
    ensures Levenshtein(a, b) == Levenshtein(b, a)
    ensures a == [] ==> Levenshtein(a, b) == |b| as real
    ensures b == [] ==> Levenshtein(a, b) == |a| as real
  {
    EditDistanceSymmetric(a, b);
  }

  /** A count divided by a larger positive count lies in [0, 1] and is 0
      exactly when the count is. */
  lemma Ratio(d: nat, m: nat)
    requires 0 < m && d <= m
    ensures 0.0 <= d as real / m as real <= 1.0
    ensures d as real / m as real == 0.0 <==> d == 0
  {
  }

  /** `rename(node1, node2)`: 1 when the tags differ, 0 when the tags and the
      texts are equal, otherwise the normalised distance between the texts.
      It is never negative and is free exactly when both labels parse to the
      same tag and text. */
  function Rename(node1: string, node2: string): (cost: real)
    ensures cost >= 0.0
    ensures cost == 0.0 <==> ParseNode(node1) == ParseNode(node2)
    ensures ParseNode(node1).0 != ParseNode(node2).0 ==> cost == 1.0
  {
    var (tag1, text1) := ParseNode(node1);
    var (tag2, text2) := ParseNode(node2);
    if tag1 != tag2 then 1.0
    else if text1 == text2 then 0.0
    else Levenshtein(text1, text2)
  }

  /** Renaming is symmetric, and costs at most 1 when the parsed texts are
      both non-empty. */
  lemma RenameFacts(node1: string, node2: string)
    ensures Rename(node1, node2) == Rename(node2, node1)
    ensures ParseNode(node1).1 != "" && ParseNode(node2).1 != "" ==> Rename(node1, node2) <= 1.0
  {
    LevenshteinFacts(ParseNode(node1).1, ParseNode(node2).1);
  }

  /** Renaming costs no more than deleting the one node and inserting the
      other unless exactly one of the two labels carries a text. */
  lemma RenameWithinUnitCosts(node1: string, node2: string)
    requires (ParseNode(node1).1 == "") == (ParseNode(node2).1 == "")
    ensures Rename(node1, node2) <= Delete(node1) + Insert(node2)
  {
  }

  /** `_parse_node` undoes writing a label `tag:text` whose tag holds no colon:
      the text may hold colons, since only the first one splits. */
  lemma ParseLabel(tag: string, text: string)
    requires ':' !in tag
    ensures ParseNode(tag + ":" + text) == (tag, text)
  {
    var node := tag + ":" + text;
    var k := FirstIndex(node, ':');
    assert node[|tag|] == ':';
    assert k == |tag|;
    assert node[..k] == tag && node[k + 1..] == text;
  }

  /** Renaming a cell with no text to one of the same tag with text `t` costs
      the length of `t`, which is more than deleting the one and inserting the
      other once `t` has three characters or more. */
  lemma RenameFromEmptyText(tag: string, text: string)
    requires ':' !in tag && text != ""
    ensures Rename(tag, tag + ":" + text) == |text| as real
    ensures |text| > 2 ==> Rename(tag, tag + ":" + text) > Delete(tag) + Insert(tag + ":" + text)
  {
    ParseLabel(tag, text);
  }
}
