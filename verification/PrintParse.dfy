/** The printer and the parser together: a tree, its printed block, and the tree read from it. */
module PrintParse {
  import opened Bytes
  import opened JsonGrammar
  import opened JsonTree
  import opened NodeList
  import NodeTree
  import ParseBuffer
  import PrintBuffer
  import RoundTrip
  import TreeCompare

  /** The C string in a printed block is the printed text. */
  lemma BlockText(v: Json, format: bool, block: Text)
    requires var text := Render(v, LayoutOf(format), 0);
             |text| < |block| && block[..|text|] == text && block[|text|] == 0
    ensures NulFree(Render(v, LayoutOf(format), 0))
    ensures CString(block) == Render(v, LayoutOf(format), 0)
  {
    hide Render, CString;
    var text := Render(v, LayoutOf(format), 0);
    PrintBuffer.RenderNoNul(v, format, 0);
    CStringOfNulFree(text, block[|text| + 1..]);
    assert block == text + [0] + block[|text| + 1..];
  }

  /** cJSON_Print or cJSON_PrintUnformatted, and cJSON_ParseWithOpts on the block it returns:
      printing fails only for want of room, and then parsing gives new nodes that spell the same tree
      unless it is nested too deeply. */
  method PrintThenRead(item: Node, format: bool) returns (printed: bool, back: Node?)
    requires item.Valid() && Printable(item.tree)
    ensures printed <==>
            |Render(item.tree, LayoutOf(format), 0)| + PrintBuffer.Slack(item.tree) <= PrintBuffer.INT_MAX
    ensures back != null <==> printed && Height(item.tree) <= NESTING_LIMIT
    ensures back != null ==> back.Valid() && fresh(back.repr) && back.tree == item.tree
  {
    hide Node.Valid, Render, CString, ParseWithOpts, Printable, Height;
    var block;
    printed, block := PrintBuffer.Print(item, format);
    if !printed {
      return false, null;
    }
    ghost var v := item.tree;
    BlockText(v, format, block[..]);
    ghost var text := Render(v, LayoutOf(format), 0);
    RoundTrip.PrintThenParse(v, LayoutOf(format), []);
    assert text + [] == text;
    ghost var rest;
    back, rest := ParseBuffer.ParseText(CString(block[..]), true);
  }

  /** What is read back compares equal to the node that was printed exactly when there was room and
      the tree is consistent. */
  method ReadThenCompare(item: Node, format: bool, caseSensitive: bool) returns (equal: bool)
    requires item.Valid() && Printable(item.tree) && Height(item.tree) <= NESTING_LIMIT
    ensures equal <==>
            |Render(item.tree, LayoutOf(format), 0)| + PrintBuffer.Slack(item.tree) <= PrintBuffer.INT_MAX
            && TreeCompare.Consistent(item.tree, caseSensitive)
  {
    hide Node.Valid, Render, Printable, Height, TreeCompare.Consistent, TreeCompare.Compare;
    var printed, back := PrintThenRead(item, format);
    if back != null {
      NodeTree.ValidParts(back);
      NodeTree.FreshComparable(item, back, caseSensitive);
      TreeCompare.CompareDecidesEquality(item.tree, item.tree, caseSensitive);
    }
    equal := NodeTree.CompareNodes(item, back, caseSensitive);
  }
}
