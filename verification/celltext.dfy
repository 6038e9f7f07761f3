/** Reconstruction of a cell's text from the WORD blocks it points to. */
module CellText {
  import opened Wrappers
  import opened Blocks
  import opened Text

  /** A word's text as StringBuilder.append writes it: an absent text is written as "null". */
  function WordText(b: Block): string {
    if b.text.Some? then b.text.value else "null"
  }

  /** True when `id` resolves to a WORD block. */
  predicate IsWordId(blocks: seq<Block>, id: string) {
    var b := FindBlockById(blocks, id);
    b.Some? && b.value.blockType == Word
  }

  /** The texts of the WORD blocks the ids resolve to, in id order; an id that resolves to no
      block or to a block of another type contributes nothing. */
  function WordTexts(ids: seq<string>, blocks: seq<Block>): (ts: seq<string>)
    ensures |ts| <= |ids|
  {
    if ids == [] then []
    else
      var rest := WordTexts(ids[1..], blocks);
      if IsWordId(blocks, ids[0]) then [WordText(FindBlockById(blocks, ids[0]).value)] + rest
      else rest
  }

  /** Each text followed by one space, the way the StringBuilder is filled. */
  function Spaced(ts: seq<string>): (s: string)
    ensures |s| >= |ts|
    ensures ts != [] ==> s == Join(ts) + " "
  {
    if ts == [] then ""
    else
      var rest := Spaced(ts[1..]);
      assert |ts| > 1 ==> ts[0] + " " + rest == ts[0] + " " + Join(ts[1..]) + " ";
      ts[0] + " " + rest
  }

  /** The text of `cell`: "" when its relationship list is null, otherwise the texts of its
      WORD children, each followed by a space, trimmed. */
  function GetCellContent(cell: Block, blocks: seq<Block>): (r: string)
    ensures cell.relationships.None? ==> r == ""
    ensures r == [] || (!IsBlank(r[0]) && !IsBlank(r[|r| - 1]))
  {
    if cell.relationships.None? then ""
    else Trim(Spaced(WordTexts(ChildIds(cell.relationships.value), blocks)))
  }

  /** The texts of the words a cell points to (empty when its relationship list is null). */
  function CellWords(cell: Block, blocks: seq<Block>): seq<string> {
    if cell.relationships.None? then [] else WordTexts(ChildIds(cell.relationships.value), blocks)
  }

  lemma {:induction false} WordTextsAppend(xs: seq<string>, ys: seq<string>, blocks: seq<Block>)
    ensures WordTexts(xs + ys, blocks) == WordTexts(xs, blocks) + WordTexts(ys, blocks)
  {
    if xs == [] {
      assert xs + ys == ys;
    } else {
      assert (xs + ys)[1..] == xs[1..] + ys;
      WordTextsAppend(xs[1..], ys, blocks);
    }
  }

  /** A single id contributes the text of the block it names when that block is a WORD, and
      nothing otherwise. With WordTextsAppend this fixes WordTexts. */
  lemma WordTextsSingle(id: string, blocks: seq<Block>)
    ensures WordTexts([id], blocks) ==
      if IsWordId(blocks, id) then [WordText(FindBlockById(blocks, id).value)] else []
  {
    assert [id][1..] == [];
  }

  /** A child id that resolves to no block, or to a block that is not a WORD, contributes
      nothing, wherever it stands. */
  lemma IgnoredChild(xs: seq<string>, id: string, ys: seq<string>, blocks: seq<Block>)
    requires !IsWordId(blocks, id)
    ensures WordTexts(xs + [id] + ys, blocks) == WordTexts(xs + ys, blocks)
  {
    WordTextsAppend(xs + [id], ys, blocks);
    WordTextsAppend(xs, [id], blocks);
    WordTextsAppend(xs, ys, blocks);
    assert [id][1..] == [];
    assert WordTexts([id], blocks) == [];
  }

  lemma {:induction false} SpacedAllBlank(ts: seq<string>)
    ensures AllBlank(Spaced(ts)) <==> forall i :: 0 <= i < |ts| ==> AllBlank(ts[i])
  {
    if ts != [] {
      SpacedAllBlank(ts[1..]);
      var s := Spaced(ts);
      var head := ts[0] + " ";
      assert s == head + Spaced(ts[1..]);
      assert AllBlank(s) <==> AllBlank(ts[0]) && AllBlank(Spaced(ts[1..])) by {
        assert forall k :: 0 <= k < |ts[0]| ==> s[k] == ts[0][k];
        assert forall k :: 0 <= k < |Spaced(ts[1..])| ==> s[|head| + k] == Spaced(ts[1..])[k];
      }
      assert forall i :: 1 <= i < |ts| ==> ts[i] == ts[1..][i - 1];
    }
  }

  /** A cell reads as empty exactly when every word it points to is blank (or it has none). */
  lemma CellContentEmpty(cell: Block, blocks: seq<Block>)
    ensures GetCellContent(cell, blocks) == "" <==>
      forall i :: 0 <= i < |CellWords(cell, blocks)| ==> AllBlank(CellWords(cell, blocks)[i])
  {
    if cell.relationships.Some? {
      SpacedAllBlank(CellWords(cell, blocks));
    }
  }

  /** A word text that neither is empty nor starts or ends with a blank. */
  predicate IsPlainWord(t: string) {
    t != [] && !IsBlank(t[0]) && !IsBlank(t[|t| - 1])
  }

  lemma {:induction false} JoinEdges(ts: seq<string>)
    requires ts != [] && forall i :: 0 <= i < |ts| ==> IsPlainWord(ts[i])
    ensures IsPlainWord(Join(ts))
  {
    if |ts| > 1 {
      assert forall i :: 0 <= i < |ts[1..]| ==> ts[1..][i] == ts[i + 1];
      JoinEdges(ts[1..]);
      var j := Join(ts[1..]);
      assert Join(ts) == ts[0] + " " + j;
      assert Join(ts)[0] == ts[0][0];
      assert Join(ts)[|Join(ts)| - 1] == j[|j| - 1];
    } else {
      assert ts[1..] == [];
    }
  }

  /** For words without surrounding blanks, a cell's text is its words joined by single spaces. */
  lemma CellContentJoined(cell: Block, blocks: seq<Block>)
    requires cell.relationships.Some?
    requires forall i :: 0 <= i < |CellWords(cell, blocks)| ==> IsPlainWord(CellWords(cell, blocks)[i])
    ensures GetCellContent(cell, blocks) == Join(CellWords(cell, blocks))
  {
    var ts := CellWords(cell, blocks);
    assert GetCellContent(cell, blocks) == Trim(Spaced(ts));
    TrimSpacedJoin(ts);
  }

  lemma TrimSpacedJoin(ts: seq<string>)
    requires forall i :: 0 <= i < |ts| ==> IsPlainWord(ts[i])
    ensures Trim(Spaced(ts)) == Join(ts)
  {
    if ts != [] {
      JoinEdges(ts);
      TrimPlainSpaced(Spaced(ts), Join(ts));
    }
  }

  /** Text that is a plain word followed by one space trims to that word. */
  lemma TrimPlainSpaced(s: string, j: string)
    requires IsPlainWord(j) && s == j + " "
    ensures Trim(s) == j
  {
    TrimSpaceAfter(j);
  }

  /** A cell whose child words are "Widget" and "Cable" reads "Widget Cable". */
  lemma WidgetCableExample(cell: Block, blocks: seq<Block>)
    requires CellWords(cell, blocks) == ["Widget", "Cable"] && cell.relationships.Some?
    ensures GetCellContent(cell, blocks) == "Widget Cable"
  {
    var ts := CellWords(cell, blocks);
    assert IsPlainWord(ts[0]) && IsPlainWord(ts[1]);
    CellContentJoined(cell, blocks);
    JoinTwo(ts);
  }

  /** Two texts join around one space. */
  lemma JoinTwo(ts: seq<string>)
    requires |ts| == 2
    ensures Join(ts) == ts[0] + " " + ts[1]
  {
    assert |ts[1..]| == 1;
  }
}
