/** The block graph returned by the document analysis service: blocks, their typed child
    relationships, lookup of a block by id, and the locator of the line-items table. */
module Blocks {
  import opened Wrappers
  import Seqs

  /** The block kinds the handler distinguishes; every other kind (PAGE, LINE, ...) is OtherBlock. */
  datatype BlockType = Table | Cell | Word | OtherBlock

  /** STRUCTURED_TABLE marks a table with a regular grid; every other tag is OtherEntity. */
  datatype EntityType = StructuredTable | OtherEntity

  /** Only CHILD relationships are followed; every other type is OtherRelationship. */
  datatype RelationshipType = Child | OtherRelationship

  datatype Relationship = Relationship(relType: RelationshipType, ids: seq<string>)

  /** A detected element. Row and column indices are 1-based and may be absent; `text` is absent
      when the service sent none; `relationships` is None for a null relationship list. */
  datatype Block = Block(
    id: string,
    blockType: BlockType,
    entityTypes: seq<EntityType>,
    rowIndex: Option<int>,
    columnIndex: Option<int>,
    text: Option<string>,
    relationships: Option<seq<Relationship>>)

  /** The first block carrying `id`, or None (Java's null) when no block does. */
  function FindBlockById(blocks: seq<Block>, id: string): (r: Option<Block>)
    ensures r.None? <==> forall i :: 0 <= i < |blocks| ==> blocks[i].id != id
    ensures r.Some? ==> r.value.id == id && r.value in blocks
  {
    Seqs.FindFirst(blocks, (b: Block) => b.id == id)
  }

  /** When several blocks carry `id`, the lookup returns the earliest. */
  lemma FindBlockByIdFirst(blocks: seq<Block>, id: string)
    ensures FindBlockById(blocks, id).Some? ==>
      exists i :: 0 <= i < |blocks| && blocks[i] == FindBlockById(blocks, id).value &&
        forall j :: 0 <= j < i ==> blocks[j].id != id
  {
    Seqs.FindFirstIsFirst(blocks, (b: Block) => b.id == id);
  }

  /** A TABLE block tagged STRUCTURED_TABLE. */
  predicate IsItemsDetailTable(b: Block) {
    b.blockType == Table && StructuredTable in b.entityTypes
  }

  /** The first structured table in `blocks`, or None when there is none. */
  function GetItemsDetailTable(blocks: seq<Block>): (r: Option<Block>)
    ensures r.None? <==> forall i :: 0 <= i < |blocks| ==> !IsItemsDetailTable(blocks[i])
    ensures r.Some? ==> IsItemsDetailTable(r.value) && r.value in blocks
  {
    Seqs.FindFirst(blocks, IsItemsDetailTable)
  }

  /** When several structured tables are present, the earliest is the one processed. */
  lemma ItemsDetailTableFirst(blocks: seq<Block>)
    ensures GetItemsDetailTable(blocks).Some? ==>
      exists i :: 0 <= i < |blocks| && blocks[i] == GetItemsDetailTable(blocks).value &&
        forall j :: 0 <= j < i ==> !IsItemsDetailTable(blocks[j])
  {
    Seqs.FindFirstIsFirst(blocks, IsItemsDetailTable);
  }

  /** The ids of all CHILD relationships, relationship by relationship, each in its own order. */
  function ChildIds(rels: seq<Relationship>): (ids: seq<string>)
    ensures forall id :: id in ids <==>
      exists k :: 0 <= k < |rels| && rels[k].relType == Child && id in rels[k].ids
  {
    if rels == [] then []
    else
      var rest := ChildIds(rels[1..]);
      assert forall k :: 1 <= k < |rels| ==> rels[k] == rels[1..][k - 1];
      (if rels[0].relType == Child then rels[0].ids else []) + rest
  }

  /** A single relationship contributes all of its ids, in its own order and with repeats, when it
      is a CHILD relationship, and nothing otherwise. With ChildIdsAppend this fixes ChildIds. */
  lemma ChildIdsSingle(r: Relationship)
    ensures ChildIds([r]) == if r.relType == Child then r.ids else []
  {
    assert [r][1..] == [];
  }

  /** Child ids of a concatenation of relationship lists are those of each list, in order. */
  lemma {:induction false} ChildIdsAppend(xs: seq<Relationship>, ys: seq<Relationship>)
    ensures ChildIds(xs + ys) == ChildIds(xs) + ChildIds(ys)
  {
    if xs == [] {
      assert xs + ys == ys;
    } else {
      assert (xs + ys)[1..] == xs[1..] + ys;
      ChildIdsAppend(xs[1..], ys);
    }
  }
}
