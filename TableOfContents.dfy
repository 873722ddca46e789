/** The table of contents derived from an article's heading blocks. */
module TableOfContents {
  import opened ContentModel

  datatype TocItem = TocItem(id: string, text: string, level: HeadingLevel)

  /** The entry a heading block contributes. */
  function ItemOf(b: Block): (r: TocItem)
    requires b.HeadingBlock?
    ensures r.id == b.id && r.level == b.level && r.text == PlainText(b.content)
  {
    TocItem(b.id, PlainText(b.content), b.level)
  }

  /** `tocItems`: the heading blocks, in order, as entries. */
  function TocItems(blocks: seq<Block>): (r: seq<TocItem>)
    ensures |r| <= |blocks|
  {
    if |blocks| == 0 then []
    else (if blocks[0].HeadingBlock? then [ItemOf(blocks[0])] else []) + TocItems(blocks[1..])
  }

  /** One block contributes its own entry if it is a heading and nothing otherwise. */
  lemma TocOfOneBlock(b: Block)
    ensures TocItems([b]) == if b.HeadingBlock? then [ItemOf(b)] else []
  {
    assert [b][1..] == [];
  }

  /** The entries of consecutive runs of blocks follow each other, so the whole table is the
      entries of the headings in block order. */
  lemma {:induction false} TocItemsAppend(a: seq<Block>, b: seq<Block>)
    ensures TocItems(a + b) == TocItems(a) + TocItems(b)
  {
    if |a| == 0 {
      assert a + b == b;
    } else {
      var head := if a[0].HeadingBlock? then [ItemOf(a[0])] else [];
      assert (a + b)[0] == a[0];
      assert (a + b)[1..] == a[1..] + b;
      assert TocItems(a + b) == head + TocItems(a[1..] + b);
      assert TocItems(a) == head + TocItems(a[1..]);
      TocItemsAppend(a[1..], b);
    }
  }

  /** Every heading block has its entry, and every entry comes from a heading block. */
  lemma {:induction false} TocItemsExact(blocks: seq<Block>)
    ensures forall j :: 0 <= j < |blocks| && blocks[j].HeadingBlock? ==> ItemOf(blocks[j]) in TocItems(blocks)
    ensures forall t :: t in TocItems(blocks) ==> exists j :: 0 <= j < |blocks| && blocks[j].HeadingBlock? && ItemOf(blocks[j]) == t
  {
    if |blocks| > 0 {
      TocItemsExact(blocks[1..]);
      forall t | t in TocItems(blocks)
        ensures exists j :: 0 <= j < |blocks| && blocks[j].HeadingBlock? && ItemOf(blocks[j]) == t
      {
        if t !in TocItems(blocks[1..]) {
          assert ItemOf(blocks[0]) == t;
        } else {
          var j :| 0 <= j < |blocks[1..]| && blocks[1..][j].HeadingBlock? && ItemOf(blocks[1..][j]) == t;
          assert blocks[j + 1] == blocks[1..][j];
        }
      }
      forall j | 0 <= j < |blocks| && blocks[j].HeadingBlock? ensures ItemOf(blocks[j]) in TocItems(blocks) {
        if j > 0 {
          assert blocks[1..][j - 1] == blocks[j];
        }
      }
    }
  }

  /** Without headings there is no table of contents. */
  lemma {:induction false} NoHeadingsNoToc(blocks: seq<Block>)
    requires forall j :: 0 <= j < |blocks| ==> !blocks[j].HeadingBlock?
    ensures TocItems(blocks) == []
  {
    if |blocks| > 0 {
      NoHeadingsNoToc(blocks[1..]);
    }
  }
}
