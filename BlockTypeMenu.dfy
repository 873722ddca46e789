/** The slash menu that changes a block's type by deleting it and appending a new block. */
module BlockTypeMenu {
  import opened Wrappers
  import opened ContentModel
  import opened EditorStore

  /** The extra properties a menu entry carries (and `changeType` ignores). */
  datatype ItemProps = NoProps | LevelProp(level: HeadingLevel) | ListTypeProp(listType: ListType)

  datatype MenuItem = MenuItem(name: string, tag: string, props: ItemProps)

  const MenuItems: seq<MenuItem> := [
    MenuItem("텍스트", "paragraph", NoProps),
    MenuItem("제목 1", "heading", LevelProp(1)),
    MenuItem("제목 2", "heading", LevelProp(2)),
    MenuItem("제목 3", "heading", LevelProp(3)),
    MenuItem("글머리 기호", "list", ListTypeProp(Bullet)),
    MenuItem("번호 매기기", "list", ListTypeProp(Numbered)),
    MenuItem("코드", "code", NoProps),
    MenuItem("Callout", "callout", NoProps),
    MenuItem("이미지", "image", NoProps),
    MenuItem("비디오", "video", NoProps)
  ]

  /** Ten entries covering all seven block types, none of them a checkbox list. */
  lemma MenuCoversAllTypes()
    ensures |MenuItems| == 10
    ensures forall t :: t in ServerBlockTypes <==> exists i :: 0 <= i < |MenuItems| && MenuItems[i].tag == t
    ensures forall i :: 0 <= i < |MenuItems| ==> MenuItems[i].props != ListTypeProp(Checkbox)
  {
    forall t | t in ServerBlockTypes ensures exists i :: 0 <= i < |MenuItems| && MenuItems[i].tag == t {
      var k := if t == "paragraph" then 0 else if t == "heading" then 1 else if t == "list" then 4
               else if t == "code" then 6 else if t == "callout" then 7 else if t == "image" then 8 else 9;
      assert MenuItems[k].tag == t;
    }
  }

  /** `changeType`: `deleteBlock(blockId)` then `addBlock(undefined, type)`. */
  function AfterChangeType(blocks: seq<Block>, blockId: string, tag: string, newId: string): seq<Block>
  {
    AfterAdd(AfterDelete(blocks, blockId), None, tag, newId)
  }

  /** The replacement is appended at the end, not put where the old block was; when the block is
      the only one the delete is refused and the old block stays in front of the new one. */
  lemma ChangeTypeAppends(blocks: seq<Block>, blockId: string, tag: string, newId: string)
    ensures |blocks| != 1 ==> AfterChangeType(blocks, blockId, tag, newId) == Without(blocks, blockId) + [DefaultBlock(tag, newId)]
    ensures |blocks| == 1 ==> AfterChangeType(blocks, blockId, tag, newId) == blocks + [DefaultBlock(tag, newId)]
  {
    AddWithoutAnchorAppends(AfterDelete(blocks, blockId), None, tag, newId);
  }

  /** The entry's properties are ignored: "제목 2" and "제목 3" give a level-1 heading and
      "번호 매기기" a bullet list. */
  lemma PropsIgnored(id: string)
    ensures DefaultBlock(MenuItems[2].tag, id) == HeadingBlock(id, 1, Plain(""))
    ensures DefaultBlock(MenuItems[3].tag, id) == HeadingBlock(id, 1, Plain(""))
    ensures DefaultBlock(MenuItems[5].tag, id) == ListBlock(id, Bullet, [Plain("")])
  {
  }

  /** Clicking `item` in the menu of block `blockId` at clock reading `now`. The `onClose()` call
      that follows only hides the menu, which is view state outside the store. */
  method ChangeType(editor: Editor, blockId: string, item: MenuItem, now: nat)
    modifies editor
    ensures editor.blocks == AfterChangeType(old(editor.blocks), blockId, item.tag, NewBlockId(editor.baseId, now))
    ensures editor.isDirty && editor.article == old(editor.article)
  {
    editor.DeleteBlock(blockId);
    editor.AddBlock(None, Some(item.tag), now);
  }
}
