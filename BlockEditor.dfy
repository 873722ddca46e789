/** The block editor's commands on top of the store: rich text flattened for editing, the
    key-press dispatch, list-item edits, drag-and-drop retargeting and the per-type editor. */
module BlockEditorCommands {
  import opened Wrappers
  import opened ContentModel
  import opened EditorStore

  /** `richTextToString`: nothing gives the empty string, a string itself, segments their
      texts joined in order. */
  function RichTextToString(content: Option<RichText>): string
  {
    match content
    case None => ""
    case Some(r) => PlainText(r)
  }

  /** The case of a write-back of exactly what `richTextToString` shows: the visible text
      survives it while the segment styles are dropped. The editors themselves write back the
      element's `innerHTML`, which is the shown text only while the user has typed no markup
      and the text holds no character that HTML escapes; the model does not cover the DOM. */
  lemma WriteBackKeepsText(b: Block)
    requires b.ParagraphBlock? || b.HeadingBlock? || b.CalloutBlock?
    ensures var p := EmptyPatch.(content := Some(RichTextToString(Some(b.content))));
      Merge(b, p).content == Plain(PlainText(b.content)) &&
      RichTextToString(Some(Merge(b, p).content)) == RichTextToString(Some(b.content))
  {
  }

  lemma SegmentsToString(a: seq<TextSegment>, b: seq<TextSegment>)
    ensures RichTextToString(Some(Segments(a + b))) == RichTextToString(Some(Segments(a))) + RichTextToString(Some(Segments(b)))
  {
    SegmentsTextAppend(a, b);
  }

  /** The store command a key press issues. */
  datatype EditCommand = NoEdit | AddParagraphAfter | DeleteCurrent

  datatype KeyOutcome = KeyOutcome(openMenu: bool, preventDefault: bool, command: EditCommand)

  /** `handleKeyDown`, which only paragraph and heading editors attach; `textEmpty` is whether the
      edited element's text content is empty. */
  function KeyDownAction(b: Block, key: string, shift: bool, textEmpty: bool): (r: KeyOutcome)
    ensures r.openMenu <==> key == "/" && b.ParagraphBlock? && textEmpty
    ensures r.command == AddParagraphAfter <==> key == "Enter" && !shift && (b.ParagraphBlock? || b.HeadingBlock?)
    ensures r.command == DeleteCurrent <==> key == "Backspace" && textEmpty && (b.ParagraphBlock? || b.HeadingBlock?)
    ensures r.preventDefault <==> r.openMenu || r.command != NoEdit
  {
    if !(b.ParagraphBlock? || b.HeadingBlock?) then KeyOutcome(false, false, NoEdit)
    else if key == "/" && b.ParagraphBlock? && textEmpty then KeyOutcome(true, true, NoEdit)
    else if key == "Enter" && !shift then KeyOutcome(false, true, AddParagraphAfter)
    else if key == "Backspace" && textEmpty then KeyOutcome(false, true, DeleteCurrent)
    else KeyOutcome(false, false, NoEdit)
  }

  /** Enter in a block found at index `i` (the first holder of its non-empty id) gives a new
      empty paragraph right after it. */
  lemma EnterAddsParagraphAfter(blocks: seq<Block>, i: nat, newId: string)
    requires i < |blocks| && blocks[i].id != ""
    requires forall k :: 0 <= k < i ==> blocks[k].id != blocks[i].id
    ensures AfterAdd(blocks, Some(blocks[i].id), "paragraph", newId) ==
      blocks[..i + 1] + [ParagraphBlock(newId, Plain(""))] + blocks[i + 1..]
  {
    AddAfterAnchor(blocks, blocks[i].id, i, "paragraph", newId);
  }

  /** Runs the key press against the store at clock reading `now`. */
  method HandleKeyDown(editor: Editor, b: Block, key: string, shift: bool, textEmpty: bool, now: nat)
    returns (outcome: KeyOutcome)
    modifies editor
    ensures outcome == KeyDownAction(b, key, shift, textEmpty)
    ensures outcome.command == AddParagraphAfter ==>
      editor.blocks == AfterAdd(old(editor.blocks), Some(b.id), "paragraph", NewBlockId(editor.baseId, now)) && editor.isDirty
    ensures outcome.command == DeleteCurrent ==>
      editor.blocks == AfterDelete(old(editor.blocks), b.id) &&
      (|old(editor.blocks)| != 1 ==> editor.isDirty) &&
      (|old(editor.blocks)| == 1 ==> editor.isDirty == old(editor.isDirty))
    ensures outcome.command == NoEdit ==> editor.blocks == old(editor.blocks) && editor.isDirty == old(editor.isDirty)
    ensures editor.article == old(editor.article)
  {
    outcome := KeyDownAction(b, key, shift, textEmpty);
    match outcome.command {
      case AddParagraphAfter => editor.AddBlock(Some(b.id), None, now);
      case DeleteCurrent => editor.DeleteBlock(b.id);
      case NoEdit =>
    }
  }

  /** `newItems[index] = value` on a copy of the items. */
  function EditListItem(items: seq<RichText>, index: nat, value: string): (r: seq<RichText>)
    requires index < |items|
    ensures |r| == |items| && r[index] == Plain(value)
    ensures forall j :: 0 <= j < |items| && j != index ==> r[j] == items[j]
  {
    items[..index] + [Plain(value)] + items[index + 1..]
  }

  /** Editing item `index` of the list block at position `k` changes only that item of that block. */
  lemma ListItemEditResult(blocks: seq<Block>, k: nat, index: nat, value: string)
    requires k < |blocks| && blocks[k].ListBlock? && index < |blocks[k].items| && DistinctIds(blocks)
    ensures var b := blocks[k];
      var r := AfterUpdate(blocks, b.id, EmptyPatch.(items := Some(EditListItem(b.items, index, value))));
      r[k] == b.(items := EditListItem(b.items, index, value)) &&
      forall j :: 0 <= j < |blocks| && j != k ==> r[j] == blocks[j]
  {
  }

  /** The list editor's change handler for item `index` of `b`. */
  method OnListItemChange(editor: Editor, b: Block, index: nat, value: string)
    requires b.ListBlock? && index < |b.items|
    modifies editor
    ensures editor.blocks == AfterUpdate(old(editor.blocks), b.id, EmptyPatch.(items := Some(EditListItem(b.items, index, value))))
    ensures editor.isDirty && editor.article == old(editor.article)
  {
    var newItems := b.items;
    newItems := newItems[index := Plain(value)];
    assert newItems == EditListItem(b.items, index, value);
    editor.UpdateBlock(b.id, EmptyPatch.(items := Some(newItems)));
  }

  datatype DropPosition = Before | After
  datatype DropTarget = DropTarget(blockId: string, position: DropPosition)

  /** `handleDrop`'s decision: the `moveBlock(dragged, finalTarget)` call it makes, if any. An
      "after" drop retargets to the next block unless the target is the last one. */
  function DropMove(blocks: seq<Block>, dragged: Option<string>, dropTarget: Option<DropTarget>, targetBlockId: string)
    : (m: Option<(string, string)>)
    ensures m.None? <==>
      dragged.None? || dragged.value == "" || dropTarget.None? || dragged.value == targetBlockId ||
      !HasId(blocks, dragged.value) || !HasId(blocks, targetBlockId)
    ensures m.Some? ==>
      var ti := FindIndex(blocks, targetBlockId);
      m.value.0 == dragged.value &&
      m.value.1 == if dropTarget.value.position == After && ti < |blocks| - 1 then blocks[ti + 1].id else targetBlockId
  {
    if dragged.None? || dragged.value == "" || dropTarget.None? || dragged.value == targetBlockId then None
    else
      var draggedIndex := FindIndex(blocks, dragged.value);
      var targetIndex := FindIndex(blocks, targetBlockId);
      if draggedIndex == -1 || targetIndex == -1 then None
      else
        var finalTargetId :=
          if dropTarget.value.position == After && targetIndex < |blocks| - 1 then blocks[targetIndex + 1].id
          else targetBlockId;
        Some((dragged.value, finalTargetId))
  }

  /** The blocks after a drop, as the code does it. */
  function AfterDrop(blocks: seq<Block>, dragged: Option<string>, dropTarget: Option<DropTarget>, targetBlockId: string)
    : seq<Block>
  {
    match DropMove(blocks, dragged, dropTarget, targetBlockId)
    case None => blocks
    case Some((fromId, toId)) => AfterMove(blocks, fromId, toId)
  }

  /** An "after" drop onto the block just before the dragged one retargets to the dragged block
      itself, so the move is a no-op. */
  lemma AfterDropOntoPredecessorIsNoOp(blocks: seq<Block>, i: nat)
    requires i + 1 < |blocks| && DistinctIds(blocks) && blocks[i + 1].id != ""
    ensures AfterDrop(blocks, Some(blocks[i + 1].id), Some(DropTarget(blocks[i].id, After)), blocks[i].id) == blocks
  {
    assert FindIndex(blocks, blocks[i].id) == i;
  }

  /** Where a drop evidently means to put the dragged block: immediately before or after the
      target block, all other blocks in their order. */
  function IntendedDrop(blocks: seq<Block>, from: nat, target: nat, position: DropPosition): seq<Block>
    requires from < |blocks| && target < |blocks| && from != target
  {
    var removed := RemoveAt(blocks, from);
    var targetAfterRemoval := if target > from then target - 1 else target;
    var slot := if position == Before then targetAfterRemoval else targetAfterRemoval + 1;
    InsertAt(removed, slot, blocks[from])
  }

  /** The indicated placement is a move to the slot it names. */
  lemma IntendedDropIsMoved(blocks: seq<Block>, from: nat, target: nat, position: DropPosition)
    requires from < |blocks| && target < |blocks| && from != target
    ensures var t := if target > from then target - 1 else target;
      IntendedDrop(blocks, from, target, position) == Moved(blocks, from, if position == Before then t else t + 1)
  {
  }

  lemma IntendedDropPlacement(blocks: seq<Block>, from: nat, target: nat, position: DropPosition)
    requires from < |blocks| && target < |blocks| && from != target
    ensures var r := IntendedDrop(blocks, from, target, position);
      var t := if target > from then target - 1 else target;
      var slot := if position == Before then t else t + 1;
      |r| == |blocks| && r[slot] == blocks[from] && RemoveAt(r, slot) == RemoveAt(blocks, from) &&
      multiset(r) == multiset(blocks) &&
      (position == Before ==> r[slot + 1] == blocks[target]) &&
      (position == After ==> r[slot - 1] == blocks[target])
  {
    var removed := RemoveAt(blocks, from);
    var t := if target > from then target - 1 else target;
    assert removed[t] == blocks[target];
    var slot := if position == Before then t else t + 1;
    IntendedDropIsMoved(blocks, from, target, position);
    MovedProperties(blocks, from, slot);
    var r := Moved(blocks, from, slot);
    if position == Before {
      assert r[slot + 1] == removed[slot];
    } else {
      assert r[slot - 1] == removed[slot - 1];
    }
  }

  /** Dragging a block upwards lands exactly where the drop indicator said. */
  lemma BackwardDropAsIntended(blocks: seq<Block>, from: nat, target: nat, position: DropPosition)
    requires target < from < |blocks| && DistinctIds(blocks) && blocks[from].id != ""
    ensures AfterDrop(blocks, Some(blocks[from].id), Some(DropTarget(blocks[target].id, position)), blocks[target].id) ==
      IntendedDrop(blocks, from, target, position)
  {
    assert FindIndex(blocks, blocks[from].id) == from;
    assert FindIndex(blocks, blocks[target].id) == target;
    if position == After {
      assert FindIndex(blocks, blocks[target + 1].id) == target + 1;
      if target + 1 == from {
        var removed := RemoveAt(blocks, from);
        assert InsertAt(removed, from, blocks[from]) == blocks;
      }
    }
  }

  /** Dragging the first of three blocks to just before the last puts it after the last: the
      code gives `[b, c, a]` where `[b, a, c]` is meant. */
  lemma ForwardDropOvershoots(a: Block, b: Block, c: Block)
    requires a.id != b.id && a.id != c.id && b.id != c.id && a.id != ""
    ensures AfterDrop([a, b, c], Some(a.id), Some(DropTarget(c.id, Before)), c.id) == [b, c, a]
    ensures IntendedDrop([a, b, c], 0, 2, Before) == [b, a, c]
  {
    MoveFirstOntoLast(a, b, c);
    assert [a, b, c][1..] == [b, c] && [b, c][1..] == [c];
    assert FindIndex([c], c.id) == 0;
    assert FindIndex([b, c], c.id) == 1;
    assert FindIndex([a, b, c], c.id) == 2;
    assert FindIndex([a, b, c], a.id) == 0;
    assert RemoveAt([a, b, c], 0) == [b, c];
  }

  /** The move a downward drop makes: the dragged block goes to the index of its final target. */
  lemma ForwardDropMove(blocks: seq<Block>, from: nat, target: nat, position: DropPosition)
    requires from < target < |blocks| && DistinctIds(blocks) && blocks[from].id != ""
    requires position == Before || target + 1 < |blocks|
    ensures AfterDrop(blocks, Some(blocks[from].id), Some(DropTarget(blocks[target].id, position)), blocks[target].id) ==
      Moved(blocks, from, if position == Before then target else target + 1)
  {
    var landed := if position == Before then target else target + 1;
    FindIndexDistinct(blocks, from);
    FindIndexDistinct(blocks, target);
    FindIndexDistinct(blocks, landed);
    var m := DropMove(blocks, Some(blocks[from].id), Some(DropTarget(blocks[target].id, position)), blocks[target].id);
    assert m == Some((blocks[from].id, blocks[landed].id));
    assert blocks[from].id != blocks[landed].id;
  }

  /** Dragging a block downwards lands it one block too far, except for an "after" drop onto the
      last block: a "before" drop puts it just after the target, an "after" drop just after the
      target's successor. */
  lemma ForwardDropOneTooFar(blocks: seq<Block>, from: nat, target: nat, position: DropPosition)
    requires from < target < |blocks| && DistinctIds(blocks) && blocks[from].id != ""
    requires position == Before || target + 1 < |blocks|
    ensures var landed := if position == Before then target else target + 1;
      AfterDrop(blocks, Some(blocks[from].id), Some(DropTarget(blocks[target].id, position)), blocks[target].id) ==
      IntendedDrop(blocks, from, landed, After)
    ensures AfterDrop(blocks, Some(blocks[from].id), Some(DropTarget(blocks[target].id, position)), blocks[target].id) !=
      IntendedDrop(blocks, from, target, position)
  {
    var landed := if position == Before then target else target + 1;
    ForwardDropMove(blocks, from, target, position);
    IntendedDropIsMoved(blocks, from, landed, After);
    IntendedDropIsMoved(blocks, from, target, position);
    var slot := landed - 1;
    MovedProperties(blocks, from, landed);
    MovedProperties(blocks, from, slot);
    assert Moved(blocks, from, landed)[slot] == blocks[landed] != blocks[from] == Moved(blocks, from, slot)[slot];
  }

  /** An "after" drop onto the last block, from anywhere above it, lands where indicated. */
  lemma ForwardDropAfterLastAsIntended(blocks: seq<Block>, from: nat)
    requires from < |blocks| - 1 && DistinctIds(blocks) && blocks[from].id != ""
    ensures var last := |blocks| - 1;
      AfterDrop(blocks, Some(blocks[from].id), Some(DropTarget(blocks[last].id, After)), blocks[last].id) ==
      IntendedDrop(blocks, from, last, After)
  {
    assert FindIndex(blocks, blocks[from].id) == from;
    assert FindIndex(blocks, blocks[|blocks| - 1].id) == |blocks| - 1;
  }

  /** The drag state `BlockEditor` keeps between drag events. */
  class DragState {
    var draggedBlockId: Option<string>
    var dropTarget: Option<DropTarget>

    constructor ()
      ensures draggedBlockId == None && dropTarget == None
    {
      draggedBlockId := None;
      dropTarget := None;
    }

    /** `dragstart` on a block wrapper records that block's id. */
    method DragStart(blockId: Option<string>)
      modifies this
      ensures draggedBlockId == blockId && dropTarget == old(dropTarget)
    {
      draggedBlockId := blockId;
    }

    /** `dragend` forgets both the dragged block and the drop target. */
    method DragEnd()
      modifies this
      ensures draggedBlockId == None && dropTarget == None
    {
      draggedBlockId := None;
      dropTarget := None;
    }
  }

  /** `handleDrop(e, targetBlockId)`: always clears the drop target. */
  method HandleDrop(editor: Editor, drag: DragState, targetBlockId: string)
    modifies editor, drag
    ensures drag.dropTarget == None && drag.draggedBlockId == old(drag.draggedBlockId)
    ensures editor.blocks == AfterDrop(old(editor.blocks), old(drag.draggedBlockId), old(drag.dropTarget), targetBlockId)
    ensures DropMove(old(editor.blocks), old(drag.draggedBlockId), old(drag.dropTarget), targetBlockId).None? ==>
      editor.isDirty == old(editor.isDirty)
    ensures var m := DropMove(old(editor.blocks), old(drag.draggedBlockId), old(drag.dropTarget), targetBlockId);
      m.Some? ==> editor.isDirty == (old(editor.isDirty) || m.value.0 != m.value.1)
    ensures editor.article == old(editor.article)
  {
    var dragged := drag.draggedBlockId;
    if dragged.None? || dragged.value == "" || drag.dropTarget.None? || dragged.value == targetBlockId {
      drag.dropTarget := None;
      return;
    }
    var draggedIndex := FindIndex(editor.blocks, dragged.value);
    var targetIndex := FindIndex(editor.blocks, targetBlockId);
    if draggedIndex == -1 || targetIndex == -1 {
      drag.dropTarget := None;
      return;
    }
    var finalTargetId := targetBlockId;
    if drag.dropTarget.value.position == After {
      if targetIndex < |editor.blocks| - 1 {
        finalTargetId := editor.blocks[targetIndex + 1].id;
      }
    }
    assert DropMove(editor.blocks, dragged, drag.dropTarget, targetBlockId) == Some((dragged.value, finalTargetId));
    editor.MoveBlock(dragged.value, finalTargetId);
    drag.dropTarget := None;
  }

  /** Which editor a block's `type` gets; anything unrecognised gets the unsupported placeholder. */
  datatype EditorView = ParagraphEditor | HeadingEditor | CodeEditor | ListEditor | CalloutEditor
                      | ImageEditor | VideoEditor | Unsupported

  function ViewForTag(tag: string): EditorView
  {
    if tag == "paragraph" then ParagraphEditor
    else if tag == "heading" then HeadingEditor
    else if tag == "code" then CodeEditor
    else if tag == "list" then ListEditor
    else if tag == "callout" then CalloutEditor
    else if tag == "image" then ImageEditor
    else if tag == "video" then VideoEditor
    else Unsupported
  }

  /** Every block of the union has its own editor; exactly the tags outside the seven get the
      placeholder. */
  lemma UnsupportedOnlyForUnknownTags(tag: string)
    ensures ViewForTag(tag) == Unsupported <==> tag !in ServerBlockTypes
    ensures forall b: Block :: ViewForTag(TypeTag(b)) != Unsupported
  {
  }
}
