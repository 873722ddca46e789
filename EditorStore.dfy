/** The block editor's document store: the article being edited, its ordered blocks and a dirty
    flag, with the nine store operations. Each operation's effect on the block sequence is a
    transition function (`AfterAdd`, `AfterUpdate`, ...), and the `Editor` class applies them to
    its fields. The clock (`Date.now()`, `new Date()`) and the provider's `useId` prefix are
    parameters. */
module EditorStore {
  import opened Wrappers
  import opened Strings
  import opened ContentModel

  /** `blocks.findIndex(b => b.id === id)`: the first index holding `id`, or -1. */
  function FindIndex(blocks: seq<Block>, id: string): (i: int)
    ensures -1 <= i < |blocks|
    ensures 0 <= i ==> blocks[i].id == id
    ensures forall k :: 0 <= k < |blocks| && (i == -1 || k < i) ==> blocks[k].id != id
  {
    if |blocks| == 0 then -1
    else if blocks[0].id == id then 0
    else
      var j := FindIndex(blocks[1..], id);
      if j == -1 then -1 else j + 1
  }

  /** With distinct ids, every block is found at its own index. */
  lemma FindIndexDistinct(blocks: seq<Block>, k: nat)
    requires k < |blocks| && DistinctIds(blocks)
    ensures FindIndex(blocks, blocks[k].id) == k
  {
    var i := FindIndex(blocks, blocks[k].id);
    assert i != -1 && !(k < i);
  }

  predicate HasId(blocks: seq<Block>, id: string)
  {
    exists k :: 0 <= k < |blocks| && blocks[k].id == id
  }

  /** `${baseId}-block-${now}`: the id given to a block created at clock reading `now`. */
  function NewBlockId(baseId: string, now: nat): string
  {
    baseId + "-block-" + NatToString(now)
  }

  /** Ids made at different clock readings differ; ids made in the same millisecond coincide. */
  lemma NewBlockIdsDiffer(baseId: string, m: nat, n: nat)
    requires m != n
    ensures NewBlockId(baseId, m) != NewBlockId(baseId, n)
  {
    var prefix := baseId + "-block-";
    if NewBlockId(baseId, m) == NewBlockId(baseId, n) {
      assert (prefix + NatToString(m))[|prefix|..] == NatToString(m);
      assert (prefix + NatToString(n))[|prefix|..] == NatToString(n);
      NatToStringInjective(m, n);
    }
  }

  /** The default-valued block `addBlock` creates for a requested `type`. */
  function DefaultBlock(tag: string, id: string): Block
  {
    if tag == "heading" then HeadingBlock(id, 1, Plain(""))
    else if tag == "code" then CodeBlock(id, "javascript", "")
    else if tag == "list" then ListBlock(id, Bullet, [Plain("")])
    else if tag == "callout" then CalloutBlock(id, Info, Plain(""))
    else if tag == "image" then ImageBlock(id, "", "", None)
    else if tag == "video" then VideoBlock(id, "", YouTube)
    else ParagraphBlock(id, Plain(""))
  }

  /** A default block has the requested id and the requested type when that is one of the
      seven tags, and is an empty paragraph otherwise. */
  lemma DefaultBlockShape(tag: string, id: string)
    ensures DefaultBlock(tag, id).id == id
    ensures TypeTag(DefaultBlock(tag, id)) == if tag in ServerBlockTypes then tag else "paragraph"
    ensures tag !in ServerBlockTypes ==> DefaultBlock(tag, id) == ParagraphBlock(id, Plain(""))
  {
  }

  /** `s` with `s[i]` taken out. */
  function RemoveAt(s: seq<Block>, i: nat): seq<Block>
    requires i < |s|
  {
    s[..i] + s[i + 1..]
  }

  /** The blocks after `addBlock(afterId, tag)`: splice position `afterIndex + 1`, where
      `afterIndex` is `findIndex(afterId)` for a non-empty `afterId` and the last index otherwise. */
  function AfterAdd(blocks: seq<Block>, afterId: Option<string>, tag: string, id: string): seq<Block>
  {
    var afterIndex := if afterId.Some? && afterId.value != "" then FindIndex(blocks, afterId.value) else |blocks| - 1;
    blocks[..afterIndex + 1] + [DefaultBlock(tag, id)] + blocks[afterIndex + 1..]
  }

  /** Without a usable `afterId` (absent or empty) the new block is appended. */
  lemma AddWithoutAnchorAppends(blocks: seq<Block>, afterId: Option<string>, tag: string, id: string)
    requires afterId.None? || afterId.value == ""
    ensures AfterAdd(blocks, afterId, tag, id) == blocks + [DefaultBlock(tag, id)]
  {
    assert blocks[..|blocks|] == blocks;
  }

  /** With an `afterId` that is present the new block goes right after its first holder. */
  lemma AddAfterAnchor(blocks: seq<Block>, anchor: string, i: nat, tag: string, id: string)
    requires anchor != ""
    requires i < |blocks| && blocks[i].id == anchor
    requires forall k :: 0 <= k < i ==> blocks[k].id != anchor
    ensures AfterAdd(blocks, Some(anchor), tag, id) == blocks[..i + 1] + [DefaultBlock(tag, id)] + blocks[i + 1..]
    ensures |AfterAdd(blocks, Some(anchor), tag, id)| == |blocks| + 1
    ensures AfterAdd(blocks, Some(anchor), tag, id)[i + 1] == DefaultBlock(tag, id)
  {
    assert FindIndex(blocks, anchor) == i;
  }

  /** With an `afterId` that matches no block, `findIndex` gives -1 and the new block goes first. */
  lemma AddAfterUnknownAnchorPrepends(blocks: seq<Block>, anchor: string, tag: string, id: string)
    requires anchor != "" && !HasId(blocks, anchor)
    ensures AfterAdd(blocks, Some(anchor), tag, id) == [DefaultBlock(tag, id)] + blocks
  {
    assert FindIndex(blocks, anchor) == -1;
    assert blocks[..0] == [] && blocks[0..] == blocks;
  }

  /** The partial block accepted by `updateBlock`; absent fields are left alone. A `content`
      update is the string the editors produce. */
  datatype BlockPatch = BlockPatch(
    level: Option<HeadingLevel>,
    content: Option<string>,
    language: Option<string>,
    listType: Option<ListType>,
    items: Option<seq<RichText>>,
    variant: Option<CalloutVariant>,
    url: Option<string>,
    alt: Option<string>,
    caption: Option<string>,
    platform: Option<Platform>)

  const EmptyPatch := BlockPatch(None, None, None, None, None, None, None, None, None, None)

  function RichContent(update: Option<string>, current: RichText): RichText
  {
    if update.Some? then Plain(update.value) else current
  }

  /** `{ ...block, ...updates }` restricted to the fields of the block's own variant. */
  function Merge(b: Block, p: BlockPatch): (r: Block)
    ensures r.id == b.id && TypeTag(r) == TypeTag(b)
  {
    match b
    case HeadingBlock(id, level, content) => HeadingBlock(id, p.level.GetOr(level), RichContent(p.content, content))
    case ParagraphBlock(id, content) => ParagraphBlock(id, RichContent(p.content, content))
    case CodeBlock(id, language, source) => CodeBlock(id, p.language.GetOr(language), p.content.GetOr(source))
    case ListBlock(id, listType, items) => ListBlock(id, p.listType.GetOr(listType), p.items.GetOr(items))
    case CalloutBlock(id, variant, content) => CalloutBlock(id, p.variant.GetOr(variant), RichContent(p.content, content))
    case ImageBlock(id, url, alt, caption) =>
      ImageBlock(id, p.url.GetOr(url), p.alt.GetOr(alt), if p.caption.Some? then p.caption else caption)
    case VideoBlock(id, url, platform) => VideoBlock(id, p.url.GetOr(url), p.platform.GetOr(platform))
  }

  /** Merging nothing changes nothing, and merging the same updates twice is merging them once. */
  lemma MergeLaws(b: Block, p: BlockPatch)
    ensures Merge(b, EmptyPatch) == b
    ensures Merge(Merge(b, p), p) == Merge(b, p)
  {
  }

  /** The blocks after `updateBlock(id, p)`: every holder of `id` merged with `p`, the rest untouched. */
  function AfterUpdate(blocks: seq<Block>, id: string, p: BlockPatch): (r: seq<Block>)
    ensures |r| == |blocks|
    ensures forall i :: 0 <= i < |blocks| ==> r[i] == if blocks[i].id == id then Merge(blocks[i], p) else blocks[i]
  {
    if |blocks| == 0 then []
    else [if blocks[0].id == id then Merge(blocks[0], p) else blocks[0]] + AfterUpdate(blocks[1..], id, p)
  }

  /** An unknown id leaves the sequence as it was; every update keeps each position's id and type. */
  lemma UpdateKeepsShape(blocks: seq<Block>, id: string, p: BlockPatch)
    ensures !HasId(blocks, id) ==> AfterUpdate(blocks, id, p) == blocks
    ensures forall i :: 0 <= i < |blocks| ==>
      AfterUpdate(blocks, id, p)[i].id == blocks[i].id && TypeTag(AfterUpdate(blocks, id, p)[i]) == TypeTag(blocks[i])
  {
  }

  /** `blocks.filter(b => b.id !== id)`. */
  function Without(blocks: seq<Block>, id: string): (r: seq<Block>)
    ensures |r| <= |blocks|
  {
    if |blocks| == 0 then []
    else (if blocks[0].id == id then [] else [blocks[0]]) + Without(blocks[1..], id)
  }

  /** The filter keeps exactly the blocks whose id differs. */
  lemma {:induction false} WithoutMembers(blocks: seq<Block>, id: string, x: Block)
    ensures x in Without(blocks, id) <==> x in blocks && x.id != id
  {
    if |blocks| > 0 {
      WithoutMembers(blocks[1..], id, x);
      assert blocks == [blocks[0]] + blocks[1..];
    }
  }

  /** Filtering keeps the order of the surviving blocks. */
  lemma {:induction false} WithoutAppend(a: seq<Block>, b: seq<Block>, id: string)
    ensures Without(a + b, id) == Without(a, id) + Without(b, id)
  {
    if |a| == 0 {
      assert a + b == b;
    } else {
      WithoutAppend(a[1..], b, id);
      assert (a + b)[0] == a[0];
      assert (a + b)[1..] == a[1..] + b;
      var head := if a[0].id == id then [] else [a[0]];
      assert Without(a + b, id) == head + Without(a[1..] + b, id);
      assert Without(a, id) == head + Without(a[1..], id);
    }
  }

  lemma {:induction false} WithoutAbsent(blocks: seq<Block>, id: string)
    requires !HasId(blocks, id)
    ensures Without(blocks, id) == blocks
  {
    if |blocks| > 0 {
      assert blocks[0].id != id;
      assert !HasId(blocks[1..], id) by {
        forall k | 0 <= k < |blocks[1..]| ensures blocks[1..][k].id != id {
          assert blocks[1..][k] == blocks[k + 1];
        }
      }
      WithoutAbsent(blocks[1..], id);
    }
  }

  /** With pairwise different ids, the filter drops at most one block. */
  lemma {:induction false} WithoutDistinct(blocks: seq<Block>, id: string)
    requires DistinctIds(blocks)
    ensures |Without(blocks, id)| >= |blocks| - 1
    ensures HasId(blocks, id) ==> |Without(blocks, id)| == |blocks| - 1
  {
    if |blocks| > 0 {
      if blocks[0].id == id {
        assert !HasId(blocks[1..], id) by {
          forall k | 0 <= k < |blocks[1..]| ensures blocks[1..][k].id != id {
            assert blocks[1..][k] == blocks[k + 1];
          }
        }
        WithoutAbsent(blocks[1..], id);
      } else {
        assert DistinctIds(blocks[1..]) by {
          forall i, j | 0 <= i < j < |blocks[1..]| ensures blocks[1..][i].id != blocks[1..][j].id {
            assert blocks[1..][i] == blocks[i + 1] && blocks[1..][j] == blocks[j + 1];
          }
        }
        WithoutDistinct(blocks[1..], id);
        if HasId(blocks, id) {
          var k :| 0 <= k < |blocks| && blocks[k].id == id;
          assert blocks[1..][k - 1] == blocks[k];
        }
      }
    }
  }

  /** The blocks after `deleteBlock(id)`: refused when exactly one block remains. */
  function AfterDelete(blocks: seq<Block>, id: string): seq<Block>
  {
    if |blocks| == 1 then blocks else Without(blocks, id)
  }

  /** While ids are pairwise different, deleting never empties a non-empty article. */
  lemma DeleteKeepsOneBlock(blocks: seq<Block>, id: string)
    requires |blocks| >= 1 && DistinctIds(blocks)
    ensures |AfterDelete(blocks, id)| >= 1
  {
    if |blocks| != 1 {
      WithoutDistinct(blocks, id);
    }
  }

  /** Ids are not guaranteed unique: two blocks sharing an id are both deleted, which empties
      the article. */
  lemma DeleteWithSharedIdEmpties()
    ensures AfterDelete([ParagraphBlock("x", Plain("")), ParagraphBlock("x", Plain("a"))], "x") == []
  {
    var two := [ParagraphBlock("x", Plain("")), ParagraphBlock("x", Plain("a"))];
    assert two[1..][1..] == [];
  }

  /** `s` with `b` spliced in at position `pos`. */
  function InsertAt(s: seq<Block>, pos: nat, b: Block): seq<Block>
    requires pos <= |s|
  {
    s[..pos] + [b] + s[pos..]
  }

  /** The blocks after `duplicateBlock(id)`: a copy of the first holder under `newId`, right
      after it; nothing changes when the id is unknown. */
  function AfterDuplicate(blocks: seq<Block>, id: string, newId: string): seq<Block>
  {
    var i := FindIndex(blocks, id);
    if i == -1 then blocks else InsertAt(blocks, i + 1, blocks[i].(id := newId))
  }

  lemma DuplicatePlacement(blocks: seq<Block>, id: string, newId: string)
    ensures !HasId(blocks, id) ==> AfterDuplicate(blocks, id, newId) == blocks
    ensures HasId(blocks, id) ==>
      var i := FindIndex(blocks, id);
      var r := AfterDuplicate(blocks, id, newId);
      |r| == |blocks| + 1 && r[..i + 1] == blocks[..i + 1] && r[i + 2..] == blocks[i + 1..] &&
      r[i + 1].id == newId && r[i + 1].(id := id) == blocks[i] && RemoveAt(r, i + 1) == blocks
  {
    if HasId(blocks, id) {
      var i := FindIndex(blocks, id);
      var r := AfterDuplicate(blocks, id, newId);
      assert r[..i + 1] == blocks[..i + 1];
      assert RemoveAt(r, i + 1) == blocks[..i + 1] + blocks[i + 1..];
      assert blocks[..i + 1] + blocks[i + 1..] == blocks;
    } else {
      assert FindIndex(blocks, id) == -1;
    }
  }

  /** Two `splice` calls on a copy: take out `s[from]`, then put it back at index `to` of the
      shortened sequence. */
  function Moved(s: seq<Block>, from: nat, to: nat): seq<Block>
    requires from < |s| && to < |s|
  {
    InsertAt(RemoveAt(s, from), to, s[from])
  }

  /** The blocks after `moveBlock(fromId, toId)`: a no-op for equal or missing ids; otherwise the
      block moves to `toId`'s index as it was before the move. */
  function AfterMove(blocks: seq<Block>, fromId: string, toId: string): seq<Block>
  {
    if fromId == toId then blocks
    else
      var fromIndex := FindIndex(blocks, fromId);
      var toIndex := FindIndex(blocks, toId);
      if fromIndex == -1 || toIndex == -1 then blocks else Moved(blocks, fromIndex, toIndex)
  }

  /** A move is a permutation: the moved block lands at index `to` and the other blocks keep
      their relative order. A forward move puts it right after the target block, a backward
      move right before it. */
  lemma MovedProperties(s: seq<Block>, from: nat, to: nat)
    requires from < |s| && to < |s|
    ensures |Moved(s, from, to)| == |s|
    ensures multiset(Moved(s, from, to)) == multiset(s)
    ensures Moved(s, from, to)[to] == s[from]
    ensures RemoveAt(Moved(s, from, to), to) == RemoveAt(s, from)
    ensures from < to ==> Moved(s, from, to)[to - 1] == s[to]
    ensures to < from ==> Moved(s, from, to)[to + 1] == s[to]
  {
    var removed := RemoveAt(s, from);
    var r := Moved(s, from, to);
    assert r[..to] == removed[..to];
    assert r[to + 1..] == removed[to..];
    assert RemoveAt(r, to) == removed[..to] + removed[to..];
    assert removed[..to] + removed[to..] == removed;
    calc {
      multiset(r);
      multiset(removed[..to]) + multiset{s[from]} + multiset(removed[to..]);
      { assert removed[..to] + removed[to..] == removed; }
      multiset(removed) + multiset{s[from]};
      multiset(s[..from]) + multiset(s[from + 1..]) + multiset{s[from]};
      { assert s == s[..from] + [s[from]] + s[from + 1..]; }
      multiset(s);
    }
  }

  lemma MoveNoOp(blocks: seq<Block>, fromId: string, toId: string)
    requires fromId == toId || !HasId(blocks, fromId) || !HasId(blocks, toId)
    ensures AfterMove(blocks, fromId, toId) == blocks
  {
    if fromId != toId {
      assert FindIndex(blocks, fromId) == -1 || FindIndex(blocks, toId) == -1;
    }
  }

  /** Moving the first of three blocks onto the last gives `[B, C, A]`. */
  lemma MoveFirstOntoLast(a: Block, b: Block, c: Block)
    requires a.id != b.id && a.id != c.id && b.id != c.id
    ensures AfterMove([a, b, c], a.id, c.id) == [b, c, a]
  {
    assert FindIndex([a, b, c], a.id) == 0;
    assert [a, b, c][1..] == [b, c] && [b, c][1..] == [c];
    assert FindIndex([c], c.id) == 0;
    assert FindIndex([b, c], c.id) == 1;
    assert FindIndex([a, b, c], c.id) == 2;
    assert RemoveAt([a, b, c], 0) == [b, c];
  }

  /** `moveBlock`'s splices, done in place on a copy: the blocks between the two positions shift
      by one and the moved block is written at `to`. */
  method SpliceMove(s: seq<Block>, from: nat, to: nat) returns (r: seq<Block>)
    requires from < |s| && to < |s|
    ensures r == Moved(s, from, to)
  {
    var a := new Block[|s|](i requires 0 <= i < |s| => s[i]);
    var moved := s[from];
    if from < to {
      var k := from;
      while k < to
        invariant from <= k <= to
        invariant a[..from] == s[..from]
        invariant forall j :: from <= j < k ==> a[j] == s[j + 1]
        invariant a[k..] == s[k..]
      {
        assert a[k + 1..] == a[k..][1..] && s[k + 1..] == s[k..][1..];
        a[k] := a[k + 1];
        k := k + 1;
      }
    } else {
      var k := from;
      while k > to
        invariant to <= k <= from
        invariant a[..k] == s[..k]
        invariant forall j :: k < j <= from ==> a[j] == s[j - 1]
        invariant a[from + 1..] == s[from + 1..]
      {
        a[k] := a[k - 1];
        k := k - 1;
      }
    }
    a[to] := moved;
    r := a[..];
    forall j | 0 <= j < |s| ensures r[j] == Moved(s, from, to)[j] {
      MovedAt(s, from, to, j);
    }
  }

  /** Each element of a move, read off the original sequence. */
  lemma MovedAt(s: seq<Block>, from: nat, to: nat, j: nat)
    requires from < |s| && to < |s| && j < |s|
    ensures |Moved(s, from, to)| == |s|
    ensures Moved(s, from, to)[j] ==
      if j == to then s[from]
      else if j < to then (if j < from then s[j] else s[j + 1])
      else (if j <= from then s[j - 1] else s[j])
  {
    var removed := RemoveAt(s, from);
    if j < to {
      assert Moved(s, from, to)[j] == removed[j];
    } else if j > to {
      assert Moved(s, from, to)[j] == removed[j - 1];
    }
  }

  /** `Partial<Article>` for `updateMetadata`: a present field overrides. */
  datatype ArticlePatch = ArticlePatch(
    id: Option<int>,
    title: Option<string>,
    slug: Option<string>,
    year: Option<int>,
    conference: Option<string>,
    speaker: Option<string>,
    date: Option<string>,
    summary: Option<string>,
    tags: Option<seq<string>>,
    videoUrl: Option<string>,
    thumbnail: Option<string>,
    content: Option<ArticleContent>,
    published: Option<bool>,
    viewCount: Option<int>,
    createdAt: Option<string>,
    updatedAt: Option<string>)

  const NoChanges := ArticlePatch(None, None, None, None, None, None, None, None, None, None, None, None, None, None, None, None)

  function Override<T>(update: Option<T>, current: T): T
  {
    if update.Some? then update.value else current
  }

  function OverrideOptional<T>(update: Option<T>, current: Option<T>): Option<T>
  {
    if update.Some? then update else current
  }

  /** `{ ...article, ...data }`. */
  function MergeArticle(a: Article, p: ArticlePatch): Article
  {
    Article(Override(p.id, a.id), Override(p.title, a.title), Override(p.slug, a.slug), Override(p.year, a.year),
            OverrideOptional(p.conference, a.conference), OverrideOptional(p.speaker, a.speaker),
            Override(p.date, a.date), OverrideOptional(p.summary, a.summary), Override(p.tags, a.tags),
            OverrideOptional(p.videoUrl, a.videoUrl), OverrideOptional(p.thumbnail, a.thumbnail),
            OverrideOptional(p.content, a.content), Override(p.published, a.published),
            Override(p.viewCount, a.viewCount), Override(p.createdAt, a.createdAt), Override(p.updatedAt, a.updatedAt))
  }

  /** A patch overrides exactly the fields it carries: the empty patch changes nothing, a patch
      applies idempotently, and a title-only patch (the title input's) keeps every other field. */
  lemma MergeArticleLaws(a: Article, p: ArticlePatch, title: string)
    ensures MergeArticle(a, NoChanges) == a
    ensures MergeArticle(MergeArticle(a, p), p) == MergeArticle(a, p)
    ensures MergeArticle(a, NoChanges.(title := Some(title))) == a.(title := title)
    ensures p.slug.Some? ==> MergeArticle(a, p).slug == p.slug.value
    ensures p.slug.None? ==> MergeArticle(a, p).slug == a.slug
  {
  }

  /** `new Date().toISOString().split('T')[0]`: the date part of an ISO timestamp. */
  function DatePart(iso: string): string
  {
    Split(iso, 'T')[0]
  }

  /** The date part is the text before the first `T`. */
  lemma DatePartOfTimestamp(date: string, time: string)
    requires 'T' !in date
    ensures DatePart(date + "T" + time) == date
  {
    SplitPrefix(date, "T" + time, 'T');
    assert date + "T" + time == date + ("T" + time);
    assert ("T" + time)[1..] == time;
    assert Split("T" + time, 'T')[0] == "";
    assert date + "" == date;
  }

  /** The fresh article `createNewArticle` starts from. */
  function NewArticle(nowIso: string, currentYear: int): Article
  {
    Article(0, "", "", currentYear, None, None, DatePart(nowIso), None, [], None, None, None, false, 0, nowIso, nowIso)
  }

  /** The `EditorProvider` state. */
  class Editor {
    var article: Option<Article>
    var blocks: seq<Block>
    var isDirty: bool
    /** The provider's `useId()` prefix of block ids. */
    const baseId: string

    constructor (baseId: string)
      ensures this.baseId == baseId
      ensures article == None && blocks == [] && !isDirty
    {
      this.baseId := baseId;
      article := None;
      blocks := [];
      isDirty := false;
    }

    /** A fresh unsaved article (id 0) holding one empty paragraph, not dirty. */
    method CreateNewArticle(nowIso: string, currentYear: int)
      modifies this
      ensures article == Some(NewArticle(nowIso, currentYear))
      ensures article.value.id == 0 && article.value.title == "" && article.value.slug == ""
      ensures article.value.tags == [] && !article.value.published && article.value.viewCount == 0
      ensures article.value.year == currentYear && article.value.content == None
      ensures blocks == [ParagraphBlock(NewBlockId(baseId, 0), Plain(""))]
      ensures !isDirty
    {
      article := Some(NewArticle(nowIso, currentYear));
      blocks := [ParagraphBlock(NewBlockId(baseId, 0), Plain(""))];
      isDirty := false;
    }

    /** The article's own blocks, or none without content; not dirty. */
    method LoadArticle(loaded: Article)
      modifies this
      ensures article == Some(loaded)
      ensures blocks == if loaded.content.Some? then loaded.content.value.blocks else []
      ensures !isDirty
    {
      article := Some(loaded);
      blocks := if loaded.content.Some? then loaded.content.value.blocks else [];
      isDirty := false;
    }

    /** A no-op without an article; otherwise the patch is merged in and the store is dirty. */
    method UpdateMetadata(p: ArticlePatch)
      modifies this
      ensures old(article).None? ==> article == old(article) && isDirty == old(isDirty)
      ensures old(article).Some? ==> article == Some(MergeArticle(old(article).value, p)) && isDirty
      ensures blocks == old(blocks)
    {
      if article.None? {
        return;
      }
      article := Some(MergeArticle(article.value, p));
      isDirty := true;
    }

    /** `addBlock(afterId, type = 'paragraph')` at clock reading `now`. */
    method AddBlock(afterId: Option<string>, tag: Option<string>, now: nat)
      modifies this
      ensures blocks == AfterAdd(old(blocks), afterId, tag.GetOr("paragraph"), NewBlockId(baseId, now))
      ensures |blocks| == |old(blocks)| + 1
      ensures multiset(blocks) == multiset(old(blocks)) + multiset{DefaultBlock(tag.GetOr("paragraph"), NewBlockId(baseId, now))}
      ensures isDirty && article == old(article)
    {
      var newBlock := DefaultBlock(tag.GetOr("paragraph"), NewBlockId(baseId, now));
      var afterIndex := if afterId.Some? && afterId.value != "" then FindIndex(blocks, afterId.value) else |blocks| - 1;
      assert blocks == blocks[..afterIndex + 1] + blocks[afterIndex + 1..];
      blocks := blocks[..afterIndex + 1] + [newBlock] + blocks[afterIndex + 1..];
      isDirty := true;
    }

    /** `updateBlock(id, updates)`: dirty even when no block matched. */
    method UpdateBlock(id: string, p: BlockPatch)
      modifies this
      ensures blocks == AfterUpdate(old(blocks), id, p)
      ensures !HasId(old(blocks), id) ==> blocks == old(blocks)
      ensures isDirty && article == old(article)
    {
      UpdateKeepsShape(blocks, id, p);
      blocks := AfterUpdate(blocks, id, p);
      isDirty := true;
    }

    /** `deleteBlock(id)`: with a single block nothing changes, not even the dirty flag. */
    method DeleteBlock(id: string)
      modifies this
      ensures |old(blocks)| == 1 ==> blocks == old(blocks) && isDirty == old(isDirty)
      ensures |old(blocks)| != 1 ==> blocks == Without(old(blocks), id) && isDirty
      ensures |old(blocks)| >= 1 && DistinctIds(old(blocks)) ==> |blocks| >= 1
      ensures article == old(article)
    {
      if |blocks| >= 1 && DistinctIds(blocks) {
        DeleteKeepsOneBlock(blocks, id);
      }
      if |blocks| == 1 {
        return;
      }
      blocks := Without(blocks, id);
      isDirty := true;
    }

    /** `duplicateBlock(id)` at clock reading `now`: a no-op for an unknown id. */
    method DuplicateBlock(id: string, now: nat)
      modifies this
      ensures blocks == AfterDuplicate(old(blocks), id, NewBlockId(baseId, now))
      ensures !HasId(old(blocks), id) ==> blocks == old(blocks) && isDirty == old(isDirty)
      ensures HasId(old(blocks), id) ==> |blocks| == |old(blocks)| + 1 && isDirty
      ensures article == old(article)
    {
      DuplicatePlacement(blocks, id, NewBlockId(baseId, now));
      var blockIndex := FindIndex(blocks, id);
      if blockIndex == -1 {
        return;
      }
      blocks := InsertAt(blocks, blockIndex + 1, blocks[blockIndex].(id := NewBlockId(baseId, now)));
      isDirty := true;
    }

    /** `moveBlock(fromId, toId)`: a no-op for equal or missing ids; otherwise a permutation. */
    method MoveBlock(fromId: string, toId: string)
      modifies this
      ensures blocks == AfterMove(old(blocks), fromId, toId)
      ensures multiset(blocks) == multiset(old(blocks))
      ensures (fromId == toId || !HasId(old(blocks), fromId) || !HasId(old(blocks), toId)) ==>
        blocks == old(blocks) && isDirty == old(isDirty)
      ensures fromId != toId && HasId(old(blocks), fromId) && HasId(old(blocks), toId) ==> isDirty
      ensures article == old(article)
    {
      if fromId == toId {
        return;
      }
      var fromIndex := FindIndex(blocks, fromId);
      var toIndex := FindIndex(blocks, toId);
      if fromIndex == -1 || toIndex == -1 {
        return;
      }
      MovedProperties(blocks, fromIndex, toIndex);
      blocks := SpliceMove(blocks, fromIndex, toIndex);
      isDirty := true;
    }

    /** `getContent()`: the current blocks as article content. */
    method GetContent() returns (c: ArticleContent)
      ensures c.blocks == blocks
    {
      c := ArticleContent(blocks);
    }
  }
}
