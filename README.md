# React Conference in Korean — a Dafny model of the article editor and server

The system is a small CMS for Korean write-ups of React conference talks. An admin writes an
article in a block editor in the browser: headings, paragraphs, code, lists, callouts, images and
videos. A Node/Express server then validates the article, stores it in one MySQL `articles` table
and serves it to readers. This project models the core of both halves in Dafny:

- **Content model** (`ContentModel`): articles, the seven block variants, rich text as a plain
  string or styled segments, and the ten-colour palette.
- **Editor store** (`EditorStore`): `EditorStore.Editor` is a class holding `article`, `blocks`
  and `isDirty`.
  - The nine store operations are methods. Each is proved to leave `blocks` equal to a
    transition function of the old state (`AfterAdd`, `AfterUpdate`, `Without`, `AfterDuplicate`,
    `AfterMove`, ...).
  - The lemmas next to those functions state the placement rules.
  - `SpliceMove` does the move-block splice in place on an array.
- **Editor commands** (`BlockEditorCommands`, `BlockTypeMenu`, `MetadataForm`):
  - key dispatch, list-item edits and drag-and-drop retargeting;
  - the change-type menu;
  - the slug, year and tag input normalisers.
- **Pure content functions**:
  - the table of contents (`TableOfContents`);
  - rich-text class lists and rendering (`RichTextRenderer`);
  - YouTube/Vimeo embed URLs, with the regular expressions replaced by a leftmost search
    (`VideoEmbed`);
  - the home page's year grouping (`HomeGrouping`).
- **Server rules**:
  - request validators (`Validation`);
  - the error-to-status mapping (`ErrorHandling`);
  - response builders (`Responses`);
  - bearer tokens and login (`Auth`, `AuthController`).
- **Article table** (`ArticleSql`, `UpdateSql`, `ArticleModel`, `ArticleController`):
  - The table is a class `ArticleModel.ArticleTable` whose `rows` field the methods reassign.
  - The SQL that `findAll`, `findAllForAdmin` and `update` build is modelled as a clause list plus
    a parameter list. Small interpreters (`ArticleSql.Run`, `UpdateSql.ExecuteUpdate`) give that
    SQL its WHERE / ORDER BY / LIMIT / OFFSET / SET meaning over the rows.
  - Lemmas prove that each built statement means the intended selection or update.
  - The controllers are methods over the table that return the HTTP reply: status, message and
    data.

Clocks (`Date.now()`, `new Date()`), React's `useId`, the configured admin password, JWT signing
and `jwt.verify` are not computed by the model; they are parameters. `jwt.verify` is a function
parameter `string -> Verified` that stands for an oracle.

Where the code's behaviour differs from what its names and comments suggest, the model follows the code:

- `addBlock` with an `afterId` that matches no block inserts the new block at index 0, not at
  the end (`EditorStore.AddAfterUnknownAnchorPrepends`).
- `loadArticle` stores the article as given; it does not cut its date down to `YYYY-MM-DD`.
- `updateBlock` sets `isDirty` even when no block has the id. So does `deleteBlock`, unless the
  list has exactly one block.
- `moveBlock` puts the block at `toId`'s index as it was before the removal.
  - Dragging a block downwards therefore lands it one place too far: a drop onto the top half
    of a later block puts it just after that block, and a drop onto the bottom half of a later
    block that is not the last puts it after the next block (`BlockEditorCommands.ForwardDropOneTooFar`,
    with the concrete case `BlockEditorCommands.ForwardDropOvershoots`).
  - A drop onto the bottom half of the last block lands as indicated
    (`BlockEditorCommands.ForwardDropAfterLastAsIntended`).
  - Dragging upwards lands where the drop indicator points (`BlockEditorCommands.BackwardDropAsIntended`).
  - `BlockEditorCommands.IntendedDrop` is a reference definition of the indicated placement.
- Block ids are not guaranteed unique. Deleting an id that two blocks share can empty the list
  (`EditorStore.DeleteWithSharedIdEmpties`).
- The slug-conflict check in `createArticle` and `updateArticle` uses `findBySlug`. That sees only
  published rows, and a hit raises the stored view count even though the request then fails
  with 409 (`ArticleController.CreateArticle`, `ArticleController.FailedCheckCountsView`).

## Model

| member | source | states |
|---|---|---|
| ContentModel.BlockTagsMatchServer | client/src/types/index.ts:26-33 | every block has one of the seven type tags; every tag of the server's BLOCK_TYPES belongs to some block; the seven tags are distinct |
| ContentModel.SegmentsTextAppend | client/src/hooks/useTableOfContents.ts:18-20 | the text of concatenated segments is the concatenation of their texts |
| ContentModel.RestylePreservesText | client/src/components/common/RichTextRenderer.tsx:68-71 | restyling segments never changes the text they spell |
| EditorStore.FindIndex | client/src/contexts/EditorContext.tsx:191-192 | `findIndex`: -1 exactly when no block has the id, otherwise the first index holding it |
| EditorStore.NewBlockIdsDiffer | client/src/contexts/EditorContext.tsx:78 | ids made at two different clock readings differ |
| EditorStore.DefaultBlockShape | client/src/contexts/EditorContext.tsx:75-130 | a new block has the requested id and the requested type; an unknown type gives an empty paragraph |
| EditorStore.AddWithoutAnchorAppends | client/src/contexts/EditorContext.tsx:69-71 | with no or empty `afterBlockId` the new block is appended |
| EditorStore.AddAfterAnchor | client/src/contexts/EditorContext.tsx:132-136 | with a found anchor the new block sits right after its first occurrence, all others keep order, length grows by one |
| EditorStore.AddAfterUnknownAnchorPrepends | client/src/contexts/EditorContext.tsx:69-71 | an anchor that matches no block puts the new block at index 0 |
| EditorStore.Merge | client/src/contexts/EditorContext.tsx:146-148 | merging updates never changes a block's id or type |
| EditorStore.MergeLaws | client/src/contexts/EditorContext.tsx:146-148 | the empty update is the identity and applying an update twice equals applying it once |
| EditorStore.AfterUpdate | client/src/contexts/EditorContext.tsx:144-153 | every block with the id is merged, every other block is untouched, the length is kept |
| EditorStore.UpdateKeepsShape | client/src/contexts/EditorContext.tsx:144-153 | an unknown id leaves the list equal; ids and types are kept position by position |
| EditorStore.WithoutMembers | client/src/contexts/EditorContext.tsx:158 | the filter keeps exactly the blocks whose id differs |
| EditorStore.WithoutAppend | client/src/contexts/EditorContext.tsx:158 | filtering distributes over concatenation, so order is preserved |
| EditorStore.WithoutAbsent | client/src/contexts/EditorContext.tsx:158 | filtering an absent id leaves the list unchanged |
| EditorStore.WithoutDistinct | client/src/contexts/EditorContext.tsx:158 | with distinct ids the filter removes exactly one block when the id is present |
| EditorStore.DeleteKeepsOneBlock | client/src/contexts/EditorContext.tsx:155-164 | with distinct ids a non-empty list never becomes empty |
| EditorStore.DeleteWithSharedIdEmpties | client/src/contexts/EditorContext.tsx:155-164 | two blocks sharing the deleted id are both removed, leaving nothing |
| EditorStore.DuplicatePlacement | client/src/contexts/EditorContext.tsx:166-186 | an unknown id is a no-op; otherwise a copy with the new id and the same fields sits at index i+1 and removing it gives back the list |
| EditorStore.MovedProperties | client/src/contexts/EditorContext.tsx:196-198 | the splice is a permutation; the moved block lands at the target index; the others keep their relative order |
| EditorStore.MoveNoOp | client/src/contexts/EditorContext.tsx:189-194 | equal ids or a missing id leave the list unchanged |
| EditorStore.MoveFirstOntoLast | client/src/contexts/EditorContext.tsx:188-204 | moving the first of three blocks onto the last gives `[b, c, a]` |
| EditorStore.SpliceMove | client/src/contexts/EditorContext.tsx:196-198 | the in-place array splice equals the specification `Moved` |
| EditorStore.MergeArticleLaws | client/src/contexts/EditorContext.tsx:60-66 | supplied fields override, absent fields are kept, the empty update is the identity, merging is idempotent |
| EditorStore.DatePartOfTimestamp | client/src/contexts/EditorContext.tsx:35 | the date part of `date + "T" + time` is `date` |
| EditorStore.Editor.constructor | client/src/contexts/EditorContext.tsx:23-27 | no article, no blocks, not dirty |
| EditorStore.Editor.CreateNewArticle | client/src/contexts/EditorContext.tsx:29-52 | id 0, empty title, slug and tags, unpublished, view count 0, one empty paragraph block, not dirty |
| EditorStore.Editor.LoadArticle | client/src/contexts/EditorContext.tsx:54-58 | blocks are the article's content blocks or empty; not dirty |
| EditorStore.Editor.UpdateMetadata | client/src/contexts/EditorContext.tsx:60-66 | no article: nothing changes; otherwise the article is merged and dirty is set; blocks unchanged |
| EditorStore.Editor.AddBlock | client/src/contexts/EditorContext.tsx:68-142 | blocks become `AfterAdd` of the old blocks: one more block, the old ones kept as a multiset; dirty |
| EditorStore.Editor.UpdateBlock | client/src/contexts/EditorContext.tsx:144-153 | blocks become `AfterUpdate`; dirty even when nothing matched |
| EditorStore.Editor.DeleteBlock | client/src/contexts/EditorContext.tsx:155-164 | a single block is never deleted and dirty stays; otherwise blocks become `Without`; at least one block survives when ids are distinct |
| EditorStore.Editor.DuplicateBlock | client/src/contexts/EditorContext.tsx:166-186 | blocks become `AfterDuplicate`; unknown id changes nothing |
| EditorStore.Editor.MoveBlock | client/src/contexts/EditorContext.tsx:188-204 | blocks become `AfterMove`, a permutation; the no-op cases keep blocks and dirty, a real move sets dirty |
| EditorStore.Editor.GetContent | client/src/contexts/EditorContext.tsx:206-208 | the content is exactly the current blocks |
| BlockEditorCommands.WriteBackKeepsText | client/src/components/editor/BlockEditor.tsx:58-59 | writing the displayed string back flattens the content to plain text and keeps the string shown |
| BlockEditorCommands.SegmentsToString | client/src/components/editor/BlockEditor.tsx:10-14 | `richTextToString` of concatenated segments is the concatenation of their strings |
| BlockEditorCommands.KeyDownAction | client/src/components/editor/BlockEditor.tsx:20-51 | the menu opens iff `/` in an empty paragraph; Enter without Shift adds; Backspace in an empty block deletes; default is prevented iff something happened |
| BlockEditorCommands.EnterAddsParagraphAfter | client/src/components/editor/BlockEditor.tsx:32-34 | Enter gives a new empty paragraph right after the current block |
| BlockEditorCommands.HandleKeyDown | client/src/components/editor/BlockEditor.tsx:20-51 | the store ends as `AfterAdd` or `AfterDelete` of the old blocks, or unchanged, per the key; dirty is set by an add and by a delete from a list of other than one block, and kept otherwise |
| BlockEditorCommands.EditListItem | client/src/components/editor/BlockEditor.tsx:150-151 | only item `index` is replaced and the item count is kept |
| BlockEditorCommands.ListItemEditResult | client/src/components/editor/BlockEditor.tsx:149-153 | the list block gets the new items and every other block is untouched |
| BlockEditorCommands.OnListItemChange | client/src/components/editor/BlockEditor.tsx:149-153 | the store ends as the update of that one list block |
| BlockEditorCommands.DropMove | client/src/components/editor/BlockEditor.tsx:303-324 | no move iff no dragged id, no drop target, dragged equals target, or either id is absent; an `after` drop retargets to the next block unless the target is last |
| BlockEditorCommands.AfterDropOntoPredecessorIsNoOp | client/src/components/editor/BlockEditor.tsx:316-324 | dropping a block after its predecessor retargets onto itself, a no-op |
| BlockEditorCommands.IntendedDropPlacement | client/src/components/editor/BlockEditor.tsx:299-326 | reference placement: the block lands just before or after the target, a permutation |
| BlockEditorCommands.BackwardDropAsIntended | client/src/components/editor/BlockEditor.tsx:299-326 | dragging upwards lands exactly where the reference placement says |
| BlockEditorCommands.ForwardDropOvershoots | client/src/components/editor/BlockEditor.tsx:299-326 | dragging `a` before `c` in `[a, b, c]` gives `[b, c, a]`, not `[b, a, c]` |
| BlockEditorCommands.ForwardDropMove | client/src/components/editor/BlockEditor.tsx:299-326 | a downward drop moves the block to the index of its final target (the target, or its successor for a bottom-half drop) |
| BlockEditorCommands.ForwardDropOneTooFar | client/src/components/editor/BlockEditor.tsx:299-326 | every downward drop except a bottom-half drop on the last block lands one place past the indicated slot, never on it |
| BlockEditorCommands.ForwardDropAfterLastAsIntended | client/src/components/editor/BlockEditor.tsx:299-326 | a bottom-half drop on the last block lands where indicated |
| BlockEditorCommands.DragState.constructor | client/src/components/editor/BlockEditor.tsx:250-251 | nothing dragged, no drop target |
| BlockEditorCommands.DragState.DragStart | client/src/components/editor/BlockEditor.tsx:254-261 | records the dragged block id |
| BlockEditorCommands.DragState.DragEnd | client/src/components/editor/BlockEditor.tsx:263-266 | clears the dragged id and the drop target |
| BlockEditorCommands.HandleDrop | client/src/components/editor/BlockEditor.tsx:299-326 | the store ends as `AfterDrop`, the drop target is cleared, a refused drop changes nothing, and a performed drop sets dirty unless it retargets onto the dragged block itself |
| BlockEditorCommands.UnsupportedOnlyForUnknownTags | client/src/components/editor/BlockEditor.tsx:245 | the placeholder shows iff the tag is not one of the seven, so never for a modelled block |
| BlockTypeMenu.MenuCoversAllTypes | client/src/components/editor/BlockTypeMenu.tsx:18-29 | ten entries covering exactly the seven types, none a checkbox list |
| BlockTypeMenu.ChangeTypeAppends | client/src/components/editor/BlockTypeMenu.tsx:12-16 | the old block is removed and the new one appended; a sole block is kept and the new one added after it |
| BlockTypeMenu.PropsIgnored | client/src/components/editor/BlockTypeMenu.tsx:20-24 | H2 and H3 give a level-1 heading; numbered gives a bullet list |
| BlockTypeMenu.ChangeType | client/src/components/editor/BlockTypeMenu.tsx:12-16 | the store ends as `AfterChangeType`, dirty is set and the article is unchanged |
| MetadataForm.SlugChar | client/src/components/editor/MetadataForm.tsx:29 | each character yields at most one slug character and slug characters are kept |
| MetadataForm.SlugInput | client/src/components/editor/MetadataForm.tsx:29 | the cleaned slug contains only `a-z`, `0-9` and `-` and is no longer than the input |
| MetadataForm.SlugInputAppend | client/src/components/editor/MetadataForm.tsx:29 | cleaning works character by character, keeping order |
| MetadataForm.SlugInputFixes | client/src/components/editor/MetadataForm.tsx:29 | a string is unchanged iff it already consists of slug characters |
| MetadataForm.SlugInputIdempotent | client/src/components/editor/MetadataForm.tsx:29 | cleaning is idempotent and a non-empty result matches `^[a-z0-9-]+$` |
| MetadataForm.SlugInputLowercases | client/src/components/editor/MetadataForm.tsx:29 | an ASCII capital becomes its lower-case letter in place |
| MetadataForm.YearInput | client/src/components/editor/MetadataForm.tsx:44 | `parseInt`'s value unless it is NaN or 0, then the current year |
| MetadataForm.YearInputOfTypedYear | client/src/components/editor/MetadataForm.tsx:44 | a typed positive year is taken as is |
| MetadataForm.CleanTags | client/src/components/editor/MetadataForm.tsx:111 | the kept tags are trimmed and non-empty |
| MetadataForm.CleanTagsAppend | client/src/components/editor/MetadataForm.tsx:111 | cleaning works piece by piece and keeps the typed order |
| MetadataForm.CleanTagsOne | client/src/components/editor/MetadataForm.tsx:111 | one piece gives its trimmed text, or nothing when blank |
| MetadataForm.TagsInput | client/src/components/editor/MetadataForm.tsx:111 | parsed tags are trimmed, non-empty and comma-free |
| MetadataForm.JoinSpaced | client/src/components/editor/MetadataForm.tsx:110 | joining with `", "` is joining the space-prefixed tags with `","` |
| MetadataForm.CleanSpaced | client/src/components/editor/MetadataForm.tsx:111 | trimming and dropping empties undoes the space prefix |
| MetadataForm.TagsRoundTrip | client/src/components/editor/MetadataForm.tsx:110-111 | showing trimmed, non-empty, comma-free tags and reparsing gives the same list |
| MetadataForm.TagsInputStable | client/src/components/editor/MetadataForm.tsx:110-111 | whatever was typed, show-then-parse of the parsed tags is stable |
| MetadataForm.FieldPatch | client/src/components/editor/MetadataForm.tsx:26-111 | each input patches exactly its own field: slug, year and tags through their normalisers, every other field with the typed value; id, content, published, view count and timestamps stay absent |
| MetadataForm.OnFieldChange | client/src/components/editor/MetadataForm.tsx:26-111 | the article is merged with that patch and dirty is set; nothing happens with no article |
| TableOfContents.ItemOf | client/src/hooks/useTableOfContents.ts:16-22 | an item has the heading's id and level and its plain text |
| TableOfContents.TocOfOneBlock | client/src/hooks/useTableOfContents.ts:14-22 | a heading gives one item, any other block none |
| TableOfContents.TocItemsAppend | client/src/hooks/useTableOfContents.ts:14-22 | items follow block order |
| TableOfContents.TocItemsExact | client/src/hooks/useTableOfContents.ts:14-22 | every heading has its item and every item comes from a heading |
| TableOfContents.NoHeadingsNoToc | client/src/hooks/useTableOfContents.ts:14-22 | no headings, empty table of contents |
| RichTextRenderer.IrregularEntries | client/src/components/common/RichTextRenderer.tsx:21-46 | the brown colour and gray background entries break the table's pattern and are kept as written |
| RichTextRenderer.Names | client/src/components/common/RichTextRenderer.tsx:14-56 | each class becomes its Tailwind name, in order |
| RichTextRenderer.FlagClassesExact | client/src/components/common/RichTextRenderer.tsx:14-18 | a flag class appears iff its flag is set |
| RichTextRenderer.StyleClassesExact | client/src/components/common/RichTextRenderer.tsx:14-54 | the classes are exactly the set flags, a non-default colour, and a non-default background followed by `px-1` |
| RichTextRenderer.StyleClassCount | client/src/components/common/RichTextRenderer.tsx:8-54 | one class per set flag or colour, two for a background; none without styles |
| RichTextRenderer.BoldOnlyClassString | client/src/components/common/RichTextRenderer.tsx:14-56 | bold with default background renders as `font-bold` |
| RichTextRenderer.GetStyleClasses | client/src/components/common/RichTextRenderer.tsx:8-57 | the pushed classes joined by spaces equal `ClassString`; no styles give `""` |
| RichTextRenderer.Render | client/src/components/common/RichTextRenderer.tsx:59-74 | a string renders in one span; segments render one span each, in order, with their own classes and text |
| RichTextRenderer.RenderShowsText | client/src/components/common/RichTextRenderer.tsx:59-74 | the rendered text is the rich text's plain text |
| VideoEmbed.PrefixAt | client/src/components/blocks/VideoBlock.tsx:14 | finds which YouTube prefix starts at a position, or that none does |
| VideoEmbed.YouTubeIdAt | client/src/components/blocks/VideoBlock.tsx:14 | the captured id is 11 characters from `[A-Za-z0-9_-]` |
| VideoEmbed.FindYouTube | client/src/components/blocks/VideoBlock.tsx:14 | the leftmost YouTube match, or none anywhere |
| VideoEmbed.DigitRun | client/src/components/blocks/VideoBlock.tsx:18 | the maximal run of digits at a position |
| VideoEmbed.FindVimeo | client/src/components/blocks/VideoBlock.tsx:18 | the leftmost `vimeo.com/` followed by a digit, or none anywhere |
| VideoEmbed.EmbedUrl | client/src/components/blocks/VideoBlock.tsx:12-22 | the embed URL built from the leftmost match for the platform, else the url unchanged |
| VideoEmbed.PrefixAtOf | client/src/components/blocks/VideoBlock.tsx:14 | a prefix present at a position is the one found there |
| VideoEmbed.FindYouTubeAt | client/src/components/blocks/VideoBlock.tsx:14 | the search returns the first match position |
| VideoEmbed.YouTubeLinkRecognised | client/src/components/blocks/VideoBlock.tsx:14-15 | any YouTube link form followed by an 11-character id embeds that id; trailing text is ignored |
| VideoEmbed.YouTubeEmbedOfEmbed | client/src/components/blocks/VideoBlock.tsx:14-15 | an embed URL maps to itself |
| VideoEmbed.YouTubeEmbedIdempotent | client/src/components/blocks/VideoBlock.tsx:12-16 | embedding twice equals embedding once |
| VideoEmbed.FirstVimeoAt | client/src/components/blocks/VideoBlock.tsx:18 | the search returns the first Vimeo match |
| VideoEmbed.NoVimeoBefore | client/src/components/blocks/VideoBlock.tsx:18 | no match can start before the first `v` |
| VideoEmbed.VimeoLinkRecognised | client/src/components/blocks/VideoBlock.tsx:18-19 | `vimeo.com/` plus a maximal digit run embeds those digits |
| VideoEmbed.DigitRunOf | client/src/components/blocks/VideoBlock.tsx:18 | a maximal digit run is what `DigitRun` returns |
| VideoEmbed.YouTubeLinkUnderVimeo | client/src/components/blocks/VideoBlock.tsx:17-21 | a YouTube link under platform vimeo is returned unchanged |
| HomeGrouping.YearGroup | client/src/pages/Home.tsx:46-51 | a group holds only articles of its year |
| HomeGrouping.InOwnGroup | client/src/pages/Home.tsx:46-51 | every article is in the group of its year |
| HomeGrouping.GroupNonEmpty | client/src/pages/Home.tsx:48-49 | a year that occurs has a non-empty group |
| HomeGrouping.YearGroupSnoc | client/src/pages/Home.tsx:49 | pushing an article appends it to its own group only, keeping input order |
| HomeGrouping.GroupByYear | client/src/pages/Home.tsx:46-51 | the keys are exactly the years that occur and each group is that year's articles in order |
| HomeGrouping.Sections | client/src/pages/Home.tsx:110-116 | one section per year with its articles and their count |
| HomeGrouping.HomeSections | client/src/pages/Home.tsx:46-116 | years strictly descending, exactly those occurring, each section non-empty with count equal to its length |
| Validation.Messages | server/src/middleware/validation.js:10-26 | each complaint maps to its message, in order |
| Validation.ValidateArticle | server/src/middleware/validation.js:5-33 | the verdict of the collected complaints: none passes, otherwise a 400 with the messages joined by `", "` |
| Validation.ValidateArticleUpdate | server/src/middleware/validation.js:36-54 | the same for the partial-update checks |
| Validation.ArticleComplaintsExact | server/src/middleware/validation.js:10-26 | accepted iff title non-blank, slug non-blank and well-formed, year an integer in [2013, year+1], content present; each complaint iff its condition |
| Validation.ArticleComplaintsOrdered | server/src/middleware/validation.js:10-26 | complaints come in field order with at most one per field |
| Validation.PatchComplaintsExact | server/src/middleware/validation.js:41-47 | accepted iff the present slug and year are valid; only slug and year complaints arise, in field order |
| Validation.PaddedSlugFailsFormat | server/src/middleware/validation.js:14-16 | the slug is not trimmed before the format test |
| Validation.SlugIsTrimmed | server/src/middleware/validation.js:14-16 | a well-formed slug is its own trim, so it is never blank |
| Validation.YearBounds | server/src/middleware/validation.js:20 | both bounds are inclusive; 0, missing and non-integer years fail |
| Validation.PatchIgnoresTitleAndContent | server/src/middleware/validation.js:37-47 | title and content never affect the update check |
| Validation.ArticleImpliesPatch | server/src/middleware/validation.js:5-54 | an acceptable article passes the update check |
| Validation.SlugCheckIsFormat | server/src/middleware/validation.js:41 | the update's slug test is the format test |
| Validation.SanitisedSlugAccepted | server/src/middleware/validation.js:16 | a non-empty slug from the editor's slug input passes the server's checks |
| Validation.RejectionAnswered | server/src/middleware/validation.js:28-30 | a rejected article is answered 400 with the joined messages |
| ErrorHandling.AppError | server/src/middleware/errorHandler.js:3-10 | carries the message and status and is operational |
| ErrorHandling.PlainError | server/src/middleware/errorHandler.js:12-13 | no status and not operational |
| ErrorHandling.HandleError | server/src/middleware/errorHandler.js:12-53 | status and message are `Answer`; success is false; stack only in development |
| ErrorHandling.AppErrorAnswered | server/src/middleware/errorHandler.js:12-53 | an AppError is answered with its own status and message |
| ErrorHandling.PlainErrorAnswered | server/src/middleware/errorHandler.js:13-18 | a plain error gets 500, its message masked in production |
| ErrorHandling.TokenNamesOverride | server/src/middleware/errorHandler.js:31-40 | JWT error names give 401 with their fixed message, overriding everything before |
| ErrorHandling.DuplicateEntryConflict | server/src/middleware/errorHandler.js:21-24 | ER_DUP_ENTRY gives 409 unless a JWT name overrides |
| ErrorHandling.AnswerStatusSource | server/src/middleware/errorHandler.js:12-40 | the status is 400, 401, 409, 500 or the error's own |
| Responses.SuccessResponse | server/src/utils/response.js:1-7 | success true, the data, message `Success` by default |
| Responses.ErrorResponse | server/src/utils/response.js:9-15 | success false, the message, status 500 by default |
| Responses.CeilDiv | server/src/utils/response.js:25 | for a positive divisor, the least `k` with `a <= k * b` |
| Responses.PaginatedResponse | server/src/utils/response.js:17-28 | echoes page, limit and total; total pages is the ceiling of total / limit |
| Responses.TotalPagesOfCount | server/src/utils/response.js:25 | zero rows give zero pages, up to one page of rows gives one, never more pages than rows |
| Auth.VerifyPassword | server/src/middleware/auth.js:5-7 | true iff the password equals the configured one |
| Auth.BearerToken | server/src/middleware/auth.js:18-19 | the token is the non-empty second space-separated field |
| Auth.BearerTokenOfScheme | server/src/middleware/auth.js:19 | `scheme token` yields `token` |
| Auth.BearerTokenIgnoresRest | server/src/middleware/auth.js:19 | fields after the second are ignored |
| Auth.NoSpaceNoToken | server/src/middleware/auth.js:19-23 | a header without a space has no token |
| Auth.AuthDecision | server/src/middleware/auth.js:17-35 | no token: 401; verify failure forwarded unchanged; proceed iff verified with an admin claim |
| Auth.Request.constructor | server/src/middleware/auth.js:30 | a request starts without a user |
| Auth.AuthenticateToken | server/src/middleware/auth.js:17-35 | forwards the decision's error, or sets `req.user` to the decoded claims |
| Auth.VerifyFailureAnswered401 | server/src/middleware/auth.js:32-34 | a JWT verify failure ends as a 401 answer |
| AuthController.Login | server/src/controllers/authController.js:5-23 | missing or empty password 400, wrong password 401, otherwise the token; success iff the password is non-empty and correct |
| AuthController.NoConfiguredPasswordNoLogin | server/src/controllers/authController.js:8-14 | with no or an empty configured password nobody logs in |
| AuthController.VerifyToken | server/src/controllers/authController.js:25-33 | always success, admin and authenticated |
| ArticleSql.Where | server/src/models/Article.js:12 | WHERE keeps exactly the rows satisfying the condition, as a sub-multiset |
| ArticleSql.WhereWhere | server/src/models/Article.js:12-24 | two successive conditions filter like their conjunction |
| ArticleSql.Window | server/src/models/Article.js:31-39 | LIMIT/OFFSET returns at most `limit` rows of the input |
| ArticleSql.WindowSorted | server/src/models/Article.js:28-39 | a window of a sorted result is sorted |
| ArticleSql.DateIdFirstPreorder | server/src/models/Article.js:28 | `date DESC, id DESC` is a total preorder |
| ArticleSql.DateIdFirstAntisymmetric | server/src/models/Article.js:28 | rows tied under `date DESC, id DESC` share their id |
| ArticleSql.UpdatedFirstPreorder | server/src/models/Article.js:234 | `updated_at DESC` is a total preorder |
| ArticleSql.DateLaterTotal | server/src/models/Article.js:28 | any two dates, NULL included, compare |
| ArticleSql.DateLaterTransitive | server/src/models/Article.js:28 | the date order is transitive |
| ArticleSql.DateLaterAsymmetric | server/src/models/Article.js:28 | the date order is strict |
| ArticleSql.PlaceholderCountAppend | server/src/models/Article.js:7-39 | placeholder counts add up over appended clauses |
| ArticleSql.FoldPush | server/src/models/Article.js:7-39 | appending a clause runs the statement and then that clause |
| ArticleSql.PlaceholdersPush | server/src/models/Article.js:7-39 | pushing a clause with its parameters keeps `?` count equal to parameter count |
| ArticleSql.FindAllPlaceholders | server/src/models/Article.js:14-39 | the built statement has one parameter per `?` |
| ArticleSql.FindAllClauses | server/src/models/Article.js:7-39 | the clauses are the base SELECT, year and tag conditions when truthy, the ORDER BY, LIMIT when truthy, OFFSET only with LIMIT |
| ArticleSql.FindAllStatementShape | server/src/models/Article.js:17-39 | each optional clause appears iff its filter is truthy; OFFSET iff limit and offset both are |
| ArticleSql.ListingConditionsMeaning | server/src/models/Article.js:7-26 | the WHERE part selects the published rows matching year and tag |
| ArticleSql.PageMeaning | server/src/models/Article.js:31-39 | the LIMIT/OFFSET part keeps the window, and a negative value fails |
| ArticleSql.FindAllMeaning | server/src/models/Article.js:6-48 | running the built statement gives `FindAllResult` |
| ArticleSql.FindAllResultProperties | server/src/models/Article.js:6-48 | only listed rows, sorted by date then id descending, and all of them without a limit |
| ArticleSql.BuildFindAll | server/src/models/Article.js:7-39 | the built SQL and parameters are `FindAllStatement` and mean `FindAllResult` on every table |
| ArticleSql.FindAllSound | server/src/models/Article.js:7-41 | the statement is well-formed and means `FindAllResult` |
| ArticleSql.SelectEverythingMeaning | server/src/models/Article.js:226 | `WHERE 1=1` selects every row |
| ArticleSql.AdminConditionsMeaning | server/src/models/Article.js:226-232 | the admin filter keeps rows with the requested published flag, or all |
| ArticleSql.AdminMeaning | server/src/models/Article.js:225-236 | running the admin statement gives `AdminResult` |
| ArticleSql.AdminPlaceholders | server/src/models/Article.js:226-234 | one parameter per `?` |
| ArticleSql.AdminResultProperties | server/src/models/Article.js:225-243 | exactly the matching rows, sorted by `updated_at` descending |
| ArticleSql.BuildFindAllForAdmin | server/src/models/Article.js:226-234 | the built SQL means `AdminResult` on every table |
| UpdateSql.ColumnIndex | server/src/models/Article.js:121-168 | every column has its place in the fixed SET order |
| UpdateSql.ColumnsComplete | server/src/models/Article.js:121-168 | the order lists all twelve updatable columns once |
| UpdateSql.PublishPatch | server/src/controllers/articleController.js:172 | togglePublish's update carries only `published` |
| UpdateSql.SetColumn | server/src/models/Article.js:175 | `col = ?` changes exactly that column, when the value fits it |
| UpdateSql.MatchCount | server/src/models/Article.js:178 | affected rows are positive iff some row has the id |
| UpdateSql.AssignmentTexts | server/src/models/Article.js:121-168 | each defined field contributes `name = ?` |
| UpdateSql.DefinedAmong | server/src/models/Article.js:121-168 | the fields set are exactly the defined ones, in the fixed order |
| UpdateSql.BoundAmong | server/src/models/Article.js:121-168 | one parameter per set field, its value |
| UpdateSql.PatchedColumns | server/src/models/Article.js:116-179 | a patched row has the defined values and keeps the rest |
| UpdateSql.RowsAgree | server/src/models/Article.js:116-179 | rows agreeing on identity and every column are equal |
| UpdateSql.AssignDefined | server/src/models/Article.js:121-175 | the SET list applies to the row the defined values and nothing else |
| UpdateSql.BoundFits | server/src/models/Article.js:121-168 | every bound value fits its column |
| UpdateSql.AssignmentsPatch | server/src/models/Article.js:121-175 | the SET list turns a row into the patched row |
| UpdateSql.PatchWhere | server/src/models/Article.js:175 | rows with the id are patched, others untouched |
| UpdateSql.UpdateRowsPatch | server/src/models/Article.js:175 | the UPDATE over the table is `PatchWhere` |
| UpdateSql.UpdateForShape | server/src/models/Article.js:117-175 | no statement iff no field is defined; otherwise the columns are exactly the defined ones, once each, with their values and then the id |
| UpdateSql.DefinedAmongNoRepeats | server/src/models/Article.js:121-168 | no column is set twice |
| UpdateSql.UpdateMeaning | server/src/models/Article.js:116-179 | the statement patches the rows with the id and reports how many matched |
| UpdateSql.BuildUpdate | server/src/models/Article.js:116-175 | the pushed fields and parameters are `UpdateFor` and the SQL text joins the assignments |
| ArticleModel.Listings | server/src/models/Article.js:8-10 | findAll returns the listing columns of each row, in order |
| ArticleModel.OrNull | server/src/models/Article.js:100-106 | a falsy optional field is stored as NULL |
| ArticleModel.NewRowDefaults | server/src/models/Article.js:96-109 | falsy optional fields become NULL, tags default to `[]`, published defaults to false, view count 0 |
| ArticleModel.WhereDistinctIds | server/src/models/Article.js:183 | deleting keeps row ids distinct |
| ArticleModel.BumpView | server/src/models/Article.js:190 | the rows with the id gain one view, others are untouched |
| ArticleModel.FirstPublished | server/src/models/Article.js:52-58 | the first published row with the slug, or none iff no such row |
| ArticleModel.RowWithId | server/src/models/Article.js:73-85 | the row with the id whatever its published flag, or none iff absent |
| ArticleModel.YearCountOf | server/src/models/Article.js:196-202 | a year's count is positive iff a published row has it |
| ArticleModel.PublishedYears | server/src/models/Article.js:196-202 | exactly the years of published rows |
| ArticleModel.YearStats | server/src/models/Article.js:195-206 | years strictly descending, exactly the published ones, each with its positive count |
| ArticleModel.PatchKeepsIds | server/src/models/Article.js:116-179 | an update never changes ids |
| ArticleModel.ArticleTable.constructor | server/src/models/Article.js:4 | an empty table |
| ArticleModel.ArticleTable.FindAll | server/src/models/Article.js:6-48 | the listings of `FindAllResult`, or failure when the database would reject a negative bound |
| ArticleModel.ArticleTable.IncrementViewCount | server/src/models/Article.js:189-192 | the table becomes `BumpView` |
| ArticleModel.ArticleTable.FindBySlug | server/src/models/Article.js:51-70 | returns the pre-increment first published row with the slug and bumps its view count; no hit changes nothing |
| ArticleModel.ArticleTable.FindById | server/src/models/Article.js:73-85 | the row with the id, published or not |
| ArticleModel.ArticleTable.Create | server/src/models/Article.js:88-113 | appends `NewRow` under the next id and returns that id |
| ArticleModel.ArticleTable.Update | server/src/models/Article.js:116-179 | no field: throws `No fields to update`; otherwise patches the rows with the id and returns whether one matched |
| ArticleModel.ArticleTable.Delete | server/src/models/Article.js:182-186 | removes the rows with the id and returns whether there was one |
| ArticleModel.ArticleTable.GetYearStats | server/src/models/Article.js:195-206 | the result is `YearStats` |
| ArticleModel.ArticleTable.GetAllTags | server/src/models/Article.js:209-222 | exactly the tags of published rows, sorted, without duplicates: `DistinctAscending` of the published rows' tag arrays |
| ArticleModel.PublishedTagList | server/src/models/Article.js:210-219 | the published rows' tag arrays in order hold exactly the published tags |
| ArticleModel.PublishedResultsTags | server/src/models/Article.js:210-219 | a tag is published exactly when a row of the `published = true` selection carries it |
| ArticleModel.ArticleTable.FindAllForAdmin | server/src/models/Article.js:225-243 | the result is `AdminResult` |
| ArticleController.NotFound | server/src/controllers/articleController.js:31 | 404, operational |
| ArticleController.SlugTaken | server/src/controllers/articleController.js:103 | 409, operational |
| ArticleController.NumberFilter | server/src/controllers/articleController.js:10-13 | a filter is set only for a truthy parameter, as its `parseInt` |
| ArticleController.QueryFilters | server/src/controllers/articleController.js:7-13 | year, limit and offset via `NumberFilter`; the tag only when truthy |
| ArticleController.ZeroParameterIgnored | server/src/controllers/articleController.js:12 | `limit=0` lists like no limit |
| ArticleController.ZeroYearIgnored | server/src/controllers/articleController.js:10 | `year=0` lists like no year filter |
| ArticleController.AdminFilter | server/src/controllers/articleController.js:66-69 | a filter iff `published` is given, true iff it is exactly `true` |
| ArticleController.GetAllArticles | server/src/controllers/articleController.js:6-22 | 200 with the listed rows and their count, or the query's failure |
| ArticleController.GetArticleBySlug | server/src/controllers/articleController.js:25-38 | 404 when no published row has the slug; otherwise 200 with it and its view count bumped |
| ArticleController.GetYearStats | server/src/controllers/articleController.js:41-48 | 200 with `YearStats` |
| ArticleController.GetAllTags | server/src/controllers/articleController.js:51-58 | 200 with exactly the published tags, ascending |
| ArticleController.GetAllArticlesForAdmin | server/src/controllers/articleController.js:63-78 | 200 with `AdminResult` of the filter and its count |
| ArticleController.GetArticleById | server/src/controllers/articleController.js:81-94 | 404 for an unparsable or unknown id, otherwise 200 with the row |
| ArticleController.CreateArticle | server/src/controllers/articleController.js:97-113 | 409 iff a published row has the slug (its view count bumped); otherwise 201 with the new id and the row appended |
| ArticleController.UpdateArticle | server/src/controllers/articleController.js:116-144 | 404 for an unknown id; 409 when a changed slug is taken by a published row; the no-fields error; otherwise 200 and the rows patched |
| ArticleController.DeleteArticle | server/src/controllers/articleController.js:147-160 | rows with the id removed; 200 iff one existed, else 404 |
| ArticleController.TogglePublish | server/src/controllers/articleController.js:163-178 | 404 for an unknown id; otherwise only `published` is written and the message follows the flag |
| ArticleController.PublishPatchEmpty | server/src/controllers/articleController.js:172 | a missing `published` makes the update throw `No fields to update` |
| ArticleController.EmptyPatchAnswered | server/src/models/Article.js:170-172 | that error is answered 500, masked in production |
| ArticleController.UnpublishedSlugNotDetected | server/src/controllers/articleController.js:101-104 | a slug held only by unpublished rows is not seen as taken |
| ArticleController.PublishedSlugDetected | server/src/controllers/articleController.js:101-104 | a slug held by a published row is seen as taken |
| ArticleController.FailedCheckCountsView | server/src/controllers/articleController.js:101 | the refused create still adds a view to the existing article and to nothing else |
| Strings.Split | client/src/components/editor/MetadataForm.tsx:111 | `split(',')`: at least one field, none containing the separator |
| Strings.JoinSplit | client/src/components/editor/MetadataForm.tsx:110-111 | joining the fields with the separator gives back the string |
| Strings.SplitJoin | client/src/components/editor/MetadataForm.tsx:110-111 | splitting a join of separator-free fields gives back the fields |
| Strings.TrimIsTrimmed | client/src/components/editor/MetadataForm.tsx:111 | `trim()` leaves no leading or trailing white space |
| Strings.TrimOfTrimmed | client/src/components/editor/MetadataForm.tsx:111 | trimming a trimmed string changes nothing |
| Strings.TrimSkipsLeadingSpace | client/src/components/editor/MetadataForm.tsx:111 | a leading space does not survive trimming |
| Strings.NatToString | client/src/components/editor/MetadataForm.tsx:43 | a decimal numeral is non-empty and all digits |
| Strings.ParseIntOfNatToString | client/src/components/editor/MetadataForm.tsx:44 | `parseInt` reads back a decimal numeral |
| Strings.NatToStringInjective | client/src/contexts/EditorContext.tsx:78 | different numbers have different numerals |
| Strings.LexTotal | server/src/models/Article.js:221 | the default sort's order relates any two different strings |
| Strings.LexTransitive | server/src/models/Article.js:221 | the default sort's order is transitive |
| Strings.LexIrreflexive | server/src/models/Article.js:221 | the default sort's order is strict |
| Ordering.DistinctDescending | client/src/pages/Home.tsx:53 | the year keys, strictly descending, exactly those given |
| Ordering.DistinctAscending | server/src/models/Article.js:213-221 | the tag set, strictly ascending, exactly those given |
| Ordering.AscendingUnique | server/src/models/Article.js:221 | two strictly ascending sequences with the same members are equal, so the sorted tag set is determined by its members |
| Ordering.SortBy | server/src/models/Article.js:28 | sorting is a permutation |
| Ordering.SortBySorted | server/src/models/Article.js:28 | sorting by a total preorder gives a sorted sequence |
| Ordering.SortDistinctStrings | server/src/models/Article.js:221 | sorting distinct strings gives a strictly ascending sequence of the same strings |

## Left out

- React state semantics are not modelled. Every store call reads the `blocks` of the last render, and React batches the updates. The model runs store calls one after another on the class. So `changeType`'s delete followed by add behaves as two sequential operations, whereas in the browser both calls start from the same render's `blocks` and the add's `setBlocks` overwrites the delete's, so the delete is dropped.
- `useId`, `Date.now()` and `new Date()` are parameters. New block ids are `baseId-block-<clock>`, and nothing makes them unique.
- `updateBlock`'s `Partial<Block>` is modelled as a patch of the variant fields (content, level, language, list type, items, variant, url, alt, caption, platform). A patch that changes a block's `id` or `type` cannot be expressed.
- The content of headings, paragraphs and callouts is `RichText` (a string or styled segments), because the editor and the renderers use it that way. The type declarations spell it as `string`.
- JSON encoding of the `tags` and `content` columns is the identity. `JSON_CONTAINS(tags, ?)` is membership in the tag array, and a NULL tags column matches nothing.
- String functions are ASCII only: `trim`, `toLowerCase`, `parseInt`, `split`, `join` and the default `sort` order (by character code). The exception is the two non-ASCII characters that lower-case into `[a-z]`. Full Unicode white space, case mapping and UTF-16 code-unit order are not modelled.
- `parseInt` handles signs, leading white space and leading digits. Other radix prefixes and exponent forms are not modelled.
- Values that are not strings or integers are not modelled. Examples are a `null` slug in `validateArticleUpdate` (the JavaScript would throw on `.trim()`), a non-boolean `published`, or a year stored as a string (the validators' non-integer branch is modelled). Request bodies are typed: absent is `None`, and a year is absent, an integer or a non-integer.
- BlockTypeMenu.ChangeType: the `onClose()` call after the two store calls only hides the menu, which is view state, so it is not modelled.
- Responses.PaginatedResponse: `parseInt` of page and limit is taken as already done, with integer arguments; the function has no caller in the server, so no call site fixes what it is given. A zero limit gives `None` where JavaScript gives `Infinity` or `NaN`.
- ArticleModel.ArticleTable.FindAll: a negative LIMIT or OFFSET is modelled as a failed query. MySQL's exact error text is not modelled.
- ArticleController.UpdateArticle: the 500 "update failed" branch is not produced. It needs the row to vanish between `findById` and `update`, and the sequential model has no concurrent writer. The model's `Update` still reports `false` for an unknown id.
- The MySQL pool, transactions and `created_at`/`updated_at` maintenance are not modelled. `updated_at` is an ordinary column that only the admin listing reads.
- The logger and asyncHandler are not modelled, nor is the app, route and server wiring.
- JWT signing (`generateToken`) is not modelled. `jwt.verify` is an oracle parameter; token expiry and signature checking live inside it.
- The network, storage, orchestration, DOM and editing UI are not modelled. This covers `api.ts`, `admin.ts`, `AuthContext`, `useArticles`, `ArticleEditor`'s save and publish handlers, `RichTextEditor`, `FloatingToolbar`, `DragHandle` and the per-block renderers.
- The auto-save scheduler is not modelled. It is not part of EditorContext's store.
- The table-of-contents scroll spy and the drag midpoint (`before`/`after`) are not modelled, because they are floating-point layout. The drop position is an input.
- The focus move after Enter (`setTimeout`) and the menu's visual state are not modelled.
