/** The article content model: articles, the seven-variant block union and rich text. */
module ContentModel {
  import opened Wrappers

  /** The ten-value palette shared by a text style's colour and background colour. */
  datatype Color = Default | Gray | Brown | Orange | Yellow | Green | Blue | Purple | Pink | Red

  /** Inline formatting. A flag that is absent behaves exactly like `false` (only its
      truthiness is ever tested), so the flags are plain booleans. */
  datatype TextStyle = TextStyle(
    bold: bool,
    italic: bool,
    underline: bool,
    strikethrough: bool,
    code: bool,
    color: Option<Color>,
    backgroundColor: Option<Color>)

  datatype TextSegment = TextSegment(text: string, styles: Option<TextStyle>)

  /** Rich text is a plain string or an ordered sequence of styled segments. */
  datatype RichText = Plain(text: string) | Segments(segments: seq<TextSegment>)

  /** The concatenated texts of `segs`, in order. */
  function SegmentsText(segs: seq<TextSegment>): string
  {
    if |segs| == 0 then "" else segs[0].text + SegmentsText(segs[1..])
  }

  /** The visible string of rich text (`content.map(seg => seg.text).join('')`). */
  function PlainText(r: RichText): string
  {
    match r
    case Plain(s) => s
    case Segments(segs) => SegmentsText(segs)
  }

  lemma {:induction false} SegmentsTextAppend(a: seq<TextSegment>, b: seq<TextSegment>)
    ensures SegmentsText(a + b) == SegmentsText(a) + SegmentsText(b)
  {
    if |a| > 0 {
      SegmentsTextAppend(a[1..], b);
      assert (a + b)[1..] == a[1..] + b;
    } else {
      assert a + b == b;
    }
  }

  /** Styles are presentation only: restyling segments never changes the visible text. */
  lemma {:induction false} RestylePreservesText(segs: seq<TextSegment>, styles: seq<Option<TextStyle>>)
    requires |styles| == |segs|
    ensures SegmentsText(seq(|segs|, i requires 0 <= i < |segs| => segs[i].(styles := styles[i]))) == SegmentsText(segs)
  {
    if |segs| > 0 {
      var restyled := seq(|segs|, i requires 0 <= i < |segs| => segs[i].(styles := styles[i]));
      var tail := seq(|segs| - 1, i requires 0 <= i < |segs| - 1 => segs[1..][i].(styles := styles[1..][i]));
      RestylePreservesText(segs[1..], styles[1..]);
      assert restyled[1..] == tail;
    }
  }

  /** A heading's level is 1, 2 or 3. */
  type HeadingLevel = l: int | 1 <= l <= 3 witness 1

  datatype ListType = Bullet | Numbered | Checkbox
  datatype CalloutVariant = Info | Warning | Error | Success
  datatype Platform = YouTube | Vimeo

  /** The closed block union; every variant carries its `id`. A code block's text is a plain
      string (`source`), never rich text. */
  datatype Block =
    | HeadingBlock(id: string, level: HeadingLevel, content: RichText)
    | ParagraphBlock(id: string, content: RichText)
    | CodeBlock(id: string, language: string, source: string)
    | ListBlock(id: string, listType: ListType, items: seq<RichText>)
    | CalloutBlock(id: string, variant: CalloutVariant, content: RichText)
    | ImageBlock(id: string, url: string, alt: string, caption: Option<string>)
    | VideoBlock(id: string, url: string, platform: Platform)

  /** The `type` discriminant each variant carries in storage. */
  function TypeTag(b: Block): string
  {
    match b
    case HeadingBlock(_, _, _) => "heading"
    case ParagraphBlock(_, _) => "paragraph"
    case CodeBlock(_, _, _) => "code"
    case ListBlock(_, _, _) => "list"
    case CalloutBlock(_, _, _) => "callout"
    case ImageBlock(_, _, _, _) => "image"
    case VideoBlock(_, _, _) => "video"
  }

  /** The server's `BLOCK_TYPES` constant. */
  const ServerBlockTypes: seq<string> := ["heading", "paragraph", "code", "list", "callout", "image", "video"]

  /** The client's block union and the server's block types name the same seven tags. */
  lemma BlockTagsMatchServer()
    ensures forall b: Block :: TypeTag(b) in ServerBlockTypes
    ensures forall t :: t in ServerBlockTypes ==> exists b: Block :: TypeTag(b) == t
    ensures forall i, j :: 0 <= i < j < |ServerBlockTypes| ==> ServerBlockTypes[i] != ServerBlockTypes[j]
  {
    var witnesses := [HeadingBlock("", 1, Plain("")), ParagraphBlock("", Plain("")), CodeBlock("", "", ""),
                      ListBlock("", Bullet, []), CalloutBlock("", Info, Plain("")), ImageBlock("", "", "", None),
                      VideoBlock("", "", YouTube)];
    forall t | t in ServerBlockTypes ensures exists b: Block :: TypeTag(b) == t {
      var k :| 0 <= k < 7 && ServerBlockTypes[k] == t;
      assert TypeTag(witnesses[k]) == t;
    }
  }

  datatype ArticleContent = ArticleContent(blocks: seq<Block>)

  /** An article as the client holds it; `content` is optional. */
  datatype Article = Article(
    id: int,
    title: string,
    slug: string,
    year: int,
    conference: Option<string>,
    speaker: Option<string>,
    date: string,
    summary: Option<string>,
    tags: seq<string>,
    videoUrl: Option<string>,
    thumbnail: Option<string>,
    content: Option<ArticleContent>,
    published: bool,
    viewCount: int,
    createdAt: string,
    updatedAt: string)

  /** The ids of `blocks` are pairwise different. */
  predicate DistinctIds(blocks: seq<Block>)
  {
    forall i, j :: 0 <= i < j < |blocks| ==> blocks[i].id != blocks[j].id
  }

  /** A character the slug format `^[a-z0-9-]+$` allows. */
  predicate IsSlugChar(ch: char)
  {
    'a' <= ch <= 'z' || '0' <= ch <= '9' || ch == '-'
  }

  /** The slug format: at least one character, all of them lower-case ASCII letters, digits or hyphens. */
  predicate IsSlug(s: string)
  {
    |s| >= 1 && forall i :: 0 <= i < |s| ==> IsSlugChar(s[i])
  }
}
