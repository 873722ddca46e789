/** The class names for a segment's styles and the span structure rich text renders to. */
module RichTextRenderer {
  import opened Wrappers
  import opened Strings
  import opened ContentModel

  /** The classes `getStyleClasses` can emit, one per setting. */
  datatype StyleClass = BoldClass | ItalicClass | UnderlineClass | StrikethroughClass | CodeClass
                      | TextColorClass(color: Color) | BackgroundClass(background: Color) | BackgroundPadding

  /** The colour word the palette uses in class names; brown is drawn with Tailwind's amber. */
  function Hue(c: Color): string
  {
    match c
    case Default => ""
    case Gray => "gray"
    case Brown => "amber"
    case Orange => "orange"
    case Yellow => "yellow"
    case Green => "green"
    case Blue => "blue"
    case Purple => "purple"
    case Pink => "pink"
    case Red => "red"
  }

  /** `colorClasses`: shade 600 (700 for brown) in light mode, 400 in dark mode; nothing for the
      default colour. */
  function ColorName(c: Color): string
  {
    if c == Default then ""
    else "text-" + Hue(c) + (if c == Brown then "-700" else "-600") + " dark:text-" + Hue(c) + "-400"
  }

  /** `backgroundClasses`: shade 200 in light mode, a translucent 900 in dark mode (a solid 700
      for gray); nothing for the default colour. */
  function BackgroundName(c: Color): string
  {
    if c == Default then ""
    else "bg-" + Hue(c) + "-200 dark:bg-" + Hue(c) + (if c == Gray then "-700" else "-900/30")
  }

  /** The two entries that break the pattern: brown text and gray background. */
  lemma IrregularEntries()
    ensures ColorName(Brown) == "text-amber-700 dark:text-amber-400"
    ensures BackgroundName(Gray) == "bg-gray-200 dark:bg-gray-700"
  {
  }

  /** The class-name text of each class. */
  function Name(c: StyleClass): string
  {
    match c
    case BoldClass => "font-bold"
    case ItalicClass => "italic"
    case UnderlineClass => "underline"
    case StrikethroughClass => "line-through"
    case CodeClass => "font-mono bg-gray-100 dark:bg-gray-800 px-1.5 py-0.5 rounded text-sm"
    case TextColorClass(k) => ColorName(k)
    case BackgroundClass(k) => BackgroundName(k)
    case BackgroundPadding => "px-1"
  }

  function Names(l: seq<StyleClass>): (r: seq<string>)
    ensures |r| == |l| && forall i :: 0 <= i < |l| ==> r[i] == Name(l[i])
  {
    if |l| == 0 then [] else Names(l[..|l| - 1]) + [Name(l[|l| - 1])]
  }

  lemma NamesPush(l: seq<StyleClass>, c: StyleClass)
    ensures Names(l + [c]) == Names(l) + [Name(c)]
  {
    assert (l + [c])[..|l|] == l;
  }

  /** Whether a colour setting counts: present and not `default`. */
  predicate Colored(c: Option<Color>)
  {
    c.Some? && c.value != Default
  }

  /** A class if its setting is on. */
  function When(on: bool, c: StyleClass): seq<StyleClass>
  {
    if on then [c] else []
  }

  /** The classes of the five flags, in the order bold, italic, underline, strikethrough, code. */
  function FlagClasses(st: TextStyle): seq<StyleClass>
  {
    When(st.bold, BoldClass) + When(st.italic, ItalicClass) + When(st.underline, UnderlineClass) +
    When(st.strikethrough, StrikethroughClass) + When(st.code, CodeClass)
  }

  function ColorClasses(c: Option<Color>): seq<StyleClass>
  {
    if Colored(c) then [TextColorClass(c.value)] else []
  }

  function BackgroundClasses(c: Option<Color>): seq<StyleClass>
  {
    if Colored(c) then [BackgroundClass(c.value), BackgroundPadding] else []
  }

  /** The classes for `styles`, in the fixed order flags, colour, background. */
  function StyleClassList(styles: Option<TextStyle>): seq<StyleClass>
  {
    match styles
    case None => []
    case Some(st) => FlagClasses(st) + ColorClasses(st.color) + BackgroundClasses(st.backgroundColor)
  }

  /** The flag classes are exactly the classes of the flags that are set. */
  lemma FlagClassesExact(st: TextStyle)
    ensures forall x :: x in FlagClasses(st) <==>
      (x == BoldClass && st.bold) || (x == ItalicClass && st.italic) || (x == UnderlineClass && st.underline) ||
      (x == StrikethroughClass && st.strikethrough) || (x == CodeClass && st.code)
  {
    var a, b, c := When(st.bold, BoldClass), When(st.italic, ItalicClass), When(st.underline, UnderlineClass);
    var d, e := When(st.strikethrough, StrikethroughClass), When(st.code, CodeClass);
    assert forall x :: x in a + b + c + d + e <==> x in a || x in b || x in c || x in d || x in e;
  }

  /** The classes present are exactly those of the settings that are on: a flag's class iff the
      flag is set, the chosen text colour's class iff it is not the default, and the chosen
      background's class with the padding iff it is not the default. */
  lemma StyleClassesExact(st: TextStyle)
    ensures forall x :: x in StyleClassList(Some(st)) <==>
      (x == BoldClass && st.bold) || (x == ItalicClass && st.italic) || (x == UnderlineClass && st.underline) ||
      (x == StrikethroughClass && st.strikethrough) || (x == CodeClass && st.code) ||
      (Colored(st.color) && x == TextColorClass(st.color.value)) ||
      (Colored(st.backgroundColor) && (x == BackgroundClass(st.backgroundColor.value) || x == BackgroundPadding))
  {
    FlagClassesExact(st);
    var f, k, g := FlagClasses(st), ColorClasses(st.color), BackgroundClasses(st.backgroundColor);
    assert forall x :: x in f + k + g <==> x in f || x in k || x in g;
  }

  /** The number of classes counts the settings that are on; absent styles give none. */
  lemma StyleClassCount(st: TextStyle)
    ensures |StyleClassList(Some(st))| ==
      (if st.bold then 1 else 0) + (if st.italic then 1 else 0) + (if st.underline then 1 else 0) +
      (if st.strikethrough then 1 else 0) + (if st.code then 1 else 0) +
      (if Colored(st.color) then 1 else 0) + (if Colored(st.backgroundColor) then 2 else 0)
    ensures StyleClassList(None) == []
  {
  }

  /** The class string: the names joined with single spaces. */
  function ClassString(styles: Option<TextStyle>): string
  {
    Join(Names(StyleClassList(styles)), " ")
  }

  /** Bold alone yields just its class name. */
  lemma BoldOnlyClassString()
    ensures ClassString(Some(TextStyle(true, false, false, false, false, None, Some(Default)))) == "font-bold"
  {
    assert StyleClassList(Some(TextStyle(true, false, false, false, false, None, Some(Default)))) == [BoldClass];
    NamesPush([], BoldClass);
  }

  /** `getStyleClasses`: pushes the class of each setting that is on, in order, then joins
      their names with single spaces. */
  method GetStyleClasses(styles: Option<TextStyle>) returns (r: string)
    ensures r == ClassString(styles)
    ensures styles.None? ==> r == ""
  {
    if styles.None? {
      return "";
    }
    var st := styles.value;
    var classes: seq<StyleClass> := [];
    classes := classes + When(st.bold, BoldClass);
    classes := classes + When(st.italic, ItalicClass);
    classes := classes + When(st.underline, UnderlineClass);
    classes := classes + When(st.strikethrough, StrikethroughClass);
    classes := classes + When(st.code, CodeClass);
    assert classes == FlagClasses(st);
    ghost var flags := classes;
    if st.color.Some? && st.color.value != Default {
      classes := classes + [TextColorClass(st.color.value)];
    }
    assert classes == flags + ColorClasses(st.color);
    ghost var colored := classes;
    if st.backgroundColor.Some? && st.backgroundColor.value != Default {
      classes := classes + [BackgroundClass(st.backgroundColor.value), BackgroundPadding];
    }
    assert classes == colored + BackgroundClasses(st.backgroundColor);
    assert classes == StyleClassList(styles);
    r := Join(Names(classes), " ");
  }

  /** An inner span: its class and its text. */
  datatype SegmentSpan = SegmentSpan(className: string, text: string)

  /** What `RichTextRenderer` produces: one span holding the string, or one span whose children
      are one span per segment. */
  datatype Rendered = TextSpan(className: string, text: string) | SegmentSpans(className: string, children: seq<SegmentSpan>)

  function Render(content: RichText, className: string): (r: Rendered)
    ensures content.Plain? ==> r == TextSpan(className, content.text)
    ensures content.Segments? ==>
      (r.SegmentSpans? && r.className == className && |r.children| == |content.segments| &&
       forall i :: 0 <= i < |r.children| ==>
         r.children[i] == SegmentSpan(ClassString(content.segments[i].styles), content.segments[i].text))
  {
    match content
    case Plain(s) => TextSpan(className, s)
    case Segments(segs) =>
      SegmentSpans(className, seq(|segs|, i requires 0 <= i < |segs| => SegmentSpan(ClassString(segs[i].styles), segs[i].text)))
  }

  /** The text shown, read in order. */
  function SpansText(children: seq<SegmentSpan>): string
  {
    if |children| == 0 then "" else children[0].text + SpansText(children[1..])
  }

  function RenderedText(r: Rendered): string
  {
    match r
    case TextSpan(_, t) => t
    case SegmentSpans(_, children) => SpansText(children)
  }

  lemma {:induction false} SpansTextOfSegments(segs: seq<TextSegment>, children: seq<SegmentSpan>)
    requires |children| == |segs| && forall i :: 0 <= i < |segs| ==> children[i].text == segs[i].text
    ensures SpansText(children) == SegmentsText(segs)
  {
    if |segs| > 0 {
      SpansTextOfSegments(segs[1..], children[1..]);
    }
  }

  /** Rendering shows exactly the text of the rich text, whatever the styles. */
  lemma RenderShowsText(content: RichText, className: string)
    ensures RenderedText(Render(content, className)) == PlainText(content)
  {
    if content.Segments? {
      SpansTextOfSegments(content.segments, Render(content, className).children);
    }
  }
}
