/** The article metadata form: what each input shows and the patch each change sends. */
module MetadataForm {
  import opened Wrappers
  import opened Strings
  import opened ContentModel
  import opened EditorStore

  /** What `toLowerCase()` followed by removing every character outside `[a-z0-9-]` keeps of one
      character. Besides `A`-`Z`, only U+0130 (lower case `i` plus a combining dot) and the Kelvin
      sign U+212A (lower case `k`) lower-case into that range. */
  function SlugChar(ch: char): (r: string)
    ensures |r| <= 1
    ensures forall i :: 0 <= i < |r| ==> IsSlugChar(r[i])
    ensures IsSlugChar(ch) ==> r == [ch]
  {
    if 'A' <= ch <= 'Z' then [(ch as int + 32) as char]
    else if IsSlugChar(ch) then [ch]
    else if ch == '\U{130}' then "i"
    else if ch == '\U{212A}' then "k"
    else ""
  }

  /** The slug input's change handler. */
  function SlugInput(s: string): (r: string)
    ensures |r| <= |s|
    ensures forall i :: 0 <= i < |r| ==> IsSlugChar(r[i])
  {
    if |s| == 0 then "" else SlugChar(s[0]) + SlugInput(s[1..])
  }

  lemma {:induction false} SlugInputAppend(a: string, b: string)
    ensures SlugInput(a + b) == SlugInput(a) + SlugInput(b)
  {
    if |a| == 0 {
      assert a + b == b;
    } else {
      assert (a + b)[1..] == a[1..] + b;
      SlugInputAppend(a[1..], b);
    }
  }

  /** A string is left as it is exactly when it already consists of slug characters. */
  lemma {:induction false} SlugInputFixes(s: string)
    ensures SlugInput(s) == s <==> forall i :: 0 <= i < |s| ==> IsSlugChar(s[i])
  {
    if |s| > 0 {
      SlugInputFixes(s[1..]);
      if SlugInput(s) == s {
        assert |SlugChar(s[0])| == 1;
        assert SlugInput(s[1..]) == s[1..];
      }
      if forall i :: 0 <= i < |s| ==> IsSlugChar(s[i]) {
        assert forall i :: 0 <= i < |s[1..]| ==> IsSlugChar(s[1..][i]) by {
          forall i | 0 <= i < |s[1..]| ensures IsSlugChar(s[1..][i]) { assert s[1..][i] == s[i + 1]; }
        }
      }
    }
  }

  /** Typing into an already cleaned slug changes nothing a second time, and a non-empty
      result is in the server's slug format. */
  lemma SlugInputIdempotent(s: string)
    ensures SlugInput(SlugInput(s)) == SlugInput(s)
    ensures SlugInput(s) != "" ==> IsSlug(SlugInput(s))
  {
    SlugInputFixes(SlugInput(s));
  }

  /** ASCII capitals come out as their lower-case letters, in place: the slug keeps the order of
      the characters that survive. */
  lemma SlugInputLowercases(a: string, ch: char, b: string)
    requires 'A' <= ch <= 'Z'
    ensures SlugInput(a + [ch] + b) == SlugInput(a) + [(ch as int + 32) as char] + SlugInput(b)
  {
    SlugInputAppend(a + [ch], b);
    SlugInputAppend(a, [ch]);
  }

  /** The year input's change handler: `parseInt(value) || currentYear`, so an unparsable entry
      and zero both fall back to the current year. */
  function YearInput(value: string, currentYear: int): (r: int)
    ensures (ParseInt(value).None? || ParseInt(value) == Some(0)) ==> r == currentYear
    ensures ParseInt(value).Some? && ParseInt(value).value != 0 ==> r == ParseInt(value).value
  {
    match ParseInt(value)
    case None => currentYear
    case Some(n) => if n == 0 then currentYear else n
  }

  /** A positive year typed in decimal is taken as it is. */
  lemma YearInputOfTypedYear(n: nat, currentYear: int)
    requires n > 0
    ensures YearInput(NatToString(n), currentYear) == n
  {
    ParseIntOfNatToString(n);
  }

  /** What the year input shows: `article.year || currentYear`. */
  function YearShown(year: int, currentYear: int): int
  {
    if year == 0 then currentYear else year
  }

  /** The tags input shows the tags joined with ", ". */
  function TagsShown(tags: seq<string>): string
  {
    Join(tags, ", ")
  }

  /** `.map(t => t.trim()).filter(t => t)` over the pieces of the input. */
  function CleanTags(parts: seq<string>): (r: seq<string>)
    ensures |r| <= |parts|
    ensures forall i :: 0 <= i < |r| ==> r[i] != "" && IsTrimmed(r[i])
    ensures (forall i :: 0 <= i < |parts| ==> ',' !in parts[i]) ==> forall i :: 0 <= i < |r| ==> ',' !in r[i]
  {
    if |parts| == 0 then []
    else
      var t := Trim(parts[0]);
      TrimIsTrimmed(parts[0]);
      TrimShrinks(parts[0]);
      (if t == "" then [] else [t]) + CleanTags(parts[1..])
  }

  lemma TrimShrinks(s: string)
    ensures ',' in Trim(s) ==> ',' in s
  {
    TrimStartShape(s);
    TrimEndShape(TrimStart(s));
    TrimEndPrefix(TrimStart(s));
  }

  lemma {:induction false} TrimEndPrefix(s: string)
    ensures |TrimEnd(s)| <= |s| && TrimEnd(s) == s[..|TrimEnd(s)|]
  {
    if |s| > 0 && IsSpace(s[|s| - 1]) {
      TrimEndPrefix(s[..|s| - 1]);
      assert s[..|s| - 1][..|TrimEnd(s)|] == s[..|TrimEnd(s)|];
    }
  }

  /** Cleaning works piece by piece: the tags of two runs of pieces are the tags of the first
      run followed by those of the second, so the tags keep the order in which they were typed. */
  lemma {:induction false} CleanTagsAppend(a: seq<string>, b: seq<string>)
    ensures CleanTags(a + b) == CleanTags(a) + CleanTags(b)
  {
    if |a| > 0 {
      assert (a + b)[0] == a[0];
      assert (a + b)[1..] == a[1..] + b;
      CleanTagsAppend(a[1..], b);
    } else {
      assert a + b == b;
    }
  }

  /** One piece gives its trimmed text as a tag, or nothing when it is only spaces. */
  lemma CleanTagsOne(s: string)
    ensures CleanTags([s]) == if Trim(s) == "" then [] else [Trim(s)]
  {
    assert [s][1..] == [];
  }

  /** The tags input's change handler: `split(',')`, trim each piece, drop the empty ones. */
  function TagsInput(value: string): (r: seq<string>)
    ensures forall i :: 0 <= i < |r| ==> r[i] != "" && IsTrimmed(r[i]) && ',' !in r[i]
  {
    CleanTags(Split(value, ','))
  }

  function Spaced(tags: seq<string>): (r: seq<string>)
    ensures |r| == |tags| && forall i :: 0 <= i < |r| ==> r[i] == " " + tags[i]
  {
    if |tags| == 0 then [] else [" " + tags[0]] + Spaced(tags[1..])
  }

  lemma {:induction false} JoinSpaced(tags: seq<string>)
    requires |tags| >= 1
    ensures " " + Join(tags, ", ") == Join(Spaced(tags), ",")
  {
    if |tags| > 1 {
      JoinSpaced(tags[1..]);
      assert Spaced(tags)[1..] == Spaced(tags[1..]);
      calc {
        " " + Join(tags, ", ");
        " " + (tags[0] + ", " + Join(tags[1..], ", "));
        (" " + tags[0]) + "," + (" " + Join(tags[1..], ", "));
        Join(Spaced(tags), ",");
      }
    }
  }

  lemma {:induction false} CleanSpaced(tags: seq<string>)
    requires forall i :: 0 <= i < |tags| ==> tags[i] != "" && IsTrimmed(tags[i])
    ensures CleanTags(Spaced(tags)) == tags
  {
    if |tags| > 0 {
      TrimSkipsLeadingSpace(' ', tags[0]);
      TrimOfTrimmed(tags[0]);
      assert Spaced(tags)[1..] == Spaced(tags[1..]);
      CleanSpaced(tags[1..]);
    }
  }

  /** Showing a list of clean tags and reading the shown text back gives the same list. */
  lemma TagsRoundTrip(tags: seq<string>)
    requires forall i :: 0 <= i < |tags| ==> tags[i] != "" && IsTrimmed(tags[i]) && ',' !in tags[i]
    ensures TagsInput(TagsShown(tags)) == tags
  {
    if |tags| == 0 {
      assert Split("", ',') == [""];
    } else {
      var parts := [tags[0]] + Spaced(tags[1..]);
      if |tags| == 1 {
        assert Join(parts, ",") == tags[0] == Join(tags, ", ");
      } else {
        JoinSpaced(tags[1..]);
        assert parts[1..] == Spaced(tags[1..]);
        assert Join(parts, ",") == tags[0] + "," + Join(Spaced(tags[1..]), ",");
        assert Join(tags, ", ") == tags[0] + "," + (" " + Join(tags[1..], ", "));
      }
      SplitJoin(parts, ',');
      TrimOfTrimmed(tags[0]);
      assert parts[1..] == Spaced(tags[1..]);
      CleanSpaced(tags[1..]);
    }
  }

  /** Whatever was typed, the tags it yields survive being shown and read back. */
  lemma TagsInputStable(value: string)
    ensures TagsInput(TagsShown(TagsInput(value))) == TagsInput(value)
  {
    TagsRoundTrip(TagsInput(value));
  }

  /** The inputs of the form. */
  datatype FormField = TitleField | SlugField | YearField | ConferenceField | SpeakerField | DateField
                     | SummaryField | TagsField | VideoUrlField | ThumbnailField

  /** The `updateMetadata` argument an input's change sends: the one field it edits. */
  function FieldPatch(field: FormField, value: string, currentYear: int): (p: ArticlePatch)
    ensures field == SlugField <==> p.slug.Some?
    ensures field == YearField <==> p.year.Some?
    ensures field == TagsField <==> p.tags.Some?
    ensures field == TitleField <==> p.title.Some?
    ensures field == ConferenceField <==> p.conference.Some?
    ensures field == SpeakerField <==> p.speaker.Some?
    ensures field == DateField <==> p.date.Some?
    ensures field == SummaryField <==> p.summary.Some?
    ensures field == VideoUrlField <==> p.videoUrl.Some?
    ensures field == ThumbnailField <==> p.thumbnail.Some?
    ensures p.id.None? && p.content.None? && p.published.None? && p.viewCount.None?
    ensures p.createdAt.None? && p.updatedAt.None?
    ensures p.title.Some? ==> p.title.value == value
    ensures p.conference.Some? ==> p.conference.value == value
    ensures p.speaker.Some? ==> p.speaker.value == value
    ensures p.date.Some? ==> p.date.value == value
    ensures p.summary.Some? ==> p.summary.value == value
    ensures p.videoUrl.Some? ==> p.videoUrl.value == value
    ensures p.thumbnail.Some? ==> p.thumbnail.value == value
    ensures p.slug.Some? ==> p.slug.value == SlugInput(value)
    ensures p.year.Some? ==> p.year.value == YearInput(value, currentYear)
    ensures p.tags.Some? ==> p.tags.value == TagsInput(value)
  {
    match field
    case TitleField => NoChanges.(title := Some(value))
    case SlugField => NoChanges.(slug := Some(SlugInput(value)))
    case YearField => NoChanges.(year := Some(YearInput(value, currentYear)))
    case ConferenceField => NoChanges.(conference := Some(value))
    case SpeakerField => NoChanges.(speaker := Some(value))
    case DateField => NoChanges.(date := Some(value))
    case SummaryField => NoChanges.(summary := Some(value))
    case TagsField => NoChanges.(tags := Some(TagsInput(value)))
    case VideoUrlField => NoChanges.(videoUrl := Some(value))
    case ThumbnailField => NoChanges.(thumbnail := Some(value))
  }

  /** A change in one input of the form, at a moment whose year is `currentYear`. */
  method OnFieldChange(editor: Editor, field: FormField, value: string, currentYear: int)
    modifies editor
    ensures old(editor.article).Some? ==>
      editor.article == Some(MergeArticle(old(editor.article).value, FieldPatch(field, value, currentYear))) && editor.isDirty
    ensures old(editor.article).None? ==> editor.article == None && editor.isDirty == old(editor.isDirty)
    ensures editor.blocks == old(editor.blocks)
  {
    editor.UpdateMetadata(FieldPatch(field, value, currentYear));
  }
}
