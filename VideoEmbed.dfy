/** The iframe address a video block embeds: the address's video id found by a leftmost search,
    in place of the regular expressions the player uses. */
module VideoEmbed {
  import opened Wrappers
  import opened Strings
  import opened ContentModel

  /** `p` occurs in `s` starting at index `i`. */
  predicate StartsAt(s: string, i: nat, p: string)
  {
    i + |p| <= |s| && s[i..i + |p|] == p
  }

  lemma StartsAtFirst(s: string, i: nat, p: string)
    requires StartsAt(s, i, p) && |p| > 0
    ensures s[i] == p[0]
  {
    assert s[i..i + |p|][0] == s[i];
  }

  /** `\w` and `-`. */
  predicate IsIdChar(ch: char)
  {
    'A' <= ch <= 'Z' || 'a' <= ch <= 'z' || '0' <= ch <= '9' || ch == '_' || ch == '-'
  }

  /** The four address forms before a YouTube id; they all begin with `y` and no two can start
      at the same index. */
  const YouTubePrefixes: seq<string> := ["youtu.be/", "youtube.com/embed/", "youtube.com/v/", "youtube.com/watch?v="]

  const YouTubeIdLength := 11

  /** The prefix found at `i`, trying the forms in order. */
  function PrefixAt(s: string, i: nat): (r: Option<string>)
    ensures r.Some? ==> r.value in YouTubePrefixes && StartsAt(s, i, r.value)
    ensures r.None? ==> forall p :: p in YouTubePrefixes ==> !StartsAt(s, i, p)
  {
    if StartsAt(s, i, YouTubePrefixes[0]) then Some(YouTubePrefixes[0])
    else if StartsAt(s, i, YouTubePrefixes[1]) then Some(YouTubePrefixes[1])
    else if StartsAt(s, i, YouTubePrefixes[2]) then Some(YouTubePrefixes[2])
    else if StartsAt(s, i, YouTubePrefixes[3]) then Some(YouTubePrefixes[3])
    else None
  }

  /** The YouTube pattern matches at `i`: a prefix, then eleven id characters. */
  predicate YouTubeMatchAt(s: string, i: nat)
  {
    PrefixAt(s, i).Some? &&
    var k := i + |PrefixAt(s, i).value|;
    k + YouTubeIdLength <= |s| && forall j :: k <= j < k + YouTubeIdLength ==> IsIdChar(s[j])
  }

  /** The captured id of a match at `i`. */
  function YouTubeIdAt(s: string, i: nat): (r: string)
    requires YouTubeMatchAt(s, i)
    ensures |r| == YouTubeIdLength && forall j :: 0 <= j < |r| ==> IsIdChar(r[j])
  {
    var k := i + |PrefixAt(s, i).value|;
    s[k..k + YouTubeIdLength]
  }

  /** The leftmost index at or after `i` where the YouTube pattern matches. */
  function FindYouTube(s: string, i: nat): (r: Option<nat>)
    requires i <= |s|
    ensures r.Some? ==>
      (i <= r.value <= |s| && YouTubeMatchAt(s, r.value) && forall j :: i <= j < r.value ==> !YouTubeMatchAt(s, j))
    ensures r.None? ==> forall j :: i <= j <= |s| ==> !YouTubeMatchAt(s, j)
    decreases |s| - i
  {
    if YouTubeMatchAt(s, i) then Some(i)
    else if i == |s| then None
    else FindYouTube(s, i + 1)
  }

  /** The Vimeo pattern matches at `i`: `vimeo.com/` and at least one digit. */
  predicate VimeoMatchAt(s: string, i: nat)
  {
    StartsAt(s, i, "vimeo.com/") && i + 10 < |s| && IsDigit(s[i + 10])
  }

  /** The longest run of digits starting at `k`. */
  function DigitRun(s: string, k: nat): (r: string)
    requires k <= |s|
    ensures k + |r| <= |s| && r == s[k..k + |r|]
    ensures forall j :: 0 <= j < |r| ==> IsDigit(r[j])
    ensures k + |r| == |s| || !IsDigit(s[k + |r|])
    decreases |s| - k
  {
    if k < |s| && IsDigit(s[k]) then [s[k]] + DigitRun(s, k + 1) else ""
  }

  function FindVimeo(s: string, i: nat): (r: Option<nat>)
    requires i <= |s|
    ensures r.Some? ==>
      (i <= r.value < |s| && VimeoMatchAt(s, r.value) && forall j :: i <= j < r.value ==> !VimeoMatchAt(s, j))
    ensures r.None? ==> forall j :: i <= j <= |s| ==> !VimeoMatchAt(s, j)
    decreases |s| - i
  {
    if VimeoMatchAt(s, i) then Some(i)
    else if i == |s| then None
    else FindVimeo(s, i + 1)
  }

  const YouTubeEmbedBase := "https://www.youtube.com/embed/"
  const VimeoEmbedBase := "https://player.vimeo.com/video/"

  /** `getEmbedUrl`: the platform picks the pattern; without a match the address is kept. */
  function EmbedUrl(url: string, platform: Platform): (r: string)
    ensures platform == YouTube && FindYouTube(url, 0).None? ==> r == url
    ensures platform == YouTube && FindYouTube(url, 0).Some? ==>
      r == YouTubeEmbedBase + YouTubeIdAt(url, FindYouTube(url, 0).value) && |r| == |YouTubeEmbedBase| + 11
    ensures platform == Vimeo && FindVimeo(url, 0).None? ==> r == url
    ensures platform == Vimeo && FindVimeo(url, 0).Some? ==>
      r == VimeoEmbedBase + DigitRun(url, FindVimeo(url, 0).value + 10) && |r| > |VimeoEmbedBase|
  {
    match platform
    case YouTube =>
      (match FindYouTube(url, 0)
       case None => url
       case Some(i) => YouTubeEmbedBase + YouTubeIdAt(url, i))
    case Vimeo =>
      (match FindVimeo(url, 0)
       case None => url
       case Some(i) => VimeoEmbedBase + DigitRun(url, i + 10))
  }

  /** No YouTube match can start at a character other than `y`. */
  lemma YouTubeMatchStartsWithY(s: string, j: nat)
    requires YouTubeMatchAt(s, j)
    ensures s[j] == 'y'
  {
    StartsAtFirst(s, j, PrefixAt(s, j).value);
  }

  lemma StartsAtChar(s: string, i: nat, p: string, d: nat)
    requires StartsAt(s, i, p) && d < |p|
    ensures s[i + d] == p[d]
  {
    assert s[i..i + |p|][d] == s[i + d];
  }

  /** The four forms exclude each other, so the one occurring at `i` is the one found there. */
  lemma PrefixAtOf(s: string, i: nat, p: string)
    requires p in YouTubePrefixes && StartsAt(s, i, p)
    ensures PrefixAt(s, i) == Some(p)
  {
    var q := PrefixAt(s, i).value;
    if q != p {
      if p == YouTubePrefixes[0] || q == YouTubePrefixes[0] {
        StartsAtChar(s, i, p, 5);
        StartsAtChar(s, i, q, 5);
      } else {
        StartsAtChar(s, i, p, 12);
        StartsAtChar(s, i, q, 12);
      }
    }
  }

  /** The search from `k` stops at the first match. */
  lemma {:induction false} FindYouTubeAt(s: string, k: nat, i: nat)
    requires k <= i <= |s| && YouTubeMatchAt(s, i)
    requires forall j :: k <= j < i ==> !YouTubeMatchAt(s, j)
    ensures FindYouTube(s, k) == Some(i)
    decreases i - k
  {
    if k < i {
      FindYouTubeAt(s, k + 1, i);
    }
  }

  /** An address with one of the four forms followed by an eleven-character id, and no `y`
      before it, embeds that id; whatever follows the id is ignored. */
  lemma YouTubeLinkRecognised(pre: string, p: string, id: string, rest: string)
    requires 'y' !in pre && p in YouTubePrefixes
    requires |id| == YouTubeIdLength && forall j :: 0 <= j < |id| ==> IsIdChar(id[j])
    ensures EmbedUrl(pre + p + id + rest, YouTube) == YouTubeEmbedBase + id
  {
    var s := pre + p + id + rest;
    var i := |pre|;
    assert s[i..i + |p|] == p;
    PrefixAtOf(s, i, p);
    var k := i + |p|;
    forall j | k <= j < k + YouTubeIdLength ensures IsIdChar(s[j]) {
      assert s[j] == id[j - k];
    }
    assert YouTubeMatchAt(s, i);
    forall j | 0 <= j < i ensures !YouTubeMatchAt(s, j) {
      assert s[j] == pre[j];
      if YouTubeMatchAt(s, j) { YouTubeMatchStartsWithY(s, j); }
    }
    FindYouTubeAt(s, 0, i);
    assert s[k..k + YouTubeIdLength] == id;
  }

  /** An embed address is its own embed address. */
  lemma YouTubeEmbedOfEmbed(id: string)
    requires |id| == YouTubeIdLength && forall j :: 0 <= j < |id| ==> IsIdChar(id[j])
    ensures EmbedUrl(YouTubeEmbedBase + id, YouTube) == YouTubeEmbedBase + id
  {
    var pre := "https://www.";
    assert YouTubeEmbedBase == pre + YouTubePrefixes[1];
    assert 'y' !in pre;
    YouTubeLinkRecognised(pre, YouTubePrefixes[1], id, "");
    assert pre + YouTubePrefixes[1] + id + "" == YouTubeEmbedBase + id;
  }

  /** Embedding an address twice gives what embedding it once gives. */
  lemma YouTubeEmbedIdempotent(url: string)
    ensures EmbedUrl(EmbedUrl(url, YouTube), YouTube) == EmbedUrl(url, YouTube)
  {
    if FindYouTube(url, 0).Some? {
      YouTubeEmbedOfEmbed(YouTubeIdAt(url, FindYouTube(url, 0).value));
    }
  }

  /** No Vimeo match can start at a character other than `v`. */
  lemma VimeoMatchStartsWithV(s: string, j: nat)
    requires VimeoMatchAt(s, j)
    ensures s[j] == 'v'
  {
    StartsAtFirst(s, j, "vimeo.com/");
  }

  /** A Vimeo match with none before it is the one the search finds. */
  lemma FirstVimeoAt(s: string, i: nat)
    requires VimeoMatchAt(s, i) && forall j :: 0 <= j < i ==> !VimeoMatchAt(s, j)
    ensures FindVimeo(s, 0) == Some(i)
  {
    assert FindVimeo(s, 0).Some?;
  }

  /** No `v` before index `i` means no Vimeo match before it. */
  lemma NoVimeoBefore(s: string, i: nat)
    requires i <= |s| && forall j :: 0 <= j < i ==> s[j] != 'v'
    ensures forall j :: 0 <= j < i ==> !VimeoMatchAt(s, j)
  {
    forall j | 0 <= j < i ensures !VimeoMatchAt(s, j) {
      if VimeoMatchAt(s, j) { VimeoMatchStartsWithV(s, j); }
    }
  }

  /** `vimeo.com/` and a maximal run of digits, with no `v` before it, embeds those digits. */
  lemma VimeoLinkRecognised(pre: string, digits: string, rest: string)
    requires 'v' !in pre && |digits| >= 1 && forall j :: 0 <= j < |digits| ==> IsDigit(digits[j])
    requires |rest| == 0 || !IsDigit(rest[0])
    ensures EmbedUrl(pre + "vimeo.com/" + digits + rest, Vimeo) == VimeoEmbedBase + digits
  {
    var s := pre + "vimeo.com/" + digits + rest;
    var i := |pre|;
    var tail := "vimeo.com/" + digits + rest;
    assert s == pre + tail;
    assert s[i..] == tail;
    assert s[i..i + 10] == tail[..10] == "vimeo.com/";
    assert s[i + 10] == tail[10] == digits[0];
    assert forall j :: 0 <= j < i ==> s[j] == pre[j];
    NoVimeoBefore(s, i);
    FirstVimeoAt(s, i);
    assert s[i + 10..i + 10 + |digits|] == tail[10..10 + |digits|] == digits;
    assert |rest| > 0 ==> s[i + 10 + |digits|] == rest[0];
    DigitRunOf(s, i + 10, digits);
  }

  lemma {:induction false} DigitRunOf(s: string, k: nat, digits: string)
    requires k + |digits| <= |s| && s[k..k + |digits|] == digits
    requires forall j :: 0 <= j < |digits| ==> IsDigit(digits[j])
    requires k + |digits| == |s| || !IsDigit(s[k + |digits|])
    ensures DigitRun(s, k) == digits
    decreases |digits|
  {
    if |digits| > 0 {
      assert s[k] == digits[0];
      assert s[k + 1..k + 1 + |digits[1..]|] == digits[1..];
      DigitRunOf(s, k + 1, digits[1..]);
    }
  }

  /** The platform picks the pattern: a short YouTube address under the Vimeo platform is left
      as it is. */
  lemma YouTubeLinkUnderVimeo(id: string)
    requires |id| == YouTubeIdLength && forall j :: 0 <= j < |id| ==> IsIdChar(id[j])
    ensures EmbedUrl("https://youtu.be/" + id, Vimeo) == "https://youtu.be/" + id
  {
    var pre := "https://youtu.be/";
    var s := pre + id;
    forall j | 0 <= j <= |s| ensures !VimeoMatchAt(s, j) {
      if VimeoMatchAt(s, j) {
        VimeoMatchStartsWithV(s, j);
        StartsAtChar(s, j, "vimeo.com/", 5);
      }
    }
    assert FindVimeo(s, 0).None?;
  }
}
