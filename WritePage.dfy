/**
  The editor of `app/write/page.tsx`: the form state, the request payload
  `handleSubmit` builds from it (tags split on commas, slug fallback, series
  default) and the submit step that stores the post and navigates to it.
*/
module WritePage {
  import opened Wrappers
  import opened JsString
  import opened Types
  import opened PostService

  /** The five text inputs of the form. */
  datatype FormData = FormData(title: string, slug: string, content: string, seriesName: string, tagsString: string)

  /** The input `name`s `handleChange` dispatches on. */
  datatype Field = Title | Slug | Content | SeriesName | TagsString

  /** Every field starts as the empty string. */
  const EmptyForm: FormData := FormData("", "", "", "", "")

  function Get(form: FormData, field: Field): string {
    match field
    case Title => form.title
    case Slug => form.slug
    case Content => form.content
    case SeriesName => form.seriesName
    case TagsString => form.tagsString
  }

  /** `{ ...prev, [name]: value }`: one field replaced, the others kept. */
  function WithField(form: FormData, field: Field, value: string): (r: FormData)
    ensures Get(r, field) == value
    ensures forall f :: f != field ==> Get(r, f) == Get(form, f)
  {
    match field
    case Title => form.(title := value)
    case Slug => form.(slug := value)
    case Content => form.(content := value)
    case SeriesName => form.(seriesName := value)
    case TagsString => form.(tagsString := value)
  }

  // ---------------------------------------------------------------------------
  // Tags: tagsString.split(',').map(t => t.trim()).filter(t => t.length > 0)
  // ---------------------------------------------------------------------------

  /** `.map(t => t.trim()).filter(t => t.length > 0)` over the pieces. */
  function TrimNonEmpty(pieces: seq<string>): (tags: seq<string>)
    ensures |tags| <= |pieces|
  {
    if pieces == [] then []
    else
      var t := Trim(pieces[0]);
      (if |t| > 0 then [t] else []) + TrimNonEmpty(pieces[1..])
  }

  /** A tag as the editor sends it: non-empty, with no whitespace at either end. */
  predicate IsTag(t: string) {
    t != [] && !IsWhitespace(t[0]) && !IsWhitespace(t[|t| - 1])
  }

  lemma {:induction false} TrimNonEmptyTags(pieces: seq<string>)
    ensures forall i :: 0 <= i < |TrimNonEmpty(pieces)| ==> IsTag(TrimNonEmpty(pieces)[i])
  {
    if pieces != [] {
      TrimNonEmptyTags(pieces[1..]);
    }
  }

  lemma {:induction false} TrimNonEmptyAppend(ps: seq<string>, qs: seq<string>)
    ensures TrimNonEmpty(ps + qs) == TrimNonEmpty(ps) + TrimNonEmpty(qs)
  {
    if ps == [] {
      assert ps + qs == qs;
    } else {
      assert (ps + qs)[0] == ps[0];
      assert (ps + qs)[1..] == ps[1..] + qs;
      TrimNonEmptyAppend(ps[1..], qs);
    }
  }

  /** Pieces that are already tags pass through unchanged. */
  lemma {:induction false} TrimNonEmptyOfTags(tags: seq<string>)
    requires forall i :: 0 <= i < |tags| ==> IsTag(tags[i])
    ensures TrimNonEmpty(tags) == tags
  {
    if tags != [] {
      TrimOfTrimmed(tags[0]);
      TrimNonEmptyOfTags(tags[1..]);
    }
  }

  function ParseTags(tagsString: string): (tags: seq<string>)
    ensures |tags| <= Count(tagsString, ',') + 1
  {
    SplitCount(tagsString, ',');
    TrimNonEmpty(Split(tagsString, ','))
  }

  /** Every parsed tag is non-empty and has no whitespace at either end. */
  lemma ParsedTagsAreTags(tagsString: string)
    ensures forall i :: 0 <= i < |ParseTags(tagsString)| ==> IsTag(ParseTags(tagsString)[i])
  {
    TrimNonEmptyTags(Split(tagsString, ','));
  }

  /** The tags keep the left-to-right order of the pieces: those before a comma come first. */
  lemma ParseTagsAround(a: string, b: string)
    ensures ParseTags(a + "," + b) == ParseTags(a) + ParseTags(b)
  {
    assert a + "," + b == a + [','] + b;
    SplitAround(a, b, ',');
    TrimNonEmptyAppend(Split(a, ','), Split(b, ','));
  }

  /** Joining tags with commas and parsing again gives back the tags. */
  lemma ParseJoinedTags(tags: seq<string>)
    requires forall i :: 0 <= i < |tags| ==> IsTag(tags[i]) && ',' !in tags[i]
    ensures ParseTags(Join(tags, ',')) == tags
  {
    if tags == [] {
      assert Split([], ',') == [[]];
    } else {
      SplitJoin(tags, ',');
      TrimNonEmptyOfTags(tags);
    }
  }

  /** A piece that trims to nothing adds no tag. */
  lemma TrimNonEmptyBlankHead(p: string, ps: seq<string>)
    requires Trim(p) == []
    ensures TrimNonEmpty([p] + ps) == TrimNonEmpty(ps)
  {
    assert ([p] + ps)[0] == p;
    assert ([p] + ps)[1..] == ps;
  }

  /** One piece gives its trim as a tag, or nothing when it trims to "". */
  lemma TrimNonEmptyOne(p: string)
    ensures TrimNonEmpty([p]) == if Trim(p) == [] then [] else [Trim(p)]
  {
    assert [p][1..] == [];
  }

  /** Text without a comma is one piece: its trim is the only tag, unless it is blank. */
  lemma ParseTagsPiece(p: string)
    requires ',' !in p
    ensures ParseTags(p) == if Trim(p) == [] then [] else [Trim(p)]
  {
    assert IndexOf(p, ',') == |p|;
    SplitWhole(p, ',');
    TrimNonEmptyOne(p);
  }

  /** Whitespace holds no comma. */
  lemma BlankNoComma(ws: string, b: string)
    requires AllWhitespace(ws) && ',' !in b
    ensures ',' !in ws + b
  {
    forall k | 0 <= k < |ws + b| ensures (ws + b)[k] != ',' {
      if k < |ws| {
        assert (ws + b)[k] == ws[k];
      } else {
        assert (ws + b)[k] == b[k - |ws|];
      }
    }
  }

  /** A comma-free tag after blanks parses to that tag alone. */
  lemma ParseTagsBlankTag(ws: string, t: string)
    requires IsTag(t) && ',' !in t && AllWhitespace(ws)
    ensures ParseTags(ws + t) == [t]
  {
    BlankNoComma(ws, t);
    TrimAfterBlank(ws, t);
    ParseTagsPiece(ws + t);
  }

  /** Two comma-free tags, the second after blanks, parse to those two tags: pieces are trimmed, not dropped. */
  lemma ParseTagsTwo(a: string, ws: string, b: string)
    requires IsTag(a) && IsTag(b) && ',' !in a && ',' !in b
    requires AllWhitespace(ws)
    ensures ParseTags(a + "," + (ws + b)) == [a, b]
  {
    ParseTagsAround(a, ws + b);
    assert ParseTags(a) == [a] by {
      ParseTagsBlankTag([], a);
      assert [] + a == a;
    }
    ParseTagsBlankTag(ws, b);
    assert [a] + [b] == [a, b];
  }

  /** The text before the first comma of a string of commas and whitespace is whitespace. */
  lemma BlankHead(s: string)
    requires forall k :: 0 <= k < |s| ==> s[k] == ',' || IsWhitespace(s[k])
    ensures AllWhitespace(s[..IndexOf(s, ',')])
  {
    var k := IndexOf(s, ',');
    IndexOfFirst(s, ',');
    forall j | 0 <= j < k ensures IsWhitespace(s[..k][j]) {
      assert s[..k][j] == s[j];
    }
  }

  /** A suffix of a string of commas and whitespace is one too. */
  lemma BlankSuffix(s: string, i: nat)
    requires i <= |s|
    requires forall k :: 0 <= k < |s| ==> s[k] == ',' || IsWhitespace(s[k])
    ensures forall k :: 0 <= k < |s[i..]| ==> s[i..][k] == ',' || IsWhitespace(s[i..][k])
  {
    forall k | 0 <= k < |s[i..]| ensures s[i..][k] == ',' || IsWhitespace(s[i..][k]) {
      assert s[i..][k] == s[i + k];
    }
  }

  /** Commas and whitespace only, including the empty string, give no tags. */
  lemma {:induction false} BlankTags(tagsString: string)
    requires forall k :: 0 <= k < |tagsString| ==> tagsString[k] == ',' || IsWhitespace(tagsString[k])
    ensures ParseTags(tagsString) == []
    decreases |tagsString|
  {
    var s := tagsString;
    var k := IndexOf(s, ',');
    BlankHead(s);
    TrimOfWhitespace(s[..k]);
    if k < |s| {
      BlankSuffix(s, k + 1);
      BlankTags(s[k + 1..]);
      SplitStep(s, ',');
      TrimNonEmptyBlankHead(s[..k], Split(s[k + 1..], ','));
    } else {
      SplitWhole(s, ',');
      assert s[..k] == s;
      TrimNonEmptyBlankHead(s, []);
      assert [s] + [] == [s];
    }
  }

  // ---------------------------------------------------------------------------
  // Slug: formData.slug || formData.title.toLowerCase().replace(/ /g, '-')
  // ---------------------------------------------------------------------------

  /** `.replace(/ /g, '-')`: each single space becomes one hyphen. */
  function SpacesToHyphens(s: string): (r: string)
    ensures |r| == |s|
  {
    if s == [] then [] else [if s[0] == ' ' then '-' else s[0]] + SpacesToHyphens(s[1..])
  }

  lemma {:induction false} SpacesToHyphensAt(s: string, k: nat)
    requires k < |s|
    ensures SpacesToHyphens(s)[k] == if s[k] == ' ' then '-' else s[k]
  {
    if k > 0 {
      SpacesToHyphensAt(s[1..], k - 1);
    }
  }

  /**
    The slug made from the title: as long as the title, each space a hyphen,
    every other character lower-cased (runs of spaces are not collapsed and
    other whitespace is kept).
  */
  function FallbackSlug(title: string): (slug: string)
    ensures |slug| == |title|
    ensures forall k :: 0 <= k < |title| ==> slug[k] == if title[k] == ' ' then '-' else LowerChar(title[k])
  {
    var lower := ToLower(title);
    forall k | 0 <= k < |title| ensures SpacesToHyphens(lower)[k] == if title[k] == ' ' then '-' else LowerChar(title[k]) {
      SpacesToHyphensAt(lower, k);
    }
    SpacesToHyphens(lower)
  }

  /** The slug sent: the slug field unless it is `""` (the only falsy string), else the fallback. */
  function SlugFor(form: FormData): (slug: string)
    ensures form.slug != [] ==> slug == form.slug
    ensures form.slug == [] ==> slug == FallbackSlug(form.title)
  {
    if form.slug != [] then form.slug else FallbackSlug(form.title)
  }

  /** A whitespace-only slug field is sent as it is. */
  lemma BlankSlugKept(form: FormData)
    requires form.slug != [] && AllWhitespace(form.slug)
    ensures SlugFor(form) == form.slug && Trim(SlugFor(form)) == []
  {
    TrimOfWhitespace(form.slug);
  }

  /** An empty slug field and a title without spaces or capitals: the title itself. */
  lemma SlugFromPlainTitle(form: FormData)
    requires form.slug == []
    requires forall k :: 0 <= k < |form.title| ==> form.title[k] != ' ' && !('A' <= form.title[k] <= 'Z')
    ensures SlugFor(form) == form.title
  {
  }

  /** The fallback slug has no spaces. */
  lemma FallbackSlugHasNoSpace(title: string)
    ensures ' ' !in FallbackSlug(title)
  {
    var slug := FallbackSlug(title);
    forall k | 0 <= k < |slug| ensures slug[k] != ' ' {
      if title[k] != ' ' {
        assert 'A' <= title[k] <= 'Z' ==> 'a' <= LowerChar(title[k]) <= 'z';
      }
    }
  }

  // ---------------------------------------------------------------------------
  // The request payload
  // ---------------------------------------------------------------------------

  /** `requestPayload`. */
  function BuildPayload(form: FormData): (r: PostCreateRequest)
    ensures r.title == form.title && r.content == form.content
    ensures r.slug == SlugFor(form) && r.tags == ParseTags(form.tagsString)
    ensures r.seriesName.None? <==> form.seriesName == []
    ensures r.seriesName.Some? ==> r.seriesName.value == form.seriesName
    ensures r.status == Published
  {
    PostCreateRequest(
      form.title,
      form.content,
      SlugFor(form),
      if form.seriesName != [] then Some(form.seriesName) else None,
      ParseTags(form.tagsString),
      Published)
  }

  /** The stored post: the form's series name, or `null` exactly when the field is empty. */
  lemma StoredSeries(form: FormData, id: RandomId, createdAt: string)
    ensures var p := NewPost(BuildPayload(form), id, createdAt);
      && (p.seriesName.None? <==> form.seriesName == [])
      && (p.seriesName.Some? ==> p.seriesName.value == form.seriesName)
  {
  }

  // ---------------------------------------------------------------------------
  // The page
  // ---------------------------------------------------------------------------

  class WriteForm {
    var form: FormData
    var loading: bool
    /** The target of `router.push`, once it has been called. */
    var navigation: Option<string>

    constructor()
      ensures form == EmptyForm && !loading && navigation == None
    {
      form := EmptyForm;
      loading := false;
      navigation := None;
    }

    /** `handleChange`: the named field takes the input's value. */
    method HandleChange(field: Field, value: string)
      modifies this
      ensures form == WithField(old(form), field, value)
      ensures loading == old(loading) && navigation == old(navigation)
    {
      form := WithField(form, field, value);
    }

    /**
      `handleSubmit`: sets the loading flag, sends the payload to `createPost`,
      then navigates to the new post's page.
    */
    method HandleSubmit(store: PostStore, id: RandomId, createdAt: string) returns (p: Post)
      modifies this, store
      ensures p == NewPost(BuildPayload(old(form)), id, createdAt)
      ensures store.posts == [p] + old(store.posts)
      ensures navigation == Some("/post/" + SlugFor(old(form)))
      ensures loading && form == old(form)
    {
      loading := true;
      var payload := BuildPayload(form);
      p := store.CreatePost(payload, id, createdAt);
      assert p.slug == payload.slug == SlugFor(old(form));
      navigation := Some("/post/" + p.slug);
    }
  }
}
