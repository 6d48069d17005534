/**
  The Blog record (src/models/blogModel.js): the stored document, the draft
  a handler hands to `blogModel.create`, and the schema that turns the one
  into the other (required and trimmed strings, string arrays, defaults).
*/
module BlogModel {
  import opened Wrappers
  import opened JsValue
  import opened SchemaTypes

  /** A document id (an ObjectId in its string form). */
  type Id = string

  /** An instant, as the clock reports it; the clock is not modelled. */
  type Time = int

  /**
    A stored blog. `isPublished` is None when the store holds null there,
    which an update can write (see BlogUpdate).
  */
  datatype Blog = Blog(
    title: string,
    body: string,
    authorId: Id,
    tags: seq<string>,
    category: string,
    subcategory: seq<string>,
    publishedAt: Option<Time>,
    isDeleted: bool,
    isPublished: Option<bool>)

  /**
    The object passed to `blogModel.create`: JavaScript values still to be
    cast. A list field is None when the handler leaves its key unset.
  */
  datatype BlogDraft = BlogDraft(
    title: Value,
    body: Value,
    authorId: Id,
    category: Value,
    isPublished: Value,
    publishedAt: Option<Time>,
    tags: Option<seq<Value>>,
    subcategory: Option<seq<Value>>)

  /** A required, trimmed string field as the schema stores it. */
  predicate RequiredTrimmed(s: string) {
    s != [] && IsTrimmed(s)
  }

  /**
    What the schema guarantees of every blog it stores: title, body and
    category present and trimmed, every tag trimmed. Subcategory entries
    have no `trim` setter, so nothing is said of them.
  */
  predicate WellFormed(b: Blog) {
    && RequiredTrimmed(b.title)
    && RequiredTrimmed(b.body)
    && RequiredTrimmed(b.category)
    && forall t | t in b.tags :: IsTrimmed(t)
  }

  /** An array path of the schema: an unset key takes the default, the empty array. */
  function CastList(vs: Option<seq<Value>>, trim: bool): (r: Option<seq<string>>)
    ensures vs.None? ==> r == Some([])
    ensures vs.Some? ==> r == CastStrings(vs.value, trim)
  {
    if vs.None? then Some([]) else CastStrings(vs.value, trim)
  }

  /** `isPublished: {type: Boolean, default: false}` applied to the draft's value. */
  function CastPublished(v: Value): (r: Option<bool>)
    ensures v == Undefined ==> r == Some(false)
    ensures v != Undefined ==> r == CastBoolean(v)
  {
    if v == Undefined then Some(false) else CastBoolean(v)
  }

  /**
    Validating and casting a draft into the stored blog; None is the
    validation error `create` throws. The stored blog keeps the draft's
    author and publication time, its title, body and category are the
    trimmed inputs, `isDeleted` takes its default false, and tags are
    trimmed while subcategory entries are not.
  */
  function CastBlog(d: BlogDraft): (r: Option<Blog>)
    ensures r.Some? <==>
      && CastRequiredTrimmed(d.title).Some?
      && CastRequiredTrimmed(d.body).Some?
      && CastRequiredTrimmed(d.category).Some?
      && CastList(d.tags, true).Some?
      && CastList(d.subcategory, false).Some?
      && CastPublished(d.isPublished).Some?
    ensures r.Some? ==> WellFormed(r.value)
    ensures r.Some? ==> !r.value.isDeleted
    ensures r.Some? ==> r.value.isPublished == Some(CastPublished(d.isPublished).value)
    ensures r.Some? ==> r.value.authorId == d.authorId && r.value.publishedAt == d.publishedAt
    ensures r.Some? ==> r.value.title == Trim(CastString(d.title).value)
    ensures r.Some? ==> r.value.body == Trim(CastString(d.body).value)
    ensures r.Some? ==> r.value.category == Trim(CastString(d.category).value)
    ensures r.Some? ==> r.value.tags == CastList(d.tags, true).value
    ensures r.Some? ==> r.value.subcategory == CastList(d.subcategory, false).value
  {
    var title := CastRequiredTrimmed(d.title);
    var body := CastRequiredTrimmed(d.body);
    var category := CastRequiredTrimmed(d.category);
    var tags := CastList(d.tags, true);
    var subcategory := CastList(d.subcategory, false);
    var published := CastPublished(d.isPublished);
    if title.None? || body.None? || category.None? || tags.None? || subcategory.None? || published.None? then
      None
    else
      TrimmedTags(d.tags, tags.value);
      Some(Blog(title.value, body.value, d.authorId, tags.value, category.value, subcategory.value,
                d.publishedAt, false, Some(published.value)))
  }

  /** Every element of a trimmed string array is trimmed. */
  lemma TrimmedTags(vs: Option<seq<Value>>, tags: seq<string>)
    requires CastList(vs, true) == Some(tags)
    ensures forall t | t in tags :: IsTrimmed(t)
  {
    if vs.Some? {
      forall i | 0 <= i < |tags| ensures IsTrimmed(tags[i]) {
        assert Some(tags[i]) == CastElement(vs.value[i], true);
        TrimIsTrimmed(CastString(vs.value[i]).value);
      }
    }
  }

  /** Both flags default to false when the draft does not supply them. */
  lemma FlagsDefaultFalse(d: BlogDraft)
    requires d.isPublished == Undefined
    requires CastBlog(d).Some?
    ensures CastBlog(d).value.isDeleted == false && CastBlog(d).value.isPublished == Some(false)
  {
  }
}
