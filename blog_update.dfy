/**
  `updateblog` (src/controller/blogController.js:136-220): the id and owner
  gate, the update document built from the request body, and what
  `findOneAndUpdate` makes of the stored blog.

  The handler is modelled twice. `UpdateBlogAsWritten` follows the code,
  whose two ObjectId checks are inverted so that no request gets past them;
  its document builder `BuildUpdateAsWritten` also replaces `isPublished`
  by a date or null and never adds a string tag. `UpdateBlog` and
  `BuildUpdate` are the handler with those three defects corrected, and are
  what the blog store uses.
*/
module BlogUpdate {
  import opened Wrappers
  import opened JsValue
  import opened Validators
  import opened SchemaTypes
  import opened BlogModel
  import opened BlogQuery

  /** A `$set` value: a request value, or `new Date()` read from the clock. */
  datatype SetValue = Val(v: Value) | Now(t: Time)

  /**
    The update document. A field is None when its key is absent from `$set`
    (or, for the two lists, from `$addToSet`); the lists hold the `$each`
    elements still to be cast.
  */
  datatype UpdateDoc = UpdateDoc(
    title: Option<Value>,
    body: Option<Value>,
    category: Option<Value>,
    isPublished: Option<SetValue>,
    publishedAt: Option<SetValue>,
    addTags: Option<seq<Value>>,
    addSubcategory: Option<seq<Value>>)

  /** `if (isValid(v)) $set[key] = v`. */
  function SetIfValid(v: Value): Option<Value> {
    if IsValid(v) then Some(v) else None
  }

  /** `if (v) { if (Array.isArray(v)) $addToSet[key] = {$each: [...v]} }`: only an array adds anything. */
  function AddAsWritten(v: Value): Option<seq<Value>> {
    if Truthy(v) && v.Arr? then Some(v.elems) else None
  }

  /** The intended list rule: an array adds its elements, a non-empty string adds itself. */
  function AddListValue(v: Value): Option<seq<Value>> {
    if Truthy(v) && v.Arr? then Some(v.elems)
    else if Truthy(v) && v.Str? then Some([v])
    else None
  }

  /**
    The update document as written: a defined `isPublished` is replaced by
    `new Date()` when truthy and by null otherwise, and the `typeof tags ===
    "String"` test never holds, so a string adds nothing.
  */
  function BuildUpdateAsWritten(data: Value, now: Time): (u: UpdateDoc)
    ensures Field(data, "isPublished") != Undefined ==>
      u.isPublished == Some(if Truthy(Field(data, "isPublished")) then Now(now) else Val(Null))
    ensures Field(data, "isPublished") == Undefined ==> u.isPublished.None?
    ensures u.publishedAt.None?
    ensures u.addTags.Some? <==> Field(data, "tags").Arr?
    ensures u.addSubcategory.Some? <==> Field(data, "subcategory").Arr?
    ensures u.addTags.Some? ==> u.addTags.value == Field(data, "tags").elems
    ensures u.addSubcategory.Some? ==> u.addSubcategory.value == Field(data, "subcategory").elems
  {
    var isPublished := Field(data, "isPublished");
    UpdateDoc(
      SetIfValid(Field(data, "title")),
      SetIfValid(Field(data, "body")),
      SetIfValid(Field(data, "category")),
      if isPublished != Undefined then Some(if Truthy(isPublished) then Now(now) else Val(Null)) else None,
      None,
      AddAsWritten(Field(data, "tags")),
      AddAsWritten(Field(data, "subcategory")))
  }

  /**
    The update document the handler evidently means to build: `isPublished`
    is set to the request's value and `publishedAt` to now or null with it,
    and a string tag or subcategory is added as one element.
  */
  function BuildUpdate(data: Value, now: Time): (u: UpdateDoc)
    ensures u.title.Some? <==> IsValid(Field(data, "title"))
    ensures u.body.Some? <==> IsValid(Field(data, "body"))
    ensures u.category.Some? <==> IsValid(Field(data, "category"))
    ensures u.title.Some? ==> u.title.value == Field(data, "title")
    ensures u.body.Some? ==> u.body.value == Field(data, "body")
    ensures u.category.Some? ==> u.category.value == Field(data, "category")
    ensures u.isPublished.Some? <==> Field(data, "isPublished") != Undefined
    ensures u.isPublished.Some? ==> u.isPublished.value == Val(Field(data, "isPublished"))
    ensures u.publishedAt.Some? <==> u.isPublished.Some?
    ensures u.publishedAt.Some? ==>
      u.publishedAt.value == if Truthy(Field(data, "isPublished")) then Now(now) else Val(Null)
    ensures u.addTags.Some? <==> Truthy(Field(data, "tags")) && (Field(data, "tags").Arr? || Field(data, "tags").Str?)
    ensures u.addSubcategory.Some? <==>
      Truthy(Field(data, "subcategory")) && (Field(data, "subcategory").Arr? || Field(data, "subcategory").Str?)
    ensures u.addTags.Some? ==>
      u.addTags.value == if Field(data, "tags").Arr? then Field(data, "tags").elems else [Field(data, "tags")]
    ensures u.addSubcategory.Some? ==>
      u.addSubcategory.value ==
        if Field(data, "subcategory").Arr? then Field(data, "subcategory").elems else [Field(data, "subcategory")]
  {
    var isPublished := Field(data, "isPublished");
    UpdateDoc(
      SetIfValid(Field(data, "title")),
      SetIfValid(Field(data, "body")),
      SetIfValid(Field(data, "category")),
      if isPublished != Undefined then Some(Val(isPublished)) else None,
      if isPublished != Undefined then Some(if Truthy(isPublished) then Now(now) else Val(Null)) else None,
      AddListValue(Field(data, "tags")),
      AddListValue(Field(data, "subcategory")))
  }

  /** No string occurs twice. */
  predicate NoDup(s: seq<string>) {
    forall i, j | 0 <= i < j < |s| :: s[i] != s[j]
  }

  /**
    MongoDB's `$addToSet` with `$each`: each value not already in the array
    is appended, in order. The old array stays a prefix and the result holds
    exactly the old and the new values.
  */
  function AddToSet(existing: seq<string>, xs: seq<string>): (r: seq<string>)
    ensures existing <= r
    ensures forall x :: x in r <==> x in existing || x in xs
    decreases |xs|
  {
    if xs == [] then existing
    else
      assert xs == [xs[0]] + xs[1..];
      AddToSet(if xs[0] in existing then existing else existing + [xs[0]], xs[1..])
  }

  /** `$addToSet` never introduces a duplicate into an array that has none. */
  lemma {:induction false} AddToSetKeepsNoDup(existing: seq<string>, xs: seq<string>)
    requires NoDup(existing)
    ensures NoDup(AddToSet(existing, xs))
    decreases |xs|
  {
    if xs != [] {
      var next := if xs[0] in existing then existing else existing + [xs[0]];
      assert NoDup(next) by {
        if xs[0] !in existing {
          forall i, j | 0 <= i < j < |next| ensures next[i] != next[j] {
            if j == |existing| {
              assert next[i] == existing[i];
            }
          }
        }
      }
      AddToSetKeepsNoDup(next, xs[1..]);
    }
  }

  /** Adding values that are all present already changes nothing. */
  lemma {:induction false} AddToSetOfPresent(existing: seq<string>, xs: seq<string>)
    requires forall x | x in xs :: x in existing
    ensures AddToSet(existing, xs) == existing
    decreases |xs|
  {
    if xs != [] {
      assert xs[0] in xs;
      forall x | x in xs[1..] ensures x in existing {
        assert x in xs;
      }
      AddToSetOfPresent(existing, xs[1..]);
    }
  }

  /** Repeating the same `$addToSet` is harmless. */
  lemma AddToSetIdempotent(existing: seq<string>, xs: seq<string>)
    ensures AddToSet(AddToSet(existing, xs), xs) == AddToSet(existing, xs)
  {
    AddToSetOfPresent(AddToSet(existing, xs), xs);
  }

  /** A value already present, or repeated in the input, is added once. */
  lemma AddToSetExample()
    ensures AddToSet(["news"], ["news", "sport", "sport"]) == ["news", "sport"]
  {
    assert ["news", "sport", "sport"][1..] == ["sport", "sport"];
    assert ["sport", "sport"][1..] == ["sport"];
    assert "sport" !in ["news"];
    assert "sport" in ["news", "sport"];
  }

  /** A String path with the `trim` setter under `$set`; no required check runs on an update. */
  function SetText(current: string, v: Option<Value>): (r: Option<string>)
    ensures v.None? ==> r == Some(current)
    ensures v.Some? ==> (r.Some? <==> CastString(v.value).Some?)
    ensures v.Some? && r.Some? ==> r.value == Trim(CastString(v.value).value)
  {
    if v.None? then Some(current) else CastTrimmed(v.value)
  }

  /** The Boolean path `isPublished` under `$set`: null is stored as null, and a date fails the cast. */
  function SetPublished(current: Option<bool>, v: Option<SetValue>): (r: Option<Option<bool>>)
    ensures v.None? ==> r == Some(current)
    ensures v.Some? && r.Some? ==> v.value.Val?
    ensures v.Some? && r.Some? && v.value.v == Null ==> r.value.None?
    ensures v.Some? && r.Some? && v.value.v != Null ==> r.value == CastBoolean(v.value.v)
  {
    match v
    case None => Some(current)
    case Some(Now(_)) => None
    case Some(Val(x)) =>
      if x == Null then Some(None)
      else if CastBoolean(x).None? then None
      else Some(Some(CastBoolean(x).value))
  }

  /** The Date path `publishedAt` under `$set`: a date or null. */
  function SetPublishedAt(current: Option<Time>, v: Option<SetValue>): (r: Option<Option<Time>>)
    ensures v.None? ==> r == Some(current)
    ensures v.Some? && v.value.Now? ==> r == Some(Some(v.value.t))
    ensures v.Some? && v.value.Val? ==> (r.Some? <==> v.value.v == Null)
    ensures v.Some? && v.value.Val? && r.Some? ==> r.value.None?
  {
    match v
    case None => Some(current)
    case Some(Now(t)) => Some(Some(t))
    case Some(Val(x)) => if x == Null then Some(None) else None
  }

  /** A String array path under `$addToSet`: the new elements are cast, then added. */
  function AddStrings(current: seq<string>, xs: Option<seq<Value>>, trim: bool): (r: Option<seq<string>>)
    ensures xs.None? ==> r == Some(current)
    ensures xs.Some? ==> (r.Some? <==> CastStrings(xs.value, trim).Some?)
    ensures xs.Some? && r.Some? ==> r.value == AddToSet(current, CastStrings(xs.value, trim).value)
    ensures r.Some? ==> current <= r.value
  {
    if xs.None? then Some(current)
    else if CastStrings(xs.value, trim).None? then None
    else Some(AddToSet(current, CastStrings(xs.value, trim).value))
  }

  /**
    `findOneAndUpdate(..., {new: true})` on a stored blog: the updated blog,
    or None when casting the update throws. Author and deletion flag are
    never touched, a field the document leaves out keeps its value, and the
    two lists only grow, keeping their old entries in order.
  */
  function ApplyUpdate(b: Blog, u: UpdateDoc): (r: Option<Blog>)
    ensures r.Some? <==>
      && SetText(b.title, u.title).Some?
      && SetText(b.body, u.body).Some?
      && SetText(b.category, u.category).Some?
      && SetPublished(b.isPublished, u.isPublished).Some?
      && SetPublishedAt(b.publishedAt, u.publishedAt).Some?
      && AddStrings(b.tags, u.addTags, true).Some?
      && AddStrings(b.subcategory, u.addSubcategory, false).Some?
    ensures r.Some? ==> r.value.authorId == b.authorId && r.value.isDeleted == b.isDeleted
    ensures r.Some? ==> b.tags <= r.value.tags && b.subcategory <= r.value.subcategory
    ensures r.Some? && u.title.None? ==> r.value.title == b.title
    ensures r.Some? && u.body.None? ==> r.value.body == b.body
    ensures r.Some? && u.category.None? ==> r.value.category == b.category
    ensures r.Some? && u.isPublished.None? ==> r.value.isPublished == b.isPublished
    ensures r.Some? && u.publishedAt.None? ==> r.value.publishedAt == b.publishedAt
    ensures r.Some? && u.addTags.None? ==> r.value.tags == b.tags
    ensures r.Some? && u.addSubcategory.None? ==> r.value.subcategory == b.subcategory
    ensures r.Some? && u.title.Some? ==> r.value.title == Trim(CastString(u.title.value).value)
    ensures r.Some? && u.body.Some? ==> r.value.body == Trim(CastString(u.body.value).value)
    ensures r.Some? && u.category.Some? ==> r.value.category == Trim(CastString(u.category.value).value)
  {
    var title := SetText(b.title, u.title);
    var body := SetText(b.body, u.body);
    var category := SetText(b.category, u.category);
    var isPublished := SetPublished(b.isPublished, u.isPublished);
    var publishedAt := SetPublishedAt(b.publishedAt, u.publishedAt);
    var tags := AddStrings(b.tags, u.addTags, true);
    var subcategory := AddStrings(b.subcategory, u.addSubcategory, false);
    if title.None? || body.None? || category.None? || isPublished.None? || publishedAt.None?
       || tags.None? || subcategory.None? then None
    else
      Some(Blog(title.value, body.value, b.authorId, tags.value, category.value, subcategory.value,
                publishedAt.value, b.isDeleted, isPublished.value))
  }

  /**
    What a successful update stores in the fields it sets: `isPublished`
    becomes the Boolean cast of its value or null, `publishedAt` the date or
    null, and each list `$addToSet` of the cast new elements onto the old one.
  */
  lemma UpdatedFields(b: Blog, u: UpdateDoc)
    requires ApplyUpdate(b, u).Some?
    ensures var r := ApplyUpdate(b, u).value;
      && (u.isPublished.Some? ==>
            && u.isPublished.value.Val?
            && (u.isPublished.value.v == Null ==> r.isPublished.None?)
            && (u.isPublished.value.v != Null ==> r.isPublished == CastBoolean(u.isPublished.value.v)))
      && (u.publishedAt.Some? && u.publishedAt.value.Now? ==> r.publishedAt == Some(u.publishedAt.value.t))
      && (u.publishedAt.Some? && u.publishedAt.value.Val? ==> u.publishedAt.value.v == Null && r.publishedAt.None?)
      && (u.addTags.Some? ==>
            && CastStrings(u.addTags.value, true).Some?
            && r.tags == AddToSet(b.tags, CastStrings(u.addTags.value, true).value))
      && (u.addSubcategory.Some? ==>
            && CastStrings(u.addSubcategory.value, false).Some?
            && r.subcategory == AddToSet(b.subcategory, CastStrings(u.addSubcategory.value, false).value))
  {
    var r := ApplyUpdate(b, u).value;
    assert Some(r.isPublished) == SetPublished(b.isPublished, u.isPublished);
    assert Some(r.publishedAt) == SetPublishedAt(b.publishedAt, u.publishedAt);
    assert Some(r.tags) == AddStrings(b.tags, u.addTags, true);
    assert Some(r.subcategory) == AddStrings(b.subcategory, u.addSubcategory, false);
  }

  /** Why an update request was answered 400. */
  datatype UpdateRejection = InvalidBlogId | InvalidAuthorId | NoParameters

  /** The outcome of `updateblog`, with the status the client receives. */
  datatype UpdateOutcome = Updated(blog: Blog) | UpdateRejected(reason: UpdateRejection) | BlogNotFound | NotOwner | UpdateThrows {
    function Status(): int {
      match this
      case Updated(_) => 201
      case UpdateRejected(_) => 400
      case BlogNotFound => 404
      case NotOwner => 401
      case UpdateThrows => 500
    }
  }

  /**
    What `updateblog` does after its two id checks, for the update document
    `u` it builds from `data`: look the blog up, check the owner, check that
    the body has keys, apply the update.
  */
  function UpdateFound(blogs: map<Id, Blog>, blogId: string, callerId: Value, data: Value, u: UpdateDoc,
                       validId: string -> bool): UpdateOutcome
  {
    match FindLive(blogs, blogId, validId)
    case LookupThrows => UpdateThrows
    case Missing => BlogNotFound
    case Found(blog) =>
      if callerId != Str(blog.authorId) then NotOwner
      else if KeyCount(data).None? then UpdateThrows
      else if KeyCount(data).value == 0 then UpdateRejected(NoParameters)
      else if ApplyUpdate(blog, u).None? then UpdateThrows
      else Updated(ApplyUpdate(blog, u).value)
  }

  /**
    `updateblog` as written: it answers 400 when the blog id IS a valid
    ObjectId and when the caller's id IS one; any other blog id cannot be
    cast by the lookup, which throws. No request is ever updated.
  */
  function UpdateBlogAsWritten(blogs: map<Id, Blog>, blogId: string, callerId: Value, data: Value,
                               validId: string -> bool, now: Time): (r: UpdateOutcome)
    ensures r.Status() == 400 || r.Status() == 500
    ensures validId(blogId) <==> r == UpdateRejected(InvalidBlogId)
    ensures !validId(blogId) && IsValidObjectId(callerId, validId) <==> r == UpdateRejected(InvalidAuthorId)
    ensures r.UpdateThrows? <==> !validId(blogId) && !IsValidObjectId(callerId, validId)
  {
    if validId(blogId) then UpdateRejected(InvalidBlogId)
    else if IsValidObjectId(callerId, validId) then UpdateRejected(InvalidAuthorId)
    else UpdateFound(blogs, blogId, callerId, data, BuildUpdateAsWritten(data, now), validId)
  }

  /** Both ids are ObjectIds, the blog is stored and live, and the caller is its author. */
  predicate OwnsLiveBlog(blogs: map<Id, Blog>, blogId: string, callerId: Value, validId: string -> bool) {
    && validId(blogId) && IsValidObjectId(callerId, validId)
    && blogId in blogs && !blogs[blogId].isDeleted
    && callerId == Str(blogs[blogId].authorId)
  }

  /**
    `updateblog` with its id checks the right way round: 400 for an invalid
    blog or caller id, 404 for a blog that is missing or deleted, 401 for a
    caller who is not its author, 400 for a body without keys; otherwise the
    corrected update is applied.
  */
  function UpdateBlog(blogs: map<Id, Blog>, blogId: string, callerId: Value, data: Value,
                      validId: string -> bool, now: Time): (r: UpdateOutcome)
    ensures r == UpdateRejected(InvalidBlogId) <==> !validId(blogId)
    ensures r == UpdateRejected(InvalidAuthorId) <==> validId(blogId) && !IsValidObjectId(callerId, validId)
    ensures r.BlogNotFound? <==>
      validId(blogId) && IsValidObjectId(callerId, validId) && !(blogId in blogs && !blogs[blogId].isDeleted)
    ensures r.NotOwner? <==>
      && validId(blogId) && IsValidObjectId(callerId, validId)
      && blogId in blogs && !blogs[blogId].isDeleted
      && callerId != Str(blogs[blogId].authorId)
    ensures r == UpdateRejected(NoParameters) <==>
      OwnsLiveBlog(blogs, blogId, callerId, validId) && KeyCount(data) == Some(0)
    ensures r.UpdateThrows? <==>
      && OwnsLiveBlog(blogs, blogId, callerId, validId)
      && (|| KeyCount(data).None?
          || (KeyCount(data).value > 0 && ApplyUpdate(blogs[blogId], BuildUpdate(data, now)).None?))
    ensures r.Updated? <==>
      && OwnsLiveBlog(blogs, blogId, callerId, validId)
      && KeyCount(data).Some? && KeyCount(data).value > 0
      && ApplyUpdate(blogs[blogId], BuildUpdate(data, now)).Some?
    ensures r.Updated? ==>
      && IsValidUserInput(data)
      && ApplyUpdate(blogs[blogId], BuildUpdate(data, now)) == Some(r.blog)
  {
    if !validId(blogId) then UpdateRejected(InvalidBlogId)
    else if !IsValidObjectId(callerId, validId) then UpdateRejected(InvalidAuthorId)
    else UpdateFound(blogs, blogId, callerId, data, BuildUpdate(data, now), validId)
  }

  /** A valid value cast to a trimmed String path gives a non-empty, trimmed string. */
  lemma ValidCastIsRequired(v: Value)
    requires IsValid(v) && CastTrimmed(v).Some?
    ensures RequiredTrimmed(CastTrimmed(v).value)
  {
    if v.Str? {
      ValidStringTrimsNonEmpty(v.s);
    } else {
      TrimOfTrimmed(CastString(v).value);
    }
  }

  /** A text field under the corrected update stays present and trimmed. */
  lemma SetTextKeepsRequired(current: string, v: Value)
    requires RequiredTrimmed(current) && SetText(current, SetIfValid(v)).Some?
    ensures RequiredTrimmed(SetText(current, SetIfValid(v)).value)
  {
    if IsValid(v) {
      ValidCastIsRequired(v);
    }
  }

  /** Tags added through `$addToSet` are trimmed like the ones already stored. */
  lemma AddedTagsTrimmed(current: seq<string>, xs: Option<seq<Value>>)
    requires forall t | t in current :: IsTrimmed(t)
    requires AddStrings(current, xs, true).Some?
    ensures forall t | t in AddStrings(current, xs, true).value :: IsTrimmed(t)
  {
    if xs.Some? {
      TrimmedTags(xs, CastStrings(xs.value, true).value);
    }
  }

  /**
    The corrected update keeps a stored blog well formed: its title, body
    and category stay present and trimmed and its tags trimmed, and its
    author and deletion flag are unchanged.
  */
  lemma UpdateKeepsWellFormed(b: Blog, data: Value, now: Time)
    requires WellFormed(b)
    requires ApplyUpdate(b, BuildUpdate(data, now)).Some?
    ensures WellFormed(ApplyUpdate(b, BuildUpdate(data, now)).value)
    ensures ApplyUpdate(b, BuildUpdate(data, now)).value.authorId == b.authorId
    ensures ApplyUpdate(b, BuildUpdate(data, now)).value.isDeleted == b.isDeleted
  {
    var u := BuildUpdate(data, now);
    SetTextKeepsRequired(b.title, Field(data, "title"));
    SetTextKeepsRequired(b.body, Field(data, "body"));
    SetTextKeepsRequired(b.category, Field(data, "category"));
    AddedTagsTrimmed(b.tags, u.addTags);
  }

  /**
    Under the corrected update a defined `isPublished` is stored as its
    Boolean cast (null as null), and `publishedAt` becomes now exactly when
    that value is truthy, null otherwise.
  */
  lemma UpdatePublication(b: Blog, data: Value, now: Time)
    requires Field(data, "isPublished") != Undefined
    requires ApplyUpdate(b, BuildUpdate(data, now)).Some?
    ensures var r := ApplyUpdate(b, BuildUpdate(data, now)).value;
      var v := Field(data, "isPublished");
      && (v == Null ==> r.isPublished.None?)
      && (v != Null ==> r.isPublished == CastBoolean(v))
      && (Truthy(v) ==> r.publishedAt == Some(now))
      && (!Truthy(v) ==> r.publishedAt.None?)
  {
    PublishedFields(b, BuildUpdate(data, now), Field(data, "isPublished"), now);
  }

  /** What `$set` of `isPublished` to `v` and `publishedAt` to now or null stores. */
  lemma PublishedFields(b: Blog, u: UpdateDoc, v: Value, now: Time)
    requires u.isPublished == Some(Val(v))
    requires u.publishedAt == Some(if Truthy(v) then Now(now) else Val(Null))
    requires ApplyUpdate(b, u).Some?
    ensures var r := ApplyUpdate(b, u).value;
      && (v == Null ==> r.isPublished.None?)
      && (v != Null ==> r.isPublished == CastBoolean(v))
      && (Truthy(v) ==> r.publishedAt == Some(now))
      && (!Truthy(v) ==> r.publishedAt.None?)
  {
    var r := ApplyUpdate(b, u).value;
    assert Some(r.isPublished) == SetPublished(b.isPublished, u.isPublished);
    assert Some(r.publishedAt) == SetPublishedAt(b.publishedAt, u.publishedAt);
  }

  /**
    As written, a truthy `isPublished` makes the update throw (a date is
    not a Boolean), and a falsy one stores null in place of false.
  */
  lemma PublicationAsWritten(b: Blog, data: Value, now: Time)
    requires Field(data, "isPublished") != Undefined
    ensures Truthy(Field(data, "isPublished")) ==> ApplyUpdate(b, BuildUpdateAsWritten(data, now)).None?
    ensures !Truthy(Field(data, "isPublished")) && ApplyUpdate(b, BuildUpdateAsWritten(data, now)).Some? ==>
      ApplyUpdate(b, BuildUpdateAsWritten(data, now)).value.isPublished.None?
  {
  }

  /** As written, a single tag or subcategory sent as a string is dropped. */
  lemma StringListAsWritten(b: Blog, data: Value, now: Time)
    requires ApplyUpdate(b, BuildUpdateAsWritten(data, now)).Some?
    ensures Field(data, "tags").Str? ==> ApplyUpdate(b, BuildUpdateAsWritten(data, now)).value.tags == b.tags
    ensures Field(data, "subcategory").Str? ==>
      ApplyUpdate(b, BuildUpdateAsWritten(data, now)).value.subcategory == b.subcategory
  {
  }

  /** A one-string array casts to that string, trimmed when the path trims. */
  lemma SingleStringCast(x: string, trim: bool)
    ensures CastStrings([Str(x)], trim) == Some([if trim then Trim(x) else x])
  {
    assert CastString([Str(x)][0]).Some?;
    var ys := CastStrings([Str(x)], trim).value;
    assert Some(ys[0]) == CastElement(Str(x), trim);
    assert ys == [if trim then Trim(x) else x];
  }

  /**
    Under the corrected update a non-empty string tag is added, trimmed, with
    `$addToSet`: it is appended unless the blog already holds it.
  */
  lemma StringTagAdded(b: Blog, data: Value, x: string, now: Time)
    requires Field(data, "tags") == Str(x) && x != ""
    requires ApplyUpdate(b, BuildUpdate(data, now)).Some?
    ensures ApplyUpdate(b, BuildUpdate(data, now)).value.tags == AddToSet(b.tags, [Trim(x)])
    ensures Trim(x) in ApplyUpdate(b, BuildUpdate(data, now)).value.tags
  {
    var u := BuildUpdate(data, now);
    assert u.addTags == Some([Str(x)]);
    UpdatedFields(b, u);
    SingleStringCast(x, true);
  }

  /** The same for a non-empty string subcategory, which is added untrimmed. */
  lemma StringSubcategoryAdded(b: Blog, data: Value, x: string, now: Time)
    requires Field(data, "subcategory") == Str(x) && x != ""
    requires ApplyUpdate(b, BuildUpdate(data, now)).Some?
    ensures ApplyUpdate(b, BuildUpdate(data, now)).value.subcategory == AddToSet(b.subcategory, [x])
    ensures x in ApplyUpdate(b, BuildUpdate(data, now)).value.subcategory
  {
    var u := BuildUpdate(data, now);
    assert u.addSubcategory == Some([Str(x)]);
    UpdatedFields(b, u);
    SingleStringCast(x, false);
  }

  /**
    Under the corrected update, lists without repeats stay without repeats,
    and each now holds exactly its old entries and the newly cast ones.
  */
  lemma UpdateKeepsListsDistinct(b: Blog, data: Value, now: Time)
    requires NoDup(b.tags) && NoDup(b.subcategory)
    requires ApplyUpdate(b, BuildUpdate(data, now)).Some?
    ensures var r := ApplyUpdate(b, BuildUpdate(data, now)).value;
      var u := BuildUpdate(data, now);
      && NoDup(r.tags) && NoDup(r.subcategory)
      && (u.addTags.Some? ==>
            forall t :: t in r.tags <==> t in b.tags || t in CastStrings(u.addTags.value, true).value)
  {
    var u := BuildUpdate(data, now);
    var r := ApplyUpdate(b, u).value;
    if u.addTags.Some? {
      AddToSetKeepsNoDup(b.tags, CastStrings(u.addTags.value, true).value);
    }
    if u.addSubcategory.Some? {
      AddToSetKeepsNoDup(b.subcategory, CastStrings(u.addSubcategory.value, false).value);
    }
  }

  /** The body `{tags: "news"}` builds, as written, an empty document, and when corrected, one `$addToSet`. */
  lemma NewsTagDocuments(now: Time)
    ensures BuildUpdateAsWritten(Obj(map["tags" := Str("news")]), now) == UpdateDoc(None, None, None, None, None, None, None)
    ensures BuildUpdate(Obj(map["tags" := Str("news")]), now) ==
      UpdateDoc(None, None, None, None, None, Some([Str("news")]), None)
  {
    var data := Obj(map["tags" := Str("news")]);
    assert Field(data, "title") == Undefined;
    assert Field(data, "body") == Undefined;
    assert Field(data, "category") == Undefined;
    assert Field(data, "isPublished") == Undefined;
    assert Field(data, "tags") == Str("news");
    assert Field(data, "subcategory") == Undefined;
  }

  /** A document that sets and adds nothing leaves the blog as it is. */
  lemma EmptyDocumentKeepsBlog(b: Blog)
    ensures ApplyUpdate(b, UpdateDoc(None, None, None, None, None, None, None)) == Some(b)
  {
  }

  /** A document that only adds tags adds their casts with `$addToSet`. */
  lemma AddTagsOnly(b: Blog, xs: seq<Value>, ys: seq<string>)
    requires CastStrings(xs, true) == Some(ys)
    ensures ApplyUpdate(b, UpdateDoc(None, None, None, None, None, Some(xs), None)) ==
      Some(b.(tags := AddToSet(b.tags, ys)))
  {
    var u := UpdateDoc(None, None, None, None, None, Some(xs), None);
    assert AddStrings(b.tags, u.addTags, true) == Some(AddToSet(b.tags, ys));
  }

  /** The string "news" cast as a one-element array of trimmed strings. */
  lemma NewsCast()
    ensures CastStrings([Str("news")], true) == Some(["news"])
  {
    TrimOfTrimmed("news");
    assert CastString([Str("news")][0]).Some?;
    var ys := CastStrings([Str("news")], true).value;
    assert Some(ys[0]) == CastElement(Str("news"), true);
    assert ys == ["news"];
  }

  /** The request `{tags: "news"}` as written: the blog comes back unchanged. */
  lemma NewsTagAsWritten(b: Blog, now: Time)
    ensures ApplyUpdate(b, BuildUpdateAsWritten(Obj(map["tags" := Str("news")]), now)) == Some(b)
  {
    NewsTagDocuments(now);
    EmptyDocumentKeepsBlog(b);
  }

  /** The request `{tags: "news"}` corrected: "news" is added to the tags unless already there. */
  lemma NewsTagCorrected(b: Blog, now: Time)
    ensures ApplyUpdate(b, BuildUpdate(Obj(map["tags" := Str("news")]), now)) ==
      Some(b.(tags := AddToSet(b.tags, ["news"])))
    ensures "news" in ApplyUpdate(b, BuildUpdate(Obj(map["tags" := Str("news")]), now)).value.tags
  {
    NewsTagDocuments(now);
    NewsCast();
    AddTagsOnly(b, [Str("news")], ["news"]);
  }

  /** A body holding only a title builds a `$set` of the title alone. */
  lemma TitleOnlyDocument(title: string, now: Time)
    requires IsValid(Str(title))
    ensures BuildUpdate(Obj(map["title" := Str(title)]), now) == UpdateDoc(Some(Str(title)), None, None, None, None, None, None)
  {
    var data := Obj(map["title" := Str(title)]);
    assert Field(data, "title") == Str(title);
    assert Field(data, "body") == Undefined;
    assert Field(data, "category") == Undefined;
    assert Field(data, "isPublished") == Undefined;
    assert Field(data, "tags") == Undefined;
    assert Field(data, "subcategory") == Undefined;
  }

  /**
    The owner of a live blog who sends a new title gets it stored, trimmed,
    with every other field unchanged.
  */
  lemma OwnerUpdatesTitle(blogs: map<Id, Blog>, blogId: string, title: string, validId: string -> bool, now: Time)
    requires validId(blogId) && blogId in blogs && !blogs[blogId].isDeleted
    requires validId(blogs[blogId].authorId)
    requires IsValid(Str(title))
    ensures var r := UpdateBlog(blogs, blogId, Str(blogs[blogId].authorId),
                                Obj(map["title" := Str(title)]), validId, now);
      r.Updated? && r.blog == blogs[blogId].(title := Trim(title))
  {
    var b := blogs[blogId];
    var data := Obj(map["title" := Str(title)]);
    TitleOnlyUpdate(b, title, now);
    SingleKey("title", Str(title));
    OwnerUpdates(blogs, blogId, data, validId, now, b.(title := Trim(title)));
  }

  /** An object with one key has one key. */
  lemma SingleKey(key: string, v: Value)
    ensures KeyCount(Obj(map[key := v])) == Some(1)
  {
    assert map[key := v].Keys == {key};
  }

  /** A body holding only a title replaces the title, trimmed. */
  lemma TitleOnlyUpdate(b: Blog, title: string, now: Time)
    requires IsValid(Str(title))
    ensures ApplyUpdate(b, BuildUpdate(Obj(map["title" := Str(title)]), now)) == Some(b.(title := Trim(title)))
  {
    TitleOnlyDocument(title, now);
    TitleApplied(b, title);
  }

  /** A `$set` of the title alone replaces the title, trimmed. */
  lemma TitleApplied(b: Blog, title: string)
    ensures ApplyUpdate(b, UpdateDoc(Some(Str(title)), None, None, None, None, None, None)) ==
      Some(b.(title := Trim(title)))
  {
    var u := UpdateDoc(Some(Str(title)), None, None, None, None, None, None);
    assert SetText(b.title, u.title) == Some(Trim(title));
    SetTitleOnly(b, u, Trim(title));
  }

  /** A document that sets only the title changes only the title. */
  lemma SetTitleOnly(b: Blog, u: UpdateDoc, t: string)
    requires SetText(b.title, u.title) == Some(t)
    requires u.body.None? && u.category.None? && u.isPublished.None? && u.publishedAt.None?
    requires u.addTags.None? && u.addSubcategory.None?
    ensures ApplyUpdate(b, u) == Some(b.(title := t))
  {
  }

  /** The author of a live blog who sends a non-empty body that applies gets the applied blog. */
  lemma OwnerUpdates(blogs: map<Id, Blog>, blogId: string, data: Value, validId: string -> bool, now: Time, nb: Blog)
    requires validId(blogId) && blogId in blogs && !blogs[blogId].isDeleted
    requires validId(blogs[blogId].authorId)
    requires KeyCount(data).Some? && KeyCount(data).value > 0
    requires ApplyUpdate(blogs[blogId], BuildUpdate(data, now)) == Some(nb)
    ensures UpdateBlog(blogs, blogId, Str(blogs[blogId].authorId), data, validId, now) == Updated(nb)
  {
    assert FindLive(blogs, blogId, validId) == Found(blogs[blogId]);
  }
}
