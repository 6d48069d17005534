/**
  `createBlog` (src/controller/blogController.js:26-94): a fixed chain of
  checks, each of which can answer 400, then the draft record handed to the
  Blog schema. The author store is a map from id to Author; the clock is the
  parameter `now`.
*/
module BlogCreate {
  import opened Wrappers
  import opened JsValue
  import opened Validators
  import opened SchemaTypes
  import opened BlogModel
  import AuthorModel

  /** Why a create request was answered 400, in the order the checks run. */
  datatype Rejection = EmptyBody | MissingTitle | MissingBody | MissingAuthorId | MissingCategory | UnknownAuthor

  datatype CreateOutcome = Created(blog: Blog) | Rejected(reason: Rejection) | CreateThrows {
    function Status(): int {
      match this
      case Created(_) => 201
      case Rejected(_) => 400
      case CreateThrows => 500
    }
  }

  /**
    `tags` or `subcategory` as the draft holds it: a truthy array is copied,
    a truthy string becomes a one-element list, anything else leaves the
    key unset.
  */
  function ListField(v: Value): Option<seq<Value>> {
    if Truthy(v) then
      if v.Arr? then Some(v.elems)
      else if v.Str? then Some([v])
      else None
    else None
  }

  /** The draft `createBlog` builds once every check has passed. */
  function Draft(body: Value, authorId: Id, now: Time): BlogDraft {
    var isPublished := Field(body, "isPublished");
    BlogDraft(
      Field(body, "title"),
      Field(body, "body"),
      authorId,
      Field(body, "category"),
      if Truthy(isPublished) then isPublished else Bool(false),
      if Truthy(isPublished) then Some(now) else None,
      ListField(Field(body, "tags")),
      ListField(Field(body, "subcategory")))
  }

  /** The checks of `createBlog`, numbered in the order they run (0 to 4). */
  predicate CheckFails(body: Value, k: nat) {
    match k
    case 0 => !IsValidUserInput(body)
    case 1 => !IsValid(Field(body, "title"))
    case 2 => !IsValid(Field(body, "body"))
    case 3 => !IsValid(Field(body, "authorId"))
    case 4 => !IsValid(Field(body, "category"))
    case _ => false
  }

  /** Every check numbered below `n` passes. */
  predicate ChecksPassBefore(body: Value, n: nat) {
    && (n > 0 ==> !CheckFails(body, 0))
    && (n > 1 ==> !CheckFails(body, 1))
    && (n > 2 ==> !CheckFails(body, 2))
    && (n > 3 ==> !CheckFails(body, 3))
    && (n > 4 ==> !CheckFails(body, 4))
  }

  function CheckOf(reason: Rejection): nat {
    match reason
    case EmptyBody => 0
    case MissingTitle => 1
    case MissingBody => 2
    case MissingAuthorId => 3
    case MissingCategory => 4
    case UnknownAuthor => 5
  }

  /**
    `createBlog`. Destructuring an undefined or null body throws. The author
    lookup throws when the id cannot be cast, and answers 400 when no such
    author is stored. A schema validation error on create throws.
  */
  function CreateBlog(body: Value, authors: map<Id, AuthorModel.Author>, validId: string -> bool, now: Time)
    : (r: CreateOutcome)
    ensures r.Created? ==>
      && IsValidUserInput(body)
      && Field(body, "authorId") == Str(r.blog.authorId)
      && r.blog.authorId in authors
      && validId(r.blog.authorId)
      && WellFormed(r.blog)
      && !r.blog.isDeleted
    ensures r.Created? ==> CastBlog(Draft(body, r.blog.authorId, now)) == Some(r.blog)
    ensures r.Rejected? ==> ChecksPassBefore(body, CheckOf(r.reason))
    ensures r.Rejected? && r.reason != UnknownAuthor ==> CheckFails(body, CheckOf(r.reason))
    ensures r == Rejected(UnknownAuthor) <==>
      && !body.Undefined? && !body.Null?
      && ChecksPassBefore(body, 5)
      && IsValidObjectId(Field(body, "authorId"), validId)
      && Field(body, "authorId").s !in authors
    ensures r.Created? <==>
      && !body.Undefined? && !body.Null?
      && ChecksPassBefore(body, 5)
      && IsValidObjectId(Field(body, "authorId"), validId)
      && Field(body, "authorId").s in authors
      && CastBlog(Draft(body, Field(body, "authorId").s, now)).Some?
    ensures r.CreateThrows? <==>
      || body.Undefined? || body.Null?
      || (&& ChecksPassBefore(body, 5)
          && (|| !IsValidObjectId(Field(body, "authorId"), validId)
              || (Field(body, "authorId").s in authors
                  && CastBlog(Draft(body, Field(body, "authorId").s, now)).None?)))
  {
    if body.Undefined? || body.Null? then CreateThrows
    else if !IsValidUserInput(body) then Rejected(EmptyBody)
    else if !IsValid(Field(body, "title")) then Rejected(MissingTitle)
    else if !IsValid(Field(body, "body")) then Rejected(MissingBody)
    else if !IsValid(Field(body, "authorId")) then Rejected(MissingAuthorId)
    else if !IsValid(Field(body, "category")) then Rejected(MissingCategory)
    else
      var authorId := Field(body, "authorId");
      if !IsValidObjectId(authorId, validId) then CreateThrows
      else if authorId.s !in authors then Rejected(UnknownAuthor)
      else
        match CastBlog(Draft(body, authorId.s, now))
        case None => CreateThrows
        case Some(b) => Created(b)
  }

  /** A request missing any required field, or with one blank, is answered 400 and creates nothing. */
  lemma MissingFieldRejected(body: Value, authors: map<Id, AuthorModel.Author>, validId: string -> bool, now: Time, k: nat)
    requires !body.Undefined? && !body.Null?
    requires k <= 4 && CheckFails(body, k)
    ensures CreateBlog(body, authors, validId, now).Rejected?
    ensures CheckOf(CreateBlog(body, authors, validId, now).reason) <= k
  {
  }

  /**
    A created blog is published exactly as the request's `isPublished` was
    truthy and cast to true, and carries a publication time exactly when
    that input was truthy; that time is `now`.
  */
  lemma CreatedPublication(body: Value, authors: map<Id, AuthorModel.Author>, validId: string -> bool, now: Time)
    requires CreateBlog(body, authors, validId, now).Created?
    ensures var b := CreateBlog(body, authors, validId, now).blog;
      var v := Field(body, "isPublished");
      && (b.publishedAt.Some? <==> Truthy(v))
      && (b.publishedAt.Some? ==> b.publishedAt.value == now)
      && (!Truthy(v) ==> b.isPublished == Some(false))
      && (Truthy(v) ==> b.isPublished == CastBoolean(v))
  {
  }

  /**
    The list rule on its own: a truthy array gives its elements cast, a
    non-empty string one cast element, anything else the empty default.
  */
  lemma ListFieldCast(v: Value, trim: bool)
    requires CastList(ListField(v), trim).Some?
    ensures var xs := CastList(ListField(v), trim).value;
      && (v.Arr? ==> (|xs| == |v.elems| &&
            forall i | 0 <= i < |v.elems| :: Some(xs[i]) == CastElement(v.elems[i], trim)))
      && (v.Str? && v.s != "" ==> xs == [if trim then Trim(v.s) else v.s])
      && (!v.Arr? && !(v.Str? && v.s != "") ==> xs == [])
  {
    var xs := CastList(ListField(v), trim).value;
    if v.Str? && v.s != "" {
      assert ListField(v) == Some([v]);
      assert Some(xs[0]) == CastElement(v, trim);
    }
  }

  /** The list fields of a created blog are the draft's lists as the schema casts them. */
  lemma CreatedLists(body: Value, authors: map<Id, AuthorModel.Author>, validId: string -> bool, now: Time)
    requires CreateBlog(body, authors, validId, now).Created?
    ensures var b := CreateBlog(body, authors, validId, now).blog;
      && CastList(ListField(Field(body, "tags")), true) == Some(b.tags)
      && CastList(ListField(Field(body, "subcategory")), false) == Some(b.subcategory)
  {
    var b := CreateBlog(body, authors, validId, now).blog;
    var d := Draft(body, b.authorId, now);
    assert CastBlog(d) == Some(b);
  }

  /**
    The tags of a created blog: a truthy array input gives its elements,
    cast and trimmed; a non-empty string gives one trimmed tag; any other
    input gives none.
  */
  lemma CreatedTags(body: Value, authors: map<Id, AuthorModel.Author>, validId: string -> bool, now: Time)
    requires CreateBlog(body, authors, validId, now).Created?
    ensures var b := CreateBlog(body, authors, validId, now).blog;
      var v := Field(body, "tags");
      && (v.Arr? ==> (|b.tags| == |v.elems| &&
            forall i | 0 <= i < |v.elems| :: Some(b.tags[i]) == CastElement(v.elems[i], true)))
      && (v.Str? && v.s != "" ==> b.tags == [Trim(v.s)])
      && (!v.Arr? && !(v.Str? && v.s != "") ==> b.tags == [])
  {
    CreatedLists(body, authors, validId, now);
    ListFieldCast(Field(body, "tags"), true);
  }

  /**
    The subcategory of a created blog follows the same rule as tags, except
    that its entries are not trimmed.
  */
  lemma CreatedSubcategory(body: Value, authors: map<Id, AuthorModel.Author>, validId: string -> bool, now: Time)
    requires CreateBlog(body, authors, validId, now).Created?
    ensures var b := CreateBlog(body, authors, validId, now).blog;
      var v := Field(body, "subcategory");
      && (v.Arr? ==> (|b.subcategory| == |v.elems| &&
            forall i | 0 <= i < |v.elems| :: Some(b.subcategory[i]) == CastString(v.elems[i])))
      && (v.Str? && v.s != "" ==> b.subcategory == [v.s])
      && (!v.Arr? && !(v.Str? && v.s != "") ==> b.subcategory == [])
  {
    CreatedLists(body, authors, validId, now);
    var v := Field(body, "subcategory");
    ListFieldCast(v, false);
  }

  /** The stored title, body and category are the request's strings, trimmed. */
  lemma CreatedFieldsTrimmed(body: Value, authors: map<Id, AuthorModel.Author>, validId: string -> bool, now: Time)
    requires CreateBlog(body, authors, validId, now).Created?
    ensures var b := CreateBlog(body, authors, validId, now).blog;
      && (Field(body, "title").Str? ==> b.title == Trim(Field(body, "title").s))
      && (Field(body, "body").Str? ==> b.body == Trim(Field(body, "body").s))
      && (Field(body, "category").Str? ==> b.category == Trim(Field(body, "category").s))
  {
  }
}
