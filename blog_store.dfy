/**
  The blog collection as the handlers change it: `createBlog` inserts,
  `updateblog` replaces one blog, and `deleteById` and `deleteBlogByquery`
  (src/controller/blogController.js:224-300) set `isDeleted` on one blog or
  on every blog a query matches. Blogs are never removed.
*/
module BlogStore {
  import opened Wrappers
  import opened JsValue
  import opened Validators
  import opened BlogModel
  import opened BlogQuery
  import opened BlogCreate
  import opened BlogUpdate
  import AuthorModel

  /** The outcome of a delete handler, with the status the client receives. */
  datatype DeleteOutcome = Deleted(ids: set<Id>) | DeleteRejected | NothingToDelete | DeleteThrows {
    function Status(): int {
      match this
      case Deleted(_) => 200
      case DeleteRejected => 400
      case NothingToDelete => 404
      case DeleteThrows => 500
    }
  }

  /** `updateMany({_id: {$in: ids}}, {$set: {isDeleted: true}})`: only the flag of the named blogs changes. */
  function MarkDeleted(blogs: map<Id, Blog>, ids: set<Id>): map<Id, Blog> {
    map id | id in blogs :: if id in ids then blogs[id].(isDeleted := true) else blogs[id]
  }

  /**
    `deleteById`: an id the lookup cannot cast throws; a blog that is missing
    or already deleted answers 404 (the later throw on the null blog never
    reaches the client); a live blog is marked deleted.
  */
  function DeleteByIdOutcome(blogs: map<Id, Blog>, blogId: string, validId: string -> bool): (r: DeleteOutcome)
    ensures r.DeleteThrows? <==> !validId(blogId)
    ensures r.Deleted? <==> validId(blogId) && blogId in blogs && !blogs[blogId].isDeleted
    ensures r.Deleted? ==> r.ids == {blogId}
    ensures !r.DeleteRejected?
  {
    match FindLive(blogs, blogId, validId)
    case LookupThrows => DeleteThrows
    case Missing => NothingToDelete
    case Found(_) => Deleted({blogId})
  }

  /**
    `deleteBlogByquery`: 400 when the caller's id is not an ObjectId or the
    query is empty, 500 when the filter throws, 404 when it matches nothing;
    otherwise every matching blog is deleted. The caller is not compared
    with the blogs' authors.
  */
  function DeleteByQueryOutcome(blogs: map<Id, Blog>, q: Query, callerId: Value, validId: string -> bool)
    : (r: DeleteOutcome)
    ensures r.DeleteRejected? <==> !IsValidObjectId(callerId, validId) || q == map[]
    ensures r.DeleteThrows? <==> IsValidObjectId(callerId, validId) && q != map[] && BuildFilter(q, validId).None?
    ensures r.Deleted? <==>
      IsValidObjectId(callerId, validId) && q != map[] && BuildFilter(q, validId).Some? &&
      Find(blogs, BuildFilter(q, validId).value) != {}
    ensures r.NothingToDelete? <==>
      IsValidObjectId(callerId, validId) && q != map[] && BuildFilter(q, validId).Some? &&
      Find(blogs, BuildFilter(q, validId).value) == {}
    ensures r.Deleted? ==> r.ids == Find(blogs, BuildFilter(q, validId).value)
    ensures r.Deleted? ==> forall id | id in r.ids :: id in blogs && !blogs[id].isDeleted
  {
    if !IsValidObjectId(callerId, validId) then DeleteRejected
    else if !IsValidUserInput(Obj(q)) then DeleteRejected
    else match BuildFilter(q, validId)
      case None => DeleteThrows
      case Some(f) =>
        var found := Find(blogs, f);
        if found == {} then NothingToDelete else Deleted(found)
  }

  /** Marking blogs deleted leaves every other field alone, so well-formedness is kept. */
  lemma MarkDeletedKeepsBlogs(blogs: map<Id, Blog>, ids: set<Id>)
    ensures MarkDeleted(blogs, ids).Keys == blogs.Keys
    ensures forall id | id in blogs :: MarkDeleted(blogs, ids)[id] == blogs[id].(isDeleted := id in ids || blogs[id].isDeleted)
  {
  }

  /**
    The blogs a query deletes are exactly the blogs `getblog` lists for the
    same query.
  */
  lemma DeleteByQueryDeletesListed(blogs: map<Id, Blog>, q: Query, callerId: Value, validId: string -> bool)
    requires DeleteByQueryOutcome(blogs, q, callerId, validId).Deleted?
    ensures GetBlogs(blogs, q, validId) == Listed(DeleteByQueryOutcome(blogs, q, callerId, validId).ids)
  {
  }

  /** After a delete by query, the same query lists nothing. */
  lemma {:induction false} DeletedByQueryNotListed(blogs: map<Id, Blog>, q: Query, callerId: Value, validId: string -> bool)
    requires DeleteByQueryOutcome(blogs, q, callerId, validId).Deleted?
    ensures GetBlogs(MarkDeleted(blogs, DeleteByQueryOutcome(blogs, q, callerId, validId).ids), q, validId) == NoneFound
  {
    var ids := DeleteByQueryOutcome(blogs, q, callerId, validId).ids;
    var after := MarkDeleted(blogs, ids);
    var f := BuildFilter(q, validId).value;
    forall id | id in after ensures !Matches(f, after[id]) {
      if id in ids {
        assert after[id].isDeleted;
      } else {
        assert after[id] == blogs[id];
      }
    }
    assert Find(after, f) == {};
  }

  /** A deleted blog is never listed, whatever the query. */
  lemma DeletedNeverListed(blogs: map<Id, Blog>, id: Id, q: Query, validId: string -> bool)
    requires id in blogs && blogs[id].isDeleted
    ensures GetBlogs(blogs, q, validId).Listed? ==> id !in GetBlogs(blogs, q, validId).ids
  {
  }

  /**
    A non-empty query whose keys the filter never reads (an `isPublished`
    parameter, say) deletes every live, published blog, whoever wrote it.
  */
  lemma UnreadKeysDeleteEverything(blogs: map<Id, Blog>, q: Query, callerId: Value, validId: string -> bool)
    requires IsValidObjectId(callerId, validId) && q != map[]
    requires forall key | key in q :: key !in {"authorId", "category", "subcategory", "tags"}
    ensures var live := set id | id in blogs && !blogs[id].isDeleted && blogs[id].isPublished == Some(true);
      && (live == {} ==> DeleteByQueryOutcome(blogs, q, callerId, validId) == NothingToDelete)
      && (live != {} ==> DeleteByQueryOutcome(blogs, q, callerId, validId) == Deleted(live))
  {
    assert Param(q, "authorId") == Undefined;
    assert Param(q, "category") == Undefined;
    assert Param(q, "subcategory") == Undefined;
    assert Param(q, "tags") == Undefined;
    assert BuildFilter(q, validId) == Some(Filter(false, true, None, None, None, None));
  }

  /** A created, published blog is listed by a query without criteria. */
  lemma PublishedBlogListed(blogs: map<Id, Blog>, id: Id, validId: string -> bool)
    requires id in blogs && !blogs[id].isDeleted && blogs[id].isPublished == Some(true)
    ensures GetBlogs(blogs, map[], validId).Listed? && id in GetBlogs(blogs, map[], validId).ids
  {
    assert BuildFilter(map[], validId) == Some(Filter(false, true, None, None, None, None));
  }

  /**
    What holds of every stored blog: its id is an ObjectId, it is well
    formed, and its author exists and has an ObjectId.
  */
  ghost predicate Consistent(blogs: map<Id, Blog>, authors: map<Id, AuthorModel.Author>, validId: string -> bool) {
    forall id | id in blogs ::
      && validId(id)
      && WellFormed(blogs[id])
      && blogs[id].authorId in authors
      && validId(blogs[id].authorId)
  }

  /** Storing a well-formed blog of a known author under an ObjectId keeps the collection consistent. */
  lemma StoreKeepsConsistent(blogs: map<Id, Blog>, authors: map<Id, AuthorModel.Author>, validId: string -> bool,
                             id: Id, b: Blog)
    requires Consistent(blogs, authors, validId)
    requires validId(id) && WellFormed(b) && b.authorId in authors && validId(b.authorId)
    ensures Consistent(blogs[id := b], authors, validId)
  {
  }

  /**
    In a consistent collection the author of any live blog can retitle it:
    the stored ids are ObjectIds, so the id checks pass.
  */
  lemma StoredOwnerUpdatesTitle(blogs: map<Id, Blog>, authors: map<Id, AuthorModel.Author>, validId: string -> bool,
                                blogId: Id, title: string, now: Time)
    requires Consistent(blogs, authors, validId)
    requires blogId in blogs && !blogs[blogId].isDeleted && IsValid(Str(title))
    ensures var r := UpdateBlog(blogs, blogId, Str(blogs[blogId].authorId), Obj(map["title" := Str(title)]), validId, now);
      r.Updated? && r.blog == blogs[blogId].(title := Trim(title)) && WellFormed(r.blog)
  {
    OwnerUpdatesTitle(blogs, blogId, title, validId, now);
    UpdateKeepsWellFormed(blogs[blogId], Obj(map["title" := Str(title)]), now);
  }

  /**
    The blog collection. Every stored blog is well formed, has an ObjectId
    and an author that exists. `validId` is `mongoose.Types.ObjectId.isValid`.
  */
  class Store {
    var blogs: map<Id, Blog>
    const authors: map<Id, AuthorModel.Author>
    const validId: string -> bool

    ghost predicate Valid()
      reads this
    {
      Consistent(blogs, authors, validId)
    }

    constructor(authors: map<Id, AuthorModel.Author>, validId: string -> bool)
      ensures Valid()
      ensures this.blogs == map[] && this.authors == authors && this.validId == validId
    {
      this.blogs := map[];
      this.authors := authors;
      this.validId := validId;
    }

    /**
      `createBlog`, storing the new blog under `newId`, an unused ObjectId
      the store supplies.
    */
    method Create(body: Value, now: Time, newId: Id) returns (r: CreateOutcome)
      requires Valid() && validId(newId) && newId !in blogs
      modifies this
      ensures Valid()
      ensures r == CreateBlog(body, authors, validId, now)
      ensures r.Created? ==> blogs == old(blogs)[newId := r.blog]
      ensures !r.Created? ==> blogs == old(blogs)
    {
      r := CreateBlog(body, authors, validId, now);
      if r.Created? {
        var b := r.blog;
        StoreKeepsConsistent(blogs, authors, validId, newId, b);
        blogs := blogs[newId := b];
      }
    }

    /** `updateblog`, with its id checks the right way round. */
    method Update(blogId: string, callerId: Value, data: Value, now: Time) returns (r: UpdateOutcome)
      requires Valid()
      modifies this
      ensures Valid()
      ensures r == UpdateBlog(old(blogs), blogId, callerId, data, validId, now)
      ensures r.Updated? ==> WellFormed(r.blog) && r.blog.authorId in authors
      ensures r.Updated? ==> blogs == old(blogs)[blogId := r.blog]
      ensures !r.Updated? ==> blogs == old(blogs)
    {
      r := UpdateBlog(blogs, blogId, callerId, data, validId, now);
      if r.Updated? {
        UpdateKeepsWellFormed(blogs[blogId], data, now);
        blogs := blogs[blogId := r.blog];
      }
    }

    /** `deleteById`: a live blog is marked deleted; nothing else changes. */
    method DeleteById(blogId: string) returns (r: DeleteOutcome)
      requires Valid()
      modifies this
      ensures Valid()
      ensures r == DeleteByIdOutcome(old(blogs), blogId, validId)
      ensures r.Deleted? ==> blogs == old(blogs)[blogId := old(blogs)[blogId].(isDeleted := true)]
      ensures !r.Deleted? ==> blogs == old(blogs)
    {
      if !validId(blogId) {
        return DeleteThrows;
      }
      if blogId !in blogs || blogs[blogId].isDeleted {
        return NothingToDelete;
      }
      blogs := blogs[blogId := blogs[blogId].(isDeleted := true)];
      r := Deleted({blogId});
    }

    /** `deleteBlogByquery`: every blog the query matches is marked deleted. */
    method DeleteByQuery(q: Query, callerId: Value) returns (r: DeleteOutcome)
      requires Valid()
      modifies this
      ensures Valid()
      ensures r == DeleteByQueryOutcome(old(blogs), q, callerId, validId)
      ensures r.Deleted? ==> blogs == MarkDeleted(old(blogs), r.ids)
      ensures !r.Deleted? ==> blogs == old(blogs)
    {
      if !IsValidObjectId(callerId, validId) || |q| == 0 {
        return DeleteRejected;
      }
      var filter := BuildFilter(q, validId);
      if filter.None? {
        return DeleteThrows;
      }
      var found := Find(blogs, filter.value);
      if found == {} {
        return NothingToDelete;
      }
      MarkDeletedKeepsBlogs(blogs, found);
      blogs := MarkDeleted(blogs, found);
      r := Deleted(found);
    }
  }
}
