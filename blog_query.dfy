/**
  The filter `getblog` and `deleteBlogByquery` build from the query string
  (src/controller/blogController.js:104-120 and :256-280), what a stored
  blog must satisfy to match it, and the listing handler `getblog` itself.
  The filter is kept as written: the subcategory criterion is built from the
  `tags` parameter, and an `isPublished` parameter is never read.
*/
module BlogQuery {
  import opened Wrappers
  import opened JsValue
  import opened Validators
  import opened BlogModel

  /** A parsed query string. */
  type Query = map<string, Value>

  /** `req.query.key`; a missing key reads as undefined. */
  function Param(q: Query, key: string): (r: Value)
    ensures key in q ==> r == q[key]
    ensures key !in q ==> r == Undefined
  {
    if key in q then q[key] else Undefined
  }

  /**
    One step of building the filter: the criterion is left out, added, or
    building it throws (a `trim` on a non-string, or an id the store cannot
    cast when it runs the query); a throw ends in status 500.
  */
  datatype Step<T> = Skip | Add(value: T) | Throws

  function StepOption<T>(s: Step<T>): Option<T>
    requires !s.Throws?
  {
    if s.Add? then Some(s.value) else None
  }

  /**
    The MongoDB filter: the two flags, then the optional criteria. A list
    criterion is an `$all`: the field must contain every listed string.
  */
  datatype Filter = Filter(
    isDeleted: bool,
    isPublished: bool,
    authorId: Option<Id>,
    category: Option<string>,
    subcategory: Option<seq<string>>,
    tags: Option<seq<string>>)

  /**
    The `$all` tokens of a comma-separated parameter:
    `s.trim().split(',').map(t => t.trim())`.
  */
  function Tokens(s: string): (r: seq<string>)
    ensures |r| == |Split(Trim(s), ',')| >= 1
    ensures forall k | 0 <= k < |r| :: r[k] == Trim(Split(Trim(s), ',')[k])
  {
    TrimAll(Split(Trim(s), ','))
  }

  /** `pieces.map(t => t.trim())`. */
  function TrimAll(pieces: seq<string>): (r: seq<string>)
    ensures |r| == |pieces|
    ensures forall k | 0 <= k < |r| :: r[k] == Trim(pieces[k])
  {
    if pieces == [] then []
    else
      var rest := TrimAll(pieces[1..]);
      TrimAllCons(pieces, rest);
      [Trim(pieces[0])] + rest
  }

  lemma TrimAllCons(pieces: seq<string>, rest: seq<string>)
    requires |pieces| >= 1 && |rest| == |pieces| - 1
    requires forall k | 0 <= k < |rest| :: rest[k] == Trim(pieces[1..][k])
    ensures forall k | 0 <= k < |pieces| :: ([Trim(pieces[0])] + rest)[k] == Trim(pieces[k])
  {
    var r := [Trim(pieces[0])] + rest;
    assert r[0] == Trim(pieces[0]);
    forall k | 1 <= k < |pieces| ensures r[k] == Trim(pieces[k]) {
      assert r[k] == rest[k - 1];
      assert pieces[k] == pieces[1..][k - 1];
    }
  }

  /** Trimming pieces that are already trimmed changes nothing. */
  lemma {:induction false} TrimAllOfTrimmed(pieces: seq<string>)
    requires forall k | 0 <= k < |pieces| :: IsTrimmed(pieces[k])
    ensures TrimAll(pieces) == pieces
  {
    if pieces != [] {
      TrimOfTrimmed(pieces[0]);
      TrimAllOfTrimmed(pieces[1..]);
    }
  }

  /** Trimming only removes characters. */
  lemma TrimKeepsAbsent(s: string, c: char)
    requires c !in s
    ensures c !in Trim(s)
  {
    var t := TrimStart(s);
    assert t == s[|s| - |t|..];
    assert Trim(s) == t[..|Trim(s)|];
  }

  /**
    Every token is trimmed and free of commas, and the untrimmed pieces
    joined with commas give back the trimmed parameter.
  */
  lemma TokensAreTrimmedPieces(s: string)
    ensures forall k | 0 <= k < |Tokens(s)| :: IsTrimmed(Tokens(s)[k]) && ',' !in Tokens(s)[k]
    ensures Join(Split(Trim(s), ','), ',') == Trim(s)
  {
    var pieces := Split(Trim(s), ',');
    forall k | 0 <= k < |pieces| ensures IsTrimmed(Tokens(s)[k]) && ',' !in Tokens(s)[k] {
      TrimIsTrimmed(pieces[k]);
      TrimKeepsAbsent(pieces[k], ',');
    }
    JoinSplit(Trim(s), ',');
  }

  /** A join of trimmed, comma-free strings is itself trimmed. */
  lemma {:induction false} JoinOfTrimmedIsTrimmed(ts: seq<string>)
    requires |ts| >= 1
    requires forall k | 0 <= k < |ts| :: IsTrimmed(ts[k]) && ',' !in ts[k]
    ensures IsTrimmed(Join(ts, ','))
    ensures Join(ts, ',') == [] ==> ts == [""]
  {
    if |ts| > 1 {
      JoinOfTrimmedIsTrimmed(ts[1..]);
      var rest := Join(ts[1..], ',');
      var j := Join(ts, ',');
      assert j == ts[0] + [','] + rest;
      if ts[0] != [] {
        assert j[0] == ts[0][0];
      } else {
        assert j[0] == ',';
      }
      if rest != [] {
        assert j[|j| - 1] == rest[|rest| - 1];
      } else {
        assert j[|j| - 1] == ',';
      }
    }
  }

  /**
    Writing a list of trimmed, comma-free tokens as a comma-separated
    parameter and reading it back gives the same tokens.
  */
  lemma TokensRoundTrip(ts: seq<string>)
    requires |ts| >= 1
    requires forall k | 0 <= k < |ts| :: IsTrimmed(ts[k]) && ',' !in ts[k]
    ensures Tokens(Join(ts, ',')) == ts
  {
    var j := Join(ts, ',');
    assert Split(Trim(j), ',') == ts by {
      JoinOfTrimmedIsTrimmed(ts);
      TrimOfTrimmed(j);
      SplitJoin(ts, ',');
    }
    TrimAllOfTrimmed(ts);
  }

  /** `isValid(authorId) && isValidUserInput(authorId)`, then the id the store must cast. */
  function AuthorIdStep(v: Value, validId: string -> bool): (r: Step<Id>)
    ensures r.Skip? <==> !(IsValid(v) && IsValidUserInput(v))
    ensures r.Add? <==> IsValid(v) && IsValidUserInput(v) && IsValidObjectId(v, validId)
    ensures r.Add? ==> r.value == v.s
  {
    if IsValid(v) && IsValidUserInput(v) then
      if v.Str? && validId(v.s) then Add(v.s) else Throws
    else Skip
  }

  /** `isValid(category)`, then `category.trim()`. */
  function CategoryStep(v: Value): (r: Step<string>)
    ensures r.Skip? <==> !IsValid(v)
    ensures r.Add? <==> IsValid(v) && v.Str?
    ensures r.Add? ==> r.value == Trim(v.s) && r.value != [] && IsTrimmed(r.value)
  {
    if IsValid(v) then
      if v.Str? then ValidStringTrimsNonEmpty(v.s); Add(Trim(v.s)) else Throws
    else Skip
  }

  /** A list criterion: when `guard` is valid, the tokens of the `source` parameter. */
  function ListStep(guard: Value, source: Value): (r: Step<seq<string>>)
    ensures r.Skip? <==> !IsValid(guard)
    ensures r.Add? <==> IsValid(guard) && source.Str?
    ensures r.Add? ==> r.value == Tokens(source.s)
  {
    if IsValid(guard) then
      if source.Str? then Add(Tokens(source.s)) else Throws
    else Skip
  }

  /**
    The filter for a query; None when building or running it throws. As
    written, the subcategory criterion takes its tokens from `tags`.
  */
  function BuildFilter(q: Query, validId: string -> bool): (r: Option<Filter>)
    ensures r.Some? ==> !r.value.isDeleted && r.value.isPublished
    ensures r.None? <==>
      || AuthorIdStep(Param(q, "authorId"), validId).Throws?
      || CategoryStep(Param(q, "category")).Throws?
      || ListStep(Param(q, "subcategory"), Param(q, "tags")).Throws?
      || ListStep(Param(q, "tags"), Param(q, "tags")).Throws?
    ensures r.Some? ==>
      && r.value.authorId == StepOption(AuthorIdStep(Param(q, "authorId"), validId))
      && r.value.category == StepOption(CategoryStep(Param(q, "category")))
      && r.value.subcategory == StepOption(ListStep(Param(q, "subcategory"), Param(q, "tags")))
      && r.value.tags == StepOption(ListStep(Param(q, "tags"), Param(q, "tags")))
  {
    var authorId := AuthorIdStep(Param(q, "authorId"), validId);
    var category := CategoryStep(Param(q, "category"));
    var subcategory := ListStep(Param(q, "subcategory"), Param(q, "tags"));
    var tags := ListStep(Param(q, "tags"), Param(q, "tags"));
    if authorId.Throws? || category.Throws? || subcategory.Throws? || tags.Throws? then None
    else Some(Filter(false, true, StepOption(authorId), StepOption(category),
                     StepOption(subcategory), StepOption(tags)))
  }

  /** MongoDB's `$all`: every wanted string occurs in the field. */
  predicate ContainsAll(field: seq<string>, wanted: seq<string>) {
    forall k | 0 <= k < |wanted| :: wanted[k] in field
  }

  /** Whether a stored blog satisfies a filter. */
  predicate Matches(f: Filter, b: Blog) {
    && b.isDeleted == f.isDeleted
    && b.isPublished == Some(f.isPublished)
    && (f.authorId.Some? ==> b.authorId == f.authorId.value)
    && (f.category.Some? ==> b.category == f.category.value)
    && (f.subcategory.Some? ==> ContainsAll(b.subcategory, f.subcategory.value))
    && (f.tags.Some? ==> ContainsAll(b.tags, f.tags.value))
  }

  /** `blogModel.find(filter)`, as the set of ids of the matching blogs. */
  function Find(blogs: map<Id, Blog>, f: Filter): (r: set<Id>)
    ensures forall id :: id in r <==> id in blogs && Matches(f, blogs[id])
  {
    set id | id in blogs && Matches(f, blogs[id])
  }

  /**
    A blog matches a built filter only if it is live (not deleted, published),
    carries every tag token of the `tags` parameter and, when a subcategory
    is asked for, has those same tag tokens among its subcategories.
  */
  lemma MatchingBlogIsListable(q: Query, validId: string -> bool, b: Blog)
    requires BuildFilter(q, validId).Some?
    requires Matches(BuildFilter(q, validId).value, b)
    ensures !b.isDeleted && b.isPublished == Some(true)
    ensures IsValid(Param(q, "tags")) ==>
      forall k | 0 <= k < |Tokens(Param(q, "tags").s)| :: Tokens(Param(q, "tags").s)[k] in b.tags
    ensures IsValid(Param(q, "subcategory")) ==>
      forall k | 0 <= k < |Tokens(Param(q, "tags").s)| :: Tokens(Param(q, "tags").s)[k] in b.subcategory
  {
  }

  /** A subcategory parameter without a string `tags` parameter makes `getblog` throw. */
  lemma SubcategoryWithoutTagsThrows(q: Query, validId: string -> bool)
    requires IsValid(Param(q, "subcategory")) && !Param(q, "tags").Str?
    ensures BuildFilter(q, validId).None?
  {
  }

  /**
    The value of the subcategory parameter is never read, only its validity:
    two valid subcategory values build the same filter.
  */
  lemma SubcategoryValueIgnored(q: Query, v: Value, validId: string -> bool)
    requires IsValid(Param(q, "subcategory")) && IsValid(v)
    ensures BuildFilter(q["subcategory" := v], validId) == BuildFilter(q, validId)
  {
    var q' := q["subcategory" := v];
    assert Param(q', "authorId") == Param(q, "authorId");
    assert Param(q', "category") == Param(q, "category");
    assert Param(q', "tags") == Param(q, "tags");
    assert Param(q', "subcategory") == v;
  }

  /** The `isPublished` query parameter has no effect on the filter. */
  lemma IsPublishedParamIgnored(q: Query, v: Value, validId: string -> bool)
    ensures BuildFilter(q["isPublished" := v], validId) == BuildFilter(q, validId)
  {
    var q' := q["isPublished" := v];
    assert Param(q', "authorId") == Param(q, "authorId");
    assert Param(q', "category") == Param(q, "category");
    assert Param(q', "subcategory") == Param(q, "subcategory");
    assert Param(q', "tags") == Param(q, "tags");
  }

  /**
    `findOne({_id: blogId, isDeleted: false})`, as `updateblog` and
    `deleteById` run it: casting the id comes first, and a string that is not
    an ObjectId throws.
  */
  datatype Lookup = LookupThrows | Missing | Found(blog: Blog)

  function FindLive(blogs: map<Id, Blog>, blogId: string, validId: string -> bool): (r: Lookup)
    ensures r.LookupThrows? <==> !validId(blogId)
    ensures r.Found? <==> validId(blogId) && blogId in blogs && !blogs[blogId].isDeleted
    ensures r.Found? ==> r.blog == blogs[blogId]
  {
    if !validId(blogId) then LookupThrows
    else if blogId in blogs && !blogs[blogId].isDeleted then Found(blogs[blogId])
    else Missing
  }

  /** The outcome of `getblog`: the first status the client receives. */
  datatype ListOutcome = Listed(ids: set<Id>) | NoneFound | ListThrows {
    function Status(): int {
      match this
      case Listed(_) => 200
      case NoneFound => 404
      case ListThrows => 500
    }
  }

  /**
    `getblog`: an empty result answers 404 (the 200 sent after it never
    reaches the client); otherwise 200 with exactly the matching blogs.
  */
  function GetBlogs(blogs: map<Id, Blog>, q: Query, validId: string -> bool): (r: ListOutcome)
    ensures r.ListThrows? <==> BuildFilter(q, validId).None?
    ensures r.Listed? ==> r.ids != {} && r.ids == Find(blogs, BuildFilter(q, validId).value)
    ensures r.NoneFound? ==> Find(blogs, BuildFilter(q, validId).value) == {}
    ensures r.Listed? ==> forall id | id in r.ids ::
      id in blogs && !blogs[id].isDeleted && blogs[id].isPublished == Some(true)
  {
    match BuildFilter(q, validId)
    case None => ListThrows
    case Some(f) =>
      var found := Find(blogs, f);
      if found == {} then NoneFound else Listed(found)
  }
}
