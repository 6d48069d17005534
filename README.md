# Blog backend: a verified model of its handlers and schemas

This project models the core of a small Express/Mongoose blogging backend:

- the input checks `isValid`, `isValidUserInput` and `isValidObjectId`;
- the five blog handlers that decide something: `createBlog`, `getblog`,
  `updateblog`, `deleteById` and `deleteBlogByquery`;
- the Blog and Author schemas: required and trimmed fields, defaults, the
  `title` enumeration, the email setters and the email regular expression.

The database is replaced by an in-memory map from id to blog.
`mongoose.Types.ObjectId.isValid` is an uninterpreted predicate `validId`
on strings. The clock is a parameter `now`. A handler's result is its
outcome: the status the client receives first, plus the new or matched
records.

Modules, in dependency order:

| file | module | what it holds |
|---|---|---|
| wrappers.dfy | Wrappers | `Option` |
| js_value.dfy | JsValue | JavaScript values; truthiness, property access, `Object.keys(..).length`, `trim`, `split` |
| validators.dfy | Validators | `isValid`, `isValidUserInput`, `isValidObjectId` |
| schema_types.dfy | SchemaTypes | Mongoose's String and Boolean casts; the `trim` setter; `required` |
| blog_model.dfy | BlogModel | the Blog record; the schema that casts a draft into a stored blog |
| author_model.dfy | AuthorModel | the Author record; title enum; email normalisation and regex; unique emails |
| blog_create.dfy | BlogCreate | `createBlog` |
| blog_query.dfy | BlogQuery | the query-to-filter translation; matching; `getblog`; the live-blog lookup |
| blog_update.dfy | BlogUpdate | `updateblog` as written and corrected; the update document; `$addToSet` |
| blog_store.dfy | BlogStore | the collection as a class; the two soft deletes; create and update |

The model follows the code wherever the code and the system's documentation
differ:

- For an empty result, `getblog` answers 404. The 200 sent after it never
  reaches the client.
- The subcategory filter is built from the `tags` parameter.
- A delete by query sets only `isDeleted`. The `deletedAt` value is not in
  the schema, so it is dropped.
- An update's `isPublished` is modelled as the code writes it, and
  separately in a corrected form (see Findings).

## Model

| member | source | states |
|---|---|---|
| JsValue.KeyCount | src/controller/blogController.js:21-23 | `Object.keys(v).length` throws exactly on undefined and null; it is zero exactly for booleans, numbers, "", [] and {} |
| JsValue.TrimIsTrimmed | src/controller/blogController.js:14 | `trim` leaves no whitespace at either end |
| JsValue.TrimEmptyIff | src/controller/blogController.js:14 | a trimmed string is empty iff the string is all whitespace |
| JsValue.TrimIdempotent | src/controller/blogController.js:111 | trimming twice is trimming once |
| JsValue.TrimOfTrimmed | src/controller/blogController.js:111 | `trim` leaves a trimmed string unchanged |
| JsValue.Split | src/controller/blogController.js:118 | `split(',')` gives at least one piece, and no piece contains a comma |
| JsValue.JoinSplit | src/controller/blogController.js:118 | joining the pieces of a split with the separator gives back the string |
| JsValue.SplitJoin | src/controller/blogController.js:118 | splitting a join of separator-free pieces gives back the pieces |
| Validators.IsValidExactly | src/controller/blogController.js:10-19 | `isValid` is false exactly for undefined, null and all-whitespace strings; false, 0, [] and {} are valid |
| Validators.ValidStringTrimsNonEmpty | src/controller/blogController.js:14-17 | a valid string is non-empty and trimmed after trimming |
| SchemaTypes.NatToStringRoundTrip | src/models/blogModel.js:6 | the numeral a number is cast to reads back as the number |
| SchemaTypes.IntToString | src/models/blogModel.js:6 | a number cast to a String path gives a non-empty, trimmed string |
| SchemaTypes.CastString | src/models/blogModel.js:6 | a String path accepts exactly strings, numbers and booleans; a string is kept as it is |
| SchemaTypes.CastBoolean | src/models/blogModel.js:14 | a non-null value cast to a Boolean path is true exactly for true, "true", 1, "1" and "yes", and false exactly for false, "false", 0, "0" and "no"; any other value fails (null and undefined are handled by the callers before the cast) |
| SchemaTypes.CastBooleanAgreesWithTruthy | src/models/blogModel.js:14 | where the Boolean cast succeeds it equals JavaScript truthiness, except for "false", "0" and "no" |
| SchemaTypes.CastTrimmed | src/models/blogModel.js:6 | the `trim` setter succeeds exactly when the String cast does, and stores the trim of the cast, which is trimmed |
| SchemaTypes.CastRequiredTrimmed | src/models/blogModel.js:6-10 | a required trimmed path succeeds iff the cast succeeds and its trim is non-empty, and then stores that trim |
| SchemaTypes.CastStrings | src/models/blogModel.js:9-11 | a string array casts iff every element casts; the result has the same length and each element is that element's cast |
| BlogModel.CastBlog | src/models/blogModel.js:5-17 | a draft is stored iff every path casts; the stored blog is well formed, not deleted, keeps the draft's author and publication time, its title, body and category are the trims of the cast inputs, its tags and subcategory are the cast arrays (tags trimmed) or the empty default, and `isPublished` is the Boolean cast or the default false |
| BlogModel.TrimmedTags | src/models/blogModel.js:9 | every tag of a cast tag array is trimmed |
| BlogModel.FlagsDefaultFalse | src/models/blogModel.js:13-14 | with no `isPublished` supplied, both flags are stored as false |
| AuthorModel.ParseTitle | src/models/authorModel.js:15-19 | a title is accepted iff it is "Mr", "Mrs" or "Miss" |
| AuthorModel.ParseTitleName | src/models/authorModel.js:15-19 | every title round-trips through its spelling |
| AuthorModel.ToLower | src/models/authorModel.js:24 | lower-casing keeps the length and lower-cases each character |
| AuthorModel.NormaliseEmail | src/models/authorModel.js:20-25 | the stored email is the lower-casing of the trimmed input, character by character, so it is trimmed and has no upper-case letter; it is empty iff the input is all whitespace |
| AuthorModel.NormaliseEmailIdempotent | src/models/authorModel.js:20-25 | normalising a stored email again changes nothing |
| AuthorModel.MatchedDottedIsRun | src/models/authorModel.js:28 | a string matching `\w+([\.-]?\w+)*` is a run of word characters and single separators with a word character at both ends |
| AuthorModel.RunIsMatchedDotted | src/models/authorModel.js:28 | every such run matches `\w+([\.-]?\w+)*` |
| AuthorModel.DomainOfRegex | src/models/authorModel.js:28 | a domain matching `\w+([\.-]?\w+)*(\.\w{2,3})+` ends in a dot and two or three word characters after a run |
| AuthorModel.RegexOfDomain | src/models/authorModel.js:28 | every such domain splits into the two parts of the expression |
| AuthorModel.RegexImpliesValidator | src/models/authorModel.js:27-29 | every string the expression matches passes the recogniser |
| AuthorModel.ValidatorImpliesRegex | src/models/authorModel.js:27-29 | every string the recogniser accepts is matched by the expression |
| AuthorModel.EmailValidatorMatchesRegex | src/models/authorModel.js:27-29 | the executable email recogniser accepts exactly the strings the regular expression matches |
| AuthorModel.ValidateAuthor | src/models/authorModel.js:4-37 | an author is stored iff fname, lname and password are present after trimming, the title is enumerated, and the normalised email matches the expression; the stored names and password are the trims of the cast inputs, the title is the given spelling, and the email is the normalised input |
| AuthorModel.InsertAuthor | src/models/authorModel.js:23 | an insert is refused for an invalid author, a used id, or an email a stored author already has; otherwise it adds exactly that author |
| AuthorModel.InsertKeepsEmailsUnique | src/models/authorModel.js:23 | the unique index keeps all stored emails distinct |
| BlogCreate.CreateBlog | src/controller/blogController.js:26-94 | the checks run in order; a rejection means every earlier check passed and its own check failed; the author test fails iff all checks pass and the id is an ObjectId of no stored author; a blog is created iff all checks pass, the id is an ObjectId of a stored author and the schema accepts the draft, and it is then the schema's cast of the draft, well formed and live; 500 iff the body is null or undefined, or the checks pass and the id is not an ObjectId or the schema rejects the draft |
| BlogCreate.MissingFieldRejected | src/controller/blogController.js:32-51 | a failing check answers 400, from that check or an earlier one |
| BlogCreate.CreatedPublication | src/controller/blogController.js:63-64 | `publishedAt` is set exactly when the input `isPublished` is truthy, and is then now; a falsy input stores false, a truthy one its Boolean cast |
| BlogCreate.ListFieldCast | src/controller/blogController.js:67-83 | an array gives its cast elements; a non-empty string gives one element; anything else gives the empty default |
| BlogCreate.CreatedLists | src/controller/blogController.js:67-85 | a created blog's lists are the draft's lists as the schema casts them |
| BlogCreate.CreatedTags | src/controller/blogController.js:67-74 | created tags are the array's elements cast and trimmed, or the one trimmed string, or none |
| BlogCreate.CreatedSubcategory | src/controller/blogController.js:76-83 | created subcategories follow the same rule, untrimmed |
| BlogCreate.CreatedFieldsTrimmed | src/controller/blogController.js:58-62 | a created title, body and category are the request's strings, trimmed |
| BlogQuery.Tokens | src/controller/blogController.js:118 | there is one token per comma-separated piece of the trimmed parameter, and each token is that piece trimmed |
| BlogQuery.TokensAreTrimmedPieces | src/controller/blogController.js:118 | every token is trimmed and comma-free, and the pieces rejoin to the trimmed parameter |
| BlogQuery.TokensRoundTrip | src/controller/blogController.js:118-119 | writing trimmed, comma-free tokens as a parameter and reading it back gives the same tokens |
| BlogQuery.CategoryStep | src/controller/blogController.js:110-112 | the category criterion is skipped iff the value is not valid; a string is added trimmed and non-empty; any other value throws |
| BlogQuery.BuildFilter | src/controller/blogController.js:104-120 | the filter always requires not deleted and published; it throws iff some step throws; its subcategory criterion is built from `tags` |
| BlogQuery.MatchingBlogIsListable | src/controller/blogController.js:104-120 | a matching blog is live and published, and holds every tag token among its tags, and among its subcategories when a subcategory is asked for |
| BlogQuery.SubcategoryWithoutTagsThrows | src/controller/blogController.js:113-116 | a subcategory parameter without a string `tags` parameter throws |
| BlogQuery.SubcategoryValueIgnored | src/controller/blogController.js:113-116 | two valid subcategory values build the same filter |
| BlogQuery.IsPublishedParamIgnored | src/controller/blogController.js:254 | the `isPublished` parameter never changes the filter |
| BlogQuery.GetBlogs | src/controller/blogController.js:96-134 | the handler throws iff building the filter throws; it answers 200 with exactly the matching blogs, all live and published, when there are any, and 404 otherwise |
| BlogUpdate.BuildUpdateAsWritten | src/controller/blogController.js:165-210 | a defined `isPublished` becomes a date or null; `publishedAt` is never set; only array tags and subcategories are added, and then their elements |
| BlogUpdate.BuildUpdate | src/controller/blogController.js:165-210 | title, body and category are set iff valid, to the request's values; a defined `isPublished` is set as given, with `publishedAt` now or null; a truthy array adds its elements to its list, a non-empty string adds itself, and anything else adds nothing |
| BlogUpdate.AddToSet | src/controller/blogController.js:190-210 | `$addToSet` keeps the old array as a prefix; the result holds exactly the old and the new values |
| BlogUpdate.AddToSetKeepsNoDup | src/controller/blogController.js:190-210 | `$addToSet` never introduces a duplicate |
| BlogUpdate.AddToSetOfPresent | src/controller/blogController.js:190-210 | adding values already present changes nothing |
| BlogUpdate.AddToSetIdempotent | src/controller/blogController.js:190-210 | repeating the same `$addToSet` changes nothing |
| BlogUpdate.AddToSetExample | src/controller/blogController.js:193 | an illustration of the general rule: a present or repeated value is added once |
| BlogUpdate.ApplyUpdate | src/controller/blogController.js:213 | the update succeeds iff every set path casts; author and deletion flag never change; unset fields keep their values; a set text field becomes the trim of the cast value; the lists only grow |
| BlogUpdate.UpdatedFields | src/controller/blogController.js:213 | after a successful update, `isPublished` is the Boolean cast of its value or null, `publishedAt` the date or null, and each list `$addToSet` of the cast new elements onto the old list |
| BlogUpdate.UpdateBlogAsWritten | src/controller/blogController.js:136-220 | as written, the handler only ever answers 400 or 500; it answers 400 iff the blog id or the caller id is a valid ObjectId, and 500 iff neither is, because the lookup cannot cast the blog id |
| BlogUpdate.UpdateBlog | src/controller/blogController.js:136-220 | with the checks corrected: 400 iff an id is invalid; 404 iff the blog is missing or deleted; 401 iff the caller is not its author; for the owner of a live blog, 400 iff the body has no keys, 500 iff the body is null or undefined or the update does not cast, and otherwise the blog becomes the update applied |
| BlogUpdate.ValidCastIsRequired | src/controller/blogController.js:169-182 | a valid value set on a trimmed path stores a non-empty trimmed string |
| BlogUpdate.AddedTagsTrimmed | src/controller/blogController.js:190-199 | tags added by `$addToSet` are trimmed like the stored ones |
| BlogUpdate.UpdateKeepsWellFormed | src/controller/blogController.js:167-213 | the corrected update keeps a blog well formed, with the same author and deletion flag |
| BlogUpdate.UpdatePublication | src/controller/blogController.js:184-188 | corrected: a defined `isPublished` is stored as its Boolean cast, or as null; `publishedAt` becomes now iff it is truthy, and null otherwise |
| BlogUpdate.PublicationAsWritten | src/controller/blogController.js:184-188 | as written: a truthy `isPublished` makes the update throw, and a falsy one stores null |
| BlogUpdate.StringListAsWritten | src/controller/blogController.js:195-207 | as written: a string `tags` leaves the tags unchanged, and a string `subcategory` leaves the subcategories unchanged, whatever else the body holds |
| BlogUpdate.StringTagAdded | src/controller/blogController.js:190-199 | corrected: a non-empty string tag is added, trimmed, with `$addToSet`, so the blog then holds it |
| BlogUpdate.StringSubcategoryAdded | src/controller/blogController.js:201-210 | corrected: a non-empty string subcategory is added with `$addToSet`, untrimmed, so the blog then holds it |
| BlogUpdate.NewsTagAsWritten | src/controller/blogController.js:195-207 | as written, the request `{tags: "news"}` returns the blog unchanged |
| BlogUpdate.NewsTagCorrected | src/controller/blogController.js:195-207 | corrected, the request `{tags: "news"}` adds "news" to the tags with `$addToSet`, so the blog then holds it |
| BlogUpdate.UpdateKeepsListsDistinct | src/controller/blogController.js:190-210 | for a blog whose lists have no repeats (creation does not ensure this: `tags: ["a","a"]` is stored as given), the corrected update keeps them free of repeats, and the new tags are exactly the old ones and the cast added ones |
| BlogUpdate.TitleOnlyDocument | src/controller/blogController.js:169-172 | a body holding only a valid title sets only the title |
| BlogUpdate.OwnerUpdatesTitle | src/controller/blogController.js:143-215 | corrected: the owner of a live blog who sends a title gets it stored trimmed, and nothing else changes |
| BlogStore.StoredOwnerUpdatesTitle | src/controller/blogController.js:143-215 | in a consistent collection, the author of any live blog who sends a valid title gets it stored trimmed, and the blog stays well formed |
| BlogStore.DeleteByIdOutcome | src/controller/blogController.js:224-246 | the handler throws iff the id is not an ObjectId; it deletes iff the blog is stored and live, and then only that id; it never answers 400 |
| BlogStore.DeleteByQueryOutcome | src/controller/blogController.js:249-300 | 400 iff the caller id is invalid or the query is empty; 500 iff the filter throws; otherwise 404 iff no blog matches, and a delete iff some blog does, covering exactly the matching blogs, all live |
| BlogStore.MarkDeletedKeepsBlogs | src/controller/blogController.js:291 | the bulk update keeps every key and changes only the `isDeleted` flag of the named blogs |
| BlogStore.DeleteByQueryDeletesListed | src/controller/blogController.js:256-283 | a delete by query deletes exactly what `getblog` lists for the same query |
| BlogStore.DeletedByQueryNotListed | src/controller/blogController.js:283-291 | after a delete by query, the same query lists nothing |
| BlogStore.DeletedNeverListed | src/controller/blogController.js:104 | a deleted blog is never listed, whatever the query |
| BlogStore.UnreadKeysDeleteEverything | src/controller/blogController.js:254-283 | a non-empty query with only keys the filter ignores deletes every live published blog, whoever wrote it |
| BlogStore.PublishedBlogListed | src/controller/blogController.js:104-123 | a live published blog is listed by a query without criteria |
| BlogStore.StoreKeepsConsistent | src/models/blogModel.js:5-17 | storing a well-formed blog of a known author under an ObjectId keeps the collection consistent |
| BlogStore.Store.constructor | src/models/blogModel.js:19 | the collection starts empty and consistent |
| BlogStore.Store.Create | src/controller/blogController.js:85 | the outcome is `createBlog`'s; a created blog is stored under the new id; nothing else changes; consistency is kept |
| BlogStore.Store.Update | src/controller/blogController.js:213 | the outcome is the corrected handler's; only the updated blog is replaced, and it is well formed with a stored author; consistency is kept |
| BlogStore.Store.DeleteById | src/controller/blogController.js:238 | only the one live blog's `isDeleted` becomes true; nothing else changes |
| BlogStore.Store.DeleteByQuery | src/controller/blogController.js:291 | exactly the matching blogs get `isDeleted` true; nothing else changes |

## Left out

- Numbers are integers. Non-integer numbers, NaN and the infinities are not modelled.
- SchemaTypes.IntToString: writes every integer in plain decimal. JavaScript's `String(n)` switches to exponent form from 1e21 and cannot represent integers past 2^53 exactly; neither is modelled.
- SchemaTypes.CastString: every object fails the String cast. Mongoose also accepts an object with a string `_id` or with its own `toString`; those are not modelled.
- Ids are compared as the strings the request holds. The store's cast to an ObjectId also identifies different spellings of one id (upper- and lower-case hex, or a 12-character string and its hex form); the model treats them as different ids, so such a request finds no author or blog, and is not the owner.
- Ids other than strings are not modelled. `isValidObjectId` of a non-string is false, and casting one is a failure. Mongoose also accepts numbers and ObjectId instances, and casts arrays inside `$in`.
- `ObjectId.isValid` is abstract. Casting a string id is taken to succeed exactly when it is valid.
- Store faults are not modelled, apart from cast and validation errors, which answer 500.
- Concurrency is not modelled. This covers the read-then-write race in `updateblog` and `deleteBlogByquery`, and the unique email index under concurrent inserts.
- AuthorModel.ToLower: lower-cases only the ASCII letters. JavaScript's `toLowerCase` also maps other Unicode letters.
- The `publishedAt` default (`Date.now()` evaluated once at load time) is not modelled. `createBlog` always supplies the field, as now or null.
- The 200 sent after a 404 in `getblog`, and the throw after a 404 in `deleteById`, are not modelled. Only the first status the client sees is.
- `deletedAt` in the bulk delete is not modelled. It is not a schema path, so it is dropped.
- An array element that is null or undefined is treated as a failed cast.
- BlogUpdate.SetPublishedAt: a `publishedAt` value other than a date or null is treated as a failed cast. No handler produces one.
- Error messages, response bodies, and the `createdAt`/`updatedAt` timestamps are not modelled.
- An empty `$addToSet` object (a truthy non-array tag as written) is taken to change nothing.
- Authentication is not part of this model. The caller's id is a parameter.
- Author registration handlers are not part of this model. Only the schema and the unique index are.

## Findings

| source | as written | input that shows it | evidently intended | confidence | as-written member | corrected member |
|---|---|---|---|---|---|---|
| src/controller/blogController.js:143-149 | answers 400 when the blog id IS a valid ObjectId, and again when the caller's id is one | the author of a live blog, with valid ids, sends `{title: "x"}`: 400 | `if (!isValidObjectId(...))` | high, not executed | BlogUpdate.UpdateBlogAsWritten | BlogUpdate.UpdateBlog |
| src/controller/blogController.js:186-187 | a defined `isPublished` is replaced by `new Date()` or null | `isPublished: true` fails the Boolean cast: 500. `isPublished: false` stores null | keep `isPublished` and set `publishedAt` to now or null | high, not executed | BlogUpdate.PublicationAsWritten | BlogUpdate.UpdatePublication |
| src/controller/blogController.js:195-207 | `typeof tags === "String"` is never true | `tags: "news"` adds nothing | `typeof tags === "string"` adds the one tag | high, not executed | BlogUpdate.NewsTagAsWritten | BlogUpdate.NewsTagCorrected |
