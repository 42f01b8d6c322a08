# Perfect Days: posts, images, likes and threaded comments

This project models the data engine of the "Perfect Days" photo journal in Dafny.
The engine stores posts that carry one or more images. Users like posts and
comment on them, and replies are comments whose `parent_id` names another comment.
Each user can browse their own posts year by year in an archive.

The model has five modules:

- `Errors` (`errors.dfy`): an `Option`, a `Result`, and the ways an operation
  fails. Each failure is named after its cause. The comment beside it quotes the
  service's message where there is one.
- `Schema` (`schema.dfy`): the four tables `posts`, `post_images`, `user_likes` and
  `user_comment` as maps keyed by id. Likes are a set of pairs, because the pair is
  the table's primary key. The module also has the varchar(255) limits, the
  foreign-key invariant `Intact`, and the `ON DELETE CASCADE` rules:
  - deleting a post removes its images, likes, comments and every reply below them;
  - deleting a user removes that user's posts, likes and comments;
  - deleting a comment removes its replies, transitively.
- `Payloads` (`payloads.dfy`): the request bodies and the request validator's
  rules. A title has at least one character. Files are jpeg, png or webp of at most
  6 MiB. The edit body is the partial of the upload body. A comment is not empty.
  The module also derives the file extension from the content type.
- `PostQueries` (`queries.dfy`): the read operations, as functions of the tables:
  - a post by id, with its image rows and its like and comment counts;
  - the public feed, newest first;
  - the per-year archive statistics and the archive of one year;
  - the posts at a location;
  - a post's images;
  - a post's comments with their replies.
- `PerfectDays` (`store.dfy`): the write operations, as methods of a `Store` object
  that holds the tables, the set of stored image files and the key counter:
  - upload;
  - edit, including the replacement of the post's images;
  - archive toggle;
  - delete;
  - like toggle;
  - comment.

Every method of `Store` except `RemoveFiles` keeps the invariant `Valid()`:

- every foreign key points at a stored row;
- every key was drawn from the counter;
- every image row's file is in the file store.

`RemoveFiles` only unlinks files. It neither needs nor promises `Valid()`, because
removing a file that an image row still names breaks the invariant. Its callers
delete those rows in the same step and so re-establish it. Each method states its
whole new state in terms of the old one: every table, the file set and the key counter.

Environment choices:

- Keys are drawn from one counter `nextId`, shared by all tables. The database
  uses `uuidv7()` for this.
- The current time is a parameter `now`.
- A failing file deletion is a parameter `failing`: the set of files whose unlink
  throws.

## Model

| member | source | states |
|---|---|---|
| Schema.DeletePost | src/db/schema.ts:96-158 | Deleting post `pid` removes exactly that post. It removes exactly the image rows and likes of that post. It removes exactly the comments on that post and every comment descending from one of them through parent_id. Surviving rows are unchanged. |
| Schema.Cascade | src/db/schema.ts:96-158 | Deleting a set of posts and a set of users keeps a post iff it is not deleted. An image row is kept iff its post stays. A like is kept iff neither its post nor its user goes. A comment is kept iff it is not a cascade root and descends from no cascade root. A cascade root is a comment on a deleted post or by a deleted user. Kept rows are unchanged. |
| Schema.CascadeKeepsIntact | src/db/schema.ts:116-152 | A cascade leaves no dangling foreign key: post_id of images, likes and comments, and parent_id of comments. |
| Schema.DeleteComments | src/db/schema.ts:150-152 | Deleting the comments `roots` keeps a comment iff it is not a root and descends from no root. |
| Schema.DoomedIffRootOrDescendant | src/db/schema.ts:150-152 | The step-by-step parent_id cascade removes a comment iff it is a root or a descendant of a root. Proved by induction along the parent chain. |
| Schema.OwnedBy | src/db/schema.ts:102 | A post belongs to `u` iff its user_id is `u`. |
| Schema.DeleteUser | src/db/schema.ts:102-152 | Deleting user `u` keeps a post iff `u` does not own it. An image row is kept iff its post is not `u`'s. A like is kept iff it is not `u`'s and not on a post of `u`. A comment is kept iff it is not `u`'s, is not on a post of `u`, and descends from no such comment. Kept rows are unchanged. |
| Schema.Replies | src/db/schema.ts:204-218 | The replies of comment `k` are exactly the comments whose parent_id is `k`. |
| Schema.DeleteComment | src/db/schema.ts:150-152 | Deleting comment `cid` removes it and exactly the comments descending from it. Surviving comments are unchanged. The other tables are untouched. |
| Schema.RepliesGoWithParent | src/db/schema.ts:150-152 | On intact tables, every reply of a deleted comment is deleted with it. |
| Payloads.UpdateIsPartialOfUpload | src/modules/perfect-days/perfect-days.model.ts:3-18 | A valid upload body, read as an edit body, is a valid edit body. The empty edit body is valid. |
| Payloads.ArchiveFlag | src/modules/perfect-days/perfect-days.service.ts:74 | The archive flag is set exactly when the archive text is present and is the text "true". Any other text, or no text, gives false. |
| Payloads.UpToSlash | src/modules/perfect-days/perfect-days.service.ts:79 | The text up to the first '/' is a prefix of the input and contains no '/'. It is the whole input, or it stops right before a '/'. |
| Payloads.Extension | src/modules/perfect-days/perfect-days.service.ts:79 | The extension taken from a content type contains no '/'. |
| Payloads.ExtensionOfSubtype | src/modules/perfect-days/perfect-days.service.ts:79 | For `kind/subtype` without further slashes, the extension is `subtype`. |
| Payloads.ValidFileExtension | src/modules/perfect-days/perfect-days.model.ts:7-10 | A file that passes the type check is stored with the extension jpeg, png or webp. |
| Payloads.ValidFile | src/modules/perfect-days/perfect-days.model.ts:7-10 | A file is accepted when its type is image/jpeg, image/png or image/webp and it has at most 6 MiB. |
| Payloads.ValidFiles | src/modules/perfect-days/perfect-days.model.ts:7-10 | Every uploaded file is accepted. |
| Payloads.ValidUpload | src/modules/perfect-days/perfect-days.model.ts:3-15 | An upload body has a title of at least one character and a list of accepted files. The other fields are free text or absent. |
| Payloads.ValidUpdate | src/modules/perfect-days/perfect-days.model.ts:18 | In an edit body every field may be absent, and a present field obeys the upload rule for it. |
| Payloads.ValidComment | src/modules/perfect-days/perfect-days.model.ts:54-58 | A comment body has text of at least one character. The parent id may be absent. |
| Schema.Fits | src/db/schema.ts:100-103 | A post row fits its table when the title and the location have at most 255 characters. |
| Schema.ToVarchar | src/db/schema.ts:100-103 | Storing text in a varchar(255) column succeeds iff the text has at most 255 characters or everything past the 255th is a space. What is stored has at most 255 characters, is a prefix of the text, and is the whole text when that fits. |
| Schema.ToVarcharCutsOnlySpaces | src/db/schema.ts:100-103 | The column drops nothing but trailing spaces: the text equals what is stored followed by spaces. |
| Schema.StoredRow | src/db/schema.ts:96-114 | The posts table accepts a row iff its title and its location, when present, can be stored. The stored row fits. It differs from the given row only in title and location, which are the stored column values. A row that already fits is stored unchanged. |
| Schema.PaddedTitleIsCut | src/db/schema.ts:100 | A 255-character title followed by any number of spaces is stored as those 255 characters, not refused. |
| Schema.Intact | src/db/schema.ts:96-152 | Every row sits under its own key and every post row fits. Every post_id of images, likes and comments names a stored post. Every parent_id names a stored comment inserted earlier. |
| PostQueries.ImagesOf | src/modules/perfect-days/perfect-days.service.ts:142-147 | A post's images are exactly the image rows whose post_id is that post. |
| PostQueries.LikesOf | src/modules/perfect-days/perfect-days.service.ts:150-153 | A post's likes are exactly the like rows whose post_id is that post. |
| PostQueries.CommentIdsOf | src/modules/perfect-days/perfect-days.service.ts:154-157 | A post's comments are exactly the comment rows whose post_id is that post. |
| PostQueries.GetPostById | src/modules/perfect-days/perfect-days.service.ts:131-165 | Fails with NotFound iff no post has the key. Otherwise it returns the post's row, exactly its image rows, and its like and comment counts. |
| PostQueries.NewerTotal | src/modules/perfect-days/perfect-days.service.ts:125 | The feed order is total on distinct posts: exactly one of any two posts comes first. |
| PostQueries.NewerTransitive | src/modules/perfect-days/perfect-days.service.ts:125 | The feed order is transitive. |
| PostQueries.NewestExists | src/modules/perfect-days/perfect-days.service.ts:125 | Every non-empty set of posts has a newest post. |
| PostQueries.NewestFirst | src/modules/perfect-days/perfect-days.service.ts:125 | Orders a set of keys newest first. Each key appears exactly once, and every earlier key is newer than every later one. |
| PostQueries.PublicIds | src/modules/perfect-days/perfect-days.service.ts:98 | A post is public iff its archive flag is false. |
| PostQueries.AllPosts | src/modules/perfect-days/perfect-days.service.ts:96-129 | The feed has as many entries as there are non-archived posts. Every entry shows a non-archived post, as its row with its images and counts, and every non-archived post is shown. No entry was created before a later entry. |
| PostQueries.YearsOf | src/modules/perfect-days/perfect-days.service.ts:18-25 | A year is listed iff `u` created a post in it. |
| PostQueries.PostIdsInYear | src/modules/perfect-days/perfect-days.service.ts:21-25 | Exactly the posts `u` created in that year. |
| PostQueries.DescendingYears | src/modules/perfect-days/perfect-days.service.ts:26 | Lists the given years, each once, strictly latest first. |
| PostQueries.ArchiveStats | src/modules/perfect-days/perfect-days.service.ts:15-31 | Fails with EmptyResult iff `u` owns no post. Otherwise the list runs strictly latest year first. Each entry counts `u`'s posts of that year, and that count is positive. Every year in which `u` created a post is listed. |
| PostQueries.YearCounts | src/modules/perfect-days/perfect-days.service.ts:21-26 | Pairs each year with its post count, and the result satisfies the archive-statistics property. |
| PostQueries.YearsCoverPosts | src/modules/perfect-days/perfect-days.service.ts:27-29 | The grouped query is empty iff the user owns no post. |
| PostQueries.ArchiveByYear | src/modules/perfect-days/perfect-days.service.ts:32-45 | Selecting created_at in [year-01-01, (year+1)-01-01) returns exactly `u`'s posts of that calendar year. It fails with EmptyResult iff there are none. |
| PostQueries.RowsOfIds | src/db/schema.ts:97-99 | Distinct keys give as many distinct rows, because each row carries its own key. |
| PostQueries.StatsMatchByYear | src/modules/perfect-days/perfect-days.service.ts:15-45 | For every year getArchiveStats reports, getArchiveByYear succeeds. It lists exactly as many posts as the reported count. |
| PostQueries.PostByLocation | src/modules/perfect-days/perfect-days.service.ts:46-54 | Returns exactly the posts whose location equals the argument, of any user and archived or not. It fails with EmptyResult iff there are none. |
| PostQueries.GetImagePostByPostIdAsWritten | src/modules/perfect-days/perfect-days.service.ts:167-177 | As written, the lookup succeeds iff the post exists and some image row's own id equals the post id. It then returns that single row. |
| PostQueries.ImageLookupAsWrittenFails | src/modules/perfect-days/perfect-days.service.ts:172 | When no image key equals a post key, the lookup as written fails for every post. |
| PostQueries.ImageLookupAsWrittenMissesImage | src/modules/perfect-days/perfect-days.service.ts:172 | A post with one image: the lookup as written fails with ImagesNotFound, and the corrected lookup returns that image. |
| PostQueries.GetImagePostByPostId | src/modules/perfect-days/perfect-days.service.ts:167-177 | Corrected lookup. Fails with NotFound when the post is missing. Fails with ImagesNotFound iff the post has no image row. Otherwise it returns exactly the post's image rows. |
| PostQueries.RepliesOf | src/db/schema.ts:204-218 | A comment's replies are exactly the stored comments whose parent_id is that comment. |
| PostQueries.CommentsOfPost | src/modules/perfect-days/perfect-days.service.ts:366-388 | Fails with NotFound iff the post is missing. Otherwise every listed entry is a comment on the post with exactly its direct replies, and every comment on the post is listed. |
| PostQueries.ReplyListedTwice | src/modules/perfect-days/perfect-days.service.ts:370-385 | A reply on the post appears as an entry of its own and also among its parent's replies. |
| PerfectDays.NullIfEmpty | src/modules/perfect-days/perfect-days.service.ts:72-73 | Replacing empty text by NULL never stores the empty text. It keeps non-empty text and turns empty text into NULL. |
| PerfectDays.NewPost | src/modules/perfect-days/perfect-days.service.ts:65-76 | The inserted row carries the payload's title, description and location and the caller as owner. Each coordinate is the payload's text, or NULL when that text is empty or absent. The row is archived exactly when the archive text is "true". Both timestamps are `now`. |
| PerfectDays.Merge | src/modules/perfect-days/perfect-days.service.ts:228-241 | Each present field of the edit replaces the stored one; absent fields are kept. Archive is true exactly for "true" when present. Coordinates, owner, key and creation time are kept. updated_at becomes `now`. |
| PerfectDays.MergeIdempotent | src/modules/perfect-days/perfect-days.service.ts:228-241 | Applying the same edit twice gives what one application gives. |
| PerfectDays.MergeEmptyTouchesOnlyUpdatedAt | src/modules/perfect-days/perfect-days.service.ts:228-241 | The empty edit changes only updated_at. |
| PerfectDays.Toggled | src/modules/perfect-days/perfect-days.service.ts:314-338 | A toggle adds the like iff it was absent. Every other like is unchanged. |
| PerfectDays.ToggleTwiceRestores | src/modules/perfect-days/perfect-days.service.ts:310-339 | Toggling twice restores the likes. |
| PerfectDays.ToggleMovesCountByOne | src/modules/perfect-days/perfect-days.service.ts:310-339 | A toggle lowers the post's like count by one when the like existed, and raises it by one otherwise. |
| PerfectDays.ToggleKeepsOtherCounts | src/modules/perfect-days/perfect-days.service.ts:310-339 | A toggle leaves every other post's likes unchanged. |
| PerfectDays.NewImageRows | src/modules/perfect-days/perfect-days.service.ts:78-92 | One row per file, under consecutive fresh keys. Each row belongs to the post and names a file of that post carrying the row's own key. |
| PerfectDays.NewImageRowsCount | src/modules/perfect-days/perfect-days.service.ts:78-92 | As many image rows as files. |
| PerfectDays.NewImageRowsExtensions | src/modules/perfect-days/perfect-days.service.ts:79-80 | Files that pass validation are stored as .jpeg, .png or .webp. |
| PerfectDays.UploadedImagesAreNew | src/modules/perfect-days/perfect-days.service.ts:55-94 | After an upload, the new post's images are exactly the rows written for its files, one per file. |
| PerfectDays.NewImageRowsGrow | src/modules/perfect-days/perfect-days.service.ts:214-225 | One more file adds one row under the next key, and one stored file. |
| PerfectDays.WithoutPost | src/modules/perfect-days/perfect-days.service.ts:212 | Deleting a post's image rows keeps exactly the rows of other posts, unchanged. |
| PerfectDays.ReplacedImagesAreNew | src/modules/perfect-days/perfect-days.service.ts:191-226 | After the images are replaced, the post's images are exactly the new rows. Every other post keeps its images. |
| PerfectDays.OtherFilesKept | src/modules/perfect-days/perfect-days.service.ts:197-210 | Unlinking one post's files never removes another post's file. |
| PerfectDays.DeletedPostKeepsValid | src/modules/perfect-days/perfect-days.service.ts:272-308 | Deleting a post and unlinking its files keeps foreign keys, keys and stored files consistent. |
| PerfectDays.CommentAddedKeepsIntact | src/modules/perfect-days/perfect-days.service.ts:356-359 | A comment inserted under a fresh key, on a stored post, with a stored parent, keeps the tables consistent. |
| PerfectDays.Store.constructor | src/db/schema.ts:96-158 | An empty store is valid. |
| PerfectDays.Store.WriteImage | src/modules/perfect-days/perfect-days.service.ts:78-90 | Writes one file and inserts its row under the next key. Everything else is unchanged. |
| PerfectDays.Store.WriteImages | src/modules/perfect-days/perfect-days.service.ts:78-92 | Writes one file and one row per uploaded file. The new image rows and files are exactly those of NewImageRows. The store stays valid. |
| PerfectDays.Store.RemoveFiles | src/modules/perfect-days/perfect-days.service.ts:285-303 | Unlinks every named file except those whose unlink fails. Failures are skipped. The tables are unchanged. |
| PerfectDays.Store.Upload | src/modules/perfect-days/perfect-days.service.ts:55-94 | Fails with NoImages, writing nothing, when no image is given. Fails with ColumnTooLong, writing nothing, when the posts table refuses the row: a title or location over 255 characters with something other than spaces past the limit. Otherwise it inserts the row the table stores (trailing spaces past 255 cut) under a fresh key and writes one file and row per image. It returns the key. |
| PerfectDays.Store.Publish | src/modules/perfect-days/perfect-days.service.ts:65-92 | Inserts the post, then its files and image rows. |
| PerfectDays.Store.InsertPost | src/modules/perfect-days/perfect-days.service.ts:65-76 | Inserts the post row under a fresh key. Nothing else changes. |
| PerfectDays.Store.ReplacePost | src/modules/perfect-days/perfect-days.service.ts:228-241 | Overwrites one post row. Nothing else changes. |
| PerfectDays.Store.UpdatePost | src/modules/perfect-days/perfect-days.service.ts:179-248 | Fails with NotFound or Unauthorized and changes nothing when the post is missing or not the caller's. With images, it replaces the post's image rows and files, skipping failed unlinks. It then stores the table's form of Merge of the row and the edit, with trailing spaces past 255 cut. A title or location the table refuses fails with ColumnTooLong, after the images were replaced. |
| PerfectDays.Store.ReplaceImages | src/modules/perfect-days/perfect-days.service.ts:191-226 | The post's old files are unlinked, except failing ones. Its rows are deleted and the new rows and files written. Other posts' rows and files are kept. |
| PerfectDays.Store.UpdateArchivePost | src/modules/perfect-days/perfect-days.service.ts:249-270 | Only the owner may do it; otherwise it fails with NotFound or Unauthorized and changes nothing. Sets the archive flag and updated_at of that post only. |
| PerfectDays.Store.DeletePost | src/modules/perfect-days/perfect-days.service.ts:272-308 | Only the owner may do it; otherwise it fails with NotFound or Unauthorized and changes nothing. The tables become Schema.DeletePost of the old tables. The post's files are unlinked except failing ones. It returns true. |
| PerfectDays.Store.RemovePost | src/modules/perfect-days/perfect-days.service.ts:279-306 | Unlinks the post's files, then deletes the post with its cascade. |
| PerfectDays.Store.LikePost | src/modules/perfect-days/perfect-days.service.ts:310-339 | Fails with NotFound iff the post is missing. Otherwise it toggles the caller's like of the post and reports whether the post is now liked. Nothing else changes. |
| PerfectDays.Store.CommentPost | src/modules/perfect-days/perfect-days.service.ts:341-364 | Fails with NotFound when the post is missing. Fails with ForeignKeyViolation when the parent is not a stored comment. Otherwise it inserts the comment under a fresh key and returns that key. Nothing else changes. |
| PerfectDays.Store.InsertComment | src/modules/perfect-days/perfect-days.service.ts:356-359 | Inserts one comment row under a fresh key. Nothing else changes. |
| PerfectDays.Store.ImageLookupAsWrittenNeverSucceeds | src/modules/perfect-days/perfect-days.service.ts:172 | On every valid store, getImagePostByPostId as written fails, whatever post is asked for. |

## Left out

- File contents and the file system are modelled as a set of stored file names. Writing a file always succeeds. An unlink either succeeds or, for files in the `failing` parameter, throws and is skipped. The existence check before an unlink is folded into this.
- File names use the image row's key as their unique part. The service uses `Date.now()` and `Math.random()`, which are not modelled.
- The image writes of upload and updatePost run concurrently under `Promise.all`. The model writes them one after another. Their order is not observable in the tables.
- No transaction spans several statements. A crash between statements is not modelled.
- `new Date()` and the database's `defaultNow()` become the `now` parameter. A timestamp is a calendar year and an offset within it. Time zones and the parsing of the `year` text in getArchiveByYear are not modelled; the year is an integer.
- The `user` table and the owner summary columns that the reads join in (name, email, image) are not modelled. A user is only an id.
- `posts.user_id` is nullable in the schema. The model gives every post an owner.
- The SQL text, the ORM and HTTP routing are not modelled. Neither are the older `service.ts`/`model.ts` pair, the cinema ticket module, the MCP server and client, and authentication.
- `!post` in likePost and commentPost, and `!resultPost` and `resultPost.length === 0` in the two updates, are never true after the preceding getPostById and ownership checks. The model has no branch for them.
- commentPost's `throw error(...)` on an empty insert result is likewise never reached.
- Ids are assumed to be well-formed uuids. The routes take ids as plain text, and an id that is not a uuid makes the database raise an invalid-input error in getPostById (line 159) rather than "Gagal memuat data". Ids here are numbers, so that error path is not modelled.
- PostQueries.StatsMatchByYear: holds only when the database session time zone is UTC. getArchiveStats takes the year with `extract(year from created_at)` (line 18) on a `timestamp with time zone` column, in the session time zone. getArchiveByYear compares with `new Date("<year>-01-01")` (lines 37-38), which is UTC midnight. In another zone, a post near New Year can be counted in one year by the statistics and listed in the other year by the archive. The model gives every timestamp one calendar year, so it does not capture this.
- Concurrent requests are not modelled. Each operation is one atomic step on the store. In the service, two likePost requests for the same pair can both find no row and both insert (lines 314-337); the second insert is then refused by the primary key. Two concurrent edits can lose one of the updates (last write wins).
- Upload, UpdatePost and CommentPost assume the request validator already ran: title length, file type and size, and non-empty comment text. Those rules are the `Payloads` predicates. The methods do not re-check them, as the service does not.
- PerfectDays.Store.CommentPost: commentPost does not check that the parent comment belongs to the same post, and the model does not either. The comment's user foreign key is not modelled.
- PostQueries.AllPosts: the database leaves the order of posts with equal creation times open. The model breaks ties by key, and its ensures states only the creation-time order.
- PostQueries.CommentsOfPost: getCommentByPostId lists every comment of the post, replies included, because its query has no `parent_id IS NULL` filter. The model follows the code, which differs from a listing of top-level comments only.
- PerfectDays.NewImageRows: its own contract does not mention file extensions. NewImageRowsExtensions proves them separately.

## Findings

| source | as written | input that shows it | evidently intended | confidence | as-written member | corrected member |
|---|---|---|---|---|---|---|
| src/modules/perfect-days/perfect-days.service.ts:172 | getImagePostByPostId selects image rows whose own `id` equals the post id. Post and image keys come from one key generator and never coincide, so it always fails with "Gagal mengambil data". | A post with key 0 and one image row with key 1 whose post_id is 0 | select the rows whose `post_id` equals the post id | high, not executed | PostQueries.ImageLookupAsWrittenMissesImage | PostQueries.GetImagePostByPostId |
