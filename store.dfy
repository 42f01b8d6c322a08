/**
 * The writes of the post service: upload, edit, archive toggle, delete,
 * like and comment. The database tables and the directory of uploaded
 * files live in one `Store` object whose methods update them in place.
 */
module PerfectDays {
  import opened Errors
  import opened Schema
  import opened Payloads
  import opened PostQueries

  // ---------------------------------------------------------------------------------------------
  // Rows written by the service

  /** `value || null`: absent and empty text are both stored as NULL. */
  function NullIfEmpty(value: Option<string>): (r: Option<string>)
    ensures r != Some("")
    ensures r.Some? ==> r == value
    ensures value.Some? && value != Some("") ==> r == value
  {
    if value == Some("") then None else value
  }

  /** The posts row an upload inserts for `owner`, with key `id`, at time `now`. */
  function NewPost(p: UploadPayload, owner: UserId, id: Id, now: Timestamp): (r: Post)
    ensures r.id == id && r.owner == owner && r.title == p.title && r.deskripsi == p.deskripsi
    ensures r.location == p.location
    ensures r.latitude != Some("") && r.longitude != Some("")
    ensures r.latitude == NullIfEmpty(p.latitude) && r.longitude == NullIfEmpty(p.longitude)
    ensures r.archive <==> p.archive == Some("true")
    ensures r.createdAt == now && r.updatedAt == now
  {
    Post(id, p.title, p.deskripsi, owner, p.location, NullIfEmpty(p.latitude), NullIfEmpty(p.longitude),
         ArchiveFlag(p.archive), now, now)
  }

  /**
   * The posts row an edit leaves: each present field of the payload replaces
   * the stored one, `archive` is true exactly when its text is "true", and
   * updated_at becomes `now`. Coordinates, owner and creation time are kept.
   */
  function Merge(stored: Post, u: UpdatePayload, now: Timestamp): (r: Post)
    ensures r.id == stored.id && r.owner == stored.owner && r.createdAt == stored.createdAt
    ensures r.latitude == stored.latitude && r.longitude == stored.longitude
    ensures r.title == if u.title.Some? then u.title.value else stored.title
    ensures r.deskripsi == if u.deskripsi.Some? then u.deskripsi.value else stored.deskripsi
    ensures r.location == if u.location.Some? then u.location else stored.location
    ensures u.archive.None? ==> r.archive == stored.archive
    ensures u.archive.Some? ==> (r.archive <==> u.archive.value == "true")
    ensures r.updatedAt == now
  {
    stored.(title := u.title.GetOr(stored.title),
         deskripsi := u.deskripsi.GetOr(stored.deskripsi),
         archive := if u.archive.Some? then ArchiveFlag(u.archive) else stored.archive,
         location := if u.location.Some? then u.location else stored.location,
         updatedAt := now)
  }

  /** Applying the same edit twice leaves what applying it once leaves. */
  lemma MergeIdempotent(p: Post, u: UpdatePayload, now: Timestamp)
    ensures Merge(Merge(p, u, now), u, now) == Merge(p, u, now)
  {
  }

  /** The empty edit changes nothing but updated_at. */
  lemma MergeEmptyTouchesOnlyUpdatedAt(p: Post, now: Timestamp)
    ensures Merge(p, EmptyUpdate, now) == p.(updatedAt := now)
  {
  }

  /** `l` added when absent, removed when present; every other like kept as it was. */
  function Toggled(likes: set<Like>, l: Like): (r: set<Like>)
    ensures l in r <==> l !in likes
    ensures forall m :: m != l ==> (m in r <==> m in likes)
  {
    if l in likes then likes - {l} else likes + {l}
  }

  /** Liking twice restores the likes. */
  lemma ToggleTwiceRestores(likes: set<Like>, l: Like)
    ensures Toggled(Toggled(likes, l), l) == likes
  {
  }

  /** A toggle moves the post's like count by exactly one: down when the like existed, up otherwise. */
  lemma ToggleMovesCountByOne(likes: set<Like>, l: Like)
    ensures l in likes ==> |LikesOf(Toggled(likes, l), l.postId)| + 1 == |LikesOf(likes, l.postId)|
    ensures l !in likes ==> |LikesOf(Toggled(likes, l), l.postId)| == |LikesOf(likes, l.postId)| + 1
  {
    var before := LikesOf(likes, l.postId);
    var after := LikesOf(Toggled(likes, l), l.postId);
    if l in likes {
      assert before == after + {l};
    } else {
      assert after == before + {l};
    }
  }

  /** A toggle leaves the like count of every other post alone. */
  lemma ToggleKeepsOtherCounts(likes: set<Like>, l: Like, pid: Id)
    requires pid != l.postId
    ensures LikesOf(Toggled(likes, l), pid) == LikesOf(likes, pid)
  {
  }

  /**
   * The image rows written for `files` of post `pid`, keys drawn from `start`
   * on; each stored under `<pid>-<key>.<extension of the file's type>`.
   */
  function NewImageRows(pid: Id, start: Id, files: seq<UploadFile>): (r: map<Id, Image>)
    ensures forall k :: k in r <==> start <= k < start + |files|
    ensures forall k :: k in r ==> r[k].id == k && r[k].postId == pid && r[k].imageUrl.postId == pid
    ensures forall k :: k in r ==> r[k].imageUrl.token == k
    decreases |files|
  {
    if files == [] then map[]
    else
      var n := |files| - 1;
      var k := start + n;
      var rows := NewImageRows(pid, start, files[..n]);
      rows[k := Image(k, pid, FileName(pid, k, Extension(files[n].mimeType)))]
  }

  /** One image row per file. */
  lemma {:induction false} NewImageRowsCount(pid: Id, start: Id, files: seq<UploadFile>)
    ensures |NewImageRows(pid, start, files)| == |files|
    decreases |files|
  {
    if files != [] {
      var n := |files| - 1;
      NewImageRowsCount(pid, start, files[..n]);
      assert start + n !in NewImageRows(pid, start, files[..n]);
    }
  }

  /** Files that pass the request check are all stored as .jpeg, .png or .webp. */
  lemma {:induction false} NewImageRowsExtensions(pid: Id, start: Id, files: seq<UploadFile>)
    requires ValidFiles(files)
    ensures forall k :: k in NewImageRows(pid, start, files) ==>
              NewImageRows(pid, start, files)[k].imageUrl.ext in {"jpeg", "png", "webp"}
    decreases |files|
  {
    if files != [] {
      var n := |files| - 1;
      assert ValidFiles(files[..n]) by {
        forall i | 0 <= i < n ensures ValidFile(files[..n][i]) {
          assert files[..n][i] == files[i];
        }
      }
      NewImageRowsExtensions(pid, start, files[..n]);
      ValidFileExtension(files[n]);
    }
  }

  /**
   * A freshly uploaded post's images are exactly the rows written for it:
   * no stored image can already point at a key no post has.
   */
  lemma UploadedImagesAreNew(t: Tables, id: Id, files: seq<UploadFile>)
    requires Intact(t) && id !in t.posts
    requires forall k :: k in t.images ==> k <= id
    ensures ImagesOf(t.images + NewImageRows(id, id + 1, files), id) == NewImageRows(id, id + 1, files).Values
    ensures |NewImageRows(id, id + 1, files)| == |files|
  {
    assert WithoutPost(t.images, id) == t.images;
    ReplacedImagesAreNew(t.images, id, id + 1, files, id);
    NewImageRowsCount(id, id + 1, files);
  }

  /** The stored files the rows `rows` point at. */
  function FilesOf(rows: map<Id, Image>): set<FileName> {
    set k | k in rows :: rows[k].imageUrl
  }

  /** One more file: one more row, under the next key, and one more stored file. */
  lemma NewImageRowsGrow(pid: Id, start: Id, files: seq<UploadFile>, i: nat)
    requires i < |files|
    ensures var row := Image(start + i, pid, FileName(pid, start + i, Extension(files[i].mimeType)));
            && NewImageRows(pid, start, files[..i + 1]) == NewImageRows(pid, start, files[..i])[start + i := row]
            && FilesOf(NewImageRows(pid, start, files[..i + 1])) == FilesOf(NewImageRows(pid, start, files[..i])) + {row.imageUrl}
  {
    assert files[..i + 1][..i] == files[..i] && files[..i + 1][i] == files[i];
    var rows := NewImageRows(pid, start, files[..i]);
    var row := Image(start + i, pid, FileName(pid, start + i, Extension(files[i].mimeType)));
    FilesOfAdd(rows, start + i, row);
  }

  lemma FilesOfAdd(rows: map<Id, Image>, k: Id, row: Image)
    requires k !in rows
    ensures FilesOf(rows[k := row]) == FilesOf(rows) + {row.imageUrl}
  {
    var grown := rows[k := row];
    forall f | f in FilesOf(grown) ensures f in FilesOf(rows) + {row.imageUrl} {
      var j :| j in grown && grown[j].imageUrl == f;
      assert j != k ==> rows[j].imageUrl == f;
    }
    forall f | f in FilesOf(rows) ensures f in FilesOf(grown) {
      var j :| j in rows && rows[j].imageUrl == f;
      assert grown[j] == rows[j];
    }
    assert row.imageUrl == grown[k].imageUrl;
  }

  /** The loop step of writing images: the tables after file `i` are the tables before it plus that file's row. */
  lemma ImagesGrow(images0: map<Id, Image>, assets0: set<FileName>, pid: Id, start: Id, files: seq<UploadFile>, i: nat, k: Id,
                   imagesBefore: map<Id, Image>, assetsBefore: set<FileName>, imagesAfter: map<Id, Image>, assetsAfter: set<FileName>)
    requires i < |files| && k == start + i
    requires imagesBefore == images0 + NewImageRows(pid, start, files[..i])
    requires assetsBefore == assets0 + FilesOf(NewImageRows(pid, start, files[..i]))
    requires imagesAfter == imagesBefore[k := Image(k, pid, FileName(pid, k, Extension(files[i].mimeType)))]
    requires assetsAfter == assetsBefore + {FileName(pid, k, Extension(files[i].mimeType))}
    ensures imagesAfter == images0 + NewImageRows(pid, start, files[..i + 1])
    ensures assetsAfter == assets0 + FilesOf(NewImageRows(pid, start, files[..i + 1]))
  {
    var rows := NewImageRows(pid, start, files[..i]);
    var row := Image(k, pid, FileName(pid, k, Extension(files[i].mimeType)));
    NewImageRowsGrow(pid, start, files, i);
    assert NewImageRows(pid, start, files[..i + 1]) == rows[k := row];
    UnionWithNewKey(images0, rows, k, row);
    assert FilesOf(rows[k := row]) == FilesOf(rows) + {row.imageUrl};
  }

  lemma UnionWithNewKey(base: map<Id, Image>, rows: map<Id, Image>, k: Id, row: Image)
    ensures (base + rows)[k := row] == base + rows[k := row]
  {
  }

  /** The files of the image rows of post `pid`. */
  function FilesOfPost(images: map<Id, Image>, pid: Id): set<FileName> {
    set k | k in images && images[k].postId == pid :: images[k].imageUrl
  }

  /** The image rows not of post `pid`. */
  function WithoutPost(images: map<Id, Image>, pid: Id): (r: map<Id, Image>)
    ensures forall k :: k in r <==> k in images && images[k].postId != pid
    ensures forall k :: k in r ==> r[k] == images[k]
  {
    map k | k in images && images[k].postId != pid :: images[k]
  }

  /**
   * Replacing a post's images: afterwards the post's images are exactly the new
   * rows, and every other post keeps its own.
   */
  lemma ReplacedImagesAreNew(images: map<Id, Image>, pid: Id, start: Id, files: seq<UploadFile>, q: Id)
    requires forall k :: k in images ==> k < start
    ensures ImagesOf(WithoutPost(images, pid) + NewImageRows(pid, start, files), pid) == NewImageRows(pid, start, files).Values
    ensures q != pid ==> ImagesOf(WithoutPost(images, pid) + NewImageRows(pid, start, files), q) == ImagesOf(images, q)
  {
    var added := NewImageRows(pid, start, files);
    var all := WithoutPost(images, pid) + added;
    forall img | img in ImagesOf(all, pid) ensures img in added.Values {
      var k :| k in all && all[k] == img;
    }
    forall img | img in added.Values ensures img in ImagesOf(all, pid) {
      var k :| k in added && added[k] == img;
      assert all[k] == img;
    }
    if q != pid {
      forall img | img in ImagesOf(all, q) ensures img in ImagesOf(images, q) {
        var k :| k in all && all[k] == img;
        assert k !in added;
        assert images[k] == img;
      }
      forall img | img in ImagesOf(images, q) ensures img in ImagesOf(all, q) {
        var k :| k in images && images[k] == img;
        assert k !in added;
        assert all[k] == img;
      }
    }
  }

  /** Every image row's file is stored, named after the row's post and key. */
  ghost predicate FilesStored(images: map<Id, Image>, assets: set<FileName>) {
    forall k :: k in images ==>
      images[k].imageUrl in assets && images[k].imageUrl.postId == images[k].postId && images[k].imageUrl.token == k
  }

  /** Every key in use was drawn before `nextId`, so keys never repeat across tables. */
  ghost predicate KeysDrawn(t: Tables, nextId: Id) {
    && (forall k :: k in t.posts ==> k < nextId)
    && (forall k :: k in t.images ==> k < nextId)
    && (forall k :: k in t.comments ==> k < nextId)
    && t.posts.Keys !! t.images.Keys && t.posts.Keys !! t.comments.Keys && t.images.Keys !! t.comments.Keys
  }

  /** Unlinking the files of post `pid` leaves the file of every image row of another post. */
  lemma OtherFilesKept(images: map<Id, Image>, assets: set<FileName>, pid: Id, failing: set<FileName>)
    requires forall k :: k in images ==> images[k].imageUrl in assets && images[k].imageUrl.postId == images[k].postId
    ensures forall k :: k in images && images[k].postId != pid ==>
              images[k].imageUrl in assets - (FilesOfPost(images, pid) - failing)
  {
    forall k | k in images && images[k].postId != pid
      ensures images[k].imageUrl !in FilesOfPost(images, pid)
    {
      assert forall j :: j in images && images[j].postId == pid ==> images[j].imageUrl != images[k].imageUrl;
    }
  }

  /** Deleting a post, with its files, keeps keys, foreign keys and stored files consistent. */
  lemma DeletedPostKeepsValid(t: Tables, assets: set<FileName>, nextId: Id, pid: Id, failing: set<FileName>)
    requires Intact(t) && KeysDrawn(t, nextId) && FilesStored(t.images, assets)
    ensures var r := Schema.DeletePost(t, pid);
            Intact(r) && KeysDrawn(r, nextId) && FilesStored(r.images, assets - (FilesOfPost(t.images, pid) - failing))
  {
    CascadeKeepsIntact(t, {pid}, {});
    OtherFilesKept(t.images, assets, pid, failing);
  }

  /** Adding a comment whose post and parent are stored, under an unused key, keeps the tables consistent. */
  lemma CommentAddedKeepsIntact(t: Tables, nextId: Id, c: Comment)
    requires Intact(t) && KeysDrawn(t, nextId)
    requires c.id == nextId && c.postId in t.posts && (c.parentId.Some? ==> c.parentId.value in t.comments)
    ensures Intact(t.(comments := t.comments[nextId := c]))
    ensures KeysDrawn(t.(comments := t.comments[nextId := c]), nextId + 1)
  {
    var r := t.(comments := t.comments[nextId := c]);
    forall k | k in r.comments
      ensures r.comments[k].id == k && r.comments[k].postId in r.posts && ParentLinked(r.comments, k)
    {
      if k != nextId {
        assert r.comments[k] == t.comments[k] && ParentLinked(t.comments, k);
      }
    }
  }

  // ---------------------------------------------------------------------------------------------
  // The store

  class Store {
    var posts: map<Id, Post>
    var images: map<Id, Image>
    var likes: set<Like>
    var comments: map<Id, Comment>
    /** The files in the upload directory. */
    var assets: set<FileName>
    /** The next unused key (keys of all tables come from it). */
    var nextId: Id

    function Snapshot(): Tables
      reads this
    {
      Tables(posts, images, likes, comments)
    }

    ghost predicate Valid()
      reads this
    {
      Intact(Snapshot()) && KeysDrawn(Snapshot(), nextId) && FilesStored(images, assets)
    }

    constructor()
      ensures Valid()
      ensures Snapshot() == Tables(map[], map[], {}, map[]) && assets == {}
      ensures nextId == 0
    {
      posts, images, likes, comments := map[], map[], {}, map[];
      assets := {};
      nextId := 0;
    }

    /** Writes one uploaded file and inserts its image row, under the key `nextId`. */
    method WriteImage(pid: Id, file: UploadFile)
      requires Valid() && pid in posts
      modifies this
      ensures Valid()
      ensures nextId == old(nextId) + 1
      ensures images == old(images)[old(nextId) := Image(old(nextId), pid, FileName(pid, old(nextId), Extension(file.mimeType)))]
      ensures assets == old(assets) + {FileName(pid, old(nextId), Extension(file.mimeType))}
      ensures posts == old(posts) && likes == old(likes) && comments == old(comments)
    {
      var name := FileName(pid, nextId, Extension(file.mimeType));
      assets := assets + {name};
      images := images[nextId := Image(nextId, pid, name)];
      nextId := nextId + 1;
    }

    /**
     * Writes one file and one image row per uploaded file, in order, with keys
     * drawn from `nextId`.
     */
    method WriteImages(pid: Id, files: seq<UploadFile>)
      requires Valid() && pid in posts
      modifies this
      ensures Valid()
      ensures nextId == old(nextId) + |files|
      ensures images == old(images) + NewImageRows(pid, old(nextId), files)
      ensures assets == old(assets) + FilesOf(NewImageRows(pid, old(nextId), files))
      ensures posts == old(posts) && likes == old(likes) && comments == old(comments)
    {
      var i := 0;
      while i < |files|
        invariant 0 <= i <= |files|
        invariant Valid() && pid in posts
        invariant nextId == old(nextId) + i
        invariant images == old(images) + NewImageRows(pid, old(nextId), files[..i])
        invariant assets == old(assets) + FilesOf(NewImageRows(pid, old(nextId), files[..i]))
        invariant posts == old(posts) && likes == old(likes) && comments == old(comments)
      {
        ghost var k, imagesBefore, assetsBefore := nextId, images, assets;
        WriteImage(pid, files[i]);
        ImagesGrow(old(images), old(assets), pid, old(nextId), files, i, k, imagesBefore, assetsBefore, images, assets);
        i := i + 1;
      }
      assert files[..|files|] == files;
    }

    /** Unlinks each of `names`; a deletion in `failing` fails, is logged and skipped. */
    method RemoveFiles(names: set<FileName>, failing: set<FileName>)
      modifies this
      ensures assets == old(assets) - (names - failing)
      ensures posts == old(posts) && images == old(images) && likes == old(likes) && comments == old(comments)
      ensures nextId == old(nextId)
    {
      var rest := names;
      while exists f :: f in rest
        invariant rest <= names
        invariant assets == old(assets) - ((names - rest) - failing)
        invariant posts == old(posts) && images == old(images) && likes == old(likes) && comments == old(comments)
        invariant nextId == old(nextId)
        decreases |rest|
      {
        var f :| f in rest;
        if f !in failing {
          assets := assets - {f};
        }
        rest := rest - {f};
      }
      assert rest == {};
    }

    /**
     * upload: refuses a payload without images before writing anything; inserts
     * the post (the database refuses an over-long title or location, and cuts
     * trailing spaces past the limit), then one file and one image row per image;
     * returns the new post's key.
     */
    method Upload(payload: UploadPayload, owner: UserId, now: Timestamp) returns (r: Result<Id>)
      requires Valid()
      modifies this
      ensures Valid()
      ensures r.Err? ==> unchanged(this)
      ensures (payload.images.None? || payload.images.value == []) ==> r == Err(NoImages)
      ensures payload.images.Some? && payload.images.value != [] && StoredRow(NewPost(payload, owner, old(nextId), now)).None? ==>
                r == Err(ColumnTooLong)
      ensures r.Ok? <==> payload.images.Some? && payload.images.value != [] && StoredRow(NewPost(payload, owner, old(nextId), now)).Some?
      ensures r.Ok? ==> r.value == old(nextId) && r.value !in old(posts)
      ensures r.Ok? ==> posts == old(posts)[old(nextId) := StoredRow(NewPost(payload, owner, old(nextId), now)).value]
      ensures r.Ok? ==> images == old(images) + NewImageRows(old(nextId), old(nextId) + 1, payload.images.value)
      ensures r.Ok? ==> assets == old(assets) + FilesOf(NewImageRows(old(nextId), old(nextId) + 1, payload.images.value))
      ensures r.Ok? ==> nextId == old(nextId) + 1 + |payload.images.value|
      ensures likes == old(likes) && comments == old(comments)
    {
      if payload.images.None? || payload.images.value == [] {
        return Err(NoImages);
      }
      var id := nextId;
      var row := StoredRow(NewPost(payload, owner, id, now));
      if row.None? {
        return Err(ColumnTooLong);
      }
      assert row.value.id == nextId;
      Publish(row.value, payload.images.value);
      r := Ok(id);
    }

    /** Inserts the posts row `post` under the key `nextId`, then its files and image rows. */
    method Publish(post: Post, files: seq<UploadFile>)
      requires Valid() && post.id == nextId && Fits(post)
      modifies this
      ensures Valid()
      ensures posts == old(posts)[old(nextId) := post]
      ensures images == old(images) + NewImageRows(old(nextId), old(nextId) + 1, files)
      ensures assets == old(assets) + FilesOf(NewImageRows(old(nextId), old(nextId) + 1, files))
      ensures nextId == old(nextId) + 1 + |files|
      ensures likes == old(likes) && comments == old(comments)
    {
      InsertPost(post);
      assert nextId == old(nextId) + 1 && images == old(images) && assets == old(assets);
      WriteImages(post.id, files);
    }

    /** Inserts a posts row under the key `nextId`. */
    method InsertPost(post: Post)
      requires Valid() && post.id == nextId && Fits(post)
      modifies this
      ensures Valid()
      ensures posts == old(posts)[post.id := post] && nextId == old(nextId) + 1
      ensures images == old(images) && likes == old(likes) && comments == old(comments) && assets == old(assets)
    {
      posts := posts[nextId := post];
      nextId := nextId + 1;
    }

    /** Overwrites the stored posts row with key `post.id`. */
    method ReplacePost(post: Post)
      requires Valid() && post.id in posts && Fits(post)
      modifies this
      ensures Valid()
      ensures posts == old(posts)[post.id := post] && nextId == old(nextId)
      ensures images == old(images) && likes == old(likes) && comments == old(comments) && assets == old(assets)
    {
      posts := posts[post.id := post];
    }

    /**
     * updatePost: the post must exist and belong to `userId`. When the payload
     * carries images, the post's old files are unlinked (failures skipped), its
     * image rows deleted and the new ones written; then the row is merged with
     * the payload. An over-long title or location is refused at that last step,
     * after the images were already replaced (trailing spaces past the limit are
     * cut instead).
     */
    method UpdatePost(payload: UpdatePayload, userId: UserId, pid: Id, now: Timestamp, failing: set<FileName>)
      returns (r: Result<Id>)
      requires Valid()
      modifies this
      ensures Valid()
      ensures pid !in old(posts) ==> r == Err(NotFound) && unchanged(this)
      ensures pid in old(posts) && old(posts)[pid].owner != userId ==> r == Err(Unauthorized) && unchanged(this)
      ensures pid in old(posts) && old(posts)[pid].owner == userId && StoredRow(Merge(old(posts)[pid], payload, now)).None? ==>
                r == Err(ColumnTooLong)
      ensures r.Ok? <==> pid in old(posts) && old(posts)[pid].owner == userId && StoredRow(Merge(old(posts)[pid], payload, now)).Some?
      ensures r.Ok? ==> r.value == pid && posts == old(posts)[pid := StoredRow(Merge(old(posts)[pid], payload, now)).value]
      ensures !r.Ok? ==> posts == old(posts)
      ensures pid in old(posts) && old(posts)[pid].owner == userId && payload.images.Some? && payload.images.value != [] ==>
                && images == WithoutPost(old(images), pid) + NewImageRows(pid, old(nextId), payload.images.value)
                && assets == (old(assets) - (FilesOfPost(old(images), pid) - failing))
                             + FilesOf(NewImageRows(pid, old(nextId), payload.images.value))
                && nextId == old(nextId) + |payload.images.value|
      ensures (payload.images.None? || payload.images.value == []) ==>
                images == old(images) && assets == old(assets) && nextId == old(nextId)
      ensures likes == old(likes) && comments == old(comments)
    {
      if pid !in posts {
        return Err(NotFound);
      }
      if posts[pid].owner != userId {
        return Err(Unauthorized);
      }
      if payload.images.Some? && payload.images.value != [] {
        ReplaceImages(pid, payload.images.value, failing);
      }
      var row := StoredRow(Merge(posts[pid], payload, now));
      if row.None? {
        return Err(ColumnTooLong);
      }
      ReplacePost(row.value);
      r := Ok(pid);
    }

    /**
     * The image part of an edit: unlinks the post's old files (a failed unlink
     * is skipped), deletes its image rows and writes the new files and rows.
     */
    method ReplaceImages(pid: Id, files: seq<UploadFile>, failing: set<FileName>)
      requires Valid() && pid in posts
      modifies this
      ensures Valid()
      ensures images == WithoutPost(old(images), pid) + NewImageRows(pid, old(nextId), files)
      ensures assets == (old(assets) - (FilesOfPost(old(images), pid) - failing)) + FilesOf(NewImageRows(pid, old(nextId), files))
      ensures nextId == old(nextId) + |files|
      ensures posts == old(posts) && likes == old(likes) && comments == old(comments)
    {
      OtherFilesKept(images, assets, pid, failing);
      RemoveFiles(FilesOfPost(images, pid), failing);
      images := WithoutPost(images, pid);
      WriteImages(pid, files);
    }

    /** updateArchivePost: the owner sets the archive flag; updated_at becomes `now`. */
    method UpdateArchivePost(userId: UserId, pid: Id, archive: bool, now: Timestamp) returns (r: Result<Id>)
      requires Valid()
      modifies this
      ensures Valid()
      ensures pid !in old(posts) ==> r == Err(NotFound)
      ensures pid in old(posts) && old(posts)[pid].owner != userId ==> r == Err(Unauthorized)
      ensures r.Err? ==> unchanged(this)
      ensures r.Ok? <==> pid in old(posts) && old(posts)[pid].owner == userId
      ensures r.Ok? ==> r.value == pid && posts == old(posts)[pid := old(posts)[pid].(archive := archive, updatedAt := now)]
      ensures images == old(images) && likes == old(likes) && comments == old(comments) && assets == old(assets)
      ensures nextId == old(nextId)
    {
      if pid !in posts {
        return Err(NotFound);
      }
      if posts[pid].owner != userId {
        return Err(Unauthorized);
      }
      ReplacePost(posts[pid].(archive := archive, updatedAt := now));
      r := Ok(pid);
    }

    /**
     * deletePost: the owner deletes a post. Its files are unlinked first; a
     * failed unlink is logged and skipped, and the row is deleted anyway,
     * taking the post's images, likes and comments with it.
     */
    method DeletePost(pid: Id, userId: UserId, failing: set<FileName>) returns (r: Result<bool>)
      requires Valid()
      modifies this
      ensures Valid()
      ensures pid !in old(posts) ==> r == Err(NotFound)
      ensures pid in old(posts) && old(posts)[pid].owner != userId ==> r == Err(Unauthorized)
      ensures r.Err? ==> unchanged(this)
      ensures r.Ok? <==> pid in old(posts) && old(posts)[pid].owner == userId
      ensures r.Ok? ==> r.value
      ensures r.Ok? ==> Snapshot() == Schema.DeletePost(old(Snapshot()), pid)
      ensures r.Ok? ==> assets == old(assets) - (FilesOfPost(old(images), pid) - failing)
      ensures nextId == old(nextId)
    {
      if pid !in posts {
        return Err(NotFound);
      }
      if posts[pid].owner != userId {
        return Err(Unauthorized);
      }
      RemovePost(pid, failing);
      r := Ok(true);
    }

    /** Unlinks the files of post `pid`, then deletes its row and, by cascade, its images, likes and comments. */
    method RemovePost(pid: Id, failing: set<FileName>)
      requires Valid()
      modifies this
      ensures Valid()
      ensures Snapshot() == Schema.DeletePost(old(Snapshot()), pid)
      ensures assets == old(assets) - (FilesOfPost(old(images), pid) - failing) && nextId == old(nextId)
    {
      DeletedPostKeepsValid(Snapshot(), assets, nextId, pid, failing);
      RemoveFiles(FilesOfPost(images, pid), failing);
      var t := Schema.DeletePost(Snapshot(), pid);
      posts, images, likes, comments := t.posts, t.images, t.likes, t.comments;
    }

    /** likePost: toggles the caller's like of an existing post; reports whether the post is now liked. */
    method LikePost(userId: UserId, pid: Id) returns (r: Result<bool>)
      requires Valid()
      modifies this
      ensures Valid()
      ensures r.Err? <==> pid !in old(posts)
      ensures r.Err? ==> r.error == NotFound && unchanged(this)
      ensures r.Ok? ==> likes == Toggled(old(likes), Like(userId, pid))
      ensures r.Ok? ==> (r.value <==> Like(userId, pid) in likes)
      ensures posts == old(posts) && images == old(images) && comments == old(comments) && assets == old(assets)
      ensures nextId == old(nextId)
    {
      if pid !in posts {
        return Err(NotFound);
      }
      var like := Like(userId, pid);
      if like in likes {
        likes := likes - {like};
        r := Ok(false);
      } else {
        likes := likes + {like};
        r := Ok(true);
      }
    }

    /**
     * commentPost: adds a comment, or a reply when `parentId` is given, to an
     * existing post. The database refuses a parent that is not a stored comment.
     */
    method CommentPost(userId: UserId, pid: Id, text: string, parentId: Option<Id>, now: Timestamp)
      returns (r: Result<Id>)
      requires Valid()
      modifies this
      ensures Valid()
      ensures pid !in old(posts) ==> r == Err(NotFound)
      ensures pid in old(posts) && parentId.Some? && parentId.value !in old(comments) ==> r == Err(ForeignKeyViolation)
      ensures r.Err? ==> unchanged(this)
      ensures r.Ok? <==> pid in old(posts) && (parentId.Some? ==> parentId.value in old(comments))
      ensures r.Ok? ==> r.value !in old(comments)
      ensures r.Ok? ==> comments == old(comments)[r.value := Comment(r.value, userId, pid, parentId, text, now)]
      ensures r.Ok? ==> nextId == old(nextId) + 1
      ensures posts == old(posts) && images == old(images) && likes == old(likes) && assets == old(assets)
    {
      if pid !in posts {
        return Err(NotFound);
      }
      if parentId.Some? && parentId.value !in comments {
        return Err(ForeignKeyViolation);
      }
      var id := nextId;
      InsertComment(Comment(id, userId, pid, parentId, text, now));
      r := Ok(id);
    }

    /** Inserts a user_comment row under the key `nextId`. */
    method InsertComment(c: Comment)
      requires Valid() && c.id == nextId && c.postId in posts
      requires c.parentId.Some? ==> c.parentId.value in comments
      modifies this
      ensures Valid()
      ensures comments == old(comments)[old(nextId) := c] && nextId == old(nextId) + 1
      ensures posts == old(posts) && images == old(images) && likes == old(likes) && assets == old(assets)
    {
      CommentAddedKeepsIntact(Snapshot(), nextId, c);
      comments := comments[nextId := c];
      nextId := nextId + 1;
    }

    /** Post and image keys never coincide, so the image lookup as written fails on every store. */
    lemma ImageLookupAsWrittenNeverSucceeds(pid: Id)
      requires Valid()
      ensures GetImagePostByPostIdAsWritten(Snapshot(), pid).Err?
    {
      ImageLookupAsWrittenFails(Snapshot(), pid);
    }
  }
}
