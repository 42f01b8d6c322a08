/**
 * The four tables of the photo journal (posts, post_images, user_likes,
 * user_comment), their keys, column limits and ON DELETE CASCADE rules.
 */
module Schema {
  import opened Errors

  /** Primary keys. The database fills them with uuidv7(); here they are numbers drawn from one counter. */
  type Id = nat
  /** A user id, issued by the authentication subsystem. */
  type UserId = string

  /** posts.title and posts.location are varchar(255). */
  const TitleMaxLength: nat := 255
  const LocationMaxLength: nat := 255

  /** A point in time: the calendar year and the time elapsed since that year's first instant. */
  datatype Timestamp = Timestamp(year: int, offset: nat)

  predicate Before(a: Timestamp, b: Timestamp) {
    a.year < b.year || (a.year == b.year && a.offset < b.offset)
  }

  /** The instant written `<year>-01-01`. */
  function YearStart(year: int): Timestamp {
    Timestamp(year, 0)
  }

  /** The name under which an uploaded file is stored: `<postId>-<unique token>.<ext>`. */
  datatype FileName = FileName(postId: Id, token: nat, ext: string)

  datatype Post = Post(
    id: Id,
    title: string,
    deskripsi: string,
    owner: UserId,
    location: Option<string>,
    latitude: Option<string>,
    longitude: Option<string>,
    archive: bool,
    createdAt: Timestamp,
    updatedAt: Timestamp)

  datatype Image = Image(id: Id, postId: Id, imageUrl: FileName)

  /** A row of user_likes; the pair is the composite primary key. */
  datatype Like = Like(userId: UserId, postId: Id)

  datatype Comment = Comment(
    id: Id,
    userId: UserId,
    postId: Id,
    parentId: Option<Id>,
    text: string,
    createdAt: Timestamp)

  /**
   * The database state. Likes form a set: the composite key (user_id, post_id)
   * admits at most one row per pair, so the row is the pair.
   */
  datatype Tables = Tables(
    posts: map<Id, Post>,
    images: map<Id, Image>,
    likes: set<Like>,
    comments: map<Id, Comment>)

  /** The varchar limits of the posts table. */
  predicate Fits(p: Post) {
    |p.title| <= TitleMaxLength && (p.location.Some? ==> |p.location.value| <= LocationMaxLength)
  }

  /** `n` spaces. */
  function Spaces(n: nat): (r: string)
    ensures |r| == n && forall i :: 0 <= i < n ==> r[i] == ' '
  {
    seq(n, _ => ' ')
  }

  /**
   * Storing text in a varchar(n) column: text of at most n characters is kept;
   * longer text is refused, unless every character past the n-th is a space,
   * in which case those spaces are cut and the first n characters are stored.
   */
  function ToVarchar(s: string, n: nat): (r: Option<string>)
    ensures r.Some? <==> |s| <= n || forall i :: n <= i < |s| ==> s[i] == ' '
    ensures r.Some? ==> |r.value| <= n && r.value <= s
    ensures |s| <= n ==> r == Some(s)
    ensures |s| > n && r.Some? ==> |r.value| == n
  {
    if |s| <= n then Some(s)
    else if forall i :: n <= i < |s| ==> s[i] == ' ' then Some(s[..n])
    else None
  }

  /** What the column stores is the given text less trailing spaces only. */
  lemma ToVarcharCutsOnlySpaces(s: string, n: nat)
    requires ToVarchar(s, n).Some?
    ensures s == ToVarchar(s, n).value + Spaces(|s| - |ToVarchar(s, n).value|)
  {
    var v := ToVarchar(s, n).value;
    var pad := Spaces(|s| - |v|);
    if |s| > n {
      forall i | 0 <= i < |s| ensures s[i] == (v + pad)[i] {
        if i >= n {
          assert (v + pad)[i] == pad[i - n];
        }
      }
    }
    assert s == v + pad;
  }

  /** A full-length title followed by spaces is stored as that title, not refused. */
  lemma PaddedTitleIsCut(p: Post, title: string, k: nat)
    requires |title| == TitleMaxLength
    requires p.location.Some? ==> |p.location.value| <= LocationMaxLength
    ensures StoredRow(p.(title := title + Spaces(k))).Some?
    ensures StoredRow(p.(title := title + Spaces(k))).value.title == title
  {
    var padded := title + Spaces(k);
    assert forall i :: TitleMaxLength <= i < |padded| ==> padded[i] == Spaces(k)[i - TitleMaxLength];
    if k > 0 {
      assert padded[..TitleMaxLength] == title;
    }
  }

  /**
   * The row the posts table stores for `p`: title and location go through their
   * varchar(255) columns, every other column as given; None when the database
   * refuses the row.
   */
  function StoredRow(p: Post): (r: Option<Post>)
    ensures r.Some? <==> ToVarchar(p.title, TitleMaxLength).Some? &&
                         (p.location.Some? ==> ToVarchar(p.location.value, LocationMaxLength).Some?)
    ensures r.Some? ==> Fits(r.value)
    ensures r.Some? ==> r.value == p.(title := r.value.title, location := r.value.location)
    ensures r.Some? ==> r.value.title == ToVarchar(p.title, TitleMaxLength).value
    ensures r.Some? ==> r.value.location.Some? == p.location.Some?
    ensures r.Some? && p.location.Some? ==> r.value.location.value == ToVarchar(p.location.value, LocationMaxLength).value
    ensures Fits(p) ==> r == Some(p)
  {
    match ToVarchar(p.title, TitleMaxLength)
    case None => None
    case Some(title) =>
      match p.location
      case None => Some(p.(title := title))
      case Some(loc) =>
        match ToVarchar(loc, LocationMaxLength)
        case None => None
        case Some(l) => Some(p.(title := title, location := Some(l)))
  }

  /** A comment's parent, if any, is a stored comment inserted before it. */
  predicate ParentLinked(comments: map<Id, Comment>, k: Id)
    requires k in comments
  {
    match comments[k].parentId
    case None => true
    case Some(p) => p in comments && p < k
  }

  /**
   * Keys match row ids, rows fit their columns and every foreign key
   * (post_id of images, likes and comments; parent_id of comments) points at a stored row.
   */
  ghost predicate Intact(t: Tables) {
    && (forall k :: k in t.posts ==> t.posts[k].id == k && Fits(t.posts[k]))
    && (forall k :: k in t.images ==> t.images[k].id == k && t.images[k].postId in t.posts)
    && (forall l :: l in t.likes ==> l.postId in t.posts)
    && (forall k :: k in t.comments ==>
          t.comments[k].id == k && t.comments[k].postId in t.posts && ParentLinked(t.comments, k))
  }

  /** `a` is a proper ancestor of comment `k` along parent_id links. */
  predicate DescendsFrom(comments: map<Id, Comment>, k: Id, a: Id)
    decreases k
  {
    && k in comments
    && comments[k].parentId.Some?
    && comments[k].parentId.value < k
    && (comments[k].parentId.value == a || DescendsFrom(comments, comments[k].parentId.value, a))
  }

  /** Comment `k` is removed when the comments `roots` are: it is one, or its parent is removed. */
  predicate Doomed(comments: map<Id, Comment>, roots: set<Id>, k: Id)
    decreases k
  {
    || k in roots
    || (&& k in comments
        && comments[k].parentId.Some?
        && comments[k].parentId.value < k
        && Doomed(comments, roots, comments[k].parentId.value))
  }

  /** The cascade through parent_id removes exactly the roots and their descendants. */
  lemma {:induction false} DoomedIffRootOrDescendant(comments: map<Id, Comment>, roots: set<Id>, k: Id)
    ensures Doomed(comments, roots, k) <==>
              k in roots || exists a :: a in roots && DescendsFrom(comments, k, a)
    decreases k
  {
    if k in comments && comments[k].parentId.Some? && comments[k].parentId.value < k {
      var p := comments[k].parentId.value;
      DoomedIffRootOrDescendant(comments, roots, p);
      if Doomed(comments, roots, k) && k !in roots {
        if p in roots {
          assert DescendsFrom(comments, k, p);
        } else {
          var a :| a in roots && DescendsFrom(comments, p, a);
          assert DescendsFrom(comments, k, a);
        }
      }
      if a :| a in roots && DescendsFrom(comments, k, a) {
        if p != a {
          assert DescendsFrom(comments, p, a);
        }
      }
    }
  }

  /**
   * Deletes the comments `roots` and, through ON DELETE CASCADE on parent_id, every reply below them.
   * Descent follows only links to an older parent, so on tables that are not `Intact` (where a
   * parent_id may point forward) this can keep a row the database would remove.
   */
  function DeleteComments(comments: map<Id, Comment>, roots: set<Id>): (r: map<Id, Comment>)
    ensures forall k :: k in r <==>
              k in comments && k !in roots && !(exists a :: a in roots && DescendsFrom(comments, k, a))
    ensures forall k :: k in r ==> r[k] == comments[k]
  {
    DoomedCharacterised(comments, roots);
    map k | k in comments && !Doomed(comments, roots, k) :: comments[k]
  }

  lemma DoomedCharacterised(comments: map<Id, Comment>, roots: set<Id>)
    ensures forall k :: Doomed(comments, roots, k) <==>
              k in roots || exists a :: a in roots && DescendsFrom(comments, k, a)
  {
    forall k ensures Doomed(comments, roots, k) <==>
                       k in roots || exists a :: a in roots && DescendsFrom(comments, k, a) {
      DoomedIffRootOrDescendant(comments, roots, k);
    }
  }

  /** The comments removed first when the posts `gonePosts` and the users `goneUsers` are deleted. */
  predicate CascadeRoot(t: Tables, gonePosts: set<Id>, goneUsers: set<UserId>, k: Id) {
    k in t.comments && (t.comments[k].postId in gonePosts || t.comments[k].userId in goneUsers)
  }

  /**
   * Deletes the posts `gonePosts` and the users `goneUsers` with every row that
   * references them through a cascading foreign key: images and likes of the
   * posts, likes of the users, comments on the posts or by the users, and all
   * replies below those comments. Like `DeleteComments`, it matches the
   * database's cascade on `Intact` tables.
   */
  function Cascade(t: Tables, gonePosts: set<Id>, goneUsers: set<UserId>): (r: Tables)
    ensures forall k :: k in r.posts <==> k in t.posts && k !in gonePosts
    ensures forall k :: k in r.images <==> k in t.images && t.images[k].postId !in gonePosts
    ensures forall l :: l in r.likes <==> l in t.likes && l.postId !in gonePosts && l.userId !in goneUsers
    ensures forall k :: k in r.comments <==>
              && k in t.comments
              && !CascadeRoot(t, gonePosts, goneUsers, k)
              && !(exists a :: CascadeRoot(t, gonePosts, goneUsers, a) && DescendsFrom(t.comments, k, a))
    ensures forall k :: k in r.posts ==> r.posts[k] == t.posts[k]
    ensures forall k :: k in r.images ==> r.images[k] == t.images[k]
    ensures forall k :: k in r.comments ==> r.comments[k] == t.comments[k]
  {
    var roots := set k | k in t.comments && CascadeRoot(t, gonePosts, goneUsers, k);
    Tables(
      map k | k in t.posts && k !in gonePosts :: t.posts[k],
      map k | k in t.images && t.images[k].postId !in gonePosts :: t.images[k],
      (set l | l in t.likes && l.postId !in gonePosts && l.userId !in goneUsers),
      DeleteComments(t.comments, roots))
  }

  /** A cascade leaves no dangling foreign key behind. */
  lemma CascadeKeepsIntact(t: Tables, gonePosts: set<Id>, goneUsers: set<UserId>)
    requires Intact(t)
    ensures Intact(Cascade(t, gonePosts, goneUsers))
  {
    var r := Cascade(t, gonePosts, goneUsers);
    forall k | k in r.comments
      ensures r.comments[k].postId in r.posts && ParentLinked(r.comments, k)
    {
      var c := t.comments[k];
      if c.parentId.Some? {
        var p := c.parentId.value;
        assert p in t.comments && p < k;
        assert !CascadeRoot(t, gonePosts, goneUsers, p) by {
          if CascadeRoot(t, gonePosts, goneUsers, p) {
            assert DescendsFrom(t.comments, k, p);
          }
        }
        assert !(exists a :: CascadeRoot(t, gonePosts, goneUsers, a) && DescendsFrom(t.comments, p, a)) by {
          if a :| CascadeRoot(t, gonePosts, goneUsers, a) && DescendsFrom(t.comments, p, a) {
            assert DescendsFrom(t.comments, k, a);
          }
        }
      }
    }
  }

  /**
   * `DELETE FROM posts WHERE id = pid`: the post goes, with its images, its likes,
   * the comments on it and every reply below those comments.
   */
  function DeletePost(t: Tables, pid: Id): (r: Tables)
    ensures r.posts == t.posts - {pid}
    ensures forall k :: k in r.images <==> k in t.images && t.images[k].postId != pid
    ensures forall l :: l in r.likes <==> l in t.likes && l.postId != pid
    ensures forall k :: k in r.comments <==>
              && k in t.comments
              && t.comments[k].postId != pid
              && !(exists a :: a in t.comments && t.comments[a].postId == pid && DescendsFrom(t.comments, k, a))
    ensures forall k :: k in r.images ==> r.images[k] == t.images[k]
    ensures forall k :: k in r.comments ==> r.comments[k] == t.comments[k]
  {
    var r := Cascade(t, {pid}, {});
    assert forall a :: CascadeRoot(t, {pid}, {}, a) <==> a in t.comments && t.comments[a].postId == pid;
    assert r.posts == t.posts - {pid};
    r
  }

  /** The posts `u` owns. */
  function OwnedBy(posts: map<Id, Post>, u: UserId): (r: set<Id>)
    ensures forall k :: k in r <==> k in posts && posts[k].owner == u
  {
    set k | k in posts && posts[k].owner == u
  }

  /** The comments removed first when user `u` is deleted: `u`'s own and those on `u`'s posts. */
  predicate UserCascadeRoot(t: Tables, u: UserId, a: Id) {
    a in t.comments && (t.comments[a].userId == u || t.comments[a].postId in OwnedBy(t.posts, u))
  }

  /**
   * Deleting user `u` deletes the user's posts (and what hangs off them: their
   * images, every like and comment on them), the user's likes and the user's
   * comments, with every reply below the removed comments.
   */
  function DeleteUser(t: Tables, u: UserId): (r: Tables)
    ensures forall k :: k in r.posts <==> k in t.posts && t.posts[k].owner != u
    ensures forall k :: k in r.images <==> k in t.images && t.images[k].postId !in OwnedBy(t.posts, u)
    ensures forall l :: l in r.likes <==> l in t.likes && l.userId != u && l.postId !in OwnedBy(t.posts, u)
    ensures forall k :: k in r.comments <==>
              && k in t.comments
              && t.comments[k].userId != u
              && t.comments[k].postId !in OwnedBy(t.posts, u)
              && !(exists a :: UserCascadeRoot(t, u, a) && DescendsFrom(t.comments, k, a))
    ensures forall k :: k in r.posts ==> r.posts[k] == t.posts[k]
    ensures forall k :: k in r.images ==> r.images[k] == t.images[k]
    ensures forall k :: k in r.comments ==> r.comments[k] == t.comments[k]
  {
    var r := Cascade(t, OwnedBy(t.posts, u), {u});
    assert forall a :: CascadeRoot(t, OwnedBy(t.posts, u), {u}, a) <==> UserCascadeRoot(t, u, a);
    r
  }

  /** The replies relation: the comments whose parent_id is `k`. */
  function Replies(comments: map<Id, Comment>, k: Id): (r: set<Id>)
    ensures forall c :: c in r <==> c in comments && comments[c].parentId == Some(k)
  {
    set c | c in comments && comments[c].parentId == Some(k)
  }

  /**
   * Deleting comment `cid` removes it and exactly the comments below it
   * (ON DELETE CASCADE on parent_id, applied transitively).
   */
  function DeleteComment(t: Tables, cid: Id): (r: Tables)
    ensures r.posts == t.posts && r.images == t.images && r.likes == t.likes
    ensures forall k :: k in r.comments <==>
              k in t.comments && k != cid && !DescendsFrom(t.comments, k, cid)
    ensures forall k :: k in r.comments ==> r.comments[k] == t.comments[k]
  {
    t.(comments := DeleteComments(t.comments, {cid}))
  }

  /** Every reply of a deleted comment is deleted with it. */
  lemma RepliesGoWithParent(t: Tables, cid: Id)
    requires Intact(t)
    ensures forall c :: c in Replies(t.comments, cid) ==> c !in DeleteComment(t, cid).comments
  {
    forall c | c in Replies(t.comments, cid) ensures DescendsFrom(t.comments, c, cid) {
      assert ParentLinked(t.comments, c);
    }
  }
}
