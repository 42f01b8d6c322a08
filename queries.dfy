/**
 * The read-only queries of the post service: single post, public feed,
 * per-year archive, location filter, a post's images and its comments.
 * Each is a function of the tables; a query that matches nothing fails
 * instead of returning an empty list, as the service does.
 */
module PostQueries {
  import opened Errors
  import opened Schema

  /** The image rows of post `pid`. */
  function ImagesOf(images: map<Id, Image>, pid: Id): (r: set<Image>)
    ensures forall img :: img in r <==> img in images.Values && img.postId == pid
  {
    set k | k in images && images[k].postId == pid :: images[k]
  }

  /** The like rows of post `pid`. */
  function LikesOf(likes: set<Like>, pid: Id): (r: set<Like>)
    ensures forall l :: l in r <==> l in likes && l.postId == pid
  {
    set l | l in likes && l.postId == pid
  }

  /** The comment rows of post `pid`, by key. */
  function CommentIdsOf(comments: map<Id, Comment>, pid: Id): (r: set<Id>)
    ensures forall k :: k in r <==> k in comments && comments[k].postId == pid
  {
    set k | k in comments && comments[k].postId == pid
  }

  /** A post as the service returns it: the row, its images and the like and comment counts taken at read time. */
  datatype PostView = PostView(post: Post, images: set<Image>, likesCount: nat, commentsCount: nat)

  function ViewOf(t: Tables, k: Id): PostView
    requires k in t.posts
  {
    PostView(t.posts[k], ImagesOf(t.images, k), |LikesOf(t.likes, k)|, |CommentIdsOf(t.comments, k)|)
  }

  /** getPostById: the post with its images and counts, or NotFound. */
  function GetPostById(t: Tables, pid: Id): (r: Result<PostView>)
    ensures r.Err? <==> pid !in t.posts
    ensures r.Err? ==> r.error == NotFound
    ensures r.Ok? ==> r.value.post == t.posts[pid]
    ensures r.Ok? ==> forall img :: img in r.value.images <==> img in t.images.Values && img.postId == pid
    ensures r.Ok? ==> r.value.likesCount == |LikesOf(t.likes, pid)|
    ensures r.Ok? ==> r.value.commentsCount == |CommentIdsOf(t.comments, pid)|
  {
    if pid in t.posts then Ok(ViewOf(t, pid)) else Err(NotFound)
  }

  // ---------------------------------------------------------------------------------------------
  // The public feed, newest first

  /**
   * Post `a` comes before post `b` in the feed: it was created later, or at the
   * same instant with a larger key (the database leaves the order of ties open).
   */
  predicate Newer(posts: map<Id, Post>, a: Id, b: Id)
    requires a in posts && b in posts
  {
    || Before(posts[b].createdAt, posts[a].createdAt)
    || (posts[a].createdAt == posts[b].createdAt && a > b)
  }

  lemma NewerTransitive(posts: map<Id, Post>, a: Id, b: Id, c: Id)
    requires a in posts && b in posts && c in posts
    requires Newer(posts, a, b) && Newer(posts, b, c)
    ensures Newer(posts, a, c)
  {
  }

  lemma NewerTotal(posts: map<Id, Post>, a: Id, b: Id)
    requires a in posts && b in posts && a != b
    ensures Newer(posts, a, b) != Newer(posts, b, a)
  {
    var ta, tb := posts[a].createdAt, posts[b].createdAt;
    if ta.year == tb.year && ta.offset == tb.offset {
      assert ta == tb;
    }
  }

  predicate IsNewest(posts: map<Id, Post>, ids: set<Id>, k: Id)
    requires ids <= posts.Keys
  {
    k in ids && forall o :: o in ids && o != k ==> Newer(posts, k, o)
  }

  lemma {:induction false} NewestExists(posts: map<Id, Post>, ids: set<Id>)
    requires ids <= posts.Keys && exists k :: k in ids
    ensures exists k :: IsNewest(posts, ids, k)
    decreases ids
  {
    var x :| x in ids;
    var rest := ids - {x};
    // The set is empty; said with a quantifier so that the other branch can pick an element with `:|`.
    if forall o :: o in rest ==> false {
      forall o | o in ids ensures o == x {
        assert o != x ==> o in rest;
      }
      assert IsNewest(posts, ids, x);
    } else {
      NewestExists(posts, rest);
      var m :| IsNewest(posts, rest, m);
      NewerTotal(posts, x, m);
      var top := if Newer(posts, x, m) then x else m;
      forall o | o in ids && o != top
        ensures Newer(posts, top, o)
      {
        if top == x {
          if o != m {
            assert o in rest;
            NewerTransitive(posts, x, m, o);
          }
        } else if o != x {
          assert o in rest;
        }
      }
      assert IsNewest(posts, ids, top);
    }
  }

  lemma NewestUnique(posts: map<Id, Post>, ids: set<Id>)
    requires ids <= posts.Keys
    ensures forall a, b :: IsNewest(posts, ids, a) && IsNewest(posts, ids, b) ==> a == b
  {
    forall a, b | IsNewest(posts, ids, a) && IsNewest(posts, ids, b) ensures a == b {
      if a != b {
        NewerTotal(posts, a, b);
      }
    }
  }

  /** The keys `ids` ordered newest first. */
  function NewestFirst(posts: map<Id, Post>, ids: set<Id>): (r: seq<Id>)
    requires ids <= posts.Keys
    ensures |r| == |ids|
    ensures forall k :: k in r <==> k in ids
    ensures forall i, j :: 0 <= i < j < |r| ==> r[i] in posts && r[j] in posts && Newer(posts, r[i], r[j])
    ensures forall i, j :: 0 <= i < j < |r| ==> r[i] != r[j]
    decreases ids
  {
    // The set is empty; said with a quantifier so that the other branch can pick an element with `:|`.
    if forall k :: k in ids ==> false then
      assert ids == {};
      []
    else
      NewestExists(posts, ids);
      NewestUnique(posts, ids);
      var k :| IsNewest(posts, ids, k);
      var rest := NewestFirst(posts, ids - {k});
      NewestThenRest(posts, ids, k, rest);
      [k] + rest
  }

  lemma NewestThenRest(posts: map<Id, Post>, ids: set<Id>, k: Id, rest: seq<Id>)
    requires ids <= posts.Keys && IsNewest(posts, ids, k)
    requires |rest| == |ids - {k}|
    requires forall x :: x in rest <==> x in ids - {k}
    requires forall i, j :: 0 <= i < j < |rest| ==> rest[i] in posts && rest[j] in posts && Newer(posts, rest[i], rest[j])
    requires forall i, j :: 0 <= i < j < |rest| ==> rest[i] != rest[j]
    ensures |[k] + rest| == |ids|
    ensures forall x :: x in [k] + rest <==> x in ids
    ensures forall i, j :: 0 <= i < j < |[k] + rest| ==>
              ([k] + rest)[i] in posts && ([k] + rest)[j] in posts && Newer(posts, ([k] + rest)[i], ([k] + rest)[j])
    ensures forall i, j :: 0 <= i < j < |[k] + rest| ==> ([k] + rest)[i] != ([k] + rest)[j]
  {
    var r := [k] + rest;
    forall i, j | 0 <= i < j < |r|
      ensures r[i] in posts && r[j] in posts && Newer(posts, r[i], r[j]) && r[i] != r[j]
    {
      assert r[j] == rest[j - 1] && r[j] in ids - {k};
      if i > 0 {
        assert r[i] == rest[i - 1];
      }
    }
  }

  /** The keys of the posts that are not archived. */
  function PublicIds(posts: map<Id, Post>): (r: set<Id>)
    ensures forall k :: k in r <==> k in posts && !posts[k].archive
  {
    set k | k in posts && !posts[k].archive
  }

  /** `v` is how the service shows some post that is not archived. */
  predicate IsPublicView(t: Tables, v: PostView) {
    exists k :: k in t.posts && !t.posts[k].archive && v == ViewOf(t, k)
  }

  /**
   * getAllPosts: every post whose archive flag is false, each once, ordered by
   * creation time, newest first; visible to every caller.
   */
  function AllPosts(t: Tables): (r: seq<PostView>)
    ensures |r| == |PublicIds(t.posts)|
    ensures forall i :: 0 <= i < |r| ==> IsPublicView(t, r[i])
    ensures forall k :: k in t.posts && !t.posts[k].archive ==>
              exists i :: 0 <= i < |r| && r[i] == ViewOf(t, k)
    ensures forall i, j :: 0 <= i < j < |r| ==> !Before(r[i].post.createdAt, r[j].post.createdAt)
  {
    var ids := NewestFirst(t.posts, PublicIds(t.posts));
    var r := seq(|ids|, i requires 0 <= i < |ids| => ViewOf(t, ids[i]));
    FeedListsPublicPosts(t, ids, r);
    r
  }

  lemma FeedListsPublicPosts(t: Tables, ids: seq<Id>, r: seq<PostView>)
    requires forall k :: k in ids <==> k in PublicIds(t.posts)
    requires forall i, j :: 0 <= i < j < |ids| ==> ids[i] in t.posts && ids[j] in t.posts && Newer(t.posts, ids[i], ids[j])
    requires |r| == |ids| && forall i :: 0 <= i < |ids| ==> ids[i] in t.posts && r[i] == ViewOf(t, ids[i])
    ensures forall i :: 0 <= i < |r| ==> IsPublicView(t, r[i])
    ensures forall k :: k in t.posts && !t.posts[k].archive ==>
              exists i :: 0 <= i < |r| && r[i] == ViewOf(t, k)
    ensures forall i, j :: 0 <= i < j < |r| ==> !Before(r[i].post.createdAt, r[j].post.createdAt)
  {
    forall i | 0 <= i < |r|
      ensures IsPublicView(t, r[i])
    {
      var k := ids[i];
      assert k in ids && k in PublicIds(t.posts);
      assert k in t.posts && !t.posts[k].archive && r[i] == ViewOf(t, k);
    }
    forall k | k in t.posts && !t.posts[k].archive
      ensures exists i :: 0 <= i < |r| && r[i] == ViewOf(t, k)
    {
      assert k in ids;
      var i :| 0 <= i < |ids| && ids[i] == k;
      assert r[i] == ViewOf(t, k);
    }
    forall i, j | 0 <= i < j < |r|
      ensures !Before(r[i].post.createdAt, r[j].post.createdAt)
    {
      assert Newer(t.posts, ids[i], ids[j]);
      assert r[i].post == t.posts[ids[i]] && r[j].post == t.posts[ids[j]];
    }
  }

  // ---------------------------------------------------------------------------------------------
  // The archive of one user

  /** The years in which `u` created a post. */
  function YearsOf(posts: map<Id, Post>, u: UserId): (r: set<int>)
    ensures forall y :: y in r <==> exists k :: k in posts && posts[k].owner == u && posts[k].createdAt.year == y
  {
    set k | k in posts && posts[k].owner == u :: posts[k].createdAt.year
  }

  /** The keys of the posts `u` created in `year`. */
  function PostIdsInYear(posts: map<Id, Post>, u: UserId, year: int): (r: set<Id>)
    ensures forall k :: k in r <==> k in posts && posts[k].owner == u && posts[k].createdAt.year == year
  {
    set k | k in posts && posts[k].owner == u && posts[k].createdAt.year == year
  }

  lemma {:induction false} MaxYearExists(ys: set<int>)
    requires exists y :: y in ys
    ensures exists y :: y in ys && forall z :: z in ys ==> z <= y
    decreases ys
  {
    var x :| x in ys;
    var rest := ys - {x};
    // The set is empty; said with a quantifier so that the other branch can pick an element with `:|`.
    if forall z :: z in rest ==> false {
      forall z | z in ys ensures z == x {
        assert z != x ==> z in rest;
      }
      assert forall z :: z in ys ==> z <= x;
    } else {
      MaxYearExists(rest);
      var m :| m in rest && forall z :: z in rest ==> z <= m;
      var top := if x <= m then m else x;
      forall z | z in ys ensures z <= top {
        assert z != x ==> z in rest;
      }
      assert top in ys;
    }
  }

  /** The years `ys`, latest first. */
  function DescendingYears(ys: set<int>): (r: seq<int>)
    ensures |r| == |ys|
    ensures forall y :: y in r <==> y in ys
    ensures forall i, j :: 0 <= i < j < |r| ==> r[i] > r[j]
    decreases ys
  {
    // The set is empty; said with a quantifier so that the other branch can pick an element with `:|`.
    if forall y :: y in ys ==> false then
      assert ys == {};
      []
    else
      MaxYearExists(ys);
      var y :| y in ys && forall z :: z in ys ==> z <= y;
      var rest := DescendingYears(ys - {y});
      LatestThenRest(ys, y, rest);
      [y] + rest
  }

  lemma LatestThenRest(ys: set<int>, y: int, rest: seq<int>)
    requires y in ys && forall z :: z in ys ==> z <= y
    requires |rest| == |ys - {y}|
    requires forall z :: z in rest <==> z in ys - {y}
    requires forall i, j :: 0 <= i < j < |rest| ==> rest[i] > rest[j]
    ensures |[y] + rest| == |ys|
    ensures forall z :: z in [y] + rest <==> z in ys
    ensures forall i, j :: 0 <= i < j < |[y] + rest| ==> ([y] + rest)[i] > ([y] + rest)[j]
  {
    var r := [y] + rest;
    forall i, j | 0 <= i < j < |r| ensures r[i] > r[j] {
      assert r[j] == rest[j - 1] && r[j] in ys - {y};
      if i > 0 {
        assert r[i] == rest[i - 1];
      }
    }
  }

  datatype YearCount = YearCount(year: int, count: nat)

  /**
   * `stats` lists years strictly latest first, each with the number of posts
   * `u` created in it (never zero), and lists every year in which `u` created a post.
   */
  predicate CountsEveryYear(posts: map<Id, Post>, u: UserId, stats: seq<YearCount>) {
    && (forall i, j :: 0 <= i < j < |stats| ==> stats[i].year > stats[j].year)
    && (forall i :: 0 <= i < |stats| ==>
          stats[i].count == |PostIdsInYear(posts, u, stats[i].year)| && stats[i].count > 0)
    && (forall k :: k in posts && posts[k].owner == u ==>
          YearCount(posts[k].createdAt.year, |PostIdsInYear(posts, u, posts[k].createdAt.year)|) in stats)
  }

  /**
   * getArchiveStats: one (year, number of posts) pair per year in which `u`
   * created a post, latest year first; fails when `u` has no post.
   */
  function ArchiveStats(t: Tables, u: UserId): (r: Result<seq<YearCount>>)
    ensures r.Err? <==> forall k :: k in t.posts ==> t.posts[k].owner != u
    ensures r.Err? ==> r.error == EmptyResult
    ensures r.Ok? ==> CountsEveryYear(t.posts, u, r.value)
  {
    var years := DescendingYears(YearsOf(t.posts, u));
    YearsCoverPosts(t.posts, u, years);
    if years == [] then
      Err(EmptyResult)
    else
      Ok(YearCounts(t.posts, u, years))
  }

  /** Each of `years` with the number of posts `u` created in it. */
  function YearCounts(posts: map<Id, Post>, u: UserId, years: seq<int>): (r: seq<YearCount>)
    requires forall y :: y in years <==> y in YearsOf(posts, u)
    requires forall i, j :: 0 <= i < j < |years| ==> years[i] > years[j]
    ensures CountsEveryYear(posts, u, r)
  {
    var r := seq(|years|, i requires 0 <= i < |years| => YearCount(years[i], |PostIdsInYear(posts, u, years[i])|));
    YearCountsOfYears(posts, u, years, r);
    r
  }

  lemma YearsCoverPosts(posts: map<Id, Post>, u: UserId, years: seq<int>)
    requires forall y :: y in years <==> y in YearsOf(posts, u)
    ensures (forall k :: k in posts ==> posts[k].owner != u) <==> years == []
  {
    forall k | k in posts && posts[k].owner == u
      ensures posts[k].createdAt.year in years
    {
      assert posts[k].createdAt.year in YearsOf(posts, u);
    }
    if years != [] {
      var y := years[0];
      assert y in years;
      assert y in YearsOf(posts, u);
    }
  }

  lemma YearCountsOfYears(posts: map<Id, Post>, u: UserId, years: seq<int>, r: seq<YearCount>)
    requires forall y :: y in years <==> y in YearsOf(posts, u)
    requires forall i, j :: 0 <= i < j < |years| ==> years[i] > years[j]
    requires |r| == |years|
    requires forall i :: 0 <= i < |r| ==> r[i] == YearCount(years[i], |PostIdsInYear(posts, u, years[i])|)
    ensures CountsEveryYear(posts, u, r)
  {
    forall i | 0 <= i < |r| ensures r[i].count > 0 {
      var y := years[i];
      assert y in years;
      assert y in YearsOf(posts, u);
      var k :| k in posts && posts[k].owner == u && posts[k].createdAt.year == y;
      assert k in PostIdsInYear(posts, u, y);
    }
    forall k | k in posts && posts[k].owner == u
      ensures YearCount(posts[k].createdAt.year, |PostIdsInYear(posts, u, posts[k].createdAt.year)|) in r
    {
      var y := posts[k].createdAt.year;
      assert y in YearsOf(posts, u);
      assert y in years;
      var i :| 0 <= i < |years| && years[i] == y;
      assert r[i] == YearCount(y, |PostIdsInYear(posts, u, y)|);
    }
  }

  /** The half-open range [year-01-01, (year+1)-01-01). */
  predicate InYear(at: Timestamp, year: int) {
    !Before(at, YearStart(year)) && Before(at, YearStart(year + 1))
  }

  /**
   * getArchiveByYear: the posts of `u` created in [year-01-01, (year+1)-01-01),
   * that is, in calendar year `year`; fails when there is none.
   */
  function ArchiveByYear(t: Tables, u: UserId, year: int): (r: Result<set<Post>>)
    ensures r.Err? <==> PostIdsInYear(t.posts, u, year) == {}
    ensures r.Err? ==> r.error == EmptyResult
    ensures r.Ok? ==> forall p :: p in r.value <==>
              p in t.posts.Values && p.owner == u && p.createdAt.year == year
  {
    var rows := set k | k in t.posts && t.posts[k].owner == u && InYear(t.posts[k].createdAt, year) :: t.posts[k];
    assert forall k :: k in PostIdsInYear(t.posts, u, year) ==> t.posts[k] in rows;
    if forall k :: k in t.posts && t.posts[k].owner == u ==> !InYear(t.posts[k].createdAt, year) then
      Err(EmptyResult)
    else
      Ok(rows)
  }

  /** Distinct keys give distinct rows when every row carries its own key. */
  lemma {:induction false} RowsOfIds(posts: map<Id, Post>, ids: set<Id>)
    requires ids <= posts.Keys
    requires forall k :: k in ids ==> posts[k].id == k
    ensures |set k | k in ids :: posts[k]| == |ids|
    decreases ids
  {
    if exists k :: k in ids {
      var x :| x in ids;
      var rest := ids - {x};
      RowsOfIds(posts, rest);
      assert (set k | k in ids :: posts[k]) == (set k | k in rest :: posts[k]) + {posts[x]};
      assert posts[x] !in (set k | k in rest :: posts[k]);
    } else {
      assert ids == {};
    }
  }

  /** The count getArchiveStats reports for a year is the number of posts getArchiveByYear lists for it. */
  lemma StatsMatchByYear(t: Tables, u: UserId, i: nat)
    requires Intact(t)
    requires ArchiveStats(t, u).Ok? && i < |ArchiveStats(t, u).value|
    ensures ArchiveByYear(t, u, ArchiveStats(t, u).value[i].year).Ok?
    ensures |ArchiveByYear(t, u, ArchiveStats(t, u).value[i].year).value| == ArchiveStats(t, u).value[i].count
  {
    var stats := ArchiveStats(t, u).value;
    var y := stats[i].year;
    var ids := PostIdsInYear(t.posts, u, y);
    assert stats[i].count == |ids| > 0;
    assert forall k :: k in ids ==> t.posts[k].id == k;
    RowsOfIds(t.posts, ids);
    YearRowsAreRowsOfIds(t, u, y);
  }

  lemma YearRowsAreRowsOfIds(t: Tables, u: UserId, y: int)
    requires ArchiveByYear(t, u, y).Ok?
    ensures ArchiveByYear(t, u, y).value == set k | k in PostIdsInYear(t.posts, u, y) :: t.posts[k]
  {
    var rows := ArchiveByYear(t, u, y).value;
    var ids := PostIdsInYear(t.posts, u, y);
    forall p | p in rows ensures p in set k | k in ids :: t.posts[k] {
      var k :| k in t.posts && t.posts[k] == p;
      assert k in ids;
    }
  }

  /** getPostByLocation: every post (of any user, archived or not) whose location is exactly `location`; fails when there is none. */
  function PostByLocation(t: Tables, location: string): (r: Result<set<Post>>)
    ensures r.Err? <==> forall k :: k in t.posts ==> t.posts[k].location != Some(location)
    ensures r.Err? ==> r.error == EmptyResult
    ensures r.Ok? ==> forall p :: p in r.value <==> p in t.posts.Values && p.location == Some(location)
  {
    var rows := set k | k in t.posts && t.posts[k].location == Some(location) :: t.posts[k];
    if forall k :: k in t.posts ==> t.posts[k].location != Some(location) then Err(EmptyResult) else Ok(rows)
  }

  // ---------------------------------------------------------------------------------------------
  // A post's images

  /**
   * getImagePostByPostId as written: after checking that the post exists it
   * selects the image rows whose OWN id equals the post id.
   */
  function GetImagePostByPostIdAsWritten(t: Tables, pid: Id): (r: Result<set<Image>>)
    ensures r.Err? <==> pid !in t.posts || pid !in t.images
    ensures r.Err? ==> r.error == if pid in t.posts then ImagesNotFound else NotFound
    ensures r.Ok? ==> r.value == {t.images[pid]}
  {
    if pid !in t.posts then Err(NotFound)
    else
      var rows := if pid in t.images then {t.images[pid]} else {};
      if rows == {} then Err(ImagesNotFound) else Ok(rows)
  }

  /** Post and image keys never coincide, so the lookup as written never finds an image. */
  lemma ImageLookupAsWrittenFails(t: Tables, pid: Id)
    requires t.posts.Keys !! t.images.Keys
    ensures GetImagePostByPostIdAsWritten(t, pid).Err?
  {
  }

  /** The intended lookup: the image rows whose post_id is the post; fails when the post is missing or has no image. */
  function GetImagePostByPostId(t: Tables, pid: Id): (r: Result<set<Image>>)
    ensures r.Err? <==> pid !in t.posts || forall k :: k in t.images ==> t.images[k].postId != pid
    ensures r.Err? ==> r.error == if pid in t.posts then ImagesNotFound else NotFound
    ensures r.Ok? ==> forall img :: img in r.value <==> img in t.images.Values && img.postId == pid
  {
    if pid !in t.posts then Err(NotFound)
    else if forall k :: k in t.images ==> t.images[k].postId != pid then Err(ImagesNotFound)
    else Ok(ImagesOf(t.images, pid))
  }

  /** A post with one image: the lookup as written fails where the intended one returns that image. */
  lemma ImageLookupAsWrittenMissesImage()
    ensures
      var img := Image(1, 0, FileName(0, 1, "png"));
      var t := Tables(map[0 := Post(0, "Day", "", "u", None, None, None, false, Timestamp(2024, 0), Timestamp(2024, 0))],
                      map[1 := img], {}, map[]);
      && GetImagePostByPostIdAsWritten(t, 0) == Err(ImagesNotFound)
      && GetImagePostByPostId(t, 0) == Ok({img})
  {
    var img := Image(1, 0, FileName(0, 1, "png"));
    var t := Tables(map[0 := Post(0, "Day", "", "u", None, None, None, false, Timestamp(2024, 0), Timestamp(2024, 0))],
                    map[1 := img], {}, map[]);
    assert t.images[1] == img;
    assert t.images.Values == {img};
    assert ImagesOf(t.images, 0) == {img};
  }

  // ---------------------------------------------------------------------------------------------
  // A post's comments

  /** A listed comment with its direct replies. */
  datatype Thread = Thread(comment: Comment, replies: set<Comment>)

  function RepliesOf(comments: map<Id, Comment>, k: Id): (r: set<Comment>)
    ensures forall c :: c in r <==> c in comments.Values && c.parentId == Some(k)
  {
    set c | c in Replies(comments, k) :: comments[c]
  }

  /** `th` is comment `k` of post `pid`, listed with exactly its direct replies. */
  predicate IsThreadOf(t: Tables, pid: Id, th: Thread) {
    exists k :: k in t.comments && t.comments[k].postId == pid && th == Thread(t.comments[k], RepliesOf(t.comments, k))
  }

  /**
   * getCommentByPostId as written: every comment on the post (replies
   * included, there being no parent_id filter), each with its direct replies;
   * fails only when the post is missing.
   */
  function CommentsOfPost(t: Tables, pid: Id): (r: Result<set<Thread>>)
    ensures r.Err? <==> pid !in t.posts
    ensures r.Err? ==> r.error == NotFound
    ensures r.Ok? ==> forall th :: th in r.value ==> IsThreadOf(t, pid, th)
    ensures r.Ok? ==> forall k :: k in t.comments && t.comments[k].postId == pid ==>
              Thread(t.comments[k], RepliesOf(t.comments, k)) in r.value
  {
    if pid !in t.posts then Err(NotFound)
    else Ok(set k | k in t.comments && t.comments[k].postId == pid :: Thread(t.comments[k], RepliesOf(t.comments, k)))
  }

  /** A reply on the same post is listed twice: as an entry of its own and among its parent's replies. */
  lemma ReplyListedTwice(t: Tables, pid: Id, parent: Id, reply: Id)
    requires pid in t.posts
    requires parent in t.comments && reply in t.comments
    requires t.comments[parent].postId == pid && t.comments[reply].postId == pid
    requires t.comments[reply].parentId == Some(parent)
    ensures Thread(t.comments[reply], RepliesOf(t.comments, reply)) in CommentsOfPost(t, pid).value
    ensures Thread(t.comments[parent], RepliesOf(t.comments, parent)) in CommentsOfPost(t, pid).value
    ensures t.comments[reply] in RepliesOf(t.comments, parent)
  {
  }
}
