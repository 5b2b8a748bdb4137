/** The row-level changes the database makes: inserting and updating rows,
    and deleting them under the `on_delete` rules declared on the foreign
    keys of `Post` and `Comment` (`blog/models.py`). Each change keeps the
    database well formed, so no foreign key is ever left dangling. */
module Writes {
  import opened Collections
  import opened Models

  // ---------------------------------------------------------------------------
  // Inserts

  /** A new user; the authentication framework keeps usernames unique. */
  function InsertUser(t: Tables, u: User): (r: Tables)
    requires WellFormed(t)
    requires forall v :: v in t.users ==> v.id != u.id && v.username != u.username
    ensures WellFormed(r)
    ensures r.users == t.users + [u]
    ensures r.(users := t.users) == t
  {
    var r := t.(users := t.users + [u]);
    AppendUnique(t.users, u, UserKey);
    AppendUnique(t.users, u, UserName);
    KeysAppend(t.users, u, UserKey);
    r
  }

  /** A new category; the `unique=True` slug rejects a slug already taken. */
  function InsertCategory(t: Tables, c: Category): (r: Tables)
    requires WellFormed(t)
    requires forall d :: d in t.categories ==> d.id != c.id && d.slug != c.slug
    ensures WellFormed(r)
    ensures r.categories == t.categories + [c]
    ensures r.(categories := t.categories) == t
  {
    var r := t.(categories := t.categories + [c]);
    AppendUnique(t.categories, c, CategoryKey);
    AppendUnique(t.categories, c, CategorySlug);
    KeysAppend(t.categories, c, CategoryKey);
    r
  }

  function InsertLocation(t: Tables, l: Location): (r: Tables)
    requires WellFormed(t)
    requires forall m :: m in t.locations ==> m.id != l.id
    ensures WellFormed(r)
    ensures r.locations == t.locations + [l]
    ensures r.(locations := t.locations) == t
  {
    var r := t.(locations := t.locations + [l]);
    AppendUnique(t.locations, l, LocationKey);
    KeysAppend(t.locations, l, LocationKey);
    r
  }

  function InsertPost(t: Tables, p: Post): (r: Tables)
    requires WellFormed(t)
    requires PostRefsOk(t, p)
    requires forall q :: q in t.posts ==> q.id != p.id
    ensures WellFormed(r)
    ensures r.posts == t.posts + [p]
    ensures r.(posts := t.posts) == t
  {
    var r := t.(posts := t.posts + [p]);
    AppendUnique(t.posts, p, PostKey);
    KeysAppend(t.posts, p, PostKey);
    r
  }

  function InsertComment(t: Tables, c: Comment): (r: Tables)
    requires WellFormed(t)
    requires CommentRefsOk(t, c)
    requires forall d :: d in t.comments ==> d.id != c.id
    ensures WellFormed(r)
    ensures r.comments == t.comments + [c]
    ensures r.(comments := t.comments) == t
  {
    AppendUnique(t.comments, c, CommentKey);
    t.(comments := t.comments + [c])
  }

  /** A new comment raises the count of its own post by one and no other. */
  lemma {:induction false} InsertCommentCounts(t: Tables, c: Comment, pid: PostId)
    requires WellFormed(t)
    requires CommentRefsOk(t, c)
    requires forall d :: d in t.comments ==> d.id != c.id
    ensures CommentCount(InsertComment(t, c), pid) ==
      CommentCount(t, pid) + (if c.post == pid then 1 else 0)
  {
    FilterAppend(t.comments, c, (d: Comment) => d.post == pid);
  }

  // ---------------------------------------------------------------------------
  // Updates

  /** Overwrites the row whose primary key is `p.id` with `p`. */
  function ReplacePost(t: Tables, p: Post): (r: Tables)
    requires WellFormed(t)
    requires PostRefsOk(t, p)
    ensures WellFormed(r)
    ensures |r.posts| == |t.posts|
    ensures forall i :: 0 <= i < |t.posts| ==>
      r.posts[i] == if t.posts[i].id == p.id then p else t.posts[i]
    ensures r.(posts := t.posts) == t
  {
    var ps := seq(|t.posts|, i requires 0 <= i < |t.posts| =>
      if t.posts[i].id == p.id then p else t.posts[i]);
    assert forall i :: 0 <= i < |ps| ==> ps[i].id == t.posts[i].id;
    SamePostKeys(t.posts, ps);
    var r := t.(posts := ps);
    assert UniqueRows(r);
    forall q | q in ps ensures PostRefsOk(r, q) {
      var i :| 0 <= i < |ps| && ps[i] == q;
      if q != p { assert q == t.posts[i] && t.posts[i] in t.posts; }
    }
    assert forall c :: c in r.comments ==> CommentRefsOk(r, c);
    r
  }

  /** Overwrites the row whose primary key is `c.id` with `c`. */
  function ReplaceComment(t: Tables, c: Comment): (r: Tables)
    requires WellFormed(t)
    requires CommentRefsOk(t, c)
    ensures WellFormed(r)
    ensures |r.comments| == |t.comments|
    ensures forall i :: 0 <= i < |t.comments| ==>
      r.comments[i] == if t.comments[i].id == c.id then c else t.comments[i]
    ensures r.(comments := t.comments) == t
  {
    var cs := seq(|t.comments|, i requires 0 <= i < |t.comments| =>
      if t.comments[i].id == c.id then c else t.comments[i]);
    assert forall i :: 0 <= i < |cs| ==> cs[i].id == t.comments[i].id;
    assert forall d :: d in cs ==> d == c || d in t.comments;
    t.(comments := cs)
  }

  /** `ProfileUpdateView` saving `UserForm`: the row with key `uid` takes the
      username `name`, which no other user may hold; every key is kept, so
      the posts and comments of the user stay theirs. */
  function RenameUser(t: Tables, uid: UserId, name: string): (r: Tables)
    requires WellFormed(t)
    requires forall v :: v in t.users && v.id != uid ==> v.username != name
    ensures WellFormed(r)
    ensures |r.users| == |t.users|
    ensures forall i :: 0 <= i < |t.users| ==>
      r.users[i] == if t.users[i].id == uid then t.users[i].(username := name) else t.users[i]
    ensures Keys(r.users, UserKey) == Keys(t.users, UserKey)
    ensures r.categories == t.categories && r.locations == t.locations
    ensures r.posts == t.posts && r.comments == t.comments
  {
    var us := seq(|t.users|, i requires 0 <= i < |t.users| =>
      if t.users[i].id == uid then t.users[i].(username := name) else t.users[i]);
    assert forall i :: 0 <= i < |us| ==> us[i].id == t.users[i].id;
    assert UniqueBy(us, UserName) by {
      forall i, k | 0 <= i < k < |us| ensures us[i].username != us[k].username {
        assert t.users[i] in t.users && t.users[k] in t.users;
      }
    }
    assert Keys(us, UserKey) == Keys(t.users, UserKey) by {
      forall k | k in Keys(t.users, UserKey) ensures k in Keys(us, UserKey) {
        var u :| u in t.users && u.id == k;
        var i :| 0 <= i < |t.users| && t.users[i] == u;
        assert us[i] in us;
      }
    }
    t.(users := us)
  }

  // ---------------------------------------------------------------------------
  // Deletes

  /** Deleting a comment removes that row only. */
  function RemoveComment(t: Tables, cid: CommentId): (r: Tables)
    requires WellFormed(t)
    ensures WellFormed(r)
    ensures forall c :: c in r.comments <==> c in t.comments && c.id != cid
    ensures r.(comments := t.comments) == t
  {
    FilterUnique(t.comments, (c: Comment) => c.id != cid, CommentKey);
    t.(comments := Filter(t.comments, (c: Comment) => c.id != cid))
  }

  /** Deleting a post: `Comment.post` is `CASCADE`, so the post's comments go with it. */
  function RemovePost(t: Tables, pid: PostId): (r: Tables)
    requires WellFormed(t)
    ensures WellFormed(r)
    ensures forall p :: p in r.posts <==> p in t.posts && p.id != pid
    ensures forall c :: c in r.comments <==> c in t.comments && c.post != pid
    ensures r.users == t.users && r.categories == t.categories && r.locations == t.locations
  {
    var r := t.(posts := Filter(t.posts, (p: Post) => p.id != pid),
                comments := Filter(t.comments, (c: Comment) => c.post != pid));
    RemovePostKeepsRefs(t, pid, r);
    r
  }

  /** The comments that survive the deletion of a post still point at posts. */
  lemma RemovePostKeepsRefs(t: Tables, pid: PostId, r: Tables)
    requires WellFormed(t)
    requires r == t.(posts := Filter(t.posts, (p: Post) => p.id != pid),
                     comments := Filter(t.comments, (c: Comment) => c.post != pid))
    ensures WellFormed(r)
  {
    var keepPost := (p: Post) => p.id != pid;
    var keepComment := (c: Comment) => c.post != pid;
    assert r.posts == Filter(t.posts, keepPost);
    assert r.comments == Filter(t.comments, keepComment);
    FilterUnique(t.posts, keepPost, PostKey);
    FilterUnique(t.comments, keepComment, CommentKey);
    forall c | c in r.comments ensures CommentRefsOk(r, c) {
      KeyKept(t.posts, keepPost, PostKey, c.post);
    }
  }

  /** Deleting a post leaves the comment count of every other post as it was. */
  lemma RemovePostCounts(t: Tables, pid: PostId, other: PostId)
    requires WellFormed(t)
    requires other != pid
    ensures CommentCount(RemovePost(t, pid), other) == CommentCount(t, other)
  {
    FilterFilter(t.comments, (c: Comment) => c.post != pid, (c: Comment) => c.post == other);
  }

  /** Deleting a user: `Post.author` and `Comment.author` are `CASCADE`, so the
      user's posts go, and with them every comment on those posts, and so do
      the user's comments on other posts. */
  function RemoveUser(t: Tables, uid: UserId): (r: Tables)
    requires WellFormed(t)
    ensures WellFormed(r)
    ensures forall u :: u in r.users <==> u in t.users && u.id != uid
    ensures forall p :: p in r.posts <==> p in t.posts && p.author != uid
    ensures forall c :: c in r.comments <==>
      c in t.comments && c.author != uid
      && forall p :: p in t.posts && p.id == c.post ==> p.author != uid
    ensures r.categories == t.categories && r.locations == t.locations
  {
    var gone := set p | p in t.posts && p.author == uid :: p.id;
    var keepUser := (u: User) => u.id != uid;
    var keepPost := (p: Post) => p.author != uid;
    var keepComment := (c: Comment) => c.author != uid && c.post !in gone;
    var r := t.(users := Filter(t.users, keepUser),
                posts := Filter(t.posts, keepPost),
                comments := Filter(t.comments, keepComment));
    RemoveUserKeepsRefs(t, uid, gone, r);
    assert forall c: Comment :: c.post !in gone <==> forall p :: p in t.posts && p.id == c.post ==> p.author != uid;
    r
  }

  /** The foreign keys that survive the deletion of a user still point at rows. */
  lemma RemoveUserKeepsRefs(t: Tables, uid: UserId, gone: set<PostId>, r: Tables)
    requires WellFormed(t)
    requires gone == set p | p in t.posts && p.author == uid :: p.id
    requires r == t.(users := Filter(t.users, (u: User) => u.id != uid),
                     posts := Filter(t.posts, (p: Post) => p.author != uid),
                     comments := Filter(t.comments, (c: Comment) => c.author != uid && c.post !in gone))
    ensures WellFormed(r)
  {
    var keepUser := (u: User) => u.id != uid;
    var keepPost := (p: Post) => p.author != uid;
    var keepComment := (c: Comment) => c.author != uid && c.post !in gone;
    assert r.users == Filter(t.users, keepUser);
    assert r.posts == Filter(t.posts, keepPost);
    assert r.comments == Filter(t.comments, keepComment);
    FilterUnique(t.users, keepUser, UserKey);
    FilterUnique(t.users, keepUser, UserName);
    FilterUnique(t.posts, keepPost, PostKey);
    FilterUnique(t.comments, keepComment, CommentKey);
    forall p | p in r.posts ensures PostRefsOk(r, p) {
      KeyKept(t.users, keepUser, UserKey, p.author);
    }
    forall c | c in r.comments ensures CommentRefsOk(r, c) {
      KeyKept(t.users, keepUser, UserKey, c.author);
      KeyKept(t.posts, keepPost, PostKey, c.post);
    }
  }

  /** The posts with `category` set to null where it pointed at `cid`. */
  function NullCategory(ps: seq<Post>, cid: CategoryId): (r: seq<Post>)
    ensures |r| == |ps|
    ensures forall i :: 0 <= i < |ps| ==>
      r[i] == if ps[i].category == Some(cid) then ps[i].(category := None) else ps[i]
  {
    seq(|ps|, i requires 0 <= i < |ps| =>
      if ps[i].category == Some(cid) then ps[i].(category := None) else ps[i])
  }

  /** The posts with `location` set to null where it pointed at `lid`. */
  function NullLocation(ps: seq<Post>, lid: LocationId): (r: seq<Post>)
    ensures |r| == |ps|
    ensures forall i :: 0 <= i < |ps| ==>
      r[i] == if ps[i].location == Some(lid) then ps[i].(location := None) else ps[i]
  {
    seq(|ps|, i requires 0 <= i < |ps| =>
      if ps[i].location == Some(lid) then ps[i].(location := None) else ps[i])
  }

  /** Rewriting posts without touching their primary keys keeps the post keys. */
  lemma SamePostKeys(ps: seq<Post>, qs: seq<Post>)
    requires |qs| == |ps|
    requires forall i :: 0 <= i < |ps| ==> qs[i].id == ps[i].id
    ensures UniqueBy(ps, PostKey) ==> UniqueBy(qs, PostKey)
    ensures Keys(qs, PostKey) == Keys(ps, PostKey)
  {
    forall k | k in Keys(ps, PostKey) ensures k in Keys(qs, PostKey) {
      var q :| q in ps && q.id == k;
      var i :| 0 <= i < |ps| && ps[i] == q;
      assert qs[i] in qs;
    }
    forall k | k in Keys(qs, PostKey) ensures k in Keys(ps, PostKey) {
      var q :| q in qs && q.id == k;
      var i :| 0 <= i < |qs| && qs[i] == q;
      assert ps[i] in ps;
    }
  }

  /** Deleting a category: `Post.category` is `SET_NULL`, so every post survives
      and those in the category lose it; nothing else changes. */
  function RemoveCategory(t: Tables, cid: CategoryId): (r: Tables)
    requires WellFormed(t)
    ensures WellFormed(r)
    ensures forall c :: c in r.categories <==> c in t.categories && c.id != cid
    ensures r.posts == NullCategory(t.posts, cid)
    ensures r.users == t.users && r.locations == t.locations && r.comments == t.comments
  {
    var keepCategory := (c: Category) => c.id != cid;
    var ps := NullCategory(t.posts, cid);
    var r := t.(categories := Filter(t.categories, keepCategory), posts := ps);
    FilterUnique(t.categories, keepCategory, CategoryKey);
    FilterUnique(t.categories, keepCategory, CategorySlug);
    SamePostKeys(t.posts, ps);
    assert forall p :: p in r.posts ==> PostRefsOk(r, p) by {
      forall p | p in ps ensures PostRefsOk(r, p) {
        var i :| 0 <= i < |ps| && ps[i] == p;
        assert t.posts[i] in t.posts;
        if p.category.Some? {
          KeyKept(t.categories, keepCategory, CategoryKey, p.category.value);
        }
      }
    }
    r
  }

  /** Deleting a location: `Post.location` is `SET_NULL`, so every post survives
      and those at the location lose it; nothing else changes. */
  function RemoveLocation(t: Tables, lid: LocationId): (r: Tables)
    requires WellFormed(t)
    ensures WellFormed(r)
    ensures forall l :: l in r.locations <==> l in t.locations && l.id != lid
    ensures r.posts == NullLocation(t.posts, lid)
    ensures r.users == t.users && r.categories == t.categories && r.comments == t.comments
  {
    var keepLocation := (l: Location) => l.id != lid;
    var ps := NullLocation(t.posts, lid);
    var r := t.(locations := Filter(t.locations, keepLocation), posts := ps);
    FilterUnique(t.locations, keepLocation, LocationKey);
    SamePostKeys(t.posts, ps);
    assert forall p :: p in r.posts ==> PostRefsOk(r, p) by {
      forall p | p in ps ensures PostRefsOk(r, p) {
        var i :| 0 <= i < |ps| && ps[i] == p;
        assert t.posts[i] in t.posts;
        if p.location.Some? {
          KeyKept(t.locations, keepLocation, LocationKey, p.location.value);
        }
      }
    }
    r
  }

  /** Deleting a category hides the posts it held and leaves the visibility of
      every other post as it was. */
  lemma RemoveCategoryVisibility(t: Tables, cid: CategoryId, i: nat, now: Timestamp)
    requires WellFormed(t)
    requires i < |t.posts|
    ensures var r := RemoveCategory(t, cid);
      IsVisible(r, r.posts[i], now) ==
        (t.posts[i].category != Some(cid) && IsVisible(t, t.posts[i], now))
  {
    var r := RemoveCategory(t, cid);
    var p := t.posts[i];
    if p.category.Some? && p.category.value != cid {
      assert p in t.posts;
      var k := p.category.value;
      if c :| c in t.categories && c.id == k {
        FindKeyUnique(t.categories, CategoryKey, c);
        assert c in r.categories;
        FilterUnique(t.categories, (c: Category) => c.id != cid, CategoryKey);
        FindKeyUnique(r.categories, CategoryKey, c);
      }
    }
  }
}
