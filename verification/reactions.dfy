/** The post router's handlers on the lists inside a post:
    PUT /api/posts/like/:id and /unlike/:id, POST /api/posts/comment/:id and
    DELETE /api/posts/comment/:id/:comment_id (as written, and beside it the
    removal of the named comment that the handler evidently means). */
module Reactions {
  import opened Responses
  import JsArray
  import opened Posts

  /** `post.likes.filter(like => like.user.toString() === u).length`. */
  function LikesBy(likes: seq<Like>, u: UserId): (n: nat)
    ensures n <= |likes|
    ensures n == 0 <==> forall i :: 0 <= i < |likes| ==> likes[i].user != u
  {
    if |likes| == 0 then 0
    else (if likes[0].user == u then 1 else 0) + LikesBy(likes[1..], u)
  }

  /** Each user appears at most once among the likes of a post. */
  predicate AtMostOnce(likes: seq<Like>) {
    forall i, j :: 0 <= i < j < |likes| ==> likes[i].user != likes[j].user
  }

  /** Under the at-most-once rule, the filter of the handlers finds 0 or 1 likes. */
  lemma {:induction false} AtMostOnceCountsOne(likes: seq<Like>, u: UserId)
    requires AtMostOnce(likes)
    ensures LikesBy(likes, u) <= 1
  {
    if |likes| > 0 {
      assert AtMostOnce(likes[1..]) by {
        forall i, j | 0 <= i < j < |likes[1..]| ensures likes[1..][i].user != likes[1..][j].user {
          assert likes[1..][i] == likes[i + 1] && likes[1..][j] == likes[j + 1];
        }
      }
      AtMostOnceCountsOne(likes[1..], u);
      if likes[0].user == u {
        forall i | 0 <= i < |likes[1..]| ensures likes[1..][i].user != u {
          assert likes[1..][i] == likes[i + 1];
        }
      }
    }
  }

  /** The collection invariant the like handlers maintain. */
  predicate Valid(posts: seq<Post>) {
    && UniquePostIds(posts)
    && forall k :: 0 <= k < |posts| ==> AtMostOnce(posts[k].likes)
  }

  /** PUT /api/posts/like/:id by `caller`. The handler does not test for a
      missing post, so one is answered with 500 (a property read on null). */
  function LikePost(posts: seq<Post>, caller: UserId, id: PostId): (r: Result<Reply<seq<Post>, seq<Like>>>)
    ensures !HasPost(posts, id) ==> r == Err(ServerError)
    ensures HasPost(posts, id) ==>
      (r.Err? <==> exists i :: 0 <= i < |posts[PostIndex(posts, id)].likes| && posts[PostIndex(posts, id)].likes[i].user == caller)
    ensures HasPost(posts, id) && r.Err? ==> r.error == Refused(400, "Post already liked")
    ensures r.Ok? ==>
      var k := PostIndex(posts, id);
      var likes := r.value.body;
      && 0 <= k
      && |likes| == |posts[k].likes| + 1
      && likes[0] == Like(caller)
      && likes[1..] == posts[k].likes
      && r.value.state == posts[k := posts[k].(likes := likes)]
  {
    var k := PostIndex(posts, id);
    if k < 0 then Err(ServerError)
    else if LikesBy(posts[k].likes, caller) > 0 then Err(Refused(400, "Post already liked"))
    else
      var likes := [Like(caller)] + posts[k].likes;
      Ok(Reply(posts[k := posts[k].(likes := likes)], likes))
  }

  /** PUT /api/posts/unlike/:id by `caller`: the caller's first like goes, the
      rest keep their order. */
  function UnlikePost(posts: seq<Post>, caller: UserId, id: PostId): (r: Result<Reply<seq<Post>, seq<Like>>>)
    ensures !HasPost(posts, id) ==> r == Err(Refused(404, "post not found"))
    ensures HasPost(posts, id) ==>
      (r.Err? <==> forall i :: 0 <= i < |posts[PostIndex(posts, id)].likes| ==> posts[PostIndex(posts, id)].likes[i].user != caller)
    ensures HasPost(posts, id) && r.Err? ==> r.error == Refused(400, "Post has not yet been liked")
    ensures r.Ok? ==>
      var k := PostIndex(posts, id);
      var before := posts[k].likes;
      var likes := r.value.body;
      && 0 <= k
      && (exists i :: 0 <= i < |before| && before[i].user == caller
                      && (forall j :: 0 <= j < i ==> before[j].user != caller)
                      && likes == before[..i] + before[i + 1..])
      && r.value.state == posts[k := posts[k].(likes := likes)]
    ensures r.Ok? && AtMostOnce(posts[PostIndex(posts, id)].likes) ==>
      forall i :: 0 <= i < |r.value.body| ==> r.value.body[i].user != caller
  {
    var k := PostIndex(posts, id);
    if k < 0 then Err(Refused(404, "post not found"))
    else if LikesBy(posts[k].likes, caller) == 0 then Err(Refused(400, "Post has not yet been liked"))
    else
      var before := posts[k].likes;
      var removeIndex := FirstLikeBy(before, caller);
      var likes := JsArray.Splice(before, removeIndex);
      CutRemovesLiker(before, removeIndex, likes);
      Ok(Reply(posts[k := posts[k].(likes := likes)], likes))
  }

  /** `likes.map(like => like.user.toString()).indexOf(u)`: the position of the
      first like by `u`, or -1. */
  function FirstLikeBy(likes: seq<Like>, u: UserId): (i: int)
    ensures -1 <= i < |likes|
    ensures i == -1 <==> forall j :: 0 <= j < |likes| ==> likes[j].user != u
    ensures 0 <= i ==> likes[i].user == u && forall j :: 0 <= j < i ==> likes[j].user != u
  {
    var users := JsArray.Map(likes, (l: Like) => l.user);
    var i := JsArray.IndexOf(users, u);
    assert 0 <= i ==> forall j :: 0 <= j < i ==> likes[j].user != u by {
      if 0 <= i {
        forall j | 0 <= j < i ensures likes[j].user != u {
          assert users[..i][j] == likes[j].user;
        }
      }
    }
    assert i == -1 ==> forall j :: 0 <= j < |likes| ==> likes[j].user != u by {
      if i == -1 {
        forall j | 0 <= j < |likes| ensures likes[j].user != u {
          assert users[j] == likes[j].user;
        }
      }
    }
    i
  }

  /** When each user likes at most once, cutting out a user's like leaves none
      of theirs. */
  lemma CutRemovesLiker(likes: seq<Like>, r: nat, rest: seq<Like>)
    requires r < |likes| && rest == likes[..r] + likes[r + 1..]
    ensures AtMostOnce(likes) ==> forall i :: 0 <= i < |rest| ==> rest[i].user != likes[r].user
  {
    if AtMostOnce(likes) {
      forall i | 0 <= i < |rest| ensures rest[i].user != likes[r].user {
        if i < r {
          assert rest[i] == likes[i];
        } else {
          assert rest[i] == likes[i + 1];
        }
      }
    }
  }

  /** Liking a post one has not liked and then unliking it gives back the
      collection as it was, with the post's likes in their old order. */
  lemma LikeThenUnlike(posts: seq<Post>, caller: UserId, id: PostId)
    requires LikePost(posts, caller, id).Ok?
    ensures var liked := LikePost(posts, caller, id).value.state;
      UnlikePost(liked, caller, id) == Ok(Reply(posts, posts[PostIndex(posts, id)].likes))
  {
    var k := PostIndex(posts, id);
    var liked := LikePost(posts, caller, id).value;
    var state := liked.state;
    SameIdsSameIndex(posts, state, id);
    var before := state[k].likes;
    assert before == liked.body && before[0].user == caller;
    assert LikesBy(before, caller) > 0;
    assert FirstLikeBy(before, caller) == 0;
    assert JsArray.Splice(before, 0) == posts[k].likes;
    assert state[k := state[k].(likes := posts[k].likes)] == posts;
  }

  /** A second like by the same user is refused. */
  lemma LikeTwiceRefused(posts: seq<Post>, caller: UserId, id: PostId)
    requires LikePost(posts, caller, id).Ok?
    ensures LikePost(LikePost(posts, caller, id).value.state, caller, id) == Err(Refused(400, "Post already liked"))
  {
    var k := PostIndex(posts, id);
    var liked := LikePost(posts, caller, id).value.state;
    SameIdsSameIndex(posts, liked, id);
    assert liked[k].likes[0].user == caller;
  }

  /** Like keeps every user at most once among a post's likes. */
  lemma LikeKeepsValid(posts: seq<Post>, caller: UserId, id: PostId)
    requires Valid(posts)
    ensures LikePost(posts, caller, id).Ok? ==> Valid(LikePost(posts, caller, id).value.state)
  {
    var k := PostIndex(posts, id);
    var liked := LikePost(posts, caller, id);
    if liked.Ok? {
      var likes := liked.value.body;
      assert AtMostOnce(likes) by {
        forall i, j | 0 <= i < j < |likes| ensures likes[i].user != likes[j].user {
          assert likes[j] == posts[k].likes[j - 1];
          if i > 0 {
            assert likes[i] == posts[k].likes[i - 1];
          }
        }
      }
      SetLikesKeepsValid(posts, k, likes);
    }
  }

  /** Unlike keeps every user at most once among a post's likes. */
  lemma UnlikeKeepsValid(posts: seq<Post>, caller: UserId, id: PostId)
    requires Valid(posts)
    ensures UnlikePost(posts, caller, id).Ok? ==> Valid(UnlikePost(posts, caller, id).value.state)
  {
    var k := PostIndex(posts, id);
    var unliked := UnlikePost(posts, caller, id);
    if unliked.Ok? {
      var before := posts[k].likes;
      var likes := unliked.value.body;
      var r :| 0 <= r < |before| && likes == before[..r] + before[r + 1..];
      CutKeepsAtMostOnce(before, r);
      SetLikesKeepsValid(posts, k, likes);
    }
  }

  /** Cutting one like out of a list keeps each user at most once. */
  lemma CutKeepsAtMostOnce(likes: seq<Like>, r: nat)
    requires r < |likes| && AtMostOnce(likes)
    ensures AtMostOnce(likes[..r] + likes[r + 1..])
  {
    var rest := likes[..r] + likes[r + 1..];
    forall i, j | 0 <= i < j < |rest| ensures rest[i].user != rest[j].user {
      var i' := if i < r then i else i + 1;
      var j' := if j < r then j else j + 1;
      assert rest[i] == likes[i'] && rest[j] == likes[j'];
    }
  }

  /** Replacing one post's likes by a list without repeated users keeps the
      collection valid. */
  lemma SetLikesKeepsValid(posts: seq<Post>, k: nat, likes: seq<Like>)
    requires Valid(posts) && k < |posts| && AtMostOnce(likes)
    ensures Valid(posts[k := posts[k].(likes := likes)])
  {
    var posts' := posts[k := posts[k].(likes := likes)];
    SameIdsKeepUnique(posts, posts');
    forall j | 0 <= j < |posts'| ensures AtMostOnce(posts'[j].likes) {
      if j != k {
        assert posts'[j] == posts[j];
      }
    }
  }

  /** Replacing posts by posts with the same ids keeps the ids unique. */
  lemma SameIdsKeepUnique(posts: seq<Post>, posts': seq<Post>)
    requires UniquePostIds(posts)
    requires |posts'| == |posts| && forall k :: 0 <= k < |posts| ==> posts'[k].id == posts[k].id
    ensures UniquePostIds(posts')
  {
  }

  /** POST /api/posts/comment/:id by `caller`: a comment copying the caller's
      current name and avatar goes to the front of the comments; `commentId`
      and `now` are the id and time the database assigns. An unknown caller or
      a missing post makes the handler read a property of null (500). */
  function AddComment(posts: seq<Post>, users: Users, caller: UserId, id: PostId, text: string,
                      commentId: CommentId, now: int): (r: Result<Reply<seq<Post>, seq<Comment>>>)
    ensures text == "" ==> r == Err(Invalid([FieldError("text", "Text is required")]))
    ensures text != "" ==> (r.Err? <==> caller !in users || !HasPost(posts, id))
    ensures text != "" && r.Err? ==> r.error == ServerError
    ensures r.Ok? ==>
      var k := PostIndex(posts, id);
      var comments := r.value.body;
      && 0 <= k && caller in users
      && |comments| == |posts[k].comments| + 1
      && comments[0] == Comment(commentId, caller, text, users[caller].name, users[caller].avatar, now)
      && comments[1..] == posts[k].comments
      && r.value.state == posts[k := posts[k].(comments := comments)]
  {
    var rules := [Rule("text", text, "Text is required")];
    assert rules[1..] == [] && Violations(rules[1..]) == [];
    assert Violations(rules) == (if text == "" then [FieldError("text", "Text is required")] else []);
    var errs := Violations(rules);
    var k := PostIndex(posts, id);
    if |errs| > 0 then Err(Invalid(errs))
    else if caller !in users || k < 0 then Err(ServerError)
    else
      var author := users[caller];
      var comments := [Comment(commentId, caller, text, author.name, author.avatar, now)] + posts[k].comments;
      Ok(Reply(posts[k := posts[k].(comments := comments)], comments))
  }

  /** A comment just added and then deleted by its author, under its new id,
      leaves the collection as it was: the new comment is the caller's first,
      so here the deletion as written removes the named comment. */
  lemma AddThenDeleteComment(posts: seq<Post>, users: Users, caller: UserId, id: PostId, text: string,
                             commentId: CommentId, now: int)
    requires AddComment(posts, users, caller, id, text, commentId, now).Ok?
    ensures var added := AddComment(posts, users, caller, id, text, commentId, now).value.state;
      DeleteComment(added, caller, id, commentId) == Ok(Reply(posts, posts[PostIndex(posts, id)].comments))
  {
    var k := PostIndex(posts, id);
    var added := AddComment(posts, users, caller, id, text, commentId, now).value;
    var state := added.state;
    SameIdsSameIndex(posts, state, id);
    var before := state[k].comments;
    assert before == added.body && before[0].id == commentId && before[0].user == caller;
    assert CommentIndex(before, commentId) == 0;
    assert FirstBy(before, caller) == 0;
    assert before[..0] + before[0 + 1..] == posts[k].comments;
    assert state[k := state[k].(comments := posts[k].comments)] == posts;
  }

  /** The same round trip for the deletion by id. */
  lemma AddThenDeleteCommentById(posts: seq<Post>, users: Users, caller: UserId, id: PostId, text: string,
                                 commentId: CommentId, now: int)
    requires AddComment(posts, users, caller, id, text, commentId, now).Ok?
    ensures var added := AddComment(posts, users, caller, id, text, commentId, now).value.state;
      DeleteCommentById(added, caller, id, commentId) == Ok(Reply(posts, posts[PostIndex(posts, id)].comments))
  {
    var k := PostIndex(posts, id);
    var added := AddComment(posts, users, caller, id, text, commentId, now).value;
    var state := added.state;
    SameIdsSameIndex(posts, state, id);
    var before := state[k].comments;
    assert before == added.body && before[0].id == commentId && before[0].user == caller;
    assert CommentIndex(before, commentId) == 0;
    assert before[..0] + before[0 + 1..] == posts[k].comments;
    assert state[k := state[k].(comments := posts[k].comments)] == posts;
  }

  /** Comment ids are unique within a post. */
  predicate UniqueCommentIds(comments: seq<Comment>) {
    forall i, j :: 0 <= i < j < |comments| ==> comments[i].id != comments[j].id
  }

  /** `post.comments.find(comment => comment.id === commentId)`, as a position. */
  function CommentIndex(comments: seq<Comment>, commentId: CommentId): (c: int)
    ensures -1 <= c < |comments|
    ensures c == -1 <==> forall i :: 0 <= i < |comments| ==> comments[i].id != commentId
    ensures 0 <= c ==> comments[c].id == commentId && forall i :: 0 <= i < c ==> comments[i].id != commentId
  {
    JsArray.FindIndex(comments, (x: Comment) => x.id == commentId)
  }

  /** `comments.map(comment => comment.user.toString()).indexOf(u)`: the
      position of the first comment written by `u`, or -1. */
  function FirstBy(comments: seq<Comment>, u: UserId): (i: int)
    ensures -1 <= i < |comments|
    ensures i == -1 <==> forall j :: 0 <= j < |comments| ==> comments[j].user != u
    ensures 0 <= i ==> comments[i].user == u && forall j :: 0 <= j < i ==> comments[j].user != u
  {
    var authors := JsArray.Map(comments, (c: Comment) => c.user);
    var i := JsArray.IndexOf(authors, u);
    assert 0 <= i ==> forall j :: 0 <= j < i ==> comments[j].user != u by {
      if 0 <= i {
        forall j | 0 <= j < i ensures comments[j].user != u {
          assert authors[..i][j] == comments[j].user;
        }
      }
    }
    assert i == -1 ==> forall j :: 0 <= j < |comments| ==> comments[j].user != u by {
      if i == -1 {
        forall j | 0 <= j < |comments| ensures comments[j].user != u {
          assert authors[j] == comments[j].user;
        }
      }
    }
    i
  }

  /** DELETE /api/posts/comment/:id/:comment_id by `caller`, as written: the
      named comment must exist and be the caller's (otherwise 404 both times),
      and then the position removed is that of the caller's first comment,
      which need not be the named one. */
  function DeleteComment(posts: seq<Post>, caller: UserId, id: PostId, commentId: CommentId)
    : (r: Result<Reply<seq<Post>, seq<Comment>>>)
    ensures !HasPost(posts, id) ==> r == Err(ServerError)
    ensures HasPost(posts, id) && CommentIndex(posts[PostIndex(posts, id)].comments, commentId) < 0 ==>
      r == Err(Refused(404, "comment does not exits"))
    ensures HasPost(posts, id) && 0 <= CommentIndex(posts[PostIndex(posts, id)].comments, commentId) ==>
      var named := posts[PostIndex(posts, id)].comments[CommentIndex(posts[PostIndex(posts, id)].comments, commentId)];
      (r.Err? <==> named.user != caller) && (r.Err? ==> r.error == Refused(404, "User not authorized"))
    ensures r.Ok? ==>
      var k := PostIndex(posts, id);
      var before := posts[k].comments;
      var i := FirstBy(before, caller);
      && 0 <= k && 0 <= i
      && r.value.body == before[..i] + before[i + 1..]
      && r.value.state == posts[k := posts[k].(comments := r.value.body)]
  {
    var k := PostIndex(posts, id);
    if k < 0 then Err(ServerError)
    else
      var before := posts[k].comments;
      var c := CommentIndex(before, commentId);
      if c < 0 then Err(Refused(404, "comment does not exits"))
      else if before[c].user != caller then Err(Refused(404, "User not authorized"))
      else
        var indexRemove := FirstBy(before, caller);
        var comments := JsArray.Splice(before, indexRemove);
        Ok(Reply(posts[k := posts[k].(comments := comments)], comments))
  }

  /** The deletion the handler evidently means: only the comment's author may
      delete it (401 otherwise, as for posts), and it is the named comment that
      goes. */
  function DeleteCommentById(posts: seq<Post>, caller: UserId, id: PostId, commentId: CommentId)
    : (r: Result<Reply<seq<Post>, seq<Comment>>>)
    ensures !HasPost(posts, id) ==> r == Err(ServerError)
    ensures HasPost(posts, id) && CommentIndex(posts[PostIndex(posts, id)].comments, commentId) < 0 ==>
      r == Err(Refused(404, "comment does not exits"))
    ensures HasPost(posts, id) && 0 <= CommentIndex(posts[PostIndex(posts, id)].comments, commentId) ==>
      var named := posts[PostIndex(posts, id)].comments[CommentIndex(posts[PostIndex(posts, id)].comments, commentId)];
      (r.Err? <==> named.user != caller) && (r.Err? ==> r.error == Refused(401, "User not authorized"))
    ensures r.Ok? ==>
      var k := PostIndex(posts, id);
      var before := posts[k].comments;
      var c := CommentIndex(before, commentId);
      && 0 <= k && 0 <= c && before[c].user == caller
      && r.value.body == before[..c] + before[c + 1..]
      && r.value.state == posts[k := posts[k].(comments := r.value.body)]
    ensures r.Ok? && UniqueCommentIds(posts[PostIndex(posts, id)].comments) ==>
      forall i :: 0 <= i < |r.value.body| ==> r.value.body[i].id != commentId
  {
    var k := PostIndex(posts, id);
    if k < 0 then Err(ServerError)
    else
      var before := posts[k].comments;
      var c := CommentIndex(before, commentId);
      if c < 0 then Err(Refused(404, "comment does not exits"))
      else if before[c].user != caller then Err(Refused(401, "User not authorized"))
      else
        var comments := before[..c] + before[c + 1..];
        assert UniqueCommentIds(before) ==> forall i :: 0 <= i < |comments| ==> comments[i].id != commentId by {
          if UniqueCommentIds(before) {
            forall i | 0 <= i < |comments| ensures comments[i].id != commentId {
              if i < c {
                assert comments[i] == before[i];
              } else {
                assert comments[i] == before[i + 1];
              }
            }
          }
        }
        Ok(Reply(posts[k := posts[k].(comments := comments)], comments))
  }

  /** A caller deleting someone else's comment is refused with 404 as written,
      where the deletion by id (like post deletion) answers 401. */
  lemma NonAuthorStatus(posts: seq<Post>, caller: UserId, id: PostId, commentId: CommentId)
    requires HasPost(posts, id)
    requires var c := CommentIndex(posts[PostIndex(posts, id)].comments, commentId);
      0 <= c && posts[PostIndex(posts, id)].comments[c].user != caller
    ensures DeleteComment(posts, caller, id, commentId) == Err(Refused(404, "User not authorized"))
    ensures DeleteCommentById(posts, caller, id, commentId) == Err(Refused(401, "User not authorized"))
  {
  }

  /** With unique comment ids, the deletion as written agrees with the deletion
      of the named comment exactly when the named comment is the caller's first
      one (or when both refuse the request, which happens on the same inputs,
      differing only in 404 against 401 for a comment of someone else). */
  lemma DeleteCommentMatchesOnlyFirst(posts: seq<Post>, caller: UserId, id: PostId, commentId: CommentId)
    requires HasPost(posts, id)
    requires UniqueCommentIds(posts[PostIndex(posts, id)].comments)
    ensures DeleteComment(posts, caller, id, commentId).Ok? <==> DeleteCommentById(posts, caller, id, commentId).Ok?
    ensures DeleteComment(posts, caller, id, commentId).Ok? ==>
      (DeleteComment(posts, caller, id, commentId) == DeleteCommentById(posts, caller, id, commentId)
       <==> CommentIndex(posts[PostIndex(posts, id)].comments, commentId) == FirstBy(posts[PostIndex(posts, id)].comments, caller))
  {
    var k := PostIndex(posts, id);
    var before := posts[k].comments;
    var c := CommentIndex(before, commentId);
    var written := DeleteComment(posts, caller, id, commentId);
    var byId := DeleteCommentById(posts, caller, id, commentId);
    if c < 0 || before[c].user != caller {
      assert written.Err? && byId.Err?;
    } else {
      assert written.Ok? && byId.Ok?;
      var i := FirstBy(before, caller);
      assert byId.value.body == before[..c] + before[c + 1..];
      assert written.value.body == before[..i] + before[i + 1..];
      if i < c {
        CutsDiffer(before, i, c);
        assert written != byId;
      } else {
        assert i == c;
        assert written == byId;
      }
    }
  }

  /** With unique ids, cutting out two different positions gives different lists. */
  lemma CutsDiffer(comments: seq<Comment>, i: nat, c: nat)
    requires i < c < |comments| && UniqueCommentIds(comments)
    ensures comments[..i] + comments[i + 1..] != comments[..c] + comments[c + 1..]
  {
    var left := comments[..i] + comments[i + 1..];
    var right := comments[..c] + comments[c + 1..];
    assert left[i] == comments[i + 1];
    assert right[i] == comments[i];
  }

  /** The input that shows the discrepancy: two comments by the caller, the
      caller deletes the second, and the first one is removed instead. */
  lemma DeleteSecondOwnCommentRemovesFirst(p: Post, first: Comment, second: Comment, caller: UserId)
    requires first.user == caller && second.user == caller && first.id != second.id
    requires p.comments == [first, second]
    ensures DeleteComment([p], caller, p.id, second.id) == Ok(Reply([p.(comments := [second])], [second]))
  {
    var posts := [p];
    var before := p.comments;
    var r := DeleteComment(posts, caller, p.id, second.id);
    assert PostIndex(posts, p.id) == 0 by {
      assert posts[0].id == p.id;
    }
    assert CommentIndex(before, second.id) == 1 by {
      assert before[0] == first && before[1] == second;
    }
    assert FirstBy(before, caller) == 0 by {
      assert before[0].user == caller;
    }
    assert r.Ok?;
    assert r.value.body == [second] by {
      assert before[..0] + before[0 + 1..] == before[1..] == [second];
    }
    SingletonUpdate(p, p.(comments := [second]));
  }

  /** Replacing the only post of a one-post collection. */
  lemma SingletonUpdate(p: Post, q: Post)
    ensures [p][0 := q] == [q]
  {
  }

  /** On the same input, the deletion by id removes the second comment. */
  lemma DeleteSecondOwnCommentById(p: Post, first: Comment, second: Comment, caller: UserId)
    requires first.user == caller && second.user == caller && first.id != second.id
    requires p.comments == [first, second]
    ensures DeleteCommentById([p], caller, p.id, second.id) == Ok(Reply([p.(comments := [first])], [first]))
  {
    var posts := [p];
    var before := p.comments;
    assert posts[0] == p && PostIndex(posts, p.id) == 0;
    assert before[0] == first && before[1] == second;
    assert CommentIndex(before, second.id) == 1;
    assert before[..1] + before[1 + 1..] == [first] by {
      assert before[..1] == [first] && before[2..] == [];
    }
    SingletonUpdate(p, p.(comments := [first]));
  }
}
