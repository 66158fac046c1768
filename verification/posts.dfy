/** The post router's handlers on whole posts: POST /api/posts, GET /api/posts
    (newest first), GET /api/posts/:id and DELETE /api/posts/:id, over the post
    collection in storage order. */
module Posts {
  import opened Responses
  import JsArray

  type UserId = string
  type PostId = string
  type CommentId = string

  /** The display fields of a user record, copied into posts and comments when
      they are written and never refreshed afterwards. */
  datatype User = User(name: string, avatar: string)

  /** The user collection, by user id. */
  type Users = map<UserId, User>

  datatype Like = Like(user: UserId)

  datatype Comment = Comment(id: CommentId, user: UserId, text: string, name: string, avatar: string, date: int)

  datatype Post = Post(
    id: PostId,
    user: UserId,
    text: string,
    name: string,
    avatar: string,
    likes: seq<Like>,
    comments: seq<Comment>,
    date: int)

  /** Post ids are unique in the collection (they are its primary key). */
  predicate UniquePostIds(posts: seq<Post>) {
    forall i, j :: 0 <= i < j < |posts| ==> posts[i].id != posts[j].id
  }

  predicate HasPost(posts: seq<Post>, id: PostId) {
    exists k :: 0 <= k < |posts| && posts[k].id == id
  }

  /** `Post.findById(id)`, as the position of the post found, or -1. */
  function PostIndex(posts: seq<Post>, id: PostId): (k: int)
    ensures -1 <= k < |posts|
    ensures k == -1 <==> !HasPost(posts, id)
    ensures 0 <= k ==> posts[k].id == id && forall j :: 0 <= j < k ==> posts[j].id != id
    ensures 0 <= k && UniquePostIds(posts) ==> forall j :: 0 <= j < |posts| && j != k ==> posts[j].id != id
  {
    JsArray.FindIndex(posts, (p: Post) => p.id == id)
  }

  /** POST /api/posts by `caller`. The new post copies the caller's current name
      and avatar and starts with no likes or comments; `id` and `now` are the id
      and creation time the database assigns. An unknown caller makes the
      handler read a property of null, and an id already taken makes the insert
      fail: both are answered with 500. */
  function CreatePost(posts: seq<Post>, users: Users, caller: UserId, text: string, id: PostId, now: int)
    : (r: Result<Reply<seq<Post>, Post>>)
    ensures text == "" ==> r == Err(Invalid([FieldError("text", "Text is required")]))
    ensures text != "" && caller !in users ==> r == Err(ServerError)
    ensures text != "" && caller in users ==> (r.Ok? <==> !HasPost(posts, id))
    ensures r.Ok? ==>
      var p := r.value.body;
      && caller in users
      && p.id == id && p.user == caller && p.text == text && p.date == now
      && p.name == users[caller].name && p.avatar == users[caller].avatar
      && p.likes == [] && p.comments == []
      && r.value.state == posts + [p]
  {
    var rules := [Rule("text", text, "Text is required")];
    assert rules[1..] == [] && Violations(rules[1..]) == [];
    assert Violations(rules) == (if text == "" then [FieldError("text", "Text is required")] else []);
    var errs := Violations(rules);
    if |errs| > 0 then Err(Invalid(errs))
    else if caller !in users then Err(ServerError)
    else if PostIndex(posts, id) >= 0 then Err(ServerError)
    else
      var author := users[caller];
      var p := Post(id, caller, text, author.name, author.avatar, [], [], now);
      Ok(Reply(posts + [p], p))
  }

  /** GET /api/posts/:id. */
  function GetPost(posts: seq<Post>, id: PostId): (r: Result<Post>)
    ensures r.Ok? <==> HasPost(posts, id)
    ensures r.Ok? ==> r.value.id == id && r.value in posts
    ensures r.Err? ==> r.error == Refused(404, "post not found")
  {
    var k := PostIndex(posts, id);
    if k < 0 then Err(Refused(404, "post not found")) else Ok(posts[k])
  }

  /** DELETE /api/posts/:id by `caller`: only the author may delete a post. */
  function DeletePost(posts: seq<Post>, caller: UserId, id: PostId): (r: Result<Reply<seq<Post>, string>>)
    ensures !HasPost(posts, id) ==> r == Err(Refused(404, "post not found"))
    ensures HasPost(posts, id) ==>
      (r.Err? <==> posts[PostIndex(posts, id)].user != caller)
    ensures HasPost(posts, id) && r.Err? ==> r.error == Refused(401, "User not authorized")
    ensures r.Ok? ==>
      var k := PostIndex(posts, id);
      && 0 <= k && posts[k].user == caller
      && r.value.state == posts[..k] + posts[k + 1..]
      && r.value.body == "post deleted"
    ensures r.Ok? && UniquePostIds(posts) ==> !HasPost(r.value.state, id)
  {
    var k := PostIndex(posts, id);
    if k < 0 then Err(Refused(404, "post not found"))
    else if posts[k].user != caller then Err(Refused(401, "User not authorized"))
    else
      var rest := posts[..k] + posts[k + 1..];
      CutRemovesId(posts, k);
      Ok(Reply(rest, "post deleted"))
  }

  /** With unique ids, cutting out the post at `k` leaves no post with its id. */
  lemma CutRemovesId(posts: seq<Post>, k: nat)
    requires k < |posts|
    ensures UniquePostIds(posts) ==> !HasPost(posts[..k] + posts[k + 1..], posts[k].id)
  {
    var rest := posts[..k] + posts[k + 1..];
    if UniquePostIds(posts) {
      forall j | 0 <= j < |rest| ensures rest[j].id != posts[k].id {
        if j < k {
          assert rest[j] == posts[j];
        } else {
          assert rest[j] == posts[j + 1];
        }
      }
    }
  }

  /** A post is found at the same position in two collections whose ids agree
      position by position. */
  lemma SameIdsSameIndex(posts: seq<Post>, posts': seq<Post>, id: PostId)
    requires |posts'| == |posts| && forall k :: 0 <= k < |posts| ==> posts'[k].id == posts[k].id
    ensures PostIndex(posts', id) == PostIndex(posts, id)
    ensures HasPost(posts', id) == HasPost(posts, id)
  {
    if HasPost(posts, id) {
      var k :| 0 <= k < |posts| && posts[k].id == id;
      assert posts'[k].id == id;
    }
    if HasPost(posts', id) {
      var k :| 0 <= k < |posts'| && posts'[k].id == id;
      assert posts[k].id == id;
    }
  }

  /** A post just created is found under its id. */
  lemma CreateThenGet(posts: seq<Post>, users: Users, caller: UserId, text: string, id: PostId, now: int)
    requires CreatePost(posts, users, caller, text, id, now).Ok?
    ensures var created := CreatePost(posts, users, caller, text, id, now).value;
      GetPost(created.state, id) == Ok(created.body)
  {
    var created := CreatePost(posts, users, caller, text, id, now).value;
    var all := created.state;
    assert all[|posts|].id == id;
    assert forall j :: 0 <= j < |posts| ==> all[j] == posts[j];
    var k := PostIndex(all, id);
    assert k == |posts|;
  }

  /** The author deleting a post just created gives back the collection. */
  lemma CreateThenDelete(posts: seq<Post>, users: Users, caller: UserId, text: string, id: PostId, now: int)
    requires CreatePost(posts, users, caller, text, id, now).Ok?
    ensures DeletePost(CreatePost(posts, users, caller, text, id, now).value.state, caller, id)
            == Ok(Reply(posts, "post deleted"))
  {
    var all := CreatePost(posts, users, caller, text, id, now).value.state;
    assert all[|posts|].id == id;
    assert forall j :: 0 <= j < |posts| ==> all[j] == posts[j];
    var k := PostIndex(all, id);
    assert k == |posts|;
    assert all[..k] + all[k + 1..] == posts;
  }

  /** After the author deletes a post, looking it up answers 404. */
  lemma DeleteThenGet(posts: seq<Post>, caller: UserId, id: PostId)
    requires UniquePostIds(posts)
    requires DeletePost(posts, caller, id).Ok?
    ensures GetPost(DeletePost(posts, caller, id).value.state, id) == Err(Refused(404, "post not found"))
  {
  }

  /** Creating and deleting posts keeps the post ids unique. */
  lemma CreateAndDeleteKeepUniqueIds(posts: seq<Post>, users: Users, caller: UserId, text: string, id: PostId, now: int)
    requires UniquePostIds(posts)
    ensures CreatePost(posts, users, caller, text, id, now).Ok? ==>
      UniquePostIds(CreatePost(posts, users, caller, text, id, now).value.state)
    ensures DeletePost(posts, caller, id).Ok? ==> UniquePostIds(DeletePost(posts, caller, id).value.state)
  {
    var d := DeletePost(posts, caller, id);
    if d.Ok? {
      var k := PostIndex(posts, id);
      var rest := d.value.state;
      forall i, j | 0 <= i < j < |rest| ensures rest[i].id != rest[j].id {
        var i' := if i < k then i else i + 1;
        var j' := if j < k then j else j + 1;
        assert rest[i] == posts[i'] && rest[j] == posts[j'];
      }
    }
  }

  /** Newest first: creation times never increase along the list. */
  predicate NewestFirst(posts: seq<Post>) {
    forall i, j :: 0 <= i < j < |posts| ==> posts[i].date >= posts[j].date
  }

  /** Puts `p` into a newest-first list, before the first post not newer than it. */
  function InsertByDate(p: Post, sorted: seq<Post>): (r: seq<Post>)
    requires NewestFirst(sorted)
    ensures NewestFirst(r)
    ensures multiset(r) == multiset(sorted) + multiset{p}
  {
    if |sorted| == 0 || p.date >= sorted[0].date then
      ConsNewestFirst(p, sorted);
      [p] + sorted
    else
      var rest := InsertByDate(p, sorted[1..]);
      HeadNewest(sorted[0], p, sorted[1..], rest);
      ConsNewestFirst(sorted[0], rest);
      assert sorted == [sorted[0]] + sorted[1..];
      [sorted[0]] + rest
  }

  /** A post at least as new as every post of a newest-first list can go in
      front of it. */
  lemma ConsNewestFirst(head: Post, rest: seq<Post>)
    requires NewestFirst(rest)
    requires |rest| == 0 || head.date >= rest[0].date
    ensures NewestFirst([head] + rest)
  {
    var all := [head] + rest;
    forall i, j | 0 <= i < j < |all| ensures all[i].date >= all[j].date {
      assert all[j] == rest[j - 1];
      if i > 0 {
        assert all[i] == rest[i - 1];
      }
    }
  }

  /** A post at least as new as `p` and as every post of `tail` is at least as
      new as every post of a list made of `p` and `tail`. */
  lemma HeadNewest(head: Post, p: Post, tail: seq<Post>, rest: seq<Post>)
    requires head.date >= p.date
    requires forall j :: 0 <= j < |tail| ==> head.date >= tail[j].date
    requires multiset(rest) == multiset(tail) + multiset{p}
    ensures forall j :: 0 <= j < |rest| ==> head.date >= rest[j].date
  {
    forall j | 0 <= j < |rest| ensures head.date >= rest[j].date {
      assert rest[j] in multiset(rest);
      if rest[j] != p {
        assert rest[j] in multiset(tail);
        assert rest[j] in tail;
      }
    }
  }

  /** GET /api/posts: `Post.find().sort({ date: -1 })`, every post, newest
      first. The database leaves the order of equal dates open; this model
      keeps storage order among them. */
  function ListPosts(posts: seq<Post>): (r: seq<Post>)
    ensures NewestFirst(r)
    ensures multiset(r) == multiset(posts)
  {
    if |posts| == 0 then []
    else
      assert posts == [posts[0]] + posts[1..];
      InsertByDate(posts[0], ListPosts(posts[1..]))
  }
}
