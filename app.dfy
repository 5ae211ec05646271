/**
 * The request handlers of the photo-sharing application, over an abstract
 * store of posts (keyed by id) and comments (in insertion order).
 *
 * Framework plumbing (templates, flash messages, redirects), the upload's
 * bytes on disk, and the database session are not modelled; the values the
 * source obtains from the system (a fresh random token, the sanitised
 * filename, the clock) are parameters.
 */
module App {
  import opened Wrappers
  import opened Models

  // ---------------------------------------------------------------------
  // Upload validation
  // ---------------------------------------------------------------------

  /** ASCII lower-casing of one character. */
  function LowerChar(c: char): char {
    if 'A' <= c <= 'Z' then (c as int - 'A' as int + 'a' as int) as char else c
  }

  /** `s.lower()`, character by character. */
  function Lower(s: string): (r: string)
    ensures |r| == |s|
    ensures forall i | 0 <= i < |s| :: r[i] == LowerChar(s[i])
    ensures forall i | 0 <= i < |r| :: !('A' <= r[i] <= 'Z')
  {
    seq(|s|, i requires 0 <= i < |s| => LowerChar(s[i]))
  }

  /**
   * `s.rsplit(".", 1)[1]` when `s` holds a dot: the text after the last dot.
   * None exactly when there is no dot.
   */
  function AfterLastDot(s: string): (r: Option<string>)
    ensures r.None? <==> '.' !in s
    ensures r.Some? ==>
      && |r.value| < |s|
      && s[|s| - |r.value| - 1] == '.'
      && s[|s| - |r.value|..] == r.value
      && '.' !in r.value
  {
    if s == [] then None
    else if s[|s| - 1] == '.' then Some([])
    else
      assert s == s[..|s| - 1] + [s[|s| - 1]];
      match AfterLastDot(s[..|s| - 1])
      case None => None
      case Some(ext) => Some(ext + [s[|s| - 1]])
  }

  /** A dot with no dot after it is the last dot. */
  lemma {:induction false} LastDotIsUnique(s: string, j: nat)
    requires j < |s| && s[j] == '.' && '.' !in s[j + 1..]
    ensures AfterLastDot(s) == Some(s[j + 1..])
  {
    var last := |s| - 1;
    assert j < last ==> s[j + 1..][last - j - 1] == s[last];
    if j < last {
      var init := s[..last];
      assert init[j + 1..] + [s[last]] == s[j + 1..];
      LastDotIsUnique(init, j);
    }
  }

  /**
   * `allowed_file`: the name has a dot and the text after its last dot,
   * lower-cased, is one of the allowed extensions.
   */
  function AllowedFile(filename: string, allowed: set<string>): (ok: bool)
    ensures '.' !in filename ==> !ok
    ensures ok <==> exists j | 0 <= j < |filename| ::
      filename[j] == '.' && '.' !in filename[j + 1..] && Lower(filename[j + 1..]) in allowed
  {
    var r := AfterLastDot(filename);
    if r.Some? then
      var j := |filename| - |r.value| - 1;
      assert filename[j + 1..] == r.value;
      forall j' | 0 <= j' < |filename| && filename[j'] == '.' && '.' !in filename[j' + 1..]
        ensures filename[j' + 1..] == r.value
      {
        LastDotIsUnique(filename, j');
      }
      Lower(r.value) in allowed
    else
      false
  }

  /** Lower-casing twice is lower-casing once. */
  lemma LowerIdempotent(s: string)
    ensures Lower(Lower(s)) == Lower(s)
  {
  }

  /** Lower-casing a slice is slicing the lower-cased string. */
  lemma LowerSlice(s: string, i: nat, j: nat)
    requires i <= j <= |s|
    ensures Lower(s)[i..j] == Lower(s[i..j])
  {
  }

  /** Lower-casing neither adds nor removes dots. */
  lemma LowerKeepsDots(s: string)
    ensures '.' in Lower(s) <==> '.' in s
  {
    forall i | 0 <= i < |s|
      ensures Lower(s)[i] == '.' <==> s[i] == '.'
    {
    }
  }

  /** Lower-casing a name keeps its last dot, so its extension is the lower-cased extension. */
  lemma AfterLastDotOfLower(filename: string)
    ensures AfterLastDot(Lower(filename)).None? == AfterLastDot(filename).None?
    ensures AfterLastDot(filename).Some? ==>
      AfterLastDot(Lower(filename)).value == Lower(AfterLastDot(filename).value)
  {
    var low := Lower(filename);
    LowerKeepsDots(filename);
    var r := AfterLastDot(filename);
    if r.Some? {
      var j := |filename| - |r.value| - 1;
      LowerSlice(filename, j + 1, |filename|);
      LowerKeepsDots(r.value);
      assert low[j] == '.';
      LastDotIsUnique(low, j);
    }
  }

  /** Only the extension's lower-cased form matters, so case in the name never does. */
  lemma AllowedFileIgnoresCase(filename: string, allowed: set<string>)
    ensures AllowedFile(Lower(filename), allowed) == AllowedFile(filename, allowed)
  {
    AfterLastDotOfLower(filename);
    if '.' in filename {
      LowerIdempotent(AfterLastDot(filename).value);
    }
  }

  /** The stored file name: the random token, "_", then the sanitised name. */
  function UniqueFilename(token: string, secured: string): (r: string)
    ensures |r| == |token| + 1 + |secured|
    ensures r[..|token|] == token
    ensures r[|r| - |secured| - 1..] == "_" + secured
  {
    token + "_" + secured
  }

  // ---------------------------------------------------------------------
  // Comments and the feed
  // ---------------------------------------------------------------------

  /** The author recorded for a comment: the submitted name, or "Anonymous" if it is missing or empty. */
  function AuthorName(username: Option<string>): (r: string)
    ensures r != ""
    ensures username.Some? && username.value != "" ==> r == username.value
    ensures username.None? || username.value == "" ==> r == "Anonymous"
  {
    if username.Some? && username.value != "" then username.value else "Anonymous"
  }

  /** A post's comments (`post.comments`): those whose post id is the post's, in store order. */
  function CommentsOf(comments: seq<Comment>, postId: int): (r: seq<Comment>)
    ensures |r| <= |comments|
    ensures forall c :: c in r <==> c in comments && c.postId == postId
    ensures forall c :: multiset(r)[c] == if c.postId == postId then multiset(comments)[c] else 0
  {
    if comments == [] then []
    else
      var rest := CommentsOf(comments[1..], postId);
      assert comments == [comments[0]] + comments[1..];
      if comments[0].postId == postId then [comments[0]] + rest else rest
  }

  /** Every post is stored under its own id. */
  ghost predicate KeyedById(posts: map<int, Post>) {
    forall id | id in posts :: posts[id].id == id
  }

  ghost predicate IsNewest(posts: map<int, Post>, k: int) {
    k in posts && forall j | j in posts :: posts[j].timestamp <= posts[k].timestamp
  }

  ghost function SomeKey(posts: map<int, Post>): (k: int)
    requires |posts| > 0
    ensures k in posts
  {
    assert (forall id :: id !in posts.Keys) ==> posts.Keys == {};
    var k :| k in posts.Keys;
    k
  }

  lemma {:induction false} NewestExists(posts: map<int, Post>)
    requires |posts| > 0
    ensures exists k :: IsNewest(posts, k)
    decreases |posts|
  {
    var k0 := SomeKey(posts);
    var rest := posts - {k0};
    assert rest.Keys == posts.Keys - {k0};
    if |rest| == 0 {
      assert posts.Keys == {k0};
      assert IsNewest(posts, k0);
    } else {
      NewestExists(rest);
      var k1 :| IsNewest(rest, k1);
      var k := if posts[k1].timestamp <= posts[k0].timestamp then k0 else k1;
      forall j | j in posts ensures posts[j].timestamp <= posts[k].timestamp {
        if j != k0 {
          assert j in rest;
        }
      }
      assert IsNewest(posts, k);
    }
  }

  /** The key of a post with the latest timestamp. */
  ghost function Newest(posts: map<int, Post>): (k: int)
    requires |posts| > 0
    ensures IsNewest(posts, k)
  {
    NewestExists(posts);
    var k :| IsNewest(posts, k);
    k
  }

  /**
   * The feed of the index page: the newest post, then the feed of the rest.
   * Posts with equal timestamps may come in any order.
   */
  ghost function NewestFirst(posts: map<int, Post>): (feed: seq<Post>)
    ensures |feed| == |posts|
    decreases |posts|
  {
    if |posts| == 0 then []
    else
      var k := Newest(posts);
      var rest := posts - {k};
      assert rest.Keys == posts.Keys - {k};
      [posts[k]] + NewestFirst(rest)
  }

  /** The feed holds the stored posts, each once: its length is the number of posts and its ids differ. */
  lemma {:induction false} NewestFirstListsEachPostOnce(posts: map<int, Post>)
    requires KeyedById(posts)
    ensures var feed := NewestFirst(posts);
      && |feed| == |posts|
      && (forall i | 0 <= i < |feed| :: feed[i].id in posts && posts[feed[i].id] == feed[i])
      && (forall i, j | 0 <= i < j < |feed| :: feed[i].id != feed[j].id)
    decreases |posts|
  {
    if |posts| > 0 {
      var k := Newest(posts);
      var rest := posts - {k};
      assert rest.Keys == posts.Keys - {k};
      NewestFirstListsEachPostOnce(rest);
      var tail := NewestFirst(rest);
      assert NewestFirst(posts) == [posts[k]] + tail;
    }
  }

  /** Every stored post is in the feed. */
  lemma {:induction false} NewestFirstHoldsEveryPost(posts: map<int, Post>)
    ensures forall id | id in posts :: posts[id] in NewestFirst(posts)
    decreases |posts|
  {
    if |posts| > 0 {
      var k := Newest(posts);
      var rest := posts - {k};
      assert rest.Keys == posts.Keys - {k};
      NewestFirstHoldsEveryPost(rest);
      var feed := [posts[k]] + NewestFirst(rest);
      assert NewestFirst(posts) == feed;
      forall id | id in posts ensures posts[id] in feed {
        if id != k {
          assert id in rest && rest[id] == posts[id];
        }
      }
    }
  }

  /** The feed runs from newest to oldest: timestamps never increase along it. */
  lemma {:induction false} NewestFirstIsNewestFirst(posts: map<int, Post>)
    requires KeyedById(posts)
    ensures var feed := NewestFirst(posts);
      forall i, j | 0 <= i < j < |feed| :: feed[i].timestamp >= feed[j].timestamp
    decreases |posts|
  {
    if |posts| > 0 {
      var k := Newest(posts);
      var rest := posts - {k};
      assert rest.Keys == posts.Keys - {k};
      NewestFirstIsNewestFirst(rest);
      NewestFirstListsEachPostOnce(rest);
      var tail := NewestFirst(rest);
      assert NewestFirst(posts) == [posts[k]] + tail;
      forall i | 0 <= i < |tail| ensures tail[i].timestamp <= posts[k].timestamp {
        assert tail[i].id in posts;
      }
    }
  }

  // ---------------------------------------------------------------------
  // The store and the handlers
  // ---------------------------------------------------------------------

  /** A file part of the upload form. */
  datatype Upload = Upload(filename: string)

  /** A handler's outcome: 404, refused input, or done (with the id it concerns). */
  datatype Reply = NotFound | Rejected | Accepted(id: int)

  /** The post detail page, or 404. */
  datatype Detail = Missing | Shown(post: Post, comments: seq<Comment>)

  class Store {
    var posts: map<int, Post>
    var comments: seq<Comment>
    var nextPostId: int     // the next id the database assigns to a post
    var nextCommentId: int  // the next id the database assigns to a comment

    /**
     * Every post is keyed by its id and has a non-negative like count; every
     * comment names an existing post, has an author and content, and comment
     * ids grow in insertion order. Ids below the next id are the used ones.
     */
    ghost predicate Valid()
      reads this
      ensures Valid() ==> forall c | c in comments :: c.postId in posts && c.username != ""
      ensures Valid() ==> forall i, j | 0 <= i < j < |comments| :: comments[i].id != comments[j].id
    {
      && KeyedById(posts)
      && (forall id | id in posts :: id < nextPostId && posts[id].likes >= 0)
      && (forall i | 0 <= i < |comments| ::
            && comments[i].postId in posts
            && comments[i].username != ""
            && comments[i].content != ""
            && comments[i].id < nextCommentId)
      && (forall i, j | 0 <= i < j < |comments| :: comments[i].id < comments[j].id)
    }

    constructor ()
      ensures Valid()
      ensures posts == map[] && comments == []
    {
      posts := map[];
      comments := [];
      nextPostId := 1;
      nextCommentId := 1;
    }

    /**
     * `create_post` on a POST: a post is stored exactly when an upload is
     * present and its name passes `AllowedFile`; it gets a fresh id, the
     * unique file name, the caption, the current time and no likes.
     */
    method CreatePost(upload: Option<Upload>, caption: Option<string>, allowed: set<string>,
                      secured: string, token: string, now: int)
      returns (r: Reply)
      requires Valid()
      modifies this
      ensures Valid()
      ensures r.Accepted? <==> upload.Some? && AllowedFile(upload.value.filename, allowed)
      ensures r.Accepted? ==>
        && r.id !in old(posts)
        && posts == old(posts)[r.id := NewPost(r.id, UniqueFilename(token, secured), caption, now)]
        && |posts| == |old(posts)| + 1
        && comments == old(comments)
      ensures !r.Accepted? ==> r == Rejected && unchanged(this)
    {
      // An upload whose file name is empty is falsy, exactly as no upload.
      if upload.Some? && upload.value.filename != "" && AllowedFile(upload.value.filename, allowed) {
        var id := nextPostId;
        posts := posts[id := NewPost(id, UniqueFilename(token, secured), caption, now)];
        nextPostId := nextPostId + 1;
        r := Accepted(id);
      } else {
        r := Rejected;
      }
    }

    /** `post_detail`: the post and its comments, or 404 when no post has this id. */
    method PostDetail(postId: int) returns (d: Detail)
      requires Valid()
      ensures d.Missing? <==> postId !in posts
      ensures d.Shown? ==> d.post == posts[postId] && d.post.id == postId
      ensures d.Shown? ==> d.comments == CommentsOf(comments, postId)
    {
      if postId in posts {
        d := Shown(posts[postId], CommentsOf(comments, postId));
      } else {
        d := Missing;
      }
    }

    /**
     * `add_comment`: 404 and no change when the post is missing; refused and
     * no change when the content is missing or empty; otherwise exactly one
     * comment is appended, on this post, with `AuthorName` as its author.
     */
    method AddComment(postId: int, username: Option<string>, content: Option<string>, now: int)
      returns (r: Reply)
      requires Valid()
      modifies this
      ensures Valid()
      ensures posts == old(posts)
      ensures postId !in old(posts) ==> r == NotFound && unchanged(this)
      ensures postId in old(posts) && (content.None? || content.value == "") ==>
        r == Rejected && unchanged(this)
      ensures postId in old(posts) && content.Some? && content.value != "" ==>
        && r.Accepted?
        && comments == old(comments) + [NewComment(r.id, AuthorName(username), content.value, postId, now)]
    {
      if postId !in posts {
        return NotFound;
      }
      if content.Some? && content.value != "" {
        var id := nextCommentId;
        comments := comments + [NewComment(id, AuthorName(username), content.value, postId, now)];
        nextCommentId := nextCommentId + 1;
        r := Accepted(id);
      } else {
        r := Rejected;
      }
    }

    /**
     * `like_post`: 404 and no change when the post is missing; otherwise
     * that post's like count goes up by exactly one and nothing else changes.
     */
    method LikePost(postId: int) returns (r: Reply)
      requires Valid()
      modifies this
      ensures Valid()
      ensures postId !in old(posts) ==> r == NotFound && unchanged(this)
      ensures postId in old(posts) ==>
        && r == Accepted(postId)
        && posts.Keys == old(posts).Keys
        && posts[postId] == old(posts)[postId].(likes := old(posts)[postId].likes + 1)
        && (forall id | id in posts && id != postId :: posts[id] == old(posts)[id])
        && comments == old(comments)
        && nextPostId == old(nextPostId) && nextCommentId == old(nextCommentId)
    {
      if postId !in posts {
        return NotFound;
      }
      var post := posts[postId];
      posts := posts[postId := post.(likes := post.likes + 1)];
      r := Accepted(postId);
    }
  }
}
