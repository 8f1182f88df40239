/** The post feed: publishing, the newest-first list, the like toggle and comments.
    The store's `posts` collection is a map from post key to post; loading it is reading
    the map and saving it is writing the whole map back. */
module Feed {
  import opened Wrappers
  import opened Text
  import opened Sorting
  import opened Identity

  datatype Comment = Comment(author: string, text: string, timestamp: int)

  /** A stored post. `likes`, `likedBy` and `comments` may be missing in stored data;
      the page reads a missing one as 0 or as an empty list. */
  datatype Post = Post(
    id: string,
    author: string,
    authorCode: string,
    text: string,
    timestamp: int,
    likes: Option<int>,
    likedBy: Option<seq<string>>,
    comments: Option<seq<Comment>>)

  /** `post.likes || 0` */
  function LikesOf(p: Post): int {
    p.likes.GetOr(0)
  }

  /** `post.likedBy`, an empty list when missing */
  function LikersOf(p: Post): seq<string> {
    p.likedBy.GetOr([])
  }

  /** `post.comments`, an empty list when missing */
  function CommentsOf(p: Post): seq<Comment> {
    p.comments.GetOr([])
  }

  /** `Math.max` */
  function Max(a: int, b: int): int {
    if a < b then b else a
  }

  predicate NoDuplicates<T(==)>(s: seq<T>) {
    forall i, j :: 0 <= i < j < |s| ==> s[i] != s[j]
  }

  /** The like counter agrees with the list of likers, and nobody is listed twice. */
  predicate Consistent(p: Post) {
    LikesOf(p) == |LikersOf(p)| && NoDuplicates(LikersOf(p))
  }

  // ----- publishing -----

  /** The post `publishPost` builds from the text box, or `None` when the trimmed text is
      empty (the page then shows an error and writes nothing). */
  function NewPost(user: User, rawText: string, id: string, now: int): (r: Option<Post>)
    ensures r.None? <==> AllSpace(rawText)
    ensures r.Some? ==>
      && r.value.id == id && r.value.timestamp == now
      && r.value.author == user.name && r.value.authorCode == user.code
      && r.value.text == Trim(rawText) && r.value.text != []
      && LikesOf(r.value) == 0 && LikersOf(r.value) == [] && CommentsOf(r.value) == []
      && Consistent(r.value)
  {
    var text := Trim(rawText);
    if text == [] then None
    else Some(Post(id, user.name, user.code, text, now, Some(0), Some([]), Some([])))
  }

  // ----- the like toggle -----

  /** `s` without the first occurrence of `x`: `s.splice(s.indexOf(x), 1)`. */
  function RemoveFirst<T(==)>(s: seq<T>, x: T): seq<T> {
    if s == [] then []
    else if s[0] == x then s[1..]
    else [s[0]] + RemoveFirst(s[1..], x)
  }

  /** Exactly one occurrence of `x` goes, when there is one. */
  lemma {:induction false} RemoveFirstCount<T>(s: seq<T>, x: T)
    ensures multiset(RemoveFirst(s, x)) == multiset(s) - multiset{x}
    ensures |RemoveFirst(s, x)| == if x in s then |s| - 1 else |s|
  {
    if s != [] {
      var t := s[1..];
      assert s == [s[0]] + t;
      assert multiset(s) == multiset{s[0]} + multiset(t);
      if s[0] == x {
        assert RemoveFirst(s, x) == t;
      } else {
        assert RemoveFirst(s, x) == [s[0]] + RemoveFirst(t, x);
        RemoveFirstCount(t, x);
        assert x in s <==> x in t;
      }
    }
  }

  /** Removing the first occurrence is cutting out the element at the index `indexOf` finds. */
  lemma {:induction false} RemoveFirstAt<T>(s: seq<T>, x: T, i: nat)
    requires i < |s| && s[i] == x && x !in s[..i]
    ensures RemoveFirst(s, x) == s[..i] + s[i + 1..]
  {
    if i > 0 {
      var t := s[1..];
      assert s[..i] == [s[0]] + t[..i - 1];
      assert s[0] != x;
      assert RemoveFirst(s, x) == [s[0]] + RemoveFirst(t, x);
      RemoveFirstAt(t, x, i - 1);
      assert t[i..] == s[i + 1..];
    }
  }

  /** Removing from a list without duplicates removes the element entirely. */
  lemma {:induction false} RemoveFirstNoDuplicates<T>(s: seq<T>, x: T)
    requires NoDuplicates(s)
    ensures NoDuplicates(RemoveFirst(s, x)) && x !in RemoveFirst(s, x)
  {
    if s != [] {
      assert NoDuplicates(s[1..]) by {
        forall i, j | 0 <= i < j < |s[1..]| ensures s[1..][i] != s[1..][j] {
          assert s[1..][i] == s[i + 1] && s[1..][j] == s[j + 1];
        }
      }
      if s[0] == x {
        assert forall j :: 0 < j < |s| ==> s[j] != x;
        assert x !in s[1..];
      } else {
        RemoveFirstNoDuplicates(s[1..], x);
        var rest := RemoveFirst(s[1..], x);
        RemoveFirstCount(s[1..], x);
        assert s[0] !in s[1..];
        assert s[0] !in multiset(s[1..]);
        assert s[0] !in multiset(rest);
      }
    }
  }

  /** What `likePost` does to the post it finds: a user not yet among the likers is appended
      and the counter goes up by one; a user already there is removed and the counter goes
      down by one, never below 0. */
  function ToggleLike(p: Post, code: string): Post {
    var likers := LikersOf(p);
    if code !in likers then
      p.(likedBy := Some(likers + [code]), likes := Some(LikesOf(p) + 1))
    else
      p.(likedBy := Some(RemoveFirst(likers, code)), likes := Some(Max(0, LikesOf(p) - 1)))
  }

  /** The three outcomes of the toggle, and that every field other than the likes is kept. */
  lemma ToggleLikeCases(p: Post, code: string)
    ensures var r := ToggleLike(p, code);
      && r.(likes := p.likes, likedBy := p.likedBy) == p
      && (code !in LikersOf(p) ==>
            LikersOf(r) == LikersOf(p) + [code] && LikesOf(r) == LikesOf(p) + 1)
      && (code in LikersOf(p) ==>
            && multiset(LikersOf(r)) == multiset(LikersOf(p)) - multiset{code}
            && |LikersOf(r)| == |LikersOf(p)| - 1
            && LikesOf(r) == Max(0, LikesOf(p) - 1))
  {
    RemoveFirstCount(LikersOf(p), code);
  }

  /** A toggle keeps a consistent post consistent. */
  lemma ToggleLikeConsistent(p: Post, code: string)
    requires Consistent(p)
    ensures Consistent(ToggleLike(p, code))
  {
    var s := LikersOf(p);
    ToggleLikeCases(p, code);
    if code in s {
      RemoveFirstNoDuplicates(s, code);
    } else {
      var s' := s + [code];
      forall i, j | 0 <= i < j < |s'| ensures s'[i] != s'[j] {
        if j == |s| { assert s'[i] == s[i]; }
      }
    }
  }

  /** Liking and then unliking (or the reverse) restores the likers and the counter:
      the same people in the list (exactly the same list when the user had not liked
      the post), the same count, and every other field. */
  lemma ToggleLikeTwice(p: Post, code: string)
    requires Consistent(p)
    ensures var r := ToggleLike(ToggleLike(p, code), code);
      && r.(likes := p.likes, likedBy := p.likedBy) == p
      && LikesOf(r) == LikesOf(p)
      && multiset(LikersOf(r)) == multiset(LikersOf(p))
      && (code !in LikersOf(p) ==> LikersOf(r) == LikersOf(p))
  {
    var s := LikersOf(p);
    var once := ToggleLike(p, code);
    ToggleLikeCases(p, code);
    ToggleLikeCases(once, code);
    if code in s {
      RemoveFirstNoDuplicates(s, code);
      assert code !in LikersOf(once);
    } else {
      assert code in LikersOf(once);
      assert (s + [code])[..|s|] == s;
      RemoveFirstAt(s + [code], code, |s|);
    }
  }

  /** On a consistent post a toggle flips whether the user likes it. */
  lemma ToggleLikeFlips(p: Post, code: string)
    requires Consistent(p)
    ensures (code in LikersOf(ToggleLike(p, code))) == (code !in LikersOf(p))
  {
    if code in LikersOf(p) {
      RemoveFirstNoDuplicates(LikersOf(p), code);
    }
  }

  /** `n` toggles in a row by the same user. */
  function ToggleLikeTimes(p: Post, code: string, n: nat): Post {
    if n == 0 then p else ToggleLike(ToggleLikeTimes(p, code, n - 1), code)
  }

  /** After an odd number of toggles the liked/unliked state is flipped, after an even number
      it is back, and the post stays consistent throughout. */
  lemma {:induction false} ToggleLikeParity(p: Post, code: string, n: nat)
    requires Consistent(p)
    ensures Consistent(ToggleLikeTimes(p, code, n))
    ensures (code in LikersOf(ToggleLikeTimes(p, code, n))) == ((code in LikersOf(p)) != (n % 2 == 1))
  {
    if n > 0 {
      var q := ToggleLikeTimes(p, code, n - 1);
      assert ToggleLikeTimes(p, code, n) == ToggleLike(q, code);
      ToggleLikeParity(p, code, n - 1);
      ToggleLikeConsistent(q, code);
      ToggleLikeFlips(q, code);
      assert (n % 2 == 1) == !((n - 1) % 2 == 1);
    }
  }

  // ----- comments -----

  /** `comments.push(c)` on a post whose missing comment list counts as empty: the earlier
      comments stay first, `c` comes last, and nothing else about the post changes. */
  function WithComment(p: Post, c: Comment): (r: Post)
    ensures |CommentsOf(r)| == |CommentsOf(p)| + 1
    ensures CommentsOf(r)[..|CommentsOf(p)|] == CommentsOf(p)
    ensures CommentsOf(r)[|CommentsOf(p)|] == c
    ensures r.(comments := p.comments) == p
    ensures Consistent(p) ==> Consistent(r)
  {
    var r := p.(comments := Some(CommentsOf(p) + [c]));
    assert CommentsOf(r)[..|CommentsOf(p)|] == CommentsOf(p);
    r
  }

  // ----- the post list -----

  /** `Object.entries(posts).map(([id, post]) => ({...post, id}))`: each post with its key as id. */
  function WithIds(entries: seq<(string, Post)>): seq<Post> {
    seq(|entries|, i requires 0 <= i < |entries| => entries[i].1.(id := entries[i].0))
  }

  /** The sort key of the post list: later timestamps first. */
  function NewestFirst(p: Post): int {
    -p.timestamp
  }

  /** The list `loadPosts` renders: the entries with their keys as ids, newest first. */
  function PostList(entries: seq<(string, Post)>): seq<Post> {
    SortBy(WithIds(entries), NewestFirst)
  }

  /** `entries` lists each key of `m` exactly once, with its post (what `Object.entries` gives). */
  predicate Enumerates(entries: seq<(string, Post)>, m: map<string, Post>) {
    && (forall i, j :: 0 <= i < j < |entries| ==> entries[i].0 != entries[j].0)
    && (forall i :: 0 <= i < |entries| ==> entries[i].0 in m && m[entries[i].0] == entries[i].1)
    && (forall k :: k in m ==> exists i :: 0 <= i < |entries| && entries[i].0 == k)
  }

  lemma CountOne<T>(s: seq<T>, v: T, i: nat)
    requires i < |s| && s[i] == v
    requires forall j :: 0 <= j < |s| && j != i ==> s[j] != v
    ensures multiset(s)[v] == 1
  {
    assert s == s[..i] + [v] + s[i + 1..];
    assert v !in s[..i];
    var tail := s[i + 1..];
    assert v !in tail by {
      forall j | 0 <= j < |tail| ensures tail[j] != v {
        assert tail[j] == s[i + 1 + j];
      }
    }
  }

  /** With keys as ids, the entries hold each post of the map exactly once, and nothing else. */
  lemma WithIdsEntries(entries: seq<(string, Post)>, m: map<string, Post>)
    requires Enumerates(entries, m)
    ensures forall k :: k in m ==> multiset(WithIds(entries))[m[k].(id := k)] == 1
    ensures forall p :: p in WithIds(entries) ==> p.id in m && p == m[p.id].(id := p.id)
    ensures |WithIds(entries)| == 0 <==> m == map[]
  {
    var w := WithIds(entries);
    forall k | k in m ensures multiset(w)[m[k].(id := k)] == 1 {
      var i :| 0 <= i < |entries| && entries[i].0 == k;
      CountOne(w, m[k].(id := k), i);
    }
    if |entries| > 0 {
      assert entries[0].0 in m;
    } else {
      assert m.Keys == {};
    }
  }

  /** The post list holds every entry of the map exactly once, with its key as id, every
      element is such an entry, it is ordered newest first, posts with equal timestamps keep
      their order in the entries, and it is empty exactly when the map is. */
  lemma PostListView(entries: seq<(string, Post)>, m: map<string, Post>)
    requires Enumerates(entries, m)
    ensures var r := PostList(entries);
      && |r| == |entries|
      && (r == [] <==> m == map[])
      && (forall i, j :: 0 <= i < j < |r| ==> r[i].timestamp >= r[j].timestamp)
      && (forall k :: k in m ==> multiset(r)[m[k].(id := k)] == 1)
      && (forall i :: 0 <= i < |r| ==> r[i].id in m && r[i] == m[r[i].id].(id := r[i].id))
      && (forall k :: WithKey(r, NewestFirst, k) == WithKey(WithIds(entries), NewestFirst, k))
  {
    var w := WithIds(entries);
    var r := PostList(entries);
    SortByCorrect(w, NewestFirst);
    WithIdsEntries(entries, m);
    forall i | 0 <= i < |r| ensures r[i] in w {
      assert r[i] in multiset(w);
    }
    forall k ensures WithKey(r, NewestFirst, k) == WithKey(w, NewestFirst, k) {
      SortByStable(w, NewestFirst, k);
    }
  }

  // ----- the store -----

  /** Every post of the collection is consistent. The page does not check this; the
      operations below keep it. */
  ghost predicate AllConsistent(m: map<string, Post>) {
    forall k :: k in m ==> Consistent(m[k])
  }

  /** `IndexOf(s, x)` is `s.indexOf(x)`: the first index holding `x`, or -1. */
  method IndexOf(s: seq<string>, x: string) returns (i: int)
    ensures -1 <= i < |s|
    ensures i == -1 <==> x !in s
    ensures 0 <= i ==> s[i] == x && x !in s[..i]
  {
    i := 0;
    while i < |s|
      invariant 0 <= i <= |s|
      invariant x !in s[..i]
    {
      if s[i] == x {
        return;
      }
      assert s[..i + 1] == s[..i] + [s[i]];
      i := i + 1;
    }
    assert s[..i] == s;
    i := -1;
  }

  /** The `posts` collection as one client sees and writes it. */
  class PostStore {
    var posts: map<string, Post>

    constructor (initial: map<string, Post>)
      ensures posts == initial
    {
      posts := initial;
    }

    /** `publishPost`: validates the text and pushes the new post under the store-assigned
        `key`; on empty text nothing is written. */
    method Publish(user: User, rawText: string, key: string, id: string, now: int)
      returns (post: Option<Post>)
      modifies this
      ensures post == NewPost(user, rawText, id, now)
      ensures post.None? <==> AllSpace(rawText)
      ensures posts == if post.Some? then old(posts)[key := post.value] else old(posts)
      ensures AllConsistent(old(posts)) ==> AllConsistent(posts)
    {
      post := NewPost(user, rawText, id, now);
      if post.Some? {
        posts := posts[key := post.value];
      }
    }

    /** `likePost`: loads the whole collection, toggles the current user's like on one post
        in place and saves the whole collection back; an unknown id writes nothing. */
    method LikePost(user: User, postId: string)
      modifies this
      ensures postId !in old(posts) ==> posts == old(posts)
      ensures postId in old(posts) ==>
        posts == old(posts)[postId := ToggleLike(old(posts)[postId], user.code)]
      ensures forall k :: k in old(posts) && k != postId ==> k in posts && posts[k] == old(posts)[k]
      ensures AllConsistent(old(posts)) ==> AllConsistent(posts)
    {
      var snapshot := posts;
      if postId in snapshot {
        var post := snapshot[postId];
        ghost var before := post;
        if post.likedBy.None? {
          post := post.(likedBy := Some([]));
        }
        var likers := post.likedBy.value;
        var userIndex := IndexOf(likers, user.code);
        if userIndex == -1 {
          likers := likers + [user.code];
          post := post.(likedBy := Some(likers), likes := Some(LikesOf(post) + 1));
        } else {
          RemoveFirstAt(likers, user.code, userIndex);
          likers := likers[..userIndex] + likers[userIndex + 1..];
          post := post.(likedBy := Some(likers), likes := Some(Max(0, LikesOf(post) - 1)));
        }
        assert post == ToggleLike(before, user.code);
        snapshot := snapshot[postId := post];
        posts := snapshot;
        if Consistent(before) {
          ToggleLikeConsistent(before, user.code);
        }
      }
    }

    /** `addComment`: with a non-empty trimmed text and a known post id, appends one comment by
        the current user to that post and saves the whole collection; otherwise writes nothing. */
    method AddComment(user: User, postId: string, rawText: string, now: int) returns (written: bool)
      modifies this
      ensures written <==> !AllSpace(rawText) && postId in old(posts)
      ensures !written ==> posts == old(posts)
      ensures written ==>
        posts == old(posts)[postId := WithComment(old(posts)[postId], Comment(user.name, Trim(rawText), now))]
      ensures AllConsistent(old(posts)) ==> AllConsistent(posts)
    {
      var commentText := Trim(rawText);
      if commentText == [] {
        return false;
      }
      var snapshot := posts;
      if postId !in snapshot {
        return false;
      }
      var post := snapshot[postId];
      if post.comments.None? {
        post := post.(comments := Some([]));
      }
      post := post.(comments := Some(post.comments.value + [Comment(user.name, commentText, now)]));
      snapshot := snapshot[postId := post];
      posts := snapshot;
      written := true;
    }
  }
}
