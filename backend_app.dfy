/** The request handlers of backend/backend_app.py over the post store. The
    store is the JSON file every handler loads at its start; create, update
    and delete write it back on success, list and search never write. Here it
    is the field `posts` of a PostStore. */
module BackendApp {
  import opened Posts
  import opened Text
  import opened Sorting
  import opened Collection

  class PostStore {
    /** The whole collection, in file order. */
    var posts: seq<Post>

    /** A store holding what the file holds (an empty list when there is no file). */
    constructor (stored: seq<Post>)
      ensures posts == stored
    {
      posts := stored;
    }

    /** GET /api/posts: the collection sorted by the `sort` key (default "id"),
        descending exactly when `direction` (default "asc") is "desc". An empty
        argument is a bad request; a key that is not a post field raises in the
        sort key, which happens only if there is a post to sort. */
    method GetPosts(sortArg: Option<string>, directionArg: Option<string>)
      returns (status: Status, listing: Option<seq<Post>>)
      ensures var sortBy, direction := GetOr(sortArg, "id"), GetOr(directionArg, "asc");
        && ((sortBy == "" || direction == "") ==> status == BadRequest && listing == None)
        && (sortBy != "" && direction != "" && ParseField(sortBy).None? && posts != [] ==>
              status == InternalServerError && listing == None)
        && (sortBy != "" && direction != "" && (ParseField(sortBy).Some? || posts == []) ==>
              status == Ok && listing.Some?)
      ensures listing.Some? ==> multiset(listing.value) == multiset(posts)
      ensures listing.Some? && ParseField(GetOr(sortArg, "id")).Some? ==>
        var f, desc := ParseField(GetOr(sortArg, "id")).value, GetOr(directionArg, "asc") == "desc";
        && Ordered(listing.value, f, desc)
        && forall k :: WithKey(listing.value, f, k) == WithKey(posts, f, k)
    {
      var current := posts;
      var sortBy := GetOr(sortArg, "id");
      var direction := GetOr(directionArg, "asc");
      if sortBy == "" || direction == "" {
        return BadRequest, None;
      }
      var isReversed := direction == "desc";
      match ParseField(sortBy)
      case None =>
        if current == [] {
          status, listing := Ok, Some([]);
        } else {
          status, listing := InternalServerError, None;
        }
      case Some(f) =>
        var sorted := SortBy(current, f, isReversed);
        SortOrdered(current, f, isReversed);
        forall k ensures WithKey(sorted, f, k) == WithKey(current, f, k) {
          SortStable(current, f, isReversed, k);
        }
        status, listing := Ok, Some(sorted);
    }

    /** POST /api/posts: a missing or empty body is refused with 405, a body
        without a non-empty title, content and author with 404; both leave the
        store alone. Otherwise the post gets one more than the largest id and
        the given date, and is appended. */
    method AddPost(body: Option<Body>, today: string) returns (status: Status, created: Option<Post>)
      modifies this
      ensures BodyMissing(body) ==> status == MethodNotAllowed && created == None && posts == old(posts)
      ensures !BodyMissing(body) && !HasRequiredFields(body.value) ==>
        status == NotFound && created == None && posts == old(posts)
      ensures !BodyMissing(body) && HasRequiredFields(body.value) ==>
        && status == Created
        && created == Some(Post(NextId(old(posts)), body.value["title"], body.value["content"],
                                body.value["author"], today))
        && posts == old(posts) + [created.value]
      ensures created.Some? ==> forall p :: p in old(posts) ==> p.id < created.value.id
      ensures UniqueIds(old(posts)) ==> UniqueIds(posts)
    {
      var current := posts;
      if body.None? || body.value == map[] {
        return MethodNotAllowed, None;
      }
      var data := body.value;
      if !Truthy(data, "title") || !Truthy(data, "content") || !Truthy(data, "author") {
        return NotFound, None;
      }
      var post := NewPost(current, data, today);
      if UniqueIds(current) {
        AppendNextIdKeepsUnique(current, post);
      }
      current := current + [post];
      posts := current;
      status, created := Created, Some(post);
    }

    /** DELETE /api/posts/<id>: removes the first post with the id, or answers
        404 and leaves the store alone. */
    method DeletePost(postId: int) returns (status: Status)
      modifies this
      ensures FirstIndex(old(posts), postId).None? ==> status == NotFound && posts == old(posts)
      ensures FirstIndex(old(posts), postId).Some? ==>
        var i := FirstIndex(old(posts), postId).value;
        status == Ok && posts == old(posts)[..i] + old(posts)[i + 1..]
      ensures posts == DeleteFirst(old(posts), postId)
      ensures status == Ok ==> |posts| == |old(posts)| - 1 && IsSubsequence(posts, old(posts))
      ensures UniqueIds(old(posts)) ==> UniqueIds(posts) && FirstIndex(posts, postId).None?
    {
      DeleteFirstRemovesOne(posts, postId);
      if UniqueIds(posts) {
        DeleteTwiceNotFound(posts, postId);
      }
      var current := posts;
      var i := 0;
      while i < |current|
        invariant 0 <= i <= |current|
        invariant forall j :: 0 <= j < i ==> current[j].id != postId
      {
        var post := current[i];
        if post.id == postId {
          assert forall j :: 0 <= j < i ==> current[j] != post;
          RemoveFirstAt(current, i);
          assert FirstIndex(current, postId) == Some(i);
          current := RemoveFirst(current, post);
          posts := current;
          return Ok;
        }
        i := i + 1;
      }
      return NotFound;
    }

    /** PUT /api/posts/<id>: overwrites, in the first post with the id, the
        title, content and author present in the body, and nothing else; an
        unknown id is answered with 404 and leaves the store alone. */
    method UpdatePost(postId: int, body: Body) returns (status: Status, updated: Option<Post>)
      modifies this
      ensures FirstIndex(old(posts), postId).None? ==>
        status == NotFound && updated == None && posts == old(posts)
      ensures FirstIndex(old(posts), postId).Some? ==>
        var i := FirstIndex(old(posts), postId).value;
        && status == Ok
        && posts == old(posts)[i := Patched(old(posts)[i], body)]
        && updated == Some(posts[i])
      ensures updated.Some? ==> updated.value.id == postId
      ensures |posts| == |old(posts)|
      ensures UniqueIds(old(posts)) ==> UniqueIds(posts)
      ensures UniqueIds(old(posts)) && FirstIndex(old(posts), postId).Some? ==>
        forall j :: 0 <= j < |posts| && posts[j].id == postId ==> j == FirstIndex(old(posts), postId).value
    {
      var current := posts;
      var found := FirstIndex(current, postId);
      if found.None? {
        return NotFound, None;
      }
      var i := found.value;
      var post := current[i];
      if "title" in body {
        post := post.(title := body["title"]);
      }
      if "content" in body {
        post := post.(content := body["content"]);
      }
      if "author" in body {
        post := post.(author := body["author"]);
      }
      if UniqueIds(current) {
        UpdateKeepsUnique(current, i, body);
        FirstIndexUnique(current, postId);
      }
      current := current[i := post];
      posts := current;
      status, updated := Ok, Some(post);
    }

    /** GET /api/posts/search: every post, in store order, one of whose
        fields title, content, author, date (tried in that order) contains
        its non-empty query argument, ignoring case; a post is taken at most
        once, at its first matching field. */
    method SearchPost(q: Query) returns (status: Status, found: seq<Post>)
      ensures status == Ok
      ensures found == Search(posts, q)
    {
      status := Ok;
      var current := posts;
      found := [];
      var i := 0;
      while i < |current|
        invariant 0 <= i <= |current|
        invariant found == Search(current[..i], q)
      {
        var post := current[i];
        ghost var before, hit := found, false;
        var j := 0;
        while j < |SEARCH_FIELDS|
          invariant 0 <= j <= |SEARCH_FIELDS|
          invariant !hit && found == before
          invariant forall k :: 0 <= k < j ==> !Hits(q, post, SEARCH_FIELDS[k])
        {
          var field := SEARCH_FIELDS[j];
          var query := QueryFor(q, field);
          if query.Some? && query.value != "" && Contains(Lower(TextOf(post, field)), Lower(query.value)) {
            assert Hits(q, post, field);
            found, hit := found + [post], true;
            break;
          }
          j := j + 1;
        }
        if !hit {
          NoHitNoMatch(q, post);
        }
        assert found == before + (if Matches(q, post) then [post] else []);
        SearchStep(current, i, q);
        i := i + 1;
      }
      assert current[..i] == current;
    }
  }
}
