/** The pure parts of the handlers in backend/backend_app.py: the id of a new
    post, validation of a create body, lookup of a post by id, `list.remove`,
    the partial update of one post and the search filter, with the properties
    the handlers rely on. */
module Collection {
  import opened Posts
  import opened Text

  /** No two posts share an id. The store does not enforce this; creation keeps it. */
  ghost predicate UniqueIds(s: seq<Post>) {
    forall i, j :: 0 <= i < j < |s| ==> s[i].id != s[j].id
  }

  /** a is s with some posts left out, the rest in their order. */
  predicate IsSubsequence<T(==)>(a: seq<T>, s: seq<T>)
    decreases |s|
  {
    a == [] || (s != [] && ((a[0] == s[0] && IsSubsequence(a[1..], s[1..])) || IsSubsequence(a, s[1..])))
  }

  /** A subsequence holds each post at most as often as s does. */
  lemma {:induction false} SubsequenceMultiset<T>(a: seq<T>, s: seq<T>)
    requires IsSubsequence(a, s)
    ensures multiset(a) <= multiset(s)
    decreases |s|
  {
    if a != [] {
      assert s == [s[0]] + s[1..];
      if a[0] == s[0] && IsSubsequence(a[1..], s[1..]) {
        SubsequenceMultiset(a[1..], s[1..]);
        assert a == [a[0]] + a[1..];
      } else {
        SubsequenceMultiset(a, s[1..]);
      }
    }
  }

  // ---------------------------------------------------------------- create

  /** `max(post["id"] for post in posts)` over a non-empty list. */
  function MaxId(s: seq<Post>): (m: int)
    requires s != []
    ensures forall p :: p in s ==> p.id <= m
    ensures exists p :: p in s && p.id == m
  {
    if |s| == 1 then s[0].id
    else
      var rest := MaxId(s[1..]);
      assert forall p :: p in s ==> p == s[0] || p in s[1..];
      if s[0].id >= rest then s[0].id else rest
  }

  /** `max(..., default=0) + 1`: one more than the largest id, 1 for an empty list. */
  function NextId(s: seq<Post>): (r: int)
    ensures forall p :: p in s ==> p.id < r
    ensures s == [] ==> r == 1
    ensures s != [] ==> exists p :: p in s && r == p.id + 1
  {
    if s == [] then 1 else MaxId(s) + 1
  }

  /** Appending a post that carries the next id keeps the ids unique. */
  lemma AppendNextIdKeepsUnique(s: seq<Post>, p: Post)
    requires UniqueIds(s) && p.id == NextId(s)
    ensures UniqueIds(s + [p])
  {
    var t := s + [p];
    forall i, j | 0 <= i < j < |t| ensures t[i].id != t[j].id {
      if j == |s| {
        assert t[i] in s;
      }
    }
  }

  /** Python truthiness of `data.get(key)`: present and not the empty string. */
  predicate Truthy(body: Body, key: string) {
    key in body && body[key] != ""
  }

  /** `not data`: no JSON body, or an empty object. */
  predicate BodyMissing(body: Option<Body>) {
    body.None? || body.value == map[]
  }

  predicate HasRequiredFields(body: Body) {
    Truthy(body, "title") && Truthy(body, "content") && Truthy(body, "author")
  }

  /** The post that a valid create request adds to s. */
  function NewPost(s: seq<Post>, body: Body, today: string): (p: Post)
    requires HasRequiredFields(body)
    ensures forall q :: q in s ==> q.id < p.id
    ensures p.title != "" && p.content != "" && p.author != ""
  {
    Post(NextId(s), body["title"], body["content"], body["author"], today)
  }

  // ---------------------------------------------------------------- lookup

  /** `next((post for post in posts if post["id"] == post_id), None)`, as an index. */
  function FirstIndex(s: seq<Post>, id: int): (r: Option<nat>)
    ensures r.Some? ==> r.value < |s| && s[r.value].id == id
    ensures r.Some? ==> forall j :: 0 <= j < r.value ==> s[j].id != id
    ensures r.None? <==> forall p :: p in s ==> p.id != id
  {
    if s == [] then None
    else if s[0].id == id then Some(0)
    else
      match FirstIndex(s[1..], id)
      case None => None
      case Some(i) => Some(i + 1)
  }

  /** With unique ids, the post found is the only one carrying the id. */
  lemma FirstIndexUnique(s: seq<Post>, id: int)
    requires UniqueIds(s) && FirstIndex(s, id).Some?
    ensures forall j :: 0 <= j < |s| && s[j].id == id ==> j == FirstIndex(s, id).value
  {
  }

  // ---------------------------------------------------------------- delete

  /** `list.remove(x)`: drops the first element equal to x. */
  function RemoveFirst<T(==)>(s: seq<T>, x: T): (r: seq<T>)
    requires x in s
    ensures |r| == |s| - 1
    ensures multiset(r) == multiset(s) - multiset{x}
  {
    assert s == [s[0]] + s[1..];
    if s[0] == x then s[1..] else [s[0]] + RemoveFirst(s[1..], x)
  }

  /** When s[i] is the first element with its value, `remove(s[i])` removes
      exactly position i. The delete handler relies on this: the post it hands
      to `remove` is the first with its id, so no earlier post equals it. */
  lemma {:induction false} RemoveFirstAt<T>(s: seq<T>, i: nat)
    requires i < |s| && forall j :: 0 <= j < i ==> s[j] != s[i]
    ensures RemoveFirst(s, s[i]) == s[..i] + s[i + 1..]
  {
    if i == 0 {
      assert s[..0] + s[1..] == s[1..];
    } else {
      var t := s[1..];
      assert t[i - 1] == s[i] && s[i] in t && s[0] != s[i];
      assert forall j :: 0 <= j < i - 1 ==> t[j] != t[i - 1];
      RemoveFirstAt(t, i - 1);
      assert RemoveFirst(s, s[i]) == [s[0]] + RemoveFirst(t, s[i]);
      SliceOfTail(s, i);
      var a, b := t[..i - 1], t[i..];
      assert [s[0]] + (a + b) == ([s[0]] + a) + b;
    }
  }

  lemma SliceOfTail<T>(s: seq<T>, i: nat)
    requires 0 < i < |s|
    ensures [s[0]] + s[1..][..i - 1] == s[..i] && s[1..][i..] == s[i + 1..]
  {
  }

  /** The collection after deleting the first post with the given id. */
  function DeleteFirst(s: seq<Post>, id: int): seq<Post> {
    match FirstIndex(s, id)
    case None => s
    case Some(i) => s[..i] + s[i + 1..]
  }

  lemma {:induction false} RemovalIsSubsequence<T>(s: seq<T>, i: nat)
    requires i < |s|
    ensures IsSubsequence(s[..i] + s[i + 1..], s)
  {
    var r := s[..i] + s[i + 1..];
    if i == 0 {
      assert r == s[1..];
      SubsequenceReflexive(s[1..]);
    } else {
      RemovalIsSubsequence(s[1..], i - 1);
      assert r[0] == s[0];
      assert r[1..] == s[1..][..i - 1] + s[1..][i..];
    }
  }

  lemma {:induction false} SubsequenceReflexive<T>(s: seq<T>)
    ensures IsSubsequence(s, s)
  {
    if s != [] {
      SubsequenceReflexive(s[1..]);
    }
  }

  /** Deleting an id that occurs removes exactly one post, the first one with
      that id, and keeps the others in their order; deleting a missing id
      changes nothing. */
  lemma DeleteFirstRemovesOne(s: seq<Post>, id: int)
    ensures FirstIndex(s, id).None? ==> DeleteFirst(s, id) == s
    ensures FirstIndex(s, id).Some? ==>
              var i := FirstIndex(s, id).value;
              |DeleteFirst(s, id)| == |s| - 1
              && multiset(DeleteFirst(s, id)) == multiset(s) - multiset{s[i]}
              && IsSubsequence(DeleteFirst(s, id), s)
  {
    if FirstIndex(s, id).Some? {
      RemovalFacts(s, FirstIndex(s, id).value);
    }
  }

  /** Dropping position i shortens s by one, loses exactly s[i] and keeps the
      order of the rest. */
  lemma RemovalFacts<T>(s: seq<T>, i: nat)
    requires i < |s|
    ensures |s[..i] + s[i + 1..]| == |s| - 1
    ensures multiset(s[..i] + s[i + 1..]) == multiset(s) - multiset{s[i]}
    ensures IsSubsequence(s[..i] + s[i + 1..], s)
  {
    RemovalIsSubsequence(s, i);
    assert s == s[..i] + ([s[i]] + s[i + 1..]);
  }

  /** Deleting keeps ids unique, and with unique ids a second delete of the
      same id finds nothing. */
  lemma DeleteTwiceNotFound(s: seq<Post>, id: int)
    requires UniqueIds(s)
    ensures UniqueIds(DeleteFirst(s, id))
    ensures FirstIndex(DeleteFirst(s, id), id).None?
  {
    var r := DeleteFirst(s, id);
    if FirstIndex(s, id).Some? {
      var i := FirstIndex(s, id).value;
      assert forall j :: 0 <= j < |r| ==> r[j] == (if j < i then s[j] else s[j + 1]);
      forall p | p in r ensures p.id != id {
        var j :| 0 <= j < |r| && r[j] == p;
        if j >= i {
          assert s[j + 1].id != s[i].id;
        }
      }
    }
  }

  // ---------------------------------------------------------------- update

  /** The partial update of one post: only the keys present in the body are
      overwritten; the id and the date are never touched. */
  function Patched(p: Post, body: Body): Post {
    p.(title := if "title" in body then body["title"] else p.title,
       content := if "content" in body then body["content"] else p.content,
       author := if "author" in body then body["author"] else p.author)
  }

  /** An update never changes an id, so the ids stay as unique as they were. */
  lemma UpdateKeepsUnique(s: seq<Post>, i: nat, body: Body)
    requires i < |s| && UniqueIds(s)
    ensures UniqueIds(s[i := Patched(s[i], body)])
  {
  }

  // ---------------------------------------------------------------- search

  /** The query-string arguments of a search request; None for an absent one. */
  datatype Query = Query(title: Option<string>, content: Option<string>,
                         author: Option<string>, date: Option<string>)

  /** The fields the search handler tries, in its order. */
  const SEARCH_FIELDS: seq<Field> := [Title, Content, Author, Date]

  function QueryFor(q: Query, f: Field): Option<string> {
    match f
    case Title => q.title
    case Content => q.content
    case Author => q.author
    case Date => q.date
    case Id => None
  }

  /** `query and query.lower() in post[field].lower()` */
  predicate Hits(q: Query, p: Post, f: Field)
    requires f != Id
  {
    var query := QueryFor(q, f);
    query.Some? && query.value != "" && Contains(Lower(TextOf(p, f)), Lower(query.value))
  }

  /** Some searched field of p contains its non-empty query, ignoring case. */
  ghost predicate Matches(q: Query, p: Post) {
    exists f :: f in SEARCH_FIELDS && Hits(q, p, f)
  }

  /** The posts of s that match q, in the order of s. */
  ghost function Search(s: seq<Post>, q: Query): seq<Post> {
    if s == [] then []
    else (if Matches(q, s[0]) then [s[0]] else []) + Search(s[1..], q)
  }

  lemma {:induction false} SearchAppend(a: seq<Post>, b: seq<Post>, q: Query)
    ensures Search(a + b, q) == Search(a, q) + Search(b, q)
  {
    if a == [] {
      assert a + b == b;
    } else {
      var head := if Matches(q, a[0]) then [a[0]] else [];
      assert (a + b)[0] == a[0] && (a + b)[1..] == a[1..] + b;
      SearchAppend(a[1..], b, q);
      assert Search(a + b, q) == head + (Search(a[1..], q) + Search(b, q));
      assert head + (Search(a[1..], q) + Search(b, q)) == (head + Search(a[1..], q)) + Search(b, q);
    }
  }

  lemma SearchStep(s: seq<Post>, i: nat, q: Query)
    requires i < |s|
    ensures Search(s[..i + 1], q) == Search(s[..i], q) + (if Matches(q, s[i]) then [s[i]] else [])
  {
    assert s[..i + 1] == s[..i] + [s[i]];
    SearchAppend(s[..i], [s[i]], q);
    assert Search([s[i]], q) == (if Matches(q, s[i]) then [s[i]] else []) + Search([], q);
  }

  /** A post none of whose search fields hits does not match. */
  lemma NoHitNoMatch(q: Query, p: Post)
    requires forall k :: 0 <= k < |SEARCH_FIELDS| ==> !Hits(q, p, SEARCH_FIELDS[k])
    ensures !Matches(q, p)
  {
    forall f | f in SEARCH_FIELDS ensures !Hits(q, p, f) {
      var k :| 0 <= k < |SEARCH_FIELDS| && SEARCH_FIELDS[k] == f;
    }
  }

  /** A post is found exactly when it is in the collection and matches. */
  lemma {:induction false} SearchMembership(s: seq<Post>, q: Query, p: Post)
    ensures p in Search(s, q) <==> p in s && Matches(q, p)
  {
    if s != [] {
      SearchMembership(s[1..], q, p);
      assert s == [s[0]] + s[1..];
    }
  }

  /** The result keeps the collection's order and lists each post at most as
      often as it is stored. */
  lemma {:induction false} SearchSubsequence(s: seq<Post>, q: Query)
    ensures IsSubsequence(Search(s, q), s)
    ensures multiset(Search(s, q)) <= multiset(s)
  {
    if s != [] {
      SearchSubsequence(s[1..], q);
      var r := Search(s, q);
      if Matches(q, s[0]) {
        assert r[0] == s[0] && r[1..] == Search(s[1..], q);
      } else {
        assert r == Search(s[1..], q);
      }
    }
    SubsequenceMultiset(Search(s, q), s);
  }

  /** With no non-empty query argument nothing matches. */
  lemma {:induction false} SearchWithoutQuery(s: seq<Post>, q: Query)
    requires forall f :: f in SEARCH_FIELDS ==> QueryFor(q, f) in {None, Some("")}
    ensures Search(s, q) == []
  {
    if s != [] {
      SearchWithoutQuery(s[1..], q);
    }
  }

  /** Two queries that differ only in letter case find the same posts. */
  lemma {:induction false} SearchIgnoresCase(s: seq<Post>, q1: Query, q2: Query)
    requires forall f :: f in SEARCH_FIELDS ==>
               QueryFor(q1, f).Some? == QueryFor(q2, f).Some?
               && (QueryFor(q1, f).Some? ==> Lower(QueryFor(q1, f).value) == Lower(QueryFor(q2, f).value))
    ensures Search(s, q1) == Search(s, q2)
  {
    if s != [] {
      SearchIgnoresCase(s[1..], q1, q2);
      forall f | f in SEARCH_FIELDS ensures Hits(q1, s[0], f) == Hits(q2, s[0], f) {
        if QueryFor(q1, f).Some? {
          assert |Lower(QueryFor(q1, f).value)| == |QueryFor(q1, f).value|;
          assert |Lower(QueryFor(q2, f).value)| == |QueryFor(q2, f).value|;
        }
      }
    }
  }
}
