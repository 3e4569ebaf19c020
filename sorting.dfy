/** Python's `sorted(posts, key=lambda post: post[field], reverse=desc)`: the
    ordering of key values, a stable insertion sort, and the proofs that its
    result is a permutation, ordered by the key, and stable for equal keys. */
module Sorting {
  import opened Posts

  /** Python's `<=` on strings: lexicographic by code point. */
  predicate StrLe(a: string, b: string) {
    a == [] || (b != [] && (a[0] < b[0] || (a[0] == b[0] && StrLe(a[1..], b[1..]))))
  }

  lemma {:induction false} StrLeReflexive(a: string)
    ensures StrLe(a, a)
  {
    if a != [] {
      StrLeReflexive(a[1..]);
    }
  }

  lemma {:induction false} StrLeTotal(a: string, b: string)
    ensures StrLe(a, b) || StrLe(b, a)
  {
    if a != [] && b != [] && a[0] == b[0] {
      StrLeTotal(a[1..], b[1..]);
    }
  }

  lemma {:induction false} StrLeTransitive(a: string, b: string, c: string)
    requires StrLe(a, b) && StrLe(b, c)
    ensures StrLe(a, c)
  {
    if a != [] && a[0] == b[0] && b[0] == c[0] {
      StrLeTransitive(a[1..], b[1..], c[1..]);
    }
  }

  /** `<=` on key values. A field holds one kind of key in every post, so the
      mixed case never arises; it is ordered numbers-first to keep the order total. */
  predicate KeyLe(a: Key, b: Key) {
    match (a, b)
    case (Num(x), Num(y)) => x <= y
    case (Str(x), Str(y)) => StrLe(x, y)
    case (Num(_), Str(_)) => true
    case (Str(_), Num(_)) => false
  }

  lemma KeyLeReflexive(a: Key)
    ensures KeyLe(a, a)
  {
    if a.Str? {
      StrLeReflexive(a.s);
    }
  }

  lemma KeyLeTotal(a: Key, b: Key)
    ensures KeyLe(a, b) || KeyLe(b, a)
  {
    if a.Str? && b.Str? {
      StrLeTotal(a.s, b.s);
    }
  }

  lemma KeyLeTransitive(a: Key, b: Key, c: Key)
    requires KeyLe(a, b) && KeyLe(b, c)
    ensures KeyLe(a, c)
  {
    if a.Str? && b.Str? && c.Str? {
      StrLeTransitive(a.s, b.s, c.s);
    }
  }

  /** a may stand before b in the result: ascending keys, or descending ones. */
  predicate InOrder(a: Post, b: Post, f: Field, desc: bool) {
    if desc then KeyLe(KeyOf(b, f), KeyOf(a, f)) else KeyLe(KeyOf(a, f), KeyOf(b, f))
  }

  lemma InOrderTotal(a: Post, b: Post, f: Field, desc: bool)
    ensures InOrder(a, b, f, desc) || InOrder(b, a, f, desc)
  {
    KeyLeTotal(KeyOf(a, f), KeyOf(b, f));
  }

  lemma InOrderTransitive(a: Post, b: Post, c: Post, f: Field, desc: bool)
    requires InOrder(a, b, f, desc) && InOrder(b, c, f, desc)
    ensures InOrder(a, c, f, desc)
  {
    if desc {
      KeyLeTransitive(KeyOf(c, f), KeyOf(b, f), KeyOf(a, f));
    } else {
      KeyLeTransitive(KeyOf(a, f), KeyOf(b, f), KeyOf(c, f));
    }
  }

  /** Two posts with the same key may stand in either order. */
  lemma InOrderEqualKeys(a: Post, b: Post, f: Field, desc: bool)
    requires KeyOf(a, f) == KeyOf(b, f)
    ensures InOrder(a, b, f, desc)
  {
    KeyLeReflexive(KeyOf(a, f));
  }

  ghost predicate Ordered(s: seq<Post>, f: Field, desc: bool) {
    forall i, j :: 0 <= i < j < |s| ==> InOrder(s[i], s[j], f, desc)
  }

  /** The posts of s whose key is k, in the order of s. */
  function WithKey(s: seq<Post>, f: Field, k: Key): seq<Post> {
    if s == [] then []
    else (if KeyOf(s[0], f) == k then [s[0]] else []) + WithKey(s[1..], f, k)
  }

  /** Puts x in front of the first post it may precede, so that x, which came
      before every post of s in the input, stays ahead of those with its key. */
  function Insert(x: Post, s: seq<Post>, f: Field, desc: bool): (r: seq<Post>)
    ensures multiset(r) == multiset(s) + multiset{x}
  {
    if s == [] then [x]
    else if InOrder(x, s[0], f, desc) then [x] + s
    else
      assert s == [s[0]] + s[1..];
      [s[0]] + Insert(x, s[1..], f, desc)
  }

  /** `sorted(s, key=field, reverse=desc)`: the result is a permutation of s. */
  function SortBy(s: seq<Post>, f: Field, desc: bool): (r: seq<Post>)
    ensures multiset(r) == multiset(s)
  {
    if s == [] then []
    else
      assert s == [s[0]] + s[1..];
      Insert(s[0], SortBy(s[1..], f, desc), f, desc)
  }

  lemma {:induction false} InsertOrdered(x: Post, s: seq<Post>, f: Field, desc: bool)
    requires Ordered(s, f, desc)
    ensures Ordered(Insert(x, s, f, desc), f, desc)
  {
    var r := Insert(x, s, f, desc);
    if s == [] {
    } else if InOrder(x, s[0], f, desc) {
      forall j | 0 < j < |r| ensures InOrder(x, r[j], f, desc) {
        if j > 1 {
          InOrderTransitive(x, s[0], s[j - 1], f, desc);
        }
      }
    } else {
      var t := Insert(x, s[1..], f, desc);
      InsertOrdered(x, s[1..], f, desc);
      InOrderTotal(x, s[0], f, desc);
      forall j | 0 <= j < |t| ensures InOrder(s[0], t[j], f, desc) {
        assert t[j] in multiset(t);
        if t[j] != x {
          assert t[j] in s[1..];
        }
      }
      assert r == [s[0]] + t;
    }
  }

  /** The result of SortBy is ordered by the key, descending exactly when desc. */
  lemma {:induction false} SortOrdered(s: seq<Post>, f: Field, desc: bool)
    ensures Ordered(SortBy(s, f, desc), f, desc)
  {
    if s != [] {
      SortOrdered(s[1..], f, desc);
      InsertOrdered(s[0], SortBy(s[1..], f, desc), f, desc);
    }
  }

  lemma {:induction false} InsertStable(x: Post, s: seq<Post>, f: Field, desc: bool, k: Key)
    ensures WithKey(Insert(x, s, f, desc), f, k)
         == (if KeyOf(x, f) == k then [x] else []) + WithKey(s, f, k)
  {
    var r := Insert(x, s, f, desc);
    var mid := if KeyOf(x, f) == k then [x] else [];
    if s == [] {
      assert r == [x] && r[1..] == [];
    } else if InOrder(x, s[0], f, desc) {
      assert r == [x] + s && r[0] == x && r[1..] == s;
      assert WithKey(r, f, k) == mid + WithKey(s, f, k);
    } else {
      if KeyOf(x, f) == KeyOf(s[0], f) {
        InOrderEqualKeys(x, s[0], f, desc);
      }
      var t := Insert(x, s[1..], f, desc);
      var head := if KeyOf(s[0], f) == k then [s[0]] else [];
      var rest := WithKey(s[1..], f, k);
      assert r == [s[0]] + t && r[0] == s[0] && r[1..] == t;
      assert WithKey(r, f, k) == head + WithKey(t, f, k);
      InsertStable(x, s[1..], f, desc, k);
      assert WithKey(t, f, k) == mid + rest;
      assert WithKey(s, f, k) == head + rest;
      if head == [] {
        assert head + rest == rest && head + (mid + rest) == mid + rest;
      } else {
        assert mid == [] && mid + rest == rest;
      }
    }
  }

  /** Python's sort is stable, also with reverse=True: the posts that share a
      key come out in the order they had in the input. */
  lemma {:induction false} SortStable(s: seq<Post>, f: Field, desc: bool, k: Key)
    ensures WithKey(SortBy(s, f, desc), f, k) == WithKey(s, f, k)
  {
    if s != [] {
      SortStable(s[1..], f, desc, k);
      InsertStable(s[0], SortBy(s[1..], f, desc), f, desc, k);
    }
  }
}
