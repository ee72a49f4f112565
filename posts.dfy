/** The records the blog keeps and the pure array transformations that the
    App component's handlers build before they store a new `posts` array:
    `find` (view), spread-append (add), `map` (edit) and `filter` (delete).
 */
module Posts {

  datatype Option<+T> = None | Some(value: T)

  /** Every field of a post object other than `id` (the title, the body and
      whatever else the form collects), by field name. */
  type Fields = map<string, string>

  /** A post in the collection; `id` is the millisecond timestamp taken when
      it was added. */
  datatype Post = Post(id: int, fields: Fields)

  /** The object the form hands back on save: the fields it collected, and
      an `id` only when the form carried one over (an edit). */
  datatype Draft = Draft(id: Option<int>, fields: Fields)

  /** A JavaScript value that is `null`, `undefined` or a post: the values
      `currentPost` takes. Only `Selected` is truthy. */
  datatype Selection = Null | Undefined | Selected(post: Post)

  /** The ids present in a collection. */
  function Ids(posts: seq<Post>): set<int>
  {
    set p | p in posts :: p.id
  }

  /** No two entries share an id. */
  predicate UniqueIds(posts: seq<Post>)
  {
    forall i, j :: 0 <= i < j < |posts| ==> posts[i].id != posts[j].id
  }

  /** The number of entries carrying `id`. */
  function Count(posts: seq<Post>, id: int): (n: nat)
    ensures n <= |posts|
    ensures n == 0 <==> id !in Ids(posts)
  {
    if posts == [] then 0
    else
      IdsCons(posts);
      (if posts[0].id == id then 1 else 0) + Count(posts[1..], id)
  }

  lemma IdsCons(posts: seq<Post>)
    requires posts != []
    ensures Ids(posts) == {posts[0].id} + Ids(posts[1..])
  {
    assert posts == [posts[0]] + posts[1..];
  }

  lemma UniqueCons(posts: seq<Post>)
    requires posts != []
    ensures UniqueIds(posts) <==> posts[0].id !in Ids(posts[1..]) && UniqueIds(posts[1..])
  {
    var t := posts[1..];
    if UniqueIds(posts) {
      forall k | 0 <= k < |t|
        ensures t[k].id != posts[0].id
      {
        assert t[k] == posts[k + 1];
      }
      forall i, j | 0 <= i < j < |t|
        ensures t[i].id != t[j].id
      {
        assert t[i] == posts[i + 1] && t[j] == posts[j + 1];
      }
    }
    if posts[0].id !in Ids(t) && UniqueIds(t) {
      forall i, j | 0 <= i < j < |posts|
        ensures posts[i].id != posts[j].id
      {
        assert posts[j] == t[j - 1] && posts[j] in t;
        if i > 0 {
          assert posts[i] == t[i - 1];
        }
      }
    }
  }

  /** Under unique ids an id occurs at most once. */
  lemma {:induction false} CountUnique(posts: seq<Post>, id: int)
    requires UniqueIds(posts)
    ensures Count(posts, id) == if id in Ids(posts) then 1 else 0
  {
    if posts != [] {
      UniqueCons(posts);
      IdsCons(posts);
      CountUnique(posts[1..], id);
    }
  }

  // ---------------------------------------------------------------------
  // view: posts.find(p => p.id === id)

  /** The first entry with `id`, or `undefined` when there is none. */
  function Find(posts: seq<Post>, id: int): (r: Selection)
    ensures r != Null
    ensures r == Undefined <==> id !in Ids(posts)
    ensures r.Selected? ==> r.post in posts && r.post.id == id
  {
    if posts == [] then Undefined
    else
      IdsCons(posts);
      if posts[0].id == id then Selected(posts[0]) else Find(posts[1..], id)
  }

  /** `find` returns the entry at the first index holding `id`. */
  lemma {:induction false} FindFirst(posts: seq<Post>, id: int, i: int)
    requires 0 <= i < |posts| && posts[i].id == id
    requires forall j :: 0 <= j < i ==> posts[j].id != id
    ensures Find(posts, id) == Selected(posts[i])
  {
    if i > 0 {
      FindFirst(posts[1..], id, i - 1);
    }
  }

  /** With unique ids, viewing a post's id selects exactly that post. */
  lemma FindUnique(posts: seq<Post>, p: Post)
    requires UniqueIds(posts) && p in posts
    ensures Find(posts, p.id) == Selected(p)
  {
    var i :| 0 <= i < |posts| && posts[i] == p;
    FindFirst(posts, p.id, i);
  }

  // ---------------------------------------------------------------------
  // add: [...posts, {...post, id: Date.now()}]

  /** The collection after adding `d` with the timestamp `now` as its id. */
  function Append(posts: seq<Post>, d: Draft, now: int): (r: seq<Post>)
    ensures |r| == |posts| + 1 && r[..|posts|] == posts
    ensures r[|posts|].id == now && r[|posts|].fields == d.fields
    ensures Ids(r) == Ids(posts) + {now}
  {
    var r := posts + [Post(now, d.fields)];
    assert r[..|posts|] == posts;
    IdsCons([Post(now, d.fields)]);
    r
  }

  /** An add keeps ids unique exactly when its timestamp is not in use yet. */
  lemma AppendUnique(posts: seq<Post>, d: Draft, now: int)
    ensures UniqueIds(Append(posts, d, now)) <==> UniqueIds(posts) && now !in Ids(posts)
  {
    var r := Append(posts, d, now);
    if UniqueIds(r) {
      forall i, j | 0 <= i < j < |posts|
        ensures posts[i].id != posts[j].id
      {
        assert posts[i] == r[i] && posts[j] == r[j];
      }
      forall k | 0 <= k < |posts|
        ensures posts[k].id != now
      {
        assert posts[k] == r[k];
      }
    }
  }

  /** Two adds in the same millisecond produce a duplicate id. */
  lemma SameInstantDuplicates(posts: seq<Post>, d1: Draft, d2: Draft, now: int)
    ensures !UniqueIds(Append(Append(posts, d1, now), d2, now))
  {
    AppendUnique(Append(posts, d1, now), d2, now);
  }

  /** Successive adds of `drafts`, the i-th stamped with `stamps[i]`. */
  function AddAll(posts: seq<Post>, drafts: seq<Draft>, stamps: seq<int>): seq<Post>
    requires |drafts| == |stamps|
    decreases |drafts|
  {
    if drafts == [] then posts
    else AddAll(Append(posts, drafts[0], stamps[0]), drafts[1..], stamps[1..])
  }

  /** A run of adds grows the collection by one entry per add and keeps ids
      unique, provided the clock gives every add its own unused timestamp. */
  lemma {:induction false} AddAllUnique(posts: seq<Post>, drafts: seq<Draft>, stamps: seq<int>)
    requires |drafts| == |stamps|
    requires UniqueIds(posts)
    requires forall i :: 0 <= i < |stamps| ==> stamps[i] !in Ids(posts)
    requires forall i, j :: 0 <= i < j < |stamps| ==> stamps[i] != stamps[j]
    ensures |AddAll(posts, drafts, stamps)| == |posts| + |drafts|
    ensures UniqueIds(AddAll(posts, drafts, stamps))
    decreases |drafts|
  {
    if drafts != [] {
      var next := Append(posts, drafts[0], stamps[0]);
      AppendUnique(posts, drafts[0], stamps[0]);
      var rest := stamps[1..];
      forall i | 0 <= i < |rest|
        ensures rest[i] !in Ids(next)
      {
        assert rest[i] == stamps[i + 1];
      }
      forall i, j | 0 <= i < j < |rest|
        ensures rest[i] != rest[j]
      {
        assert rest[i] == stamps[i + 1] && rest[j] == stamps[j + 1];
      }
      AddAllUnique(next, drafts[1..], rest);
    }
  }

  // ---------------------------------------------------------------------
  // edit: posts.map(p => p.id === updatedPost.id ? updatedPost : p)

  /** The collection after every entry whose id equals the draft's has been
      replaced by the draft. */
  function Replace(posts: seq<Post>, d: Draft): (r: seq<Post>)
    ensures |r| == |posts|
    ensures forall i :: 0 <= i < |posts| && d.id == Some(posts[i].id) ==> r[i] == Post(posts[i].id, d.fields)
    ensures forall i :: 0 <= i < |posts| && d.id != Some(posts[i].id) ==> r[i] == posts[i]
  {
    if posts == [] then []
    else
      var head := if d.id == Some(posts[0].id) then Post(posts[0].id, d.fields) else posts[0];
      [head] + Replace(posts[1..], d)
  }

  /** An edit never changes any id, so it keeps ids unique and keeps them unique only if they were. */
  lemma ReplaceKeepsIds(posts: seq<Post>, d: Draft)
    ensures Ids(Replace(posts, d)) == Ids(posts)
    ensures UniqueIds(Replace(posts, d)) <==> UniqueIds(posts)
  {
    var r := Replace(posts, d);
    forall x | x in Ids(r)
      ensures x in Ids(posts)
    {
      var p :| p in r && p.id == x;
      var i :| 0 <= i < |r| && r[i] == p;
      assert posts[i].id == x;
    }
    forall x | x in Ids(posts)
      ensures x in Ids(r)
    {
      var p :| p in posts && p.id == x;
      var i :| 0 <= i < |posts| && posts[i] == p;
      assert r[i].id == x && r[i] in r;
    }
    assert forall i :: 0 <= i < |r| ==> r[i].id == posts[i].id;
  }

  /** Editing with a draft that has no id, or an id not in the collection,
      leaves the collection as it was. */
  lemma ReplaceAbsent(posts: seq<Post>, d: Draft)
    requires d.id == None || d.id.value !in Ids(posts)
    ensures Replace(posts, d) == posts
  {
    var r := Replace(posts, d);
    forall i | 0 <= i < |posts|
      ensures r[i] == posts[i]
    {
      assert posts[i] in posts;
    }
  }

  /** With unique ids an edit replaces the one entry that has the draft's id
      in place, and nothing else. */
  lemma ReplaceAt(posts: seq<Post>, d: Draft, i: int)
    requires UniqueIds(posts) && 0 <= i < |posts| && d.id == Some(posts[i].id)
    ensures Replace(posts, d) == posts[i := Post(posts[i].id, d.fields)]
  {
  }

  /** Saving the same draft twice changes nothing the second time. */
  lemma ReplaceIdempotent(posts: seq<Post>, d: Draft)
    ensures Replace(Replace(posts, d), d) == Replace(posts, d)
  {
    var r := Replace(posts, d);
    var rr := Replace(r, d);
    forall i | 0 <= i < |posts|
      ensures rr[i] == r[i]
    {
      assert r[i].id == posts[i].id;
    }
  }

  // ---------------------------------------------------------------------
  // delete: posts.filter(p => p.id !== id)

  /** The collection without the entries carrying `id`. */
  function Remove(posts: seq<Post>, id: int): (r: seq<Post>)
    ensures |r| == |posts| - Count(posts, id)
  {
    if posts == [] then []
    else if posts[0].id != id then [posts[0]] + Remove(posts[1..], id)
    else Remove(posts[1..], id)
  }

  /** The entries kept are exactly the entries whose id differs. */
  lemma {:induction false} RemoveMembers(posts: seq<Post>, id: int)
    ensures forall p :: p in Remove(posts, id) <==> p in posts && p.id != id
  {
    if posts != [] {
      RemoveMembers(posts[1..], id);
      assert posts == [posts[0]] + posts[1..];
    }
  }

  /** Filtering distributes over concatenation: the kept entries stay in
      their original order. */
  lemma {:induction false} RemoveAppend(a: seq<Post>, b: seq<Post>, id: int)
    ensures Remove(a + b, id) == Remove(a, id) + Remove(b, id)
  {
    if a == [] {
      assert a + b == b;
    } else {
      assert (a + b)[0] == a[0] && (a + b)[1..] == a[1..] + b;
      RemoveAppend(a[1..], b, id);
      if a[0].id != id {
        assert Remove(a + b, id) == [a[0]] + (Remove(a[1..], id) + Remove(b, id));
      } else {
        assert Remove(a + b, id) == Remove(a[1..], id) + Remove(b, id);
      }
    }
  }

  /** Deleting an id that is not present leaves the collection as it was. */
  lemma {:induction false} RemoveAbsent(posts: seq<Post>, id: int)
    requires id !in Ids(posts)
    ensures Remove(posts, id) == posts
  {
    if posts != [] {
      IdsCons(posts);
      RemoveAbsent(posts[1..], id);
      assert posts == [posts[0]] + posts[1..];
    }
  }

  /** With unique ids, the id at `i` occurs nowhere before or after `i`. */
  lemma OnlyAt(posts: seq<Post>, i: int)
    requires UniqueIds(posts) && 0 <= i < |posts|
    ensures posts[i].id !in Ids(posts[..i]) && posts[i].id !in Ids(posts[i + 1..])
  {
    var pre, post := posts[..i], posts[i + 1..];
    forall p | p in pre
      ensures p.id != posts[i].id
    {
      var k :| 0 <= k < |pre| && pre[k] == p;
      assert posts[k] == p;
    }
    forall p | p in post
      ensures p.id != posts[i].id
    {
      var k :| 0 <= k < |post| && post[k] == p;
      assert posts[i + 1 + k] == p;
    }
  }

  lemma RemoveSplice(pre: seq<Post>, x: Post, post: seq<Post>)
    requires x.id !in Ids(pre) && x.id !in Ids(post)
    ensures Remove(pre + [x] + post, x.id) == pre + post
  {
    RemoveAbsent(pre, x.id);
    RemoveAbsent(post, x.id);
    assert pre + [x] + post == pre + ([x] + post);
    RemoveAppend(pre, [x] + post, x.id);
    RemoveAppend([x], post, x.id);
    assert Remove([x], x.id) == [];
  }

  /** With unique ids, deleting the id of the entry at `i` removes exactly
      that entry and keeps the rest in order. */
  lemma RemoveAt(posts: seq<Post>, id: int, i: int)
    requires UniqueIds(posts) && 0 <= i < |posts| && posts[i].id == id
    ensures Remove(posts, id) == posts[..i] + posts[i + 1..]
  {
    OnlyAt(posts, i);
    assert posts == posts[..i] + [posts[i]] + posts[i + 1..];
    RemoveSplice(posts[..i], posts[i], posts[i + 1..]);
  }

  /** The length drops by one when the id is present and by zero when it is
      absent, provided ids are unique. */
  lemma RemoveLength(posts: seq<Post>, id: int)
    requires UniqueIds(posts)
    ensures |Remove(posts, id)| == if id in Ids(posts) then |posts| - 1 else |posts|
  {
    CountUnique(posts, id);
  }

  /** A delete keeps ids unique. */
  lemma {:induction false} RemoveKeepsUnique(posts: seq<Post>, id: int)
    requires UniqueIds(posts)
    ensures UniqueIds(Remove(posts, id))
  {
    if posts != [] {
      UniqueCons(posts);
      RemoveKeepsUnique(posts[1..], id);
      var rest := Remove(posts[1..], id);
      RemoveMembers(posts[1..], id);
      if posts[0].id != id {
        assert Ids(rest) <= Ids(posts[1..]);
        UniqueCons([posts[0]] + rest);
        assert ([posts[0]] + rest)[1..] == rest;
      }
    }
  }

  /** Deleting the same id twice changes nothing the second time. */
  lemma RemoveIdempotent(posts: seq<Post>, id: int)
    ensures Remove(Remove(posts, id), id) == Remove(posts, id)
  {
    RemoveMembers(posts, id);
    RemoveAbsent(Remove(posts, id), id);
  }
}
