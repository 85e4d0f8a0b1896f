/**
 * The aggregation helpers of utils/list_helper.js: folds over a sequence of
 * blog records. A JavaScript `reduce` is a left fold, so each is written as
 * the step applied to the fold of all but the last element and the last
 * element.
 */
module ListHelper {
  import opened Wrappers

  /** A blog record; a record without an author carries `"undefined"`, the key it is grouped under. */
  datatype Blog = Blog(title: string, author: string, likes: int)

  function Init<T>(s: seq<T>): seq<T>
    requires s != []
  {
    s[..|s| - 1]
  }

  function Last<T>(s: seq<T>): T
    requires s != []
  {
    s[|s| - 1]
  }

  lemma InitLast<T>(s: seq<T>)
    requires s != []
    ensures Init(s) + [Last(s)] == s
  {
  }

  // ----- dummy -----

  function Dummy(blogs: seq<Blog>): (r: int)
    ensures r == 1
  {
    1
  }

  // ----- totalLikes -----

  /** totalLikes: a left fold adding each entry's likes to a running sum that starts at 0. */
  function TotalLikes(blogs: seq<Blog>): int
  {
    if blogs == [] then 0 else TotalLikes(Init(blogs)) + Last(blogs).likes
  }

  /** Reference definition: the arithmetic sum of the likes, first entry first. */
  function SumOfLikes(blogs: seq<Blog>): int
  {
    if blogs == [] then 0 else blogs[0].likes + SumOfLikes(blogs[1..])
  }

  lemma {:induction false} SumOfLikesSnoc(s: seq<Blog>, b: Blog)
    ensures SumOfLikes(s + [b]) == SumOfLikes(s) + b.likes
  {
    if s == [] {
      assert s + [b] == [b];
    } else {
      assert (s + [b])[1..] == s[1..] + [b];
      SumOfLikesSnoc(s[1..], b);
    }
  }

  /** The fold computes the sum of the likes, and 0 for no blogs. */
  lemma {:induction false} TotalLikesIsSum(blogs: seq<Blog>)
    ensures TotalLikes(blogs) == SumOfLikes(blogs)
    ensures blogs == [] ==> TotalLikes(blogs) == 0
  {
    if blogs != [] {
      TotalLikesIsSum(Init(blogs));
      SumOfLikesSnoc(Init(blogs), Last(blogs));
      InitLast(blogs);
    }
  }

  /** The total of a concatenation is the sum of the totals. */
  lemma {:induction false} TotalLikesAppend(a: seq<Blog>, b: seq<Blog>)
    ensures TotalLikes(a + b) == TotalLikes(a) + TotalLikes(b)
  {
    if b == [] {
      assert a + b == a;
    } else {
      assert Init(a + b) == a + Init(b);
      assert Last(a + b) == Last(b);
      TotalLikesAppend(a, Init(b));
    }
  }

  /** With no negative like counts, the total bounds every entry's likes. */
  lemma {:induction false} TotalLikesBounds(blogs: seq<Blog>)
    requires forall i :: 0 <= i < |blogs| ==> blogs[i].likes >= 0
    ensures TotalLikes(blogs) >= 0
    ensures forall i :: 0 <= i < |blogs| ==> blogs[i].likes <= TotalLikes(blogs)
  {
    if blogs != [] {
      TotalLikesBounds(Init(blogs));
      forall i | 0 <= i < |blogs| ensures blogs[i].likes <= TotalLikes(blogs) {
        if i < |blogs| - 1 {
          assert blogs[i] == Init(blogs)[i];
        }
      }
    }
  }

  // ----- favoriteBlog -----

  function MathMax(a: int, b: int): int
  {
    if a >= b then a else b
  }

  /** The reducer of favoriteBlog; `None` is the initial empty object `{}`. */
  function FavoriteStep(result: Option<Blog>, current: Blog): Option<Blog>
  {
    if result.None? || MathMax(result.value.likes, current.likes) == current.likes then Some(current)
    else result
  }

  function FavoriteBlog(blogs: seq<Blog>): Option<Blog>
  {
    if blogs == [] then None else FavoriteStep(FavoriteBlog(Init(blogs)), Last(blogs))
  }

  /** Index k holds the most likes, and every later entry has strictly fewer. */
  ghost predicate IsLastMaximum(blogs: seq<Blog>, k: int)
  {
    && 0 <= k < |blogs|
    && (forall j :: 0 <= j < |blogs| ==> blogs[j].likes <= blogs[k].likes)
    && (forall j :: k < j < |blogs| ==> blogs[j].likes < blogs[k].likes)
  }

  /** favoriteBlog is `{}` exactly for no blogs, and otherwise the last of the most-liked entries. */
  lemma {:induction false} FavoriteBlogIsLastMaximum(blogs: seq<Blog>)
    ensures FavoriteBlog(blogs) == None <==> blogs == []
    ensures blogs != [] ==> exists k :: IsLastMaximum(blogs, k) && FavoriteBlog(blogs) == Some(blogs[k])
  {
    if blogs != [] {
      var init, n := Init(blogs), |blogs| - 1;
      FavoriteBlogIsLastMaximum(init);
      if init == [] {
        assert IsLastMaximum(blogs, 0);
      } else {
        var k :| IsLastMaximum(init, k) && FavoriteBlog(init) == Some(init[k]);
        assert forall j :: 0 <= j < n ==> blogs[j] == init[j];
        if blogs[n].likes >= init[k].likes {
          assert IsLastMaximum(blogs, n);
        } else {
          assert IsLastMaximum(blogs, k);
        }
      }
    }
  }

  /** The result is an entry of the input whose likes are at least every entry's likes. */
  lemma FavoriteBlogIsMaximal(blogs: seq<Blog>)
    requires blogs != []
    ensures FavoriteBlog(blogs).Some? && FavoriteBlog(blogs).value in blogs
    ensures forall b :: b in blogs ==> b.likes <= FavoriteBlog(blogs).value.likes
  {
    FavoriteBlogIsLastMaximum(blogs);
  }

  /** Ties go to the later entry: the last most-liked entry is the one returned. */
  lemma FavoriteBlogPrefersLater(blogs: seq<Blog>, k: int)
    requires IsLastMaximum(blogs, k)
    ensures FavoriteBlog(blogs) == Some(blogs[k])
  {
    FavoriteBlogIsLastMaximum(blogs);
    var k' :| IsLastMaximum(blogs, k') && FavoriteBlog(blogs) == Some(blogs[k']);
    assert !(k < k') && !(k' < k);
  }

  // ----- lodash.maxBy -----

  /** `lodash.maxBy`: the first element whose key exceeds the keys of all earlier ones. */
  function MaxBy<T>(xs: seq<T>, key: T -> int): Option<T>
  {
    if xs == [] then None
    else
      match MaxBy(Init(xs), key)
      case None => Some(Last(xs))
      case Some(m) => if key(Last(xs)) > key(m) then Some(Last(xs)) else Some(m)
  }

  ghost predicate IsFirstMaximum<T>(xs: seq<T>, key: T -> int, k: int)
  {
    && 0 <= k < |xs|
    && (forall j :: 0 <= j < |xs| ==> key(xs[j]) <= key(xs[k]))
    && (forall j :: 0 <= j < k ==> key(xs[j]) < key(xs[k]))
  }

  lemma {:induction false} MaxByIsFirstMaximum<T>(xs: seq<T>, key: T -> int)
    ensures MaxBy(xs, key) == None <==> xs == []
    ensures xs != [] ==> exists k :: IsFirstMaximum(xs, key, k) && MaxBy(xs, key) == Some(xs[k])
  {
    if xs != [] {
      var init, n := Init(xs), |xs| - 1;
      MaxByIsFirstMaximum(init, key);
      if init == [] {
        assert IsFirstMaximum(xs, key, 0);
      } else {
        var k :| IsFirstMaximum(init, key, k) && MaxBy(init, key) == Some(init[k]);
        assert forall j :: 0 <= j < n ==> xs[j] == init[j];
        if key(xs[n]) > key(init[k]) {
          assert IsFirstMaximum(xs, key, n);
        } else {
          assert IsFirstMaximum(xs, key, k);
        }
      }
    }
  }

  // ----- lodash.groupBy(blogs, blog => blog.author) -----

  /** The grouped object: its keys in `Object.keys` order and the group under each key. */
  datatype Groups = Groups(keys: seq<string>, members: map<string, seq<Blog>>)

  function GroupByAuthor(blogs: seq<Blog>): Groups
  {
    if blogs == [] then Groups([], map[])
    else
      var g, b := GroupByAuthor(Init(blogs)), Last(blogs);
      if b.author in g.members then Groups(g.keys, g.members[b.author := g.members[b.author] + [b]])
      else Groups(g.keys + [b.author], g.members[b.author := [b]])
  }

  /** Reference definition: the entries written by `author`, in input order. */
  function ByAuthor(blogs: seq<Blog>, author: string): seq<Blog>
  {
    if blogs == [] then []
    else (if blogs[0].author == author then [blogs[0]] else []) + ByAuthor(blogs[1..], author)
  }

  function AuthorsOf(blogs: seq<Blog>): set<string>
  {
    set i | 0 <= i < |blogs| :: blogs[i].author
  }

  /** Index of the first entry by `author`; |blogs| when there is none. */
  function FirstAt(blogs: seq<Blog>, author: string): nat
  {
    if blogs == [] then 0
    else if blogs[0].author == author then 0
    else 1 + FirstAt(blogs[1..], author)
  }

  lemma {:induction false} ByAuthorSnoc(s: seq<Blog>, b: Blog, author: string)
    ensures ByAuthor(s + [b], author) == ByAuthor(s, author) + (if b.author == author then [b] else [])
  {
    if s == [] {
      assert s + [b] == [b];
    } else {
      var t := s + [b];
      assert t[0] == s[0];
      assert t[1..] == s[1..] + [b];
      ByAuthorSnoc(s[1..], b, author);
      var head := if s[0].author == author then [s[0]] else [];
      var tail := if b.author == author then [b] else [];
      calc {
        ByAuthor(t, author);
        head + ByAuthor(s[1..] + [b], author);
        head + (ByAuthor(s[1..], author) + tail);
        { assert head + (ByAuthor(s[1..], author) + tail) == (head + ByAuthor(s[1..], author)) + tail; }
        ByAuthor(s, author) + tail;
      }
    }
  }

  lemma AuthorsOfSnoc(s: seq<Blog>, b: Blog)
    ensures AuthorsOf(s + [b]) == AuthorsOf(s) + {b.author}
  {
    var t := s + [b];
    forall a | a in AuthorsOf(t) ensures a in AuthorsOf(s) + {b.author} {
      var i :| 0 <= i < |t| && t[i].author == a;
      if i < |s| { assert s[i] == t[i]; }
    }
    forall a | a in AuthorsOf(s) ensures a in AuthorsOf(t) {
      var i :| 0 <= i < |s| && s[i].author == a;
      assert t[i] == s[i];
    }
    assert t[|s|] == b;
  }

  lemma {:induction false} FirstAtBound(s: seq<Blog>, author: string)
    ensures FirstAt(s, author) <= |s|
    ensures FirstAt(s, author) < |s| <==> author in AuthorsOf(s)
    ensures FirstAt(s, author) < |s| ==> s[FirstAt(s, author)].author == author
  {
    if s != [] {
      FirstAtBound(s[1..], author);
      if author in AuthorsOf(s[1..]) {
        var i :| 0 <= i < |s[1..]| && s[1..][i].author == author;
        assert s[i + 1].author == author;
      }
      if author in AuthorsOf(s) && s[0].author != author {
        var i :| 0 <= i < |s| && s[i].author == author;
        assert s[1..][i - 1].author == author;
      }
    }
  }

  lemma {:induction false} FirstAtSnoc(s: seq<Blog>, b: Blog, author: string)
    ensures FirstAt(s + [b], author) ==
      if author in AuthorsOf(s) then FirstAt(s, author)
      else if b.author == author then |s| else |s| + 1
  {
    if s == [] {
      assert s + [b] == [b];
      assert [b][1..] == [];
    } else {
      assert (s + [b])[1..] == s[1..] + [b];
      FirstAtSnoc(s[1..], b, author);
      if s[0].author != author {
        assert author in AuthorsOf(s) <==> author in AuthorsOf(s[1..]) by {
          if author in AuthorsOf(s) {
            var i :| 0 <= i < |s| && s[i].author == author;
            assert s[1..][i - 1].author == author;
          }
          if author in AuthorsOf(s[1..]) {
            var i :| 0 <= i < |s[1..]| && s[1..][i].author == author;
            assert s[i + 1].author == author;
          }
        }
      } else {
        assert s[0].author in AuthorsOf(s);
      }
    }
  }

  /** The group structure lodash builds: one key per author, in order of first appearance, each holding that author's entries. */
  ghost predicate GroupsOf(blogs: seq<Blog>, g: Groups)
  {
    && (forall a :: a in g.members <==> a in AuthorsOf(blogs))
    && (forall a :: a in g.members <==> a in g.keys)
    && (forall a :: a in g.members ==> g.members[a] == ByAuthor(blogs, a))
    && (forall i, j :: 0 <= i < j < |g.keys| ==> FirstAt(blogs, g.keys[i]) < FirstAt(blogs, g.keys[j]))
  }

  lemma {:induction false} GroupByAuthorGroups(blogs: seq<Blog>)
    ensures GroupsOf(blogs, GroupByAuthor(blogs))
  {
    if blogs != [] {
      var s, b := Init(blogs), Last(blogs);
      InitLast(blogs);
      GroupByAuthorGroups(s);
      var g, g' := GroupByAuthor(s), GroupByAuthor(blogs);
      AuthorsOfSnoc(s, b);
      forall a | a in g'.members ensures g'.members[a] == ByAuthor(blogs, a) {
        ByAuthorSnoc(s, b, a);
        if a !in g.members {
          assert a == b.author;
          FirstAtBound(s, a);
          ByAuthorEmpty(s, a);
        }
      }
      forall i, j | 0 <= i < j < |g'.keys| ensures FirstAt(blogs, g'.keys[i]) < FirstAt(blogs, g'.keys[j]) {
        FirstAtSnoc(s, b, g'.keys[i]);
        FirstAtSnoc(s, b, g'.keys[j]);
        FirstAtBound(s, g'.keys[i]);
        FirstAtBound(s, g'.keys[j]);
        if j < |g.keys| {
          assert g'.keys[i] == g.keys[i] && g'.keys[j] == g.keys[j];
        } else {
          assert g'.keys[i] == g.keys[i];
          assert g.keys[i] in g.members;
        }
      }
    }
  }

  lemma {:induction false} ByAuthorEmpty(s: seq<Blog>, author: string)
    requires author !in AuthorsOf(s)
    ensures ByAuthor(s, author) == []
  {
    if s != [] {
      assert s[0].author in AuthorsOf(s);
      assert AuthorsOf(s[1..]) <= AuthorsOf(s) by {
        forall a | a in AuthorsOf(s[1..]) ensures a in AuthorsOf(s) {
          var i :| 0 <= i < |s[1..]| && s[1..][i].author == a;
          assert s[i + 1].author == a;
        }
      }
      ByAuthorEmpty(s[1..], author);
    }
  }

  // ----- mostBlogs -----

  datatype AuthorBlogs = AuthorBlogs(author: string, blogs: int)

  /** The key maxBy ranks authors by in mostBlogs: the number of entries grouped under the author. */
  function GroupSize(g: Groups): string -> int
  {
    a => if a in g.members then |g.members[a]| else 0
  }

  /** mostBlogs exactly as written: an empty-string winner is falsy and yields `{}`. */
  function MostBlogsAsWritten(blogs: seq<Blog>): Option<AuthorBlogs>
  {
    var g := GroupByAuthor(blogs);
    var best := MaxBy(g.keys, GroupSize(g));
    if best.Some? && best.value != "" then Some(AuthorBlogs(best.value, GroupSize(g)(best.value))) else None
  }

  /** mostBlogs as intended: `{}` only when there is no author at all. */
  function MostBlogs(blogs: seq<Blog>): Option<AuthorBlogs>
  {
    var g := GroupByAuthor(blogs);
    match MaxBy(g.keys, GroupSize(g))
    case None => None
    case Some(a) => Some(AuthorBlogs(a, GroupSize(g)(a)))
  }

  /** Keys listed in order of first appearance. */
  lemma KeyOrder(blogs: seq<Blog>, g: Groups, i: int, j: int)
    requires GroupsOf(blogs, g)
    requires 0 <= i < |g.keys| && 0 <= j < |g.keys|
    requires FirstAt(blogs, g.keys[i]) < FirstAt(blogs, g.keys[j])
    ensures i < j
  {
  }

  lemma NonEmptyHasKeys(blogs: seq<Blog>, g: Groups)
    requires GroupsOf(blogs, g) && blogs != []
    ensures g.keys != []
  {
    assert blogs[0].author in AuthorsOf(blogs);
    assert blogs[0].author in g.keys;
  }

  /**
   * mostBlogs is `{}` exactly for no blogs; otherwise it names an author of
   * the input with that author's entry count, no author has more entries,
   * and every author appearing earlier has strictly fewer.
   */
  lemma {:induction false} MostBlogsIsMaximum(blogs: seq<Blog>)
    ensures MostBlogs(blogs) == None <==> blogs == []
    ensures MostBlogs(blogs).Some? ==>
      var r := MostBlogs(blogs).value;
      && r.author in AuthorsOf(blogs)
      && r.blogs == |ByAuthor(blogs, r.author)|
      && (forall i :: 0 <= i < |blogs| ==> |ByAuthor(blogs, blogs[i].author)| <= r.blogs)
      && (forall i :: 0 <= i < |blogs| && FirstAt(blogs, blogs[i].author) < FirstAt(blogs, r.author) ==>
            |ByAuthor(blogs, blogs[i].author)| < r.blogs)
  {
    var g := GroupByAuthor(blogs);
    GroupByAuthorGroups(blogs);
    MaxByIsFirstMaximum(g.keys, GroupSize(g));
    if blogs == [] {
      assert g.keys == [];
    } else {
      NonEmptyHasKeys(blogs, g);
      var k :| IsFirstMaximum(g.keys, GroupSize(g), k) && MaxBy(g.keys, GroupSize(g)) == Some(g.keys[k]);
      var r := MostBlogs(blogs).value;
      assert r.author == g.keys[k] && r.author in g.members;
      forall i | 0 <= i < |blogs|
        ensures |ByAuthor(blogs, blogs[i].author)| <= r.blogs
        ensures FirstAt(blogs, blogs[i].author) < FirstAt(blogs, r.author) ==> |ByAuthor(blogs, blogs[i].author)| < r.blogs
      {
        GroupBeaten(blogs, g, k, i);
      }
    }
  }

  /** The author of any entry has no more entries than the first maximal key, and strictly fewer when it appears earlier. */
  lemma GroupBeaten(blogs: seq<Blog>, g: Groups, k: int, i: int)
    requires GroupsOf(blogs, g) && IsFirstMaximum(g.keys, GroupSize(g), k) && 0 <= i < |blogs|
    ensures |ByAuthor(blogs, blogs[i].author)| <= GroupSize(g)(g.keys[k])
    ensures FirstAt(blogs, blogs[i].author) < FirstAt(blogs, g.keys[k]) ==>
      |ByAuthor(blogs, blogs[i].author)| < GroupSize(g)(g.keys[k])
  {
    var a := blogs[i].author;
    assert a in AuthorsOf(blogs);
    assert a in g.keys;
    var j :| 0 <= j < |g.keys| && g.keys[j] == a;
    assert GroupSize(g)(g.keys[j]) <= GroupSize(g)(g.keys[k]);
    if FirstAt(blogs, a) < FirstAt(blogs, g.keys[k]) {
      KeyOrder(blogs, g, j, k);
    }
  }

  /** The code as written returns `{}` for a non-empty input whose winning author is the empty string. */
  lemma MostBlogsAsWrittenDropsEmptyAuthor()
    ensures MostBlogsAsWritten([Blog("Untitled", "", 1)]) == None
    ensures MostBlogs([Blog("Untitled", "", 1)]) == Some(AuthorBlogs("", 1))
  {
    var blogs := [Blog("Untitled", "", 1)];
    assert Init(blogs) == [];
    var g := GroupByAuthor(blogs);
    assert g == Groups([""], map["" := blogs]);
    assert Init(g.keys) == [];
  }

  /** Apart from an empty-string winner, the code as written agrees with the intended mostBlogs. */
  lemma MostBlogsAsWrittenAgrees(blogs: seq<Blog>)
    ensures MostBlogsAsWritten(blogs) ==
      if MostBlogs(blogs).Some? && MostBlogs(blogs).value.author == "" then None else MostBlogs(blogs)
  {
  }

  // ----- mostLikes -----

  datatype AuthorLikes = AuthorLikes(author: string, likes: int)

  /** The inner `reduce` over one author's group: the same sum as totalLikes. */
  function GroupLikes(g: Groups, author: string): int
  {
    if author in g.members then TotalLikes(g.members[author]) else 0
  }

  /** The mapping step of mostLikes: for each group key in order, the author with the sum of its group's likes. */
  function AuthorTotals(g: Groups): (r: seq<AuthorLikes>)
    ensures |r| == |g.keys|
    ensures forall i :: 0 <= i < |r| ==> r[i] == AuthorLikes(g.keys[i], GroupLikes(g, g.keys[i]))
  {
    seq(|g.keys|, i requires 0 <= i < |g.keys| => AuthorLikes(g.keys[i], GroupLikes(g, g.keys[i])))
  }

  /**
   * Each mapped record names an input author and carries the sum of that
   * author's likes; every input author has a record, and the records come
   * in order of the authors' first appearance (so no author twice).
   */
  lemma {:induction false} AuthorTotalsAreSums(blogs: seq<Blog>)
    ensures var r := AuthorTotals(GroupByAuthor(blogs));
      && (forall i :: 0 <= i < |r| ==>
            r[i].author in AuthorsOf(blogs) && r[i].likes == SumOfLikes(ByAuthor(blogs, r[i].author)))
      && (forall a :: a in AuthorsOf(blogs) ==> exists i :: 0 <= i < |r| && r[i].author == a)
      && (forall i, j :: 0 <= i < j < |r| ==> FirstAt(blogs, r[i].author) < FirstAt(blogs, r[j].author))
  {
    var g := GroupByAuthor(blogs);
    GroupByAuthorGroups(blogs);
    var r := AuthorTotals(g);
    forall i | 0 <= i < |r|
      ensures r[i].author in AuthorsOf(blogs) && r[i].likes == SumOfLikes(ByAuthor(blogs, r[i].author))
    {
      assert g.keys[i] in g.members;
      TotalLikesIsSum(ByAuthor(blogs, g.keys[i]));
    }
    forall a | a in AuthorsOf(blogs) ensures exists i :: 0 <= i < |r| && r[i].author == a {
      assert a in g.keys;
      var i :| 0 <= i < |g.keys| && g.keys[i] == a;
      assert r[i].author == a;
    }
  }

  function LikesOf(x: AuthorLikes): int
  {
    x.likes
  }

  function MostLikes(blogs: seq<Blog>): Option<AuthorLikes>
  {
    if |blogs| == 0 then None
    else
      var g := GroupByAuthor(blogs);
      MaxBy(AuthorTotals(g), LikesOf)
  }

  /**
   * mostLikes is `{}` exactly for no blogs; otherwise it names an author of
   * the input with that author's summed likes, no author's sum is larger,
   * and every author appearing earlier has a strictly smaller sum.
   */
  lemma {:induction false} MostLikesIsMaximum(blogs: seq<Blog>)
    ensures MostLikes(blogs) == None <==> blogs == []
    ensures MostLikes(blogs).Some? ==>
      var r := MostLikes(blogs).value;
      && r.author in AuthorsOf(blogs)
      && r.likes == TotalLikes(ByAuthor(blogs, r.author))
      && (forall i :: 0 <= i < |blogs| ==> TotalLikes(ByAuthor(blogs, blogs[i].author)) <= r.likes)
      && (forall i :: 0 <= i < |blogs| && FirstAt(blogs, blogs[i].author) < FirstAt(blogs, r.author) ==>
            TotalLikes(ByAuthor(blogs, blogs[i].author)) < r.likes)
  {
    if blogs != [] {
      var g := GroupByAuthor(blogs);
      GroupByAuthorGroups(blogs);
      NonEmptyHasKeys(blogs, g);
      var totals := AuthorTotals(g);
      MaxByIsFirstMaximum(totals, LikesOf);
      var k :| IsFirstMaximum(totals, LikesOf, k) && MaxBy(totals, LikesOf) == Some(totals[k]);
      var r := MostLikes(blogs).value;
      assert r == totals[k];
      assert r.author == g.keys[k] && r.author in g.members;
      forall i | 0 <= i < |blogs|
        ensures TotalLikes(ByAuthor(blogs, blogs[i].author)) <= r.likes
        ensures FirstAt(blogs, blogs[i].author) < FirstAt(blogs, r.author) ==> TotalLikes(ByAuthor(blogs, blogs[i].author)) < r.likes
      {
        AuthorBeaten(blogs, g, k, i);
      }
    }
  }

  /** The author of any entry has a total no larger than the first maximal record's, and strictly smaller when it appears earlier. */
  lemma AuthorBeaten(blogs: seq<Blog>, g: Groups, k: int, i: int)
    requires GroupsOf(blogs, g) && IsFirstMaximum(AuthorTotals(g), LikesOf, k) && 0 <= i < |blogs|
    ensures TotalLikes(ByAuthor(blogs, blogs[i].author)) <= AuthorTotals(g)[k].likes
    ensures FirstAt(blogs, blogs[i].author) < FirstAt(blogs, AuthorTotals(g)[k].author) ==>
      TotalLikes(ByAuthor(blogs, blogs[i].author)) < AuthorTotals(g)[k].likes
  {
    var totals := AuthorTotals(g);
    var a := blogs[i].author;
    assert a in AuthorsOf(blogs);
    assert a in g.keys;
    var j :| 0 <= j < |g.keys| && g.keys[j] == a;
    assert LikesOf(totals[j]) <= LikesOf(totals[k]);
    assert totals[k].author == g.keys[k];
    if FirstAt(blogs, a) < FirstAt(blogs, g.keys[k]) {
      KeyOrder(blogs, g, j, k);
    }
  }
}
