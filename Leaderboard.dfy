/**
 * The leaderboard of a challenge's detail page: the posts' upvotes are
 * summed per author into a score table, the table's entries are given a
 * display name and sorted by points, highest first, with a stable sort.
 * Also the user-name table the page builds from the fetched profiles.
 */
module Leaderboard {
  import opened Wrappers

  type UserId = string
  type PostId = string

  /** A post row; `upvotes` is `None` where the column is null. */
  datatype Post = Post(
    id: PostId,
    challengeId: string,
    userId: UserId,
    content: string,
    mediaUrl: Option<string>,
    upvotes: Option<int>)

  /** `post.upvotes || 0`: a missing count counts as zero. */
  function Upvotes(p: Post): (r: int)
    ensures p.upvotes.Some? ==> r == p.upvotes.value
    ensures r == 0 <==> p.upvotes.None? || p.upvotes.value == 0
  {
    p.upvotes.GetOr(0)
  }

  /** One row of the leaderboard. */
  datatype Entry = Entry(userId: UserId, points: int, username: string)

  // ---------------------------------------------------------------------
  // Reference definitions, by recursion on the posts seen so far (the order
  // in which `posts.forEach` visits them).

  predicate IsAuthor(posts: seq<Post>, u: UserId) {
    exists i :: 0 <= i < |posts| && posts[i].userId == u
  }

  /** The sum of the upvotes of `u`'s posts. */
  function PointsOf(posts: seq<Post>, u: UserId): int {
    if posts == [] then 0
    else
      var last := posts[|posts| - 1];
      PointsOf(posts[..|posts| - 1], u) + (if last.userId == u then Upvotes(last) else 0)
  }

  /** The sum of the upvotes of all posts. */
  function TotalUpvotes(posts: seq<Post>): int {
    if posts == [] then 0 else TotalUpvotes(posts[..|posts| - 1]) + Upvotes(posts[|posts| - 1])
  }

  /** The authors in the order in which each first appears. */
  function Authors(posts: seq<Post>): seq<UserId> {
    if posts == [] then []
    else
      var earlier := Authors(posts[..|posts| - 1]);
      var u := posts[|posts| - 1].userId;
      if u in earlier then earlier else earlier + [u]
  }

  /** The index of `u`'s first post; `|posts|` when `u` has none. */
  function FirstIndex(posts: seq<Post>, u: UserId): (k: nat)
    ensures k <= |posts|
    ensures k < |posts| ==> posts[k].userId == u
    ensures forall j :: 0 <= j < k && j < |posts| ==> posts[j].userId != u
    ensures k < |posts| <==> IsAuthor(posts, u)
  {
    if posts == [] then 0
    else
      var init := posts[..|posts| - 1];
      var k := FirstIndex(init, u);
      if k < |init| then k
      else if posts[|posts| - 1].userId == u then |init|
      else
        assert forall j :: 0 <= j < |posts| ==> posts[j].userId != u by {
          forall j | 0 <= j < |posts| ensures posts[j].userId != u {
            if j < |init| { assert posts[j] == init[j]; }
          }
        }
        |posts|
  }

  predicate NoDuplicates(ids: seq<UserId>) {
    forall i, j :: 0 <= i < j < |ids| ==> ids[i] != ids[j]
  }

  /** Authorship of a list extended by one post. */
  lemma IsAuthorSnoc(init: seq<Post>, last: Post, u: UserId)
    ensures IsAuthor(init + [last], u) <==> IsAuthor(init, u) || u == last.userId
  {
    var posts := init + [last];
    if IsAuthor(init, u) {
      var i :| 0 <= i < |init| && init[i].userId == u;
      assert posts[i] == init[i];
    }
    if u == last.userId {
      assert posts[|init|] == last;
    }
  }

  /** `Authors` lists every author once, nobody else, in order of first
      appearance. */
  lemma {:induction false} AuthorsSpec(posts: seq<Post>)
    ensures forall u :: u in Authors(posts) <==> IsAuthor(posts, u)
    ensures NoDuplicates(Authors(posts))
    ensures forall i, j :: 0 <= i < j < |Authors(posts)| ==>
      FirstIndex(posts, Authors(posts)[i]) < FirstIndex(posts, Authors(posts)[j])
  {
    if posts != [] {
      var init := posts[..|posts| - 1];
      var last := posts[|posts| - 1];
      assert posts == init + [last];
      AuthorsSpec(init);
      forall u ensures IsAuthor(posts, u) <==> IsAuthor(init, u) || u == last.userId {
        IsAuthorSnoc(init, last, u);
      }
      var a := Authors(init);
      if last.userId !in a {
        assert FirstIndex(posts, last.userId) == |init|;
        forall i | 0 <= i < |a| ensures FirstIndex(posts, a[i]) < |init| {
          assert FirstIndex(posts, a[i]) == FirstIndex(init, a[i]);
        }
      }
    }
  }

  /** Someone who is not an author has no points. */
  lemma {:induction false} NonAuthorHasNoPoints(posts: seq<Post>, u: UserId)
    requires !IsAuthor(posts, u)
    ensures PointsOf(posts, u) == 0
  {
    if posts != [] {
      var init := posts[..|posts| - 1];
      assert posts == init + [posts[|posts| - 1]];
      IsAuthorSnoc(init, posts[|posts| - 1], u);
      NonAuthorHasNoPoints(init, u);
    }
  }

  /** The score table that the leaderboard effect's `posts.forEach` loop fills in. */
  function ScoreMap(posts: seq<Post>): map<UserId, int> {
    map u | u in Authors(posts) :: PointsOf(posts, u)
  }

  /** `userMap[id] || id`: the mapped name unless it is missing or empty;
      so the name shown is the id or a non-empty mapped name, and it is
      empty only for an empty id. */
  function DisplayName(userMap: map<UserId, string>, u: UserId): (r: string)
    ensures r == u || (u in userMap && r == userMap[u] && r != "")
    ensures u in userMap && userMap[u] != "" ==> r == userMap[u]
    ensures r == "" ==> u == ""
  {
    if u in userMap && userMap[u] != "" then userMap[u] else u
  }

  /** `Object.entries(scores).map(...)`: one entry per key, in key order. */
  function Tally(ids: seq<UserId>, scores: map<UserId, int>, userMap: map<UserId, string>): (r: seq<Entry>)
    requires forall u :: u in ids ==> u in scores
    ensures |r| == |ids|
    ensures forall i :: 0 <= i < |ids| ==>
      r[i] == Entry(ids[i], scores[ids[i]], DisplayName(userMap, ids[i]))
  {
    if ids == [] then []
    else [Entry(ids[0], scores[ids[0]], DisplayName(userMap, ids[0]))] + Tally(ids[1..], scores, userMap)
  }

  // ---------------------------------------------------------------------
  // The stable sort by points, highest first.

  /** Insert `e` before the first entry with no more points than it has:
      ahead of its ties, which come later in the input. */
  function InsertByPoints(e: Entry, s: seq<Entry>): (r: seq<Entry>)
    ensures multiset(r) == multiset(s) + multiset{e}
  {
    if s == [] then [e]
    else if e.points >= s[0].points then [e] + s
    else
      assert s == [s[0]] + s[1..];
      [s[0]] + InsertByPoints(e, s[1..])
  }

  /** `.sort((a, b) => b.points - a.points)`. The browser's sort is stable,
      and a stable sort's output is fixed by the order of its input, so
      insertion sort gives the same result. */
  function SortByPoints(s: seq<Entry>): (r: seq<Entry>)
    ensures multiset(r) == multiset(s)
  {
    if s == [] then []
    else
      assert s == [s[0]] + s[1..];
      InsertByPoints(s[0], SortByPoints(s[1..]))
  }

  /** The leaderboard the page computes from its posts and name table. */
  function Board(posts: seq<Post>, userMap: map<UserId, string>): seq<Entry> {
    SortByPoints(Tally(Authors(posts), ScoreMap(posts), userMap))
  }

  /** `a` is ranked above `b`: more points, or as many points and a first
      post earlier in `posts`. */
  predicate RankedAbove(posts: seq<Post>, a: Entry, b: Entry) {
    a.points > b.points
    || (a.points == b.points && FirstIndex(posts, a.userId) < FirstIndex(posts, b.userId))
  }

  predicate Ranked(posts: seq<Post>, s: seq<Entry>) {
    forall i, j :: 0 <= i < j < |s| ==> RankedAbove(posts, s[i], s[j])
  }

  lemma RankedCons(posts: seq<Post>, e: Entry, s: seq<Entry>)
    requires Ranked(posts, s)
    requires forall x :: x in s ==> RankedAbove(posts, e, x)
    ensures Ranked(posts, [e] + s)
  {
    var r := [e] + s;
    forall i, j | 0 <= i < j < |r| ensures RankedAbove(posts, r[i], r[j]) {
      assert r[j] == s[j - 1];
      if i > 0 { assert r[i] == s[i - 1]; }
    }
  }

  lemma {:induction false} InsertRanked(posts: seq<Post>, e: Entry, s: seq<Entry>)
    requires Ranked(posts, s)
    requires forall x :: x in s ==> FirstIndex(posts, e.userId) < FirstIndex(posts, x.userId)
    ensures Ranked(posts, InsertByPoints(e, s))
  {
    if s == [] {
    } else if e.points >= s[0].points {
      forall x | x in s ensures RankedAbove(posts, e, x) {
        var k :| 0 <= k < |s| && s[k] == x;
        if k > 0 { assert RankedAbove(posts, s[0], s[k]); }
      }
      RankedCons(posts, e, s);
    } else {
      var rest := InsertByPoints(e, s[1..]);
      InsertRanked(posts, e, s[1..]);
      forall x | x in rest ensures RankedAbove(posts, s[0], x) {
        assert x in multiset(rest);
        if x != e {
          var k :| 0 <= k < |s[1..]| && s[1..][k] == x;
          assert s[k + 1] == x;
        }
      }
      RankedCons(posts, s[0], rest);
    }
  }

  /** Sorting entries listed in order of first appearance ranks them. */
  lemma {:induction false} SortRanked(posts: seq<Post>, s: seq<Entry>)
    requires forall i, j :: 0 <= i < j < |s| ==> FirstIndex(posts, s[i].userId) < FirstIndex(posts, s[j].userId)
    ensures Ranked(posts, SortByPoints(s))
  {
    if s != [] {
      SortRanked(posts, s[1..]);
      var rest := SortByPoints(s[1..]);
      forall x | x in rest ensures FirstIndex(posts, s[0].userId) < FirstIndex(posts, x.userId) {
        assert x in multiset(s[1..]);
        var k :| 0 <= k < |s[1..]| && s[1..][k] == x;
        assert s[k + 1] == x;
      }
      InsertRanked(posts, s[0], rest);
    }
  }

  function SumPoints(s: seq<Entry>): int {
    if s == [] then 0 else s[0].points + SumPoints(s[1..])
  }

  lemma {:induction false} SumPointsInsert(e: Entry, s: seq<Entry>)
    ensures SumPoints(InsertByPoints(e, s)) == e.points + SumPoints(s)
  {
    if s != [] && e.points < s[0].points {
      SumPointsInsert(e, s[1..]);
    }
  }

  lemma {:induction false} SumPointsSort(s: seq<Entry>)
    ensures SumPoints(SortByPoints(s)) == SumPoints(s)
  {
    if s != [] {
      SumPointsSort(s[1..]);
      SumPointsInsert(s[0], SortByPoints(s[1..]));
    }
  }

  /** The points of a list of users, summed. */
  function SumOver(ids: seq<UserId>, posts: seq<Post>): int {
    if ids == [] then 0 else PointsOf(posts, ids[0]) + SumOver(ids[1..], posts)
  }

  lemma {:induction false} SumOverAppend(ids: seq<UserId>, u: UserId, posts: seq<Post>)
    ensures SumOver(ids + [u], posts) == SumOver(ids, posts) + PointsOf(posts, u)
  {
    if ids != [] {
      assert (ids + [u])[1..] == ids[1..] + [u];
      SumOverAppend(ids[1..], u, posts);
    }
  }

  /** Adding one post adds its upvotes to the sum over a list of distinct
      users exactly when its author is in the list. */
  lemma {:induction false} SumOverExtend(ids: seq<UserId>, posts: seq<Post>, p: Post)
    requires NoDuplicates(ids)
    ensures SumOver(ids, posts + [p]) == SumOver(ids, posts) + (if p.userId in ids then Upvotes(p) else 0)
  {
    if ids != [] {
      assert (posts + [p])[..|posts|] == posts;
      assert NoDuplicates(ids[1..]) by {
        forall i, j | 0 <= i < j < |ids[1..]| ensures ids[1..][i] != ids[1..][j] {
          assert ids[1..][i] == ids[i + 1] && ids[1..][j] == ids[j + 1];
        }
      }
      SumOverExtend(ids[1..], posts, p);
      assert ids[0] == p.userId ==> p.userId !in ids[1..];
      assert ids == [ids[0]] + ids[1..];
    }
  }

  /** Summing every author's points gives the total of all upvotes. */
  lemma {:induction false} SumOverAuthors(posts: seq<Post>)
    ensures SumOver(Authors(posts), posts) == TotalUpvotes(posts)
  {
    if posts != [] {
      var init := posts[..|posts| - 1];
      var last := posts[|posts| - 1];
      assert posts == init + [last];
      SumOverAuthors(init);
      AuthorsSpec(init);
      var a := Authors(init);
      SumOverExtend(a, init, last);
      if last.userId !in a {
        SumOverAppend(a, last.userId, posts);
        NonAuthorHasNoPoints(init, last.userId);
      }
    }
  }

  lemma {:induction false} SumPointsTally(ids: seq<UserId>, posts: seq<Post>, userMap: map<UserId, string>)
    requires forall u :: u in ids ==> u in ScoreMap(posts)
    ensures SumPoints(Tally(ids, ScoreMap(posts), userMap)) == SumOver(ids, posts)
  {
    if ids != [] {
      SumPointsTally(ids[1..], posts, userMap);
    }
  }

  // ---------------------------------------------------------------------
  // What the leaderboard promises.

  /** Every entry of the leaderboard is an author's tally row, and every
      author's tally row is on it. */
  lemma BoardMembers(posts: seq<Post>, userMap: map<UserId, string>)
    ensures forall x :: x in Board(posts, userMap) <==>
      x in Tally(Authors(posts), ScoreMap(posts), userMap)
  {
    var t := Tally(Authors(posts), ScoreMap(posts), userMap);
    var b := Board(posts, userMap);
    forall x ensures x in b <==> x in t {
      assert x in b <==> x in multiset(b);
      assert x in t <==> x in multiset(t);
    }
  }

  /** Each entry carries its user's summed upvotes and display name, and
      the users on the leaderboard are exactly the authors. */
  lemma BoardEntries(posts: seq<Post>, userMap: map<UserId, string>)
    ensures var b := Board(posts, userMap);
      && (forall i :: 0 <= i < |b| ==>
            b[i].points == PointsOf(posts, b[i].userId)
            && b[i].username == DisplayName(userMap, b[i].userId))
      && (forall u :: IsAuthor(posts, u) <==> exists i :: 0 <= i < |b| && b[i].userId == u)
  {
    var a := Authors(posts);
    AuthorsSpec(posts);
    var t := Tally(a, ScoreMap(posts), userMap);
    var b := Board(posts, userMap);
    BoardMembers(posts, userMap);
    forall i | 0 <= i < |b|
      ensures b[i].points == PointsOf(posts, b[i].userId)
      ensures b[i].username == DisplayName(userMap, b[i].userId)
      ensures b[i].userId in a
    {
      assert b[i] in t;
    }
    forall u | IsAuthor(posts, u) ensures exists i :: 0 <= i < |b| && b[i].userId == u {
      var k :| 0 <= k < |a| && a[k] == u;
      assert t[k] in b;
    }
  }

  /** The leaderboard runs from most to fewest points, ties in the order
      authors first appear in the fetched list (newest first), and names no
      user twice. */
  lemma BoardOrder(posts: seq<Post>, userMap: map<UserId, string>)
    ensures var b := Board(posts, userMap);
      && Ranked(posts, b)
      && (forall i, j :: 0 <= i < j < |b| ==> b[i].points >= b[j].points)
      && (forall i, j :: 0 <= i < j < |b| ==> b[i].userId != b[j].userId)
  {
    AuthorsSpec(posts);
    var b := Board(posts, userMap);
    SortRanked(posts, Tally(Authors(posts), ScoreMap(posts), userMap));
    BoardEntries(posts, userMap);
    forall i, j | 0 <= i < j < |b| ensures b[i].points >= b[j].points && b[i].userId != b[j].userId {
      assert RankedAbove(posts, b[i], b[j]);
    }
  }

  /** The points on the leaderboard add up to all upvotes of all posts. */
  lemma BoardTotal(posts: seq<Post>, userMap: map<UserId, string>)
    ensures SumPoints(Board(posts, userMap)) == TotalUpvotes(posts)
  {
    AuthorsSpec(posts);
    SumPointsSort(Tally(Authors(posts), ScoreMap(posts), userMap));
    SumPointsTally(Authors(posts), posts, userMap);
    SumOverAuthors(posts);
  }

  /** The leaderboard is empty exactly when there are no posts. */
  lemma BoardEmpty(posts: seq<Post>, userMap: map<UserId, string>)
    ensures Board(posts, userMap) == [] <==> posts == []
  {
    BoardEntries(posts, userMap);
    if posts != [] {
      assert IsAuthor(posts, posts[0].userId);
    }
  }

  /** The three posts of the example below. */
  function ExamplePosts(): seq<Post> {
    [Post("p1", "c", "a", "", None, Some(3)),
     Post("p2", "c", "b", "", None, Some(5)),
     Post("p3", "c", "a", "", None, Some(1))]
  }

  lemma ExampleAuthors()
    ensures Authors(ExamplePosts()) == ["a", "b"]
  {
    var posts := ExamplePosts();
    assert posts[..2][..1] == posts[..1] && posts[..1][..0] == [];
    assert Authors(posts[..1]) == ["a"];
    assert Authors(posts[..2]) == ["a", "b"];
  }

  lemma ExamplePoints()
    ensures PointsOf(ExamplePosts(), "a") == 4 && PointsOf(ExamplePosts(), "b") == 5
  {
    var posts := ExamplePosts();
    assert posts[..2][..1] == posts[..1] && posts[..1][..0] == [];
    assert PointsOf(posts[..1], "a") == 3 && PointsOf(posts[..1], "b") == 0;
    assert PointsOf(posts[..2], "a") == 3 && PointsOf(posts[..2], "b") == 5;
  }

  /** Posts by a (3 upvotes), b (5) and a (1): b leads with 5, a follows
      with 4. */
  lemma TwoAuthorsExample()
    ensures Board(ExamplePosts(), map[]) == [Entry("b", 5, "b"), Entry("a", 4, "a")]
  {
    ExampleAuthors();
    ExamplePoints();
    var t := Tally(["a", "b"], ScoreMap(ExamplePosts()), map[]);
    assert t == [Entry("a", 4, "a"), Entry("b", 5, "b")];
    assert SortByPoints(t[1..]) == [Entry("b", 5, "b")];
  }

  // ---------------------------------------------------------------------
  // The leaderboard effect.

  /** Somebody missing from the author list has no points. */
  lemma UnlistedHasNoPoints(posts: seq<Post>, u: UserId)
    requires u !in Authors(posts)
    ensures PointsOf(posts, u) == 0
  {
    AuthorsSpec(posts);
    NonAuthorHasNoPoints(posts, u);
  }

  /** How one more post changes the author list. */
  lemma AuthorsSnoc(seen: seq<Post>, post: Post)
    ensures var a := Authors(seen);
      Authors(seen + [post]) == if post.userId in a then a else a + [post.userId]
  {
    assert (seen + [post])[..|seen|] == seen;
  }

  /** How one more post changes the score table. */
  lemma ScoreMapSnoc(seen: seq<Post>, post: Post)
    ensures var sm := ScoreMap(seen);
      ScoreMap(seen + [post])
        == sm[post.userId := (if post.userId in sm then sm[post.userId] else 0) + Upvotes(post)]
  {
    var posts := seen + [post];
    assert posts[..|seen|] == seen;
    AuthorsSnoc(seen, post);
    var sm, sm' := ScoreMap(seen), ScoreMap(posts);
    var u := post.userId;
    var rhs := sm[u := (if u in sm then sm[u] else 0) + Upvotes(post)];
    assert sm'.Keys == rhs.Keys;
    forall v | v in sm' ensures sm'[v] == rhs[v] {
      assert sm'[v] == PointsOf(seen, v) + (if u == v then Upvotes(post) else 0);
      if u !in sm {
        UnlistedHasNoPoints(seen, u);
      }
    }
  }

  /** The leaderboard effect's `posts.forEach` loop. `ids` records the order in
      which keys enter `scores`, which is the order of `Object.entries` for
      keys that do not look like array indices. */
  method ComputeScores(posts: seq<Post>) returns (ids: seq<UserId>, scores: map<UserId, int>)
    ensures ids == Authors(posts)
    ensures scores == ScoreMap(posts)
  {
    ids, scores := [], map[];
    var i := 0;
    while i < |posts|
      invariant 0 <= i <= |posts|
      invariant ids == Authors(posts[..i])
      invariant scores == ScoreMap(posts[..i])
    {
      var post := posts[i];
      assert posts[..i + 1] == posts[..i] + [post];
      AuthorsSnoc(posts[..i], post);
      ScoreMapSnoc(posts[..i], post);
      ghost var prev := scores;
      ghost var base := if post.userId in prev then prev[post.userId] else 0;
      // `if (!scores[post.user_id]) scores[post.user_id] = 0;`
      if !(post.userId in scores && scores[post.userId] != 0) {
        if post.userId !in scores {
          ids := ids + [post.userId];
        }
        scores := scores[post.userId := 0];
      }
      assert scores == prev[post.userId := base];
      scores := scores[post.userId := scores[post.userId] + Upvotes(post)];
      UpdateTwice(prev, post.userId, base, base + Upvotes(post));
      i := i + 1;
    }
    assert posts[..i] == posts;
  }

  /** A second update of the same key overrides the first. */
  lemma UpdateTwice<K, V>(m: map<K, V>, k: K, a: V, b: V)
    ensures m[k := a][k := b] == m[k := b]
  {
  }

  /** The whole effect: score, name and sort. */
  method ComputeLeaderboard(posts: seq<Post>, userMap: map<UserId, string>) returns (board: seq<Entry>)
    ensures board == Board(posts, userMap)
  {
    var ids, scores := ComputeScores(posts);
    var entries := Tally(ids, scores, userMap);
    board := SortByPoints(entries);
  }

  // ---------------------------------------------------------------------
  // The user-name table built from the fetched profiles.

  /** A profile row; the page selects `id,username`, so `email` is
      normally absent. */
  datatype Profile = Profile(id: UserId, username: Option<string>, email: Option<string>)

  /** `profile.username || profile.email || profile.id`: the first of the
      three that is present and non-empty, so one of them, and empty only
      for an empty id. */
  function ProfileName(p: Profile): (r: string)
    ensures p.username.Some? && p.username.value != "" ==> r == p.username.value
    ensures (p.username.None? || p.username.value == "") && p.email.Some? && p.email.value != ""
      ==> r == p.email.value
    ensures (p.username.None? || p.username.value == "") && (p.email.None? || p.email.value == "")
      ==> r == p.id
    ensures r == p.id || (p.username.Some? && r == p.username.value && r != "")
      || (p.email.Some? && r == p.email.value && r != "")
    ensures r == "" ==> p.id == ""
  {
    if p.username.Some? && p.username.value != "" then p.username.value
    else if p.email.Some? && p.email.value != "" then p.email.value
    else p.id
  }

  /** The table after the `forEach` has seen `profiles`: later profiles
      overwrite earlier ones with the same id. */
  function UserMapOf(profiles: seq<Profile>): map<UserId, string> {
    if profiles == [] then map[]
    else
      var last := profiles[|profiles| - 1];
      UserMapOf(profiles[..|profiles| - 1])[last.id := ProfileName(last)]
  }

  method BuildUserMap(profiles: seq<Profile>) returns (m: map<UserId, string>)
    ensures m == UserMapOf(profiles)
  {
    m := map[];
    var i := 0;
    while i < |profiles|
      invariant 0 <= i <= |profiles|
      invariant m == UserMapOf(profiles[..i])
    {
      assert profiles[..i + 1][..i] == profiles[..i];
      m := m[profiles[i].id := ProfileName(profiles[i])];
      i := i + 1;
    }
    assert profiles[..i] == profiles;
  }

  predicate HasProfile(profiles: seq<Profile>, u: UserId) {
    exists i :: 0 <= i < |profiles| && profiles[i].id == u
  }

  /** `profiles[i]` is the last profile with its id. */
  predicate IsLastFor(profiles: seq<Profile>, i: int) {
    0 <= i < |profiles| && forall j :: i < j < |profiles| ==> profiles[j].id != profiles[i].id
  }

  /** Authorship of profiles extended by one. */
  lemma HasProfileSnoc(init: seq<Profile>, last: Profile, u: UserId)
    ensures HasProfile(init + [last], u) <==> HasProfile(init, u) || u == last.id
  {
    var profiles := init + [last];
    if HasProfile(init, u) {
      var i :| 0 <= i < |init| && init[i].id == u;
      assert profiles[i] == init[i];
    }
    if u == last.id {
      assert profiles[|init|] == last;
    }
  }

  /** The table names exactly the ids that have a profile. */
  lemma {:induction false} UserMapKeys(profiles: seq<Profile>)
    ensures forall u :: u in UserMapOf(profiles) <==> HasProfile(profiles, u)
  {
    if profiles != [] {
      var init := profiles[..|profiles| - 1];
      var last := profiles[|profiles| - 1];
      assert profiles == init + [last];
      UserMapKeys(init);
      forall u ensures HasProfile(profiles, u) <==> HasProfile(init, u) || u == last.id {
        HasProfileSnoc(init, last, u);
      }
    }
  }

  /** Each id is mapped to the fallback name of its last profile. */
  lemma {:induction false} UserMapLastWins(profiles: seq<Profile>)
    ensures forall i :: IsLastFor(profiles, i) ==>
      profiles[i].id in UserMapOf(profiles) && UserMapOf(profiles)[profiles[i].id] == ProfileName(profiles[i])
  {
    if profiles != [] {
      var init := profiles[..|profiles| - 1];
      UserMapLastWins(init);
      forall i | IsLastFor(profiles, i) && i < |init|
        ensures IsLastFor(init, i) && profiles[i] == init[i]
      {
      }
    }
  }

  /** The name a leaderboard row or a post shows for `u`: the fallback
      name of `u`'s last profile (username, else email, else id), and the
      id itself when `u` has no profile. */
  lemma DisplayNameFallback(profiles: seq<Profile>, u: UserId)
    ensures !HasProfile(profiles, u) ==> DisplayName(UserMapOf(profiles), u) == u
    ensures forall i :: IsLastFor(profiles, i) && profiles[i].id == u ==>
      DisplayName(UserMapOf(profiles), u) == ProfileName(profiles[i])
  {
    UserMapKeys(profiles);
    UserMapLastWins(profiles);
  }
}
