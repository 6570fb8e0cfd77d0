/**
 * A challenge's detail page: the posts, the form that adds a post (with an
 * optional media upload), the upvote button and its duplicate check, the
 * delete button, the media-type decision, and the wiring of the fetched
 * posts and profiles into the leaderboard. Backend calls are replaced by
 * their outcomes, passed in as parameters.
 */
module ChallengeDetails {
  import opened Wrappers
  import Text
  import opened Leaderboard

  // ---------------------------------------------------------------------
  // Media.

  /** What a post shows under its text. */
  datatype Media = NoMedia | Video | Image

  const VideoExtensions: seq<string> := ["mp4", "webm", "ogg"]

  /** `url.match(/\.(mp4|webm|ogg)$/i)`: without the `u` flag, `/i`
      folds only ASCII letters. A URL matches exactly when it has a '.' and
      its extension, lower-cased, is one of the video extensions. */
  predicate IsVideoUrl(url: string)
    ensures IsVideoUrl(url) <==>
      '.' in url && Text.LowerAscii(Extension(url)) in VideoExtensions
  {
    DotSuffix(url, "mp4");
    DotSuffix(url, "webm");
    DotSuffix(url, "ogg");
    assert "." + "mp4" == ".mp4" && "." + "webm" == ".webm" && "." + "ogg" == ".ogg";
    var lower := Text.LowerAscii(url);
    Text.EndsWith(lower, ".mp4") || Text.EndsWith(lower, ".webm") || Text.EndsWith(lower, ".ogg")
  }

  /** The media element under a post: nothing for a missing or empty URL,
      a video player for a video URL, an image otherwise. */
  function MediaKind(mediaUrl: Option<string>): (m: Media)
    ensures m == NoMedia <==> mediaUrl.None? || mediaUrl.value == ""
    ensures m == Video <==> mediaUrl.Some? && mediaUrl.value != "" && IsVideoUrl(mediaUrl.value)
    ensures m == Image <==> mediaUrl.Some? && mediaUrl.value != "" && !IsVideoUrl(mediaUrl.value)
  {
    if mediaUrl.None? || mediaUrl.value == "" then NoMedia
    else if IsVideoUrl(mediaUrl.value) then Video
    else Image
  }

  /** Lower-casing keeps the dots where they are. */
  lemma LowerKeepsDots(s: string)
    ensures forall i :: 0 <= i < |s| ==> (Text.LowerAscii(s)[i] == '.' <==> s[i] == '.')
  {
  }

  /** Lower-casing commutes with taking a suffix. */
  lemma LowerSuffix(s: string, k: int)
    requires 0 <= k <= |s|
    ensures Text.LowerAscii(s)[k..] == Text.LowerAscii(s[k..])
  {
  }

  /** The extension is what follows the last '.'. */
  lemma ExtensionAfterLastDot(url: string, k: int)
    requires 0 <= k < |url| && url[k] == '.'
    requires forall j :: k < j < |url| ==> url[j] != '.'
    ensures Extension(url) == url[k + 1..]
  {
    var ext := Extension(url);
    ExtensionSpec(url);
    assert url[|url| - |ext| - 1] == '.';
    assert |ext| == |url| - k - 1 by {
      assert forall j :: |url| - |ext| <= j < |url| ==> url[j] == ext[j - (|url| - |ext|)];
    }
  }

  /** A lower-cased URL ending in "." + `e`, for an `e` free of dots, has
      a '.' and its extension lower-cases to `e`. */
  lemma DotSuffixExtension(url: string, e: string)
    requires '.' !in e
    requires Text.EndsWith(Text.LowerAscii(url), "." + e)
    ensures '.' in url && Text.LowerAscii(Extension(url)) == e
  {
    var k := |url| - |e| - 1;
    var tail := url[k + 1..];
    LowerSuffix(url, k);
    assert url[k..] == [url[k]] + tail;
    assert Text.LowerAscii(url[k..]) == [Text.ToLowerAscii(url[k])] + Text.LowerAscii(tail);
    assert Text.ToLowerAscii(url[k]) == '.' && Text.LowerAscii(tail) == e;
    LowerKeepsDots(tail);
    forall j | k < j < |url| ensures url[j] != '.' {
      assert tail[j - k - 1] == url[j];
      assert Text.LowerAscii(tail)[j - k - 1] in e;
    }
    ExtensionAfterLastDot(url, k);
  }

  /** A URL with a '.' whose extension lower-cases to `e` ends, lower-cased,
      in "." + `e`. */
  lemma ExtensionDotSuffix(url: string, e: string)
    requires '.' in url && Text.LowerAscii(Extension(url)) == e
    ensures Text.EndsWith(Text.LowerAscii(url), "." + e)
  {
    var ext := Extension(url);
    ExtensionSpec(url);
    var k := |url| - |ext| - 1;
    var lower := Text.LowerAscii(url);
    LowerSuffix(url, k);
    assert url[k..] == ['.'] + ext;
    LowerDotCons(ext);
    assert lower[k..] == "." + e;
  }

  /** Lower-casing a '.' followed by `s` gives a '.' followed by `s`
      lower-cased. */
  lemma LowerDotCons(s: string)
    ensures Text.LowerAscii(['.'] + s) == "." + Text.LowerAscii(s)
  {
    assert (['.'] + s)[1..] == s;
  }

  /** Ending in "." + `e` (without case), for an `e` free of dots, is the
      same as having a '.' whose extension lower-cases to `e`. */
  lemma DotSuffix(url: string, e: string)
    requires '.' !in e
    ensures Text.EndsWith(Text.LowerAscii(url), "." + e)
      <==> '.' in url && Text.LowerAscii(Extension(url)) == e
  {
    if Text.EndsWith(Text.LowerAscii(url), "." + e) {
      DotSuffixExtension(url, e);
    }
    if '.' in url && Text.LowerAscii(Extension(url)) == e {
      ExtensionDotSuffix(url, e);
    }
  }

  /** An upper-case video suffix is a video. */
  lemma UpperCaseVideoUrl()
    ensures MediaKind(Some("run.MP4")) == Video
  {
    assert Text.LowerAscii("run.MP4") == "run.mp4";
    assert "run.mp4"[3..] == ".mp4";
  }

  /** The suffix must be the very end of the URL: whatever precedes it
      (such as "clip.mp4"), a URL ending in ".png" is an image. */
  lemma PngUrlIsImage(base: string)
    ensures MediaKind(Some(base + ".png")) == Image
  {
    var url := base + ".png";
    assert url[|base|] == '.' && url[|base| + 1..] == "png";
    ExtensionAfterLastDot(url, |base|);
    assert Text.LowerAscii(Extension(url))[0] == 'p';
    assert !IsVideoUrl(url);
  }

  /** The dot is part of the pattern. */
  lemma BareExtensionIsImage()
    ensures MediaKind(Some("mp4")) == Image
  {
    assert Text.LowerAscii("mp4") == "mp4";
  }

  /** `name.split('.').pop()`: the upload's file extension. */
  function Extension(name: string): string {
    var parts := Text.Split(name, '.');
    parts[|parts| - 1]
  }

  /** The extension is the text after the last '.', or the whole name when
      there is no '.'. */
  lemma ExtensionSpec(name: string)
    ensures var ext := Extension(name);
      && '.' !in ext
      && |ext| <= |name| && ext == name[|name| - |ext|..]
      && ('.' !in name ==> ext == name)
      && ('.' in name ==> name[|name| - |ext| - 1] == '.')
  {
    Text.LastPartOfSplit(name, '.');
  }

  // ---------------------------------------------------------------------
  // Adding a post.

  /** The answer of the storage upload: `!error && data` or not. */
  datatype UploadOutcome = UploadFailed | Uploaded(publicUrl: string)

  /** The row sent to the `posts` table. */
  datatype NewPost = NewPost(challengeId: string, userId: UserId, content: string, upvotes: int, mediaUrl: Option<string>)

  /** The media URL stored with a new post: the public URL of the upload
      when a file was chosen and its upload succeeded, null otherwise. */
  function MediaUrlFor(mediaFile: Option<string>, upload: UploadOutcome): (url: Option<string>)
    ensures url.Some? <==> mediaFile.Some? && upload.Uploaded?
    ensures url.Some? ==> url.value == upload.publicUrl
  {
    if mediaFile.Some? && upload.Uploaded? then Some(upload.publicUrl) else None
  }

  /** The row `handleAddPost` inserts, or `None` when its guard returns:
      blank content or no user. */
  function NewPostRow(challengeId: string, user: Option<UserId>, content: string,
                      mediaFile: Option<string>, upload: UploadOutcome): (r: Option<NewPost>)
    ensures r.Some? <==> !Text.IsBlank(content) && user.Some?
    ensures r.Some? ==>
      && r.value.upvotes == 0 && r.value.userId == user.value
      && r.value.content == content && r.value.challengeId == challengeId
    ensures r.Some? ==> r.value.mediaUrl == MediaUrlFor(mediaFile, upload)
  {
    if Text.IsBlank(content) || user.None? then None
    else Some(NewPost(challengeId, user.value, content, 0, MediaUrlFor(mediaFile, upload)))
  }

  // ---------------------------------------------------------------------
  // Upvotes: the `post_upvotes` records and the posts' `upvotes` column.

  /** One voter's upvote of one post. */
  type UpvoteKey = (PostId, UserId)

  /** The two tables an upvote touches. */
  datatype VoteState = VoteState(records: set<UpvoteKey>, counts: map<PostId, Option<int>>)

  /** The backend's answers to the three calls of one upvote: the lookup of
      an existing record, the record's insert and the count's update. A
      failed lookup yields no row, exactly as a missing record does; the
      handler checks no error. */
  datatype UpvoteCalls = UpvoteCalls(lookupFailed: bool, insertFailed: bool, updateFailed: bool)

  /** The calls of an upvote that all succeed. */
  const AllSucceed := UpvoteCalls(false, false, false)

  /** `handleUpvote` run to completion before any other call: with no user,
      or when the lookup finds the record for (post, voter), nothing
      happens; otherwise the record is inserted and the post's count is set
      to its count as the page last saw it plus one, each write taking
      effect only if its call succeeds. An update of a post id that has no
      row changes no row. The flag says whether the writes were issued. */
  function UpvoteStep(s: VoteState, user: Option<UserId>, post: Post, calls: UpvoteCalls): (r: (VoteState, bool))
    ensures r.1 <==> user.Some? && (calls.lookupFailed || (post.id, user.value) !in s.records)
    ensures !r.1 ==> r.0 == s
    ensures r.1 ==> s.records <= r.0.records <= s.records + {(post.id, user.value)}
    ensures r.0.counts.Keys == s.counts.Keys
    ensures forall pid :: pid in s.counts && pid != post.id ==> r.0.counts[pid] == s.counts[pid]
  {
    if user.None? then (s, false)
    else
      var key := (post.id, user.value);
      if !calls.lookupFailed && key in s.records then (s, false)
      else
        var records := if calls.insertFailed then s.records else s.records + {key};
        var counts := if !calls.updateFailed && post.id in s.counts
          then s.counts[post.id := Some(Upvotes(post) + 1)] else s.counts;
        (VoteState(records, counts), true)
  }

  /** The voters recorded for a post. */
  function Voters(records: set<UpvoteKey>, pid: PostId): set<UserId> {
    set k | k in records && k.0 == pid :: k.1
  }

  /** Every post's count is the number of distinct voters recorded for it
      (a missing count standing for zero). */
  predicate CountsMatchRecords(s: VoteState) {
    forall pid :: pid in s.counts ==> s.counts[pid].GetOr(0) == |Voters(s.records, pid)|
  }

  /** What each call contributes once the writes are issued: a successful
      insert adds exactly the new record, a failed one adds nothing; a
      successful update bumps exactly the voted post, a failed one leaves
      every count alone. */
  lemma UpvoteOutcome(s: VoteState, user: Option<UserId>, post: Post, calls: UpvoteCalls)
    ensures var (s', applied) := UpvoteStep(s, user, post, calls);
      && (applied && !calls.insertFailed ==> s'.records == s.records + {(post.id, user.value)})
      && (applied && !calls.insertFailed && (post.id, user.value) !in s.records ==> |s'.records| == |s.records| + 1)
      && (calls.insertFailed ==> s'.records == s.records)
      && (applied && !calls.updateFailed && post.id in s.counts ==> s'.counts[post.id] == Some(Upvotes(post) + 1))
      && (calls.updateFailed ==> s'.counts == s.counts)
  {
  }

  /** Two upvotes by one voter, one after the other, count once when the
      first's insert and the second's lookup succeed: the second finds the
      record and changes nothing. */
  lemma SecondUpvoteIsIgnored(s: VoteState, voter: UserId, post: Post, post': Post, first: UpvoteCalls, second: UpvoteCalls)
    requires post'.id == post.id
    requires !first.insertFailed && !second.lookupFailed
    ensures var (s1, applied1) := UpvoteStep(s, Some(voter), post, first);
      var (s2, applied2) := UpvoteStep(s1, Some(voter), post', second);
      && !applied2 && s2 == s1
      && (applied1 && !first.updateFailed && post.id in s.counts ==> s2.counts[post.id] == Some(Upvotes(post) + 1))
  {
  }

  /** A failed lookup lets a voter who already has a record vote again. */
  lemma FailedLookupVotesAgain(s: VoteState, voter: UserId, post: Post)
    requires (post.id, voter) in s.records && post.id in s.counts
    ensures var (s', applied) := UpvoteStep(s, Some(voter), post, UpvoteCalls(true, false, false));
      applied && s'.records == s.records && s'.counts[post.id] == Some(Upvotes(post) + 1)
  {
  }

  /** From counts that match the records, with the page's copy of the post
      up to date, an upvote keeps the counts matched exactly when the
      insert adds a record just when the update bumps the count: a failed
      lookup of an existing vote, or exactly one of the two writes failing,
      puts the post's count off by one. */
  lemma UpvoteCountsMatchedIff(s: VoteState, user: Option<UserId>, post: Post, calls: UpvoteCalls)
    requires CountsMatchRecords(s)
    requires post.id in s.counts ==> post.upvotes.GetOr(0) == s.counts[post.id].GetOr(0)
    ensures var (s', applied) := UpvoteStep(s, user, post, calls);
      var added := applied && !calls.insertFailed && (post.id, user.value) !in s.records;
      var bumped := applied && !calls.updateFailed;
      CountsMatchRecords(s') <==> (post.id in s.counts ==> added == bumped)
  {
    var (s', applied) := UpvoteStep(s, user, post, calls);
    if applied {
      var added := !calls.insertFailed && (post.id, user.value) !in s.records;
      var bumped := !calls.updateFailed;
      var before := Voters(s.records, post.id);
      var after := Voters(s'.records, post.id);
      if added {
        assert after == before + {user.value};
        assert user.value !in before;
      } else {
        assert after == before;
      }
      forall pid | pid in s'.counts && pid != post.id
        ensures s'.counts[pid].GetOr(0) == |Voters(s'.records, pid)|
      {
        assert Voters(s'.records, pid) == Voters(s.records, pid);
      }
      if post.id in s.counts {
        assert s'.counts[post.id].GetOr(0) == if bumped then |before| + 1 else |before|;
      }
    }
  }

  /** Sequential upvotes whose calls all succeed keep each post's count
      equal to its number of voters, as long as each click sees the post's
      current count. */
  lemma UpvoteKeepsCountsMatched(s: VoteState, user: Option<UserId>, post: Post)
    requires CountsMatchRecords(s)
    requires post.id in s.counts ==> post.upvotes.GetOr(0) == s.counts[post.id].GetOr(0)
    ensures CountsMatchRecords(UpvoteStep(s, user, post, AllSucceed).0)
  {
    UpvoteCountsMatchedIff(s, user, post, AllSucceed);
  }

  /** The backend state the upvote handler reads and writes. */
  class VoteStore {
    var records: set<UpvoteKey>
    var counts: map<PostId, Option<int>>

    function State(): VoteState
      reads this
    {
      VoteState(records, counts)
    }

    constructor (records: set<UpvoteKey>, counts: map<PostId, Option<int>>)
      ensures State() == VoteState(records, counts)
    {
      this.records := records;
      this.counts := counts;
    }
  }

  /** `posts.filter(p => p.id !== id)`. */
  function WithoutPost(ps: seq<Post>, id: PostId): (r: seq<Post>)
    ensures forall p :: p in r <==> p in ps && p.id != id
    ensures |r| <= |ps|
  {
    if ps == [] then []
    else if ps[0].id == id then WithoutPost(ps[1..], id)
    else [ps[0]] + WithoutPost(ps[1..], id)
  }

  /** Deleting a post keeps the others in their order. */
  lemma {:induction false} WithoutPostDistributes(xs: seq<Post>, ys: seq<Post>, id: PostId)
    ensures WithoutPost(xs + ys, id) == WithoutPost(xs, id) + WithoutPost(ys, id)
  {
    if xs == [] {
      assert xs + ys == ys;
    } else {
      assert (xs + ys)[1..] == xs[1..] + ys;
      WithoutPostDistributes(xs[1..], ys, id);
    }
  }

  class ChallengeDetailsPage {
    /** The route's challenge id. */
    const challengeId: string
    var posts: seq<Post>
    var userMap: map<UserId, string>
    var leaderboard: seq<Entry>
    var newPost: string
    /** The name of the chosen file, if any. */
    var mediaFile: Option<string>
    var posting: bool
    var mediaUploading: bool
    var upvoting: Option<PostId>

    /** Nothing busy: the state between two handler runs. */
    predicate Idle()
      reads this
    {
      !posting && !mediaUploading && upvoting.None?
    }

    constructor (challengeId: string)
      ensures this.challengeId == challengeId && Idle()
      ensures posts == [] && userMap == map[] && leaderboard == [] && newPost == "" && mediaFile.None?
    {
      this.challengeId := challengeId;
      posts, userMap, leaderboard := [], map[], [];
      newPost, mediaFile := "", None;
      posting, mediaUploading, upvoting := false, false, None;
    }

    /** The answer to the page's fetch of the posts: a failed fetch changes
        nothing; otherwise the fetched posts (none when the answer has no
        data) replace the list, and the name table is rebuilt from the
        fetched profiles (none when that answer has no data) only when the
        fetch returned at least one post. */
    method ReceivePosts(data: Option<seq<Post>>, fetchFailed: bool, profiles: Option<seq<Profile>>)
      modifies this`posts, this`userMap
      ensures fetchFailed ==> posts == old(posts) && userMap == old(userMap)
      ensures !fetchFailed ==> posts == data.GetOr([])
      ensures !fetchFailed ==>
        userMap == if data.GetOr([]) != [] then UserMapOf(profiles.GetOr([])) else old(userMap)
    {
      if !fetchFailed {
        var rows := data.GetOr([]);
        posts := rows;
        if rows != [] {
          userMap := BuildUserMap(profiles.GetOr([]));
        }
      }
    }

    /** The effect that recomputes the leaderboard whenever the posts change. */
    method RecomputeLeaderboard()
      modifies this`leaderboard
      ensures leaderboard == Board(posts, userMap)
    {
      leaderboard := ComputeLeaderboard(posts, userMap);
    }

    /** `handleAddPost`. Returns the inserted row and, when a file was
        chosen, the extension used in its storage path. After the guard the
        form is always reset, whatever the backend answered. */
    method HandleAddPost(user: Option<UserId>, upload: UploadOutcome)
      returns (inserted: Option<NewPost>, uploadExt: Option<string>)
      requires Idle()
      modifies this`posting, this`mediaUploading, this`newPost, this`mediaFile
      ensures inserted == NewPostRow(challengeId, user, old(newPost), old(mediaFile), upload)
      ensures inserted.None? ==> newPost == old(newPost) && mediaFile == old(mediaFile) && uploadExt.None?
      ensures inserted.Some? ==>
        && newPost == "" && mediaFile.None?
        && uploadExt == (if old(mediaFile).Some? then Some(Extension(old(mediaFile).value)) else None)
      ensures Idle()
    {
      if Text.IsBlank(newPost) || user.None? {
        return None, None;
      }
      posting := true;
      var mediaUrl: Option<string> := None;
      uploadExt := None;
      if mediaFile.Some? {
        mediaUploading := true;
        uploadExt := Some(Extension(mediaFile.value));
        if upload.Uploaded? {
          mediaUrl := Some(upload.publicUrl);
        }
        mediaUploading := false;
      }
      inserted := Some(NewPost(challengeId, user.value, newPost, 0, mediaUrl));
      newPost := "";
      mediaFile := None;
      posting := false;
    }

    /** `handleUpvote`, run to completion before the next call, with the
        backend answering its three calls as `calls` says. */
    method HandleUpvote(user: Option<UserId>, post: Post, calls: UpvoteCalls, store: VoteStore) returns (applied: bool)
      requires Idle()
      modifies this`upvoting, store
      ensures (store.State(), applied) == UpvoteStep(old(store.State()), user, post, calls)
      ensures Idle()
    {
      if user.None? {
        return false;
      }
      upvoting := Some(post.id);
      var key := (post.id, user.value);
      var existing := !calls.lookupFailed && key in store.records;
      applied := !existing;
      if !existing {
        if !calls.insertFailed {
          store.records := store.records + {key};
        }
        if !calls.updateFailed && post.id in store.counts {
          store.counts := store.counts[post.id := Some(Upvotes(post) + 1)];
        }
      }
      upvoting := None;
    }

    /** The delete button, rendered only for the post's author; the list is
        filtered whatever the backend answered. */
    method HandleDeletePost(user: Option<UserId>, post: Post) returns (requested: bool)
      modifies this`posts
      ensures requested <==> user.Some? && user.value == post.userId
      ensures posts == if requested then WithoutPost(old(posts), post.id) else old(posts)
    {
      requested := user.Some? && user.value == post.userId;
      if requested {
        posts := WithoutPost(posts, post.id);
      }
    }
  }
}
