/** The thread assembler (`build_threads`, tweets_to_hugo.py): filter the
    parsed tweets, file roots by id and replies by the id they answer, and
    walk each root's reply chain through the reply map. */
module Threads {
  import opened Wrappers
  import opened Tweets
  import opened Indexing
  import Parser

  // ---------------------------------------------------------------------------
  // Filtering

  /** The strict date bounds: `after` and `before` are instants; comparison is
      by instant, so converting to a local time zone changes nothing here. */
  predicate InBounds(t: Tweet, after: Option<int>, before: Option<int>) {
    && (after.None? || after.value < t.created)
    && (before.None? || t.created < before.value)
  }

  /** A tweet survives the filters: inside the bounds, not a retweet, and not
      a mention that answers nothing. */
  predicate Kept(t: Tweet, after: Option<int>, before: Option<int>) {
    InBounds(t, after, before) && !t.rt && !(t.mention && t.reply == 0)
  }

  predicate IsRoot(t: Tweet, after: Option<int>, before: Option<int>) {
    Kept(t, after, before) && t.reply == 0
  }

  predicate IsReply(t: Tweet, after: Option<int>, before: Option<int>) {
    Kept(t, after, before) && t.reply != 0
  }

  /** The filters of the filing loop as functions on one tweet. */
  function KeepRoot(after: Option<int>, before: Option<int>): Tweet -> bool {
    (t: Tweet) => IsRoot(t, after, before)
  }

  function KeepReply(after: Option<int>, before: Option<int>): Tweet -> bool {
    (t: Tweet) => IsReply(t, after, before)
  }

  /** The keys and the value the two maps file a tweet under. */
  const OwnId: Tweet -> int := (t: Tweet) => t.id
  const Target: Tweet -> int := (t: Tweet) => t.reply
  const Itself: Tweet -> Tweet := (t: Tweet) => t

  /** `threads`: kept roots by their own id, the last one winning. */
  function Roots(ts: seq<Tweet>, after: Option<int>, before: Option<int>): map<int, Tweet> {
    Index(ts, KeepRoot(after, before), OwnId, Itself)
  }

  /** `replies`: kept replies by the id they answer, the last one winning. */
  function Replies(ts: seq<Tweet>, after: Option<int>, before: Option<int>): map<int, Tweet> {
    Index(ts, KeepReply(after, before), Target, Itself)
  }

  // ---------------------------------------------------------------------------
  // Chains

  /** `chain` is the reply chain of `rootId`: it starts at `replies[rootId]`,
      each next element is filed under the previous one's id, and it stops
      exactly at the first element whose id is not a key. */
  ghost predicate IsChain(rootId: int, replies: map<int, Tweet>, chain: seq<Tweet>) {
    && (|chain| == 0 <==> rootId !in replies)
    && (|chain| > 0 ==> chain[0] == replies[rootId])
    && (forall i :: 0 <= i < |chain| - 1 ==> chain[i].id in replies && chain[i + 1] == replies[chain[i].id])
    && (|chain| > 0 ==> chain[|chain| - 1].id !in replies)
  }

  /** A condition under which the walk from `rootId` cannot cycle: the tweets
      filed in `replies` have pairwise distinct ids, none equal to `rootId`. */
  predicate ChainSafe(rootId: int, replies: map<int, Tweet>) {
    && (forall k :: k in replies ==> replies[k].id != rootId)
    && (forall a, b :: a in replies && b in replies && a != b ==> replies[a].id != replies[b].id)
  }

  /** The keys visited so far are the root's id and the ids of the tweets
      already taken, of which `key` is the most recent. */
  ghost predicate Visited(rootId: int, replies: map<int, Tweet>, key: int, visited: set<int>)
    requires visited <= replies.Keys
  {
    visited + {key} == {rootId} + (set k | k in visited :: replies[k].id)
  }

  lemma WalkStep(rootId: int, replies: map<int, Tweet>, key: int, visited: set<int>)
    requires ChainSafe(rootId, replies)
    requires visited <= replies.Keys && key !in visited && key in replies
    requires Visited(rootId, replies, key, visited)
    ensures replies[key].id !in visited + {key}
    ensures Visited(rootId, replies, replies[key].id, visited + {key})
  {
    var next := replies[key].id;
    var ids := set k | k in visited :: replies[k].id;
    assert (set k | k in visited + {key} :: replies[k].id) == ids + {next};
  }

  lemma VisitOne(keys: set<int>, visited: set<int>, key: int)
    requires key in keys && key !in visited
    ensures keys - (visited + {key}) < keys - visited
    ensures |keys - (visited + {key})| == |keys - visited| - 1
  {
    assert keys - (visited + {key}) == (keys - visited) - {key};
  }

  /** A chain extended at the front by the tweet filed under `key`. */
  lemma ChainCons(key: int, replies: map<int, Tweet>, rest: seq<Tweet>)
    requires key in replies
    requires IsChain(replies[key].id, replies, rest)
    ensures IsChain(key, replies, [replies[key]] + rest)
  {
    var chain := [replies[key]] + rest;
    assert forall i :: 1 <= i < |chain| ==> chain[i] == rest[i - 1];
  }

  /** The chain-following loop: as long as the current tweet's id is a key of
      the reply map, the tweet filed under it comes next. The keys not yet
      visited are the decreasing measure. */
  function Walk(rootId: int, replies: map<int, Tweet>, key: int, visited: set<int>): (chain: seq<Tweet>)
    requires ChainSafe(rootId, replies)
    requires visited <= replies.Keys && key !in visited
    requires Visited(rootId, replies, key, visited)
    ensures IsChain(key, replies, chain)
    ensures forall i :: 0 <= i < |chain| ==> chain[i].id != key && chain[i].id !in visited
    ensures forall i, j :: 0 <= i < j < |chain| ==> chain[i].id != chain[j].id
    decreases replies.Keys - visited
  {
    if key !in replies then []
    else
      var next := replies[key];
      WalkStep(rootId, replies, key, visited);
      assert replies.Keys - (visited + {key}) == (replies.Keys - visited) - {key};
      var rest := Walk(rootId, replies, next.id, visited + {key});
      ChainCons(key, replies, rest);
      var chain := [next] + rest;
      assert forall i :: 1 <= i < |chain| ==> chain[i] == rest[i - 1];
      chain
  }

  /** Each step of the walk uses up one reply key. */
  lemma {:induction false} WalkLength(rootId: int, replies: map<int, Tweet>, key: int, visited: set<int>)
    requires ChainSafe(rootId, replies)
    requires visited <= replies.Keys && key !in visited
    requires Visited(rootId, replies, key, visited)
    ensures |Walk(rootId, replies, key, visited)| <= |replies.Keys - visited|
    decreases replies.Keys - visited
  {
    if key in replies {
      WalkStep(rootId, replies, key, visited);
      VisitOne(replies.Keys, visited, key);
      WalkLength(rootId, replies, replies[key].id, visited + {key});
    }
  }

  /** The reply chain of the root `rootId`. Under `ChainSafe`
      the walk ends, its tweets are distinct, and it is no longer than the
      number of reply keys. */
  function Chain(rootId: int, replies: map<int, Tweet>): (chain: seq<Tweet>)
    requires ChainSafe(rootId, replies)
    ensures IsChain(rootId, replies, chain)
    ensures forall i, j :: 0 <= i < j < |chain| ==> chain[i].id != chain[j].id
    ensures |chain| <= |replies|
  {
    assert Visited(rootId, replies, rootId, {});
    WalkLength(rootId, replies, rootId, {});
    assert replies.Keys - {} == replies.Keys;
    Walk(rootId, replies, rootId, {})
  }

  /** The rest of a chain is the chain of its first element's id. */
  lemma ChainTail(key: int, replies: map<int, Tweet>, chain: seq<Tweet>)
    requires IsChain(key, replies, chain) && |chain| > 0
    ensures IsChain(chain[0].id, replies, chain[1..])
  {
  }

  lemma {:induction false} ChainsAgree(key: int, replies: map<int, Tweet>, xs: seq<Tweet>, ys: seq<Tweet>)
    requires IsChain(key, replies, xs) && IsChain(key, replies, ys)
    ensures xs == ys
    decreases |xs|
  {
    if key in replies {
      ChainTail(key, replies, xs);
      ChainTail(key, replies, ys);
      ChainsAgree(xs[0].id, replies, xs[1..], ys[1..]);
      assert xs == [xs[0]] + xs[1..];
      assert ys == [ys[0]] + ys[1..];
    }
  }

  /** The chain is determined by the reply map: any sequence that satisfies
      the chain conditions is the one the walk builds. */
  lemma ChainIsUnique(rootId: int, replies: map<int, Tweet>, xs: seq<Tweet>)
    requires ChainSafe(rootId, replies)
    requires IsChain(rootId, replies, xs)
    ensures xs == Chain(rootId, replies)
  {
    ChainsAgree(rootId, replies, xs, Chain(rootId, replies));
  }

  // ---------------------------------------------------------------------------
  // build_threads

  /** The kept root that `threads[k]` holds. */
  lemma RootSource(ts: seq<Tweet>, after: Option<int>, before: Option<int>, k: int) returns (i: nat)
    requires k in Roots(ts, after, before)
    ensures i < |ts| && IsRoot(ts[i], after, before) && ts[i].id == k && Roots(ts, after, before)[k] == ts[i]
    ensures forall j :: i < j < |ts| && IsRoot(ts[j], after, before) ==> ts[j].id != k
  {
    i := IndexSource(ts, KeepRoot(after, before), OwnId, Itself, k);
    forall j | i < j < |ts| && IsRoot(ts[j], after, before) ensures ts[j].id != k {
      assert KeepRoot(after, before)(ts[j]);
    }
  }

  /** The kept reply that `replies[k]` holds. */
  lemma ReplySource(ts: seq<Tweet>, after: Option<int>, before: Option<int>, k: int) returns (i: nat)
    requires k in Replies(ts, after, before)
    ensures i < |ts| && IsReply(ts[i], after, before) && ts[i].reply == k && Replies(ts, after, before)[k] == ts[i]
    ensures forall j :: i < j < |ts| && IsReply(ts[j], after, before) ==> ts[j].reply != k
  {
    i := IndexSource(ts, KeepReply(after, before), Target, Itself, k);
    forall j | i < j < |ts| && IsReply(ts[j], after, before) ensures ts[j].reply != k {
      assert KeepReply(after, before)(ts[j]);
    }
  }

  /** Every root's walk is guaranteed to end. */
  predicate ChainsTerminate(ts: seq<Tweet>, after: Option<int>, before: Option<int>) {
    var replies := Replies(ts, after, before);
    forall k :: k in Roots(ts, after, before) ==> ChainSafe(k, replies)
  }

  /** Status ids are unique in an archive. */
  predicate UniqueIds(ts: seq<Tweet>) {
    forall i, j :: 0 <= i < j < |ts| ==> ts[i].id != ts[j].id
  }

  /** With unique ids no root's walk can cycle, so the chain-following loop ends. */
  lemma UniqueIdsTerminate(ts: seq<Tweet>, after: Option<int>, before: Option<int>)
    requires UniqueIds(ts)
    ensures ChainsTerminate(ts, after, before)
  {
    var roots := Roots(ts, after, before);
    var replies := Replies(ts, after, before);
    forall k | k in roots
      ensures ChainSafe(k, replies)
    {
      var r := RootSource(ts, after, before, k);
      forall a | a in replies
        ensures replies[a].id != k
      {
        var i := ReplySource(ts, after, before, a);
        assert i != r;
      }
      forall a, b | a in replies && b in replies && a != b
        ensures replies[a].id != replies[b].id
      {
        var i := ReplySource(ts, after, before, a);
        var j := ReplySource(ts, after, before, b);
        assert i != j;
      }
    }
  }

  /** `threads` holds the last kept root per id. */
  lemma RootsAreLast(ts: seq<Tweet>, after: Option<int>, before: Option<int>)
    ensures forall k :: k in Roots(ts, after, before) <==>
      exists i :: 0 <= i < |ts| && IsRoot(ts[i], after, before) && ts[i].id == k
    ensures forall k :: k in Roots(ts, after, before) ==>
      exists i :: && 0 <= i < |ts| && IsRoot(ts[i], after, before) && ts[i].id == k
                  && (forall j :: i < j < |ts| && IsRoot(ts[j], after, before) ==> ts[j].id != k)
                  && Roots(ts, after, before)[k] == ts[i]
  {
    var roots := Roots(ts, after, before);
    forall k | k in roots
      ensures exists i :: && 0 <= i < |ts| && IsRoot(ts[i], after, before) && ts[i].id == k
                          && (forall j :: i < j < |ts| && IsRoot(ts[j], after, before) ==> ts[j].id != k)
                          && roots[k] == ts[i]
    {
      var i := RootSource(ts, after, before, k);
    }
  }

  /** The keys of `replies` are the reply targets of the kept replies. */
  lemma ReplyKeys(ts: seq<Tweet>, after: Option<int>, before: Option<int>)
    ensures Replies(ts, after, before).Keys == set i | 0 <= i < |ts| && IsReply(ts[i], after, before) :: ts[i].reply
  {
    IndexKeys(ts, KeepReply(after, before), Target, Itself);
  }

  /** Every root with its reply chain attached. */
  function AttachChains(roots: map<int, Tweet>, replies: map<int, Tweet>): (threads: map<int, Tweet>)
    requires forall k :: k in roots ==> ChainSafe(k, replies)
    ensures threads.Keys == roots.Keys
    ensures forall k :: k in threads ==> threads[k] == roots[k].(replies := threads[k].replies)
    ensures forall k :: k in threads ==> IsChain(k, replies, threads[k].replies)
  {
    map k | k in roots :: roots[k].(replies := Chain(k, replies))
  }

  /** The assembly part of `build_threads` on parsed tweets: each kept root,
      the last one per id, with its reply chain attached; and the number of
      distinct reply-map keys, counting replies that attach to no thread. */
  function Assemble(ts: seq<Tweet>, after: Option<int>, before: Option<int>): (r: (map<int, Tweet>, nat))
    requires ChainsTerminate(ts, after, before)
    ensures forall k :: k in r.0 <==> exists i :: 0 <= i < |ts| && IsRoot(ts[i], after, before) && ts[i].id == k
    ensures forall k :: k in r.0 ==>
      exists i :: && 0 <= i < |ts| && IsRoot(ts[i], after, before) && ts[i].id == k
                  && (forall j :: i < j < |ts| && IsRoot(ts[j], after, before) ==> ts[j].id != k)
                  && r.0[k] == ts[i].(replies := r.0[k].replies)
    ensures forall k :: k in r.0 ==> IsChain(k, Replies(ts, after, before), r.0[k].replies)
    ensures r.1 == |set i | 0 <= i < |ts| && IsReply(ts[i], after, before) :: ts[i].reply|
  {
    var roots := Roots(ts, after, before);
    var replies := Replies(ts, after, before);
    RootsAreLast(ts, after, before);
    ReplyKeys(ts, after, before);
    (AttachChains(roots, replies), |replies|)
  }

  /** `build_threads`: every entry is parsed first, so an unsupported media
      item anywhere aborts, even in an entry the filters would drop. */
  function BuildThreads(raws: seq<Parser.RawTweet>, after: Option<int>, before: Option<int>)
    : (r: Result<(map<int, Tweet>, nat), Parser.ParseError>)
    requires Parser.ParseAll(raws).Success? ==> ChainsTerminate(Parser.ParseAll(raws).value, after, before)
    ensures r.Failure? <==> exists i :: 0 <= i < |raws| && Parser.ParseTweet(raws[i]).Failure?
    ensures r.Failure? ==> Parser.ParseAll(raws).Failure? && r.error == Parser.ParseAll(raws).error
    ensures r.Success? ==> r.value == Assemble(Parser.ParseAll(raws).value, after, before)
  {
    var ts :- Parser.ParseAll(raws);
    Success(Assemble(ts, after, before))
  }

  /** A thread whose root and every chained reply passed the filters. */
  predicate FilteredThread(t: Tweet, after: Option<int>, before: Option<int>) {
    IsRoot(t, after, before) && forall i :: 0 <= i < |t.replies| ==> IsReply(t.replies[i], after, before)
  }

  /** Every tweet of a chain through the reply map passed the filters. */
  lemma ChainIsReplies(ts: seq<Tweet>, after: Option<int>, before: Option<int>, rootId: int, chain: seq<Tweet>)
    requires IsChain(rootId, Replies(ts, after, before), chain)
    ensures forall i :: 0 <= i < |chain| ==> IsReply(chain[i], after, before)
  {
    var replies := Replies(ts, after, before);
    forall i | 0 <= i < |chain|
      ensures IsReply(chain[i], after, before)
    {
      var key := if i == 0 then rootId else chain[i - 1].id;
      assert key in replies && chain[i] == replies[key];
      var j := ReplySource(ts, after, before, key);
    }
  }

  /** Retweets and bare mentions never reach a thread: every root and every
      chained reply passed the filters. */
  lemma ThreadsAreFiltered(ts: seq<Tweet>, after: Option<int>, before: Option<int>)
    requires ChainsTerminate(ts, after, before)
    ensures forall k :: k in Assemble(ts, after, before).0 ==>
      FilteredThread(Assemble(ts, after, before).0[k], after, before)
  {
    var threads := Assemble(ts, after, before).0;
    forall k | k in threads
      ensures FilteredThread(threads[k], after, before)
    {
      ChainIsReplies(ts, after, before, k, threads[k].replies);
    }
  }
}
