/** The second half of `build_post` (tweets_to_hugo.py): the thread's media
    grouped by the placeholder link they share, every item renamed with a
    running counter, each placeholder replaced by the tags of its group, and
    the catalog from original file names to new ones. */
module Media {
  import opened Tweets
  import opened Text
  import opened Decimal
  import opened Paths
  import opened Indexing

  /** One entry of the `media_urls` dictionary: a placeholder link and the
      media carrying it, in the order they were met. */
  datatype Group = Group(url: string, items: seq<TweetMedia>)

  /** The position of the group for `url`, or `|gs|` when there is none. */
  function FindGroup(gs: seq<Group>, url: string): (k: nat)
    ensures k <= |gs|
    ensures k < |gs| ==> gs[k].url == url
    ensures forall i :: 0 <= i < k ==> gs[i].url != url
    decreases |gs|
  {
    if |gs| == 0 || gs[0].url == url then 0 else 1 + FindGroup(gs[1..], url)
  }

  lemma FindGroupFound(gs: seq<Group>, url: string, p: nat)
    requires p < |gs| && gs[p].url == url
    ensures FindGroup(gs, url) <= p
  {
  }

  /** One item filed under its link: a known link gets the item at the end
      of its list; a new link becomes the last key, with a list of one. */
  function AddToGroups(gs: seq<Group>, m: TweetMedia): seq<Group> {
    var k := FindGroup(gs, m.url);
    if k < |gs| then gs[k := Group(m.url, gs[k].items + [m])] else gs + [Group(m.url, [m])]
  }

  /** The grouping loop over the thread's media. */
  function GroupByUrl(ms: seq<TweetMedia>): seq<Group>
    decreases |ms|
  {
    if |ms| == 0 then [] else AddToGroups(GroupByUrl(ms[..|ms| - 1]), ms[|ms| - 1])
  }

  /** Reference definition: the media with link `url`, in order. */
  function WithUrl(ms: seq<TweetMedia>, url: string): (r: seq<TweetMedia>)
    ensures r == [] <==> forall j :: 0 <= j < |ms| ==> ms[j].url != url
    decreases |ms|
  {
    if |ms| == 0 then []
    else WithUrl(ms[..|ms| - 1], url) + (if ms[|ms| - 1].url == url then [ms[|ms| - 1]] else [])
  }

  /** The position of the first medium with link `url`, or `|ms|`. */
  function FirstIndex(ms: seq<TweetMedia>, url: string): (k: nat)
    ensures k <= |ms|
    ensures k < |ms| ==> ms[k].url == url
    ensures forall j :: 0 <= j < k ==> ms[j].url != url
    decreases |ms|
  {
    if |ms| == 0 || ms[0].url == url then 0 else 1 + FirstIndex(ms[1..], url)
  }

  lemma FirstIndexSnoc(ms: seq<TweetMedia>, m: TweetMedia, url: string)
    ensures FirstIndex(ms + [m], url) ==
      if FirstIndex(ms, url) < |ms| then FirstIndex(ms, url)
      else if m.url == url then |ms| else |ms| + 1
  {
    var k := FirstIndex(ms, url);
    var k' := FirstIndex(ms + [m], url);
    if k < |ms| {
      assert (ms + [m])[k] == ms[k];
    } else if m.url == url {
      assert (ms + [m])[|ms|] == m;
    }
  }

  /** The groups as a dictionary with insertion order: links are distinct,
      every medium's link has a group, each group holds exactly the media
      with its link in their original order, and the groups are ordered by
      where their link first appears. */
  ghost predicate GroupsOf(ms: seq<TweetMedia>, gs: seq<Group>) {
    DistinctUrls(gs) && Covers(ms, gs) && Contents(ms, gs) && FirstSeenOrder(ms, gs)
  }

  predicate DistinctUrls(gs: seq<Group>) {
    forall i, j :: 0 <= i < j < |gs| ==> gs[i].url != gs[j].url
  }

  predicate Covers(ms: seq<TweetMedia>, gs: seq<Group>) {
    forall j :: 0 <= j < |ms| ==> FindGroup(gs, ms[j].url) < |gs|
  }

  predicate Contents(ms: seq<TweetMedia>, gs: seq<Group>) {
    forall i :: 0 <= i < |gs| ==> gs[i].items == WithUrl(ms, gs[i].url) && gs[i].items != []
  }

  predicate FirstSeenOrder(ms: seq<TweetMedia>, gs: seq<Group>) {
    && (forall i :: 0 <= i < |gs| ==> FirstIndex(ms, gs[i].url) < |ms|)
    && (forall i, j :: 0 <= i < j < |gs| ==> FirstIndex(ms, gs[i].url) < FirstIndex(ms, gs[j].url))
  }

  lemma WithUrlSnoc(ms: seq<TweetMedia>, m: TweetMedia, url: string)
    ensures WithUrl(ms + [m], url) == WithUrl(ms, url) + (if m.url == url then [m] else [])
  {
    assert (ms + [m])[..|ms|] == ms;
  }

  /** A link with no group is the link of no medium seen so far. */
  lemma FreshUrl(ms: seq<TweetMedia>, gs: seq<Group>, url: string)
    requires Covers(ms, gs)
    requires FindGroup(gs, url) == |gs|
    ensures forall j :: 0 <= j < |ms| ==> ms[j].url != url
  {
    forall j | 0 <= j < |ms| ensures ms[j].url != url {
      assert FindGroup(gs, ms[j].url) < |gs|;
    }
  }

  /** The placeholder of `m` is new: it gets a group of its own at the end. */
  lemma NewGroupStep(ms: seq<TweetMedia>, gs: seq<Group>, m: TweetMedia)
    requires GroupsOf(ms, gs)
    requires FindGroup(gs, m.url) == |gs|
    ensures GroupsOf(ms + [m], gs + [Group(m.url, [m])])
  {
    var ms' := ms + [m];
    var gs' := gs + [Group(m.url, [m])];
    FreshUrl(ms, gs, m.url);
    forall j | 0 <= j < |ms'| ensures FindGroup(gs', ms'[j].url) < |gs'| {
      if j < |ms| {
        FindGroupFound(gs', ms[j].url, FindGroup(gs, ms[j].url));
      } else {
        FindGroupFound(gs', m.url, |gs|);
      }
    }
    NewGroupContents(ms, gs, m);
    NewGroupOrder(ms, gs, m);
  }

  lemma NewGroupContents(ms: seq<TweetMedia>, gs: seq<Group>, m: TweetMedia)
    requires Contents(ms, gs)
    requires forall i :: 0 <= i < |gs| ==> gs[i].url != m.url
    requires forall j :: 0 <= j < |ms| ==> ms[j].url != m.url
    ensures Contents(ms + [m], gs + [Group(m.url, [m])])
  {
    var ms' := ms + [m];
    var gs' := gs + [Group(m.url, [m])];
    forall i | 0 <= i < |gs'| ensures gs'[i].items == WithUrl(ms', gs'[i].url) && gs'[i].items != [] {
      WithUrlSnoc(ms, m, gs'[i].url);
    }
  }

  lemma NewGroupOrder(ms: seq<TweetMedia>, gs: seq<Group>, m: TweetMedia)
    requires FirstSeenOrder(ms, gs)
    requires forall j :: 0 <= j < |ms| ==> ms[j].url != m.url
    ensures FirstSeenOrder(ms + [m], gs + [Group(m.url, [m])])
  {
    var ms' := ms + [m];
    var gs' := gs + [Group(m.url, [m])];
    forall i | 0 <= i < |gs'| ensures FirstIndex(ms', gs'[i].url) == if i < |gs| then FirstIndex(ms, gs[i].url) else |ms| {
      FirstIndexSnoc(ms, m, gs'[i].url);
    }
  }

  /** The placeholder of `m` already has group `k`: `m` joins its end. */
  lemma OldGroupStep(ms: seq<TweetMedia>, gs: seq<Group>, m: TweetMedia, k: nat)
    requires GroupsOf(ms, gs)
    requires k < |gs| && gs[k].url == m.url
    ensures GroupsOf(ms + [m], gs[k := Group(m.url, gs[k].items + [m])])
  {
    var ms' := ms + [m];
    var gs' := gs[k := Group(m.url, gs[k].items + [m])];
    forall j | 0 <= j < |ms'| ensures FindGroup(gs', ms'[j].url) < |gs'| {
      if j < |ms| {
        FindGroupFound(gs', ms[j].url, FindGroup(gs, ms[j].url));
      } else {
        FindGroupFound(gs', m.url, k);
      }
    }
    OldGroupContents(ms, gs, m, k);
    OldGroupOrder(ms, gs, m, k);
  }

  lemma OldGroupContents(ms: seq<TweetMedia>, gs: seq<Group>, m: TweetMedia, k: nat)
    requires Contents(ms, gs) && DistinctUrls(gs)
    requires k < |gs| && gs[k].url == m.url
    ensures Contents(ms + [m], gs[k := Group(m.url, gs[k].items + [m])])
  {
    var ms' := ms + [m];
    var gs' := gs[k := Group(m.url, gs[k].items + [m])];
    forall i | 0 <= i < |gs'| ensures gs'[i].items == WithUrl(ms', gs'[i].url) && gs'[i].items != [] {
      WithUrlSnoc(ms, m, gs'[i].url);
      if i != k {
        assert gs[i].url != m.url;
      }
    }
  }

  lemma OldGroupOrder(ms: seq<TweetMedia>, gs: seq<Group>, m: TweetMedia, k: nat)
    requires FirstSeenOrder(ms, gs)
    requires k < |gs| && gs[k].url == m.url
    ensures FirstSeenOrder(ms + [m], gs[k := Group(m.url, gs[k].items + [m])])
  {
    var ms' := ms + [m];
    var gs' := gs[k := Group(m.url, gs[k].items + [m])];
    forall i | 0 <= i < |gs'| ensures FirstIndex(ms', gs'[i].url) == FirstIndex(ms, gs[i].url) {
      FirstIndexSnoc(ms, m, gs'[i].url);
    }
  }

  lemma AddToGroupsStep(ms: seq<TweetMedia>, gs: seq<Group>, m: TweetMedia)
    requires GroupsOf(ms, gs)
    ensures GroupsOf(ms + [m], AddToGroups(gs, m))
  {
    var k := FindGroup(gs, m.url);
    if k < |gs| {
      OldGroupStep(ms, gs, m, k);
    } else {
      NewGroupStep(ms, gs, m);
    }
  }

  /** The grouping loop builds exactly the reference dictionary. */
  lemma {:induction false} GroupByUrlIsReference(ms: seq<TweetMedia>)
    ensures GroupsOf(ms, GroupByUrl(ms))
    decreases |ms|
  {
    if |ms| > 0 {
      var init := ms[..|ms| - 1];
      var m := ms[|ms| - 1];
      assert ms == init + [m];
      GroupByUrlIsReference(init);
      AddToGroupsStep(init, GroupByUrl(init), m);
    }
  }

  /** The media of all groups, group by group: the order the loop numbers them. */
  function Flatten(gs: seq<Group>): seq<TweetMedia>
    decreases |gs|
  {
    if |gs| == 0 then [] else gs[0].items + Flatten(gs[1..])
  }

  lemma {:induction false} FlattenSnoc(gs: seq<Group>, g: Group)
    ensures Flatten(gs + [g]) == Flatten(gs) + g.items
    decreases |gs|
  {
    if |gs| > 0 {
      assert (gs + [g])[1..] == gs[1..] + [g];
      FlattenSnoc(gs[1..], g);
    }
  }

  lemma {:induction false} FlattenUpdate(gs: seq<Group>, k: nat, m: TweetMedia)
    requires k < |gs|
    ensures multiset(Flatten(gs[k := Group(m.url, gs[k].items + [m])])) == multiset(Flatten(gs)) + multiset{m}
    decreases k
  {
    var gs' := gs[k := Group(m.url, gs[k].items + [m])];
    if k == 0 {
      assert gs'[1..] == gs[1..];
    } else {
      assert gs'[1..] == gs[1..][k - 1 := Group(m.url, gs[k].items + [m])];
      FlattenUpdate(gs[1..], k - 1, m);
    }
  }

  /** Grouping neither loses nor invents media: the groups together hold a
      permutation of the thread's media. */
  lemma {:induction false} GroupByUrlPermutes(ms: seq<TweetMedia>)
    ensures multiset(Flatten(GroupByUrl(ms))) == multiset(ms)
    decreases |ms|
  {
    if |ms| > 0 {
      var init := ms[..|ms| - 1];
      var m := ms[|ms| - 1];
      var gs := GroupByUrl(init);
      GroupByUrlPermutes(init);
      var k := FindGroup(gs, m.url);
      if k < |gs| {
        FlattenUpdate(gs, k, m);
      } else {
        FlattenSnoc(gs, Group(m.url, [m]));
      }
      assert ms == init + [m];
    }
  }

  /** The file name of the downloaded medium: the tweet id in decimal, a dash
      and the base name of the address's path. Taking that base name is a
      parameter here. */
  function OriginalName(m: TweetMedia, fileName: string -> string): string {
    IntToString(m.tweetId) + "-" + fileName(m.media)
  }

  /** The renamed file: the counter in decimal, a dot and the extension of the
      original name without its own dot (nothing after the dot when the
      original has no extension). */
  function NewName(n: nat, original: string): string {
    var e := Extension(original);
    NatToString(n) + "." + (if |e| == 0 then "" else e[1..])
  }

  lemma DigitsThenDot(a: string, x: string, b: string, y: string)
    requires forall i :: 0 <= i < |a| ==> IsDigit(a[i])
    requires forall i :: 0 <= i < |b| ==> IsDigit(b[i])
    requires a + "." + x == b + "." + y
    ensures a == b
  {
    var s := a + "." + x;
    assert |b| <= |a| by {
      assert s[|a|] == '.';
      assert forall i :: 0 <= i < |b| ==> s[i] == b[i];
    }
    assert |a| <= |b| by {
      assert s[|b|] == '.';
      assert forall i :: 0 <= i < |a| ==> s[i] == a[i];
    }
    assert a == s[..|a|];
  }

  /** The counter can be read back from a new name, so two media numbered
      differently never get the same new name. */
  lemma NewNameInjective(n1: nat, o1: string, n2: nat, o2: string)
    ensures NewName(n1, o1) == NewName(n2, o2) ==> n1 == n2
  {
    if NewName(n1, o1) == NewName(n2, o2) {
      var e1 := Extension(o1);
      var e2 := Extension(o2);
      DigitsThenDot(NatToString(n1), if |e1| == 0 then "" else e1[1..], NatToString(n2), if |e2| == 0 then "" else e2[1..]);
      NatToStringRoundTrip(n1);
      NatToStringRoundTrip(n2);
    }
  }

  /** A catalog line: a medium and the number the counter gave it. Its
      original and new file names follow from these two. */
  datatype Entry = Entry(medium: TweetMedia, number: nat)

  /** The media `ms` numbered on from `n`, in order. */
  function Numbering(ms: seq<TweetMedia>, n: nat): (es: seq<Entry>)
    ensures |es| == |ms|
    decreases |ms|
  {
    if |ms| == 0 then [] else [Entry(ms[0], n)] + Numbering(ms[1..], n + 1)
  }

  /** The medium at position `i` is numbered `n + i`. */
  lemma {:induction false} NumberingAt(ms: seq<TweetMedia>, n: nat, i: nat)
    requires i < |ms|
    ensures Numbering(ms, n)[i] == Entry(ms[i], n + i)
    decreases i
  {
    if i > 0 {
      NumberingAt(ms[1..], n + 1, i - 1);
    }
  }

  lemma {:induction false} NumberingAppend(a: seq<TweetMedia>, b: seq<TweetMedia>, n: nat)
    ensures Numbering(a + b, n) == Numbering(a, n) + Numbering(b, n + |a|)
    decreases |a|
  {
    if |a| > 0 {
      var head := [Entry(a[0], n)];
      assert (a + b)[0] == a[0];
      assert (a + b)[1..] == a[1..] + b;
      NumberingAppend(a[1..], b, n + 1);
      assert n + 1 + |a[1..]| == n + |a|;
      calc {
        Numbering(a + b, n);
        head + Numbering(a[1..] + b, n + 1);
        head + (Numbering(a[1..], n + 1) + Numbering(b, n + |a|));
        (head + Numbering(a[1..], n + 1)) + Numbering(b, n + |a|);
        Numbering(a, n) + Numbering(b, n + |a|);
      }
    } else {
      assert a + b == b;
    }
  }

  /** The new file name of a catalog line. */
  function Renamed(e: Entry, fileName: string -> string): string {
    NewName(e.number, OriginalName(e.medium, fileName))
  }

  /** The tag a medium's placeholder becomes: an HTML video element when raw
      HTML is allowed, a link otherwise, and a linked image for a photo. */
  function Tag(m: TweetMedia, name: string, unsafe: bool): string {
    if IsMovie(m.kind) then
      if unsafe then "<video src='" + name + "' controls></video>" else "[Video](" + name + ")"
    else "[![](" + name + ")](" + name + ")"
  }

  /** The inner loop over one group: the tags of its media, numbered on from
      the counter, in order. */
  function Tags(es: seq<Entry>, unsafe: bool, fileName: string -> string): (ts: seq<string>) {
    seq(|es|, i requires 0 <= i < |es| => Tag(es[i].medium, Renamed(es[i], fileName), unsafe))
  }

  /** The tag of the medium at position `i` of a group links the new name
      numbered `n + i`. */
  lemma GroupTag(items: seq<TweetMedia>, n: nat, unsafe: bool, fileName: string -> string, i: nat)
    requires i < |items|
    ensures |Tags(Numbering(items, n), unsafe, fileName)| == |items|
    ensures Tags(Numbering(items, n), unsafe, fileName)[i] == Tag(items[i], NewName(n + i, OriginalName(items[i], fileName)), unsafe)
  {
    NumberingAt(items, n, i);
  }

  /** The outer loop's catalog half: each group's media numbered on from the
      counter, which then moves past the group. This numbers the media in
      group order. */
  function GroupEntries(gs: seq<Group>, n: nat): (es: seq<Entry>)
    ensures es == Numbering(Flatten(gs), n)
    decreases |gs|
  {
    if |gs| == 0 then []
    else
      NumberingAppend(gs[0].items, Flatten(gs[1..]), n);
      Numbering(gs[0].items, n) + GroupEntries(gs[1..], n + |gs[0].items|)
  }

  /** The inner loop's counter over every group: each group's media
      numbered on from the counter, which then moves past the group. */
  function NumberedGroups(gs: seq<Group>, n: nat): (cs: seq<seq<Entry>>)
    ensures |cs| == |gs|
    decreases |gs|
  {
    if |gs| == 0 then [] else [Numbering(gs[0].items, n)] + NumberedGroups(gs[1..], n + |gs[0].items|)
  }

  /** Group `k` is numbered on from `n` plus the number of media in the
      groups before it. */
  lemma {:induction false} NumberedGroupsAt(gs: seq<Group>, n: nat, k: nat)
    requires k < |gs|
    ensures NumberedGroups(gs, n)[k] == Numbering(gs[k].items, n + |Flatten(gs[..k])|)
    decreases k
  {
    if k == 0 {
      assert gs[..0] == [];
    } else {
      NumberedGroupsAt(gs[1..], n + |gs[0].items|, k - 1);
      assert gs[..k][1..] == gs[1..][..k - 1];
      assert |Flatten(gs[..k])| == |gs[0].items| + |Flatten(gs[1..][..k - 1])|;
    }
  }

  /** The text that replaces one group's placeholder: a blank line, then the
      tags of its numbered media, one per line. */
  function Block(es: seq<Entry>, unsafe: bool, fileName: string -> string): string {
    "\n\n" + Join(Tags(es, unsafe, fileName), "\n")
  }

  /** The replacement of each group's placeholder. */
  function Replacements(gs: seq<Group>, n: nat, unsafe: bool, fileName: string -> string): (rs: seq<string>)
    ensures |rs| == |gs|
  {
    var cs := NumberedGroups(gs, n);
    seq(|gs|, k requires 0 <= k < |gs| => Block(cs[k], unsafe, fileName))
  }

  /** Group `k`'s placeholder becomes a blank line and the tags of its media
      numbered on from `n` plus the number of media in the groups before it. */
  lemma ReplacementsAt(gs: seq<Group>, n: nat, unsafe: bool, fileName: string -> string, k: nat)
    requires k < |gs|
    ensures Replacements(gs, n, unsafe, fileName)[k]
         == "\n\n" + Join(Tags(Numbering(gs[k].items, n + |Flatten(gs[..k])|), unsafe, fileName), "\n")
  {
    NumberedGroupsAt(gs, n, k);
  }

  lemma {:induction false} FlattenAppend(a: seq<Group>, b: seq<Group>)
    ensures Flatten(a + b) == Flatten(a) + Flatten(b)
    decreases |a|
  {
    if |a| > 0 {
      assert (a + b)[1..] == a[1..] + b;
      FlattenAppend(a[1..], b);
    } else {
      assert a + b == b;
    }
  }

  /** The catalog lines of group `k`'s media are the ones numbered on from `n`
      plus the number of media in the groups before it, and they sit in the
      group order numbering right after those groups' lines. */
  lemma GroupEntriesSlice(gs: seq<Group>, n: nat, k: nat)
    requires k < |gs|
    ensures |Flatten(gs[..k])| + |gs[k].items| <= |GroupEntries(gs, n)|
    ensures GroupEntries(gs, n)[|Flatten(gs[..k])|..|Flatten(gs[..k])| + |gs[k].items|]
         == Numbering(gs[k].items, n + |Flatten(gs[..k])|)
  {
    var before := Flatten(gs[..k]);
    var items := gs[k].items;
    var after := Flatten(gs[k + 1..]);
    assert gs == gs[..k] + ([gs[k]] + gs[k + 1..]);
    FlattenAppend(gs[..k], [gs[k]] + gs[k + 1..]);
    assert Flatten([gs[k]] + gs[k + 1..]) == items + after by {
      assert ([gs[k]] + gs[k + 1..])[1..] == gs[k + 1..];
    }
    assert Flatten(gs) == before + (items + after);
    NumberingMiddle(before, items, after, n);
  }

  /** The media in the middle of a sequence keep their numbers when numbered
      on their own from the count before them. */
  lemma NumberingMiddle(before: seq<TweetMedia>, items: seq<TweetMedia>, after: seq<TweetMedia>, n: nat)
    ensures |before| + |items| <= |Numbering(before + (items + after), n)|
    ensures Numbering(before + (items + after), n)[|before|..|before| + |items|] == Numbering(items, n + |before|)
  {
    NumberingAppend(before, items + after, n);
    NumberingAppend(items, after, n + |before|);
    MiddleSlice(Numbering(before, n), Numbering(items, n + |before|), Numbering(after, n + |before| + |items|));
  }

  lemma MiddleSlice<T>(a: seq<T>, b: seq<T>, c: seq<T>)
    ensures (a + (b + c))[|a|..|a| + |b|] == b
  {
  }

  /** The tag and the catalog agree: the `i`-th medium of group `k` has the
      catalog line numbered as its tag is, `n` plus the media before the
      group plus `i`. */
  lemma GroupEntriesAt(gs: seq<Group>, n: nat, k: nat, i: nat)
    requires k < |gs| && i < |gs[k].items|
    ensures |Flatten(gs[..k])| + i < |GroupEntries(gs, n)|
    ensures GroupEntries(gs, n)[|Flatten(gs[..k])| + i] == Entry(gs[k].items[i], n + |Flatten(gs[..k])| + i)
  {
    var lo := |Flatten(gs[..k])|;
    GroupEntriesSlice(gs, n, k);
    NumberingAt(gs[k].items, n + lo, i);
    assert GroupEntries(gs, n)[lo + i] == GroupEntries(gs, n)[lo..lo + |gs[k].items|][i];
  }

  /** Group `k`'s placeholder shows exactly its own slice of the catalog
      lines: the tags are rendered from the same numbered entries the catalog
      is filled from. */
  lemma BlockShowsEntries(gs: seq<Group>, n: nat, unsafe: bool, fileName: string -> string, k: nat)
    requires k < |gs|
    ensures var lo := |Flatten(gs[..k])|;
      && lo + |gs[k].items| <= |GroupEntries(gs, n)|
      && Replacements(gs, n, unsafe, fileName)[k]
         == Block(GroupEntries(gs, n)[lo..lo + |gs[k].items|], unsafe, fileName)
  {
    GroupEntriesSlice(gs, n, k);
    NumberedGroupsAt(gs, n, k);
  }

  /** The outer loop's text half: each placeholder in turn replaced everywhere
      by its replacement. */
  function ReplaceEach(text: string, urls: seq<string>, reps: seq<string>): string
    requires |urls| == |reps|
    decreases |urls|
  {
    if |urls| == 0 then text else ReplaceEach(Replace(text, urls[0], reps[0]), urls[1..], reps[1..])
  }

  /** One step of the outer loop: the text is cut at every occurrence of the
      first placeholder and the pieces glued back with its replacement. */
  lemma ReplaceEachStep(text: string, urls: seq<string>, reps: seq<string>)
    requires |urls| == |reps| && |urls| > 0 && |urls[0]| > 0
    ensures ReplaceEach(text, urls, reps) == ReplaceEach(Join(SplitOn(text, urls[0]), reps[0]), urls[1..], reps[1..])
  {
    ReplaceIsSplitJoin(text, urls[0], reps[0]);
  }

  /** The outer loop's text half written with split and join: the text is
      cut at every occurrence of each placeholder in turn and the pieces are
      glued back with that placeholder's replacement. */
  function SplitJoinEach(text: string, urls: seq<string>, reps: seq<string>): string
    requires |urls| == |reps|
    requires forall i :: 0 <= i < |urls| ==> |urls[i]| > 0
    decreases |urls|
  {
    if |urls| == 0 then text else SplitJoinEach(Join(SplitOn(text, urls[0]), reps[0]), urls[1..], reps[1..])
  }

  /** Replacing placeholder after placeholder is cutting and gluing at each. */
  lemma {:induction false} ReplaceEachIsSplitJoin(text: string, urls: seq<string>, reps: seq<string>)
    requires |urls| == |reps|
    requires forall i :: 0 <= i < |urls| ==> |urls[i]| > 0
    ensures ReplaceEach(text, urls, reps) == SplitJoinEach(text, urls, reps)
    decreases |urls|
  {
    if |urls| > 0 {
      ReplaceEachStep(text, urls, reps);
      ReplaceEachIsSplitJoin(Join(SplitOn(text, urls[0]), reps[0]), urls[1..], reps[1..]);
    }
  }

  /** A text in which no placeholder occurs is left as it was. */
  lemma {:induction false} ReplaceEachUntouched(text: string, urls: seq<string>, reps: seq<string>)
    requires |urls| == |reps|
    requires forall i :: 0 <= i < |urls| ==> |urls[i]| > 0 && !Contains(text, urls[i])
    ensures ReplaceEach(text, urls, reps) == text
    decreases |urls|
  {
    if |urls| > 0 {
      assert Replace(text, urls[0], reps[0]) == text;
      ReplaceEachUntouched(text, urls[1..], reps[1..]);
    }
  }

  /** The placeholders of the groups, in group order. */
  function GroupUrls(gs: seq<Group>): (us: seq<string>)
    ensures |us| == |gs| && forall i :: 0 <= i < |gs| ==> us[i] == gs[i].url
  {
    seq(|gs|, i requires 0 <= i < |gs| => gs[i].url)
  }

  /** Every catalog line is written. */
  const EveryLine: Entry -> bool := (e: Entry) => true

  /** A catalog line's key: the original file name. */
  function OriginalOf(fileName: string -> string): Entry -> string {
    (e: Entry) => OriginalName(e.medium, fileName)
  }

  /** A catalog line's value: the new file name. */
  function RenamedOf(fileName: string -> string): Entry -> string {
    (e: Entry) => Renamed(e, fileName)
  }

  /** `media_files`: original file name to new file name, filled line by
      line, so a later line with the same original name overwrites an earlier
      one. */
  function Catalog(es: seq<Entry>, fileName: string -> string): map<string, string> {
    Index(es, EveryLine, OriginalOf(fileName), RenamedOf(fileName))
  }

  /** The catalog's keys are the original names of the media `ms`. */
  lemma CatalogKeys(ms: seq<TweetMedia>, n: nat, fileName: string -> string)
    ensures Catalog(Numbering(ms, n), fileName).Keys == set j | 0 <= j < |ms| :: OriginalName(ms[j], fileName)
  {
    var es := Numbering(ms, n);
    var c := Catalog(es, fileName);
    var names := set j | 0 <= j < |ms| :: OriginalName(ms[j], fileName);
    forall k | k in c ensures k in names {
      var j := IndexSource(es, EveryLine, OriginalOf(fileName), RenamedOf(fileName), k);
      NumberingAt(ms, n, j);
    }
    forall j | 0 <= j < |ms| ensures OriginalName(ms[j], fileName) in c {
      NumberingAt(ms, n, j);
      assert EveryLine(es[j]) && OriginalOf(fileName)(es[j]) == OriginalName(ms[j], fileName);
    }
  }

  /** The medium whose line a catalog key holds: the last one with that
      original name. */
  lemma CatalogSource(ms: seq<TweetMedia>, n: nat, fileName: string -> string, k: string) returns (j: nat)
    requires k in Catalog(Numbering(ms, n), fileName)
    ensures j < |ms| && OriginalName(ms[j], fileName) == k
    ensures Catalog(Numbering(ms, n), fileName)[k] == Renamed(Entry(ms[j], n + j), fileName)
    ensures forall j' :: j < j' < |ms| ==> OriginalName(ms[j'], fileName) != k
  {
    var es := Numbering(ms, n);
    j := IndexSource(es, EveryLine, OriginalOf(fileName), RenamedOf(fileName), k);
    NumberingAt(ms, n, j);
    forall j' | j < j' < |ms| ensures OriginalName(ms[j'], fileName) != k {
      NumberingAt(ms, n, j');
      assert OriginalOf(fileName)(es[j']) != k;
    }
  }

  /** Each original name maps to the new name of the LAST medium with that
      name, numbered by its position. */
  lemma CatalogLastWins(ms: seq<TweetMedia>, n: nat, fileName: string -> string)
    ensures var c := Catalog(Numbering(ms, n), fileName);
      forall k :: k in c ==>
        exists j :: && 0 <= j < |ms| && OriginalName(ms[j], fileName) == k && c[k] == Renamed(Entry(ms[j], n + j), fileName)
                    && forall j' :: j < j' < |ms| ==> OriginalName(ms[j'], fileName) != k
  {
    var c := Catalog(Numbering(ms, n), fileName);
    forall k | k in c
      ensures exists j :: && 0 <= j < |ms| && OriginalName(ms[j], fileName) == k && c[k] == Renamed(Entry(ms[j], n + j), fileName)
                          && forall j' :: j < j' < |ms| ==> OriginalName(ms[j'], fileName) != k
    {
      var j := CatalogSource(ms, n, fileName, k);
    }
  }

  lemma RenamedApart(e1: Entry, e2: Entry, fileName: string -> string)
    ensures Renamed(e1, fileName) == Renamed(e2, fileName) ==> e1.number == e2.number
  {
    NewNameInjective(e1.number, OriginalName(e1.medium, fileName), e2.number, OriginalName(e2.medium, fileName));
  }

  /** Media numbered differently get different new names. */
  lemma NumberingRenamesApart(ms: seq<TweetMedia>, n: nat, fileName: string -> string)
    ensures ValuesApart(Numbering(ms, n), RenamedOf(fileName))
  {
    var es := Numbering(ms, n);
    forall i, j | 0 <= i < |es| && 0 <= j < |es| && i != j ensures RenamedOf(fileName)(es[i]) != RenamedOf(fileName)(es[j]) {
      NumberingAt(ms, n, i);
      NumberingAt(ms, n, j);
      RenamedApart(es[i], es[j], fileName);
    }
  }

  /** No two original names are renamed to the same file. */
  lemma CatalogInjective(ms: seq<TweetMedia>, n: nat, fileName: string -> string)
    ensures var c := Catalog(Numbering(ms, n), fileName);
      forall k1, k2 :: k1 in c && k2 in c && k1 != k2 ==> c[k1] != c[k2]
  {
    NumberingRenamesApart(ms, n, fileName);
    IndexInjective(Numbering(ms, n), EveryLine, OriginalOf(fileName), RenamedOf(fileName));
  }

  /** The media half of `build_post`: the thread's media grouped by
      placeholder, each placeholder replaced by its group's tags, and the
      catalog of the media numbered from 1 in group order. */
  function PlaceMedia(text: string, ms: seq<TweetMedia>, unsafe: bool, fileName: string -> string): (r: (string, map<string, string>))
  {
    var gs := GroupByUrl(ms);
    (ReplaceEach(text, GroupUrls(gs), Replacements(gs, 1, unsafe, fileName)), Catalog(GroupEntries(gs, 1), fileName))
  }

  /** Two arrangements of the same media have the same original names. */
  lemma OriginalsOfPermutation(a: seq<TweetMedia>, b: seq<TweetMedia>, fileName: string -> string)
    requires multiset(a) == multiset(b)
    ensures (set j | 0 <= j < |a| :: OriginalName(a[j], fileName)) == (set j | 0 <= j < |b| :: OriginalName(b[j], fileName))
  {
    OriginalsIncluded(a, b, fileName);
    OriginalsIncluded(b, a, fileName);
  }

  lemma OriginalsIncluded(a: seq<TweetMedia>, b: seq<TweetMedia>, fileName: string -> string)
    requires multiset(a) <= multiset(b)
    ensures (set j | 0 <= j < |a| :: OriginalName(a[j], fileName)) <= (set j | 0 <= j < |b| :: OriginalName(b[j], fileName))
  {
    var sb := set j | 0 <= j < |b| :: OriginalName(b[j], fileName);
    forall j | 0 <= j < |a| ensures OriginalName(a[j], fileName) in sb {
      assert a[j] in multiset(b);
      var j' :| 0 <= j' < |b| && b[j'] == a[j];
      assert OriginalName(b[j'], fileName) in sb;
    }
  }

  /** The catalog of a thread: one key per original file name among the
      thread's media, each mapped to a new name numbered between 1 and the
      number of media, and no two keys mapped to the same new name. */
  lemma MediaCatalog(text: string, ms: seq<TweetMedia>, unsafe: bool, fileName: string -> string)
    ensures var c := PlaceMedia(text, ms, unsafe, fileName).1;
      && c.Keys == (set j | 0 <= j < |ms| :: OriginalName(ms[j], fileName))
      && (forall k :: k in c ==> exists p :: 1 <= p <= |ms| && c[k] == NewName(p, k))
      && (forall k1, k2 :: k1 in c && k2 in c && k1 != k2 ==> c[k1] != c[k2])
  {
    var gs := GroupByUrl(ms);
    var flat := Flatten(gs);
    var c := PlaceMedia(text, ms, unsafe, fileName).1;
    assert c == Catalog(Numbering(flat, 1), fileName);
    GroupByUrlPermutes(ms);
    assert |flat| == |ms| by {
      assert |multiset(flat)| == |multiset(ms)|;
    }
    OriginalsOfPermutation(flat, ms, fileName);
    CatalogKeys(flat, 1, fileName);
    CatalogInjective(flat, 1, fileName);
    CatalogLastWins(flat, 1, fileName);
    forall k | k in c ensures exists p :: 1 <= p <= |ms| && c[k] == NewName(p, k) {
      var j := CatalogSource(flat, 1, fileName, k);
      assert c[k] == NewName(1 + j, k);
    }
  }

  /** A text in which no medium's placeholder occurs comes out of the media
      step unchanged. */
  lemma PlaceMediaUntouched(text: string, ms: seq<TweetMedia>, unsafe: bool, fileName: string -> string)
    requires forall j :: 0 <= j < |ms| ==> |ms[j].url| > 0 && !Contains(text, ms[j].url)
    ensures PlaceMedia(text, ms, unsafe, fileName).0 == text
  {
    var gs := GroupByUrl(ms);
    GroupByUrlIsReference(ms);
    var us := GroupUrls(gs);
    forall i | 0 <= i < |us| ensures |us[i]| > 0 && !Contains(text, us[i]) {
      var j := FirstIndex(ms, gs[i].url);
      assert ms[j].url == us[i];
    }
    ReplaceEachUntouched(text, us, Replacements(gs, 1, unsafe, fileName));
  }

  /** The placeholders of the groups are links of the media, so they are
      non-empty when every medium's link is. */
  lemma GroupUrlsNonEmpty(ms: seq<TweetMedia>)
    requires forall j :: 0 <= j < |ms| ==> |ms[j].url| > 0
    ensures forall i :: 0 <= i < |GroupByUrl(ms)| ==> |GroupUrls(GroupByUrl(ms))[i]| > 0
  {
    var gs := GroupByUrl(ms);
    GroupByUrlIsReference(ms);
    forall i | 0 <= i < |gs| ensures |GroupUrls(gs)[i]| > 0 {
      var j := FirstIndex(ms, gs[i].url);
      assert ms[j].url == gs[i].url;
    }
  }

  /** The media step's text: the placeholders of the groups, in the order
      their links first appear, each cut out everywhere and replaced by its
      group's block of tags (see `ReplacementsAt` and `BlockShowsEntries`). */
  lemma PlaceMediaText(text: string, ms: seq<TweetMedia>, unsafe: bool, fileName: string -> string)
    requires forall j :: 0 <= j < |ms| ==> |ms[j].url| > 0
    ensures forall i :: 0 <= i < |GroupByUrl(ms)| ==> |GroupUrls(GroupByUrl(ms))[i]| > 0
    ensures PlaceMedia(text, ms, unsafe, fileName).0
         == SplitJoinEach(text, GroupUrls(GroupByUrl(ms)), Replacements(GroupByUrl(ms), 1, unsafe, fileName))
  {
    GroupUrlsNonEmpty(ms);
    var gs := GroupByUrl(ms);
    ReplaceEachIsSplitJoin(text, GroupUrls(gs), Replacements(gs, 1, unsafe, fileName));
  }

  /** When every medium carries the same placeholder there is one group,
      holding all of them. */
  lemma {:induction false} OneUrlOneGroup(ms: seq<TweetMedia>, url: string)
    requires |ms| > 0
    requires forall j :: 0 <= j < |ms| ==> ms[j].url == url
    ensures GroupByUrl(ms) == [Group(url, ms)]
    decreases |ms|
  {
    var init := ms[..|ms| - 1];
    var m := ms[|ms| - 1];
    if |init| > 0 {
      OneUrlOneGroup(init, url);
      assert FindGroup([Group(url, init)], m.url) == 0;
      assert init + [m] == ms;
    } else {
      assert FindGroup([], m.url) == 0;
      assert [m] == ms;
    }
  }

  /** The media step on a thread whose media share one placeholder: every
      occurrence of the placeholder becomes a blank line followed by the tags
      of all the media, numbered from 1 in order, one per line. */
  lemma PlaceMediaOneGroup(text: string, ms: seq<TweetMedia>, url: string, unsafe: bool, fileName: string -> string)
    requires |ms| > 0 && |url| > 0
    requires forall j :: 0 <= j < |ms| ==> ms[j].url == url
    ensures PlaceMedia(text, ms, unsafe, fileName).0
         == Join(SplitOn(text, url), "\n\n" + Join(Tags(Numbering(ms, 1), unsafe, fileName), "\n"))
  {
    var gs := GroupByUrl(ms);
    OneUrlOneGroup(ms, url);
    ReplacementsAt(gs, 1, unsafe, fileName, 0);
    assert gs[..0] == [];
    var reps := Replacements(gs, 1, unsafe, fileName);
    ReplaceEachStep(text, GroupUrls(gs), reps);
  }
}
