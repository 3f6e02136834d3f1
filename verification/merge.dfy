/** The first half of `build_post` (tweets_to_hugo.py): merging a thread's
    texts into one running text and gathering its URLs and media, and the
    rewrite of shortened URLs. `debug_thread`, the plain concatenation used
    for the CSV export, is here too.

    The source does this by mutation: the root's `urls` and `media` lists are
    extended in place and each reply's `text` is overwritten with its
    stripped form, so a second `build_post` on the same thread would see the
    replies' links and media listed twice (once from the first call's
    extension of the root's lists, once again from its own) and the replies
    already stripped, and a later
    `debug_thread` sees the stripped replies. The model computes new values
    and leaves the thread as it was. */
module Merge {
  import opened Tweets
  import opened Text

  /** The index of the first word that does not start with '@', or the number
      of words when every word does. */
  function FirstNonMention(ws: seq<string>): (k: nat)
    ensures k <= |ws|
    ensures forall i :: 0 <= i < k ==> "@" <= ws[i]
    ensures k < |ws| ==> !("@" <= ws[k])
    decreases |ws|
  {
    if |ws| == 0 || !("@" <= ws[0]) then 0 else 1 + FirstNonMention(ws[1..])
  }

  /** A reply that starts with '@' loses its leading @-words; what is left is
      re-joined with single spaces. Other replies are unchanged. */
  function StripMentions(text: string): string {
    if "@" <= text then
      var ws := Words(text);
      Join(ws[FirstNonMention(ws)..], " ")
    else text
  }

  /** The stripped reply is the words of the original after its leading run
      of @-words, joined by single spaces; its first word, if any, is not a
      mention. */
  lemma StripMentionsWords(text: string)
    requires "@" <= text
    ensures var ws := Words(text); var rs := Words(StripMentions(text));
      && |rs| <= |ws| && rs == ws[|ws| - |rs|..]
      && (forall i :: 0 <= i < |ws| - |rs| ==> "@" <= ws[i])
      && (|rs| > 0 ==> !("@" <= rs[0]))
      && StripMentions(text) == Join(rs, " ")
  {
    var ws := Words(text);
    var k := FirstNonMention(ws);
    WordsOfJoin(ws[k..]);
  }

  /** A reply made only of mentions becomes empty, and only such a reply. */
  lemma StripMentionsEmpty(text: string)
    requires "@" <= text
    ensures StripMentions(text) == "" <==> forall i :: 0 <= i < |Words(text)| ==> "@" <= Words(text)[i]
  {
    var ws := Words(text);
    var k := FirstNonMention(ws);
    if k < |ws| {
      JoinStartsWithFirst(ws[k..], " ");
      assert IsWord(ws[k]);
    }
  }

  /** One reply joined to the running text. When the text ends
      with "...\n" and the reply starts with "...", `rstrip("...\n")` and
      `lstrip("...")` remove whole runs of those characters and the two are
      glued with no separator; otherwise the reply becomes a new paragraph.
      Either way the text, less its trailing dots and newlines, is kept. */
  function MergeReply(text: string, reply: string): (r: string)
    ensures RStrip(text, "...\n") <= r
    ensures EndsWith(r, "\n")
  {
    if EndsWith(text, "...\n") && "..." <= reply then
      RStrip(text, "...\n") + LStrip(reply, "...") + "\n"
    else
      text + "\n" + reply + "\n"
  }

  /** The continuation splice drops both ellipses and the line break:
      "Hello...\n" followed by "...world" gives "Helloworld\n". */
  lemma SpliceDropsEllipses(a: string, b: string)
    requires |a| == 0 || a[|a| - 1] !in "...\n"
    requires |b| == 0 || b[0] != '.'
    ensures MergeReply(a + "...\n", "..." + b) == a + b + "\n"
  {
    RStripRun(a, "...\n", "...\n");
    LStripRun("...", b, "...");
    assert EndsWith(a + "...\n", "...\n");
  }

  /** The splice in general: a text `p + q` whose tail `q` is a run of dots
      and line breaks ending in "...\n", followed by a reply `d + b` that opens
      with a run `d` of at least three dots, becomes `p + b` and a line break;
      `p` keeps its last character and `b` its first, since neither is one
      of the stripped characters. */
  lemma MergeReplySplice(p: string, q: string, d: string, b: string)
    requires forall i :: 0 <= i < |q| ==> q[i] == '.' || q[i] == '\n'
    requires |p| == 0 || (p[|p| - 1] != '.' && p[|p| - 1] != '\n')
    requires EndsWith(p + q, "...\n")
    requires |d| >= 3 && forall i :: 0 <= i < |d| ==> d[i] == '.'
    requires |b| == 0 || b[0] != '.'
    ensures MergeReply(p + q, d + b) == p + b + "\n"
  {
    RStripRun(p, q, "...\n");
    LStripRun(d, b, "...");
    assert "..." <= d + b by {
      assert (d + b)[..3] == d[..3];
    }
  }

  /** The reply becomes a paragraph of its own exactly when the splice
      condition fails: the text ends with "...\n" and the reply starts with
      "..." only in the splice case, whose result is shorter. */
  lemma MergeReplyParagraph(text: string, reply: string)
    ensures MergeReply(text, reply) == text + "\n" + reply + "\n"
        <==> !(EndsWith(text, "...\n") && "..." <= reply)
  {
    if EndsWith(text, "...\n") && "..." <= reply {
      var l := LStrip(reply, "...");
      assert |l| <= |reply| - 3 by {
        assert reply[0] == '.' && reply[1] == '.' && reply[2] == '.';
      }
    }
  }

  /** The reply loop over the text: each reply stripped, then merged. */
  function MergeAll(text: string, rs: seq<Tweet>): string
    decreases |rs|
  {
    if |rs| == 0 then text else MergeAll(MergeReply(text, StripMentions(rs[0].text)), rs[1..])
  }

  /** The thread's running text before any rewriting: the root's text and a
      line break, then every reply merged in chain order. */
  function ThreadText(t: Tweet): string {
    MergeAll(t.text + "\n", t.replies)
  }

  function ReplyUrls(rs: seq<Tweet>): seq<TweetUrl>
    decreases |rs|
  {
    if |rs| == 0 then [] else rs[0].urls + ReplyUrls(rs[1..])
  }

  function ReplyMedia(rs: seq<Tweet>): seq<TweetMedia>
    decreases |rs|
  {
    if |rs| == 0 then [] else rs[0].media + ReplyMedia(rs[1..])
  }

  /** The root's URLs followed by each reply's, in chain order. */
  function ThreadUrls(t: Tweet): seq<TweetUrl> {
    t.urls + ReplyUrls(t.replies)
  }

  /** The root's media followed by each reply's, in chain order. */
  function ThreadMedia(t: Tweet): seq<TweetMedia> {
    t.media + ReplyMedia(t.replies)
  }

  /** The markdown link a shortened URL becomes. */
  function MarkdownLink(u: TweetUrl): string {
    "[" + u.display + "](" + u.expanded + ")"
  }

  /** Every occurrence of each short URL replaced by its markdown link, in the
      order the URLs were gathered. */
  function ExpandUrls(text: string, urls: seq<TweetUrl>): (r: string)
    ensures (forall i :: 0 <= i < |urls| ==> |urls[i].short| > 0 && !Contains(text, urls[i].short)) ==> r == text
    decreases |urls|
  {
    if |urls| == 0 then text
    else ExpandUrls(Replace(text, urls[0].short, MarkdownLink(urls[0])), urls[1..])
  }

  /** One step of the rewrite: the text is cut at every occurrence of the
      first short URL and the pieces are glued back with its markdown link;
      the remaining URLs are then rewritten in the result. */
  lemma ExpandUrlsStep(text: string, u: TweetUrl, us: seq<TweetUrl>)
    requires |u.short| > 0
    ensures ExpandUrls(text, [u] + us) == ExpandUrls(Join(SplitOn(text, u.short), MarkdownLink(u)), us)
  {
    ReplaceIsSplitJoin(text, u.short, MarkdownLink(u));
    assert ([u] + us)[1..] == us;
  }

  /** A single short URL: every occurrence becomes `[display](expanded)`, and
      the text between occurrences is kept. */
  lemma ExpandOneUrl(text: string, u: TweetUrl)
    requires |u.short| > 0
    ensures ExpandUrls(text, [u]) == Join(SplitOn(text, u.short), MarkdownLink(u))
    ensures Join(SplitOn(text, u.short), u.short) == text
  {
    ReplaceIsSplitJoin(text, u.short, MarkdownLink(u));
    SplitOnJoin(text, u.short);
  }

  /** `debug_thread`: the root's text and each reply's text as its own
      paragraph, with no stripping and no splicing. */
  function DebugThread(t: Tweet): string {
    t.text + "\n" + DebugTail(t.replies)
  }

  function DebugTail(rs: seq<Tweet>): string
    decreases |rs|
  {
    if |rs| == 0 then "" else "\n" + rs[0].text + "\n" + DebugTail(rs[1..])
  }

  /** A reply text that is neither stripped nor spliced. */
  predicate PlainReply(r: string) {
    !("@" <= r) && !("..." <= r)
  }

  lemma MergePlainReply(text: string, r: string)
    requires PlainReply(r)
    ensures MergeReply(text, StripMentions(r)) == text + "\n" + r + "\n"
  {
  }

  lemma {:induction false} MergeAllPlain(text: string, rs: seq<Tweet>)
    requires forall i :: 0 <= i < |rs| ==> PlainReply(rs[i].text)
    ensures MergeAll(text, rs) == text + DebugTail(rs)
    decreases |rs|
  {
    if |rs| > 0 {
      var r := rs[0].text;
      var next := text + "\n" + r + "\n";
      calc {
        MergeAll(text, rs);
        MergeAll(MergeReply(text, StripMentions(r)), rs[1..]);
        { MergePlainReply(text, r); }
        MergeAll(next, rs[1..]);
        { MergeAllPlain(next, rs[1..]); }
        next + DebugTail(rs[1..]);
        text + ("\n" + r + "\n" + DebugTail(rs[1..]));
        text + DebugTail(rs);
      }
    }
  }

  /** When no reply starts with '@' or "...", the rendered text and the debug
      text agree. */
  lemma DebugThreadAgrees(t: Tweet)
    requires forall i :: 0 <= i < |t.replies| ==> PlainReply(t.replies[i].text)
    ensures ThreadText(t) == DebugThread(t)
  {
    MergeAllPlain(t.text + "\n", t.replies);
  }
}
