/** `build_post` (tweets_to_hugo.py): a thread becomes a Hugo post, a front
    matter block followed by the thread's text with its links, mentions and
    media rewritten, together with the catalog of media files to rename.
    The date rendering (`isoformat`) and the URL-to-file-name step are
    parameters. */
module Post {
  import opened Tweets
  import opened Text
  import opened Decimal
  import opened Mentions
  import opened Merge
  import opened Media

  /** The front matter lines. An empty author or tag is left out, as Python
      treats an empty string like a missing one. */
  function FrontMatter(t: Tweet, author: string, tag: string, date: string): (lines: seq<string>)
    ensures 4 <= |lines| <= 6
    ensures lines[0] == "---" && lines[|lines| - 1] == "---"
    ensures lines[1] == "title: " + IntToString(t.id) && lines[2] == "date: " + date
    ensures |lines| == 4 + (if author == "" then 0 else 1) + (if tag == "" then 0 else 1)
    ensures author != "" ==> lines[3] == "author: " + author
    ensures tag != "" ==> lines[|lines| - 2] == "tags: [\"" + tag + "\"]"
  {
    ["---", "title: " + IntToString(t.id), "date: " + date]
    + (if author == "" then [] else ["author: " + author])
    + (if tag == "" then [] else ["tags: [\"" + tag + "\"]"])
    + ["---"]
  }

  /** The body: the merged thread text, short links expanded, mentions
      linked, media placeholders replaced; with the media catalog. */
  function Body(t: Tweet, unsafe: bool, fileName: string -> string): (string, map<string, string>) {
    var text := ExpandUrls(ThreadText(t), ThreadUrls(t));
    PlaceMedia(LinkMentions(text), ThreadMedia(t), unsafe, fileName)
  }

  /** `build_post(t, author, tag, unsafe)`: the front matter and the body
      joined by line breaks, and the media catalog. */
  function BuildPost(t: Tweet, author: string, tag: string, unsafe: bool,
                     isoformat: int -> string, fileName: string -> string): (r: (string, map<string, string>))
  {
    var body := Body(t, unsafe, fileName);
    (Join(FrontMatter(t, author, tag, isoformat(t.created)) + [body.0], "\n"), body.1)
  }

  /** None of the front matter's lines holds a line break. */
  lemma FrontMatterNoBreak(t: Tweet, author: string, tag: string, date: string)
    requires '\n' !in author && '\n' !in tag && '\n' !in date
    ensures NoLineBreak(FrontMatter(t, author, tag, date))
  {
    var head := ["---", "title: " + IntToString(t.id), "date: " + date];
    var a := if author == "" then [] else ["author: " + author];
    var g := if tag == "" then [] else ["tags: [\"" + tag + "\"]"];
    assert FrontMatter(t, author, tag, date) == head + a + g + ["---"];
    assert '\n' !in IntToString(t.id);
    NoBreakConcat("title: ", IntToString(t.id));
    NoBreakConcat("date: ", date);
    assert NoLineBreak(head);
    if author != "" {
      NoBreakConcat("author: ", author);
    }
    assert NoLineBreak(a);
    if tag != "" {
      NoBreakConcat("tags: [\"", tag);
      NoBreakConcat("tags: [\"" + tag, "\"]");
    }
    assert NoLineBreak(g);
    assert NoLineBreak(["---"]);
    NoLineBreakAppend(head, a);
    NoLineBreakAppend(head + a, g);
    NoLineBreakAppend(head + a + g, ["---"]);
  }

  /** Splitting the post at line breaks gives the front matter lines, then
      the body's. */
  lemma FrontMatterLines(t: Tweet, author: string, tag: string, date: string, body: string)
    requires '\n' !in author && '\n' !in tag && '\n' !in date
    ensures SplitOn(Join(FrontMatter(t, author, tag, date) + [body], "\n"), "\n")
         == FrontMatter(t, author, tag, date) + SplitOn(body, "\n")
  {
    var fm := FrontMatter(t, author, tag, date);
    FrontMatterNoBreak(t, author, tag, date);
    assert forall i :: 0 <= i < |fm| ==> '\n' !in fm[i];
    SplitOnJoinPrefix(fm, body, '\n');
  }

  /** Front matter followed by any body reads back line by line: when the
      author, tag and date hold no line break, the first lines are exactly the
      front matter, the remaining lines are the body's, and the title line
      gives back the tweet's id. */
  lemma FrontMatterReadsBack(t: Tweet, author: string, tag: string, date: string, body: string)
    requires '\n' !in author && '\n' !in tag && '\n' !in date
    ensures var lines := SplitOn(Join(FrontMatter(t, author, tag, date) + [body], "\n"), "\n");
      var fm := FrontMatter(t, author, tag, date);
      && |fm| < |lines| && lines[..|fm|] == fm && lines[|fm|..] == SplitOn(body, "\n")
      && lines[1][..7] == "title: " && ParseInt(lines[1][7..]) == t.id
  {
    var fm := FrontMatter(t, author, tag, date);
    var lines := SplitOn(Join(fm + [body], "\n"), "\n");
    FrontMatterLines(t, author, tag, date, body);
    SplitAt(lines, fm, SplitOn(body, "\n"));
    assert lines[1] == fm[1] == "title: " + IntToString(t.id);
    assert lines[1][7..] == IntToString(t.id);
    IntToStringRoundTrip(t.id);
  }

  predicate NoLineBreak(ls: seq<string>) {
    forall i :: 0 <= i < |ls| ==> '\n' !in ls[i]
  }

  lemma NoBreakConcat(x: string, y: string)
    requires '\n' !in x && '\n' !in y
    ensures '\n' !in x + y
  {
  }

  lemma NoLineBreakAppend(a: seq<string>, b: seq<string>)
    requires NoLineBreak(a) && NoLineBreak(b)
    ensures NoLineBreak(a + b)
  {
    forall i | 0 <= i < |a + b| ensures '\n' !in (a + b)[i] {
      if i < |a| { assert (a + b)[i] == a[i]; } else { assert (a + b)[i] == b[i - |a|]; }
    }
  }

  lemma SplitAt<T>(s: seq<T>, a: seq<T>, b: seq<T>)
    requires s == a + b
    ensures s[..|a|] == a && s[|a|..] == b
  {
  }

  /** The post starts with its front matter, one field per line, and the
      rest of its lines are the body's. */
  lemma PostStartsWithFrontMatter(t: Tweet, author: string, tag: string, unsafe: bool,
                                  isoformat: int -> string, fileName: string -> string)
    requires '\n' !in author && '\n' !in tag && '\n' !in isoformat(t.created)
    ensures var lines := SplitOn(BuildPost(t, author, tag, unsafe, isoformat, fileName).0, "\n");
      var fm := FrontMatter(t, author, tag, isoformat(t.created));
      && |fm| < |lines| && lines[..|fm|] == fm
      && lines[|fm|..] == SplitOn(Body(t, unsafe, fileName).0, "\n")
      && lines[1][..7] == "title: " && ParseInt(lines[1][7..]) == t.id
  {
    FrontMatterReadsBack(t, author, tag, isoformat(t.created), Body(t, unsafe, fileName).0);
  }

  /** The catalog holds one key per original file name among the thread's
      media, each renamed to a number between 1 and the number of media with
      the original extension, and no two keys share a new name. */
  lemma PostCatalog(t: Tweet, author: string, tag: string, unsafe: bool,
                    isoformat: int -> string, fileName: string -> string)
    ensures var c := BuildPost(t, author, tag, unsafe, isoformat, fileName).1;
      var ms := ThreadMedia(t);
      && c.Keys == (set j | 0 <= j < |ms| :: OriginalName(ms[j], fileName))
      && (forall k :: k in c ==> exists p :: 1 <= p <= |ms| && c[k] == NewName(p, k))
      && (forall k1, k2 :: k1 in c && k2 in c && k1 != k2 ==> c[k1] != c[k2])
  {
    MediaCatalog(LinkMentions(ExpandUrls(ThreadText(t), ThreadUrls(t))), ThreadMedia(t), unsafe, fileName);
  }

  /** A thread without links, media or mentions whose replies are neither
      stripped nor spliced becomes the front matter followed by exactly the
      debug rendering, with an empty catalog. */
  lemma PlainThreadPost(t: Tweet, author: string, tag: string, unsafe: bool,
                        isoformat: int -> string, fileName: string -> string)
    requires ThreadUrls(t) == [] && ThreadMedia(t) == []
    requires forall i :: 0 <= i < |t.replies| ==> PlainReply(t.replies[i].text)
    requires '@' !in DebugThread(t)
    ensures BuildPost(t, author, tag, unsafe, isoformat, fileName)
         == (Join(FrontMatter(t, author, tag, isoformat(t.created)) + [DebugThread(t)], "\n"), map[])
  {
    DebugThreadAgrees(t);
    var text := DebugThread(t);
    LinkMentionsPlain(text, "");
    assert text + "" == text;
    assert GroupByUrl([]) == [];
  }
}
