# tweets_to_hugo in Dafny

A model of the converter that turns the entries of a Twitter archive into
Hugo posts. It covers the three parts of the converter's pipeline.

1. **Record parser** (`parser.dfy`). `parse_tweet` turns one archive
   entry into a `Tweet`. It sets the retweet and mention flags from the
   text's prefix, defaults the reply id to 0, and keeps the URL triples in
   order. It picks one file per video or GIF and rejects any other kind of
   media.
2. **Thread assembler** (`threads.dfy`). `build_threads` works in four steps:
   - it applies the strict date bounds and drops retweets and mentions that
     answer nothing;
   - it files roots by their own id and replies by the id they answer, and
     in both maps the last record for a key wins;
   - it walks each root's reply chain through the reply map;
   - it returns the roots and the number of reply keys.
3. **Renderer** (`merge.dfy`, `media.dfy`, `post.dfy`). `build_post` does
   the following:
   - writes the front matter;
   - strips leading @-words from replies;
   - merges the texts into paragraphs, splicing "..." continuations;
   - expands short URLs and turns @handles into profile links;
   - groups media by the placeholder link they share;
   - replaces each placeholder with the tags of its group;
   - builds the catalog from original file names to numbered names.

   `debug_thread` is modelled as well.

Supporting modules:
- `tweets.dfy` holds the records.
- `wrappers.dfy` holds `Option` and `Result`.
- `indexing.dfy` models a dictionary filled in a loop, where the last
  write wins.
- `text.dfy`, `decimal.dfy`, `paths.dfy` and `mentions.dfy` write out by
  hand the Python string operations the code relies on:
  - `split()`, `split(sep)` and `join`;
  - `rstrip` and `lstrip` with a character set;
  - `str.replace`, whose scan goes left to right, does not overlap matches
    and never rescans;
  - `str()` of an integer;
  - `os.path.splitext`;
  - the `re.sub` of mentions.

The model is functional. The Python code mutates its records:
- the root's `urls` and `media` lists are extended in place;
- each reply's `text` is overwritten with its stripped form.

So a second `build_post` on the same thread would see the replies' links
and media listed twice (the root's own appear once) and the replies already
stripped. The model returns new values and leaves the
thread unchanged.

Where the code's own comment promises something other than what the code
does, or where the code's behaviour may surprise, the model follows the code:
- **Video and GIF variant.** The comment at tweets_to_hugo.py:87 says "highest
  bitrate". But `sorted(videos.keys())[0]` at line 89 takes the lowest. If
  several variants share that bitrate, the dictionary keeps the last of them.
  `Parser.ChosenVariant` states exactly that.
- **Continuation splice.** `rstrip("...\n")` and `lstrip("...")` strip
  character sets, not suffixes or prefixes. So "Hello...\n" followed by
  "...world" gives "Helloworld\n", with both ellipses and the separator
  gone. `Merge.SpliceDropsEllipses` states this.
- **Media counter.** The counter advances once per media item, not once
  per group. Two media that share a placeholder therefore get consecutive
  numbers.

## Model

| member | source | states |
|---|---|---|
| Parser.ChosenVariant | tweets_to_hugo.py:88-89 | no index exactly when no variant has a bitrate; otherwise the chosen variant has a bitrate no larger than any other variant's, and no later variant has the same bitrate |
| Parser.ParseMediaItem | tweets_to_hugo.py:82-92 | succeeds iff the kind is photo, or video/animated_gif with some bitrate; a photo keeps `media_url`; a video/GIF keeps the URL of the lowest-bitrate variant (the last among ties); failures name the unsupported kind or the missing bitrate |
| Parser.ParseMedia | tweets_to_hugo.py:80-92 | succeeds iff every item parses, giving the items' results in order; a failure is the error of the first item that fails |
| Parser.ParseTweet | tweets_to_hugo.py:67-103 | id, text and time copied; reply is the reply target, or 0 when absent; `rt` iff the text starts with "RT @"; `mention` iff it starts with "@"; URL triples in source order; fails exactly when the media fail |
| Parser.ParseAll | tweets_to_hugo.py:133-134 | succeeds iff every entry parses, giving the results in order; otherwise gives the error of the first failing entry |
| Indexing.Index | tweets_to_hugo.py:150-153 | every kept element's key is present, and each key maps to the value of the last kept element with that key |
| Indexing.IndexKeys | tweets_to_hugo.py:150-153 | the dictionary's keys are exactly the keys of the kept elements |
| Indexing.IndexSource | tweets_to_hugo.py:150-153 | every key comes from a kept element whose value it holds, and no later kept element has that key |
| Indexing.IndexInjective | tweets_to_hugo.py:239 | when no two elements share a value, no two keys share a value |
| Threads.RootsAreLast | tweets_to_hugo.py:139-151 | `threads` has a key iff some kept root has that id, and it holds the last such root |
| Threads.RootSource | tweets_to_hugo.py:139-151 | every key of `threads` comes from a kept root with that id, the last one |
| Threads.ReplySource | tweets_to_hugo.py:139-153 | every key of `replies` comes from a kept reply answering that id, the last one, which it holds |
| Threads.ReplyKeys | tweets_to_hugo.py:139-153 | the keys of `replies` are the reply targets of the kept replies |
| Threads.Chain | tweets_to_hugo.py:155-164 | starts at `replies[root]`; each next tweet is filed under the previous tweet's id; stops exactly at the first id that is not a key; empty when the root has no replies; ids distinct; no longer than the number of reply keys |
| Threads.ChainIsUnique | tweets_to_hugo.py:155-164 | any sequence that meets the chain conditions is the walk's result |
| Threads.UniqueIdsTerminate | tweets_to_hugo.py:162-164 | when status ids are unique, no root's walk can cycle, so the loop ends |
| Threads.AttachChains | tweets_to_hugo.py:155-164 | the same keys as the roots; each root is unchanged except that its replies are its chain |
| Threads.Assemble | tweets_to_hugo.py:131-166 | the thread keys are the ids of kept roots, each holding the last such root with its chain attached; the count is the number of distinct reply targets among kept replies, including those no thread reaches |
| Threads.BuildThreads | tweets_to_hugo.py:108-166 | fails iff some entry fails to parse, even an entry the filters would drop, and then with the error of the first failing entry; otherwise assembles the parsed tweets |
| Threads.ThreadsAreFiltered | tweets_to_hugo.py:139-148 | every root and every chained reply is in bounds, not a retweet, and not a mention that answers nothing; roots answer nothing and replies answer something |
| Threads.ChainIsReplies | tweets_to_hugo.py:139-164 | every tweet of a chain walked through the reply map is a kept reply |
| Merge.FirstNonMention | tweets_to_hugo.py:208 | the index of the first word that does not start with "@", or the number of words |
| Merge.StripMentionsWords | tweets_to_hugo.py:206-209 | a reply starting with "@" becomes a suffix of its words, after a run of words that all start with "@", re-joined with single spaces; its first word, if any, is not a mention |
| Merge.StripMentionsEmpty | tweets_to_hugo.py:206-209 | such a reply becomes empty iff all its words are mentions |
| Merge.MergeReply | tweets_to_hugo.py:212-215 | the result keeps the running text less its trailing run of "." and newlines, and ends with a newline |
| Merge.MergeReplySplice | tweets_to_hugo.py:212-213 | a text `p + q` ending in "...\n", whose tail `q` is a run of dots and newlines after a `p` that ends in neither, followed by a reply `d + b` that opens with a run `d` of three or more dots before a `b` that does not start with a dot, becomes `p + b + "\n"` |
| Merge.MergeReplyParagraph | tweets_to_hugo.py:212-215 | the result is `text + "\n" + reply + "\n"` exactly when the text does not end with "...\n" or the reply does not start with "..." |
| Merge.SpliceDropsEllipses | tweets_to_hugo.py:212-213 | "a...\n" followed by "...b" becomes "ab\n" |
| Merge.ExpandUrls | tweets_to_hugo.py:220-221 | a text in which no short URL occurs is unchanged |
| Merge.ExpandUrlsStep | tweets_to_hugo.py:220-221 | the first URL's step cuts the text at every occurrence of its short form and glues the pieces with `[display](expanded)`; the remaining URLs are then rewritten in that result, in order |
| Merge.ExpandOneUrl | tweets_to_hugo.py:220-221 | with one URL, the result is the pieces between the occurrences of the short form joined by the markdown link, and the same pieces joined by the short form give back the text |
| Merge.MergeAllPlain | tweets_to_hugo.py:204-215 | replies that start with neither "@" nor "..." are appended as paragraphs, exactly as `debug_thread` appends them |
| Merge.DebugThreadAgrees | tweets_to_hugo.py:254-267 | for such a thread, the merged text of `build_post` equals `debug_thread` |
| Text.WordsOfJoin | tweets_to_hugo.py:207-209 | splitting words joined by single spaces gives the words back |
| Text.WordsKeepContent | tweets_to_hugo.py:207 | `split()` drops exactly the whitespace |
| Text.WordsSkipSpace | tweets_to_hugo.py:207 | `split()` drops a leading whitespace character, so runs of whitespace collapse; the empty text has no words; with `Text.WordsAfterWord` this fixes the words of every text |
| Text.WordsAfterWord | tweets_to_hugo.py:207 | a whitespace-free word followed by whitespace or the end is split off as one token |
| Text.WordsUnique | tweets_to_hugo.py:207 | any splitting that gives the empty text no words, drops a leading whitespace character, and splits off a leading word that ends at whitespace or at the end agrees with `split()` on every text |
| Text.RStripRun | tweets_to_hugo.py:213 | `rstrip(chars)` removes exactly a trailing run of characters from the set |
| Text.LStripRun | tweets_to_hugo.py:213 | `lstrip(chars)` removes exactly a leading run of characters from the set |
| Text.ReplaceIsSplitJoin | tweets_to_hugo.py:221 | `s.replace(old, new)` equals `new.join(s.split(old))` |
| Text.SplitOnJoin | tweets_to_hugo.py:221 | joining the pieces of `s.split(sep)` with `sep` gives `s` |
| Text.SplitOnAbsent | tweets_to_hugo.py:221 | a text in which `sep` does not occur splits into itself alone |
| Text.SplitOnFirst | tweets_to_hugo.py:221 | `split` cuts at the leftmost occurrence: when `a + sep` holds no earlier occurrence, `(a + sep + b).split(sep)` is `a` followed by the pieces of `b` |
| Text.SplitOnUnique | tweets_to_hugo.py:221 | any splitting that keeps a separator-free text whole and cuts at the leftmost occurrence agrees with `split` on every text |
| Text.LeftmostOccurrence | tweets_to_hugo.py:221 | a text containing `sep` is `a + sep + b` with no occurrence of `sep` in `a + sep` before the end of this one |
| Text.InterleaveJoin | tweets_to_hugo.py:221 | with an empty `old`, `replace` puts `new` before, between and after the characters; on the empty text it gives `new` alone |
| Mentions.HandleLength | tweets_to_hugo.py:224 | greedy: at most 15 handle characters, followed by a non-handle character or by the end of the text, unless 15 were taken |
| Mentions.LinkMentionsHandle | tweets_to_hugo.py:224 | "@" followed by a maximal handle of 1-15 characters becomes `[@h](http://x.com/h)` |
| Mentions.LinkMentionsBareAt | tweets_to_hugo.py:224 | an "@" not followed by a handle character is kept |
| Mentions.LinkMentionsPlain | tweets_to_hugo.py:224 | text without "@" is copied unchanged, the empty text included, and an "@"-free prefix passes through before the rest is linked |
| Decimal.IntToStringRoundTrip | tweets_to_hugo.py:190 | the decimal rendering of an id reads back as that id |
| Paths.Extension | tweets_to_hugo.py:238 | `splitext`: a suffix of the path, either empty or a dot followed by neither dots nor slashes; empty exactly when the last component has no dot preceded by a character other than a dot, and non-empty only when such a character comes before the extension |
| Media.GroupByUrlIsReference | tweets_to_hugo.py:227-229 | the groups have distinct links and cover every medium; each group holds exactly the media with its link, in order; groups are ordered by their link's first appearance |
| Media.GroupByUrlPermutes | tweets_to_hugo.py:227-229 | the groups together hold a permutation of the media |
| Media.NewNameInjective | tweets_to_hugo.py:238 | the counter can be read back from a new name: equal new names mean equal numbers |
| Media.GroupTag | tweets_to_hugo.py:236-247 | the tag of a group's i-th medium is the one its kind and the unsafe flag call for, linking the name numbered n + i |
| Media.GroupEntries | tweets_to_hugo.py:233-247 | numbering group by group, with the counter carried across groups, numbers the flattened media consecutively |
| Media.NumberedGroupsAt | tweets_to_hugo.py:233-247 | group `k`'s media are numbered on from 1 plus the number of media in the groups before it |
| Media.ReplacementsAt | tweets_to_hugo.py:233-248 | group `k`'s placeholder is replaced by a blank line and its media's tags, numbered on from 1 plus the media before the group, joined by newlines |
| Media.GroupEntriesSlice | tweets_to_hugo.py:233-247 | group `k`'s catalog lines are the consecutive slice of the whole numbering that follows the lines of the groups before it |
| Media.GroupEntriesAt | tweets_to_hugo.py:233-247 | the `i`-th medium of group `k` gets the catalog line numbered 1 plus the media before the group plus `i`, as its tag does |
| Media.BlockShowsEntries | tweets_to_hugo.py:233-248 | group `k`'s replacement renders exactly that group's slice of the catalog lines, so every tag links the new name the catalog gives its line |
| Media.ReplaceEachStep | tweets_to_hugo.py:248 | one outer step cuts the text at every occurrence of the placeholder and glues the pieces with the group's block |
| Media.ReplaceEachIsSplitJoin | tweets_to_hugo.py:233-248 | replacing placeholder after placeholder equals cutting and gluing at each placeholder in turn |
| Media.PlaceMediaText | tweets_to_hugo.py:226-248 | the text of the media step is the split-and-join fold over the groups' placeholders, in first-seen order, with each group's block |
| Media.OneUrlOneGroup | tweets_to_hugo.py:227-229 | media that share one link form a single group holding all of them in order |
| Media.PlaceMediaOneGroup | tweets_to_hugo.py:226-248 | when all media share one link, every occurrence of it becomes a blank line and the tags of all the media numbered from 1, one per line |
| Media.ReplaceEachUntouched | tweets_to_hugo.py:248 | frame case: a text in which no placeholder occurs is unchanged |
| Media.PlaceMediaUntouched | tweets_to_hugo.py:248 | frame case: a text in which no medium's placeholder occurs is unchanged by the media step |
| Media.CatalogKeys | tweets_to_hugo.py:237-239 | the catalog's keys are the original names of the media |
| Media.CatalogLastWins | tweets_to_hugo.py:237-239 | each original name maps to the new name of the last medium with that name, numbered by its position |
| Media.CatalogSource | tweets_to_hugo.py:234-239 | every catalog key is the original name of some medium, mapped to the new name numbered by that medium's position, with no later medium of that name |
| Media.CatalogInjective | tweets_to_hugo.py:237-239 | no two original names share a new name |
| Media.MediaCatalog | tweets_to_hugo.py:226-248 | the thread's catalog has one key per original name; each maps to `<p>.<ext of the key>` with p between 1 and the number of media; and it is injective |
| Post.FrontMatter | tweets_to_hugo.py:188-196 | "---", the title line, the date line, an author line only for a non-empty author, a tags line only for a non-empty tag, then "---" |
| Post.FrontMatterLines | tweets_to_hugo.py:188-196 | when no field holds a line break, the post's lines are the front matter's lines followed by the body's |
| Post.FrontMatterReadsBack | tweets_to_hugo.py:188-196 | when no field holds a line break, splitting the post at line breaks gives the front matter first and the body's lines after it, and the title line reads back as the tweet id |
| Post.PostStartsWithFrontMatter | tweets_to_hugo.py:171-252 | the post's first lines are its front matter, the rest are the lines of its body, and its title gives back the id |
| Post.PostCatalog | tweets_to_hugo.py:171-252 | the post's catalog covers exactly the thread's media, numbers each from 1 to the media count, and gives no two originals the same new name |
| Post.PlainThreadPost | tweets_to_hugo.py:171-267 | a thread without links, media, mentions, stripping or splicing becomes its front matter followed by exactly `debug_thread`, with an empty catalog |

## Left out

- `load_tweets` (the file read, the prefix strip and JSON decoding) and the
  command-line block (argument parsing, directories, file copies and
  writes, the CSV export) are I/O. Entries reach `Parser.ParseTweet` already
  decoded.
- A missing required JSON field raises `KeyError` in Python. The model's
  records always carry those fields. Only the optional fields are modelled:
  `in_reply_to_status_id_str`, `extended_entities`, and a variant's bitrate.
- Bitrates are integers. If an archive stored them as strings, `sorted`
  would order them lexicographically. The model does not cover that.
- Date handling is not modelled: `dateutil` parsing, `pytz` localisation,
  time-zone conversion and `isoformat`. Timestamps are totally ordered
  integers, and the filter compares instants, which a time-zone conversion
  does not change. `isoformat` is a parameter of `Post.BuildPost`.
- `urlparse` and `os.path.basename` are not modelled. The step from a media
  address to its file name is the `fileName` parameter.
- The `author` and `tag` arguments default to `None`. The model uses the
  empty string for both, since Python treats `None` and `""` alike here.
- Threads.BuildThreads: its precondition `ChainsTerminate` asks that every
  root's walk cannot cycle. This is sufficient, not necessary: the Python
  loop also ends on some maps the condition excludes, and it would spin
  forever on a cyclic map. `Threads.UniqueIdsTerminate` shows that unique
  status ids meet the condition.
- Merge.MergeReply: its own contract states only what every merge keeps.
  The two branches are stated by `Merge.MergeReplySplice` and
  `Merge.MergeReplyParagraph`.
- Merge.ExpandUrls: its own contract is the no-occurrence case only. The
  rewrite itself is stated by `Merge.ExpandUrlsStep` and
  `Merge.ExpandOneUrl`.
- Media.ReplaceEachUntouched: the frame case only. The replacement is stated
  by `Media.ReplaceEachStep` and `Media.ReplaceEachIsSplitJoin`.
- Media.PlaceMediaUntouched: the frame case only. The replacement is stated
  by `Media.PlaceMediaText`, `Media.ReplacementsAt` and
  `Media.BlockShowsEntries`.
- The mutation of records, and the aliasing it causes, is left out, as
  described above.
- The AI helper modules, `modules/post.py` and the curation and
  categorisation scripts are not part of this model. They are cloud API
  wrappers, YAML file I/O and CLI orchestration.
