/** The record parser: one archive entry becomes one `Tweet`
    (`parse_tweet`, tweets_to_hugo.py). JSON decoding is outside the model:
    an entry arrives with its fields already decoded, and an absent optional
    field is `None` or an empty sequence. */
module Parser {
  import opened Wrappers
  import opened Tweets

  /** An element of `entities.urls`. */
  datatype RawUrl = RawUrl(url: string, displayUrl: string, expandedUrl: string)

  /** An element of `video_info.variants`; `bitrate` is absent on some. */
  datatype RawVariant = RawVariant(bitrate: Option<int>, url: string)

  /** An element of `extended_entities.media`. */
  datatype RawMedia = RawMedia(kind: string, url: string, mediaUrl: string, variants: seq<RawVariant>)

  /** The `tweet` object of one archive entry. `inReplyTo` is the decoded
      `in_reply_to_status_id_str`; `extendedMedia` is empty when
      `extended_entities` or its `media` list is absent. */
  datatype RawTweet = RawTweet(
    id: int,
    fullText: string,
    createdAt: int,
    inReplyTo: Option<int>,
    urls: seq<RawUrl>,
    extendedMedia: seq<RawMedia>)

  /** Why parsing stops: a media type other than photo, video or animated_gif
      (the "Unsupported media type" exception), or a video or GIF without any
      variant carrying a bitrate (indexing an empty sorted list). Either one
      aborts the whole run. */
  datatype ParseError = UnsupportedMediaType(kind: string) | NoBitrateVariant(url: string)

  /** The variant whose URL the parser keeps for a video or GIF: the dictionary
      `{bitrate: url}` over the variants that have a bitrate keeps the last URL
      per bitrate, and the first key after sorting is taken, so the choice is
      the LOWEST bitrate and, among variants sharing it, the last one. */
  function ChosenVariant(vs: seq<RawVariant>): (r: Option<nat>)
    ensures r.None? <==> forall i :: 0 <= i < |vs| ==> vs[i].bitrate.None?
    ensures r.Some? ==>
      && r.value < |vs|
      && vs[r.value].bitrate.Some?
      && (forall j :: 0 <= j < |vs| && vs[j].bitrate.Some? ==> vs[r.value].bitrate.value <= vs[j].bitrate.value)
      && (forall j :: r.value < j < |vs| ==> vs[j].bitrate != vs[r.value].bitrate)
    decreases |vs|
  {
    if |vs| == 0 then None
    else
      var prev := ChosenVariant(vs[..|vs| - 1]);
      var last := vs[|vs| - 1];
      if last.bitrate.None? then prev
      else if prev.None? || last.bitrate.value <= vs[prev.value].bitrate.value then Some(|vs| - 1)
      else prev
  }

  /** One element of `extended_entities.media`. */
  function ParseMediaItem(m: RawMedia, tweetId: int): (r: Result<TweetMedia, ParseError>)
    ensures r.Success? <==>
      m.kind == "photo" || ((m.kind == "video" || m.kind == "animated_gif") && exists v :: v in m.variants && v.bitrate.Some?)
    ensures m.kind == "photo" ==> r == Success(TweetMedia(m.url, m.mediaUrl, Photo, tweetId))
    ensures r.Success? && m.kind != "photo" ==>
      && r.value.url == m.url && r.value.tweetId == tweetId
      && r.value.kind == (if m.kind == "video" then Video else AnimatedGif)
      && exists i :: && 0 <= i < |m.variants| && m.variants[i].bitrate.Some?
                     && r.value.media == m.variants[i].url
                     && (forall j :: 0 <= j < |m.variants| && m.variants[j].bitrate.Some? ==>
                           m.variants[i].bitrate.value <= m.variants[j].bitrate.value)
                     && (forall j :: i < j < |m.variants| ==> m.variants[j].bitrate != m.variants[i].bitrate)
    ensures r.Failure? ==>
      r.error == if m.kind == "video" || m.kind == "animated_gif" then NoBitrateVariant(m.url) else UnsupportedMediaType(m.kind)
  {
    if m.kind == "photo" then
      Success(TweetMedia(m.url, m.mediaUrl, Photo, tweetId))
    else if m.kind == "video" || m.kind == "animated_gif" then
      match ChosenVariant(m.variants)
      case None =>
        assert forall v :: v in m.variants ==> v.bitrate.None?;
        Failure(NoBitrateVariant(m.url))
      case Some(i) =>
        Success(TweetMedia(m.url, m.variants[i].url, if m.kind == "video" then Video else AnimatedGif, tweetId))
    else
      Failure(UnsupportedMediaType(m.kind))
  }

  /** The media loop: items in source order; the first failing item aborts. */
  function ParseMedia(ms: seq<RawMedia>, tweetId: int): (r: Result<seq<TweetMedia>, ParseError>)
    ensures r.Success? <==> forall i :: 0 <= i < |ms| ==> ParseMediaItem(ms[i], tweetId).Success?
    ensures r.Success? ==>
      |r.value| == |ms| && forall i :: 0 <= i < |ms| ==> r.value[i] == ParseMediaItem(ms[i], tweetId).value
    ensures r.Failure? ==>
      exists i :: && 0 <= i < |ms| && ParseMediaItem(ms[i], tweetId) == Failure(r.error)
                  && forall j :: 0 <= j < i ==> ParseMediaItem(ms[j], tweetId).Success?
    decreases |ms|
  {
    if |ms| == 0 then Success([])
    else
      var first :- ParseMediaItem(ms[0], tweetId);
      match ParseMedia(ms[1..], tweetId)
      case Failure(e) => Failure(e)
      case Success(rest) => Success([first] + rest)
  }

  /** `parse_tweet`: flags from the text's prefix, reply id 0 when absent, URL
      triples in source order, one media entry per media item. */
  function ParseTweet(raw: RawTweet): (r: Result<Tweet, ParseError>)
    ensures r.Success? <==> ParseMedia(raw.extendedMedia, raw.id).Success?
    ensures r.Failure? ==> ParseMedia(raw.extendedMedia, raw.id) == Failure(r.error)
    ensures r.Success? ==>
      && r.value.id == raw.id
      && r.value.text == raw.fullText
      && r.value.created == raw.createdAt
      && (r.value.reply == if raw.inReplyTo.Some? then raw.inReplyTo.value else 0)
      && (r.value.rt <==> "RT @" <= raw.fullText)
      && (r.value.mention <==> "@" <= raw.fullText)
      && |r.value.urls| == |raw.urls|
      && (forall i :: 0 <= i < |raw.urls| ==>
            r.value.urls[i] == TweetUrl(raw.urls[i].url, raw.urls[i].displayUrl, raw.urls[i].expandedUrl))
      && r.value.media == ParseMedia(raw.extendedMedia, raw.id).value
      && r.value.replies == []
  {
    var urls := seq(|raw.urls|, i requires 0 <= i < |raw.urls| =>
      TweetUrl(raw.urls[i].url, raw.urls[i].displayUrl, raw.urls[i].expandedUrl));
    var media :- ParseMedia(raw.extendedMedia, raw.id);
    Success(Tweet(
      raw.id, raw.fullText, raw.createdAt, raw.inReplyTo.GetOr(0),
      "RT @" <= raw.fullText, "@" <= raw.fullText, urls, media, []))
  }

  /** Parsing every entry of the archive, in order; the first failure aborts. */
  function ParseAll(raws: seq<RawTweet>): (r: Result<seq<Tweet>, ParseError>)
    ensures r.Success? <==> forall i :: 0 <= i < |raws| ==> ParseTweet(raws[i]).Success?
    ensures r.Success? ==>
      |r.value| == |raws| && forall i :: 0 <= i < |raws| ==> r.value[i] == ParseTweet(raws[i]).value
    ensures r.Failure? ==>
      exists i :: && 0 <= i < |raws| && ParseTweet(raws[i]) == Failure(r.error)
                  && forall j :: 0 <= j < i ==> ParseTweet(raws[j]).Success?
    decreases |raws|
  {
    if |raws| == 0 then Success([])
    else
      var first :- ParseTweet(raws[0]);
      var rest :- ParseAll(raws[1..]);
      Success([first] + rest)
  }
}
