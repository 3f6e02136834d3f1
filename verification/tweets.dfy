/** The records of the converter: a shortened URL, a media attachment and a
    tweet. A tweet's `replies` is filled only on a thread's root, with the
    whole reply chain in order. */
module Tweets {

  /** A shortened URL inside a tweet's text. */
  datatype TweetUrl = TweetUrl(short: string, display: string, expanded: string)

  /** The three media kinds the parser accepts. */
  datatype MediaKind = Photo | Video | AnimatedGif

  /** One media attachment: `url` is the placeholder link that appears in the
      text, `media` the address of the file itself. */
  datatype TweetMedia = TweetMedia(url: string, media: string, kind: MediaKind, tweetId: int)

  /** A parsed tweet. `created` is an instant (timestamps are totally ordered
      integers here); `reply` is the id of the tweet it answers, 0 for none. */
  datatype Tweet = Tweet(
    id: int,
    text: string,
    created: int,
    reply: int,
    rt: bool,
    mention: bool,
    urls: seq<TweetUrl>,
    media: seq<TweetMedia>,
    replies: seq<Tweet>)

  /** A video or an animated GIF: the kinds whose medium is chosen among
      bitrate variants. */
  predicate IsMovie(k: MediaKind) {
    k == Video || k == AnimatedGif
  }
}
