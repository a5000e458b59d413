/** The values the platform client hands to the core and receives from it. */
module Tweets {
  import opened Wrappers

  /** A post as the platform client delivers it: the fields the core reads.
      Fields that may be missing in the client's record are optional. */
  datatype Tweet = Tweet(
    id: string,
    username: Option<string>,
    text: Option<string>,
    inReplyToStatusId: Option<string>,
    likes: Option<nat>,
    retweets: Option<nat>)

  /** JavaScript truthiness of an optional string: both a missing value and
      the empty string are falsy. */
  predicate Truthy(s: Option<string>)
  {
    s.Some? && s.value != ""
  }

  /** The text an optional string becomes when used as an object key or inside
      a template literal: a missing value prints as "undefined". */
  function Display(s: Option<string>): string
  {
    if s.Some? then s.value else "undefined"
  }

  /** An attachment of a reply: its bytes and MIME type. */
  datatype Media = Media(data: seq<bv8>, mediaType: string)

  /** One `sendTweet(text, inReplyTo, media)` call that the platform accepted. */
  datatype Reply = Reply(text: string, inReplyTo: string, media: seq<Media>)
}
