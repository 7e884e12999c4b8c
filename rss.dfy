/** The feed items as the feed connector decodes them. */
module Rss {

  /** One decoded feed item: its URL (the store's business key), the rank
      the feed assigns to it and its title. */
  datatype RssEntry = RssEntry(url: string, rank: int, title: string)

  /** A decoded feed document: its entries in document order. */
  datatype RssFeed = RssFeed(entries: seq<RssEntry>)

  /** The zero value of a feed, which the connector returns with every error. */
  const ZeroFeed: RssFeed := RssFeed([])
}
