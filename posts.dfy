/** Feed items as the Facebook Graph feed returns them, the post filter that
    decides which of them may be tweeted, and the transformer that turns the
    kept items into the records the bot stores. */
module Posts {
  import opened Seqs

  datatype Option<T> = None | Some(value: T) {
    /** The wrapped value, or `default` when there is none. */
    function GetOr(default: T): T {
      match this
      case Some(v) => v
      case None => default
    }
  }

  /** The id of the Facebook page whose feed the bot reads. */
  const PageId: string := "31232272780"

  /** A tweet's text is at most this long. */
  const TextLimit: nat := 140
  /** How many characters of a long message are kept before the ellipsis. */
  const KeptPrefix: nat := 137
  const Ellipsis: string := "..."

  /** The `from` field of a feed item; its `id` may be absent. */
  datatype Author = Author(id: Option<string>)

  /** One raw item of the page feed. Every field the feed may leave out is an
      `Option`; `createdTime` is only ever compared, so it is an integer. */
  datatype FeedItem = FeedItem(
    id: string,
    message: Option<string>,
    from: Option<Author>,
    fullPicture: Option<string>,
    createdTime: int)

  /** A stored post: the document kept in the `fb_posts` collection. */
  datatype PostRecord = PostRecord(
    id: string,
    text: string,
    imageUrl: Option<string>,
    createdTime: int,
    beenPosted: bool)

  /** The post filter: an item is kept only when it has a picture and was not
      written by the page itself. An item without an author, or whose author
      has no id, is not rejected on the author ground. */
  function KeepPost(p: FeedItem): (keep: bool)
    ensures p.fullPicture.None? ==> !keep
    ensures p.from.Some? && p.from.value.id == Some(PageId) ==> !keep
    ensures p.fullPicture.Some? && (p.from.None? || p.from.value.id != Some(PageId)) ==> keep
  {
    if p.fullPicture.None? then false
    else if p.from.Some? && p.from.value.id.Some? && p.from.value.id.value == PageId then false
    else true
  }

  /** The feed after the post filter, in feed order. */
  function FilterPosts(items: seq<FeedItem>): (kept: seq<FeedItem>)
    ensures |kept| <= |items|
    ensures forall p :: p in kept <==> p in items && KeepPost(p)
  {
    Filter(items, KeepPost)
  }

  /** The tweet text of a message: unchanged up to `TextLimit` characters,
      otherwise its first `KeptPrefix` characters followed by an ellipsis. */
  function Truncate(msg: string): (text: string)
    ensures |text| <= TextLimit
    ensures |msg| <= TextLimit ==> text == msg
    ensures |msg| > TextLimit ==>
      |text| == TextLimit && text[..KeptPrefix] == msg[..KeptPrefix] && text[KeptPrefix..] == Ellipsis
  {
    if |msg| > TextLimit then msg[..KeptPrefix] + Ellipsis else msg
  }

  /** The record stored for one feed item. */
  function ToRecord(p: FeedItem): PostRecord {
    PostRecord(p.id, Truncate(p.message.GetOr("")), p.fullPicture, p.createdTime, false)
  }

  /** The transformer's result: one record per item, in the same order, with
      the item's id, picture and creation time, the truncated message (empty
      when the item has none) and not yet posted. */
  function TransformAll(posts: seq<FeedItem>): (r: seq<PostRecord>)
    ensures |r| == |posts|
    ensures forall i :: 0 <= i < |posts| ==>
      r[i].id == posts[i].id && r[i].imageUrl == posts[i].fullPicture &&
      r[i].createdTime == posts[i].createdTime && !r[i].beenPosted
    ensures forall i :: 0 <= i < |posts| ==>
      |r[i].text| <= TextLimit &&
      (posts[i].message.None? ==> r[i].text == "") &&
      (posts[i].message.Some? ==> r[i].text == Truncate(posts[i].message.value))
  {
    seq(|posts|, i requires 0 <= i < |posts| => ToRecord(posts[i]))
  }

  /** The transformer as the bot runs it: a loop that appends one record per
      item to a fresh list. */
  method TransformData(posts: seq<FeedItem>) returns (transformed: seq<PostRecord>)
    ensures transformed == TransformAll(posts)
  {
    transformed := [];
    var i := 0;
    while i < |posts|
      invariant 0 <= i <= |posts|
      invariant |transformed| == i
      invariant forall k :: 0 <= k < i ==> transformed[k] == ToRecord(posts[k])
    {
      transformed := transformed + [ToRecord(posts[i])];
      i := i + 1;
    }
  }

  /** Every record that comes out of filter-then-transform can be tweeted: it
      has an image, has not been posted and its text fits a tweet. */
  lemma FilteredRecordsArePublishable(items: seq<FeedItem>)
    ensures forall r :: r in TransformAll(FilterPosts(items)) ==>
      r.imageUrl.Some? && !r.beenPosted && |r.text| <= TextLimit
  {
    var kept := FilterPosts(items);
    var recs := TransformAll(kept);
    forall r | r in recs
      ensures r.imageUrl.Some? && !r.beenPosted && |r.text| <= TextLimit
    {
      var i :| 0 <= i < |recs| && recs[i] == r;
      assert kept[i] in kept;
    }
  }

  /** A message of 150 'a' characters becomes 137 'a' characters and "...". */
  lemma LongMessageExample()
    ensures Truncate(seq(150, _ => 'a')) == seq(137, _ => 'a') + "..."
  {
  }
}
