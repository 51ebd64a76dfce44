# antique-roadshow bot: selection pipeline

A model of the part of `bot.js` that decides what the bot tweets. The bot reads the
feed of one Facebook page and drops the posts that have no picture or that the page
itself wrote. It turns the remaining posts into stored records, with the text cut to
tweet length. It stores the records whose ids the `fb_posts` collection does not hold
yet, then picks the oldest record that has not been tweeted. After a tweet succeeds,
that record is marked as posted.

Three modules:

- `Seqs` (`seqs.dfy`): order-preserving filtering, the model of `Array.prototype.filter`.
- `Posts` (`posts.dfy`): feed items, the post filter, the text truncation and the
  transformer. The filter is pure. The transformer is a loop that appends to a list
  (`TransformData`), proved against the function `TransformAll`.
- `Store` (`store.dfy`): the collection as a class `PostCollection`. Its field
  `records` holds the documents in insertion order, and its invariant `Valid()` says
  that document ids are unique. The methods `InsertMany`, `InsertPostAndReturnOldest`
  and `UpdatePost` change the collection in place. Each one is specified by the
  functions `Unseen`, `SelectOldest` and `MarkPublished`, and the lemmas are about
  those functions.

`created_time` is an integer, because the code only compares it when sorting in
ascending order. Text is an abstract sequence of characters.

## Model

| member | source | states |
|---|---|---|
| `Posts.KeepPost` | bot.js:82-94 | An item without `full_picture` is rejected. An item whose `from.id` is the page id is rejected even if it has a picture. An item with a picture and no `from`, no `from.id` or another author is kept. |
| `Posts.FilterPosts` | bot.js:41 | The kept items are exactly the feed items that pass the filter, and there are never more of them than in the feed. |
| `Posts.Truncate` | bot.js:100-103 | The text never exceeds 140 characters. A message of at most 140 characters is unchanged. A longer one gives exactly 140 characters: its first 137 characters, then `"..."`. |
| `Posts.TransformAll` | bot.js:96-107 | One record per item, in the same order. Each record keeps the item's id, picture and `created_time`, and starts with `been_posted = false`. Its text is the truncated message, or empty when the message is absent. |
| `Posts.TransformData` | bot.js:96-107 | The loop that pushes one record per item builds exactly the transformer's result. |
| `Posts.FilteredRecordsArePublishable` | bot.js:41-42 | Every record produced by the filter and then the transformer has an image URL, is not yet posted and has text of at most 140 characters. |
| `Posts.LongMessageExample` | bot.js:101-103 | A message of 150 `a` characters becomes 137 `a` characters followed by `"..."`. |
| `Store.FindByIds` | bot.js:57 | The `$in` query returns exactly the stored records whose id is in the batch. The ids found are the stored ids that also occur in the batch. |
| `Store.Unseen` | bot.js:59-60 | The records admitted are exactly the incoming records whose id was not found. None of them carries an id that was found. |
| `Store.UnseenKeepsOrder` | bot.js:60 | Admission keeps incoming order: admitting a concatenated batch gives the admitted records of the first part followed by those of the second. |
| `Store.DedupAgainstFound` | bot.js:57-60 | Comparing the batch with only the stored records that share its ids admits the same records as comparing it with the whole store. |
| `Store.RerunAdmitsNothing` | bot.js:57-62 | Once the admitted records are inserted, running again with the same batch admits nothing. |
| `Store.AdmitKeepsIdsDistinct` | bot.js:59-62 | If the admitted records have distinct ids, inserting them keeps every id in the store unique. |
| `Store.SelectOldest` | bot.js:70-75 | The result has at most one record. It is empty exactly when every stored record is posted. Otherwise its record is stored and unposted, and no unposted record is older. |
| `Store.MarkPublished` | bot.js:138-144 | Only the first record with the given id gets `been_posted = true`. Every other field and every other record stays unchanged, and no flag is ever cleared. |
| `Store.MarkPublishedExactly` | bot.js:140 | When ids are distinct, a record ends up posted exactly when it was posted before or has the given id. Ids stay distinct. |
| `Store.MarkedIdIsPosted` | bot.js:140 | When ids are distinct, every record with the marked id is posted after the update. |
| `Store.PublishedNotReselected` | bot.js:70-75 | After a record is marked as posted, the next selection never returns a record with its id. |
| `Store.DedupAndSelectExample` | bot.js:56-75 | The store holds "1" (time 100) and "2" (time 50), and the batch is "2" and a new "3" (time 200). Only "3" is admitted, and "2" is then selected. |
| `Store.PostCollection.InsertMany` | bot.js:61-62 | The batch is appended to the collection and ids stay unique. It requires that the batch's ids are distinct and not already stored. |
| `Store.PostCollection.InsertPostAndReturnOldest` | bot.js:56-68 | The collection gains exactly the unseen records of the batch, in batch order. The result is the oldest unposted record of the updated collection. Ids stay unique. |
| `Store.PostCollection.UpdatePost` | bot.js:138-144 | The collection becomes its old contents with the post's record marked as posted. Ids stay unique. |

## Left out

- Fetching the Facebook Graph feed (bot.js:36-39) is left out because it is a network call. The model starts from the list of feed items that the call returns.
- `send_tweet` (bot.js:111-136) is left out: the image download, media upload and status update are network calls whose behaviour cannot be seen. Only its last step, `update_post`, is modelled.
- `MongoClient.connect` and `db.close` are replaced by the in-memory `PostCollection`. A store error that aborts a run is not modelled.
- `run`'s promise chaining, the immediate call and the 8-hour `setInterval` (bot.js:34-54, 146-147) are left out. Overlapping runs that select the same record are left out as well. All of these are asynchrony and scheduling.
- `Array.prototype.pick` is left out because it uses `Math.random`. `Array.prototype.contains` is never called (bot.js:23-29).
- Environment, credentials and the Twitter client set-up (bot.js:11-18) are left out.
- Store.PostCollection.InsertPostAndReturnOldest: it requires distinct ids among the records it admits. The source does not deduplicate within a batch, and `insertMany` would then fail with a duplicate-key error. That failure path is not modelled.
- Store.PostCollection.InsertMany: it requires distinct ids that are not already stored, instead of modelling the store's duplicate-key error.
- Store.SelectOldest: it breaks ties between equal `created_time` values by store order. MongoDB leaves that order unspecified, so the model fixes one choice.
- `created_time` is an integer. The feed actually supplies a timestamp string, which the store compares as a string.
- JavaScript's `length` and `substr` count UTF-16 code units. The model counts abstract characters.
- `post.from` present but `null` would make `hasOwnProperty` throw. The model has no `null` author.
- `full_picture` present with a `null` value is not modelled. Such an item is kept because the property exists, and the model has no value for that case.
- The comment at bot.js:77-81 also promises to drop images that were already tweeted. The code does not do that, so the model does not either.
