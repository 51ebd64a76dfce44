/** The `fb_posts` collection and the bot's three uses of it: admitting the
    posts it has not seen before, choosing the oldest post not yet tweeted,
    and marking a post as tweeted. The document store is modelled as an
    in-memory sequence of records in insertion order. */
module Store {
  import opened Seqs
  import opened Posts

  /** The ids of a list of records. */
  function Ids(recs: seq<PostRecord>): set<string> {
    set p | p in recs :: p.id
  }

  /** No two records share an id (the store's unique `_id` key). */
  ghost predicate DistinctIds(recs: seq<PostRecord>) {
    forall i, j :: 0 <= i < j < |recs| ==> recs[i].id != recs[j].id
  }

  /** The stored records whose id is one of `ids` (a `find` with `$in`). */
  function FindByIds(recs: seq<PostRecord>, ids: set<string>): (found: seq<PostRecord>)
    ensures forall p :: p in found <==> p in recs && p.id in ids
    ensures Ids(found) == Ids(recs) * ids
  {
    var found := Filter(recs, (p: PostRecord) => p.id in ids);
    assert forall x :: x in Ids(recs) * ids ==> x in Ids(found) by {
      forall x | x in Ids(recs) * ids ensures x in Ids(found) {
        var p :| p in recs && p.id == x;
        assert p in found;
      }
    }
    found
  }

  /** The incoming records whose id is not in `seen`, in incoming order. */
  function Unseen(batch: seq<PostRecord>, seen: set<string>): (toEnter: seq<PostRecord>)
    ensures forall p :: p in toEnter <==> p in batch && p.id !in seen
    ensures Ids(toEnter) !! seen
  {
    Filter(batch, (p: PostRecord) => p.id !in seen)
  }

  /** The oldest record not yet posted, as a list of at most one element:
      empty exactly when every record has been posted. Among records with
      the same creation time the earliest stored one is chosen. */
  function SelectOldest(recs: seq<PostRecord>): (oldest: seq<PostRecord>)
    ensures |oldest| <= 1
    ensures oldest == [] <==> forall p :: p in recs ==> p.beenPosted
    ensures oldest != [] ==>
      oldest[0] in recs && !oldest[0].beenPosted &&
      forall p :: p in recs && !p.beenPosted ==> oldest[0].createdTime <= p.createdTime
  {
    if recs == [] then []
    else
      var rest := SelectOldest(recs[1..]);
      if recs[0].beenPosted then rest
      else if rest == [] || recs[0].createdTime <= rest[0].createdTime then [recs[0]]
      else rest
  }

  /** The store after marking the first record with the given id as posted
      (an `updateOne` that sets the flag): every field other than the flag,
      and every other record, is unchanged, and no flag is ever cleared. */
  function MarkPublished(recs: seq<PostRecord>, id: string): (r: seq<PostRecord>)
    ensures |r| == |recs|
    ensures forall i :: 0 <= i < |recs| ==> r[i] == recs[i].(beenPosted := r[i].beenPosted)
    ensures forall i :: 0 <= i < |recs| ==>
      (r[i].beenPosted <==>
        recs[i].beenPosted || (recs[i].id == id && forall j :: 0 <= j < i ==> recs[j].id != id))
  {
    if recs == [] then []
    else if recs[0].id == id then [recs[0].(beenPosted := true)] + recs[1..]
    else [recs[0]] + MarkPublished(recs[1..], id)
  }

  /** Appending records with fresh, distinct ids keeps the ids distinct. */
  lemma DistinctAppend(a: seq<PostRecord>, b: seq<PostRecord>)
    requires DistinctIds(a) && DistinctIds(b) && Ids(a) !! Ids(b)
    ensures DistinctIds(a + b)
  {
    forall i, j | 0 <= i < j < |a + b| ensures (a + b)[i].id != (a + b)[j].id {
      if i < |a| <= j {
        assert (a + b)[i] == a[i] && a[i].id in Ids(a);
        assert (a + b)[j] == b[j - |a|] && b[j - |a|].id in Ids(b);
      }
    }
  }

  /** Admission keeps the order of the batch: the records admitted from a
      concatenated batch are those admitted from each part, in turn. */
  lemma UnseenKeepsOrder(a: seq<PostRecord>, b: seq<PostRecord>, seen: set<string>)
    ensures Unseen(a + b, seen) == Unseen(a, seen) + Unseen(b, seen)
  {
    FilterAppend(a, b, (p: PostRecord) => p.id !in seen);
  }

  /** Comparing the batch against only the stored records that share an id
      with it admits the same records as comparing it against the whole
      store. */
  lemma DedupAgainstFound(recs: seq<PostRecord>, batch: seq<PostRecord>)
    ensures Unseen(batch, Ids(FindByIds(recs, Ids(batch)))) == Unseen(batch, Ids(recs))
  {
    var found := Ids(FindByIds(recs, Ids(batch)));
    assert found == Ids(recs) * Ids(batch);
    forall p | p in batch ensures (p.id !in found) == (p.id !in Ids(recs)) {
      assert p.id in Ids(batch);
    }
    FilterCongruent(batch, (p: PostRecord) => p.id !in found, (p: PostRecord) => p.id !in Ids(recs));
  }

  /** After the admitted records are inserted, running the admission again
      with the same batch admits nothing. */
  lemma RerunAdmitsNothing(recs: seq<PostRecord>, batch: seq<PostRecord>)
    ensures Unseen(batch, Ids(recs + Unseen(batch, Ids(recs)))) == []
  {
    var added := Unseen(batch, Ids(recs));
    var after := Ids(recs + added);
    forall p | p in batch ensures p.id in after {
      if p.id in Ids(recs) {
        var q :| q in recs && q.id == p.id;
        assert q in recs + added;
      } else {
        assert p in added;
        assert p in recs + added;
      }
    }
    FilterNone(batch, (p: PostRecord) => p.id !in after);
  }

  /** Inserting the admitted records keeps the store's ids distinct. */
  lemma AdmitKeepsIdsDistinct(recs: seq<PostRecord>, batch: seq<PostRecord>)
    requires DistinctIds(recs) && DistinctIds(Unseen(batch, Ids(recs)))
    ensures DistinctIds(recs + Unseen(batch, Ids(recs)))
  {
  }

  /** With distinct ids, marking an id posts exactly the record with that id. */
  lemma MarkPublishedExactly(recs: seq<PostRecord>, id: string)
    requires DistinctIds(recs)
    ensures DistinctIds(MarkPublished(recs, id))
    ensures forall i :: 0 <= i < |recs| ==>
      (MarkPublished(recs, id)[i].beenPosted <==> recs[i].beenPosted || recs[i].id == id)
  {
  }

  /** With distinct ids, every record carrying the marked id is posted. */
  lemma MarkedIdIsPosted(recs: seq<PostRecord>, id: string)
    requires DistinctIds(recs)
    ensures forall q :: q in MarkPublished(recs, id) && q.id == id ==> q.beenPosted
  {
  }

  /** Once a record is marked as posted, neither it nor any other record
      with its id can be selected again. */
  lemma PublishedNotReselected(recs: seq<PostRecord>, id: string)
    requires DistinctIds(recs)
    ensures forall q :: q in SelectOldest(MarkPublished(recs, id)) ==> q.id != id
  {
    MarkedIdIsPosted(recs, id);
  }

  /** The stored documents of the `fb_posts` collection. */
  class PostCollection {
    var records: seq<PostRecord>

    /** Document ids are unique. */
    ghost predicate Valid()
      reads this
    {
      DistinctIds(records)
    }

    constructor (initial: seq<PostRecord>)
      requires DistinctIds(initial)
      ensures Valid() && records == initial
    {
      records := initial;
    }

    /** Appends `batch` to the collection; the store refuses a duplicate id. */
    method InsertMany(batch: seq<PostRecord>)
      requires Valid()
      requires DistinctIds(batch) && Ids(batch) !! Ids(records)
      modifies this
      ensures Valid()
      ensures records == old(records) + batch
    {
      DistinctAppend(records, batch);
      records := records + batch;
    }

    /** Admits the records of the batch whose ids are not stored yet, then
        returns the oldest record not yet posted (at most one). */
    method InsertPostAndReturnOldest(batch: seq<PostRecord>) returns (oldest: seq<PostRecord>)
      requires Valid()
      requires DistinctIds(Unseen(batch, Ids(records)))
      modifies this
      ensures Valid()
      ensures records == old(records) + Unseen(batch, Ids(old(records)))
      ensures oldest == SelectOldest(records)
    {
      var existing := FindByIds(records, Ids(batch));
      var existingIds := Ids(existing);
      var toEnter := Unseen(batch, existingIds);
      DedupAgainstFound(records, batch);
      if |toEnter| > 0 {
        InsertMany(toEnter);
      } else {
        assert toEnter == [];
        assert records == records + toEnter;
      }
      oldest := SelectOldest(records);
    }

    /** Marks the stored record with the post's id as posted. */
    method UpdatePost(post: PostRecord)
      requires Valid()
      modifies this
      ensures Valid()
      ensures records == MarkPublished(old(records), post.id)
    {
      MarkPublishedExactly(records, post.id);
      records := MarkPublished(records, post.id);
    }
  }

  /** The worked example: records "1" (time 100) and "2" (time 50) are
      stored; a batch with "2" again and a new "3" (time 200) admits only
      "3", and the oldest unposted record is then "2". */
  lemma DedupAndSelectExample()
    ensures
      var r1 := PostRecord("1", "", Some("a"), 100, false);
      var r2 := PostRecord("2", "", Some("b"), 50, false);
      var r3 := PostRecord("3", "", Some("c"), 200, false);
      Unseen([r2, r3], Ids([r1, r2])) == [r3] &&
      SelectOldest([r1, r2] + [r3]) == [r2]
  {
  }
}
