/** `process_data`: implicit-feedback filtering, categorical index encoding
    with reverse maps, the temporal train/test split and the cold-start
    cleanup of the test split. */
module Preprocessing {
  import opened Wrappers
  import opened Seqs
  import opened Categorical

  /** Seconds in one day; the split window is `test_days` days long. */
  const SecondsPerDay: int := 86400

  /** One review as read from the raw JSON lines, after column renaming. */
  datatype RawRecord = RawRecord(userId: string, itemId: string, rating: real, timestamp: int)

  /** A row of the processed table: the raw columns, the implicit label
      `interaction` and the dense codes `user_idx` / `item_idx`. */
  datatype Interaction = Interaction(
    userId: string,
    itemId: string,
    rating: real,
    timestamp: int,
    interaction: int,
    userIdx: nat,
    itemIdx: nat)

  /** What the stage persists: the reverse maps and the two splits. */
  datatype Processed = Processed(
    userMap: map<nat, string>,
    itemMap: map<nat, string>,
    train: seq<Interaction>,
    test: seq<Interaction>)

  /** The `user_idx` and `item_idx` columns of a table of interactions. */
  function UserCodes(rows: seq<Interaction>): (u: seq<nat>)
    ensures |u| == |rows|
  {
    seq(|rows|, k requires 0 <= k < |rows| => rows[k].userIdx)
  }

  function ItemCodes(rows: seq<Interaction>): (i: seq<nat>)
    ensures |i| == |rows|
  {
    seq(|rows|, k requires 0 <= k < |rows| => rows[k].itemIdx)
  }

  /** The `user_idx` column, the key rows are grouped by. */
  function UserKey(r: Interaction): nat
  {
    r.userIdx
  }

  function Raw(r: Interaction): RawRecord
  {
    RawRecord(r.userId, r.itemId, r.rating, r.timestamp)
  }

  // ----- Implicit feedback -------------------------------------------------

  function RatedAtLeast(minRating: real): RawRecord -> bool
  {
    (x: RawRecord) => x.rating >= minRating
  }

  /** The rows kept as positive interactions. */
  function ImplicitFeedback(records: seq<RawRecord>, minRating: real): (kept: seq<RawRecord>)
    ensures forall x :: multiset(kept)[x] == if x.rating >= minRating then multiset(records)[x] else 0
    ensures IsSubsequence(kept, records)
  {
    FilterCounts(records, RatedAtLeast(minRating));
    FilterIsSubsequence(records, RatedAtLeast(minRating));
    Filter(records, RatedAtLeast(minRating))
  }

  // ----- Categorical encoding ------------------------------------------------

  function UserIds(rows: seq<RawRecord>): seq<string>
  {
    seq(|rows|, k requires 0 <= k < |rows| => rows[k].userId)
  }

  function ItemIds(rows: seq<RawRecord>): seq<string>
  {
    seq(|rows|, k requires 0 <= k < |rows| => rows[k].itemId)
  }

  function UserCategories(rows: seq<RawRecord>): seq<string>
  {
    Categories(UserIds(rows))
  }

  function ItemCategories(rows: seq<RawRecord>): seq<string>
  {
    Categories(ItemIds(rows))
  }

  /** Every raw id of the table has a category. */
  lemma IdsCategorised(rows: seq<RawRecord>)
    ensures forall k :: 0 <= k < |rows| ==> rows[k].userId in UserCategories(rows)
    ensures forall k :: 0 <= k < |rows| ==> rows[k].itemId in ItemCategories(rows)
  {
    forall k | 0 <= k < |rows|
      ensures rows[k].userId in UserCategories(rows) && rows[k].itemId in ItemCategories(rows)
    {
      assert UserIds(rows)[k] in Elems(UserIds(rows));
      assert ItemIds(rows)[k] in Elems(ItemIds(rows));
    }
  }

  /** Marks every row as interaction 1 and attaches the user and item codes,
      computed over the whole table handed in. */
  function Encode(rows: seq<RawRecord>): (enc: seq<Interaction>)
    ensures |enc| == |rows|
    ensures forall k :: 0 <= k < |enc| ==> Raw(enc[k]) == rows[k] && enc[k].interaction == 1
    ensures forall k :: 0 <= k < |enc| ==>
      enc[k].userIdx < |UserCategories(rows)| && UserCategories(rows)[enc[k].userIdx] == rows[k].userId
    ensures forall k :: 0 <= k < |enc| ==>
      enc[k].itemIdx < |ItemCategories(rows)| && ItemCategories(rows)[enc[k].itemIdx] == rows[k].itemId
  {
    var users := UserCategories(rows);
    var items := ItemCategories(rows);
    IdsCategorised(rows);
    seq(|rows|, k requires 0 <= k < |rows| =>
      Interaction(rows[k].userId, rows[k].itemId, rows[k].rating, rows[k].timestamp, 1,
                  Code(users, rows[k].userId), Code(items, rows[k].itemId)))
  }

  /** The encoded table before the split. */
  function Encoded(records: seq<RawRecord>, minRating: real): seq<Interaction>
  {
    Encode(ImplicitFeedback(records, minRating))
  }

  lemma UserCodesInRange(rows: seq<RawRecord>, i: nat)
    requires i in UserIdxs(Encode(rows))
    ensures i < |UserCategories(rows)|
  {
    var enc := Encode(rows);
    var r :| r in enc && r.userIdx == i;
    var k :| 0 <= k < |enc| && enc[k] == r;
  }

  lemma UserCodeUsed(rows: seq<RawRecord>, i: nat)
    requires i < |UserCategories(rows)|
    ensures i in UserIdxs(Encode(rows))
  {
    var cats := UserCategories(rows);
    var enc := Encode(rows);
    SortedIsDistinct(cats);
    assert cats[i] in Elems(UserIds(rows));
    var k :| 0 <= k < |rows| && UserIds(rows)[k] == cats[i];
    assert cats[enc[k].userIdx] == cats[i];
    assert enc[k] in enc;
  }

  lemma UserCodesGapFree(rows: seq<RawRecord>)
    ensures |UserCategories(rows)| == |Elems(UserIds(rows))|
    ensures forall i: nat :: i in UserIdxs(Encode(rows)) <==> i < |UserCategories(rows)|
  {
    SortedIsDistinct(UserCategories(rows));
    ElemsOfDistinct(UserCategories(rows));
    forall i: nat
      ensures i in UserIdxs(Encode(rows)) <==> i < |UserCategories(rows)|
    {
      if i in UserIdxs(Encode(rows)) {
        UserCodesInRange(rows, i);
      }
      if i < |UserCategories(rows)| {
        UserCodeUsed(rows, i);
      }
    }
  }

  lemma ItemCodesInRange(rows: seq<RawRecord>, i: nat)
    requires i in ItemIdxs(Encode(rows))
    ensures i < |ItemCategories(rows)|
  {
    var enc := Encode(rows);
    var r :| r in enc && r.itemIdx == i;
    var k :| 0 <= k < |enc| && enc[k] == r;
  }

  lemma ItemCodeUsed(rows: seq<RawRecord>, i: nat)
    requires i < |ItemCategories(rows)|
    ensures i in ItemIdxs(Encode(rows))
  {
    var cats := ItemCategories(rows);
    var enc := Encode(rows);
    SortedIsDistinct(cats);
    assert cats[i] in Elems(ItemIds(rows));
    var k :| 0 <= k < |rows| && ItemIds(rows)[k] == cats[i];
    assert cats[enc[k].itemIdx] == cats[i];
    assert enc[k] in enc;
  }

  lemma ItemCodesGapFree(rows: seq<RawRecord>)
    ensures |ItemCategories(rows)| == |Elems(ItemIds(rows))|
    ensures forall i: nat :: i in ItemIdxs(Encode(rows)) <==> i < |ItemCategories(rows)|
  {
    SortedIsDistinct(ItemCategories(rows));
    ElemsOfDistinct(ItemCategories(rows));
    forall i: nat
      ensures i in ItemIdxs(Encode(rows)) <==> i < |ItemCategories(rows)|
    {
      if i in ItemIdxs(Encode(rows)) {
        ItemCodesInRange(rows, i);
      }
      if i < |ItemCategories(rows)| {
        ItemCodeUsed(rows, i);
      }
    }
  }

  /** Every code of the index range [0, N) is used by some row: the encoding
      has no gaps, and N is the number of distinct raw ids. */
  lemma EncodeGapFree(rows: seq<RawRecord>)
    ensures |UserCategories(rows)| == |Elems(UserIds(rows))|
    ensures |ItemCategories(rows)| == |Elems(ItemIds(rows))|
    ensures forall i: nat :: i in UserIdxs(Encode(rows)) <==> i < |UserCategories(rows)|
    ensures forall i: nat :: i in ItemIdxs(Encode(rows)) <==> i < |ItemCategories(rows)|
  {
    UserCodesGapFree(rows);
    ItemCodesGapFree(rows);
  }


  /** Within one encoded table, equal raw ids get equal codes and distinct raw
      ids get distinct codes. */
  lemma EncodeInjective(rows: seq<RawRecord>, a: Interaction, b: Interaction)
    requires a in Encode(rows) && b in Encode(rows)
    ensures a.userIdx == b.userIdx <==> a.userId == b.userId
    ensures a.itemIdx == b.itemIdx <==> a.itemId == b.itemId
  {
    SortedIsDistinct(UserCategories(rows));
    SortedIsDistinct(ItemCategories(rows));
  }

  // ----- Temporal split ------------------------------------------------------

  /** The latest timestamp of a non-empty table. */
  function MaxTimestamp(rows: seq<Interaction>): (t: int)
    requires |rows| > 0
    ensures exists k :: 0 <= k < |rows| && rows[k].timestamp == t
    ensures forall k :: 0 <= k < |rows| ==> rows[k].timestamp <= t
    decreases |rows|
  {
    if |rows| == 1 then rows[0].timestamp
    else
      var m := MaxTimestamp(rows[..|rows| - 1]);
      if rows[|rows| - 1].timestamp > m then rows[|rows| - 1].timestamp else m
  }

  /** `max(timestamp) - test_days * 86400`; the maximum of an empty column is
      NaN, modelled as no cutoff at all. */
  function Cutoff(rows: seq<Interaction>, testDays: int): (c: Option<int>)
    ensures c.None? <==> |rows| == 0
    ensures c.Some? ==> exists k :: 0 <= k < |rows| && c.value == rows[k].timestamp - testDays * SecondsPerDay
    ensures c.Some? ==> forall k :: 0 <= k < |rows| ==> rows[k].timestamp - testDays * SecondsPerDay <= c.value
  {
    if |rows| == 0 then None else Some(MaxTimestamp(rows) - testDays * SecondsPerDay)
  }

  function Before(cutoff: int): Interaction -> bool
  {
    (r: Interaction) => r.timestamp < cutoff
  }

  function NotBefore(cutoff: int): Interaction -> bool
  {
    (r: Interaction) => r.timestamp >= cutoff
  }

  /** `df[df.timestamp < cutoff]`; every comparison with NaN is false. */
  function SplitTrain(rows: seq<Interaction>, cutoff: Option<int>): (train: seq<Interaction>)
    ensures forall x :: multiset(train)[x]
                     == if cutoff.Some? && x.timestamp < cutoff.value then multiset(rows)[x] else 0
  {
    match cutoff
    case None => []
    case Some(c) => FilterCounts(rows, Before(c)); Filter(rows, Before(c))
  }

  /** `df[df.timestamp >= cutoff]`, before the cold-start cleanup. */
  function SplitTest(rows: seq<Interaction>, cutoff: Option<int>): (test: seq<Interaction>)
    ensures forall x :: multiset(test)[x]
                     == if cutoff.Some? && x.timestamp >= cutoff.value then multiset(rows)[x] else 0
  {
    match cutoff
    case None => []
    case Some(c) => FilterCounts(rows, NotBefore(c)); Filter(rows, NotBefore(c))
  }

  /** The split partitions the table by the cutoff: train rows lie strictly
      before it, test rows at or after it, no row lands on both sides, each
      side keeps the table's order, and together they hold exactly the
      table's rows. */
  lemma TemporalSplit(rows: seq<Interaction>, testDays: int)
    ensures var cutoff := Cutoff(rows, testDays);
      var train := SplitTrain(rows, cutoff);
      var test := SplitTest(rows, cutoff);
      && (cutoff.None? <==> |rows| == 0)
      && (cutoff.Some? ==> cutoff.value == MaxTimestamp(rows) - testDays * SecondsPerDay)
      && (forall r :: r in train ==> cutoff.Some? && r.timestamp < cutoff.value)
      && (forall r :: r in test ==> cutoff.Some? && r.timestamp >= cutoff.value)
      && (forall r :: r in train ==> r !in test)
      && IsSubsequence(train, rows) && IsSubsequence(test, rows)
      && multiset(train) + multiset(test) == multiset(rows)
  {
    var cutoff := Cutoff(rows, testDays);
    if cutoff.Some? {
      FilterPartition(rows, Before(cutoff.value), NotBefore(cutoff.value));
      FilterIsSubsequence(rows, Before(cutoff.value));
      FilterIsSubsequence(rows, NotBefore(cutoff.value));
    } else {
      assert Embeds([], [], rows);
    }
  }

  /** With a non-negative window the latest row always falls in the test
      window, so a non-empty table gives a non-empty test split. */
  lemma TestWindowNonEmpty(rows: seq<Interaction>, testDays: int)
    requires |rows| > 0 && testDays >= 0
    ensures |SplitTest(rows, Cutoff(rows, testDays))| > 0
  {
    var t := MaxTimestamp(rows);
    var k :| 0 <= k < |rows| && rows[k].timestamp == t;
    var test := SplitTest(rows, Cutoff(rows, testDays));
    assert rows[k] in test;
  }

  // ----- Cold-start cleanup ------------------------------------------------

  function UserIdxs(rows: seq<Interaction>): set<nat>
  {
    set r | r in rows :: r.userIdx
  }

  function ItemIdxs(rows: seq<Interaction>): set<nat>
  {
    set r | r in rows :: r.itemIdx
  }

  function KnownUser(users: set<nat>): Interaction -> bool
  {
    (r: Interaction) => r.userIdx in users
  }

  function KnownItem(items: set<nat>): Interaction -> bool
  {
    (r: Interaction) => r.itemIdx in items
  }

  /** Drops test rows whose user, then whose item, never occurs in train. */
  function ColdStartFilter(train: seq<Interaction>, test: seq<Interaction>): (kept: seq<Interaction>)
    ensures forall r :: r in kept ==>
      r in test && r.userIdx in UserIdxs(train) && r.itemIdx in ItemIdxs(train)
    ensures forall k :: 0 <= k < |test| ==>
      (test[k] in kept <==> test[k].userIdx in UserIdxs(train) && test[k].itemIdx in ItemIdxs(train))
    ensures IsSubsequence(kept, test)
    ensures forall x :: multiset(kept)[x]
                     == if x.userIdx in UserIdxs(train) && x.itemIdx in ItemIdxs(train) then multiset(test)[x] else 0
  {
    var users := KnownUser(UserIdxs(train));
    var items := KnownItem(ItemIdxs(train));
    ColdStartSteps(test, users, items);
    Filter(Filter(test, users), items)
  }

  /** Two successive filters keep exactly the rows passing both, every copy
      of them, in order. */
  lemma ColdStartSteps(test: seq<Interaction>, users: Interaction -> bool, items: Interaction -> bool)
    ensures var kept := Filter(Filter(test, users), items);
      && (forall r :: r in kept ==> r in test && users(r) && items(r))
      && (forall k :: 0 <= k < |test| ==> (test[k] in kept <==> users(test[k]) && items(test[k])))
      && IsSubsequence(kept, test)
      && (forall x :: multiset(kept)[x] == if users(x) && items(x) then multiset(test)[x] else 0)
  {
    ColdStartCounts(test, users, items);
    ColdStartMembership(test, users, items);
    ColdStartOrder(test, users, items);
  }

  lemma ColdStartMembership(test: seq<Interaction>, users: Interaction -> bool, items: Interaction -> bool)
    ensures var kept := Filter(Filter(test, users), items);
      && (forall r :: r in kept ==> r in test && users(r) && items(r))
      && (forall k :: 0 <= k < |test| ==> (test[k] in kept <==> users(test[k]) && items(test[k])))
  {
    var kept := Filter(Filter(test, users), items);
    forall r | r in kept
      ensures r in test && users(r) && items(r)
    {
      KeptCount(test, users, items, r);
      assert multiset(kept)[r] > 0;
    }
    forall k | 0 <= k < |test|
      ensures test[k] in kept <==> users(test[k]) && items(test[k])
    {
      KeptCount(test, users, items, test[k]);
      assert multiset(test)[test[k]] > 0;
    }
  }

  lemma KeptCount(test: seq<Interaction>, users: Interaction -> bool, items: Interaction -> bool, x: Interaction)
    ensures multiset(Filter(Filter(test, users), items))[x]
         == if users(x) && items(x) then multiset(test)[x] else 0
  {
    FilterCount(test, users, x);
    FilterCount(Filter(test, users), items, x);
  }

  lemma ColdStartOrder(test: seq<Interaction>, users: Interaction -> bool, items: Interaction -> bool)
    ensures IsSubsequence(Filter(Filter(test, users), items), test)
  {
    var knownUsers := Filter(test, users);
    FilterIsSubsequence(test, users);
    FilterIsSubsequence(knownUsers, items);
    SubsequenceTransitive(Filter(knownUsers, items), knownUsers, test);
  }

  lemma ColdStartCounts(test: seq<Interaction>, users: Interaction -> bool, items: Interaction -> bool)
    ensures forall x :: multiset(Filter(Filter(test, users), items))[x]
                     == if users(x) && items(x) then multiset(test)[x] else 0
  {
    forall x
      ensures multiset(Filter(Filter(test, users), items))[x]
           == if users(x) && items(x) then multiset(test)[x] else 0
    {
      FilterCount(test, users, x);
      FilterCount(Filter(test, users), items, x);
    }
  }

  /** Both splits hold only rows of the table they were cut from. */
  lemma SplitMember(rows: seq<Interaction>, cutoff: Option<int>, r: Interaction)
    requires r in SplitTrain(rows, cutoff) || r in SplitTest(rows, cutoff)
    ensures r in rows
  {
    if r in SplitTrain(rows, cutoff) {
      FilterMember(rows, Before(cutoff.value), r);
    } else {
      FilterMember(rows, NotBefore(cutoff.value), r);
    }
  }

  // ----- The whole stage -----------------------------------------------------

  /** `process_data`: the reverse maps and the two splits it persists. Test
      rows only mention users and items seen in train, and no row lies on
      both sides of the cutoff. */
  function ProcessData(records: seq<RawRecord>, minRating: real, testDays: int): (out: Processed)
    ensures forall r :: r in out.test ==> r.userIdx in UserIdxs(out.train) && r.itemIdx in ItemIdxs(out.train)
    ensures forall r :: r in out.train ==> r !in out.test
  {
    var positives := ImplicitFeedback(records, minRating);
    var rows := Encode(positives);
    var cutoff := Cutoff(rows, testDays);
    var train := SplitTrain(rows, cutoff);
    var test := ColdStartFilter(train, SplitTest(rows, cutoff));
    Processed(CategoryMap(UserCategories(positives)), CategoryMap(ItemCategories(positives)), train, test)
  }

  /** Every row of the stage's output is a row of the encoded table. */
  lemma ProcessedRowsAreEncoded(records: seq<RawRecord>, minRating: real, testDays: int, r: Interaction)
    requires var out := ProcessData(records, minRating, testDays);
      r in out.train || r in out.test
    ensures r in Encoded(records, minRating)
  {
    var rows := Encoded(records, minRating);
    SplitMember(rows, Cutoff(rows, testDays), r);
  }

  /** Every row in either split is a kept positive of the input: a raw record
      rated at least `min_rating`, marked as interaction 1. */
  lemma ProcessedRowsArePositive(records: seq<RawRecord>, minRating: real, testDays: int)
    ensures var out := ProcessData(records, minRating, testDays);
      forall r :: r in out.train || r in out.test ==>
        Raw(r) in records && r.rating >= minRating && r.interaction == 1
  {
    var out := ProcessData(records, minRating, testDays);
    var positives := ImplicitFeedback(records, minRating);
    var rows := Encode(positives);
    forall r | r in out.train || r in out.test
      ensures Raw(r) in records && r.rating >= minRating && r.interaction == 1
    {
      ProcessedRowsAreEncoded(records, minRating, testDays, r);
      var k :| 0 <= k < |rows| && rows[k] == r;
      assert Raw(r) == positives[k] && positives[k] in positives;
      FilterMember(records, RatedAtLeast(minRating), positives[k]);
    }
  }

  /** The reverse maps are keyed by exactly [0, N), where N is the number of
      distinct raw ids among the kept positives. */
  lemma ProcessedMapsGapFree(records: seq<RawRecord>, minRating: real, testDays: int)
    ensures var out := ProcessData(records, minRating, testDays);
      var positives := ImplicitFeedback(records, minRating);
      && (forall i: nat :: i in out.userMap <==> i < |Elems(UserIds(positives))|)
      && (forall i: nat :: i in out.itemMap <==> i < |Elems(ItemIds(positives))|)
  {
    EncodeGapFree(ImplicitFeedback(records, minRating));
  }

  /** The reverse maps decode every row's codes back to its raw ids. */
  lemma ProcessedMapsRoundTrip(records: seq<RawRecord>, minRating: real, testDays: int)
    ensures var out := ProcessData(records, minRating, testDays);
      forall r :: r in out.train || r in out.test ==>
        && r.userIdx in out.userMap && out.userMap[r.userIdx] == r.userId
        && r.itemIdx in out.itemMap && out.itemMap[r.itemIdx] == r.itemId
  {
    var out := ProcessData(records, minRating, testDays);
    var positives := ImplicitFeedback(records, minRating);
    var rows := Encode(positives);
    assert out.userMap == CategoryMap(UserCategories(positives));
    assert out.itemMap == CategoryMap(ItemCategories(positives));
    forall r | r in out.train || r in out.test
      ensures r.userIdx in out.userMap && out.userMap[r.userIdx] == r.userId
      ensures r.itemIdx in out.itemMap && out.itemMap[r.itemIdx] == r.itemId
    {
      ProcessedRowsAreEncoded(records, minRating, testDays, r);
      var k :| 0 <= k < |rows| && rows[k] == r;
    }
  }

  /** Train and test share one index space: the codes were assigned over the
      whole filtered table before the split, so a train row and a test row have
      the same code exactly when they have the same raw id. */
  lemma SharedIndexSpace(records: seq<RawRecord>, minRating: real, testDays: int, a: Interaction, b: Interaction)
    requires var out := ProcessData(records, minRating, testDays);
      a in out.train && b in out.test
    ensures a.userIdx == b.userIdx <==> a.userId == b.userId
    ensures a.itemIdx == b.itemIdx <==> a.itemId == b.itemId
  {
    ProcessedRowsAreEncoded(records, minRating, testDays, a);
    ProcessedRowsAreEncoded(records, minRating, testDays, b);
    EncodeInjective(ImplicitFeedback(records, minRating), a, b);
  }

  /** The splits follow the cutoff `max(timestamp) - test_days * 86400` of the
      encoded table: train is every encoded row strictly before it, and the
      cleaned test holds only rows at or after it. */
  lemma ProcessedSplitByCutoff(records: seq<RawRecord>, minRating: real, testDays: int)
    ensures var out := ProcessData(records, minRating, testDays);
      var rows := Encoded(records, minRating);
      var cutoff := Cutoff(rows, testDays);
      && (forall r :: r in out.train ==> cutoff.Some? && r.timestamp < cutoff.value)
      && (forall r :: r in out.test ==> cutoff.Some? && r.timestamp >= cutoff.value)
      && (forall k :: 0 <= k < |rows| && cutoff.Some? && rows[k].timestamp < cutoff.value ==> rows[k] in out.train)
      && multiset(out.train) + multiset(SplitTest(rows, cutoff)) == multiset(rows)
  {
    var rows := Encoded(records, minRating);
    TemporalSplit(rows, testDays);
  }

  /** The cold-start cleanup is one-directional: it leaves train as the split
      produced it and only removes test rows, keeping the rest in order; what
      remains is exactly the test rows whose user and item both occur in
      train. */
  lemma ColdStartCleanup(records: seq<RawRecord>, minRating: real, testDays: int)
    ensures var out := ProcessData(records, minRating, testDays);
      var rows := Encoded(records, minRating);
      var cutoff := Cutoff(rows, testDays);
      var before := SplitTest(rows, cutoff);
      && out.train == SplitTrain(rows, cutoff)
      && IsSubsequence(out.test, before)
      && (forall r :: r in out.test ==> r.userIdx in UserIdxs(out.train) && r.itemIdx in ItemIdxs(out.train))
      && (forall k :: 0 <= k < |before| ==>
            (before[k] in out.test <==> before[k].userIdx in UserIdxs(out.train) && before[k].itemIdx in ItemIdxs(out.train)))
      && (forall x :: multiset(out.test)[x]
            == if x.userIdx in UserIdxs(out.train) && x.itemIdx in ItemIdxs(out.train) then multiset(before)[x] else 0)
  {
    var out := ProcessData(records, minRating, testDays);
    forall r | r in out.test
      ensures r.userIdx in UserIdxs(out.train) && r.itemIdx in ItemIdxs(out.train)
    {
      var k :| 0 <= k < |out.test| && out.test[k] == r;
    }
  }
}
