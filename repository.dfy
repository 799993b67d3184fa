/**
 * The movie repository's batch upsert: a batch is first collapsed by its
 * normalized key (lower-cased trimmed title and year), the last record of a
 * key winning at the position of the key's first occurrence; then each
 * survivor becomes one exact-match `(title, year)` upsert against the
 * `movies` collection, all with the same timestamp.
 *
 * The collection is a sequence of stored movies in natural order; a Date is a
 * number of milliseconds; `uuidv7()` is a generator that hands out increasing
 * numbers above every identifier in the collection.
 */
module Repository {
  import opened Js
  import opened OrderedMap

  /** A `Date`, as milliseconds since the epoch. */
  type Timestamp = int

  /** A document identifier as `uuidv7()` produces it. */
  type Id = nat

  /** The five data fields of a movie (`ProcessMovie`). */
  datatype ProcessMovie = ProcessMovie(year: int, title: string, studios: string, producers: string, winner: bool)

  /** A stored movie: its identifier, its two timestamps and its data fields. */
  datatype Movie = Movie(id: Id, createdAt: Timestamp, updatedAt: Timestamp, data: ProcessMovie)

  // ---------------------------------------------------------------------------
  // The deduplication key

  /** `doc.title?.toLowerCase().trim()`. */
  function NormalizedTitle(doc: ProcessMovie): string
  {
    Trim(ToLower(doc.title))
  }

  /** `${normalizedTitle}|${doc.year}`. */
  function DedupKey(doc: ProcessMovie): string
  {
    NormalizedTitle(doc) + "|" + NumberToString(doc.year)
  }

  /** A string ending in `|` followed by a `|`-free tail splits there in one way only. */
  lemma {:induction false} SplitAtLastBar(s1: string, t1: string, s2: string, t2: string)
    requires '|' !in t1 && '|' !in t2
    requires s1 + "|" + t1 == s2 + "|" + t2
    ensures s1 == s2 && t1 == t2
  {
    var u := s1 + "|" + t1;
    assert |t1| == |t2| by {
      assert u[|u| - |t1| - 1] == '|' && u[|u| - |t2| - 1] == '|';
      assert forall k :: |u| - |t1| <= k < |u| ==> u[k] == t1[k - (|u| - |t1|)];
      assert forall k :: |u| - |t2| <= k < |u| ==> u[k] == t2[k - (|u| - |t2|)];
    }
    assert t1 == u[|u| - |t1|..] == t2;
    assert s1 == u[..|s1|] == s2;
  }

  /** Two records share a key exactly when their normalized titles and their
      years coincide, even when a title contains `|`. */
  lemma {:induction false} DedupKeyInjective(a: ProcessMovie, b: ProcessMovie)
    ensures DedupKey(a) == DedupKey(b) <==> NormalizedTitle(a) == NormalizedTitle(b) && a.year == b.year
  {
    NumberToStringInjective(a.year, b.year);
    NumberToStringInjective(b.year, a.year);
    if DedupKey(a) == DedupKey(b) {
      SplitAtLastBar(NormalizedTitle(a), NumberToString(a.year), NormalizedTitle(b), NumberToString(b.year));
    }
  }

  // ---------------------------------------------------------------------------
  // Collapsing the batch

  /** Each record paired with its key. */
  function KeyedPairs(docs: seq<ProcessMovie>, key: ProcessMovie -> string): (ps: seq<(string, ProcessMovie)>)
    ensures |ps| == |docs|
    ensures forall i :: 0 <= i < |docs| ==> ps[i] == (key(docs[i]), docs[i])
  {
    seq(|docs|, i requires 0 <= i < |docs| => (key(docs[i]), docs[i]))
  }

  /** `uniqueMap` after every record has been set under its key. */
  function Dedup(docs: seq<ProcessMovie>): OMap<string, ProcessMovie>
  {
    FromPairs(KeyedPairs(docs, DedupKey))
  }

  /** `Array.from(uniqueMap.values())`. */
  function UniqueDocuments(docs: seq<ProcessMovie>): seq<ProcessMovie>
  {
    SetAllValid(KeyedPairs(docs, DedupKey), |docs|);
    Dedup(docs).Values()
  }

  /** The position of the first record of the batch with a key, or `|docs|`. */
  function FirstWithKey(docs: seq<ProcessMovie>, k: string): nat
  {
    FirstIndex(KeyedPairs(docs, DedupKey), |docs|, k)
  }

  /** The position of the last record of the batch with a key, or `|docs|`. */
  function LastWithKey(docs: seq<ProcessMovie>, k: string): nat
  {
    LastIndex(KeyedPairs(docs, DedupKey), |docs|, k)
  }

  /** Last write wins: the survivor under each key is the last record of the
      batch with that key. */
  lemma {:induction false} UniqueDocumentsLastWins(docs: seq<ProcessMovie>)
    ensures |UniqueDocuments(docs)| == |Dedup(docs).keys|
    ensures forall p :: 0 <= p < |UniqueDocuments(docs)| ==>
      && LastWithKey(docs, Dedup(docs).keys[p]) < |docs|
      && UniqueDocuments(docs)[p] == docs[LastWithKey(docs, Dedup(docs).keys[p])]
      && DedupKey(UniqueDocuments(docs)[p]) == Dedup(docs).keys[p]
      && (forall j :: LastWithKey(docs, Dedup(docs).keys[p]) < j < |docs| ==> DedupKey(docs[j]) != Dedup(docs).keys[p])
  {
    var ps := KeyedPairs(docs, DedupKey);
    var m := Dedup(docs);
    var u := UniqueDocuments(docs);
    SetAllValid(ps, |docs|);
    forall p | 0 <= p < |u|
      ensures LastWithKey(docs, m.keys[p]) < |docs|
      ensures u[p] == docs[LastWithKey(docs, m.keys[p])]
      ensures DedupKey(u[p]) == m.keys[p]
    {
      var k := m.keys[p];
      SetAllLookup(ps, |docs|, k);
      assert ps[LastWithKey(docs, k)] == (DedupKey(docs[LastWithKey(docs, k)]), docs[LastWithKey(docs, k)]);
    }
  }

  /** No record is lost: every key of the batch has a survivor. */
  lemma {:induction false} UniqueDocumentsCover(docs: seq<ProcessMovie>)
    ensures forall i :: 0 <= i < |docs| ==> DedupKey(docs[i]) in Dedup(docs).keys
  {
    var ps := KeyedPairs(docs, DedupKey);
    SetAllValid(ps, |docs|);
    forall i | 0 <= i < |docs| ensures DedupKey(docs[i]) in Dedup(docs).keys {
      SetAllLookup(ps, |docs|, ps[i].0);
    }
  }

  /** One write per key: no two survivors share normalized title and year. */
  lemma {:induction false} UniqueDocumentsDistinct(docs: seq<ProcessMovie>)
    ensures forall p, q :: 0 <= p < q < |UniqueDocuments(docs)| ==>
      NormalizedTitle(UniqueDocuments(docs)[p]) != NormalizedTitle(UniqueDocuments(docs)[q])
      || UniqueDocuments(docs)[p].year != UniqueDocuments(docs)[q].year
  {
    var u := UniqueDocuments(docs);
    SetAllValid(KeyedPairs(docs, DedupKey), |docs|);
    UniqueDocumentsLastWins(docs);
    forall p, q | 0 <= p < q < |u| ensures NormalizedTitle(u[p]) != NormalizedTitle(u[q]) || u[p].year != u[q].year {
      DedupKeyInjective(u[p], u[q]);
    }
  }

  /** Survivors come in the order of the first occurrence of their keys. */
  lemma {:induction false} UniqueDocumentsOrder(docs: seq<ProcessMovie>)
    ensures forall p, q :: 0 <= p < q < |UniqueDocuments(docs)| ==>
      FirstWithKey(docs, DedupKey(UniqueDocuments(docs)[p])) < FirstWithKey(docs, DedupKey(UniqueDocuments(docs)[q]))
  {
    UniqueDocumentsLastWins(docs);
    SetAllFirstOccurrenceOrder(KeyedPairs(docs, DedupKey), |docs|);
  }

  /** Two records with one key collapse into the later one. */
  lemma {:induction false} CollapseTwo(a: ProcessMovie, b: ProcessMovie)
    requires DedupKey(a) == DedupKey(b)
    ensures UniqueDocuments([a, b]) == [b]
  {
    SetTwoSameKey(a, b, DedupKey);
    assert Dedup([a, b]).keys == [DedupKey(a)];
  }

  /** Setting two records under one key leaves that key holding the later. */
  lemma {:induction false} SetTwoSameKey(a: ProcessMovie, b: ProcessMovie, key: ProcessMovie -> string)
    requires key(a) == key(b)
    ensures FromPairs(KeyedPairs([a, b], key)) == OMap([key(a)], map[key(a) := b])
  {
    var ps := KeyedPairs([a, b], key);
    assert SetAll(ps, 1) == OMap([key(a)], map[key(a) := a]);
  }

  /** Titles that differ only in case or surrounding spaces share a key. */
  lemma {:induction false} SameKeyExample()
    ensures DedupKey(ProcessMovie(1984, "Oz", "MGM", "Carr", true)) == DedupKey(ProcessMovie(1984, " oZ", "EMI", "Carr", false))
  {
    assert ToLower("Oz") == "oz";
    assert ToLower(" oZ") == " oz";
    assert TrimStart(" oz") == "oz";
  }

  /** Within one call, two records whose titles differ only in case or
      surrounding spaces collapse into the later one. */
  lemma {:induction false} CollapseExample()
    ensures UniqueDocuments([ProcessMovie(1984, "Oz", "MGM", "Carr", true), ProcessMovie(1984, " oZ", "EMI", "Carr", false)])
      == [ProcessMovie(1984, " oZ", "EMI", "Carr", false)]
  {
    SameKeyExample();
    CollapseTwo(ProcessMovie(1984, "Oz", "MGM", "Carr", true), ProcessMovie(1984, " oZ", "EMI", "Carr", false));
  }

  // ---------------------------------------------------------------------------
  // The write operations

  /** One `updateOne` with `upsert: true`: the exact `(title, year)` filter,
      the fields `$set` (the record and `updatedAt`) and the fields
      `$setOnInsert` (`_id` and `createdAt`). */
  datatype UpdateOne = UpdateOne(title: string, year: int, doc: ProcessMovie, updatedAt: Timestamp, insertId: Id, createdAt: Timestamp)

  /** `uniqueDocuments.map(...)`, the identifiers drawn for the operations in order. */
  function Operations(docs: seq<ProcessMovie>, now: Timestamp, ids: seq<Id>): (ops: seq<UpdateOne>)
    requires |ids| == |docs|
    ensures |ops| == |docs|
    ensures forall j :: 0 <= j < |docs| ==> ops[j] == UpdateOne(docs[j].title, docs[j].year, docs[j], now, ids[j], now)
  {
    seq(|docs|, j requires 0 <= j < |docs| => UpdateOne(docs[j].title, docs[j].year, docs[j], now, ids[j], now))
  }

  /** Records with distinct exact `(title, year)` and distinct identifiers
      give upserts that each write the record their filter names, with no
      filter and no insertion identifier used twice. */
  lemma {:induction false} OperationsDistinct(docs: seq<ProcessMovie>, now: Timestamp, ids: seq<Id>)
    requires |ids| == |docs|
    requires ExactDistinct(docs)
    requires forall p, q :: 0 <= p < q < |ids| ==> ids[p] != ids[q]
    ensures Independent(Operations(docs, now, ids))
    ensures forall p, q :: 0 <= p < q < |docs| ==> Operations(docs, now, ids)[p].insertId != Operations(docs, now, ids)[q].insertId
  {
  }

  /** The identifiers `uuidv7()` hands out in turn, starting at `first`. */
  function UuidRange(first: Id, n: nat): (ids: seq<Id>)
    ensures |ids| == n
    ensures forall j :: 0 <= j < n ==> ids[j] == first + j
  {
    seq(n, j requires 0 <= j < n => first + j)
  }

  /** A filter matches a stored movie when its title and year are exactly the movie's. */
  predicate Matches(m: Movie, title: string, year: int)
  {
    m.data.title == title && m.data.year == year
  }

  /** The position of the first stored movie the filter matches, or `|store|`. */
  function FirstMatch(store: seq<Movie>, title: string, year: int): (i: nat)
    ensures i <= |store|
    ensures i < |store| ==> Matches(store[i], title, year)
    ensures forall k :: 0 <= k < i ==> !Matches(store[k], title, year)
  {
    if store == [] then 0
    else if Matches(store[0], title, year) then 0
    else 1 + FirstMatch(store[1..], title, year)
  }

  /** The document an upsert inserts when nothing matches. */
  function Inserted(op: UpdateOne): Movie
  {
    Movie(op.insertId, op.createdAt, op.updatedAt, op.doc)
  }

  /** The store after one upsert: the first match gets the `$set` fields,
      keeping `_id` and `createdAt`; with no match the new document is
      appended. */
  function ApplyOne(store: seq<Movie>, op: UpdateOne): seq<Movie>
  {
    var i := FirstMatch(store, op.title, op.year);
    if i < |store| then store[i := store[i].(updatedAt := op.updatedAt, data := op.doc)]
    else store + [Inserted(op)]
  }

  /** The store after the first `n` operations of an ordered `bulkWrite`. */
  function ApplyOps(store: seq<Movie>, ops: seq<UpdateOne>, n: nat): seq<Movie>
    requires n <= |ops|
  {
    if n == 0 then store else ApplyOne(ApplyOps(store, ops, n - 1), ops[n - 1])
  }

  // ---------------------------------------------------------------------------
  // The effect of a batch of independent upserts, in closed form

  /** Every operation writes the record its filter names, and no two
      operations name the same `(title, year)`. */
  predicate Independent(ops: seq<UpdateOne>)
  {
    && (forall j :: 0 <= j < |ops| ==> ops[j].doc.title == ops[j].title && ops[j].doc.year == ops[j].year)
    && (forall i, j :: 0 <= i < j < |ops| ==> ops[i].title != ops[j].title || ops[i].year != ops[j].year)
  }

  /** The position of the first of the first `n` operations whose filter is
      `(title, year)`, or `n`. */
  function OpFor(ops: seq<UpdateOne>, n: nat, title: string, year: int): (j: nat)
    requires n <= |ops|
    ensures j <= n
    ensures j < n ==> ops[j].title == title && ops[j].year == year
    ensures forall k :: 0 <= k < j ==> ops[k].title != title || ops[k].year != year
  {
    if n == 0 then 0
    else
      var j := OpFor(ops, n - 1, title, year);
      if j < n - 1 then j
      else if ops[n - 1].title == title && ops[n - 1].year == year then n - 1
      else n
  }

  /** A stored movie after the first `n` operations: refreshed by the
      operation naming it when it is the first match of that filter,
      untouched otherwise. */
  function Refreshed(store: seq<Movie>, ops: seq<UpdateOne>, n: nat, k: nat): Movie
    requires n <= |ops| && k < |store|
  {
    var m := store[k];
    var j := OpFor(ops, n, m.data.title, m.data.year);
    if j < n && FirstMatch(store, m.data.title, m.data.year) == k then m.(updatedAt := ops[j].updatedAt, data := ops[j].doc)
    else m
  }

  function RefreshedStore(store: seq<Movie>, ops: seq<UpdateOne>, n: nat): (r: seq<Movie>)
    requires n <= |ops|
    ensures |r| == |store|
  {
    seq(|store|, k requires 0 <= k < |store| => Refreshed(store, ops, n, k))
  }

  /** The documents the first `n` operations insert: those whose filter
      matches nothing stored, in operation order. */
  function Insertions(store: seq<Movie>, ops: seq<UpdateOne>, n: nat): seq<Movie>
    requires n <= |ops|
  {
    if n == 0 then []
    else Insertions(store, ops, n - 1) + (if FirstMatch(store, ops[n - 1].title, ops[n - 1].year) == |store| then [Inserted(ops[n - 1])] else [])
  }

  /** Insertions carry the filters of their operations, so a filter no
      operation names matches none of them. */
  lemma {:induction false} InsertionsAvoid(store: seq<Movie>, ops: seq<UpdateOne>, n: nat, title: string, year: int)
    requires Independent(ops) && n <= |ops|
    requires forall j :: 0 <= j < n ==> ops[j].title != title || ops[j].year != year
    ensures forall q :: 0 <= q < |Insertions(store, ops, n)| ==> !Matches(Insertions(store, ops, n)[q], title, year)
  {
    if n > 0 {
      InsertionsAvoid(store, ops, n - 1, title, year);
    }
  }

  /** Refreshing never changes a stored movie's identity or its filter fields. */
  lemma {:induction false} RefreshedKeepsIdentity(store: seq<Movie>, ops: seq<UpdateOne>, n: nat, p: nat)
    requires Independent(ops) && n <= |ops| && p < |store|
    ensures Refreshed(store, ops, n, p).id == store[p].id
    ensures Refreshed(store, ops, n, p).createdAt == store[p].createdAt
    ensures Refreshed(store, ops, n, p).data.title == store[p].data.title
    ensures Refreshed(store, ops, n, p).data.year == store[p].data.year
  {
  }

  /** An operation refreshes only the first stored match of its own filter. */
  lemma {:induction false} RefreshStep(store: seq<Movie>, ops: seq<UpdateOne>, n: nat, p: nat)
    requires Independent(ops) && 0 < n <= |ops| && p < |store|
    requires p != FirstMatch(store, ops[n - 1].title, ops[n - 1].year)
    ensures Refreshed(store, ops, n, p) == Refreshed(store, ops, n - 1, p)
  {
  }

  /** No operation refreshes nothing. */
  lemma {:induction false} RefreshedNothing(store: seq<Movie>, ops: seq<UpdateOne>)
    ensures RefreshedStore(store, ops, 0) == store
  {
    forall p | 0 <= p < |store| ensures RefreshedStore(store, ops, 0)[p] == store[p] {
      assert OpFor(ops, 0, store[p].data.title, store[p].data.year) == 0;
    }
  }

  /** The step of the closed form when the operation's filter matches a stored movie. */
  lemma {:induction false} StepMatched(store: seq<Movie>, ops: seq<UpdateOne>, n: nat)
    requires Independent(ops) && 0 < n <= |ops|
    requires FirstMatch(store, ops[n - 1].title, ops[n - 1].year) < |store|
    ensures ApplyOne(RefreshedStore(store, ops, n - 1) + Insertions(store, ops, n - 1), ops[n - 1])
      == RefreshedStore(store, ops, n) + Insertions(store, ops, n)
  {
    var op := ops[n - 1];
    var k := FirstMatch(store, op.title, op.year);
    var u0, i0 := RefreshedStore(store, ops, n - 1), Insertions(store, ops, n - 1);
    var s := u0 + i0;
    MatchedFilter(store, ops, n);
    MatchedRefresh(store, ops, n);
    assert ApplyOne(s, op) == s[k := s[k].(updatedAt := op.updatedAt, data := op.doc)];
    assert Insertions(store, ops, n) == i0;
  }

  /** Before a matching operation, its filter still finds the stored movie it
      found in the original collection. */
  lemma {:induction false} MatchedFilter(store: seq<Movie>, ops: seq<UpdateOne>, n: nat)
    requires Independent(ops) && 0 < n <= |ops|
    requires FirstMatch(store, ops[n - 1].title, ops[n - 1].year) < |store|
    ensures FirstMatch(RefreshedStore(store, ops, n - 1) + Insertions(store, ops, n - 1), ops[n - 1].title, ops[n - 1].year)
      == FirstMatch(store, ops[n - 1].title, ops[n - 1].year)
  {
    var op := ops[n - 1];
    var k := FirstMatch(store, op.title, op.year);
    var s := RefreshedStore(store, ops, n - 1) + Insertions(store, ops, n - 1);
    forall q | 0 <= q <= k ensures s[q].data.title == store[q].data.title && s[q].data.year == store[q].data.year {
      RefreshedKeepsIdentity(store, ops, n - 1, q);
    }
  }

  /** A matching operation refreshes its stored movie and nothing else. */
  lemma {:induction false} MatchedRefresh(store: seq<Movie>, ops: seq<UpdateOne>, n: nat)
    requires Independent(ops) && 0 < n <= |ops|
    requires FirstMatch(store, ops[n - 1].title, ops[n - 1].year) < |store|
    ensures RefreshedStore(store, ops, n)
      == RefreshedStore(store, ops, n - 1)[FirstMatch(store, ops[n - 1].title, ops[n - 1].year)
           := store[FirstMatch(store, ops[n - 1].title, ops[n - 1].year)].(updatedAt := ops[n - 1].updatedAt, data := ops[n - 1].doc)]
  {
    var op := ops[n - 1];
    var k := FirstMatch(store, op.title, op.year);
    var u0 := RefreshedStore(store, ops, n - 1);
    var u := RefreshedStore(store, ops, n);
    assert OpFor(ops, n - 1, op.title, op.year) == n - 1;
    assert u0[k] == store[k];
    assert u[k] == store[k].(updatedAt := op.updatedAt, data := op.doc);
    forall p | 0 <= p < |store| && p != k ensures u[p] == u0[p] {
      RefreshStep(store, ops, n, p);
    }
  }

  /** The step of the closed form when the operation's filter matches nothing stored. */
  lemma {:induction false} StepUnmatched(store: seq<Movie>, ops: seq<UpdateOne>, n: nat)
    requires Independent(ops) && 0 < n <= |ops|
    requires FirstMatch(store, ops[n - 1].title, ops[n - 1].year) == |store|
    ensures ApplyOne(RefreshedStore(store, ops, n - 1) + Insertions(store, ops, n - 1), ops[n - 1])
      == RefreshedStore(store, ops, n) + Insertions(store, ops, n)
  {
    var op := ops[n - 1];
    var u0, i0 := RefreshedStore(store, ops, n - 1), Insertions(store, ops, n - 1);
    var s := u0 + i0;
    InsertionsAvoid(store, ops, n - 1, op.title, op.year);
    forall q | 0 <= q < |s| ensures !Matches(s[q], op.title, op.year) {
      if q < |store| {
        RefreshedKeepsIdentity(store, ops, n - 1, q);
      } else {
        assert s[q] == i0[q - |store|];
      }
    }
    assert FirstMatch(s, op.title, op.year) == |s|;
    forall p | 0 <= p < |store| ensures RefreshedStore(store, ops, n)[p] == u0[p] {
      RefreshStep(store, ops, n, p);
    }
    assert RefreshedStore(store, ops, n) == u0;
    assert Insertions(store, ops, n) == i0 + [Inserted(op)];
  }

  /** Independent upserts act as one: every stored movie is refreshed in
      place or left alone, and the unmatched operations append their
      documents, in operation order. */
  lemma {:induction false} ApplyOpsClosedForm(store: seq<Movie>, ops: seq<UpdateOne>, n: nat)
    requires Independent(ops) && n <= |ops|
    ensures ApplyOps(store, ops, n) == RefreshedStore(store, ops, n) + Insertions(store, ops, n)
  {
    if n == 0 {
      RefreshedNothing(store, ops);
      assert Insertions(store, ops, 0) == [];
      assert store + [] == store;
    } else {
      ApplyOpsClosedForm(store, ops, n - 1);
      ClosedFormStep(store, ops, n);
    }
  }

  /** One more operation keeps the store in closed form. */
  lemma {:induction false} ClosedFormStep(store: seq<Movie>, ops: seq<UpdateOne>, n: nat)
    requires Independent(ops) && 0 < n <= |ops|
    requires ApplyOps(store, ops, n - 1) == RefreshedStore(store, ops, n - 1) + Insertions(store, ops, n - 1)
    ensures ApplyOps(store, ops, n) == RefreshedStore(store, ops, n) + Insertions(store, ops, n)
  {
    assert ApplyOps(store, ops, n) == ApplyOne(ApplyOps(store, ops, n - 1), ops[n - 1]);
    if FirstMatch(store, ops[n - 1].title, ops[n - 1].year) < |store| {
      StepMatched(store, ops, n);
    } else {
      StepUnmatched(store, ops, n);
    }
  }

  /** Under independent operations, the one naming a filter is found. */
  lemma {:induction false} OpForUnique(ops: seq<UpdateOne>, n: nat, j: nat)
    requires Independent(ops) && j < n <= |ops|
    ensures OpFor(ops, n, ops[j].title, ops[j].year) == j
  {
  }

  /** Later operations only add insertions after the earlier ones. */
  lemma {:induction false} InsertionsPrefix(store: seq<Movie>, ops: seq<UpdateOne>, j: nat, n: nat)
    requires j <= n <= |ops|
    ensures |Insertions(store, ops, j)| <= |Insertions(store, ops, n)|
    ensures Insertions(store, ops, n)[..|Insertions(store, ops, j)|] == Insertions(store, ops, j)
  {
    if j < n {
      InsertionsPrefix(store, ops, j, n - 1);
      assert Insertions(store, ops, n)[..|Insertions(store, ops, n - 1)|] == Insertions(store, ops, n - 1);
    }
  }

  /** When operation `j` hands out identifier `firstId + j`, each insertion is
      the document of the operation its identifier names, that operation
      matched nothing stored, and identifiers increase along the insertions. */
  lemma {:induction false} InsertionsShape(store: seq<Movie>, ops: seq<UpdateOne>, n: nat, firstId: Id)
    requires n <= |ops|
    requires forall j :: 0 <= j < |ops| ==> ops[j].insertId == firstId + j
    ensures forall i :: 0 <= i < |Insertions(store, ops, n)| ==>
      && firstId <= Insertions(store, ops, n)[i].id < firstId + n
      && Insertions(store, ops, n)[i] == Inserted(ops[Insertions(store, ops, n)[i].id - firstId])
      && FirstMatch(store, ops[Insertions(store, ops, n)[i].id - firstId].title, ops[Insertions(store, ops, n)[i].id - firstId].year) == |store|
    ensures forall i, i' :: 0 <= i < i' < |Insertions(store, ops, n)| ==> Insertions(store, ops, n)[i].id < Insertions(store, ops, n)[i'].id
  {
    if n > 0 {
      InsertionsShape(store, ops, n - 1, firstId);
    }
  }

  // ---------------------------------------------------------------------------
  // Applying the same batch twice

  /** Re-running an operation already applied as one of an independent batch
      matches the movie it wrote, whose fields already hold its values. */
  lemma {:induction false} FixedMatched(store: seq<Movie>, ops: seq<UpdateOne>, j: nat, op: UpdateOne)
    requires Independent(ops) && j < |ops| && op == ops[j].(insertId := op.insertId)
    requires FirstMatch(store, op.title, op.year) < |store|
    ensures ApplyOne(RefreshedStore(store, ops, |ops|) + Insertions(store, ops, |ops|), op)
      == RefreshedStore(store, ops, |ops|) + Insertions(store, ops, |ops|)
  {
    var r := RefreshedStore(store, ops, |ops|) + Insertions(store, ops, |ops|);
    var k := FirstMatch(store, op.title, op.year);
    forall q | 0 <= q <= k ensures r[q].data.title == store[q].data.title && r[q].data.year == store[q].data.year {
      RefreshedKeepsIdentity(store, ops, |ops|, q);
    }
    assert FirstMatch(r, op.title, op.year) == k;
    OpForUnique(ops, |ops|, j);
    assert r[k] == store[k].(updatedAt := op.updatedAt, data := op.doc);
    assert r[k := r[k].(updatedAt := op.updatedAt, data := op.doc)] == r;
  }

  /** An operation that matches nothing stored has its insertion right after
      those of the operations before it. */
  lemma {:induction false} InsertionAt(store: seq<Movie>, ops: seq<UpdateOne>, j: nat)
    requires j < |ops| && FirstMatch(store, ops[j].title, ops[j].year) == |store|
    ensures |Insertions(store, ops, j)| < |Insertions(store, ops, |ops|)|
    ensures Insertions(store, ops, |ops|)[..|Insertions(store, ops, j)|] == Insertions(store, ops, j)
    ensures Insertions(store, ops, |ops|)[|Insertions(store, ops, j)|] == Inserted(ops[j])
  {
    InsertionsPrefix(store, ops, j + 1, |ops|);
    assert Insertions(store, ops, j + 1) == Insertions(store, ops, j) + [Inserted(ops[j])];
  }

  /** A match with none before it is the first match. */
  lemma {:induction false} FirstMatchAt(s: seq<Movie>, title: string, year: int, k: nat)
    requires k < |s| && Matches(s[k], title, year)
    requires forall q :: 0 <= q < k ==> !Matches(s[q], title, year)
    ensures FirstMatch(s, title, year) == k
  {
  }

  /** Re-running an operation that inserted finds its own insertion, which
      already holds its values. */
  lemma {:induction false} FixedUnmatched(store: seq<Movie>, ops: seq<UpdateOne>, j: nat, op: UpdateOne)
    requires Independent(ops) && j < |ops| && op == ops[j].(insertId := op.insertId)
    requires FirstMatch(store, op.title, op.year) == |store|
    ensures ApplyOne(RefreshedStore(store, ops, |ops|) + Insertions(store, ops, |ops|), op)
      == RefreshedStore(store, ops, |ops|) + Insertions(store, ops, |ops|)
  {
    var ins := Insertions(store, ops, |ops|);
    var r := RefreshedStore(store, ops, |ops|) + ins;
    var a := Insertions(store, ops, j);
    InsertionAt(store, ops, j);
    InsertionsAvoid(store, ops, j, op.title, op.year);
    var pos := |store| + |a|;
    forall q | 0 <= q < pos ensures !Matches(r[q], op.title, op.year) {
      if q < |store| {
        RefreshedKeepsIdentity(store, ops, |ops|, q);
      } else {
        assert r[q] == a[q - |store|];
      }
    }
    assert r[pos] == Inserted(ops[j]);
    FirstMatchAt(r, op.title, op.year, pos);
    assert r[pos := r[pos].(updatedAt := op.updatedAt, data := op.doc)] == r;
  }

  /** Operations that each leave a store alone leave it alone together. */
  lemma {:induction false} ApplyOpsFixed(r: seq<Movie>, ops: seq<UpdateOne>, n: nat)
    requires n <= |ops|
    requires forall j :: 0 <= j < |ops| ==> ApplyOne(r, ops[j]) == r
    ensures ApplyOps(r, ops, n) == r
  {
    if n > 0 {
      ApplyOpsFixed(r, ops, n - 1);
    }
  }

  // ---------------------------------------------------------------------------
  // One call of `upsertMany`

  /** No two survivors share an exact `(title, year)`. */
  predicate ExactDistinct(u: seq<ProcessMovie>)
  {
    forall p, q :: 0 <= p < q < |u| ==> u[p].title != u[q].title || u[p].year != u[q].year
  }

  /** Survivors of the collapse differ in normalized key, so in exact title
      and year too. */
  lemma {:induction false} UniqueDocumentsExactDistinct(docs: seq<ProcessMovie>)
    ensures ExactDistinct(UniqueDocuments(docs))
  {
    UniqueDocumentsDistinct(docs);
  }

  /** The operations for the survivors `u`: one each, in order, all stamped
      with the call's timestamp, the `j`-th drawing identifier `firstId + j`. */
  function BatchOperations(u: seq<ProcessMovie>, now: Timestamp, firstId: Id): (ops: seq<UpdateOne>)
    ensures |ops| == |u|
    ensures forall j :: 0 <= j < |u| ==> ops[j] == UpdateOne(u[j].title, u[j].year, u[j], now, firstId + j, now)
  {
    Operations(u, now, UuidRange(firstId, |u|))
  }

  /** The collection after the writes for the survivors `u`: the whole
      ordered `bulkWrite`, or no write at all when there are none. */
  function Upsert(store: seq<Movie>, u: seq<ProcessMovie>, now: Timestamp, firstId: Id): seq<Movie>
  {
    var ops := BatchOperations(u, now, firstId);
    if |ops| > 0 then ApplyOps(store, ops, |ops|) else store
  }

  /** The collection after one call of `upsertMany`. */
  function UpsertManyResult(store: seq<Movie>, docs: seq<ProcessMovie>, now: Timestamp, firstId: Id): seq<Movie>
  {
    Upsert(store, UniqueDocuments(docs), now, firstId)
  }

  /** Distinct survivors give independent upserts. */
  lemma {:induction false} BatchIndependent(u: seq<ProcessMovie>, now: Timestamp, firstId: Id)
    requires ExactDistinct(u)
    ensures Independent(BatchOperations(u, now, firstId))
  {
  }

  /** The writes for distinct survivors in closed form. */
  lemma {:induction false} UpsertClosedForm(store: seq<Movie>, u: seq<ProcessMovie>, now: Timestamp, firstId: Id)
    requires ExactDistinct(u)
    ensures Upsert(store, u, now, firstId)
      == RefreshedStore(store, BatchOperations(u, now, firstId), |u|) + Insertions(store, BatchOperations(u, now, firstId), |u|)
  {
    var ops := BatchOperations(u, now, firstId);
    BatchIndependent(u, now, firstId);
    ApplyOpsClosedForm(store, ops, |ops|);
    if |ops| == 0 {
      RefreshedNothing(store, ops);
    }
  }

  /** An empty batch changes nothing. */
  lemma {:induction false} UpsertManyEmpty(store: seq<Movie>, now: Timestamp, firstId: Id)
    ensures UpsertManyResult(store, [], now, firstId) == store
  {
    assert |UniqueDocuments([])| == 0;
  }

  /** Stored movies stay where they are with their identifier, creation time,
      title and year; any that changed carries the call's timestamp. */
  lemma {:induction false} UpsertKeepsStored(store: seq<Movie>, u: seq<ProcessMovie>, now: Timestamp, firstId: Id)
    requires ExactDistinct(u)
    ensures |store| <= |Upsert(store, u, now, firstId)|
    ensures forall p :: 0 <= p < |store| ==>
      && Upsert(store, u, now, firstId)[p].id == store[p].id
      && Upsert(store, u, now, firstId)[p].createdAt == store[p].createdAt
      && Upsert(store, u, now, firstId)[p].data.title == store[p].data.title
      && Upsert(store, u, now, firstId)[p].data.year == store[p].data.year
      && (Upsert(store, u, now, firstId)[p] == store[p] || Upsert(store, u, now, firstId)[p].updatedAt == now)
  {
    var ops := BatchOperations(u, now, firstId);
    var r := Upsert(store, u, now, firstId);
    UpsertClosedForm(store, u, now, firstId);
    BatchIndependent(u, now, firstId);
    forall p | 0 <= p < |store| ensures r[p].id == store[p].id && r[p].createdAt == store[p].createdAt
      && r[p].data.title == store[p].data.title && r[p].data.year == store[p].data.year
      && (r[p] == store[p] || r[p].updatedAt == now) {
      RefreshedKeepsIdentity(store, ops, |ops|, p);
      assert r[p] == Refreshed(store, ops, |ops|, p);
    }
  }

  /** A survivor whose exact title and year are stored replaces the data of
      the first such movie and stamps it with the call's timestamp, keeping
      its identifier and creation time. */
  lemma {:induction false} UpsertUpdatesMatch(store: seq<Movie>, u: seq<ProcessMovie>, now: Timestamp, firstId: Id, q: nat)
    requires ExactDistinct(u) && q < |u|
    requires FirstMatch(store, u[q].title, u[q].year) < |store|
    ensures |store| <= |Upsert(store, u, now, firstId)|
    ensures Upsert(store, u, now, firstId)[FirstMatch(store, u[q].title, u[q].year)]
      == store[FirstMatch(store, u[q].title, u[q].year)].(updatedAt := now, data := u[q])
  {
    var ops := BatchOperations(u, now, firstId);
    UpsertClosedForm(store, u, now, firstId);
    BatchIndependent(u, now, firstId);
    OpForUnique(ops, |ops|, q);
    var k := FirstMatch(store, u[q].title, u[q].year);
    assert Upsert(store, u, now, firstId)[k] == Refreshed(store, ops, |ops|, k);
  }

  /** A survivor whose exact title and year are not stored is added as a new
      movie with the identifier drawn for it and both timestamps `now`. */
  lemma {:induction false} UpsertInsertsUnmatched(store: seq<Movie>, u: seq<ProcessMovie>, now: Timestamp, firstId: Id, q: nat)
    requires ExactDistinct(u) && q < |u|
    requires FirstMatch(store, u[q].title, u[q].year) == |store|
    ensures |store| < |Upsert(store, u, now, firstId)|
    ensures Movie(firstId + q, now, now, u[q]) in Upsert(store, u, now, firstId)[|store|..]
  {
    var ops := BatchOperations(u, now, firstId);
    UpsertClosedForm(store, u, now, firstId);
    InsertionAt(store, ops, q);
    assert Upsert(store, u, now, firstId)[|store|..] == Insertions(store, ops, |ops|);
  }

  /** A movie the batch inserted: it carries the identifier drawn for a
      survivor that matched nothing stored, that survivor, and both
      timestamps `now`. */
  predicate NewMovie(store: seq<Movie>, u: seq<ProcessMovie>, now: Timestamp, firstId: Id, m: Movie)
  {
    && firstId <= m.id < firstId + |u|
    && m == Movie(m.id, now, now, u[m.id - firstId])
    && FirstMatch(store, u[m.id - firstId].title, u[m.id - firstId].year) == |store|
  }

  /** Everything after the stored movies is a new movie for a survivor that
      matched nothing stored, carrying the identifier drawn for that survivor
      and both timestamps `now`; identifiers increase along the new movies. */
  lemma {:induction false} UpsertAppendsOnlyInserts(store: seq<Movie>, u: seq<ProcessMovie>, now: Timestamp, firstId: Id)
    requires ExactDistinct(u)
    ensures |store| <= |Upsert(store, u, now, firstId)|
    ensures forall i :: |store| <= i < |Upsert(store, u, now, firstId)| ==> NewMovie(store, u, now, firstId, Upsert(store, u, now, firstId)[i])
    ensures forall i, i' :: |store| <= i < i' < |Upsert(store, u, now, firstId)| ==>
      Upsert(store, u, now, firstId)[i].id < Upsert(store, u, now, firstId)[i'].id
  {
    var ins := Insertions(store, BatchOperations(u, now, firstId), |u|);
    UpsertClosedForm(store, u, now, firstId);
    BatchInsertions(store, u, now, firstId);
    var r := Upsert(store, u, now, firstId);
    assert forall i :: |store| <= i < |r| ==> r[i] == ins[i - |store|];
  }

  /** The insertions of a batch are new movies for unmatched survivors, with
      the survivor's identifier and both timestamps `now`, in identifier order. */
  lemma {:induction false} BatchInsertions(store: seq<Movie>, u: seq<ProcessMovie>, now: Timestamp, firstId: Id)
    ensures forall i :: 0 <= i < |Insertions(store, BatchOperations(u, now, firstId), |u|)| ==>
      NewMovie(store, u, now, firstId, Insertions(store, BatchOperations(u, now, firstId), |u|)[i])
    ensures forall i, i' :: 0 <= i < i' < |Insertions(store, BatchOperations(u, now, firstId), |u|)| ==>
      Insertions(store, BatchOperations(u, now, firstId), |u|)[i].id < Insertions(store, BatchOperations(u, now, firstId), |u|)[i'].id
  {
    var ops := BatchOperations(u, now, firstId);
    InsertionsShape(store, ops, |ops|, firstId);
  }

  /** A stored movie no survivor names by exact title and year is untouched. */
  lemma {:induction false} UpsertLeavesOthers(store: seq<Movie>, u: seq<ProcessMovie>, now: Timestamp, firstId: Id, p: nat)
    requires ExactDistinct(u) && p < |store|
    requires forall q :: 0 <= q < |u| ==> u[q].title != store[p].data.title || u[q].year != store[p].data.year
    ensures |store| <= |Upsert(store, u, now, firstId)|
    ensures Upsert(store, u, now, firstId)[p] == store[p]
  {
    var ops := BatchOperations(u, now, firstId);
    UpsertClosedForm(store, u, now, firstId);
    assert OpFor(ops, |ops|, store[p].data.title, store[p].data.year) == |ops|;
    assert Upsert(store, u, now, firstId)[p] == Refreshed(store, ops, |ops|, p);
  }

  /** Identifiers are unique and below a bound. */
  predicate ValidStore(store: seq<Movie>, bound: Id)
  {
    && (forall i, j :: 0 <= i < j < |store| ==> store[i].id != store[j].id)
    && (forall i :: 0 <= i < |store| ==> store[i].id < bound)
  }

  /** Drawing identifiers above every stored one keeps them unique. */
  lemma {:induction false} UpsertFreshIds(store: seq<Movie>, u: seq<ProcessMovie>, now: Timestamp, firstId: Id)
    requires ExactDistinct(u)
    requires ValidStore(store, firstId)
    ensures ValidStore(Upsert(store, u, now, firstId), firstId + |u|)
  {
    UpsertKeepsStored(store, u, now, firstId);
    UpsertAppendsOnlyInserts(store, u, now, firstId);
  }

  /** Sending the same survivors again with the same timestamp changes
      nothing, whatever identifiers are drawn. */
  lemma {:induction false} UpsertIdempotent(store: seq<Movie>, u: seq<ProcessMovie>, now: Timestamp, firstId: Id, secondId: Id)
    requires ExactDistinct(u)
    ensures Upsert(Upsert(store, u, now, firstId), u, now, secondId) == Upsert(store, u, now, firstId)
  {
    var ops, ops2 := BatchOperations(u, now, firstId), BatchOperations(u, now, secondId);
    var r := Upsert(store, u, now, firstId);
    UpsertClosedForm(store, u, now, firstId);
    BatchIndependent(u, now, firstId);
    forall j | 0 <= j < |ops2| ensures ApplyOne(r, ops2[j]) == r {
      assert ops2[j] == ops[j].(insertId := ops2[j].insertId);
      if FirstMatch(store, ops2[j].title, ops2[j].year) < |store| {
        FixedMatched(store, ops, j, ops2[j]);
      } else {
        FixedUnmatched(store, ops, j, ops2[j]);
      }
    }
    ApplyOpsFixed(r, ops2, |ops2|);
  }

  /** Calling `upsertMany` twice with one batch and one timestamp leaves the
      collection as the first call left it. */
  lemma {:induction false} UpsertManyIdempotent(store: seq<Movie>, docs: seq<ProcessMovie>, now: Timestamp, firstId: Id, secondId: Id)
    ensures UpsertManyResult(UpsertManyResult(store, docs, now, firstId), docs, now, secondId)
      == UpsertManyResult(store, docs, now, firstId)
  {
    UniqueDocumentsExactDistinct(docs);
    UpsertIdempotent(store, UniqueDocuments(docs), now, firstId, secondId);
  }

  /** Two records of one call that share a key write once, with the later one. */
  lemma {:induction false} UpsertManyCollapses(store: seq<Movie>, a: ProcessMovie, b: ProcessMovie, now: Timestamp, firstId: Id)
    requires DedupKey(a) == DedupKey(b)
    ensures UpsertManyResult(store, [a, b], now, firstId) == UpsertManyResult(store, [b], now, firstId)
  {
    CollapseTwo(a, b);
    UniqueSingleton(b);
  }

  /** One record survives as itself. */
  lemma {:induction false} UniqueSingleton(b: ProcessMovie)
    ensures UniqueDocuments([b]) == [b]
  {
    assert SetAll(KeyedPairs([b], DedupKey), 1) == OMap([DedupKey(b)], map[DedupKey(b) := b]);
  }

  /** A single record whose exact title and year are not stored is appended. */
  lemma {:induction false} UpsertSingleInsert(store: seq<Movie>, d: ProcessMovie, now: Timestamp, id: Id)
    requires FirstMatch(store, d.title, d.year) == |store|
    ensures Upsert(store, [d], now, id) == store + [Movie(id, now, now, d)]
  {
    var op := UpdateOne(d.title, d.year, d, now, id, now);
    assert BatchOperations([d], now, id) == [op];
    assert ApplyOps(store, [op], 1) == ApplyOne(store, op);
  }

  /** Matching is exact: a title written again in another call with other
      case and spacing adds a second movie instead of updating the first. */
  lemma {:induction false} SeparateCallsExample()
    ensures UpsertManyResult(UpsertManyResult([], [ProcessMovie(1984, "Oz", "MGM", "Carr", true)], 10, 1),
                             [ProcessMovie(1984, " oZ", "EMI", "Carr", false)], 20, 2)
      == [Movie(1, 10, 10, ProcessMovie(1984, "Oz", "MGM", "Carr", true)), Movie(2, 20, 20, ProcessMovie(1984, " oZ", "EMI", "Carr", false))]
  {
    var oz, oz2 := ProcessMovie(1984, "Oz", "MGM", "Carr", true), ProcessMovie(1984, " oZ", "EMI", "Carr", false);
    UniqueSingleton(oz);
    UniqueSingleton(oz2);
    UpsertSingleInsert([], oz, 10, 1);
    var r1 := [Movie(1, 10, 10, oz)];
    assert !Matches(r1[0], oz2.title, oz2.year);
    UpsertSingleInsert(r1, oz2, 20, 2);
  }

  /** Two separate calls with the same exact title and year leave one movie:
      the first call's identifier and creation time, the second call's
      update time and data. */
  lemma {:induction false} SeparateCallsSameMovie(m1: ProcessMovie, m2: ProcessMovie, t1: Timestamp, t2: Timestamp, id1: Id, id2: Id)
    requires m1.title == m2.title && m1.year == m2.year
    ensures UpsertManyResult(UpsertManyResult([], [m1], t1, id1), [m2], t2, id2) == [Movie(id1, t1, t2, m2)]
  {
    UniqueSingleton(m1);
    UniqueSingleton(m2);
    UpsertSingleInsert([], m1, t1, id1);
    var r1 := [Movie(id1, t1, t1, m1)];
    var op := UpdateOne(m2.title, m2.year, m2, t2, id2, t2);
    assert BatchOperations([m2], t2, id2) == [op];
    assert ApplyOps(r1, [op], 1) == ApplyOne(r1, op);
    assert FirstMatch(r1, m2.title, m2.year) == 0;
    assert UpsertManyResult([], [m1], t1, id1) == r1;
    assert Upsert(r1, [m2], t2, id2) == [Movie(id1, t1, t2, m2)];
  }

  // ---------------------------------------------------------------------------
  // The classes

  /** The `movies` collection: its documents in natural order. */
  class MovieCollection {
    var documents: seq<Movie>

    constructor(documents: seq<Movie>)
      ensures this.documents == documents
    {
      this.documents := documents;
    }

    /** An ordered `bulkWrite` of upserts: each operation in turn, against the
        collection as the previous ones left it. */
    method BulkWrite(operations: seq<UpdateOne>)
      modifies this
      ensures documents == ApplyOps(old(documents), operations, |operations|)
    {
      for i := 0 to |operations|
        invariant documents == ApplyOps(old(documents), operations, i)
      {
        documents := ApplyOne(documents, operations[i]);
      }
    }
  }

  /** The repository: the collection it writes to and the state of the
      identifier generator, which hands out numbers above every stored one. */
  class AppRepository {
    const collection: MovieCollection
    var nextUuid: Id

    ghost predicate Valid()
      reads this, collection
    {
      ValidStore(collection.documents, nextUuid)
    }

    constructor(collection: MovieCollection, nextUuid: Id)
      requires ValidStore(collection.documents, nextUuid)
      ensures this.collection == collection && this.nextUuid == nextUuid
      ensures Valid()
    {
      this.collection := collection;
      this.nextUuid := nextUuid;
    }

    /** `uuidv7()`: the next identifier. */
    method Uuid() returns (id: Id)
      modifies this
      ensures id == old(nextUuid) && nextUuid == old(nextUuid) + 1
    {
      id := nextUuid;
      nextUuid := nextUuid + 1;
    }

    /** The `forEach` over the batch: every record set in turn under its
        key, `key` being the template string of the normalized title and the
        year (`DedupKey`). */
    static method BuildUniqueMap(documents: seq<ProcessMovie>, key: ProcessMovie -> string) returns (uniqueMap: OMap<string, ProcessMovie>)
      ensures uniqueMap == FromPairs(KeyedPairs(documents, key))
    {
      ghost var pairs := KeyedPairs(documents, key);
      uniqueMap := OMap([], map[]);
      for i := 0 to |documents|
        invariant uniqueMap == SetAll(pairs, i)
      {
        var doc := documents[i];
        uniqueMap := uniqueMap.Set(key(doc), doc);
      }
    }

    /** `Array.from(uniqueMap.values())` after the `forEach`: the survivors of
        the collapse by key. */
    static method CollapseBatch(documents: seq<ProcessMovie>) returns (uniqueDocuments: seq<ProcessMovie>)
      ensures uniqueDocuments == UniqueDocuments(documents)
    {
      var uniqueMap := BuildUniqueMap(documents, DedupKey);
      SetAllValid(KeyedPairs(documents, DedupKey), |documents|);
      uniqueDocuments := uniqueMap.Values();
    }

    /** `uniqueDocuments.map(...)`: one upsert per survivor, each drawing the
        next identifier. */
    method DrawOperations(uniqueDocuments: seq<ProcessMovie>, now: Timestamp) returns (operations: seq<UpdateOne>)
      modifies this
      ensures operations == BatchOperations(uniqueDocuments, now, old(nextUuid))
      ensures nextUuid == old(nextUuid) + |uniqueDocuments|
    {
      operations := [];
      for j := 0 to |uniqueDocuments|
        invariant nextUuid == old(nextUuid) + j
        invariant operations == BatchOperations(uniqueDocuments, now, old(nextUuid))[..j]
      {
        var doc := uniqueDocuments[j];
        var id := Uuid();
        operations := operations + [UpdateOne(doc.title, doc.year, doc, now, id, now)];
      }
    }

    /** `upsertMany`: collapse the batch by key, then send one upsert per
        survivor, or nothing for an empty batch. */
    method UpsertMany(documents: seq<ProcessMovie>, now: Timestamp)
      requires Valid()
      modifies this, collection
      ensures Valid()
      ensures collection.documents == UpsertManyResult(old(collection.documents), documents, now, old(nextUuid))
      ensures nextUuid == old(nextUuid) + |UniqueDocuments(documents)|
    {
      var uniqueDocuments := CollapseBatch(documents);
      var operations := DrawOperations(uniqueDocuments, now);
      if |operations| > 0 {
        collection.BulkWrite(operations);
      }
      UniqueDocumentsExactDistinct(documents);
      UpsertFreshIds(old(collection.documents), uniqueDocuments, now, old(nextUuid));
    }
  }
}
