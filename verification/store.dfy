/** The cubby store: one bbolt bucket per cubby, holding one entry per
    message, keyed by the insertion time formatted as text. The model keeps
    the keys as opaque strings; the only order it relies on is the
    lexicographic order of `Lex`, which is the order bbolt iterates a bucket
    in. Every write runs inside a single bbolt `Update` transaction, which the
    model treats as atomic: it either commits the whole change or leaves the
    store as it was. */
module Store {

  import opened Results
  import Lex

  type Key = string

  /** The messages of one cubby: key ↦ message text. */
  type Bucket = map<Key, string>

  /** The whole database: cubby name ↦ bucket. A cubby with no bucket has
      never been written to, or has been cleared. */
  type Db = map<string, Bucket>

  /** One retrieved message. `T` is whatever the key decodes to (a time in
      the program); the model does not look inside it. */
  datatype Message<T> = Message(time: T, content: string)

  datatype StoreError =
    | StorageUnavailable(reason: string)  // bbolt rejected or failed the transaction
    | MalformedKey(key: Key)              // a stored key did not decode
    | BucketNameRequired                  // bbolt refuses to create a bucket named ""
    | KeyRequired                         // bbolt's Put refuses the empty key
    | BucketNotFound(cubby: string)       // bbolt's DeleteBucket on a bucket that does not exist

  /** What bbolt decides about an update transaction whose callback
      succeeded: it commits, or it fails (the database is closed or
      read-only, an I/O error, disk full, ...). These decisions belong to the
      library and the machine, so they are an input of the model. */
  datatype Backend = Commits | Fails(reason: string)

  /** The bucket of `cubby`, empty when it has none. */
  function BucketOf(db: Db, cubby: string): Bucket {
    if cubby in db then db[cubby] else map[]
  }

  /** bbolt `Update`: the new state on commit, the old one untouched on failure. */
  function Update(changed: Db, backend: Backend): Result<Db, StoreError> {
    match backend
    case Commits => Success(changed)
    case Fails(reason) => Failure(StorageUnavailable(reason))
  }

  /** `insert`: create the cubby's bucket if needed and put `key ↦ message`.
      An existing entry under the same key is overwritten. bbolt refuses to
      create a bucket with the empty name, so the cubby "" can never be
      written to, and refuses to put an entry under the empty key (a key
      written from the clock is never empty). */
  function Insert(db: Db, cubby: string, key: Key, message: string, backend: Backend): (r: Result<Db, StoreError>)
    ensures cubby == "" ==> r == Failure(BucketNameRequired)
    ensures cubby != "" && key == "" ==> r == Failure(KeyRequired)
    ensures cubby != "" && key != "" && backend.Fails? ==> r == Failure(StorageUnavailable(backend.reason))
    ensures cubby != "" && key != "" && backend.Commits? ==> r.Success?
    ensures r.Success? ==> r.value.Keys == db.Keys + {cubby}
    ensures r.Success? ==> r.value[cubby].Keys == BucketOf(db, cubby).Keys + {key}
    ensures r.Success? ==> r.value[cubby][key] == message
    ensures r.Success? ==> forall k :: k in BucketOf(db, cubby) && k != key ==> r.value[cubby][k] == BucketOf(db, cubby)[k]
    ensures r.Success? ==> forall c :: c in db && c != cubby ==> r.value[c] == db[c]
  {
    if cubby == "" then Failure(BucketNameRequired)
    else if key == "" then Failure(KeyRequired)
    else
      var bucket := BucketOf(db, cubby);
      Update(db[cubby := bucket[key := message]], backend)
  }

  /** Decodes the entries of `bucket` listed by `ks`, in that order, stopping
      at the first key that does not decode (`ForEach` returning the
      callback's error). */
  function DecodeAll<T>(ks: seq<Key>, bucket: Bucket, parse: Key -> Option<T>): (r: Result<seq<Message<T>>, StoreError>)
    requires forall i :: 0 <= i < |ks| ==> ks[i] in bucket
    ensures r.Success? <==> forall i :: 0 <= i < |ks| ==> parse(ks[i]).Some?
    ensures r.Success? ==> |r.value| == |ks|
    ensures r.Success? ==> forall i :: 0 <= i < |ks| ==> r.value[i] == Message(parse(ks[i]).value, bucket[ks[i]])
    ensures r.Failure? ==> exists i :: FirstMalformed(ks, parse, i) && r.error == MalformedKey(ks[i])
  {
    if |ks| == 0 then Success([])
    else match parse(ks[0])
      case None =>
        assert FirstMalformed(ks, parse, 0);
        Failure(MalformedKey(ks[0]))
      case Some(t) =>
        match DecodeAll(ks[1..], bucket, parse)
        case Failure(e) =>
          assert exists i :: FirstMalformed(ks, parse, i) && e == MalformedKey(ks[i]) by {
            var i :| FirstMalformed(ks[1..], parse, i) && e == MalformedKey(ks[1..][i]);
            assert FirstMalformed(ks, parse, i + 1);
          }
          Failure(e)
        case Success(rest) => Success([Message(t, bucket[ks[0]])] + rest)
  }

  /** `ks[i]` is the first key of `ks` that does not decode. */
  ghost predicate FirstMalformed<T>(ks: seq<Key>, parse: Key -> Option<T>, i: int) {
    0 <= i < |ks| && parse(ks[i]).None? && forall j :: 0 <= j < i ==> parse(ks[j]).Some?
  }

  /** `retrieve`: every message of the cubby, in ascending key order, each
      once; a cubby with no bucket has no messages. One key that does not
      decode fails the whole call: no partial list is returned. */
  method Retrieve<T>(db: Db, cubby: string, parse: Key -> Option<T>) returns (r: Result<seq<Message<T>>, StoreError>)
    ensures cubby !in db ==> r == Success([])
    ensures cubby in db ==> forall ks :: Lex.Listing(ks, db[cubby].Keys) ==> r == DecodeAll(ks, db[cubby], parse)
    ensures r.Success? ==> |r.value| == |BucketOf(db, cubby)|
    ensures (forall k :: k in BucketOf(db, cubby) ==> parse(k).Some?) <==> r.Success?
    ensures r.Failure? ==> r.error.MalformedKey? && r.error.key in BucketOf(db, cubby) && parse(r.error.key).None?
  {
    if cubby !in db {
      return Success([]);
    }
    var bucket := db[cubby];
    var ks := Lex.ListKeys(bucket.Keys);
    forall other | Lex.Listing(other, bucket.Keys) ensures other == ks {
      Lex.ListingUnique(other, ks, bucket.Keys);
    }
    r := DecodeAll(ks, bucket, parse);
    assert (forall k :: k in bucket ==> parse(k).Some?) <==> (forall i :: 0 <= i < |ks| ==> parse(ks[i]).Some?) by {
      assert forall k :: k in bucket <==> k in ks;
    }
  }

  /** `clear`: drop the cubby's bucket with everything in it. bbolt's
      `DeleteBucket` reports a bucket that does not exist as an error, so
      clearing a cubby that has never been written fails. */
  function Clear(db: Db, cubby: string, backend: Backend): (r: Result<Db, StoreError>)
    ensures cubby !in db ==> r == Failure(BucketNotFound(cubby))
    ensures cubby in db && backend.Fails? ==> r == Failure(StorageUnavailable(backend.reason))
    ensures cubby in db && backend.Commits? ==> r.Success?
    ensures r.Success? ==> cubby !in r.value && BucketOf(r.value, cubby) == map[]
    ensures r.Success? ==> r.value.Keys == db.Keys - {cubby}
    ensures r.Success? ==> forall c :: c in db && c != cubby ==> r.value[c] == db[c]
  {
    if cubby !in db then Failure(BucketNotFound(cubby)) else Update(db - {cubby}, backend)
  }

  /** The entries of `bucket` whose key sorts strictly after `cutoff`. */
  function KeepAfter(bucket: Bucket, cutoff: Key): Bucket {
    map k | k in bucket && !Lex.Le(k, cutoff) :: bucket[k]
  }

  /** `removeOldest`: delete every entry whose key is `<= cutoff`, the cutoff
      itself included. A cubby with no bucket is left alone. */
  function RemoveOldest(db: Db, cubby: string, cutoff: Key, backend: Backend): (r: Result<Db, StoreError>)
    ensures backend.Fails? ==> r == Failure(StorageUnavailable(backend.reason))
    ensures backend.Commits? ==> r.Success?
    ensures r.Success? && cubby !in db ==> r.value == db
    ensures r.Success? ==> r.value.Keys == db.Keys
    ensures r.Success? ==> forall c :: c in db && c != cubby ==> r.value[c] == db[c]
    ensures r.Success? && cubby in db ==>
      forall k :: k in r.value[cubby] <==> k in db[cubby] && !Lex.Le(k, cutoff)
    ensures r.Success? && cubby in db ==>
      forall k :: k in r.value[cubby] ==> r.value[cubby][k] == db[cubby][k]
  {
    if cubby !in db then Update(db, backend)
    else Update(db[cubby := KeepAfter(db[cubby], cutoff)], backend)
  }

  /** Pruning twice with the same cutoff is the same as pruning once. */
  lemma RemoveOldestIdempotent(db: Db, cubby: string, cutoff: Key)
    ensures var once := RemoveOldest(db, cubby, cutoff, Commits).value;
      RemoveOldest(once, cubby, cutoff, Commits).value == once
  {
    var once := RemoveOldest(db, cubby, cutoff, Commits).value;
    if cubby in db {
      assert KeepAfter(once[cubby], cutoff) == once[cubby];
      assert once[cubby := once[cubby]] == once;
    }
  }

  /** The entries `removeOldest` deletes are an initial run of the bucket's
      ascending listing: if a key goes, every key listed before it goes too. */
  lemma {:induction false} RemovedKeysArePrefix(ks: seq<Key>, cutoff: Key)
    requires Lex.Ascending(ks)
    ensures forall i, j :: 0 <= i < j < |ks| && Lex.Le(ks[j], cutoff) ==> Lex.Le(ks[i], cutoff)
  {
    forall i, j | 0 <= i < j < |ks| && Lex.Le(ks[j], cutoff) ensures Lex.Le(ks[i], cutoff) {
      Lex.LeTransitive(ks[i], ks[j], cutoff);
    }
  }

  /** Writing a key that sorts after every key already in the cubby appends
      its message to the end of the listing: inserts with increasing keys are
      retrieved in insertion order. */
  lemma {:induction false} InsertLargestKeyAppends(db: Db, cubby: string, ks: seq<Key>, key: Key, message: string)
    requires cubby != "" && key != ""
    requires Lex.Listing(ks, BucketOf(db, cubby).Keys)
    requires forall k :: k in BucketOf(db, cubby) ==> Lex.Lt(k, key)
    ensures Lex.Listing(ks + [key], Insert(db, cubby, key, message, Commits).value[cubby].Keys)
  {
    var after := Insert(db, cubby, key, message, Commits).value[cubby];
    forall i, j | 0 <= i < j < |ks + [key]| ensures Lex.Lt((ks + [key])[i], (ks + [key])[j]) {
      if j == |ks| {
        assert ks[i] in BucketOf(db, cubby);
      }
    }
    assert forall k :: k in ks + [key] <==> k in ks || k == key;
  }

  /** Two messages written to a fresh cubby under increasing keys come back
      first-written first. */
  lemma TwoInsertsListInKeyOrder(db: Db, cubby: string, k1: Key, m1: string, k2: Key, m2: string)
    requires cubby != "" && cubby !in db && k1 != "" && Lex.Lt(k1, k2)
    ensures var db1 := Insert(db, cubby, k1, m1, Commits).value;
      var db2 := Insert(db1, cubby, k2, m2, Commits).value;
      && Lex.Listing([k1, k2], db2[cubby].Keys)
      && db2[cubby][k1] == m1 && db2[cubby][k2] == m2
  {
    var db1 := Insert(db, cubby, k1, m1, Commits).value;
    assert Lex.Listing([], BucketOf(db, cubby).Keys);
    InsertLargestKeyAppends(db, cubby, [], k1, m1);
    assert [] + [k1] == [k1];
    InsertLargestKeyAppends(db1, cubby, [k1], k2, m2);
    assert [k1] + [k2] == [k1, k2];
  }

  /** A store reachable from the empty one: no operation can create the
      bucket of the empty cubby name. */
  predicate Reachable(db: Db) {
    "" !in db
  }

  /** Every successful write keeps the store reachable, so the cubby ""
      (request path "/") never holds a message and cannot be cleared. */
  lemma WritesKeepReachable(db: Db, cubby: string, key: Key, message: string, cutoff: Key, backend: Backend)
    requires Reachable(db)
    ensures Insert(db, cubby, key, message, backend).Success? ==> Reachable(Insert(db, cubby, key, message, backend).value)
    ensures Clear(db, cubby, backend).Success? ==> Reachable(Clear(db, cubby, backend).value)
    ensures RemoveOldest(db, cubby, cutoff, backend).Success? ==> Reachable(RemoveOldest(db, cubby, cutoff, backend).value)
    ensures Clear(db, "", backend) == Failure(BucketNotFound(""))
  {
  }
}
