/** The document collection that holds the cache entries. Only what the cache service asks
    of it is modelled: point lookup by filter, conditional update of one document, delete of
    one document, delete of all, insert under the unique-key constraint, count, and the
    distinct keys of the documents a filter matches. */
module Store {
  import opened Wrappers
  import opened Utils

  /** Name of the error an insert raises when its key is already taken. */
  const DUPLICATE_KEY := "DuplicateKey"

  /** What an entry stores. A miss on the read path stores a random string; when that miss is
      served by taking over an expired entry, the stored value is the wrapper of the random
      string and its stamp; create and update store the caller's payload. */
  datatype Value =
    | Text(text: string)
    | Stamped(value: string, expiresAt: int)
    | Doc(data: string)

  /** One cache document. */
  datatype Entry = Entry(key: string, value: Value, expiresAt: int)

  /** An entry is live while its stamp is not before the clock, expired afterwards. */
  predicate Live(e: Entry, now: int)
  {
    e.expiresAt >= now
  }

  /** The query documents the service sends to the store. */
  datatype Filter =
    | KeyIs(key: string)                // { key }
    | LiveKey(key: string, now: int)    // { key, expiresAt: { $gte: now } }
    | ExpiredAt(now: int)               // { expiresAt: { $lt: now } }
    | LiveAt(now: int)                  // { key: { $exists }, expiresAt: { $gte: now } }

  predicate Matches(e: Entry, f: Filter)
  {
    match f
    case KeyIs(k) => e.key == k
    case LiveKey(k, now) => e.key == k && Live(e, now)
    case ExpiredAt(now) => !Live(e, now)
    case LiveAt(now) => Live(e, now)
  }

  /** The filters test the stamp exactly as the query documents' `$gte` and `$lt` do, and
      every entry is either live or expired. */
  lemma FilterStamps(e: Entry, key: string, now: int)
    ensures Matches(e, LiveKey(key, now)) <==> e.key == key && e.expiresAt >= now
    ensures Matches(e, LiveAt(now)) <==> e.expiresAt >= now
    ensures Matches(e, ExpiredAt(now)) <==> e.expiresAt < now
    ensures Matches(e, LiveAt(now)) != Matches(e, ExpiredAt(now))
  {
  }

  predicate AnyMatch(s: seq<Entry>, f: Filter)
  {
    exists i :: 0 <= i < |s| && Matches(s[i], f)
  }

  /** The `$set` documents the service sends with an update. */
  datatype Change =
    | SetExpiry(stamp: int)
    | SetValueAndExpiry(value: Value, stamp: int)

  /** A `$set` overwrites the fields it names and never the key. */
  function Apply(e: Entry, c: Change): (r: Entry)
    ensures r.key == e.key && r.expiresAt == c.stamp
    ensures r.value == if c.SetValueAndExpiry? then c.value else e.value
  {
    match c
    case SetExpiry(t) => e.(expiresAt := t)
    case SetValueAndExpiry(v, t) => e.(value := v, expiresAt := t)
  }

  /** The unique index on `key`: no two documents share a key. */
  predicate UniqueKeys(s: seq<Entry>)
  {
    forall i, j :: 0 <= i < |s| && 0 <= j < |s| && s[i].key == s[j].key ==> i == j
  }

  predicate KeyIn(s: seq<Entry>, key: string)
  {
    exists i :: 0 <= i < |s| && s[i].key == key
  }

  /** The position of the first document with the given key, if there is one. */
  function KeyIndex(s: seq<Entry>, key: string): (r: Option<nat>)
    ensures r.None? <==> !KeyIn(s, key)
    ensures r.Some? ==> r.value < |s| && s[r.value].key == key
    ensures r.Some? ==> forall j :: 0 <= j < r.value ==> s[j].key != key
  {
    if |s| == 0 then None
    else if s[0].key == key then Some(0)
    else match KeyIndex(s[1..], key)
      case None =>
        assert forall i :: 0 < i < |s| ==> s[i] == s[1..][i - 1];
        None
      case Some(j) => Some(j + 1)
  }

  /** Under the unique index, an entry's key locates exactly that entry. */
  lemma KeyIndexOfEntry(s: seq<Entry>, i: nat)
    requires UniqueKeys(s) && i < |s|
    ensures KeyIndex(s, s[i].key) == Some(i)
  {
  }

  /** The collection without the document at position `i`; the others keep their order. */
  function RemoveAt(s: seq<Entry>, i: nat): (r: seq<Entry>)
    requires i < |s|
    ensures |r| == |s| - 1
    ensures forall j :: 0 <= j < i ==> r[j] == s[j]
    ensures forall j :: i <= j < |r| ==> r[j] == s[j + 1]
  {
    s[..i] + s[i + 1..]
  }

  /** Removing a document keeps the keys unique, frees its key and keeps every other key. */
  lemma RemoveAtKeys(s: seq<Entry>, i: nat)
    requires UniqueKeys(s) && i < |s|
    ensures UniqueKeys(RemoveAt(s, i))
    ensures !KeyIn(RemoveAt(s, i), s[i].key)
    ensures forall k :: k != s[i].key ==> (KeyIn(RemoveAt(s, i), k) <==> KeyIn(s, k))
  {
    var r := RemoveAt(s, i);
    forall a, b | 0 <= a < |r| && 0 <= b < |r| && r[a].key == r[b].key
      ensures a == b
    {
      var a', b' := if a < i then a else a + 1, if b < i then b else b + 1;
      assert r[a] == s[a'] && r[b] == s[b'];
    }
    forall k | k != s[i].key
      ensures KeyIn(r, k) <==> KeyIn(s, k)
    {
      if KeyIn(s, k) {
        var j :| 0 <= j < |s| && s[j].key == k;
        var j' := if j < i then j else j - 1;
        assert r[j'] == s[j];
      }
    }
  }

  predicate HasKeyWhere(s: seq<Entry>, key: string, f: Filter)
  {
    exists i :: 0 <= i < |s| && s[i].key == key && Matches(s[i], f)
  }

  predicate NoDuplicates(keys: seq<string>)
  {
    forall i, j :: 0 <= i < j < |keys| ==> keys[i] != keys[j]
  }

  /** `find(filter).distinct("key")`: every key of a matching document, each once. */
  function DistinctKeys(s: seq<Entry>, f: Filter): (keys: seq<string>)
    ensures NoDuplicates(keys)
    ensures forall k :: k in keys <==> HasKeyWhere(s, k, f)
  {
    if |s| == 0 then []
    else
      var init := s[..|s| - 1];
      var rest := DistinctKeys(init, f);
      var e := s[|s| - 1];
      assert forall k :: HasKeyWhere(s, k, f) <==> HasKeyWhere(init, k, f) || (e.key == k && Matches(e, f)) by {
        forall k ensures HasKeyWhere(s, k, f) ==> HasKeyWhere(init, k, f) || (e.key == k && Matches(e, f)) {
          if HasKeyWhere(s, k, f) {
            var i :| 0 <= i < |s| && s[i].key == k && Matches(s[i], f);
            if i < |s| - 1 { assert init[i] == s[i]; }
          }
        }
        forall k ensures HasKeyWhere(init, k, f) ==> HasKeyWhere(s, k, f) {
          if HasKeyWhere(init, k, f) {
            var i :| 0 <= i < |init| && init[i].key == k && Matches(init[i], f);
            assert s[i] == init[i];
          }
        }
      }
      if Matches(e, f) && e.key !in rest then rest + [e.key] else rest
  }

  /** The cache collection. `entries` is its content in the store's natural order. */
  class Collection {
    var entries: seq<Entry>

    /** The unique index on `key` holds. */
    ghost predicate Valid()
      reads this
    {
      UniqueKeys(entries)
    }

    constructor ()
      ensures Valid() && entries == []
    {
      entries := [];
    }

    /** `findOne(filter)`: some matching document, or null when none matches. Which one is
        returned when several match is the store's choice. */
    method FindOne(f: Filter) returns (found: Option<Entry>)
      ensures found.None? <==> !AnyMatch(entries, f)
      ensures found.Some? ==> found.value in entries && Matches(found.value, f)
    {
      if i :| 0 <= i < |entries| && Matches(entries[i], f) {
        found := Some(entries[i]);
      } else {
        found := None;
      }
    }

    /** `findOneAndUpdate(filter, { $set })`: applies the change to one matching document and
        answers with that document's key, or null when nothing matches. */
    method FindOneAndUpdate(f: Filter, c: Change) returns (matched: Option<string>)
      requires Valid()
      modifies this
      ensures Valid()
      ensures matched.None? ==> !AnyMatch(old(entries), f) && entries == old(entries)
      ensures matched.Some? ==> exists i :: UpdatedAt(old(entries), i, f, c, entries) && matched.value == old(entries)[i].key
    {
      if i :| 0 <= i < |entries| && Matches(entries[i], f) {
        matched := Some(entries[i].key);
        entries := entries[i := Apply(entries[i], c)];
        assert UpdatedAt(old(entries), i, f, c, entries);
      } else {
        matched := None;
      }
    }

    /** `findOneAndDelete(filter)`: removes one matching document and answers with it, or
        null when nothing matches. */
    method FindOneAndDelete(f: Filter) returns (deleted: Option<Entry>)
      requires Valid()
      modifies this
      ensures Valid()
      ensures deleted.None? ==> !AnyMatch(old(entries), f) && entries == old(entries)
      ensures deleted.Some? ==> exists i :: DeletedAt(old(entries), i, f, entries) && deleted.value == old(entries)[i]
    {
      if i :| 0 <= i < |entries| && Matches(entries[i], f) {
        deleted := Some(entries[i]);
        RemoveAtKeys(entries, i);
        entries := RemoveAt(entries, i);
        assert DeletedAt(old(entries), i, f, entries);
      } else {
        deleted := None;
      }
    }

    /** `save()` of a new document: inserted at the end, unless the unique index refuses it. */
    method Save(e: Entry) returns (saved: Result<Entry, Error>)
      requires Valid()
      modifies this
      ensures Valid()
      ensures KeyIn(old(entries), e.key) ==> saved == Err(ErrorObject(DUPLICATE_KEY)) && entries == old(entries)
      ensures !KeyIn(old(entries), e.key) ==> saved == Ok(e) && entries == old(entries) + [e]
    {
      if exists i :: 0 <= i < |entries| && entries[i].key == e.key {
        saved := Err(ErrorObject(DUPLICATE_KEY));
      } else {
        entries := entries + [e];
        saved := Ok(e);
      }
    }

    /** `deleteMany()` with no filter. */
    method DeleteMany()
      modifies this
      ensures Valid() && entries == []
    {
      entries := [];
    }
  }

  /** `s'` is `s` with the change applied to its matching document at position `i`. */
  ghost predicate UpdatedAt(s: seq<Entry>, i: int, f: Filter, c: Change, s': seq<Entry>)
  {
    0 <= i < |s| && Matches(s[i], f) && s' == s[i := Apply(s[i], c)]
  }

  /** `s'` is `s` without its matching document at position `i`. */
  ghost predicate DeletedAt(s: seq<Entry>, i: int, f: Filter, s': seq<Entry>)
  {
    0 <= i < |s| && Matches(s[i], f) && s' == RemoveAt(s, i)
  }
}
