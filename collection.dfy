/** The announcements collection as the router sees it: a sequence of entries
    in natural order, keyed by `_id`. `Lookup` is `find_one` by id, `Patched`
    is `update_one` with a `$set` patch and `Removed` is `delete_one`. */
module Collection {
  import opened Announcements

  /** The ids present in the collection. */
  function Ids(s: seq<Entry>): set<Id>
  {
    set e | e in s :: e.id
  }

  /** No two entries share an id (the collection's `_id` index). */
  predicate DistinctIds(s: seq<Entry>)
  {
    forall i, j :: 0 <= i < j < |s| ==> s[i].id != s[j].id
  }

  /** `find_one({"_id": id})`: the first record stored under `id`. */
  function Lookup(s: seq<Entry>, id: Id): (r: Option<Announcement>)
    ensures r.Some? <==> id in Ids(s)
    ensures r.Some? ==> Entry(id, r.value) in s
  {
    if s == [] then None
    else if s[0].id == id then Some(s[0].record)
    else
      assert s == [s[0]] + s[1..];
      Lookup(s[1..], id)
  }

  /** Looking up in a collection whose first entry is `e`. */
  lemma LookupCons(e: Entry, t: seq<Entry>, k: Id)
    ensures Lookup([e] + t, k) == if e.id == k then Some(e.record) else Lookup(t, k)
  {
  }

  /** With distinct ids, the lookup of the id stored at position `i` finds
      the record at position `i`. */
  lemma LookupAt(s: seq<Entry>, i: nat)
    requires DistinctIds(s) && i < |s|
    ensures Lookup(s, s[i].id) == Some(s[i].record)
  {
  }

  /** Appending an entry under a fresh id: the new id finds the new record and
      every other lookup is unchanged (`insert_one`). */
  lemma {:induction false} AppendedLookup(s: seq<Entry>, e: Entry, k: Id)
    requires e.id !in Ids(s)
    ensures Lookup(s + [e], k) == if k == e.id then Some(e.record) else Lookup(s, k)
  {
    if s == [] {
    } else {
      assert (s + [e])[1..] == s[1..] + [e];
      assert Ids(s[1..]) <= Ids(s) by {
        forall x | x in Ids(s[1..]) ensures x in Ids(s) {
          var d :| d in s[1..] && d.id == x;
          assert d in s;
        }
      }
      AppendedLookup(s[1..], e, k);
    }
  }

  /** `update_one({"_id": id}, {"$set": p})` on a collection whose ids are
      distinct: the record stored under `id` gets the patch, others stay. */
  function Patched(s: seq<Entry>, id: Id, p: Patch): (r: seq<Entry>)
    ensures |r| == |s|
  {
    if s == [] then []
    else
      [if s[0].id == id then Entry(id, ApplyPatch(s[0].record, p)) else s[0]] + Patched(s[1..], id, p)
  }

  /** Position by position: the entry under `id` is patched, every other
      entry is unchanged, and no entry moves or changes its id. */
  lemma {:induction false} PatchedAt(s: seq<Entry>, id: Id, p: Patch, i: nat)
    requires i < |s|
    ensures Patched(s, id, p)[i].id == s[i].id
    ensures Patched(s, id, p)[i] ==
              if s[i].id == id then Entry(id, ApplyPatch(s[i].record, p)) else s[i]
  {
    if i > 0 {
      PatchedAt(s[1..], id, p, i - 1);
    }
  }

  /** The update keeps the set of ids and their distinctness. */
  lemma PatchedIds(s: seq<Entry>, id: Id, p: Patch)
    ensures Ids(Patched(s, id, p)) == Ids(s)
    ensures DistinctIds(s) ==> DistinctIds(Patched(s, id, p))
  {
    var r := Patched(s, id, p);
    forall i | 0 <= i < |s| ensures r[i].id == s[i].id {
      PatchedAt(s, id, p, i);
    }
    forall x ensures x in Ids(r) <==> x in Ids(s) {
      if x in Ids(r) {
        var i :| 0 <= i < |r| && r[i].id == x;
        assert s[i] in s;
      }
      if x in Ids(s) {
        var i :| 0 <= i < |s| && s[i].id == x;
        assert r[i] in r;
      }
    }
  }

  /** After the update, `id` finds its old record with the patch applied and
      every other id finds exactly what it found before. */
  lemma {:induction false} PatchedLookup(s: seq<Entry>, id: Id, p: Patch, k: Id)
    ensures Lookup(Patched(s, id, p), k) ==
              if k != id then Lookup(s, k)
              else match Lookup(s, id)
                case None => None
                case Some(a) => Some(ApplyPatch(a, p))
  {
    if s != [] {
      PatchedLookup(s[1..], id, p, k);
    }
  }

  /** An update that matches nothing leaves the collection as it was. */
  lemma {:induction false} PatchedAbsent(s: seq<Entry>, id: Id, p: Patch)
    requires id !in Ids(s)
    ensures Patched(s, id, p) == s
  {
    if s != [] {
      assert s[0] in s;
      assert Ids(s[1..]) <= Ids(s) by {
        forall x | x in Ids(s[1..]) ensures x in Ids(s) {
          var d :| d in s[1..] && d.id == x;
          assert d in s;
        }
      }
      PatchedAbsent(s[1..], id, p);
      assert s == [s[0]] + s[1..];
    }
  }

  /** `delete_one({"_id": id})` on a collection whose ids are distinct. */
  function Removed(s: seq<Entry>, id: Id): (r: seq<Entry>)
    ensures |r| <= |s|
  {
    if s == [] then []
    else (if s[0].id == id then [] else [s[0]]) + Removed(s[1..], id)
  }

  /** After the delete, `id` finds nothing and every other id finds exactly
      what it found before. */
  lemma {:induction false} RemovedLookup(s: seq<Entry>, id: Id, k: Id)
    ensures Lookup(Removed(s, id), k) == if k == id then None else Lookup(s, k)
  {
    if s != [] {
      RemovedLookup(s[1..], id, k);
      if s[0].id == id {
        assert Removed(s, id) == Removed(s[1..], id);
      } else {
        LookupCons(s[0], Removed(s[1..], id), k);
      }
    }
  }

  /** The delete takes exactly `id` out of the set of ids. */
  lemma RemovedIds(s: seq<Entry>, id: Id)
    ensures Ids(Removed(s, id)) == Ids(s) - {id}
  {
    forall k ensures k in Ids(Removed(s, id)) <==> k in Ids(s) && k != id {
      RemovedLookup(s, id, k);
    }
  }

  /** Deleting an id that is not stored changes nothing, so a second delete
      of the same id finds no match. */
  lemma {:induction false} RemovedAbsent(s: seq<Entry>, id: Id)
    requires id !in Ids(s)
    ensures Removed(s, id) == s
  {
    if s != [] {
      assert s[0] in s;
      assert Ids(s[1..]) <= Ids(s) by {
        forall x | x in Ids(s[1..]) ensures x in Ids(s) {
          var d :| d in s[1..] && d.id == x;
          assert d in s;
        }
      }
      RemovedAbsent(s[1..], id);
      assert s == [s[0]] + s[1..];
    }
  }

  /** With distinct ids, the delete cuts out exactly the one entry stored
      under `id` and keeps the others in their order. */
  lemma {:induction false} RemovedCutsOut(s: seq<Entry>, i: nat)
    requires DistinctIds(s) && i < |s|
    ensures Removed(s, s[i].id) == s[..i] + s[i + 1..]
  {
    var id := s[i].id;
    if i == 0 {
      assert id !in Ids(s[1..]);
      RemovedAbsent(s[1..], id);
    } else {
      RemovedCutsOut(s[1..], i - 1);
      assert s[1..][..i - 1] + s[1..][i..] == s[1..i] + s[i + 1..];
      assert s[..i] == [s[0]] + s[1..i];
    }
  }

  /** The delete keeps the remaining ids distinct. */
  lemma {:induction false} RemovedDistinct(s: seq<Entry>, id: Id)
    requires DistinctIds(s)
    ensures DistinctIds(Removed(s, id))
  {
    if s != [] {
      RemovedDistinct(s[1..], id);
      var rest := Removed(s[1..], id);
      RemovedIds(s[1..], id);
      assert s[0].id !in Ids(s[1..]);
      if s[0].id != id {
        forall j | 0 <= j < |rest| ensures rest[j].id != s[0].id {
          assert rest[j] in rest;
          assert rest[j].id in Ids(rest);
        }
      }
    }
  }
}
