/** The `/announcements` endpoints over the two collections they use: the
    announcements themselves and the registered teachers, whose usernames are
    the only credential a write checks. */
module Router {
  import opened Announcements
  import opened Collection
  import opened StringOrder

  /** The HTTP errors the router raises. */
  datatype Error =
    | Unauthorized  // 401: the username is not a registered teacher
    | BadRequest    // 400: "No fields to update"
    | NotFound      // 404: "Announcement not found"

  datatype Result<T> = Ok(value: T) | Err(error: Error)

  /** The body of a create request; the start date may be omitted. */
  datatype CreateRequest = CreateRequest(
    message: string,
    startDate: Option<string>,
    expirationDate: string,
    username: string)

  /** The confirmation returned by a successful delete. */
  const DeletedMessage := "Announcement deleted successfully"

  class Database {
    /** The announcements collection, in natural (insertion) order. */
    var announcements: seq<Entry>
    /** The `_id`s of the teachers collection. */
    var teachers: set<string>
    /** The next id the store hands out; every stored id is below it. */
    var nextId: Id

    ghost predicate Valid()
      reads this
    {
      && DistinctIds(announcements)
      && forall k :: k in Ids(announcements) ==> k < nextId
    }

    constructor (teachers: set<string>)
      ensures Valid()
      ensures announcements == [] && this.teachers == teachers
    {
      announcements := [];
      this.teachers := teachers;
      nextId := 0;
    }

    /** GET /announcements/active: the stored announcements whose window
        contains `now`, in store order. `now` is the caller's clock reading. */
    method GetActiveAnnouncements(now: string) returns (active: seq<Entry>)
      ensures active == ActiveFilter(announcements, now)
      ensures forall e :: e in active <==> e in announcements && IsActive(e.record, now)
    {
      active := [];
      var i := 0;
      while i < |announcements|
        invariant 0 <= i <= |announcements|
        invariant active == ActiveFilter(announcements[..i], now)
      {
        var announcement := announcements[i];
        assert announcements[..i + 1][..i] == announcements[..i];
        i := i + 1;
        if IsSet(announcement.record.expirationDate) && Less(announcement.record.expirationDate.value, now) {
          continue;
        }
        if IsSet(announcement.record.startDate) && Less(now, announcement.record.startDate.value) {
          continue;
        }
        active := active + [announcement];
      }
      assert announcements[..i] == announcements;
      forall e ensures e in active <==> e in announcements && IsActive(e.record, now) {
        ActiveFilterMembership(announcements, now, e);
      }
    }

    /** GET /announcements/all: every stored announcement, in store order. */
    method GetAllAnnouncements() returns (all: seq<Entry>)
      ensures all == announcements
    {
      all := announcements;
    }

    /** POST /announcements/: a registered teacher adds one announcement under
        a fresh id; `now` is the creation time. */
    method CreateAnnouncement(req: CreateRequest, now: string) returns (r: Result<Entry>)
      requires Valid()
      modifies this`announcements, this`nextId
      ensures Valid()
      ensures r.Ok? <==> req.username in teachers
      ensures r.Err? ==> r.error == Unauthorized && announcements == old(announcements)
      ensures r.Ok? ==>
                && r.value.id !in Ids(old(announcements))
                && r.value.record.message == req.message
                && r.value.record.startDate == req.startDate
                && r.value.record.expirationDate == Some(req.expirationDate)
                && r.value.record.createdBy == req.username
                && r.value.record.createdAt == now
                && announcements == old(announcements) + [r.value]
                && Lookup(announcements, r.value.id) == Some(r.value.record)
      ensures r.Ok? ==> forall k :: k != r.value.id ==> Lookup(announcements, k) == Lookup(old(announcements), k)
    {
      if req.username !in teachers {
        return Err(Unauthorized);
      }
      var record := Announcement(req.message, req.startDate, Some(req.expirationDate), req.username, now);
      var entry := Entry(nextId, record);
      assert entry.id !in Ids(announcements);
      forall k {
        AppendedLookup(announcements, entry, k);
      }
      ghost var before := announcements;
      announcements := announcements + [entry];
      nextId := nextId + 1;
      forall i, j | 0 <= i < j < |announcements| ensures announcements[i].id != announcements[j].id {
        if j == |before| {
          assert before[i] in before;
          assert before[i].id in Ids(before);
        }
      }
      forall k | k in Ids(announcements) ensures k < nextId {
        var e :| e in announcements && e.id == k;
        if e != entry {
          assert e in before;
          assert k in Ids(before);
        }
      }
      r := Ok(entry);
    }

    /** PUT /announcements/{id}: a registered teacher overwrites the supplied
        fields of one announcement and gets back its new state. The checks
        run in the order 401, 400, 404. */
    method UpdateAnnouncement(id: Id, req: UpdateRequest) returns (r: Result<Entry>)
      requires Valid()
      modifies this`announcements
      ensures Valid()
      ensures r.Ok? <==> req.username in teachers && BuildPatch(req) != map[] && id in Ids(old(announcements))
      ensures req.username !in teachers ==> r == Err(Unauthorized)
      ensures req.username in teachers && BuildPatch(req) == map[] ==> r == Err(BadRequest)
      ensures req.username in teachers && BuildPatch(req) != map[] && id !in Ids(old(announcements)) ==>
                r == Err(NotFound)
      ensures r.Err? ==> announcements == old(announcements)
      ensures r.Ok? ==>
                && announcements == Patched(old(announcements), id, BuildPatch(req))
                && r.value.id == id
                && r.value.record == ApplyPatch(Lookup(old(announcements), id).value, BuildPatch(req))
                && Lookup(announcements, id) == Some(r.value.record)
                && r.value.record.createdBy == Lookup(old(announcements), id).value.createdBy
                && r.value.record.createdAt == Lookup(old(announcements), id).value.createdAt
      ensures forall k :: k != id ==> Lookup(announcements, k) == Lookup(old(announcements), k)
    {
      if req.username !in teachers {
        return Err(Unauthorized);
      }
      var patch := BuildPatch(req);
      if patch == map[] {
        return Err(BadRequest);
      }
      var matched := id in Ids(announcements);
      if !matched {
        PatchedAbsent(announcements, id, patch);
      }
      PatchedIds(announcements, id, patch);
      forall k {
        PatchedLookup(announcements, id, patch, k);
      }
      announcements := Patched(announcements, id, patch);
      if !matched {
        return Err(NotFound);
      }
      var updated := Lookup(announcements, id);
      r := Ok(Entry(id, updated.value));
    }

    /** DELETE /announcements/{id}: a registered teacher removes one
        announcement. */
    method DeleteAnnouncement(id: Id, username: string) returns (r: Result<string>)
      requires Valid()
      modifies this`announcements
      ensures Valid()
      ensures r.Ok? <==> username in teachers && id in Ids(old(announcements))
      ensures username !in teachers ==> r == Err(Unauthorized)
      ensures username in teachers && id !in Ids(old(announcements)) ==> r == Err(NotFound)
      ensures r.Err? ==> announcements == old(announcements)
      ensures r.Ok? ==>
                && r.value == DeletedMessage
                && announcements == Removed(old(announcements), id)
                && Ids(announcements) == Ids(old(announcements)) - {id}
                && Lookup(announcements, id) == None
      ensures forall k :: k != id ==> Lookup(announcements, k) == Lookup(old(announcements), k)
    {
      if username !in teachers {
        return Err(Unauthorized);
      }
      var deleted := id in Ids(announcements);
      if !deleted {
        RemovedAbsent(announcements, id);
      }
      RemovedIds(announcements, id);
      RemovedDistinct(announcements, id);
      forall k {
        RemovedLookup(announcements, id, k);
      }
      announcements := Removed(announcements, id);
      if !deleted {
        return Err(NotFound);
      }
      r := Ok(DeletedMessage);
    }
  }

  /** Deleting the same announcement twice: the first call succeeds, the
      second reports NotFound and changes nothing. */
  method DeleteTwice(db: Database, id: Id, username: string) returns (first: Result<string>, second: Result<string>)
    requires db.Valid()
    modifies db`announcements
    ensures db.Valid()
    ensures first.Ok? ==> second == Err(NotFound)
    ensures first.Ok? ==> db.announcements == Removed(old(db.announcements), id)
  {
    first := db.DeleteAnnouncement(id, username);
    second := db.DeleteAnnouncement(id, username);
  }
}
