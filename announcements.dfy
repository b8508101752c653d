/** An announcement record, the active-window test applied by the
    `/announcements/active` endpoint, and the partial update (the `$set`
    patch) built by the update endpoint. */
module Announcements {
  import opened StringOrder

  datatype Option<T> = None | Some(value: T)

  /** Store-assigned identifier; only equality and freshness matter. */
  type Id = nat

  /** A stored document. `startDate` is `None` when the creator gave none;
      `expirationDate` is optional too because the filter reads it with
      `.get`, which tolerates a document that lacks it. */
  datatype Announcement = Announcement(
    message: string,
    startDate: Option<string>,
    expirationDate: Option<string>,
    createdBy: string,
    createdAt: string)

  /** A document together with its `_id`, in the collection's natural order. */
  datatype Entry = Entry(id: Id, record: Announcement)

  /** Python truthiness of an optional string: `None` and `""` are both unset. */
  predicate IsSet(d: Option<string>)
  {
    d.Some? && d.value != ""
  }

  /** The first `continue` of the filter: the expiration date is set and
      sorts strictly before `now`. */
  predicate Expired(a: Announcement, now: string)
  {
    IsSet(a.expirationDate) && Less(a.expirationDate.value, now)
  }

  /** The second `continue` of the filter: the start date is set and sorts
      strictly after `now`. */
  predicate NotYetStarted(a: Announcement, now: string)
  {
    IsSet(a.startDate) && Less(now, a.startDate.value)
  }

  /** A record survives both `continue` tests. */
  predicate IsActive(a: Announcement, now: string)
  {
    !Expired(a, now) && !NotYetStarted(a, now)
  }

  /** The window, stated positively: `now` lies in [start, expiration], each
      bound absent when unset, compared lexicographically. */
  lemma ActiveIff(a: Announcement, now: string)
    ensures IsActive(a, now) <==>
              (!IsSet(a.expirationDate) || LessOrEqual(now, a.expirationDate.value)) &&
              (!IsSet(a.startDate) || LessOrEqual(a.startDate.value, now))
  {
    if IsSet(a.expirationDate) {
      NotLessIsGreaterOrEqual(a.expirationDate.value, now);
    }
    if IsSet(a.startDate) {
      NotLessIsGreaterOrEqual(now, a.startDate.value);
    }
  }

  /** The upper bound is inclusive: a record expiring exactly at `now` is
      active unless its start lies in the future. */
  lemma ExpiringNowIsActive(a: Announcement, now: string)
    requires a.expirationDate == Some(now)
    requires !NotYetStarted(a, now)
    ensures IsActive(a, now)
  {
    Irreflexive(now);
  }

  /** The lower bound is inclusive: a record starting exactly at `now` is
      active unless it has already expired. */
  lemma StartingNowIsActive(a: Announcement, now: string)
    requires a.startDate == Some(now)
    requires !Expired(a, now)
    ensures IsActive(a, now)
  {
    Irreflexive(now);
  }

  /** The active records of `s`, in the order of `s`. Defined from the back,
      the way the endpoint's loop appends to its result list. */
  function ActiveFilter(s: seq<Entry>, now: string): seq<Entry>
  {
    if s == [] then []
    else
      var last := s[|s| - 1];
      ActiveFilter(s[..|s| - 1], now) + (if IsActive(last.record, now) then [last] else [])
  }

  /** The positions of `s` whose record is active, in increasing order. */
  function ActiveIndices(s: seq<Entry>, now: string): seq<nat>
  {
    if s == [] then []
    else
      ActiveIndices(s[..|s| - 1], now) + (if IsActive(s[|s| - 1].record, now) then [|s| - 1] else [])
  }

  /** `ActiveIndices` lists exactly the active positions, strictly increasing. */
  lemma {:induction false} ActiveIndicesExact(s: seq<Entry>, now: string)
    ensures forall i :: 0 <= i < |ActiveIndices(s, now)| ==> ActiveIndices(s, now)[i] < |s|
    ensures forall i, j :: 0 <= i < j < |ActiveIndices(s, now)| ==>
              ActiveIndices(s, now)[i] < ActiveIndices(s, now)[j]
    ensures forall k :: 0 <= k < |s| ==> (k in ActiveIndices(s, now) <==> IsActive(s[k].record, now))
  {
    if s != [] {
      var init := s[..|s| - 1];
      ActiveIndicesExact(init, now);
      assert forall k :: 0 <= k < |init| ==> init[k] == s[k];
    }
  }

  /** The filter is the order-preserving subsequence of `s` picked out by
      `ActiveIndices`: entry `i` of the result is entry `ActiveIndices[i]` of
      `s`. Together with `ActiveIndicesExact`, every active record appears
      once, every inactive one not at all, and the store order is kept. */
  lemma {:induction false} ActiveFilterSelects(s: seq<Entry>, now: string)
    ensures |ActiveFilter(s, now)| == |ActiveIndices(s, now)|
    ensures forall i :: 0 <= i < |ActiveIndices(s, now)| ==>
              ActiveIndices(s, now)[i] < |s| && ActiveFilter(s, now)[i] == s[ActiveIndices(s, now)[i]]
  {
    if s != [] {
      var init := s[..|s| - 1];
      ActiveFilterSelects(init, now);
      ActiveIndicesExact(init, now);
      assert forall k :: 0 <= k < |init| ==> init[k] == s[k];
    }
  }

  /** Membership: an entry is listed iff it is stored and its record is active. */
  lemma {:induction false} ActiveFilterMembership(s: seq<Entry>, now: string, e: Entry)
    ensures e in ActiveFilter(s, now) <==> e in s && IsActive(e.record, now)
  {
    if s != [] {
      var init := s[..|s| - 1];
      ActiveFilterMembership(init, now, e);
      assert s == init + [s[|s| - 1]];
    }
  }

  /** The endpoint's filter never lengthens the list it is given. */
  lemma {:induction false} ActiveFilterShorter(s: seq<Entry>, now: string)
    ensures |ActiveFilter(s, now)| <= |s|
  {
    if s != [] {
      ActiveFilterShorter(s[..|s| - 1], now);
    }
  }

  /** A sample record: message "Exam Friday", created by "t1", no start
      date, expiring at "2025-01-10T00:00:00". */
  function ExamFriday(createdAt: string): Announcement
  {
    Announcement("Exam Friday", None, Some("2025-01-10T00:00:00"), "t1", createdAt)
  }

  /** The sample record is listed at "2025-01-05T00:00:00", before it expires. */
  lemma ExamFridayListedBefore(createdAt: string)
    ensures IsActive(ExamFriday(createdAt), "2025-01-05T00:00:00")
  {
    var expiry, early := "2025-01-10T00:00:00", "2025-01-05T00:00:00";
    assert early[..8] == expiry[..8];
    FirstDifferenceDecides(early, expiry, 8);
    Asymmetric(early, expiry);
  }

  /** The sample record is no longer listed at "2025-01-11T00:00:00". */
  lemma ExamFridayDroppedAfter(createdAt: string)
    ensures !IsActive(ExamFriday(createdAt), "2025-01-11T00:00:00")
  {
    var expiry, late := "2025-01-10T00:00:00", "2025-01-11T00:00:00";
    assert expiry[..9] == late[..9];
    FirstDifferenceDecides(expiry, late, 9);
  }

  // ---------------------------------------------------------------------
  // Partial update

  /** The three fields an update may overwrite. */
  datatype Field = Message | StartDate | ExpirationDate

  /** The `$set` document: the fields to overwrite and their new values. */
  type Patch = map<Field, string>

  /** The body of an update request; `None` means "not supplied". */
  datatype UpdateRequest = UpdateRequest(
    message: Option<string>,
    startDate: Option<string>,
    expirationDate: Option<string>,
    username: string)

  /** The value the request supplies for field `f`, if any. */
  function Supplied(req: UpdateRequest, f: Field): Option<string>
  {
    match f
    case Message => req.message
    case StartDate => req.startDate
    case ExpirationDate => req.expirationDate
  }

  /** Builds the patch field by field: a field is included iff the request's
      value is not `None`, so an empty string is still written. */
  function BuildPatch(req: UpdateRequest): (p: Patch)
    ensures forall f :: f in p <==> Supplied(req, f).Some?
    ensures forall f :: f in p ==> p[f] == Supplied(req, f).value
  {
    var p0: Patch := map[];
    var p1 := if req.message.Some? then p0[Message := req.message.value] else p0;
    var p2 := if req.startDate.Some? then p1[StartDate := req.startDate.value] else p1;
    if req.expirationDate.Some? then p2[ExpirationDate := req.expirationDate.value] else p2
  }

  /** The patch is empty exactly when no field was supplied. */
  lemma EmptyPatchIff(req: UpdateRequest)
    ensures BuildPatch(req) == map[] <==>
              req.message.None? && req.startDate.None? && req.expirationDate.None?
  {
    if req.message.Some? {
      assert Message in BuildPatch(req);
    } else if req.startDate.Some? {
      assert StartDate in BuildPatch(req);
    } else if req.expirationDate.Some? {
      assert ExpirationDate in BuildPatch(req);
    }
  }

  /** The current value of an updatable field of a record. */
  function FieldValue(a: Announcement, f: Field): Option<string>
  {
    match f
    case Message => Some(a.message)
    case StartDate => a.startDate
    case ExpirationDate => a.expirationDate
  }

  /** `$set`: the patched fields take the patch's values, every other
      updatable field keeps its value, and the creator and creation time
      are never touched. */
  function ApplyPatch(a: Announcement, p: Patch): (b: Announcement)
    ensures forall f :: FieldValue(b, f) == if f in p then Some(p[f]) else FieldValue(a, f)
    ensures b.createdBy == a.createdBy && b.createdAt == a.createdAt
  {
    Announcement(
      if Message in p then p[Message] else a.message,
      if StartDate in p then Some(p[StartDate]) else a.startDate,
      if ExpirationDate in p then Some(p[ExpirationDate]) else a.expirationDate,
      a.createdBy,
      a.createdAt)
  }

  /** Supplying `start_date = ""` is accepted as a change and leaves the
      record with no start bound: it is then never "not yet started". */
  lemma EmptyStartDateClearsLowerBound(a: Announcement, req: UpdateRequest, now: string)
    requires req.startDate == Some("")
    ensures BuildPatch(req) != map[]
    ensures !NotYetStarted(ApplyPatch(a, BuildPatch(req)), now)
  {
    var p := BuildPatch(req);
    assert StartDate in p;
    assert FieldValue(ApplyPatch(a, p), StartDate) == Some("");
  }
}
