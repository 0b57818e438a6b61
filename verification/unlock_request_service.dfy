/** Players' requests to have a task or subtask unlocked
    (`services/unlockRequestService.ts`), kept in one list under
    `treasure-hunt-unlock-requests`. The reader returns the list newest
    first; writers store whatever order they hold. */
module UnlockRequestService {
  import opened Wrappers
  import opened Types
  import opened Storage
  import opened Text
  import opened Sorting

  function RequestTime(r: UnlockRequest): int { r.timestamp }

  /** `getUnlockRequests`: the stored requests, newest first, equal
      timestamps in stored order. */
  function GetUnlockRequests(s: Store): (rs: seq<UnlockRequest>)
    ensures SortedDesc(rs, RequestTime)
    ensures multiset(rs) == multiset(s.unlockRequests)
    ensures forall v :: WithKey(rs, RequestTime, v) == WithKey(s.unlockRequests, RequestTime, v)
  {
    SortDesc(s.unlockRequests, RequestTime)
  }

  /** The caller's part of a request: everything except id, timestamp and
      status. */
  datatype RequestData = RequestData(
    userId: string,
    username: string,
    firstName: string,
    lastName: string,
    taskId: string,
    subtaskId: Option<string>,
    taskTitle: string,
    subtaskDescription: Option<string>,
    reason: string)

  const RequestIdPrefix: string := "unlock-req-"

  /** The request `addUnlockRequest` builds at clock reading `now`. */
  function NewRequest(d: RequestData, now: nat): (r: UnlockRequest)
    ensures |RequestIdPrefix| < |r.id| && r.id[..|RequestIdPrefix|] == RequestIdPrefix
    ensures AllDigits(r.id[|RequestIdPrefix|..]) && DigitsValue(r.id[|RequestIdPrefix|..]) == now
    ensures r.status == Pending && r.timestamp == now
    ensures r.userId == d.userId && r.username == d.username && r.firstName == d.firstName
    ensures r.lastName == d.lastName && r.taskId == d.taskId && r.subtaskId == d.subtaskId
    ensures r.taskTitle == d.taskTitle && r.subtaskDescription == d.subtaskDescription && r.reason == d.reason
  {
    UnlockRequest(RequestIdPrefix + NatToDecimal(now), d.userId, d.username, d.firstName, d.lastName,
                  d.taskId, d.subtaskId, d.taskTitle, d.subtaskDescription, d.reason, now, Pending)
  }

  /** `addUnlockRequest`: the sorted list with the new request appended at
      the end is written back. */
  function AddUnlockRequest(s: Store, d: RequestData, now: nat): (s': Store)
    ensures s' == s.(unlockRequests := s'.unlockRequests)
    ensures |s'.unlockRequests| == |s.unlockRequests| + 1
    ensures s'.unlockRequests[..|s.unlockRequests|] == GetUnlockRequests(s)
    ensures s'.unlockRequests[|s.unlockRequests|] == NewRequest(d, now)
    ensures multiset(s'.unlockRequests) == multiset(s.unlockRequests) + multiset{NewRequest(d, now)}
  {
    var rs := GetUnlockRequests(s) + [NewRequest(d, now)];
    assert rs[..|s.unlockRequests|] == GetUnlockRequests(s);
    s.(unlockRequests := rs)
  }

  /** `requests.findIndex(req => req.id === id)`, `|requests|` for -1. */
  function FindRequestIndex(rs: seq<UnlockRequest>, id: string): (i: nat)
    ensures i <= |rs|
    ensures i < |rs| ==> rs[i].id == id
    ensures forall k :: 0 <= k < i ==> rs[k].id != id
  {
    if rs == [] then 0
    else if rs[0].id == id then 0
    else 1 + FindRequestIndex(rs[1..], id)
  }

  /** `updateRequestStatus`: the first request with that id, in newest-first
      order, takes the new status and the sorted list is written; an id
      no request has writes nothing. */
  function UpdateRequestStatus(s: Store, id: string, status: RequestStatus): (s': Store)
    ensures s' == s.(unlockRequests := s'.unlockRequests)
    ensures !HasRequest(s.unlockRequests, id) ==> s' == s
    ensures HasRequest(s.unlockRequests, id) ==>
      var rs := GetUnlockRequests(s);
      var i := FindRequestIndex(rs, id);
      && i < |rs|
      && s'.unlockRequests == rs[i := rs[i].(status := status)]
      && SortedDesc(s'.unlockRequests, RequestTime)
  {
    var rs := GetUnlockRequests(s);
    var i := FindRequestIndex(rs, id);
    SortingKeepsIds(s, id);
    if i == |rs| then s
    else
      var rs' := rs[i := rs[i].(status := status)];
      StatusChangeKeepsOrder(rs, i, status);
      s.(unlockRequests := rs')
  }

  predicate HasRequest(rs: seq<UnlockRequest>, id: string) {
    exists k :: 0 <= k < |rs| && rs[k].id == id
  }

  lemma SortingKeepsIds(s: Store, id: string)
    ensures HasRequest(GetUnlockRequests(s), id) <==> HasRequest(s.unlockRequests, id)
  {
    var rs := GetUnlockRequests(s);
    if HasRequest(rs, id) {
      var k :| 0 <= k < |rs| && rs[k].id == id;
      assert rs[k] in multiset(s.unlockRequests);
    }
    if HasRequest(s.unlockRequests, id) {
      var k :| 0 <= k < |s.unlockRequests| && s.unlockRequests[k].id == id;
      assert s.unlockRequests[k] in multiset(rs);
    }
  }

  lemma StatusChangeKeepsOrder(rs: seq<UnlockRequest>, i: nat, status: RequestStatus)
    requires i < |rs| && SortedDesc(rs, RequestTime)
    ensures SortedDesc(rs[i := rs[i].(status := status)], RequestTime)
  {
    var rs' := rs[i := rs[i].(status := status)];
    assert forall k :: 0 <= k < |rs| ==> RequestTime(rs'[k]) == RequestTime(rs[k]);
  }

  /** Reading twice gives the same list. */
  lemma GetIsIdempotent(s: Store)
    ensures GetUnlockRequests(s.(unlockRequests := GetUnlockRequests(s))) == GetUnlockRequests(s)
  {
    SortSortedIsIdentity(GetUnlockRequests(s), RequestTime);
  }

  /** A request made later than every stored one is read back first,
      followed by the earlier reading. */
  lemma AddThenGet(s: Store, d: RequestData, now: nat)
    requires forall k :: 0 <= k < |s.unlockRequests| ==> s.unlockRequests[k].timestamp < now
    ensures GetUnlockRequests(AddUnlockRequest(s, d, now)) == [NewRequest(d, now)] + GetUnlockRequests(s)
  {
    var rs := GetUnlockRequests(s);
    forall k | 0 <= k < |rs| ensures RequestTime(rs[k]) < RequestTime(NewRequest(d, now)) {
      assert rs[k] in multiset(s.unlockRequests);
    }
    assert AddUnlockRequest(s, d, now).unlockRequests == rs + [NewRequest(d, now)];
    SortAppendNewest(rs, NewRequest(d, now), RequestTime);
    SortSortedIsIdentity(rs, RequestTime);
  }

  /** After an update the reader sees exactly what was written, since
      the stored list is already newest first, and looking the id up
      again finds the request with its new status. */
  lemma UpdateThenGet(s: Store, id: string, status: RequestStatus)
    requires HasRequest(s.unlockRequests, id)
    ensures var s' := UpdateRequestStatus(s, id, status);
      var rs := GetUnlockRequests(s');
      var i := FindRequestIndex(rs, id);
      && rs == s'.unlockRequests
      && i < |rs| && rs[i] == GetUnlockRequests(s)[i].(status := status)
  {
    var s' := UpdateRequestStatus(s, id, status);
    var rs0 := GetUnlockRequests(s);
    var i0 := FindRequestIndex(rs0, id);
    var rs1 := rs0[i0 := rs0[i0].(status := status)];
    assert s'.unlockRequests == rs1;
    SortSortedIsIdentity(rs1, RequestTime);
    assert GetUnlockRequests(s') == rs1;
    FindAfterStatusChange(rs0, id, status);
  }

  lemma FindAfterStatusChange(rs: seq<UnlockRequest>, id: string, status: RequestStatus)
    requires FindRequestIndex(rs, id) < |rs|
    ensures var i := FindRequestIndex(rs, id);
      FindRequestIndex(rs[i := rs[i].(status := status)], id) == i
  {
    var i := FindRequestIndex(rs, id);
    var rs' := rs[i := rs[i].(status := status)];
    assert rs'[i].id == id;
    assert forall k :: 0 <= k < i ==> rs'[k].id != id;
  }
}
