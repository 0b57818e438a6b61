/** Emergency alerts (`services/sosService.ts`), kept in one list under
    `treasure-hunt-sos-alerts`. */
module SosService {
  import opened Wrappers
  import opened Types
  import opened Storage
  import opened Text
  import opened Sorting

  function AlertTime(a: SOSAlert): int { a.timestamp }

  /** `getSOSAlerts`: the stored alerts, newest first, equal timestamps in
      stored order. */
  function GetSOSAlerts(s: Store): (alerts: seq<SOSAlert>)
    ensures SortedDesc(alerts, AlertTime)
    ensures multiset(alerts) == multiset(s.sosAlerts)
    ensures forall v :: WithKey(alerts, AlertTime, v) == WithKey(s.sosAlerts, AlertTime, v)
  {
    SortDesc(s.sosAlerts, AlertTime)
  }

  /** The alert `sendSOSAlert` raises for `u` at clock reading `now`: the
      username serves as user id, and only latitude and longitude of the
      reading are kept. */
  function NewAlert(u: User, reading: GeoReading, now: nat): (a: SOSAlert)
    ensures a.userId == u.username && a.username == u.username
    ensures a.firstName == u.firstName && a.lastName == u.lastName
    ensures a.location == Coordinates(reading.latitude, reading.longitude)
    ensures a.timestamp == now
    ensures a.id == "sos-" + u.username + "-" + NatToDecimal(now)
  {
    SOSAlert("sos-" + u.username + "-" + NatToDecimal(now), u.username, u.username,
             u.firstName, u.lastName, Coordinates(reading.latitude, reading.longitude), now)
  }

  /** `sendSOSAlert`: the new alert in front of the sorted old alerts. */
  function SendSOSAlert(s: Store, u: User, reading: GeoReading, now: nat): (s': Store)
    ensures s' == s.(sosAlerts := s'.sosAlerts)
    ensures |s'.sosAlerts| == |s.sosAlerts| + 1
    ensures s'.sosAlerts[0] == NewAlert(u, reading, now)
    ensures s'.sosAlerts[1..] == GetSOSAlerts(s)
    ensures multiset(s'.sosAlerts) == multiset(s.sosAlerts) + multiset{NewAlert(u, reading, now)}
  {
    var alerts := [NewAlert(u, reading, now)] + GetSOSAlerts(s);
    assert alerts[1..] == GetSOSAlerts(s);
    s.(sosAlerts := alerts)
  }

  /** When the clock has not gone backwards, the stored list is already
      newest first, as the source's comment intends, and the next reading
      returns it unchanged. */
  lemma SendKeepsNewestFirst(s: Store, u: User, reading: GeoReading, now: nat)
    requires forall k :: 0 <= k < |s.sosAlerts| ==> s.sosAlerts[k].timestamp <= now
    ensures SortedDesc(SendSOSAlert(s, u, reading, now).sosAlerts, AlertTime)
    ensures GetSOSAlerts(SendSOSAlert(s, u, reading, now)) == SendSOSAlert(s, u, reading, now).sosAlerts
  {
    var sorted := GetSOSAlerts(s);
    forall k | 0 <= k < |sorted| ensures AlertTime(sorted[k]) <= AlertTime(NewAlert(u, reading, now)) {
      assert sorted[k] in multiset(s.sosAlerts);
    }
    PrependMaximum(NewAlert(u, reading, now), sorted, AlertTime);
    SortSortedIsIdentity(SendSOSAlert(s, u, reading, now).sosAlerts, AlertTime);
  }

  /** With a clock that went backwards the stored list is out of order:
      an alert stamped 5 stored after one stamped 10. */
  lemma SendAfterClockSkew(u: User, reading: GeoReading)
    ensures var s0 := SendSOSAlert(EmptyStore, u, reading, 10);
      var s1 := SendSOSAlert(s0, u, reading, 5);
      && s1.sosAlerts[0].timestamp == 5 && s1.sosAlerts[1].timestamp == 10
      && !SortedDesc(s1.sosAlerts, AlertTime)
  {
    var s0 := SendSOSAlert(EmptyStore, u, reading, 10);
    assert GetSOSAlerts(s0) == s0.sosAlerts by {
      SortSortedIsIdentity(s0.sosAlerts, AlertTime);
    }
    var s1 := SendSOSAlert(s0, u, reading, 5);
    assert AlertTime(s1.sosAlerts[0]) < AlertTime(s1.sosAlerts[1]);
  }
}
