/** Per-user activity statistics (`services/activityService.ts`). The
    clock reading `Date.now()` is the parameter `now`. */
module ActivityService {
  import opened Wrappers
  import opened Types
  import opened Storage

  /** The record a player starts from. */
  function DefaultActivity(now: int): ActivityData {
    ActivityData(0.0, 0.0, 0.0, 0.0, Some(now), 0.0, 0.0)
  }

  /** Reads the record, back-filling fields that older versions did not
      write and dropping the retired `elevationProfile`; the result type
      has no such field. Reading never writes. */
  function GetActivityData(s: Store, username: string, now: int): (d: ActivityData)
    ensures d.startTime.Some?
    ensures ActivityKey(username) !in s.activity ==> d == DefaultActivity(now)
    ensures ActivityKey(username) in s.activity ==>
      var a := s.activity[ActivityKey(username)];
      && d.distance == a.distance && d.elevationGain == a.elevationGain && d.calories == a.calories
      && (a.elevationLoss.Some? ==> d.elevationLoss == a.elevationLoss.value)
      && (a.elevationLoss.None? ==> d.elevationLoss == 0.0)
      && (a.startTime.Some? ==> d.startTime == a.startTime)
      && (a.startTime.None? ==> d.startTime == Some(now))
      && (a.activeTime.Some? ==> d.activeTime == a.activeTime.value)
      && (a.activeTime.None? ==> d.activeTime == 0.0)
      && (a.restTime.Some? ==> d.restTime == a.restTime.value)
      && (a.restTime.None? ==> d.restTime == 0.0)
  {
    var key := ActivityKey(username);
    if key in s.activity then
      var a := s.activity[key];
      ActivityData(a.distance, a.elevationGain, a.elevationLoss.GetOr(0.0), a.calories,
                   Some(a.startTime.GetOr(now)), a.activeTime.GetOr(0.0), a.restTime.GetOr(0.0))
    else DefaultActivity(now)
  }

  /** `JSON.stringify` drops an undefined `startTime`. */
  function SaveActivityData(s: Store, username: string, d: ActivityData): (s': Store)
    ensures s' == s.(activity := s'.activity)
    ensures ActivityKey(username) in s'.activity
    ensures s'.activity[ActivityKey(username)].distance == d.distance
      && s'.activity[ActivityKey(username)].elevationGain == d.elevationGain
      && s'.activity[ActivityKey(username)].elevationLoss == Some(d.elevationLoss)
      && s'.activity[ActivityKey(username)].calories == d.calories
      && s'.activity[ActivityKey(username)].startTime == d.startTime
      && s'.activity[ActivityKey(username)].activeTime == Some(d.activeTime)
      && s'.activity[ActivityKey(username)].restTime == Some(d.restTime)
      && s'.activity[ActivityKey(username)].elevationProfile.None?
    ensures forall k :: k != ActivityKey(username) ==>
      (k in s'.activity <==> k in s.activity) && (k in s.activity ==> s'.activity[k] == s.activity[k])
  {
    s.(activity := s.activity[ActivityKey(username) := StoredActivity(
      d.distance, d.elevationGain, Some(d.elevationLoss), d.calories,
      d.startTime, Some(d.activeTime), Some(d.restTime), None)])
  }

  function ResetActivityData(s: Store, username: string): (s': Store)
    ensures s' == s.(activity := s'.activity)
    ensures ActivityKey(username) !in s'.activity
    ensures forall k :: k != ActivityKey(username) ==>
      (k in s'.activity <==> k in s.activity) && (k in s.activity ==> s'.activity[k] == s.activity[k])
  {
    s.(activity := s.activity - {ActivityKey(username)})
  }

  /** Reading back a saved record gives the record, with the session start
      filled in from the clock only when the record had none. */
  lemma SaveThenGet(s: Store, username: string, d: ActivityData, now: int)
    ensures d.startTime.Some? ==> GetActivityData(SaveActivityData(s, username, d), username, now) == d
    ensures d.startTime.None? ==> GetActivityData(SaveActivityData(s, username, d), username, now) == d.(startTime := Some(now))
  {
  }

  /** After a reset the reader starts from the defaults again. */
  lemma ResetThenGet(s: Store, username: string, now: int)
    ensures GetActivityData(ResetActivityData(s, username), username, now) == DefaultActivity(now)
  {
  }

  /** Saving or resetting one player's record leaves every other player's
      reading unchanged. */
  lemma OtherPlayersUnaffected(s: Store, username: string, other: string, d: ActivityData, now: int)
    requires other != username
    ensures GetActivityData(SaveActivityData(s, username, d), other, now) == GetActivityData(s, other, now)
    ensures GetActivityData(ResetActivityData(s, username), other, now) == GetActivityData(s, other, now)
  {
    if ActivityKey(other) == ActivityKey(username) {
      PrefixedKeyInjective(ActivityPrefix, other, username);
    }
  }
}
