/** Last known positions (`services/locationService.ts`): one record per
    player under `treasure-location-data-<username>`, and the live-map
    listing built from the directory. The clock reading is `now`. */
module LocationService {
  import opened Wrappers
  import opened Types
  import opened Storage
  import UserService

  const ActiveThresholdSeconds: int := 20

  /** `saveUserLocation`: overwrites the player's record with latitude,
      longitude and timestamp; the reading's other fields are dropped. */
  function SaveUserLocation(s: Store, username: string, reading: GeoReading, timestamp: int): (s': Store)
    ensures s' == s.(locations := s'.locations)
    ensures GetUserRawLocation(s', username) == Some(RawLocation(reading.latitude, reading.longitude, timestamp))
    ensures forall v :: v != username ==> GetUserRawLocation(s', v) == GetUserRawLocation(s, v)
  {
    var s' := s.(locations := s.locations[LocationKey(username) := RawLocation(reading.latitude, reading.longitude, timestamp)]);
    forall v | v != username ensures GetUserRawLocation(s', v) == GetUserRawLocation(s, v) {
      if LocationKey(v) == LocationKey(username) {
        PrefixedKeyInjective(LocationPrefix, v, username);
      }
    }
    s'
  }

  function GetUserRawLocation(s: Store, username: string): Option<RawLocation> {
    var key := LocationKey(username);
    if key in s.locations then Some(s.locations[key]) else None
  }

  /** `(now - timestamp) / 1000 < ACTIVE_THRESHOLD_SECONDS`, in exact
      arithmetic. */
  function PresenceAt(now: int, timestamp: int): Presence {
    if (now - timestamp) as real / 1000.0 < ActiveThresholdSeconds as real then Active else Offline
  }

  /** The seconds comparison is the same as comparing milliseconds with
      20000: a location is active for the 20 seconds after it was taken,
      and also when its timestamp lies in the future. */
  lemma ActiveWithinTwentySeconds(now: int, timestamp: int)
    ensures PresenceAt(now, timestamp) == Active <==> now - timestamp < 20000
  {
    var d := (now - timestamp) as real;
    assert d / 1000.0 < 20.0 <==> d < 20000.0;
  }

  /** Directory entries the live map lists: players not archived. */
  predicate Listed(u: User) {
    u.role == Player && !u.isDeleted
  }

  function Entry(u: User, raw: RawLocation, now: int): UserLocation {
    UserLocation(u.username, u.firstName, u.lastName, raw.latitude, raw.longitude, raw.timestamp,
                 PresenceAt(now, raw.timestamp))
  }

  /** `e` is the live-map entry for directory entry `u`. */
  predicate Shows(s: Store, now: int, u: User, e: UserLocation) {
    Listed(u) && GetUserRawLocation(s, u.username).Some?
    && e == Entry(u, GetUserRawLocation(s, u.username).value, now)
  }

  predicate ShownFor(s: Store, now: int, users: seq<User>, e: UserLocation) {
    exists k :: 0 <= k < |users| && Shows(s, now, users[k], e)
  }

  /** One entry per listed user with a stored location, in directory
      order. */
  function Collect(s: Store, users: seq<User>, now: int): (r: seq<UserLocation>)
    ensures |r| <= |users|
  {
    if users == [] then []
    else
      var raw := GetUserRawLocation(s, users[0].username);
      if Listed(users[0]) && raw.Some? then [Entry(users[0], raw.value, now)] + Collect(s, users[1..], now)
      else Collect(s, users[1..], now)
  }

  /** Listing a directory in two parts lists the parts one after the
      other: entries follow directory order. */
  lemma {:induction false} CollectAppend(s: Store, a: seq<User>, b: seq<User>, now: int)
    ensures Collect(s, a + b, now) == Collect(s, a, now) + Collect(s, b, now)
  {
    if a != [] {
      assert (a + b)[1..] == a[1..] + b;
      CollectAppend(s, a[1..], b, now);
    } else {
      assert a + b == b;
    }
  }

  lemma ShownForTail(s: Store, now: int, users: seq<User>, e: UserLocation)
    requires users != [] && ShownFor(s, now, users[1..], e)
    ensures ShownFor(s, now, users, e)
  {
    var k :| 0 <= k < |users[1..]| && Shows(s, now, users[1..][k], e);
    assert Shows(s, now, users[k + 1], e);
  }

  /** Every entry comes from a listed user with a stored location. */
  lemma {:induction false} CollectSound(s: Store, users: seq<User>, now: int)
    ensures forall e :: e in Collect(s, users, now) ==> ShownFor(s, now, users, e)
  {
    if users != [] {
      CollectSound(s, users[1..], now);
      forall e | e in Collect(s, users[1..], now) ensures ShownFor(s, now, users, e) {
        ShownForTail(s, now, users, e);
      }
      var raw := GetUserRawLocation(s, users[0].username);
      if Listed(users[0]) && raw.Some? {
        assert Shows(s, now, users[0], Entry(users[0], raw.value, now));
      }
    }
  }

  /** Every listed user with a stored location has an entry. */
  lemma {:induction false} CollectComplete(s: Store, users: seq<User>, now: int)
    ensures forall k :: 0 <= k < |users| && Listed(users[k]) && GetUserRawLocation(s, users[k].username).Some? ==>
      Entry(users[k], GetUserRawLocation(s, users[k].username).value, now) in Collect(s, users, now)
  {
    if users != [] {
      CollectComplete(s, users[1..], now);
      assert forall k :: 1 <= k < |users| ==> users[k] == users[1..][k - 1];
    }
  }

  predicate OneEntryPerName(r: seq<UserLocation>) {
    forall i, j :: 0 <= i < j < |r| ==> r[i].username != r[j].username
  }

  /** With distinct usernames in the directory, nobody is listed twice. */
  lemma {:induction false} CollectDistinct(s: Store, users: seq<User>, now: int)
    ensures UserService.DistinctNames(users) ==> OneEntryPerName(Collect(s, users, now))
  {
    if users != [] && UserService.DistinctNames(users) {
      var rest := Collect(s, users[1..], now);
      assert UserService.DistinctNames(users[1..]) by {
        assert forall k :: 0 <= k < |users[1..]| ==> users[1..][k] == users[k + 1];
      }
      CollectDistinct(s, users[1..], now);
      CollectSound(s, users[1..], now);
      forall i | 0 <= i < |rest| ensures rest[i].username != users[0].username {
        assert rest[i] in rest;
        var k :| 0 <= k < |users[1..]| && Shows(s, now, users[1..][k], rest[i]);
        assert users[1..][k] == users[k + 1];
      }
      var r := Collect(s, users, now);
      var raw := GetUserRawLocation(s, users[0].username);
      if Listed(users[0]) && raw.Some? {
        assert r == [Entry(users[0], raw.value, now)] + rest;
        forall i, j | 0 <= i < j < |r| ensures r[i].username != r[j].username {
          assert r[j] == rest[j - 1];
          assert rest[j - 1].username != users[0].username;
          if i > 0 {
            assert r[i] == rest[i - 1];
            assert rest[i - 1].username != rest[j - 1].username;
          } else {
            assert r[0].username == users[0].username;
          }
        }
      }
    }
  }

  /** `getAllUsersLocations`: exactly the listed players with a stored
      location, in directory order, one entry each when usernames are
      distinct. */
  function GetAllUsersLocations(s: Store, now: int): (r: seq<UserLocation>)
    ensures r == Collect(s, UserService.GetUsers(s), now)
    ensures forall e :: e in r ==> ShownFor(s, now, UserService.GetUsers(s), e)
    ensures var users := UserService.GetUsers(s);
      forall k :: 0 <= k < |users| && Listed(users[k]) && GetUserRawLocation(s, users[k].username).Some? ==>
        Entry(users[k], GetUserRawLocation(s, users[k].username).value, now) in r
    ensures UserService.DistinctNames(UserService.GetUsers(s)) ==> OneEntryPerName(r)
  {
    var users := UserService.GetUsers(s);
    CollectSound(s, users, now);
    CollectComplete(s, users, now);
    CollectDistinct(s, users, now);
    Collect(s, users, now)
  }

  /** A name is on the map exactly when some listed directory entry
      carries it and a location is stored under it, whatever else the
      directory holds. */
  lemma NameShownIff(s: Store, now: int, name: string)
    ensures var users := UserService.GetUsers(s);
      (exists e :: e in GetAllUsersLocations(s, now) && e.username == name)
      <==> (exists k :: 0 <= k < |users| && users[k].username == name && Listed(users[k]))
           && GetUserRawLocation(s, name).Some?
  {
    var users := UserService.GetUsers(s);
    var r := GetAllUsersLocations(s, now);
    if exists e :: e in r && e.username == name {
      var e :| e in r && e.username == name;
      var k :| 0 <= k < |users| && Shows(s, now, users[k], e);
      assert users[k].username == name;
    }
    if exists k :: 0 <= k < |users| && users[k].username == name && Listed(users[k]) {
      var k :| 0 <= k < |users| && users[k].username == name && Listed(users[k]);
      if GetUserRawLocation(s, name).Some? {
        var e := Entry(users[k], GetUserRawLocation(s, name).value, now);
        assert e in r && e.username == name;
      }
    }
  }

  /** With distinct usernames, an archived user or an administrator never
      appears, however recent their stored location. */
  lemma UnlistedNeverShown(s: Store, now: int, u: User)
    requires !Listed(u) && u in UserService.GetUsers(s)
    requires UserService.DistinctNames(UserService.GetUsers(s))
    ensures forall e :: e in GetAllUsersLocations(s, now) ==> e.username != u.username
  {
    var users := UserService.GetUsers(s);
    forall e | e in GetAllUsersLocations(s, now) ensures e.username != u.username {
      var k :| 0 <= k < |users| && Shows(s, now, users[k], e);
      var m :| 0 <= m < |users| && users[m] == u;
      assert k != m;
    }
  }
}
