/** The browser's `localStorage` as the application uses it, as one
    immutable value. Each field stands for one storage key, or for the
    family of keys that share a prefix and end in a username; values are
    the parsed JSON documents. Reads and writes are synchronous and
    infallible, so every service becomes a function from a store to a
    store. */
module Storage {
  import opened Wrappers
  import opened Types

  const QuestStatePrefix: string := "treasure-quest-state-"
  const ActivityPrefix: string := "treasure-activity-data-"
  const LocationPrefix: string := "treasure-location-data-"

  function QuestStateKey(username: string): string { QuestStatePrefix + username }
  function ActivityKey(username: string): string { ActivityPrefix + username }
  function LocationKey(username: string): string { LocationPrefix + username }

  /** Keys built from one prefix name different users apart. */
  lemma PrefixedKeyInjective(prefix: string, a: string, b: string)
    requires prefix + a == prefix + b
    ensures a == b
  {
    assert a == (prefix + a)[|prefix|..];
    assert b == (prefix + b)[|prefix|..];
  }

  /** The activity document as it may sit in storage: records written by
      older versions lack the fields the reader back-fills, and may still
      carry the retired `elevationProfile`. */
  datatype StoredActivity = StoredActivity(
    distance: real,
    elevationGain: real,
    elevationLoss: Option<real>,
    calories: real,
    startTime: Option<int>,
    activeTime: Option<real>,
    restTime: Option<real>,
    elevationProfile: Option<seq<real>>)

  /** The document under `treasure-location-data-<username>`. */
  datatype RawLocation = RawLocation(latitude: real, longitude: real, timestamp: int)

  datatype Store = Store(
    /** 'treasure-hunt-master-quest' */
    master: Option<Quest>,
    /** 'treasure-hunt-users'; absent and `[]` are different states. */
    users: Option<seq<User>>,
    /** 'treasure-quest-state-<username>', keyed by the full key. */
    questStates: map<string, QuestState>,
    /** 'treasure-activity-data-<username>', keyed by the full key. */
    activity: map<string, StoredActivity>,
    /** 'treasure-location-data-<username>', keyed by the full key. */
    locations: map<string, RawLocation>,
    /** 'treasure-hunt-unlock-requests'; every reader treats absent as []. */
    unlockRequests: seq<UnlockRequest>,
    /** 'treasure-hunt-sos-alerts'; every reader treats absent as []. */
    sosAlerts: seq<SOSAlert>,
    /** 'treasure-hunt-user-assets'; every reader treats absent as []. */
    assets: seq<UserAsset>,
    /** 'treasure-hunt-user': the signed-in user. */
    sessionUser: Option<User>)

  /** A browser that has never run the application. */
  const EmptyStore: Store := Store(None, None, map[], map[], map[], [], [], [], None)
}
