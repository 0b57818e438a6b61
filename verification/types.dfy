/** The records of the application (`types.ts`), as immutable values.
    Optional TypeScript fields become `Option`; string-literal unions
    become enumerations; JavaScript numbers are `int` where they are
    millisecond timestamps or indices and `real` where they are
    measurements (coordinates, heights, distances). */
module Types {
  import opened Wrappers

  datatype SubTaskKind = Checkbox | Photo | RiddleKind | ScreenshotUpload

  datatype Coordinates = Coordinates(latitude: real, longitude: real)

  /** A browser `GeolocationCoordinates` reading: the position and the
      fields the application never keeps. */
  datatype GeoReading = GeoReading(
    latitude: real,
    longitude: real,
    accuracy: real,
    altitude: Option<real>,
    altitudeAccuracy: Option<real>,
    heading: Option<real>,
    speed: Option<real>)

  /** `completionLocation?: { latitude, longitude } | null`: the field can be
      absent, present and null, or present with coordinates. */
  datatype CompletionLocation = NoLocation | NullLocation | LocatedAt(coords: Coordinates)

  datatype SubTask = SubTask(
    id: string,
    description: string,
    kind: SubTaskKind,
    riddleAnswer: Option<string>,
    isCompleted: bool)

  datatype Task = Task(
    id: string,
    title: string,
    riddle: string,
    isCompleted: bool,
    subTasks: seq<SubTask>,
    completionLocation: CompletionLocation)

  datatype Quest = Quest(id: string, title: string, description: string, tasks: seq<Task>)

  datatype NotificationKind = UnlockApproved | UnlockRejected

  datatype UnlockNotification = UnlockNotification(
    id: string,
    subtaskId: string,
    message: string,
    kind: NotificationKind)

  /** One player's live copy of the quest. `currentTaskIndex` equal to the
      number of tasks means the quest is finished. */
  datatype QuestState = QuestState(
    quest: Quest,
    currentTaskIndex: int,
    notifications: Option<seq<UnlockNotification>>)

  datatype Role = Admin | Player

  datatype IdType = NationalId | Passport

  datatype Gender = Male | Female | OtherGender | PreferNotToSay

  datatype GroupMember = GroupMember(
    id: string,
    name: string,
    idType: IdType,
    idNumber: string,
    age: Option<string>,
    gender: Gender,
    height: Option<real>,
    weight: Option<real>)

  /** A directory entry. The source's optional `isDeleted` is read only
      through truthiness, so an absent flag is modelled as `false`. */
  datatype User = User(
    username: string,
    role: Role,
    masterKey: string,
    firstName: string,
    lastName: string,
    idType: IdType,
    idNumber: string,
    age: Option<string>,
    gender: Gender,
    address: string,
    mobileNumber: string,
    email: string,
    height: Option<real>,
    weight: Option<real>,
    groupMemberDetails: seq<GroupMember>,
    isDeleted: bool)

  datatype UserAsset = UserAsset(
    id: string,
    userId: string,
    taskId: string,
    subtaskId: string,
    timestamp: int,
    imageDataUrl: string,
    location: Option<Coordinates>)

  datatype ActivityData = ActivityData(
    distance: real,
    elevationGain: real,
    elevationLoss: real,
    calories: real,
    startTime: Option<int>,
    activeTime: real,
    restTime: real)

  datatype Presence = Active | Offline

  datatype UserLocation = UserLocation(
    username: string,
    firstName: string,
    lastName: string,
    latitude: real,
    longitude: real,
    timestamp: int,
    status: Presence)

  datatype SOSAlert = SOSAlert(
    id: string,
    userId: string,
    username: string,
    firstName: string,
    lastName: string,
    location: Coordinates,
    timestamp: int)

  datatype RequestStatus = Pending | Approved | Rejected

  datatype UnlockRequest = UnlockRequest(
    id: string,
    userId: string,
    username: string,
    firstName: string,
    lastName: string,
    taskId: string,
    subtaskId: Option<string>,
    taskTitle: string,
    subtaskDescription: Option<string>,
    reason: string,
    timestamp: int,
    status: RequestStatus)
}
