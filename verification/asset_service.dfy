/** Photos and screenshots players submit (`services/assetService.ts`),
    kept in one list under `treasure-hunt-user-assets`. */
module AssetService {
  import opened Wrappers
  import opened Types
  import opened Storage
  import opened Sorting

  function AssetTime(a: UserAsset): int { a.timestamp }

  /** `saveUserAsset`: appends; earlier assets stay where they were. */
  function SaveUserAsset(s: Store, a: UserAsset): (s': Store)
    ensures s' == s.(assets := s'.assets)
    ensures |s'.assets| == |s.assets| + 1 && s'.assets[..|s.assets|] == s.assets
    ensures s'.assets[|s.assets|] == a
  {
    var assets := s.assets + [a];
    assert assets[..|s.assets|] == s.assets;
    s.(assets := assets)
  }

  function Own(x: UserAsset, userId: string): seq<UserAsset> {
    if x.userId == userId then [x] else []
  }

  /** `assets.filter(asset => asset.userId === userId)`. */
  function OwnedBy(assets: seq<UserAsset>, userId: string): (r: seq<UserAsset>)
    ensures |r| <= |assets|
  {
    if assets == [] then []
    else Own(assets[0], userId) + OwnedBy(assets[1..], userId)
  }

  /** The filter keeps every copy of an owned asset and nothing else. */
  lemma {:induction false} OwnedByCounts(assets: seq<UserAsset>, userId: string)
    ensures forall x: UserAsset ::
      multiset(OwnedBy(assets, userId))[x] == if x.userId == userId then multiset(assets)[x] else 0
  {
    if assets != [] {
      OwnedByCounts(assets[1..], userId);
      assert assets == [assets[0]] + assets[1..];
      assert multiset(assets) == multiset{assets[0]} + multiset(assets[1..]);
    }
  }

  /** `getUserAssets`: the user's own assets, every copy of each, newest
      first; the store is only read. */
  function GetUserAssets(s: Store, userId: string): (r: seq<UserAsset>)
    ensures SortedDesc(r, AssetTime)
    ensures forall x: UserAsset :: multiset(r)[x] == if x.userId == userId then multiset(s.assets)[x] else 0
    ensures forall v :: WithKey(r, AssetTime, v) == WithKey(OwnedBy(s.assets, userId), AssetTime, v)
  {
    OwnedByCounts(s.assets, userId);
    SortDesc(OwnedBy(s.assets, userId), AssetTime)
  }

  lemma OwnedByCons(x: UserAsset, t: seq<UserAsset>, userId: string)
    ensures OwnedBy([x] + t, userId) == Own(x, userId) + OwnedBy(t, userId)
  {
    assert ([x] + t)[1..] == t;
  }

  lemma {:induction false} OwnedByAppend(assets: seq<UserAsset>, a: UserAsset, userId: string)
    ensures OwnedBy(assets + [a], userId) == OwnedBy(assets, userId) + Own(a, userId)
  {
    if assets == [] {
      assert assets + [a] == [a] + [];
      OwnedByCons(a, [], userId);
    } else {
      var h, t := assets[0], assets[1..];
      OwnedByAppend(t, a, userId);
      assert assets == [h] + t;
      OwnedByAppendStep(h, t, a, userId);
    }
  }

  lemma OwnedByAppendStep(h: UserAsset, t: seq<UserAsset>, a: UserAsset, userId: string)
    requires OwnedBy(t + [a], userId) == OwnedBy(t, userId) + Own(a, userId)
    ensures OwnedBy([h] + t + [a], userId) == OwnedBy([h] + t, userId) + Own(a, userId)
  {
    assert [h] + t + [a] == [h] + (t + [a]);
    OwnedByCons(h, t + [a], userId);
    OwnedByCons(h, t, userId);
  }

  /** A saved asset shows in its owner's list. */
  lemma SaveShowsToOwner(s: Store, a: UserAsset)
    ensures a in GetUserAssets(SaveUserAsset(s, a), a.userId)
  {
    var s' := SaveUserAsset(s, a);
    assert s'.assets[|s.assets|] == a;
    assert multiset(s'.assets)[a] > 0;
    assert multiset(GetUserAssets(s', a.userId))[a] > 0;
  }

  /** Everybody else's list reads as before. */
  lemma SaveHiddenFromOthers(s: Store, a: UserAsset, userId: string)
    requires userId != a.userId
    ensures GetUserAssets(SaveUserAsset(s, a), userId) == GetUserAssets(s, userId)
  {
    OwnedByAppend(s.assets, a, userId);
    assert OwnedBy(s.assets, userId) + [] == OwnedBy(s.assets, userId);
    assert SaveUserAsset(s, a).assets == s.assets + [a];
  }
}
