/** The advertisement endpoint's own policy: the per-user quota on OPEN
    advertisements checked before a create or an update is saved, and the
    visibility filter applied to every listing and lookup. */
module Views {
  import opened Wrappers
  import opened Models

  /** Who sends a request: an anonymous visitor or an authenticated user. */
  datatype Requester = Anonymous | User(id: UserId)

  /** The validation error a write fails with when the quota is exhausted. */
  datatype Error = TooManyOpenAds

  /** `a` counts towards the quota of user `u`. */
  predicate IsOpenOf(a: Ad, u: UserId) {
    a.status == Open && a.creator == u
  }

  /** How many advertisements of `ads` are OPEN and created by `u`: the count
      query the quota gate runs. */
  function OpenCount(ads: seq<Ad>, u: UserId): (n: nat)
    ensures n <= |ads|
    ensures n == 0 <==> forall a :: a in ads ==> !IsOpenOf(a, u)
  {
    if ads == [] then 0
    else (if IsOpenOf(ads[0], u) then 1 else 0) + OpenCount(ads[1..], u)
  }

  /** No user holds more than `maxOpen` OPEN advertisements. */
  ghost predicate WithinQuota(ads: seq<Ad>, maxOpen: nat) {
    forall u :: OpenCount(ads, u) <= maxOpen
  }

  /** The records of `ads` that satisfy `keep`. */
  function Where(ads: seq<Ad>, keep: Ad -> bool): (r: seq<Ad>)
    ensures |r| <= |ads|
    ensures forall a :: a in r <==> a in ads && keep(a)
  {
    if ads == [] then []
    else (if keep(ads[0]) then [ads[0]] else []) + Where(ads[1..], keep)
  }

  /** Whether `req` may see `a`: anonymous visitors see OPEN advertisements,
      users see OPEN advertisements and every one they created. */
  predicate CanSee(req: Requester, a: Ad) {
    match req
    case Anonymous => a.status == Open
    case User(u) => a.status == Open || a.creator == u
  }

  /** The queryset every listing and lookup of `req` starts from. */
  function VisibleAds(ads: seq<Ad>, req: Requester): (r: seq<Ad>)
    ensures req.Anonymous? ==> forall a :: a in r <==> a in ads && a.status == Open
    ensures req.User? ==> forall a :: a in r <==> a in ads && (a.status == Open || a.creator == req.id)
  {
    Where(ads, (a: Ad) => CanSee(req, a))
  }

  /** What is left of `ads` once user `u` is deleted: the creator foreign key cascades. */
  function WithoutCreator(ads: seq<Ad>, u: UserId): (r: seq<Ad>)
    ensures forall a :: a in r <==> a in ads && a.creator != u
  {
    Where(ads, (a: Ad) => a.creator != u)
  }

  /** Position of the record with key `id`. */
  function IndexOf(ads: seq<Ad>, id: AdId): (i: nat)
    requires exists k :: 0 <= k < |ads| && ads[k].id == id
    ensures i < |ads| && ads[i].id == id
    ensures forall k :: 0 <= k < i ==> ads[k].id != id
  {
    if ads[0].id == id then 0
    else
      var k :| 0 <= k < |ads| && ads[k].id == id;
      assert ads[1..][k - 1].id == id;
      1 + IndexOf(ads[1..], id)
  }

  /** No two records share a key. */
  ghost predicate UniqueIds(ads: seq<Ad>) {
    forall i, j :: 0 <= i < j < |ads| ==> ads[i].id != ads[j].id
  }

  // ---------------------------------------------------------------------
  // The count query under the three ways the store changes

  /** Appending a record raises its creator's count by one if it is OPEN, and
      leaves every other count alone. */
  lemma {:induction false} OpenCountAppend(ads: seq<Ad>, a: Ad, u: UserId)
    ensures OpenCount(ads + [a], u) == OpenCount(ads, u) + (if IsOpenOf(a, u) then 1 else 0)
  {
    if ads != [] {
      assert (ads + [a])[1..] == ads[1..] + [a];
      OpenCountAppend(ads[1..], a, u);
    }
  }

  /** Replacing the record at `i` changes a count only by what the old and the
      new record contribute to it. */
  lemma {:induction false} OpenCountReplace(ads: seq<Ad>, i: nat, b: Ad, u: UserId)
    requires i < |ads|
    ensures OpenCount(ads[i := b], u) + (if IsOpenOf(ads[i], u) then 1 else 0)
         == OpenCount(ads, u) + (if IsOpenOf(b, u) then 1 else 0)
  {
    if i == 0 {
      assert ads[i := b][1..] == ads[1..];
    } else {
      assert ads[i := b][1..] == ads[1..][i - 1 := b];
      OpenCountReplace(ads[1..], i - 1, b, u);
    }
  }

  /** After the cascade, the deleted user owns no OPEN record and every other
      user's count is what it was. */
  lemma {:induction false} OpenCountWithoutCreator(ads: seq<Ad>, u: UserId, v: UserId)
    ensures OpenCount(WithoutCreator(ads, u), v) == if v == u then 0 else OpenCount(ads, v)
  {
    if ads != [] {
      OpenCountWithoutCreator(ads[1..], u, v);
      if ads[0].creator == u {
        assert WithoutCreator(ads, u) == WithoutCreator(ads[1..], u);
      } else {
        assert WithoutCreator(ads, u) == [ads[0]] + WithoutCreator(ads[1..], u);
        assert ([ads[0]] + WithoutCreator(ads[1..], u))[1..] == WithoutCreator(ads[1..], u);
      }
    }
  }

  // ---------------------------------------------------------------------
  // The quota invariant

  /** A create that passed the gate (or is not OPEN) keeps every user within the quota. */
  lemma CreateKeepsQuota(ads: seq<Ad>, maxOpen: nat, a: Ad)
    requires WithinQuota(ads, maxOpen)
    requires a.status == Open ==> OpenCount(ads, a.creator) < maxOpen
    ensures WithinQuota(ads + [a], maxOpen)
  {
    forall u ensures OpenCount(ads + [a], u) <= maxOpen {
      OpenCountAppend(ads, a, u);
    }
  }

  /** An update by the creator that passed the gate keeps every user within the
      quota. The gate only has to run when the record becomes OPEN; a record
      that stays OPEN or leaves OPEN never raises a count. */
  lemma UpdateKeepsQuota(ads: seq<Ad>, maxOpen: nat, i: nat, b: Ad)
    requires WithinQuota(ads, maxOpen)
    requires i < |ads| && b.creator == ads[i].creator
    requires b.status == Open && ads[i].status != Open ==> OpenCount(ads, b.creator) < maxOpen
    ensures WithinQuota(ads[i := b], maxOpen)
  {
    var after := ads[i := b];
    forall u ensures OpenCount(after, u) <= maxOpen {
      OpenCountReplace(ads, i, b, u);
    }
  }

  /** Deleting a user keeps every remaining user within the quota. */
  lemma CascadeKeepsQuota(ads: seq<Ad>, maxOpen: nat, u: UserId)
    requires WithinQuota(ads, maxOpen)
    ensures WithinQuota(WithoutCreator(ads, u), maxOpen)
  {
    forall v ensures OpenCount(WithoutCreator(ads, u), v) <= maxOpen {
      OpenCountWithoutCreator(ads, u, v);
    }
  }

  /** Dropping records never creates a duplicate key. */
  lemma {:induction false} WhereKeepsUniqueIds(ads: seq<Ad>, keep: Ad -> bool)
    requires UniqueIds(ads)
    ensures UniqueIds(Where(ads, keep))
  {
    if ads != [] {
      var rest := Where(ads[1..], keep);
      WhereKeepsUniqueIds(ads[1..], keep);
      if keep(ads[0]) {
        var r := [ads[0]] + rest;
        forall i, j | 0 <= i < j < |r| ensures r[i].id != r[j].id {
          if i == 0 {
            assert r[j] in ads[1..];
          } else {
            assert r[i] == rest[i - 1] && r[j] == rest[j - 1];
          }
        }
      }
    }
  }

  // ---------------------------------------------------------------------
  // Visibility

  /** An anonymous visitor sees exactly the OPEN advertisements. */
  lemma AnonymousSeesExactlyOpen(ads: seq<Ad>, a: Ad)
    ensures a in VisibleAds(ads, Anonymous) <==> a in ads && a.status == Open
  {
  }

  /** A user sees exactly the OPEN advertisements and all of their own. */
  lemma UserSeesOpenAndOwn(ads: seq<Ad>, u: UserId, a: Ad)
    ensures a in VisibleAds(ads, User(u)) <==> a in ads && (a.status == Open || a.creator == u)
  {
  }

  /** Nobody ever sees a DRAFT or CLOSED advertisement of another user. */
  lemma ForeignNonOpenHidden(ads: seq<Ad>, req: Requester, a: Ad)
    requires a.status != Open
    requires req.Anonymous? || a.creator != req.id
    ensures a !in VisibleAds(ads, req)
  {
  }

  /** Signing in never hides anything: a user sees at least what an anonymous visitor sees. */
  lemma AnonymousViewIncluded(ads: seq<Ad>, u: UserId, a: Ad)
    requires a in VisibleAds(ads, Anonymous)
    ensures a in VisibleAds(ads, User(u))
  {
  }

  // ---------------------------------------------------------------------
  // The store and the endpoint's write operations

  /** The advertisement table as the endpoint sees it, with the clock that
      stamps saves and the configured maximum of OPEN advertisements per user. */
  class AdvertisementStore {
    var ads: seq<Ad>
    var clock: nat
    var nextId: AdId
    const maxOpen: nat

    /** Keys are unique and below `nextId`, timestamps are ordered and not in
        the future, and no user is over the quota. */
    ghost predicate Valid()
      reads this
    {
      && UniqueIds(ads)
      && (forall i :: 0 <= i < |ads| ==> ads[i].id < nextId)
      && (forall i :: 0 <= i < |ads| ==> ads[i].createdAt <= ads[i].updatedAt <= clock)
      && WithinQuota(ads, maxOpen)
    }

    /** An empty table at time 0 with the given quota. */
    constructor (maxOpen: nat)
      ensures Valid()
      ensures ads == [] && clock == 0 && nextId == 0 && this.maxOpen == maxOpen
    {
      ads := [];
      clock := 0;
      nextId := 0;
      this.maxOpen := maxOpen;
    }

    /** Time passes. */
    method Tick()
      requires Valid()
      modifies this
      ensures Valid()
      ensures clock == old(clock) + 1 && ads == old(ads) && nextId == old(nextId)
    {
      clock := clock + 1;
    }

    /** The creating save: inserts the record built from `p`, owned by `creator`. */
    method InsertNew(creator: UserId, p: CreatePayload) returns (a: Ad)
      requires Valid()
      requires StatusOnCreate(p) == Open ==> OpenCount(ads, creator) < maxOpen
      modifies this
      ensures Valid()
      ensures a == NewAd(old(nextId), creator, p, clock)
      ensures ads == old(ads) + [a] && nextId == old(nextId) + 1 && clock == old(clock)
    {
      a := NewAd(nextId, creator, p, clock);
      CreateKeepsQuota(ads, maxOpen, a);
      ads := ads + [a];
      nextId := nextId + 1;
    }

    /** Create by an authenticated `requester`: an OPEN record (OPEN being the
        default) is refused once the requester already owns `maxOpen` OPEN
        records; any other record is saved unchecked. */
    method Create(requester: UserId, p: CreatePayload) returns (r: Result<Ad, Error>)
      requires Valid()
      modifies this
      ensures Valid()
      ensures clock == old(clock)
      ensures r.Failure? <==> StatusOnCreate(p) == Open && OpenCount(old(ads), requester) >= maxOpen
      ensures r.Failure? ==> r.error == TooManyOpenAds && ads == old(ads) && nextId == old(nextId)
      ensures r.Success? ==> r.value == NewAd(old(nextId), requester, p, clock)
      ensures r.Success? ==> ads == old(ads) + [r.value] && nextId == old(nextId) + 1
    {
      var status := StatusOnCreate(p);
      if status == Open {
        var count := OpenCount(ads, requester);
        if count >= maxOpen {
          r := Failure(TooManyOpenAds);
        } else {
          var a := InsertNew(requester, p);
          r := Success(a);
        }
      } else {
        var a := InsertNew(requester, p);
        r := Success(a);
      }
    }

    /** The updating save: overwrites the record with key `id` in place. */
    method SaveExisting(id: AdId, p: UpdatePayload) returns (b: Ad)
      requires Valid()
      requires exists k :: 0 <= k < |ads| && ads[k].id == id
      requires var a := ads[IndexOf(ads, id)];
               OrElse(p.status, a.status) == Open && a.status != Open ==> OpenCount(ads, a.creator) < maxOpen
      modifies this
      ensures Valid()
      ensures b == Saved(old(ads)[IndexOf(old(ads), id)], p, clock)
      ensures ads == old(ads)[IndexOf(old(ads), id) := b]
      ensures nextId == old(nextId) && clock == old(clock)
    {
      var i := IndexOf(ads, id);
      b := Saved(ads[i], p, clock);
      UpdateKeepsQuota(ads, maxOpen, i, b);
      ads := ads[i := b];
    }

    /** Update by the record's creator: when the payload sets status OPEN the
        requester's OPEN records are counted (the record itself included if
        it is already OPEN) and the update is refused at `maxOpen`; a payload
        without a status, or with another status, is saved unchecked. */
    method Update(requester: UserId, id: AdId, p: UpdatePayload) returns (r: Result<Ad, Error>)
      requires Valid()
      requires exists k :: 0 <= k < |ads| && ads[k].id == id && ads[k].creator == requester
      modifies this
      ensures Valid()
      ensures nextId == old(nextId) && clock == old(clock)
      ensures r.Failure? <==> p.status == Some(Open) && OpenCount(old(ads), requester) >= maxOpen
      ensures r.Failure? ==> r.error == TooManyOpenAds && ads == old(ads)
      ensures r.Success? ==> r.value.creator == requester
      ensures r.Success? ==>
                var i := IndexOf(old(ads), id);
                r.value == Saved(old(ads)[i], p, clock) && ads == old(ads)[i := r.value]
    {
      var k :| 0 <= k < |ads| && ads[k].id == id && ads[k].creator == requester;
      assert ads[IndexOf(ads, id)] == ads[k];
      if p.status == Some(Open) {
        var count := OpenCount(ads, requester);
        if count >= maxOpen {
          r := Failure(TooManyOpenAds);
        } else {
          var b := SaveExisting(id, p);
          r := Success(b);
        }
      } else {
        var b := SaveExisting(id, p);
        r := Success(b);
      }
    }

    /** Deleting user `u` deletes every advertisement `u` created and no other. */
    method DeleteUser(u: UserId)
      requires Valid()
      modifies this
      ensures Valid()
      ensures ads == WithoutCreator(old(ads), u)
      ensures forall a :: a in ads <==> a in old(ads) && a.creator != u
      ensures nextId == old(nextId) && clock == old(clock)
    {
      var kept := WithoutCreator(ads, u);
      CascadeKeepsQuota(ads, maxOpen, u);
      WhereKeepsUniqueIds(ads, (a: Ad) => a.creator != u);
      forall j | 0 <= j < |kept| ensures kept[j].id < nextId && kept[j].createdAt <= kept[j].updatedAt <= clock {
        assert kept[j] in ads;
      }
      ads := kept;
    }
  }
}
