/** Usage scenarios checked statically against the store's contracts;
    every assertion is derived from those contracts alone. */
module Scenarios {
  import opened Wrappers
  import opened Models
  import opened Views

  /** A user at the quota cannot open another advertisement, by explicit
      status or by the OPEN default, but can still create a draft. */
  method QuotaScenario(alice: UserId)
  {
    var s := new AdvertisementStore(2);
    var r1 := s.Create(alice, CreatePayload("bike", None, Some(Open)));
    assert r1.Success?;
    var r2 := s.Create(alice, CreatePayload("lamp", Some("desk lamp"), None));
    assert OpenCount(s.ads[..1], alice) == 1;
    assert r2.Success? && r2.value.status == Open && r2.value.description == "desk lamp";
    assert s.ads == [r1.value, r2.value];
    assert OpenCount(s.ads, alice) == 2;
    var before := s.ads;
    var r3 := s.Create(alice, CreatePayload("sofa", None, None));
    assert r3 == Failure(TooManyOpenAds) && s.ads == before;
    var r4 := s.Create(alice, CreatePayload("sofa", None, Some(Draft)));
    assert r4.Success? && r4.value.creator == alice && |s.ads| == 3;
  }

  /** At the quota, resubmitting status OPEN on an advertisement that is
      already OPEN is refused, while the same edit without a status is saved;
      closing an advertisement is never checked. */
  method ReopenScenario(alice: UserId)
  {
    var s := new AdvertisementStore(1);
    var r1 := s.Create(alice, CreatePayload("bike", None, None));
    assert r1.Success? && r1.value.id == 0 && s.ads == [r1.value];
    s.Tick();
    assert s.ads[0].id == 0 && s.ads[0].creator == alice;
    var r2 := s.Update(alice, 0, UpdatePayload(Some("red bike"), None, Some(Open)));
    assert r2.Failure?;
    assert s.ads[0].id == 0 && s.ads[0].creator == alice;
    var r3 := s.Update(alice, 0, UpdatePayload(Some("red bike"), None, None));
    assert r3.Success? && r3.value.status == Open && r3.value.title == "red bike";
    assert r3.value.createdAt == 0 && r3.value.updatedAt == 1;
    assert s.ads[0].id == 0 && s.ads[0].creator == alice;
    var r4 := s.Update(alice, 0, UpdatePayload(None, None, Some(Closed)));
    assert r4.Success? && r4.value.creator == alice;
  }

  /** An anonymous visitor sees only the OPEN advertisement; its creator sees
      both; another user sees only the OPEN one. */
  method VisibilityScenario(alice: UserId, bob: UserId)
    requires alice != bob
  {
    var s := new AdvertisementStore(10);
    var r1 := s.Create(alice, CreatePayload("bike", None, Some(Open)));
    var r2 := s.Create(alice, CreatePayload("sofa", None, Some(Draft)));
    assert r1.Success? && r2.Success?;
    var open, draft := r1.value, r2.value;
    assert s.ads == [open, draft];
    AnonymousSeesExactlyOpen(s.ads, open);
    AnonymousSeesExactlyOpen(s.ads, draft);
    UserSeesOpenAndOwn(s.ads, alice, draft);
    ForeignNonOpenHidden(s.ads, User(bob), draft);
    AnonymousViewIncluded(s.ads, bob, open);
    assert open in VisibleAds(s.ads, Anonymous) && draft !in VisibleAds(s.ads, Anonymous);
    assert draft in VisibleAds(s.ads, User(alice));
    assert open in VisibleAds(s.ads, User(bob)) && draft !in VisibleAds(s.ads, User(bob));
  }
}
