# Advertisement quota and visibility policy

A Dafny model of the advertisement endpoint of a small REST backend. Users
publish advertisements with a title, an optional description and a status
(OPEN, CLOSED or DRAFT; OPEN by default). The endpoint adds two rules of its
own to plain create/read/update/delete:

- **Quota.** A user may hold at most `maxOpen` OPEN advertisements (the
  `MAX_COUNT_ADVERTISEMENTS` setting). A create whose status is OPEN —
  explicitly or through the default — and an update whose payload sets status
  OPEN are refused with a validation error once the requester already owns
  `maxOpen` OPEN advertisements. The count includes the record being updated
  if it is already OPEN. Any other create or update is saved unchecked.
- **Visibility.** An anonymous visitor sees only OPEN advertisements; a signed-in
  user sees every OPEN advertisement plus all of their own.

Files:

- `wrappers.dfy` — `Option` for omitted payload fields, `Result` for the outcome of a write.
- `models.dfy` — module `Models`: the `Status` enumeration, the `Ad` record, the
  create and update payloads, and the two saves as functions (`NewAd` fills the
  defaults and stamps both timestamps; `Saved` applies an update, keeps the key,
  the creator and `createdAt`, and refreshes `updatedAt`). A status is always
  exactly one of the three values because `Status` has exactly three constructors.
- `views.dfy` — module `Views`: the count query `OpenCount`, the filter `Where`,
  the visibility predicate `CanSee` and queryset `VisibleAds`, the cascade
  `WithoutCreator`, the lemmas relating them, and the class
  `AdvertisementStore`. The class holds the table (`ads: seq<Ad>`), an integer
  `clock`, the next key, and the constant `maxOpen`. Its invariant `Valid()`
  says that keys are unique, timestamps satisfy `createdAt <= updatedAt <= clock`,
  and no user is over the quota. `Create`, `Update` and `DeleteUser` keep it.
- `scenarios.dfy` — client methods that walk through usage scenarios (quota
  reached, reopening at the quota, anonymous versus owner listing), checked
  statically against the store's contracts.

## Model

| member | source | states |
|---|---|---|
| `Models.NewAd` | advertisements/models.py:17-21 | a created record has the supplied title; an omitted status becomes OPEN and an omitted description becomes `""`; `createdAt` and `updatedAt` are both the current clock; the creator is the requester |
| `Models.Saved` | advertisements/models.py:17-21 | an update save replaces exactly the submitted fields, keeps the key, the creator and `createdAt`, and sets `updatedAt` to the current clock |
| `Models.StatusOnCreate` | advertisements/views.py:29 | the status a create is gated on and saved with is the submitted one, or OPEN when the payload omits it |
| `Views.VisibleAds` | advertisements/views.py:58-65 | an anonymous visitor's queryset holds exactly the OPEN records; a user's queryset holds exactly the records that are OPEN or created by that user |
| `Views.WithoutCreator` | advertisements/models.py:23 | the cascade on a user's deletion keeps exactly the records that user did not create |
| `Views.OpenCount` | advertisements/views.py:32 | the count of a user's OPEN records is at most the table size, and it is zero exactly when the user owns no OPEN record |
| `Views.Where` | advertisements/views.py:62 | a queryset filter keeps exactly the records that satisfy its condition and never grows the table |
| `Views.OpenCountAppend` | advertisements/views.py:38 | saving a new record raises its creator's OPEN count by one if it is OPEN and leaves every other count unchanged |
| `Views.OpenCountReplace` | advertisements/views.py:53 | saving over one record changes an OPEN count only by what the old and the new version contribute |
| `Views.OpenCountWithoutCreator` | advertisements/models.py:23 | after a user's cascade delete, that user owns no OPEN record and every other user's count is unchanged |
| `Views.CreateKeepsQuota` | advertisements/views.py:28-41 | if every user is within the quota and the new record is not OPEN or its creator is below the quota, every user is still within it after the append |
| `Views.UpdateKeepsQuota` | advertisements/views.py:43-56 | an in-place save that keeps the creator keeps every user within the quota when any record that becomes OPEN was let through by the count check |
| `Views.CascadeKeepsQuota` | advertisements/models.py:23 | deleting a user keeps every remaining user within the quota |
| `Views.AnonymousSeesExactlyOpen` | advertisements/views.py:61-62 | an anonymous visitor's queryset holds exactly the OPEN records |
| `Views.UserSeesOpenAndOwn` | advertisements/views.py:64-65 | a user's queryset holds exactly the records that are OPEN or created by that user |
| `Views.ForeignNonOpenHidden` | advertisements/views.py:61-65 | a DRAFT or CLOSED record is never visible to anyone but its creator |
| `Views.AnonymousViewIncluded` | advertisements/views.py:61-65 | a signed-in user sees everything an anonymous visitor sees |
| `Views.AdvertisementStore.Tick` | advertisements/models.py:20-21 | the clock that stamps saves moves forward and nothing else changes |
| `Views.AdvertisementStore.InsertNew` | advertisements/views.py:38-41 | the creating save appends exactly one record, built from the payload with the requester as creator, and allocates a fresh key |
| `Views.AdvertisementStore.Create` | advertisements/views.py:28-41 | a create fails exactly when its status (OPEN if omitted) is OPEN and the requester already owns `maxOpen` OPEN records; on failure the table is unchanged; on success exactly one record owned by the requester is appended; the quota invariant holds afterwards |
| `Views.AdvertisementStore.SaveExisting` | advertisements/views.py:53-56 | the updating save rewrites only the record with the given key, in place |
| `Views.AdvertisementStore.Update` | advertisements/views.py:43-56 | an owner's update fails exactly when the payload sets status OPEN and the requester already owns `maxOpen` OPEN records, the target included; otherwise only the target record changes, its creator stays the requester, and the quota invariant holds afterwards |
| `Views.AdvertisementStore.DeleteUser` | advertisements/models.py:23 | deleting a user removes exactly the records that user created and keeps the invariant |

## Left out

- Persistence: the database table is an in-memory sequence and the count query is the function `OpenCount`. Query construction and ordering are not modelled.
- The permission checks: anonymous writes are refused by the authenticated-or-read-only policy, and updates by non-owners are refused by `CreatorPermission`. `advertisements/permissions.py` is not part of this model. `Create` takes an authenticated user, and `Update` requires that the requester owns an existing record with the given key.
- Payload validation: `advertisements/serializers.py` is not part of this model. Payloads arrive already validated, with a required title.
- Deleting a single advertisement: the framework's default destroy has no policy beyond the ownership check.
- The listing filters in `advertisements/filters.py` (exact status, exact creator, creation-date range): their semantics live in a filtering library. Any such filter only narrows `VisibleAds`.
- Throttling, authentication mechanics and HTTP routing: framework configuration with no logic of its own.
- Concurrency: operations run strictly one after another. The code counts and then saves without an atomic check, so two concurrent OPEN creates can exceed the quota. The quota invariant is proved for sequential runs only.
- Real date-times and time zones: timestamps are readings of a natural-number clock that `Tick` advances.
- The error message text: the validation error is the single variant `TooManyOpenAds`.
- `maxOpen` is a natural number fixed when the store is built. A setting changed at run time, or a negative setting (which would refuse every OPEN write), is not modelled.
