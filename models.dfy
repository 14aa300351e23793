/** The advertisement record and its status enumeration, with the defaults and
    timestamp rules the record declaration gives its fields. */
module Models {
  import opened Wrappers

  /** Identity of a registered user (the target of the creator foreign key). */
  type UserId = nat

  /** Primary key of an advertisement. */
  type AdId = nat

  /** The three statuses an advertisement can be in; OPEN is the default. */
  datatype Status = Open | Closed | Draft

  /** One advertisement row. Timestamps are readings of an integer clock. */
  datatype Ad = Ad(
    id: AdId,
    title: string,
    description: string,
    status: Status,
    createdAt: nat,
    updatedAt: nat,
    creator: UserId)

  /** The validated fields of a create request: the title is required,
      description and status may be omitted. */
  datatype CreatePayload = CreatePayload(title: string, description: Option<string>, status: Option<Status>)

  /** The validated fields of an update request (full or partial): any field may be omitted. */
  datatype UpdatePayload = UpdatePayload(title: Option<string>, description: Option<string>, status: Option<Status>)

  /** Field value after a save: the submitted value if there is one, else the fallback. */
  function OrElse<T>(field: Option<T>, fallback: T): T {
    match field
    case Some(v) => v
    case None => fallback
  }

  /** The status a created record will carry: the submitted one, OPEN when omitted. */
  function StatusOnCreate(p: CreatePayload): (s: Status)
    ensures p.status == None ==> s == Open
    ensures p.status != None ==> s == p.status.value
  {
    OrElse(p.status, Open)
  }

  /** The record the creating save inserts, owned by `creator`, stamped at `now`. */
  function NewAd(id: AdId, creator: UserId, p: CreatePayload, now: nat): (a: Ad)
    ensures a.id == id && a.creator == creator && a.title == p.title
    ensures p.status == None ==> a.status == Open
    ensures p.status != None ==> a.status == p.status.value
    ensures p.description == None ==> a.description == ""
    ensures p.description != None ==> a.description == p.description.value
    ensures a.createdAt == now && a.updatedAt == now
  {
    Ad(id, p.title, OrElse(p.description, ""), StatusOnCreate(p), now, now, creator)
  }

  /** The record after an update save at `now`: submitted fields replace the
      stored ones, the key, creator and creation time stay, updatedAt is refreshed. */
  function Saved(a: Ad, p: UpdatePayload, now: nat): (b: Ad)
    ensures b.id == a.id && b.creator == a.creator && b.createdAt == a.createdAt
    ensures b.updatedAt == now
    ensures p.status == None ==> b.status == a.status
    ensures p.status != None ==> b.status == p.status.value
    ensures p.title == None ==> b.title == a.title
    ensures p.title != None ==> b.title == p.title.value
    ensures p.description == None ==> b.description == a.description
    ensures p.description != None ==> b.description == p.description.value
  {
    a.(title := OrElse(p.title, a.title),
       description := OrElse(p.description, a.description),
       status := OrElse(p.status, a.status),
       updatedAt := now)
  }
}
