/**
 * The history recorder: who the acting user is, how a history description
 * is built, the `Historic` row with its generic (content type, object id)
 * association, and the table history rows are appended to.
 */
module History {
  import opened Wrappers
  import opened Lifecycle

  /** A request's user: primary key, its `str` (the username), and whether
      it is the anonymous user. */
  datatype Actor = Actor(id: int, name: string, isAnonymous: bool)

  /** A request and its `user` attribute, which may be `None`. */
  datatype Request = Request(user: Option<Actor>)

  /** A generic association: the content type (the concrete model's tag)
      and the object's primary key, both nullable. */
  datatype GenericRef = GenericRef(contentType: Option<string>, objectId: Option<int>)

  /** A `Historic` row: its own audit envelope, the acting user's id (null
      for anonymous), the description and the subject it is attached to. */
  datatype Historic = Historic(env: Envelope, user: Option<int>, description: string, subject: GenericRef)

  /** `req.user if req and req.user and not req.user.is_anonymous else None`. */
  function ResolveActor(req: Option<Request>): (actor: Option<Actor>)
    ensures actor.Some? <==> req.Some? && req.value.user.Some? && !req.value.user.value.isAnonymous
    ensures actor.Some? ==> actor == req.value.user
  {
    match req
    case None => None
    case Some(r) =>
      match r.user
      case None => None
      case Some(u) => if u.isAnonymous then None else Some(u)
  }

  const AnonymousPrefix: string := "Anonymous user changed: "

  /** `"User {} changed: "` with the actor, or the anonymous prefix. */
  function Prefix(actor: Option<Actor>): (p: string)
    ensures |p| > 0
    ensures actor.None? ==> p == AnonymousPrefix
  {
    match actor
    case Some(u) => "User " + u.name + " changed: "
    case None => AnonymousPrefix
  }

  /** The description `create_historic` builds: the prefix followed by the
      diff message. It is never empty, so the `if message:` guard before
      the row is created always passes, even when the diff is empty. */
  function Description(actor: Option<Actor>, message: string): (d: string)
    ensures |d| > |message|
    ensures d[..|d| - |message|] == Prefix(actor)
    ensures d[|d| - |message|..] == message
  {
    Prefix(actor) + message
  }

  /** The `Historic` table. */
  class HistoryTable {
    var entries: seq<Historic>

    constructor ()
      ensures entries == []
    {
      entries := [];
    }

    /** `Historic.objects.create(...)`: a new row saved for the first time. */
    method Create(user: Option<int>, description: string, subject: GenericRef, now: int)
      modifies this
      ensures entries == old(entries) + [Historic(Stamp(NewEnvelope(), true, now), user, description, subject)]
    {
      var env := Stamp(NewEnvelope(), true, now);
      entries := entries + [Historic(env, user, description, subject)];
    }
  }
}
