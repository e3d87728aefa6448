/**
 * The response envelope and the admin guard of wedding/utils.py, and the shape of a
 * handler's reply.
 */
module Utils {
  import opened Wrappers
  import opened Models

  /** A JSON value as a handler puts it in a reply. */
  datatype Json =
    | JStr(s: string)
    | JInt(i: int)
    | JBool(b: bool)
    | JNull
    | JObj(fields: map<string, Json>)
    | JException(message: string)  // a Python exception object placed where a value belongs

  /** `Message = Dict[str, str]`, with the keyword arguments `_message` passes through. */
  type Message = map<string, Json>

  /** What a handler returns: a message envelope or a record, with an HTTP status. */
  datatype Body<+T> = Msg(message: Message) | Data(value: T)
  datatype Reply<+T> = Reply(body: Body<T>, status: int)

  /** The status the framework gives a handler that returns a body without one. */
  const DefaultStatus := 200

  /** A reply carrying a message. */
  function Respond<T>(m: Message, status: int): Outcome<Reply<T>> {
    Returned(Reply(Msg(m), status))
  }

  /**
   * `_message(status, message, **kwargs)`: every keyword argument is kept, but `status` and
   * `message` always win over keyword arguments of the same name.
   */
  function MakeMessage(status: string, message: string, extra: Message): (r: Message)
    ensures r.Keys == extra.Keys + {"status", "message"}
    ensures r["status"] == JStr(status) && r["message"] == JStr(message)
    ensures forall k :: k in extra && k != "status" && k != "message" ==> r[k] == extra[k]
  {
    extra["status" := JStr(status)]["message" := JStr(message)]
  }

  /** `success(message, **kwargs)`. */
  function Success(message: string, extra: Message): (r: Message)
    ensures r.Keys == extra.Keys + {"status", "message"}
    ensures r["status"] == JStr("SUCCESS") && r["message"] == JStr(message)
    ensures forall k :: k in extra && k != "status" && k != "message" ==> r[k] == extra[k]
  {
    MakeMessage("SUCCESS", message, extra)
  }

  /** `fail(message, **kwargs)`. */
  function Fail(message: string, extra: Message): (r: Message)
    ensures r.Keys == extra.Keys + {"status", "message"}
    ensures r["status"] == JStr("FAIL") && r["message"] == JStr(message)
    ensures forall k :: k in extra && k != "status" && k != "message" ==> r[k] == extra[k]
  {
    MakeMessage("FAIL", message, extra)
  }

  /** `info(message, **kwargs)`. */
  function Info(message: string, extra: Message): (r: Message)
    ensures r.Keys == extra.Keys + {"status", "message"}
    ensures r["status"] == JStr("INFO") && r["message"] == JStr(message)
    ensures forall k :: k in extra && k != "status" && k != "message" ==> r[k] == extra[k]
  {
    MakeMessage("INFO", message, extra)
  }

  /** The three envelopes never coincide: their `status` tells them apart. */
  lemma EnvelopesDistinct(message: string, extra: Message)
    ensures Success(message, extra) != Fail(message, extra)
    ensures Success(message, extra) != Info(message, extra)
    ensures Fail(message, extra) != Info(message, extra)
  {
    assert Success(message, extra)["status"] != Fail(message, extra)["status"];
    assert Success(message, extra)["status"] != Info(message, extra)["status"];
    assert Fail(message, extra)["status"] != Info(message, extra)["status"];
  }

  const Forbidden := Problem(403, "Unauthorized", "You are not authorized to visit this page")

  /** The caller the framework passed as the `user` keyword is an administrator. */
  predicate IsAdmin(user: Option<UserRow>) {
    user.Some? && user.value.admin
  }

  /**
   * The test `admin_required` runs before the wrapped handler: `None` lets the call through;
   * otherwise the exception raised instead (`user.admin` on a missing user, or 403).
   */
  function AdminCheck(user: Option<UserRow>): (r: Option<Failure>)
    ensures r.None? <==> IsAdmin(user)
    ensures user.None? ==> r == Some(AttributeError)
    ensures user.Some? && !user.value.admin ==> r == Some(Forbidden)
  {
    match user
    case None => Some(AttributeError)
    case Some(u) => if u.admin then None else Some(Forbidden)
  }

  /**
   * `admin_required(f)` applied to a handler that only reads: the handler's own result when
   * the caller is an administrator, and the guard's exception otherwise, without the
   * handler being consulted.
   */
  function AdminRequired<T>(user: Option<UserRow>, handler: UserRow -> Outcome<T>): (r: Outcome<T>)
    ensures IsAdmin(user) ==> r == handler(user.value)
    ensures !IsAdmin(user) ==> r == Raised(AdminCheck(user).value)
  {
    match AdminCheck(user)
    case Some(e) => Raised(e)
    case None => handler(user.value)
  }

  /** A non-administrator gets the same refusal whatever the wrapped handler would have done. */
  lemma {:induction false} AdminRequiredIgnoresHandler<T>(
    user: Option<UserRow>, f: UserRow -> Outcome<T>, g: UserRow -> Outcome<T>)
    requires !IsAdmin(user)
    ensures AdminRequired(user, f) == AdminRequired(user, g)
    ensures user.Some? ==> AdminRequired(user, f) == Raised(Forbidden)
  {
  }

  /** Decimal digits of a natural number, as Python's `str` writes them. */
  function DigitsOf(n: nat): string
    decreases n
  {
    (if n < 10 then "" else DigitsOf(n / 10)) + ["0123456789"[n % 10]]
  }

  /** `str(n)` for an integer, as interpolated into an f-string. */
  function ShowInt(n: int): string {
    if n < 0 then "-" + DigitsOf(-n) else DigitsOf(n)
  }

  /** `str(x)` for an optional integer read with `body.get(...)`. */
  function ShowOptInt(n: Option<int>): string {
    match n
    case None => "None"
    case Some(v) => ShowInt(v)
  }
}
