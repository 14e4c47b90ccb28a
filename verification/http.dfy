/** What every handler shares: the response it ends with, JavaScript truthiness of
    request fields, the ordered validation chains, and the mail sink. */
module Http {
  import opened Wrappers

  /** The response a request ends with: a success status with a body, or the status
      and message the app's error handler writes as `{ error }`. */
  datatype Result<T> = Ok(status: int, value: T) | Err(status: int, message: string)

  /** What a handler passes to `next`: an error built by `createHttpError`, or any
      other thrown value (a failed send, a failed session destroy, `assertIsDefined`). */
  datatype Thrown = HttpError(status: int, message: string) | Other

  const UnknownMessage := "An unknown error occurred"
  const ParamsMissing := "Parameters missing"

  /** The app's error handler: an HTTP error keeps its status and message, anything
      else is answered with 500 and a fixed message. */
  function Respond<T>(e: Thrown): (r: Result<T>)
    ensures r.Err?
    ensures e.HttpError? ==> r.status == e.status && r.message == e.message
    ensures e.Other? ==> r.status == 500 && r.message == UnknownMessage
  {
    match e
    case HttpError(status, message) => Err(status, message)
    case Other => Err(500, UnknownMessage)
  }

  /** A request field as the body parser hands it over: absent, or a string. */
  type Field = Option<string>

  /** JavaScript truthiness of a string field: absent and "" are both falsy. */
  predicate Truthy(f: Field) {
    f.Some? && f.value != ""
  }

  /** The value of a field that may be absent, "" when it is. */
  function OrEmpty(f: Field): string {
    if f.Some? then f.value else ""
  }

  /** The message of the first check in `checks` that fails, in the order given;
      None when every check passes. Models an `if ... else if ...` chain of `throw`s. */
  function FirstFailure(checks: seq<(bool, string)>): (r: Option<string>)
    ensures r.None? <==> forall i | 0 <= i < |checks| :: checks[i].0
    ensures r.Some? ==> exists i | 0 <= i < |checks| ::
      !checks[i].0 && checks[i].1 == r.value && forall j | 0 <= j < i :: checks[j].0
    decreases |checks|
  {
    if |checks| == 0 then None
    else if !checks[0].0 then Some(checks[0].1)
    else
      var r := FirstFailure(checks[1..]);
      assert forall i | 0 < i < |checks| :: checks[i] == checks[1..][i - 1];
      r
  }

  /** When every check before position `k` passes and check `k` fails, the chain
      reports check `k`'s message, whatever the checks after it say. */
  lemma {:induction false} FirstFailureAt(checks: seq<(bool, string)>, k: nat)
    requires k < |checks| && !checks[k].0
    requires forall j | 0 <= j < k :: checks[j].0
    ensures FirstFailure(checks) == Some(checks[k].1)
    decreases k
  {
    if k > 0 {
      assert checks[1..][k - 1] == checks[k];
      FirstFailureAt(checks[1..], k - 1);
    }
  }

  /** One message handed to the mail transport: sender, recipient and subject
      (the HTML body is left out). */
  datatype Mail = Mail(from: string, to: string, subject: string)

  /** One send attempt and whether the transport accepted it. */
  datatype Attempt = Attempt(mail: Mail, delivered: bool)

  /** The mail transport's behaviour during one request or one scheduler run:
      `fails(k)` holds when the k-th send (counting from 0) is rejected. */
  type FailureOracle = nat -> bool

  /** The mails of a sequence of attempts, in order. */
  function Mails(attempts: seq<Attempt>): (r: seq<Mail>)
    ensures |r| == |attempts|
    ensures forall i | 0 <= i < |r| :: r[i] == attempts[i].mail
  {
    seq(|attempts|, i requires 0 <= i < |attempts| => attempts[i].mail)
  }

  lemma MailsAppend(a: seq<Attempt>, b: seq<Attempt>)
    ensures Mails(a + b) == Mails(a) + Mails(b)
  {
    assert forall i | 0 <= i < |a| :: Mails(a + b)[i] == Mails(a)[i];
    assert forall i | |a| <= i < |a| + |b| :: Mails(a + b)[i] == Mails(b)[i - |a|];
  }
}
