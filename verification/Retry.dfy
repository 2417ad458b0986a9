/** The request loop of the SDK clients: a bounded number of attempts with exponential backoff. The
    synchronous and the asynchronous client run the same loop. */
module Retry {

  /** How one attempt ends. Timeouts and failed connections are retried, nothing else is. */
  datatype Outcome = Timeout | ConnectFailed | OtherFailure | Response(status: int, content: Content)

  /** What the body of a response can be decoded to. */
  datatype Content = NotJson | JsonObject | OtherJson

  datatype SdkError =
    | Authentication
    | NotFound
    | RateLimit
    | Validation
    | Server(status: int)
    | Failed(status: int)
    | Unreadable
    | Connection(last: LastError)
    | Propagated

  /** The error a connection error reports; none if no attempt was made. */
  datatype LastError = NoAttempt | Last(outcome: Outcome)

  datatype Reply = Body(status: int) | Raised(error: SdkError)

  predicate Transient(o: Outcome) {
    o.Timeout? || o.ConnectFailed?
  }

  /** Some errors quote the body's detail, so they need a body that decodes to an object. */
  function HandleResponse(status: int, content: Content): Reply {
    if status == 401 then Quoting(content, Authentication)
    else if status == 404 then Quoting(content, NotFound)
    else if status == 429 then Raised(RateLimit)
    else if status == 422 then Quoting(content, Validation)
    else if status >= 500 then Raised(Server(status))
    else if status >= 400 then Raised(Failed(status))
    else if content.NotJson? then Raised(Unreadable)
    else Body(status)
  }

  function Quoting(content: Content, error: SdkError): Reply {
    if content.JsonObject? then Raised(error) else Raised(Unreadable)
  }

  /** A response with a body to hand back. */
  predicate Usable(o: Outcome) {
    o.Response? && o.status < 400 && !o.content.NotJson?
  }

  /** What a non-transient outcome makes of the whole request. */
  function Conclude(o: Outcome): Reply
    requires !Transient(o)
  {
    match o
    case OtherFailure => Raised(Propagated)
    case Response(status, content) => HandleResponse(status, content)
  }

  /** The first attempt among the first `n` that is not transient, or `n`. */
  function FirstFinal(outcomes: nat -> Outcome, n: nat): (k: nat)
    ensures k <= n && (k < n ==> !Transient(outcomes(k)))
    ensures forall i: nat :: i < k ==> Transient(outcomes(i))
  {
    if n == 0 then 0
    else
      var k := FirstFinal(outcomes, n - 1);
      if k < n - 1 || !Transient(outcomes(n - 1)) then k else n
  }

  function Pow2(n: nat): nat {
    if n == 0 then 1 else 2 * Pow2(n - 1)
  }

  function Sum(waits: seq<nat>): nat {
    if waits == [] then 0 else Sum(waits[..|waits| - 1]) + waits[|waits| - 1]
  }

  /** The seconds slept before each attempt after the first. */
  function Backoff(n: nat): (waits: seq<nat>)
    ensures |waits| == n
  {
    if n == 0 then [] else Backoff(n - 1) + [Pow2(n - 1)]
  }

  lemma {:induction false} BackoffSum(n: nat)
    ensures Sum(Backoff(n)) == Pow2(n) - 1
  {
    if n > 0 {
      BackoffSum(n - 1);
      assert Backoff(n)[..n - 1] == Backoff(n - 1);
    }
  }

  lemma {:induction false} Pow2Monotone(a: nat, b: nat)
    requires a <= b
    ensures Pow2(a) <= Pow2(b)
  {
    if a < b {
      Pow2Monotone(a, b - 1);
    }
  }

  /** Attempt `k` is usable, and all before it are transient. */
  ghost predicate FirstUsable(outcomes: nat -> Outcome, k: nat) {
    Usable(outcomes(k)) && forall i: nat :: i < k ==> Transient(outcomes(i))
  }

  /** Attempt `k` is the first one that neither timed out nor failed to connect. */
  ghost predicate FinalAt(outcomes: nat -> Outcome, k: nat) {
    && !outcomes(k).Timeout? && !outcomes(k).ConnectFailed?
    && forall i: nat :: i < k ==> outcomes(i).Timeout? || outcomes(i).ConnectFailed?
  }

  /** What the client answers to a final outcome: the error for each status, whether the body can
      be quoted or decoded, and the body of any other response. */
  ghost predicate Answers(o: Outcome, reply: Reply) {
    match o
    case OtherFailure => reply == Raised(Propagated)
    case Response(status, content) =>
      && (reply == Raised(Authentication) <==> status == 401 && content == JsonObject)
      && (reply == Raised(NotFound) <==> status == 404 && content == JsonObject)
      && (reply == Raised(Validation) <==> status == 422 && content == JsonObject)
      && (reply == Raised(RateLimit) <==> status == 429)
      && (forall s :: reply == Raised(Server(s)) <==> s == status && s >= 500)
      && (forall s :: reply == Raised(Failed(s)) <==>
                        s == status && 400 <= s < 500 && s != 401 && s != 404 && s != 422 && s != 429)
      && (reply == Raised(Unreadable) <==>
          ((status == 401 || status == 404 || status == 422) && content != JsonObject) ||
          (status < 400 && content == NotJson))
      && (forall s :: reply == Body(s) <==> s == status && s < 400 && content != NotJson)
    case _ => false
  }

  lemma {:induction false} ConcludeAnswers(o: Outcome)
    requires !Transient(o)
    ensures Answers(o, Conclude(o))
  {
  }

  /** The request loop. With `n` the number of retries allowed and `k` the first attempt that is
      not transient, it makes min(n, k + 1) attempts; before attempt `a` it has slept 2^(a-1) - 1
      seconds in all, never more than 2^(n-1) - 1. The first attempt within the limit that is
      neither a timeout nor a failed connection decides the answer. */
  method Request(maxRetries: int, outcomes: nat -> Outcome) returns (reply: Reply, attempts: nat, waits: seq<nat>)
    ensures maxRetries <= 0 ==> attempts == 0 && waits == [] && reply == Raised(Connection(NoAttempt))
    ensures maxRetries > 0 ==>
              var k := FirstFinal(outcomes, maxRetries);
              && attempts == (if k < maxRetries then k + 1 else maxRetries)
              && reply == (if k < maxRetries then Conclude(outcomes(k))
                           else Raised(Connection(Last(outcomes(maxRetries - 1)))))
              && waits == Backoff(attempts - 1)
              && Sum(waits) == Pow2(attempts - 1) - 1 <= Pow2(maxRetries - 1) - 1
    ensures forall i :: 0 <= i < attempts - 1 ==> Transient(outcomes(i))
    ensures reply.Body? <==> exists k :: 0 <= k < maxRetries && FirstUsable(outcomes, k)
    ensures reply.Raised? && reply.error.Connection? <==>
            forall k: nat :: k < maxRetries ==> outcomes(k).Timeout? || outcomes(k).ConnectFailed?
    ensures forall k: nat :: k < maxRetries && FinalAt(outcomes, k) ==>
                               attempts == k + 1 && Answers(outcomes(k), reply)
  {
    var lastError := NoAttempt;
    attempts, waits := 0, [];
    var attempt := 0;
    while attempt < maxRetries
      invariant 0 <= attempt && (attempt > 0 ==> attempt < maxRetries)
      invariant attempts == attempt && waits == Backoff(attempt)
      invariant forall i: nat :: i < attempt ==> Transient(outcomes(i))
      invariant attempt == 0 ==> lastError == NoAttempt
    {
      var outcome := outcomes(attempt);
      attempts := attempts + 1;
      if !Transient(outcome) {
        reply := Conclude(outcome);
        ConcludeAnswers(outcome);
        OneFinal(outcomes, attempt);
        UsableIff(maxRetries, outcomes, attempt);
        Accounting(maxRetries, outcomes, attempt);
        return;
      }
      lastError := Last(outcome);
      if attempt == maxRetries - 1 {
        reply := Raised(Connection(lastError));
        Accounting(maxRetries, outcomes, attempt);
        return;
      }
      waits := waits + [Pow2(attempt)];
      attempt := attempt + 1;
    }
    reply := Raised(Connection(lastError));
  }

  lemma {:induction false} Accounting(maxRetries: nat, outcomes: nat -> Outcome, attempt: nat)
    requires attempt < maxRetries
    requires forall i: nat :: i < attempt ==> Transient(outcomes(i))
    requires Transient(outcomes(attempt)) ==> attempt == maxRetries - 1
    ensures FirstFinal(outcomes, maxRetries) == if Transient(outcomes(attempt)) then maxRetries else attempt
    ensures Sum(Backoff(attempt)) == Pow2(attempt) - 1 <= Pow2(maxRetries - 1) - 1
  {
    BackoffSum(attempt);
    Pow2Monotone(attempt, maxRetries - 1);
  }

  lemma {:induction false} UsableIff(maxRetries: nat, outcomes: nat -> Outcome, attempt: nat)
    requires attempt < maxRetries && !Transient(outcomes(attempt))
    requires forall i: nat :: i < attempt ==> Transient(outcomes(i))
    ensures Usable(outcomes(attempt)) <==> exists k :: 0 <= k < maxRetries && FirstUsable(outcomes, k)
  {
    forall k: nat | k != attempt
      ensures !FirstUsable(outcomes, k)
    {
      assert k < attempt ==> Transient(outcomes(k));
    }
    assert Usable(outcomes(attempt)) ==> FirstUsable(outcomes, attempt);
  }

  lemma {:induction false} OneFinal(outcomes: nat -> Outcome, attempt: nat)
    requires !Transient(outcomes(attempt)) && forall i: nat :: i < attempt ==> Transient(outcomes(i))
    ensures forall k: nat :: FinalAt(outcomes, k) <==> k == attempt
  {
    forall k: nat | FinalAt(outcomes, k)
      ensures k == attempt
    {
      assert k < attempt ==> Transient(outcomes(k));
      assert attempt < k ==> Transient(outcomes(attempt));
    }
  }
}
