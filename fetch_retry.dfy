/**
 * `computeBackoff` and the `fetchRaw` retry loop of
 * lib/convert-api/docx-to-pdf/document-helper.ts. Each HTTP attempt's
 * outcome and each random jitter are inputs; sleeping is recorded as the
 * list of delays the loop waits for.
 */
module FetchRetry {
  import opened Wrappers
  import opened Text

  const BaseDelayMs := 400
  const MaxDelayMs := 8000
  const JitterSpan := 150
  const DefaultAttempts := 4

  function DigitValue(c: char): nat
    requires IsAsciiDigit(c)
  {
    c as int - '0' as int
  }

  predicate AllDigits(s: string)
  {
    forall i :: 0 <= i < |s| ==> IsAsciiDigit(s[i])
  }

  /** The decimal value of a digit string (0 for the empty one). */
  function DigitsValue(s: string): (n: nat)
    requires AllDigits(s)
    ensures n == 0 <==> forall i :: 0 <= i < |s| ==> s[i] == '0'
  {
    if s == [] then 0
    else
      var n := 10 * DigitsValue(s[..|s| - 1]) + DigitValue(s[|s| - 1]);
      assert forall i :: 0 <= i < |s| - 1 ==> s[i] == s[..|s| - 1][i];
      n
  }

  function Pow10(k: nat): (r: nat)
    ensures r >= 1
  {
    if k == 0 then 1 else 10 * Pow10(k - 1)
  }

  /** The value of the decimal `whole.frac`. */
  function PointValue(whole: string, frac: string): (v: real)
    requires AllDigits(whole) && AllDigits(frac)
    ensures v >= 0.0
  {
    DigitsValue(whole) as real + DigitsValue(frac) as real / Pow10(|frac|) as real
  }

  /** An unsigned decimal `ddd`, `ddd.ddd`, `ddd.` or `.ddd`; `None` for anything else. */
  function UnsignedDecimal(s: string): (r: Option<real>)
    ensures r.Some? ==> r.value >= 0.0
    ensures s == [] || s == "." ==> r.None?
    ensures s != [] && AllDigits(s) ==> r == Some(DigitsValue(s) as real)
  {
    match IndexOf(s, '.')
    case None => if s != [] && AllDigits(s) then Some(DigitsValue(s) as real) else None
    case Some(k) =>
      var whole := s[..k];
      var frac := s[k + 1..];
      if (whole != [] || frac != []) && AllDigits(whole) && AllDigits(frac)
      then Some(PointValue(whole, frac))
      else None
  }

  /** With one point between two digit strings, not both empty, the value is whole part plus fraction. */
  lemma UnsignedDecimalPoint(whole: string, frac: string)
    requires AllDigits(whole) && AllDigits(frac) && (whole != [] || frac != [])
    ensures UnsignedDecimal(whole + "." + frac) == Some(PointValue(whole, frac))
  {
    var head := whole + ".";
    var s := head + frac;
    assert forall i :: 0 <= i < |whole| ==> s[i] == whole[i] != '.';
    assert s[|whole|] == '.';
    var k := |whole|;
    assert IndexOf(s, '.') == Some(k);
    assert s[..k] == whole;
    DropOfAppend(head, frac, k + 1);
    assert head[k + 1..] == [];
    assert s[k + 1..] == frac;
  }

  /** A character other than a digit or the point makes the text not a number. */
  lemma UnsignedDecimalStray(s: string, i: nat)
    requires i < |s| && !IsAsciiDigit(s[i]) && s[i] != '.'
    ensures UnsignedDecimal(s).None?
  {
    match IndexOf(s, '.')
    case None =>
    case Some(k) =>
      if i < k {
        assert s[..k][i] == s[i];
      } else {
        assert s[k + 1..][i - k - 1] == s[i];
      }
  }

  /** A second point makes the text not a number. */
  lemma UnsignedDecimalTwoPoints(s: string, i: nat, j: nat)
    requires i < j < |s| && s[i] == '.' && s[j] == '.'
    ensures UnsignedDecimal(s).None?
  {
    var k := IndexOf(s, '.').value;
    assert k <= i < j;
    assert s[k + 1..][j - k - 1] == s[j];
  }

  /**
   * `Number(s)` on a header value; `None` stands for NaN. White space
   * around the number is ignored and blank text is 0.
   */
  function NumberOf(s: string): (r: Option<real>)
    ensures AllDigits(Trim(s)) ==> r == Some(DigitsValue(Trim(s)) as real)
  {
    var t := Trim(s);
    if t == [] then Some(0.0)
    else if t[0] == '+' then UnsignedDecimal(t[1..])
    else if t[0] == '-' then
      match UnsignedDecimal(t[1..])
      case Some(v) => Some(-v)
      case None => None
    else UnsignedDecimal(t)
  }

  function Pow2(k: nat): (r: nat)
    ensures r >= 1
  {
    if k == 0 then 1 else 2 * Pow2(k - 1)
  }

  function Min(a: int, b: int): int
  {
    if a <= b then a else b
  }

  /** The number of seconds a `Retry-After` value asks for, when it is a positive number. */
  function RetryAfterSeconds(retryAfter: Option<string>): (r: Option<real>)
    ensures r.Some? ==> r.value > 0.0
  {
    match retryAfter
    case None => None
    case Some(ra) =>
      if ra == "" then None
      else match NumberOf(ra)
        case Some(v) => if v > 0.0 then Some(v) else None
        case None => None
  }

  /**
   * `computeBackoff(attempt, retryAfter)` in milliseconds, with the jitter
   * `Math.floor(Math.random() * 150)` as a parameter.
   */
  function ComputeBackoff(attempt: int, retryAfter: Option<string>, jitter: int): (r: real)
    requires attempt >= 1
    requires 0 <= jitter < JitterSpan
    ensures RetryAfterSeconds(retryAfter).Some? ==> r == RetryAfterSeconds(retryAfter).value * 1000.0
    ensures RetryAfterSeconds(retryAfter).None? ==>
      r == Min(MaxDelayMs, BaseDelayMs * Pow2(attempt - 1) + jitter) as real
  {
    match RetryAfterSeconds(retryAfter)
    case Some(s) => s * 1000.0
    case None => Min(MaxDelayMs, BaseDelayMs * Pow2(attempt - 1) + jitter) as real
  }

  /** Without a usable `Retry-After` the delay lies between 400 ms and 8 s. */
  lemma BackoffBounds(attempt: int, retryAfter: Option<string>, jitter: int)
    requires attempt >= 1
    requires 0 <= jitter < JitterSpan
    requires RetryAfterSeconds(retryAfter).None?
    ensures BaseDelayMs as real <= ComputeBackoff(attempt, retryAfter, jitter) <= MaxDelayMs as real
  {
  }

  /** A delay-seconds value given as digits is honoured exactly when positive, above the 8 s cap too. */
  lemma RetryAfterUncapped(attempt: int, header: string, jitter: int)
    requires attempt >= 1 && 0 <= jitter < JitterSpan
    requires header != [] && AllDigits(header) && DigitsValue(header) > 0
    ensures ComputeBackoff(attempt, Some(header), jitter) == DigitsValue(header) as real * 1000.0
    ensures DigitsValue(header) > MaxDelayMs / 1000 ==> ComputeBackoff(attempt, Some(header), jitter) > MaxDelayMs as real
  {
    assert forall i :: 0 <= i < |header| ==> !IsSpace(header[i]);
    assert Trim(header) == header;
    assert NumberOf(header) == Some(DigitsValue(header) as real);
  }

  /** The exponential part doubles with each attempt until the cap. */
  lemma {:induction false} BackoffMonotone(attempt: int, retryAfter: Option<string>, jitter: int)
    requires attempt >= 1
    requires 0 <= jitter < JitterSpan
    requires RetryAfterSeconds(retryAfter).None?
    ensures ComputeBackoff(attempt, retryAfter, jitter) <= ComputeBackoff(attempt + 1, retryAfter, jitter)
    ensures BaseDelayMs * Pow2(attempt) + jitter <= MaxDelayMs ==>
      ComputeBackoff(attempt + 1, retryAfter, jitter) == (2 * BaseDelayMs * Pow2(attempt - 1) + jitter) as real
  {
    assert Pow2(attempt) == 2 * Pow2(attempt - 1);
  }

  /** Why one attempt failed: the HTTP status, the socket error code and the `Retry-After` header, when present. */
  datatype Failure = Failure(status: Option<int>, code: Option<string>, retryAfter: Option<string>)

  datatype Outcome = Success(body: seq<int>) | Failed(err: Failure)

  /** What `fetchRaw` settles with; a thrown `lastErr` is `None` when no attempt was made. */
  datatype FetchResult = Fetched(body: seq<int>) | Thrown(lastErr: Option<Failure>)

  /** Too many requests, any 5xx status, or a reset, timed-out or unresolved connection. */
  predicate Retriable(e: Failure)
  {
    || e.status == Some(429)
    || (e.status.Some? && 500 <= e.status.value < 600)
    || e.code == Some("ECONNRESET")
    || e.code == Some("ETIMEDOUT")
    || e.code == Some("EAI_AGAIN")
  }

  /** A sleep of the loop: it lasts `ComputeBackoff(attempt, retryAfter, jitter)` milliseconds. */
  datatype Sleep = Sleep(attempt: nat, retryAfter: Option<string>, jitter: int)

  /** How long a sleep lasts. */
  function DelayOf(s: Sleep): real
    requires s.attempt >= 1 && 0 <= s.jitter < JitterSpan
  {
    ComputeBackoff(s.attempt, s.retryAfter, s.jitter)
  }

  /** What one call of `fetchRaw` does: how it settles, how many requests it makes and the sleeps between them. */
  datatype Trace = Trace(result: FetchResult, requests: nat, sleeps: seq<Sleep>)

  /**
   * The attempts from the `k`-th on (counting from 0): the first success,
   * or the first failure that is not retriable or is the last allowed one,
   * with a backoff after each failure that is retried.
   */
  function RunFrom(outcome: nat -> Outcome, attempts: nat, jitter: nat -> int, k: nat): (t: Trace)
    requires forall j: nat :: 0 <= jitter(j) < JitterSpan
    requires k < attempts
    ensures k < t.requests <= attempts
    ensures |t.sleeps| == t.requests - 1 - k
    decreases attempts - k
  {
    match outcome(k)
    case Success(body) => Trace(Fetched(body), k + 1, [])
    case Failed(e) =>
      if !Retriable(e) || k + 1 == attempts then Trace(Thrown(Some(e)), k + 1, [])
      else
        var rest := RunFrom(outcome, attempts, jitter, k + 1);
        Trace(rest.result, rest.requests, [Sleep(k + 1, e.retryAfter, jitter(k))] + rest.sleeps)
  }

  /** The whole call; no attempt at all when `attempts` is below 1, and `lastErr` is then undefined. */
  function Run(outcome: nat -> Outcome, attempts: int, jitter: nat -> int): (t: Trace)
    requires forall j: nat :: 0 <= jitter(j) < JitterSpan
    ensures attempts < 1 ==> t.requests == 0
    ensures attempts >= 1 ==> 1 <= t.requests <= attempts && |t.sleeps| == t.requests - 1
  {
    if attempts < 1 then Trace(Thrown(None), 0, []) else RunFrom(outcome, attempts, jitter, 0)
  }

  /** Every attempt before the `n`-th failed retriably. */
  ghost predicate RetriedBefore(outcome: nat -> Outcome, n: nat)
  {
    forall k: nat :: k < n ==> outcome(k).Failed? && Retriable(outcome(k).err)
  }

  /** The `j`-th sleep follows the failed attempt `first + j + 1`, with its `Retry-After` and its jitter. */
  ghost predicate SleptAsScheduled(outcome: nat -> Outcome, jitter: nat -> int, first: nat, sleeps: seq<Sleep>)
  {
    forall j :: 0 <= j < |sleeps| ==>
      outcome(first + j).Failed? &&
      sleeps[j] == Sleep(first + j + 1, outcome(first + j).err.retryAfter, jitter(first + j))
  }

  /** The properties of the attempts from the `k`-th on. */
  lemma {:induction false} RunFromProperties(outcome: nat -> Outcome, attempts: nat, jitter: nat -> int, k: nat)
    requires forall j: nat :: 0 <= jitter(j) < JitterSpan
    requires k < attempts
    ensures var t := RunFrom(outcome, attempts, jitter, k);
      && k < t.requests <= attempts
      && (forall j: nat :: k <= j < t.requests - 1 ==> outcome(j).Failed? && Retriable(outcome(j).err))
      && |t.sleeps| == t.requests - 1 - k
      && SleptAsScheduled(outcome, jitter, k, t.sleeps)
      && (t.result.Fetched? <==> outcome(t.requests - 1).Success?)
      && (t.result.Fetched? ==> t.result.body == outcome(t.requests - 1).body)
      && (t.result.Thrown? ==>
            && t.result.lastErr == Some(outcome(t.requests - 1).err)
            && (t.requests == attempts || !Retriable(outcome(t.requests - 1).err)))
    decreases attempts - k
  {
    match outcome(k)
    case Success(_) =>
    case Failed(e) =>
      if !(!Retriable(e) || k + 1 == attempts) {
        RunFromProperties(outcome, attempts, jitter, k + 1);
        var rest := RunFrom(outcome, attempts, jitter, k + 1);
        var t := RunFrom(outcome, attempts, jitter, k);
        assert t.sleeps == [Sleep(k + 1, e.retryAfter, jitter(k))] + rest.sleeps;
        forall j | 0 <= j < |t.sleeps|
          ensures outcome(k + j).Failed? &&
            t.sleeps[j] == Sleep(k + j + 1, outcome(k + j).err.retryAfter, jitter(k + j))
        {
          if j > 0 { assert t.sleeps[j] == rest.sleeps[j - 1]; }
        }
      }
  }

  /**
   * What the retry loop promises: at most `attempts` requests, all but the
   * last failed retriably; the first success is returned; a failure ends
   * the loop when it is not retriable or is the last allowed attempt, and
   * is what is thrown; one sleep between consecutive attempts, none after
   * the last.
   */
  lemma RunProperties(outcome: nat -> Outcome, attempts: int, jitter: nat -> int)
    requires forall j: nat :: 0 <= jitter(j) < JitterSpan
    ensures var t := Run(outcome, attempts, jitter);
      && t.requests <= (if attempts < 0 then 0 else attempts)
      && (attempts < 1 ==> t == Trace(Thrown(None), 0, []))
      && (attempts >= 1 ==>
            && t.requests >= 1
            && RetriedBefore(outcome, t.requests - 1)
            && |t.sleeps| == t.requests - 1
            && SleptAsScheduled(outcome, jitter, 0, t.sleeps)
            && (t.result.Fetched? <==> outcome(t.requests - 1).Success?)
            && (t.result.Fetched? ==> t.result.body == outcome(t.requests - 1).body)
            && (t.result.Thrown? ==>
                  && t.result.lastErr == Some(outcome(t.requests - 1).err)
                  && (t.requests == attempts || !Retriable(outcome(t.requests - 1).err))))
  {
    if attempts >= 1 {
      RunFromProperties(outcome, attempts, jitter, 0);
    }
  }

  /** Each sleep of a call waits between 400 ms and 8 s unless the server asked for a delay. */
  lemma SleepsBounded(outcome: nat -> Outcome, attempts: int, jitter: nat -> int, j: nat)
    requires forall k: nat :: 0 <= jitter(k) < JitterSpan
    requires j < |Run(outcome, attempts, jitter).sleeps|
    ensures var s := Run(outcome, attempts, jitter).sleeps[j];
      && s.attempt == j + 1 && 0 <= s.jitter < JitterSpan
      && (RetryAfterSeconds(s.retryAfter).None? ==> BaseDelayMs as real <= DelayOf(s) <= MaxDelayMs as real)
  {
    RunProperties(outcome, attempts, jitter);
    var s := Run(outcome, attempts, jitter).sleeps[j];
    assert s == Sleep(j + 1, outcome(j).err.retryAfter, jitter(j));
    if RetryAfterSeconds(s.retryAfter).None? {
      BackoffBounds(s.attempt, s.retryAfter, s.jitter);
    }
  }

  /** A first answer that fails for good is thrown after a single request. */
  lemma NonRetriableFirst(outcome: nat -> Outcome, attempts: int, jitter: nat -> int)
    requires forall j: nat :: 0 <= jitter(j) < JitterSpan
    requires attempts >= 1 && outcome(0).Failed? && !Retriable(outcome(0).err)
    ensures Run(outcome, attempts, jitter) == Trace(Thrown(Some(outcome(0).err)), 1, [])
  {
  }

  /** A success after retriable failures within the budget is returned, after one sleep per failure. */
  lemma {:induction false} SuccessWithinBudget(outcome: nat -> Outcome, attempts: nat, jitter: nat -> int, k: nat, n: nat)
    requires forall j: nat :: 0 <= jitter(j) < JitterSpan
    requires k <= n < attempts
    requires RetriedBefore(outcome, n) && outcome(n).Success?
    ensures RunFrom(outcome, attempts, jitter, k).result == Fetched(outcome(n).body)
    ensures RunFrom(outcome, attempts, jitter, k).requests == n + 1
    decreases n - k
  {
    if k < n {
      assert outcome(k).Failed? && Retriable(outcome(k).err);
      SuccessWithinBudget(outcome, attempts, jitter, k + 1, n);
    }
  }

  /**
   * `fetchRaw(url, token, attempts)`: attempt `i` (from 1) sees
   * `outcome(i - 1)` and, if it sleeps afterwards, draws `jitter(i - 1)`.
   */
  method FetchRaw(outcome: nat -> Outcome, attempts: int, jitter: nat -> int)
    returns (res: FetchResult, requests: nat, sleeps: seq<Sleep>)
    requires forall k: nat :: 0 <= jitter(k) < JitterSpan
    ensures Trace(res, requests, sleeps) == Run(outcome, attempts, jitter)
  {
    var lastErr: Option<Failure> := None;
    requests := 0;
    sleeps := [];
    var i := 1;
    while i <= attempts
      invariant 1 <= i
      invariant attempts >= 1 ==> i <= attempts
      invariant attempts < 1 ==> i == 1 && sleeps == [] && lastErr == None
      invariant requests == i - 1
      invariant attempts >= 1 ==>
        var rest := RunFrom(outcome, attempts, jitter, i - 1);
        Run(outcome, attempts, jitter) == Trace(rest.result, rest.requests, sleeps + rest.sleeps)
      decreases attempts - i
    {
      requests := requests + 1;
      match outcome(i - 1)
      case Success(body) =>
        assert sleeps + [] == sleeps;
        return Fetched(body), requests, sleeps;
      case Failed(e) =>
        lastErr := Some(e);
        if !Retriable(e) || i == attempts {
          assert sleeps + [] == sleeps;
          return Thrown(lastErr), requests, sleeps;
        }
        ghost var rest := RunFrom(outcome, attempts, jitter, i);
        var wait := Sleep(i, e.retryAfter, jitter(i - 1));
        assert sleeps + ([wait] + rest.sleeps) == (sleeps + [wait]) + rest.sleeps;
        sleeps := sleeps + [wait];
        i := i + 1;
    }
    res := Thrown(lastErr);
  }
}
