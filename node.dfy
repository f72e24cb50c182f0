/**
 * The calls `RewardService` makes to the VeChain node: the gas estimate
 * (`estimateGas`), the block reference (`getBlockRef`), sending the raw transaction
 * (`sendTransaction`) and polling for its receipt (`verifyTransaction`). The HTTP
 * exchange is an input: each call is given what the node answered, already decoded
 * from JSON, or the exception the HTTP client threw.
 */
module Node {
  import opened Wrappers
  import opened Hex
  import opened Rlp
  import opened Transaction

  /**
   * What one HTTP call produced. The client is built with `http_errors` off, so an
   * error status is an answer. A `RequestException` is caught and rethrown by each
   * method; any other client exception (a failed connection) passes through.
   */
  datatype Exchange<T> =
    | Answer(reply: T)
    | RequestError(message: string)
    | TransferError(message: string)

  // ---------------------------------------------------------------------------
  // estimateGas
  // ---------------------------------------------------------------------------

  /**
   * `array_sum(array_column($body, 'gasUsed'))`: the sum of the `gasUsed` values of
   * the rows that have one (None for a row without it).
   */
  function GasSum(rows: seq<Option<int>>): int
    decreases |rows|
  {
    if rows == [] then 0
    else (if rows[0].Some? then rows[0].value else 0) + GasSum(rows[1..])
  }

  /** The rows that carry a `gasUsed` value, with their values: what `array_column` keeps. */
  function GasColumn(rows: seq<Option<int>>): (c: seq<int>)
    ensures |c| <= |rows|
    decreases |rows|
  {
    if rows == [] then []
    else (if rows[0].Some? then [rows[0].value] else []) + GasColumn(rows[1..])
  }

  function Sum(xs: seq<int>): int
    decreases |xs|
  {
    if xs == [] then 0 else xs[0] + Sum(xs[1..])
  }

  /** A sum beyond PHP's int range is a float, which the `int` return type refuses. */
  const GasTypeError: string := "App\\Services\\RewardService::estimateGas(): Return value must be of type int, float returned"

  /**
   * `estimateGas`. No clauses fail before any request; a body that is not an array
   * (None) and a zero total fail after it. Only a `RequestException` is rethrown
   * with the "Gas estimation failed: " prefix.
   */
  function EstimateGas(clauses: seq<Clause>, reply: Exchange<Option<seq<Option<int>>>>): (r: Result<PhpInt>)
    ensures clauses == [] ==> r == Err("Clauses array cannot be empty")
    ensures r.Ok? <==> clauses != [] && reply.Answer? && reply.reply.Some?
                       && GasSum(reply.reply.value) != 0
                       && PhpIntMin <= GasSum(reply.reply.value) <= PhpIntMax
    ensures r.Ok? ==> r.value == GasSum(reply.reply.value) && r.value != 0
  {
    if clauses == [] then Err("Clauses array cannot be empty")
    else
      match reply
      case RequestError(m) => Err("Gas estimation failed: " + m)
      case TransferError(m) => Err(m)
      case Answer(body) =>
        if body.None? then Err("Invalid response format")
        else
          var total := GasSum(body.value);
          if total == 0 then Err("Gas estimation failed: No gas used")
          else if total < PhpIntMin || total > PhpIntMax then Err(GasTypeError)
          else Ok(total)
  }

  /** The sum counts each `gasUsed` value once and skips the rows without one. */
  lemma {:induction false} GasSumIsColumnSum(rows: seq<Option<int>>)
    ensures GasSum(rows) == Sum(GasColumn(rows))
    decreases |rows|
  {
    if rows != [] {
      GasSumIsColumnSum(rows[1..]);
      var head := if rows[0].Some? then [rows[0].value] else [];
      SumAppend(head, GasColumn(rows[1..]));
      if rows[0].Some? {
        assert Sum(head) == rows[0].value + Sum(head[1..]);
        assert head[1..] == [];
      }
    }
  }

  lemma {:induction false} SumAppend(a: seq<int>, b: seq<int>)
    ensures Sum(a + b) == Sum(a) + Sum(b)
    decreases |a|
  {
    if a == [] {
      assert a + b == b;
    } else {
      assert (a + b)[1..] == a[1..] + b;
      SumAppend(a[1..], b);
    }
  }

  /** Splitting the rows splits the sum: each row adds its own `gasUsed`, or nothing. */
  lemma {:induction false} GasSumAppend(a: seq<Option<int>>, b: seq<Option<int>>)
    ensures GasSum(a + b) == GasSum(a) + GasSum(b)
    decreases |a|
  {
    if a == [] {
      assert a + b == b;
    } else {
      assert (a + b)[1..] == a[1..] + b;
      GasSumAppend(a[1..], b);
    }
  }

  // ---------------------------------------------------------------------------
  // getBlockRef
  // ---------------------------------------------------------------------------

  /**
   * `getBlockRef`: the first 18 characters of the best block's `id` (None when the
   * block has none). A `RequestException` becomes a message without its detail.
   */
  function GetBlockRef(reply: Exchange<Option<string>>): (r: Result<string>)
    ensures r.Ok? <==> reply.Answer? && reply.reply.Some?
    ensures r.Ok? ==> r.value == Take(reply.reply.value, 18)
    ensures reply.Answer? && reply.reply.None? ==> r == Err("Invalid block response")
    ensures reply.RequestError? ==> r == Err("Failed to fetch block reference")
  {
    match reply
    case RequestError(_) => Err("Failed to fetch block reference")
    case TransferError(m) => Err(m)
    case Answer(id) => if id.None? then Err("Invalid block response") else Ok(Take(id.value, 18))
  }

  /** A block id of 32 bytes: "0x" and 64 hex digits. */
  predicate IsBlockId(id: string) {
    |id| == 66 && id[..2] == "0x" && IsHex(id[2..])
  }

  /**
   * The reference taken from a well-formed block id is "0x" and the id's first 8
   * bytes: whole-byte hex, so it encodes as an 8-byte RLP string.
   */
  lemma BlockRefOfId(id: string)
    requires IsBlockId(id)
    ensures var r := GetBlockRef(Answer(Some(id)));
      r.Ok? && |r.value| == 18 && r.value == "0x" + id[2..18]
      && Canonical(Str(r.value)) && TextBytes(r.value) == HexToBytes(id[2..18])
  {
    var r := Take(id, 18);
    assert r == "0x" + id[2..18];
    assert r[..2] == "0x" && r[2..] == id[2..18];
    assert forall i | 0 <= i < 16 :: id[2..18][i] == id[2..][i];
    assert IsByteHex(id[2..18]);
    assert StripPrefix(r) == id[2..18];
  }

  // ---------------------------------------------------------------------------
  // sendTransaction
  // ---------------------------------------------------------------------------

  /** The node's answer to a sent transaction: its status, and the body's `id` and `error`. */
  datatype SendReply = SendReply(status: int, id: Option<string>, error: Option<string>)

  /**
   * `sendTransaction`: the transaction id when the status is 200 and the body has
   * one; otherwise the node's error text, or "Unknown error" without one.
   */
  function SendTransaction(reply: Exchange<SendReply>): (r: Result<string>)
    ensures r.Ok? <==> reply.Answer? && reply.reply.status == 200 && reply.reply.id.Some?
    ensures r.Ok? ==> r.value == reply.reply.id.value
    ensures reply.Answer? && r.Err? ==>
      r.error == "Transaction ID not returned: " +
        (if reply.reply.error.Some? then reply.reply.error.value else "Unknown error")
    ensures reply.RequestError? ==> r == Err("Transaction sending failed: " + reply.message)
  {
    match reply
    case RequestError(m) => Err("Transaction sending failed: " + m)
    case TransferError(m) => Err(m)
    case Answer(a) =>
      if a.status != 200 || a.id.None? then
        Err("Transaction ID not returned: " + (if a.error.Some? then a.error.value else "Unknown error"))
      else Ok(a.id.value)
  }

  // ---------------------------------------------------------------------------
  // verifyTransaction
  // ---------------------------------------------------------------------------

  /**
   * One answer to the receipt request: its status, whether the decoded receipt is
   * truthy, and the truthiness of its `reverted` field (None when unset or null).
   */
  datatype ReceiptReply = ReceiptReply(status: int, receiptTruthy: bool, reverted: Option<bool>)

  /** At most this many receipt requests are made, three seconds apart. */
  const MaxPolls: nat := 10

  /** A receipt that was found and did not revert. */
  predicate Accepted(a: ReceiptReply) {
    a.receiptTruthy && (a.reverted.None? || !a.reverted.value)
  }

  /** An answer that lets the polling go on: anything but a 200 status. */
  predicate Pending(e: Exchange<ReceiptReply>) {
    e.Answer? && e.reply.status != 200
  }

  /** How the polling ended: the outcome, and the number of requests made. */
  datatype Polling = Polling(result: Result<()>, requests: nat)

  /** The outcome an answer that is not pending decides, after `requests` requests. */
  function Decision(e: Exchange<ReceiptReply>, requests: nat): (p: Polling)
    requires !Pending(e)
    ensures p.requests == requests
    ensures p.result.Ok? <==> e.Answer? && Accepted(e.reply)
  {
    match e
    case RequestError(m) => Polling(Err("Transaction verification failed: " + m), requests)
    case TransferError(m) => Polling(Err(m), requests)
    case Answer(a) => Polling(if Accepted(a) then Ok(()) else Err("Transaction reverted"), requests)
  }

  /** The polling from request i on, over the node's answers to successive requests. */
  function Poll(answers: seq<Exchange<ReceiptReply>>, i: nat): (p: Polling)
    requires i <= MaxPolls <= |answers|
    ensures i < p.requests <= MaxPolls || (i == p.requests == MaxPolls)
    decreases MaxPolls - i
  {
    if i == MaxPolls then Polling(Err("Transaction receipt not found"), MaxPolls)
    else if Pending(answers[i]) then Poll(answers, i + 1)
    else Decision(answers[i], i + 1)
  }

  /**
   * `verifyTransaction`: request the receipt up to ten times and stop at the first
   * answer with status 200, or at the first exception.
   */
  method VerifyTransaction(answers: seq<Exchange<ReceiptReply>>) returns (r: Result<()>, requests: nat)
    requires MaxPolls <= |answers|
    ensures Polling(r, requests) == Poll(answers, 0)
  {
    var i := 0;
    while i < MaxPolls
      invariant 0 <= i <= MaxPolls
      invariant Poll(answers, i) == Poll(answers, 0)
    {
      var e := answers[i];
      if !Pending(e) {
        var p := Decision(e, i + 1);
        return p.result, p.requests;
      }
      i := i + 1;
    }
    return Err("Transaction receipt not found"), MaxPolls;
  }

  /**
   * The first answer that is not pending decides: after k pending answers, answer k
   * ends the polling with k + 1 requests, and no further request is made.
   */
  lemma {:induction false} FirstAnswerDecides(answers: seq<Exchange<ReceiptReply>>, k: nat)
    requires k < MaxPolls <= |answers|
    requires forall j | 0 <= j < k :: Pending(answers[j])
    requires !Pending(answers[k])
    ensures Poll(answers, 0) == Decision(answers[k], k + 1)
  {
    PendingSkipped(answers, 0, k);
  }

  lemma {:induction false} PendingSkipped(answers: seq<Exchange<ReceiptReply>>, i: nat, k: nat)
    requires i <= k <= MaxPolls <= |answers|
    requires forall j | i <= j < k :: Pending(answers[j])
    ensures Poll(answers, i) == Poll(answers, k)
    decreases k - i
  {
    if i < k {
      PendingSkipped(answers, i + 1, k);
    }
  }

  /** Ten pending answers: ten requests, and the receipt was not found. */
  lemma NoReceipt(answers: seq<Exchange<ReceiptReply>>)
    requires MaxPolls <= |answers|
    requires forall j | 0 <= j < MaxPolls :: Pending(answers[j])
    ensures Poll(answers, 0) == Polling(Err("Transaction receipt not found"), MaxPolls)
  {
    PendingSkipped(answers, 0, MaxPolls);
  }

  /** The polling succeeds exactly when some answer accepts and every earlier one is pending. */
  lemma {:induction false} PollSucceedsIff(answers: seq<Exchange<ReceiptReply>>)
    requires MaxPolls <= |answers|
    ensures Poll(answers, 0).result.Ok? <==>
      exists k | 0 <= k < MaxPolls :: (forall j | 0 <= j < k :: Pending(answers[j]))
        && answers[k].Answer? && answers[k].reply.status == 200 && Accepted(answers[k].reply)
  {
    if exists k | 0 <= k < MaxPolls :: !Pending(answers[k]) {
      var k := FirstDecisive(answers);
      FirstAnswerDecides(answers, k);
    } else {
      NoReceipt(answers);
    }
    if exists k | 0 <= k < MaxPolls :: (forall j | 0 <= j < k :: Pending(answers[j]))
        && answers[k].Answer? && answers[k].reply.status == 200 && Accepted(answers[k].reply) {
      var k :| 0 <= k < MaxPolls && (forall j | 0 <= j < k :: Pending(answers[j]))
        && answers[k].Answer? && answers[k].reply.status == 200 && Accepted(answers[k].reply);
      FirstAnswerDecides(answers, k);
    }
  }

  /** The first answer that is not pending, when there is one. */
  lemma FirstDecisive(answers: seq<Exchange<ReceiptReply>>) returns (k: nat)
    requires MaxPolls <= |answers|
    requires exists k | 0 <= k < MaxPolls :: !Pending(answers[k])
    ensures k < MaxPolls && !Pending(answers[k])
    ensures forall j | 0 <= j < k :: Pending(answers[j])
  {
    k := 0;
    while Pending(answers[k])
      invariant k < MaxPolls
      invariant forall j | 0 <= j < k :: Pending(answers[j])
      decreases MaxPolls - k
    {
      k := k + 1;
    }
  }
}
