/**
 * submit: sends a delta to the remote service one operation at a time,
 * retrying an operation for as long as the service answers that it is
 * rate limited and stopping at the first other failure.
 *
 * The service is a script of responses, one per request in the order the
 * requests are made. The five-second pause before a retry has no effect
 * on the model.
 */
module Submission {
  import opened Wrappers
  import opened Text
  import opened Enums
  import opened Nodes

  /** The attribute sent in a request body: `color` or `direction` and its value. */
  datatype Field = Field(name: string, value: string)

  /** One request to the service: the verb, the collection it is sent to,
      and the body (candidate id, row, column and the optional attribute). */
  datatype Request = Request(
    verb: Verb, endpoint: string, candidateId: string, row: int, column: int, field: Option<Field>)

  /** How one operation is carried out: not at all, by one request, or by an
      exception thrown before any request is made. */
  datatype Dispatch = Skip | Call(request: Request) | Throw(message: string)

  /** The answer to one request: success, or an Error with its message. */
  datatype Response = Accepted | Rejected(message: string)

  /** The Error message that means "rate limited, try again". */
  const RateLimited := "Status code: 429"

  /** The TypeError thrown by `undefined.toString()` when a SOLOON or COMETH
      node has no attribute (or one outside its enum). */
  const MissingAttribute := "Cannot read properties of undefined (reading 'toString')"

  /** The endpoint of each submittable kind. */
  function Endpoint(kind: int): string {
    if kind == POLYANET then "polyanets" else if kind == SOLOON then "soloons" else "comeths"
  }

  /** submitSoloon / submitCometh: the attribute value is the lower-cased name
      of the node's prop in the kind's enum. */
  function WithAttribute(op: Op, candidateId: string, e: NumericEnum, field: string): Dispatch {
    var name := if op.node.prop.Some? then NameOf(e, op.node.prop.value) else None;
    match name
    case None => Throw(MissingAttribute)
    case Some(n) =>
      Call(Request(op.verb, Endpoint(op.node.kind), candidateId, op.node.row, op.node.column,
                   Some(Field(field, ToLower(n)))))
  }

  /** The kind dispatch at the head of submit's loop body. */
  function DispatchOf(candidateId: string, op: Op): Dispatch {
    if op.node.kind == POLYANET then
      Call(Request(op.verb, Endpoint(POLYANET), candidateId, op.node.row, op.node.column, None))
    else if op.node.kind == SOLOON then WithAttribute(op, candidateId, SoloonColor, "color")
    else if op.node.kind == COMETH then WithAttribute(op, candidateId, ComethDirection, "direction")
    else Skip
  }

  /** The enum an attribute of a kind is named in. */
  function AttributeEnum(kind: int): NumericEnum {
    if kind == SOLOON then SoloonColor else ComethDirection
  }

  /** Which operations are skipped, which throw and what a request carries:
      only POLYANET, SOLOON and COMETH nodes reach the service, each at its own
      endpoint, with the operation's verb and the node's row and column; a
      SOLOON or COMETH node without a valid attribute throws instead. */
  lemma DispatchCases(candidateId: string, op: Op)
    ensures DispatchOf(candidateId, op).Skip? <==> op.node.kind !in {POLYANET, SOLOON, COMETH}
    ensures DispatchOf(candidateId, op).Throw? <==>
              op.node.kind in {SOLOON, COMETH} &&
              (op.node.prop.None? || !(0 <= op.node.prop.value < 4))
    ensures DispatchOf(candidateId, op).Throw? ==> DispatchOf(candidateId, op).message != RateLimited
    ensures DispatchOf(candidateId, op).Call? ==>
              var req := DispatchOf(candidateId, op).request;
              && req.verb == op.verb && req.candidateId == candidateId
              && req.row == op.node.row && req.column == op.node.column
              && (req.endpoint == "polyanets" <==> op.node.kind == POLYANET)
              && (req.endpoint == "soloons" <==> op.node.kind == SOLOON)
              && (req.endpoint == "comeths" <==> op.node.kind == COMETH)
              && (req.field.None? <==> op.node.kind == POLYANET)
  {
  }

  /** The attribute a request carries is a lower-case word which, read back
      case-insensitively as the parser reads it, is the node's own prop: the
      lower-cased wire name loses nothing. */
  lemma AttributeRoundTrip(candidateId: string, op: Op)
    requires DispatchOf(candidateId, op).Call? && op.node.kind != POLYANET
    ensures DispatchOf(candidateId, op).request.field.Some?
    ensures var f := DispatchOf(candidateId, op).request.field.value;
            && f.name == (if op.node.kind == SOLOON then "color" else "direction")
            && IsLowerWord(f.value)
            && Lookup(AttributeEnum(op.node.kind), ToUpper(f.value)) == op.node.prop
  {
    var e := AttributeEnum(op.node.kind);
    SoloonColorWellFormed();
    ComethDirectionWellFormed();
    var name := NameOf(e, op.node.prop.value).value;
    UpperOfLower(name);
    LookupNameOf(e, op.node.prop.value);
  }

  /** One request made: the position of its operation in the delta and the request. */
  datatype Attempt = Attempt(index: nat, request: Request)

  /**
   * How a run ends: every operation done (submit returns undefined);
   * aborted at an operation with an Error's message (submit returns that
   * Error); or pending at an operation when the response script ran out,
   * where the service would still be called.
   */
  datatype Outcome = Completed | Aborted(index: nat, message: string) | Pending(index: nat)

  datatype Run = Run(outcome: Outcome, trace: seq<Attempt>)

  /** A run preceded by attempts already made. */
  function After(prefix: seq<Attempt>, r: Run): Run {
    Run(r.outcome, prefix + r.trace)
  }

  /** What submit does from operation i on, given the responses still to come. */
  function Execute(candidateId: string, ops: seq<Op>, i: nat, responses: seq<Response>): Run
    requires i <= |ops|
    decreases |responses|, |ops| - i
  {
    if i == |ops| then Run(Completed, [])
    else match DispatchOf(candidateId, ops[i])
      case Skip => Execute(candidateId, ops, i + 1, responses)
      case Throw(m) => Run(Aborted(i, m), [])
      case Call(req) =>
        if responses == [] then Run(Pending(i), [])
        else
          var attempt := Attempt(i, req);
          match responses[0]
          case Accepted => After([attempt], Execute(candidateId, ops, i + 1, responses[1..]))
          case Rejected(m) =>
            if m == RateLimited then After([attempt], Execute(candidateId, ops, i, responses[1..]))
            else Run(Aborted(i, m), [attempt])
  }

  method Submit(candidateId: string, ops: seq<Op>, responses: seq<Response>)
    returns (outcome: Outcome, trace: seq<Attempt>)
    ensures Run(outcome, trace) == Execute(candidateId, ops, 0, responses)
  {
    var i, used := 0, 0;
    trace := [];
    while i < |ops|
      invariant i <= |ops| && used <= |responses|
      invariant Execute(candidateId, ops, 0, responses) == After(trace, Execute(candidateId, ops, i, responses[used..]))
      decreases |responses| - used, |ops| - i
    {
      var rest := responses[used..];
      match DispatchOf(candidateId, ops[i])
      case Skip =>
        i := i + 1;
      case Throw(m) =>
        return Aborted(i, m), trace;
      case Call(req) =>
        if used == |responses| {
          return Pending(i), trace;
        }
        assert rest[1..] == responses[used + 1..];
        trace := trace + [Attempt(i, req)];
        used := used + 1;
        match rest[0]
        case Accepted =>
          i := i + 1;
        case Rejected(m) =>
          if m != RateLimited {
            return Aborted(i, m), trace;
          }
          // Rate limited: the source decrements i so that the loop's
          // increment lands on the same operation again, after a pause.
    }
    return Completed, trace;
  }

  /** Every request of a run is the request of an operation at or after i
      that really calls the service, and each takes one response. */
  lemma {:induction false} ExecuteAttempts(candidateId: string, ops: seq<Op>, i: nat, responses: seq<Response>)
    requires i <= |ops|
    decreases |responses|, |ops| - i
    ensures var t := Execute(candidateId, ops, i, responses).trace;
      && |t| <= |responses|
      && (forall k :: 0 <= k < |t| ==>
            i <= t[k].index < |ops| && DispatchOf(candidateId, ops[t[k].index]) == Call(t[k].request))
  {
    if i < |ops| {
      match DispatchOf(candidateId, ops[i])
      case Skip =>
        ExecuteAttempts(candidateId, ops, i + 1, responses);
      case Throw(_) =>
      case Call(req) =>
        if responses != [] {
          match responses[0]
          case Accepted =>
            ExecuteAttempts(candidateId, ops, i + 1, responses[1..]);
          case Rejected(m) =>
            if m == RateLimited {
              ExecuteAttempts(candidateId, ops, i, responses[1..]);
            }
        }
    }
  }

  /** Every operation from `lo` up to (not including) `hi` makes no request. */
  predicate SkippedFrom(candidateId: string, ops: seq<Op>, lo: nat, hi: nat) {
    forall j :: lo <= j < hi && j < |ops| ==> DispatchOf(candidateId, ops[j]).Skip?
  }

  /** What follows attempt k, given the response it got: after a rate limit
      the same request again; after a success a request for a later operation,
      with only operations that make no request in between. */
  predicate StepAfter(candidateId: string, ops: seq<Op>, responses: seq<Response>, t: seq<Attempt>, k: nat)
    requires k + 1 < |t| && k < |responses|
  {
    || (responses[k] == Rejected(RateLimited) && t[k + 1] == t[k])
    || (responses[k] == Accepted && t[k].index < t[k + 1].index
        && SkippedFrom(candidateId, ops, t[k].index + 1, t[k + 1].index))
  }

  /** The first request of a run is for the first operation at or after i
      that makes a request: every operation before it is skipped. */
  lemma {:induction false} ExecuteFirst(candidateId: string, ops: seq<Op>, i: nat, responses: seq<Response>)
    requires i <= |ops|
    decreases |ops| - i
    ensures var t := Execute(candidateId, ops, i, responses).trace;
      |t| > 0 ==> SkippedFrom(candidateId, ops, i, t[0].index)
  {
    if i < |ops| && DispatchOf(candidateId, ops[i]).Skip? {
      ExecuteFirst(candidateId, ops, i + 1, responses);
    }
  }

  /** Requests are made in operation order: a rate-limited request is followed
      by the same request again, never by a later operation; an accepted one
      by a request for a later operation; any other response by nothing. */
  lemma {:induction false} ExecuteSteps(candidateId: string, ops: seq<Op>, i: nat, responses: seq<Response>)
    requires i <= |ops|
    decreases |responses|, |ops| - i
    ensures var t := Execute(candidateId, ops, i, responses).trace;
      && |t| <= |responses|
      && (forall k :: 0 <= k < |t| - 1 ==> StepAfter(candidateId, ops, responses, t, k))
      && (forall k, l :: 0 <= k <= l < |t| ==> t[k].index <= t[l].index)
  {
    ExecuteAttempts(candidateId, ops, i, responses);
    if i < |ops| {
      match DispatchOf(candidateId, ops[i])
      case Skip =>
        ExecuteSteps(candidateId, ops, i + 1, responses);
      case Throw(_) =>
      case Call(req) =>
        if responses != [] {
          var rest := responses[1..];
          var a := Attempt(i, req);
          match responses[0]
          case Accepted =>
            var t' := Execute(candidateId, ops, i + 1, rest).trace;
            ExecuteSteps(candidateId, ops, i + 1, rest);
            ExecuteAttempts(candidateId, ops, i + 1, rest);
            ExecuteFirst(candidateId, ops, i + 1, rest);
            PrependSteps(candidateId, ops, a, t', responses);
            assert Execute(candidateId, ops, i, responses).trace == [a] + t';
            if t' != [] {
              assert ([a] + t')[1] == t'[0];
              assert StepAfter(candidateId, ops, responses, [a] + t', 0);
            }
          case Rejected(m) =>
            if m == RateLimited {
              var t' := Execute(candidateId, ops, i, rest).trace;
              ExecuteSteps(candidateId, ops, i, rest);
              ExecuteAttempts(candidateId, ops, i, rest);
              if t' != [] {
                assert t'[0] == a;
              }
              PrependSteps(candidateId, ops, a, t', responses);
            }
        }
    }
  }

  /** Steps inside a trace survive putting one attempt in front of it. */
  lemma PrependSteps(candidateId: string, ops: seq<Op>, a: Attempt, t: seq<Attempt>, responses: seq<Response>)
    requires |t| < |responses|
    requires forall k :: 0 <= k < |t| - 1 ==> StepAfter(candidateId, ops, responses[1..], t, k)
    ensures forall k :: 1 <= k < |t| ==> StepAfter(candidateId, ops, responses, [a] + t, k)
  {
    forall k | 1 <= k < |t|
      ensures StepAfter(candidateId, ops, responses, [a] + t, k)
    {
      assert StepAfter(candidateId, ops, responses[1..], t, k - 1);
      assert ([a] + t)[k] == t[k - 1] && ([a] + t)[k + 1] == t[k] && responses[k] == responses[1..][k - 1];
    }
  }

  /** A run makes at most one request per response. */
  lemma {:induction false} ExecuteLength(candidateId: string, ops: seq<Op>, i: nat, responses: seq<Response>)
    requires i <= |ops|
    decreases |responses|, |ops| - i
    ensures |Execute(candidateId, ops, i, responses).trace| <= |responses|
  {
    if i < |ops| {
      match DispatchOf(candidateId, ops[i])
      case Skip =>
        ExecuteLength(candidateId, ops, i + 1, responses);
      case Throw(_) =>
      case Call(_) =>
        if responses != [] {
          ExecuteLength(candidateId, ops, i + 1, responses[1..]);
          ExecuteLength(candidateId, ops, i, responses[1..]);
        }
    }
  }

  /** Why a run aborted at operation `index` with `message`: the operation's
      own exception, or the response to the run's last request, made for it. */
  predicate AbortCause(
    candidateId: string, ops: seq<Op>, responses: seq<Response>, t: seq<Attempt>, index: nat, message: string)
    requires index < |ops| && |t| <= |responses|
  {
    || DispatchOf(candidateId, ops[index]) == Throw(message)
    || (|t| > 0 && t[|t| - 1].index == index && responses[|t| - 1] == Rejected(message))
  }

  /** An aborted run stops at the operation it names: no later operation is
      requested, the reason is never a rate limit, and it is that operation's
      exception or the failure its last request got. */
  lemma {:induction false} ExecuteAborted(candidateId: string, ops: seq<Op>, i: nat, responses: seq<Response>)
    requires i <= |ops|
    decreases |responses|, |ops| - i
    ensures var r := Execute(candidateId, ops, i, responses);
      r.outcome.Aborted? ==>
        && i <= r.outcome.index < |ops|
        && r.outcome.message != RateLimited
        && (forall k :: 0 <= k < |r.trace| ==> r.trace[k].index <= r.outcome.index)
        && |r.trace| <= |responses|
        && AbortCause(candidateId, ops, responses, r.trace, r.outcome.index, r.outcome.message)
  {
    ExecuteLength(candidateId, ops, i, responses);
    if i < |ops| {
      match DispatchOf(candidateId, ops[i])
      case Skip =>
        ExecuteAborted(candidateId, ops, i + 1, responses);
      case Throw(_) =>
        DispatchCases(candidateId, ops[i]);
      case Call(req) =>
        if responses != [] {
          var rest := responses[1..];
          match responses[0]
          case Accepted =>
            ExecuteAborted(candidateId, ops, i + 1, rest);
          case Rejected(m) =>
            if m == RateLimited {
              ExecuteAborted(candidateId, ops, i, rest);
            }
        }
    }
  }

  /** A run left pending has used every response, while an operation at or
      after i was waiting for its request to be answered. */
  lemma {:induction false} ExecutePending(candidateId: string, ops: seq<Op>, i: nat, responses: seq<Response>)
    requires i <= |ops|
    decreases |responses|, |ops| - i
    ensures var r := Execute(candidateId, ops, i, responses);
      r.outcome.Pending? ==>
        && i <= r.outcome.index < |ops|
        && |r.trace| == |responses|
        && DispatchOf(candidateId, ops[r.outcome.index]).Call?
  {
    if i < |ops| {
      match DispatchOf(candidateId, ops[i])
      case Skip =>
        ExecutePending(candidateId, ops, i + 1, responses);
      case Throw(_) =>
      case Call(_) =>
        if responses != [] {
          ExecutePending(candidateId, ops, i + 1, responses[1..]);
          ExecutePending(candidateId, ops, i, responses[1..]);
        }
    }
  }

  /** A completed run met no exception and saw only successes and rate limits. */
  lemma {:induction false} ExecuteCompleted(candidateId: string, ops: seq<Op>, i: nat, responses: seq<Response>)
    requires i <= |ops|
    decreases |responses|, |ops| - i
    ensures var r := Execute(candidateId, ops, i, responses);
      r.outcome.Completed? ==>
        && (forall j :: i <= j < |ops| ==> !DispatchOf(candidateId, ops[j]).Throw?)
        && |r.trace| <= |responses|
        && (forall k :: 0 <= k < |r.trace| ==> responses[k] == Accepted || responses[k] == Rejected(RateLimited))
  {
    ExecuteLength(candidateId, ops, i, responses);
    if i < |ops| {
      match DispatchOf(candidateId, ops[i])
      case Skip =>
        ExecuteCompleted(candidateId, ops, i + 1, responses);
      case Throw(_) =>
      case Call(_) =>
        if responses != [] {
          var rest := responses[1..];
          ExecuteLength(candidateId, ops, i + 1, rest);
          ExecuteLength(candidateId, ops, i, rest);
          ExecuteCompleted(candidateId, ops, i + 1, rest);
          ExecuteCompleted(candidateId, ops, i, rest);
        }
    }
  }

  /** Operation j got a success: some request for it was accepted. */
  predicate AcceptedFor(responses: seq<Response>, t: seq<Attempt>, j: nat)
    requires |t| <= |responses|
  {
    exists k :: 0 <= k < |t| && t[k].index == j && responses[k] == Accepted
  }

  /** A success recorded in a trace stays recorded when one attempt is put in front. */
  lemma PrependAccepted(a: Attempt, t: seq<Attempt>, responses: seq<Response>, j: nat)
    requires 0 < |responses| && |t| <= |responses| - 1
    requires AcceptedFor(responses[1..], t, j)
    ensures AcceptedFor(responses, [a] + t, j)
  {
    var k :| 0 <= k < |t| && t[k].index == j && responses[1..][k] == Accepted;
    assert ([a] + t)[k + 1] == t[k] && responses[k + 1] == responses[1..][k];
  }

  /** Where a run stopped: past the last operation, or at the operation it
      aborted or was left pending at. */
  function StopIndex(ops: seq<Op>, outcome: Outcome): nat {
    match outcome
    case Completed => |ops|
    case Aborted(index, _) => index
    case Pending(index) => index
  }

  /** Every operation before the one a run stopped at, if it calls the
      service, received a success: no such operation is passed over, whether
      the run completed, aborted or was left pending. */
  lemma {:induction false} CallsAcceptedBeforeStop(candidateId: string, ops: seq<Op>, i: nat, responses: seq<Response>)
    requires i <= |ops|
    decreases |responses|, |ops| - i
    ensures var r := Execute(candidateId, ops, i, responses);
      && |r.trace| <= |responses|
      && (forall j :: i <= j < StopIndex(ops, r.outcome) && j < |ops| && DispatchOf(candidateId, ops[j]).Call? ==>
            AcceptedFor(responses, r.trace, j))
  {
    ExecuteLength(candidateId, ops, i, responses);
    var r := Execute(candidateId, ops, i, responses);
    if i < |ops| {
      match DispatchOf(candidateId, ops[i])
      case Skip =>
        assert r == Execute(candidateId, ops, i + 1, responses);
        CallsAcceptedBeforeStop(candidateId, ops, i + 1, responses);
      case Throw(_) =>
      case Call(req) =>
        if responses != [] && responses[0] in {Accepted, Rejected(RateLimited)} {
          var rest := responses[1..];
          var next := if responses[0] == Accepted then i + 1 else i;
          var r' := Execute(candidateId, ops, next, rest);
          assert r == After([Attempt(i, req)], r');
          CallsAcceptedBeforeStop(candidateId, ops, next, rest);
          forall j | i <= j < StopIndex(ops, r.outcome) && j < |ops| && DispatchOf(candidateId, ops[j]).Call?
            ensures AcceptedFor(responses, r.trace, j)
          {
            if j == i && responses[0] == Accepted {
              assert r.trace[0].index == i;
            } else {
              PrependAccepted(Attempt(i, req), r'.trace, responses, j);
            }
          }
        }
    }
  }

  /** One answered request: a success moves on to the next operation, a rate
      limit stays on the same one; either way the request is recorded. */
  lemma CallStep(candidateId: string, ops: seq<Op>, i: nat, req: Request, responses: seq<Response>)
    requires i < |ops| && DispatchOf(candidateId, ops[i]) == Call(req) && responses != []
    ensures responses[0] == Accepted ==>
              Execute(candidateId, ops, i, responses)
              == After([Attempt(i, req)], Execute(candidateId, ops, i + 1, responses[1..]))
    ensures responses[0] == Rejected(RateLimited) ==>
              Execute(candidateId, ops, i, responses)
              == After([Attempt(i, req)], Execute(candidateId, ops, i, responses[1..]))
  {
  }

  /** n copies of x. */
  function Repeated<T>(x: T, n: nat): seq<T> {
    if n == 0 then [] else [x] + Repeated(x, n - 1)
  }

  /** n rate-limited answers and then a success: the operation is requested
      n + 1 times in a row and the run goes on with the next operation. */
  lemma {:induction false} RetryThenAdvance(
    candidateId: string, ops: seq<Op>, i: nat, req: Request, n: nat, rest: seq<Response>)
    requires i < |ops| && DispatchOf(candidateId, ops[i]) == Call(req)
    ensures Execute(candidateId, ops, i, Repeated(Rejected(RateLimited), n) + [Accepted] + rest)
         == After(Repeated(Attempt(i, req), n + 1), Execute(candidateId, ops, i + 1, rest))
  {
    var responses := Repeated(Rejected(RateLimited), n) + [Accepted] + rest;
    CallStep(candidateId, ops, i, req, responses);
    if n == 0 {
      assert responses == [Accepted] + rest;
      assert responses[1..] == rest;
    } else {
      var shorter := Repeated(Rejected(RateLimited), n - 1) + [Accepted] + rest;
      RetryThenAdvance(candidateId, ops, i, req, n - 1, rest);
      assert responses == [Rejected(RateLimited)] + shorter;
      assert responses[1..] == shorter;
    }
  }

  /** A failure other than a rate limit on an operation's request ends the
      run there with that message: no later operation is requested. */
  lemma AbortOnFailure(
    candidateId: string, ops: seq<Op>, i: nat, req: Request, m: string, rest: seq<Response>)
    requires i < |ops| && DispatchOf(candidateId, ops[i]) == Call(req) && m != RateLimited
    ensures Execute(candidateId, ops, i, [Rejected(m)] + rest) == Run(Aborted(i, m), [Attempt(i, req)])
  {
  }
}
