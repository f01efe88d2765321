/**
 Which controller statuses fail a transaction, and how (cc2340r5-hal/src/i2c.rs:120-134), over whole runs and on
 the status bits alone: what goes wrong, what is only the controller's own NACK of a last byte, and what is stored.
 */
module Cc2340Replies {
  import opened Wrappers
  import opened Bytes
  import opened I2cWire
  import opened Cc2340I2c

  /** A wait that fails the byte it follows: a fault, lost arbitration, or an error that is a NACK of the address or
      of a byte that was sent. */
  ghost predicate Fails(reply: Reply, sent: bool) {
    match reply
    case Fault(_) => true
    case Status(w) => Has(w, CSTA_ARBLST) || (Has(w, CSTA_ERR) && (Has(w, CSTA_ADRACKN) || sent))
  }

  /** The error that it is: lost arbitration before a NACK, and the address before the data. */
  ghost predicate Means(reply: Reply, error: Error) {
    match reply
    case Fault(e) => error == e
    case Status(w) =>
      && (Has(w, CSTA_ARBLST) ==> error == ArbitrationLost)
      && (!Has(w, CSTA_ARBLST) && Has(w, CSTA_ADRACKN) ==> error == AddressNack)
      && (!Has(w, CSTA_ARBLST) && !Has(w, CSTA_ADRACKN) ==> error == DataNack)
  }

  lemma ReplyFails(reply: Reply, read: bool)
    ensures StepError(reply, read).Some? <==> Fails(reply, !read)
    ensures StepError(reply, read).Some? ==> Means(reply, StepError(reply, read).value)
  {
    hide Has;
  }

  ghost predicate FailsAt(replies: nat -> Reply, steps: seq<Step>, k: nat)
    requires k < |steps|
  {
    Fails(replies(k), steps[k].Send?)
  }

  ghost predicate NoneFails(replies: nat -> Reply, steps: seq<Step>) {
    forall k: nat :: k < |steps| ==> !FailsAt(replies, steps, k)
  }

  lemma {:induction false} FirstErrorFails(replies: nat -> Reply, steps: seq<Step>, k: nat)
    requires k <= |steps|
    ensures var r := FirstError(replies, steps, k);
            && (forall j :: k <= j < r ==> !FailsAt(replies, steps, j))
            && (r < |steps| ==> FailsAt(replies, steps, r))
    decreases |steps| - k
  {
    hide Fails, StepError;
    if k < |steps| {
      ReplyFails(replies(k), steps[k].Receive?);
      if !FailsAt(replies, steps, k) { FirstErrorFails(replies, steps, k + 1); }
    }
  }

  /** A transaction that got the bus. */
  ghost predicate Started(c: Controller, address: byte, ops: seq<Operation>, log: seq<Access>, after: seq<Operation>,
                          error: Option<Error>) {
    ops != [] && AllMove(ops) && !Has(c.status, CSTA_BUSBSY) && Outcome(c, address, ops, log, after, error)
  }

  /** A transaction succeeds exactly when no wait fails its byte; otherwise the first that does names the error. */
  lemma RepliesDecide(c: Controller, address: byte, ops: seq<Operation>, log: seq<Access>, after: seq<Operation>,
                      error: Option<Error>)
    requires Started(c, address, ops, log, after, error)
    ensures var steps := Flatten(ops);
            && (error == None <==> NoneFails(c.replies, steps))
            && (error.Some? ==>
                  exists k: nat :: k < |steps| && FailsAt(c.replies, steps, k) && Means(c.replies(k), error.value)
                    && forall j :: 0 <= j < k ==> !FailsAt(c.replies, steps, j))
  {
    hide Flatten, Fill, Has, FirstError, LogTo, FailedLog, AllMove, Fails, StepError, Means;
    var steps := Flatten(ops);
    var k := FirstError(c.replies, steps, 0);
    FirstErrorFails(c.replies, steps, 0);
    if k < |steps| {
      ReplyFails(c.replies(k), steps[k].Receive?);
      assert FailsAt(c.replies, steps, k) && Means(c.replies(k), error.value);
    }
  }

  // ----- What is stored

  lemma {:induction false} ReceivesGrow(steps: seq<Step>, k: nat, n: nat)
    requires k <= n <= |steps|
    ensures ReceivesTo(steps, k) <= ReceivesTo(steps, n)
  {
    if k < n { ReceivesGrow(steps, k, n - 1); }
  }

  /** After a transaction without error every byte of every read buffer is the next one received. */
  lemma EveryByteStored(c: Controller, address: byte, ops: seq<Operation>, log: seq<Access>, after: seq<Operation>,
                        i: nat, j: nat)
    requires Started(c, address, ops, log, after, None) && i < |ops| && ops[i].Read? && j < |ops[i].buffer|
    ensures |after| == |ops| && after[i].Read? && |after[i].buffer| == |ops[i].buffer|
    ensures after[i].buffer[j] == c.received(ReadsTo(ops, i) + j)
  {
    hide Flatten, Fill, Has, FirstError, LogTo, FailedLog, AllMove, ReceivesTo, ReadsTo, StepError;
    var steps := Flatten(ops);
    var n := ReceivesTo(steps, |steps|);
    FirstErrorFails(c.replies, steps, 0);
    if FirstError(c.replies, steps, 0) < |steps| {
      ReplyFails(c.replies(FirstError(c.replies, steps, 0)), steps[FirstError(c.replies, steps, 0)].Receive?);
    }
    FillAt(ops, Got(c.received, n), i, j);
    ReceivesFlatten(ops, i, j + 1);
    ReceivesGrow(steps, Offset(ops, i) + j + 1, |steps|);
  }

  // ----- Runs without trouble

  /** No fault, no lost arbitration, and no NACK of the address. */
  ghost predicate Quiet(replies: nat -> Reply, n: nat) {
    forall k: nat :: k < n ==>
      replies(k).Status? && !Has(replies(k).word, CSTA_ARBLST)
      && !(Has(replies(k).word, CSTA_ERR) && Has(replies(k).word, CSTA_ADRACKN))
  }

  /** Then a transaction fails only at a byte that was sent, and with `DataNack`; a transaction of reads succeeds,
      although the last byte of each run is answered with the controller's own NACK. */
  lemma QuietRuns(c: Controller, address: byte, ops: seq<Operation>, log: seq<Access>, after: seq<Operation>,
                  error: Option<Error>)
    requires Started(c, address, ops, log, after, error) && Quiet(c.replies, |Flatten(ops)|)
    ensures error == None || error == Some(DataNack)
    ensures var steps := Flatten(ops);
            error == None <==>
              forall k: nat :: k < |steps| && Has(c.replies(k).word, CSTA_ERR) ==> steps[k].Receive?
    ensures (forall op :: op in ops ==> op.Read?) ==> error == None
  {
    hide Flatten, Has, AllMove, Outcome;
    var steps := Flatten(ops);
    RepliesDecide(c, address, ops, log, after, error);
    forall k: nat | k < |steps|
      ensures FailsAt(c.replies, steps, k) <==> Has(c.replies(k).word, CSTA_ERR) && steps[k].Send?
    {}
    if forall op :: op in ops ==> op.Read? {
      forall k: nat | k < |steps| ensures steps[k].Receive? { ReadsReceive(ops, k); }
    }
  }

  lemma {:induction false} ReadsReceive(ops: seq<Operation>, k: nat)
    requires (forall op :: op in ops ==> op.Read?) && k < |Flatten(ops)|
    ensures Flatten(ops)[k].Receive?
  {
    var n := |ops| - 1;
    if k < |Flatten(ops[..n])| { ReadsReceive(ops[..n], k); }
  }

  /** And when no status has an error at all, the bus sees what the operations stand for. */
  lemma CleanRuns(c: Controller, address: byte, ops: seq<Operation>, log: seq<Access>, after: seq<Operation>,
                  error: Option<Error>)
    requires Started(c, address, ops, log, after, error) && Quiet(c.replies, |Flatten(ops)|)
    requires forall k: nat :: k < |Flatten(ops)| ==> !Has(c.replies(k).word, CSTA_ERR)
    ensures error == None && OnBus(RESET, log) == CleanBus(address, ops) == Wire(address, Flatten(ops))
  {
    hide Flatten, Has, AllMove, Fill, FirstError, LogTo, FailedLog, OnBus, StepError;
    var steps := Flatten(ops);
    QuietRuns(c, address, ops, log, after, error);
    FirstErrorFails(c.replies, steps, 0);
    StepsNotEmpty(ops);
    LogOnBus(address, steps, |steps|);
  }

  lemma StepsNotEmpty(ops: seq<Operation>)
    requires ops != [] && AllMove(ops)
    ensures |Flatten(ops)| > 0
  {
    FlattenAt(ops, 0, 0);
  }
}
