/** The telnet transport as the driver sees it: every operation (connect,
    read up to a delimiter, write) either answers or fails. What the
    instrument and the network answer is a script given in advance; the
    link plays it back, one reply per operation, and logs the operations. */
module Telnet {
  import opened Outcomes

  /** The operations the driver performs on a session. */
  datatype Op = Open(host: string, port: int) | ReadUntil(delimiter: char) | Write(data: string)

  /** The answer to one operation: the bytes it returned (what a read got;
      nothing for a connect or a write), or a failure. */
  datatype Reply = Done(data: string) | Failed

  /** The k-th operation of the script gets an answer. Past the end of the
      script every operation fails, as on a closed connection. */
  predicate Answered(script: seq<Reply>, k: nat) {
    k < |script| && script[k].Done?
  }

  /** What the k-th operation returns or raises. */
  function Answer(script: seq<Reply>, k: nat): (r: Outcome<string>)
    ensures r.Returned? <==> Answered(script, k)
    ensures r.Raised? ==> r.error == TransportFault
    ensures r.Returned? ==> r.value == script[k].data
  {
    if Answered(script, k) then Returned(script[k].data) else Raised(TransportFault)
  }

  /** Operations i to j - 1 all get an answer. */
  predicate Completes(script: seq<Reply>, i: nat, j: int) {
    forall k :: i <= k < j ==> Answered(script, k)
  }

  /** Where a run of operations i to m - 1 stops when it gives up at the
      first failure: after all of them, or just after the first one that
      failed. */
  function Reached(script: seq<Reply>, i: nat, m: nat): (e: nat)
    requires i <= m
    ensures i <= e <= m
    ensures Completes(script, i, m) ==> e == m
    decreases m - i
  {
    if i == m then m
    else if !Answered(script, i) then i + 1
    else Reached(script, i + 1, m)
  }

  /** A run that does not complete stops just after its first failure:
      every operation before that one answered. */
  lemma {:induction false} ReachedStopsAtFirstFailure(script: seq<Reply>, i: nat, m: nat)
    requires i <= m && !Completes(script, i, m)
    ensures var e := Reached(script, i, m);
            i < e && !Answered(script, e - 1) && Completes(script, i, e - 1)
    decreases m - i
  {
    if Answered(script, i) {
      assert !Completes(script, i + 1, m);
      ReachedStopsAtFirstFailure(script, i + 1, m);
    }
  }

  /** A run of the n operations from c that gives up at the first failure
      stops at e: after all of them when all answered, otherwise just after
      the one that failed. */
  predicate StopsAt(script: seq<Reply>, c: nat, n: nat, e: nat) {
    && c <= e <= c + n
    && if Completes(script, c, e) then e == c + n else Completes(script, c, e - 1)
  }

  /** The stop position is the one the step-by-step run reaches. */
  lemma StopsWhereReached(script: seq<Reply>, c: nat, n: nat, e: nat)
    ensures StopsAt(script, c, n, e) <==> e == Reached(script, c, c + n)
  {
    if !Completes(script, c, c + n) {
      ReachedStopsAtFirstFailure(script, c, c + n);
    }
  }

  /** Operations i to m - 1 all answer exactly when i to j - 1 and j to
      m - 1 do. */
  lemma CompletesSplits(script: seq<Reply>, i: nat, j: nat, m: nat)
    requires i <= j <= m
    ensures Completes(script, i, m) <==> Completes(script, i, j) && Completes(script, j, m)
  {
  }

  /** Starting at position c with the log `log0`, the operations `ops` were
      performed in order up to the first that failed, which left the link
      at `cursor` with the log `log`. */
  ghost predicate Ran(script: seq<Reply>, c: nat, ops: seq<Op>, cursor: nat, log0: seq<Op>, log: seq<Op>) {
    && StopsAt(script, c, |ops|, cursor)
    && log == log0 + ops[..cursor - c]
  }

  /** The n operations from c all answered, the last one with `data`. */
  predicate LastReply(script: seq<Reply>, c: nat, n: nat, data: string) {
    n >= 1 && Completes(script, c, c + n) && Answered(script, c + n - 1) && script[c + n - 1].data == data
  }

  /** Performing the k-th of `ops` once the ones before it answered: the
      log grows by that operation, and a failure there ends the run. */
  lemma RanStep(script: seq<Reply>, c: nat, ops: seq<Op>, k: nat, log0: seq<Op>)
    requires k < |ops| && Completes(script, c, c + k)
    ensures log0 + ops[..k] + [ops[k]] == log0 + ops[..k + 1]
    ensures Answered(script, c + k) ==> Completes(script, c, c + k + 1)
    ensures !Answered(script, c + k) ==> Ran(script, c, ops, c + k + 1, log0, log0 + ops[..k + 1])
  {
    assert ops[..k] + [ops[k]] == ops[..k + 1];
  }

  /** A prefix of a joined sequence. */
  lemma PrefixOfJoin<T>(a: seq<T>, b: seq<T>, j: nat)
    requires j <= |a| + |b|
    ensures (a + b)[..j] == if j <= |a| then a[..j] else a + b[..j - |a|]
  {
  }

  /** Running `a` and then, only if all of `a` answered, running `b` is
      running `a + b`; the joined run completes when both parts do. */
  lemma RanJoins(script: seq<Reply>, c: nat, a: seq<Op>, b: seq<Op>, mid: nat, cursor: nat,
                 log0: seq<Op>, log1: seq<Op>, log: seq<Op>)
    requires Ran(script, c, a, mid, log0, log1)
    requires Completes(script, c, c + |a|) ==> Ran(script, c + |a|, b, cursor, log1, log)
    requires !Completes(script, c, c + |a|) ==> cursor == mid && log == log1
    ensures Ran(script, c, a + b, cursor, log0, log)
    ensures Completes(script, c, c + |a + b|) <==> Completes(script, c, c + |a|) && Completes(script, c + |a|, c + |a + b|)
  {
    CompletesSplits(script, c, c + |a|, c + |a + b|);
    if Completes(script, c, c + |a|) {
      assert mid == c + |a| && a[..|a|] == a;
      CompletesSplits(script, c, c + |a|, cursor);
      if !Completes(script, c, cursor) {
        CompletesSplits(script, c, c + |a|, cursor - 1);
      }
      PrefixOfJoin(a, b, cursor - c);
    } else {
      PrefixOfJoin(a, b, cursor - c);
    }
  }

  /** The connection to the instrument. */
  class Link {
    /** The replies, in the order the operations will get them. */
    const script: seq<Reply>
    /** How many operations have been performed. */
    var cursor: nat
    /** The operations performed, in order. */
    ghost var log: seq<Op>

    constructor(script: seq<Reply>)
      ensures this.script == script && cursor == 0 && log == []
    {
      this.script := script;
      cursor := 0;
      log := [];
    }

    /** Performs one operation: it gets the next reply of the script. */
    method Perform(op: Op) returns (r: Outcome<string>)
      modifies this
      ensures cursor == old(cursor) + 1
      ensures log == old(log) + [op]
      ensures r == Answer(script, old(cursor))
    {
      r := Answer(script, cursor);
      cursor := cursor + 1;
      log := log + [op];
    }
  }
}
