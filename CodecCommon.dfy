/** What the three codec classes share: the three-state life cycle of a
    WebCodecs codec and the output reorder buffer, which holds the outputs
    of a worker that finishes tasks out of order and hands them on strictly
    by sequence number. */
module CodecCommon {

  /** CodecState of webcodecs_types.h. */
  datatype CodecState = Unconfigured | Configured | Closed

  /** The build a codec runs in: macOS (`__APPLE__`), a build with the
      NVIDIA Video Codec SDK (`NVIDIA_CUDA_TOOLKIT`), or any other. */
  datatype Platform = OtherPlatform | ApplePlatform | NvidiaPlatform

  // ---------------------------------------------------------------------------
  // The run of consecutive sequence numbers

  /** The entries m[n], m[n + 1], ... up to the first number missing from m:
      what the reorder loop hands on when it is expected to release n next.
      The run stops at a gap. */
  function Run<T>(m: map<nat, T>, n: nat): (r: seq<T>)
    ensures n + |r| !in m
    decreases |m|
  {
    if n in m then [m[n]] + Run(m - {n}, n + 1) else []
  }

  /** The i-th entry of the run is the entry numbered n + i: a run holds
      consecutive numbers only. */
  lemma {:induction false} RunEntries<T>(m: map<nat, T>, n: nat, i: nat)
    requires i < |Run(m, n)|
    ensures n + i in m && Run(m, n)[i] == m[n + i]
    decreases |m|
  {
    if i > 0 {
      RunEntries(m - {n}, n + 1, i - 1);
    }
  }

  /** m without the numbers from..to - 1. */
  function Drop<T>(m: map<nat, T>, from: nat, to: nat): (r: map<nat, T>)
    ensures forall k :: k in r <==> k in m && !(from <= k < to)
    ensures forall k :: k in r ==> r[k] == m[k]
  {
    map k | k in m && !(from <= k < to) :: m[k]
  }

  /** Handing on `to` drops one more number. */
  lemma DropNext<T>(m: map<nat, T>, from: nat, to: nat)
    requires from <= to
    ensures Drop(m, from, to) - {to} == Drop(m, from, to + 1)
  {
    assert forall k :: k in Drop(m, from, to) - {to} <==> k in Drop(m, from, to + 1);
  }

  /** Dropping an empty range of numbers changes nothing. */
  lemma DropNone<T>(m: map<nat, T>, n: nat)
    ensures Drop(m, n, n) == m
  {
  }

  /** One turn of the reorder loop: handing on the entry numbered `next`
      keeps what was handed on plus what is still to come equal to the run
      the loop started from. */
  lemma ReleaseStep<T>(m0: map<nat, T>, n0: nat, pending: map<nat, T>, next: nat, emitted: seq<T>)
    requires n0 <= next && next in pending && pending == Drop(m0, n0, next)
    requires emitted + Run(pending, next) == Run(m0, n0)
    ensures pending - {next} == Drop(m0, n0, next + 1)
    ensures (emitted + [pending[next]]) + Run(pending - {next}, next + 1) == Run(m0, n0)
  {
    var e, rest := pending[next], Run(pending - {next}, next + 1);
    assert Run(pending, next) == [e] + rest;
    assert (emitted + [e]) + rest == emitted + ([e] + rest);
    DropNext(m0, n0, next);
  }

  /** Filling the gap releases the entry that arrived together with the run
      that was waiting behind it. */
  lemma {:induction false} FillingGapReleasesRun<T>(m: map<nat, T>, n: nat, e: T)
    requires n !in m
    ensures Run(m[n := e], n) == [e] + Run(m, n + 1)
  {
    var m' := m[n := e];
    assert m' - {n} == m;
  }

  /** The order the reorder buffer keeps, stated on its state: `released`
      is arrived[0], arrived[1], ... up to `next`, which has not arrived,
      and every later entry that arrived is still held in `pending`. */
  ghost predicate InOrder<T>(pending: map<nat, T>, next: nat, arrived: map<nat, T>, released: seq<T>)
  {
    next == |released| &&
    (forall i :: 0 <= i < |released| ==> i in arrived && released[i] == arrived[i]) &&
    next !in arrived &&
    (forall k :: k in arrived && k > next ==> k in pending && pending[k] == arrived[k]) &&
    (forall k :: k in pending && k >= next ==> k in arrived)
  }

  /** Storing one more entry under a number not yet handed on, and then
      handing on the run that starts at `next`, keeps the order. */
  lemma ReleaseKeepsOrder<T>(pending: map<nat, T>, next: nat, arrived: map<nat, T>, released: seq<T>,
                             sequence: nat, entry: T)
    requires InOrder(pending, next, arrived, released) && sequence >= next
    ensures var m, e := pending[sequence := entry], Run(pending[sequence := entry], next);
      InOrder(Drop(m, next, next + |e|), next + |e|, arrived[sequence := entry], released + e)
  {
    var m, a := pending[sequence := entry], arrived[sequence := entry];
    var e := Run(m, next);
    var n' := next + |e|;
    forall i | 0 <= i < |released + e|
      ensures i in a && (released + e)[i] == a[i]
    {
      if i >= |released| {
        RunEntries(m, next, i - next);
      }
    }
    assert n' in a ==> n' in m;
  }

  /** A number handed on already changes only the stale part of the buffer:
      the order is kept and nothing new is released. */
  lemma LateEntryKeepsOrder<T>(pending: map<nat, T>, next: nat, arrived: map<nat, T>, released: seq<T>,
                               sequence: nat, entry: T)
    requires InOrder(pending, next, arrived, released) && sequence < next
    ensures Run(pending[sequence := entry], next) == []
    ensures InOrder(pending[sequence := entry], next, arrived, released)
  {
  }

  // ---------------------------------------------------------------------------
  // The reorder buffer

  /** output_buffer_ and next_output_sequence_ of a codec, with handle_output.
      The ghost state records every entry that arrived in time (numbered at
      or after the next one due) and everything handed on so far. */
  class ReorderBuffer<T> {
    var pending: map<nat, T>
    var next: nat
    ghost var arrived: map<nat, T>
    ghost var released: seq<T>

    /** Outputs leave in sequence order with no gap: the k-th output handed
        on is the entry numbered k, every number below `next` has been
        handed on, `next` itself has not arrived, and every entry numbered
        above it is still held. */
    ghost predicate Valid()
      reads this
    {
      InOrder(pending, next, arrived, released)
    }

    constructor()
      ensures Valid() && pending == map[] && next == 0 && released == []
    {
      pending, next := map[], 0;
      arrived, released := map[], [];
    }

    /** reset: an empty buffer expecting number 0 again. */
    method Clear()
      modifies this
      ensures Valid() && pending == map[] && next == 0 && released == []
    {
      pending, next := map[], 0;
      arrived, released := map[], [];
    }

    /** handle_output: store the entry under its number, then hand on the
        run of consecutive entries starting at the next number due. */
    method HandleOutput(sequence: nat, entry: T) returns (emitted: seq<T>)
      requires Valid()
      modifies this
      ensures Valid()
      ensures emitted == Run(old(pending)[sequence := entry], old(next))
      ensures next == old(next) + |emitted|
      ensures pending == Drop(old(pending)[sequence := entry], old(next), next)
      ensures released == old(released) + emitted
      ensures sequence >= old(next) ==> arrived == old(arrived)[sequence := entry]
      ensures sequence < old(next) ==> arrived == old(arrived)
    {
      if sequence >= next {
        ReleaseKeepsOrder(pending, next, arrived, released, sequence, entry);
        arrived := arrived[sequence := entry];
      } else {
        LateEntryKeepsOrder(pending, next, arrived, released, sequence, entry);
      }
      emitted, pending, next := ReleaseRun(pending[sequence := entry], next);
      released := released + emitted;
    }
  }

  /** The loop of handle_output: while the next number due is held, hand
      it on and expect the one after it. Returns what was handed on, the
      buffer left behind and the next number due. */
  method ReleaseRun<T>(pending: map<nat, T>, next: nat) returns (emitted: seq<T>, rest: map<nat, T>, due: nat)
    ensures emitted == Run(pending, next)
    ensures due == next + |emitted|
    ensures rest == Drop(pending, next, due)
  {
    rest, due := pending, next;
    emitted := [];
    DropNone(pending, next);
    while due in rest
      invariant due == next + |emitted|
      invariant rest == Drop(pending, next, due)
      invariant emitted + Run(rest, due) == Run(pending, next)
      decreases |rest|
    {
      var e := rest[due];
      ReleaseStep(pending, next, rest, due, emitted);
      emitted := emitted + [e];
      rest := rest - {due};
      due := due + 1;
    }
    assert Run(rest, due) == [];
  }
}
