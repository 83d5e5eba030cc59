/** EAP fragmentation: splitting a packet into numbered fragments and collecting them in a buffer. Sequence
    numbers are 16-bit and byte counts 32-bit, and both wrap around as they do in the source. */
module EapFragment {
  import opened Base
  import Keys

  const UINT16 := 0x1_0000
  const UINT32 := 0x1_0000_0000

  datatype FragmentError = AlreadyComplete | NotFound | Overflow | Incomplete | DataAlreadyReceived

  datatype AddResult = Rejected(error: FragmentError) | MoreExpected | Payload(data: bytes)

  datatype Buffer = Buffer(seqNo: nat, total: nat, received: nat, fragments: map<nat, bytes>, complete: bool)

  const EMPTY := Buffer(0, 0, 0, map[], false)

  predicate AllPresent(b: Buffer) { forall k | 0 <= k < b.seqNo :: k in b.fragments }

  function InOrder(b: Buffer): seq<bytes>
    requires AllPresent(b)
  {
    seq(b.seqNo, k requires 0 <= k < b.seqNo => b.fragments[k])
  }

  function Reassembled(b: Buffer): AddResult {
    if !b.complete then Rejected(Incomplete)
    else if !AllPresent(b) then Rejected(NotFound)
    else Payload(Concat(InOrder(b)))
  }

  predicate Accepts(b: Buffer, seqNo: nat) { !b.complete && seqNo == b.seqNo }

  function NextSeq(seqNo: nat): nat { (seqNo + 1) % UINT16 }

  lemma NextSeqOf(n: nat)
    ensures NextSeq(n % UINT16) == (n + 1) % UINT16
  {
  }

  function Stored(b: Buffer, data: bytes): Buffer {
    b.(fragments := b.fragments[b.seqNo := data], received := (b.received + |data|) % UINT32, seqNo := NextSeq(b.seqNo))
  }

  function AddSpec(b: Buffer, seqNo: nat, data: bytes, more: bool): (Buffer, AddResult) {
    if b.complete then (b, Rejected(AlreadyComplete))
    else if seqNo != b.seqNo then (b, Rejected(NotFound))
    else
      var b' := Stored(b, data);
      if !more && b'.total > 0 && b'.received > b'.total then (b', Rejected(Overflow))
      else if !more && b'.total > 0 && b'.received < b'.total then (b', Rejected(Incomplete))
      else if !more || (b'.total > 0 && b'.received >= b'.total) then
        (b'.(complete := true), Reassembled(b'.(complete := true)))
      else (b', MoreExpected)
  }

  // ---- Every sequence of operations on a buffer ----

  datatype Op = Add(seqNo: nat, data: bytes, more: bool) | SetTotal(length: nat) | Reset

  /** The buffer together with the fragments it has accepted since it was last empty. */
  datatype History = History(buffer: Buffer, accepted: seq<bytes>)

  function Apply(h: History, op: Op): History {
    match op
    case Add(seqNo, data, more) =>
      History(AddSpec(h.buffer, seqNo, data, more).0,
              if Accepts(h.buffer, seqNo) then h.accepted + [data] else h.accepted)
    case SetTotal(length) => if h.buffer.received > 0 then h else h.(buffer := h.buffer.(total := length))
    case Reset => History(EMPTY, [])
  }

  function Run(ops: seq<Op>): History {
    if ops == [] then History(EMPTY, []) else Apply(Run(ops[..|ops| - 1]), ops[|ops| - 1])
  }

  /** How many accepted fragments lie before the last wrap of the sequence number. */
  function Wrapped(accepted: seq<bytes>): nat { |accepted| - |accepted| % UINT16 }

  ghost predicate Inv(h: History) {
    var b, q := h.buffer, Wrapped(h.accepted);
    && b.seqNo == |h.accepted| % UINT16
    && b.received == |Concat(h.accepted)| % UINT32
    && (forall k | 0 <= k < b.seqNo :: k in b.fragments && b.fragments[k] == h.accepted[q + k])
    && (forall k | k in b.fragments :: 0 <= k < UINT16 && (q == 0 ==> k < b.seqNo))
    && (q > 0 ==> forall k | 0 <= k < UINT16 :: k in b.fragments)
  }

  lemma WrappedStep(n: nat)
    ensures (n + 1) - (n + 1) % UINT16 == if n % UINT16 + 1 == UINT16 then n + 1 else n - n % UINT16
    ensures NextSeq(n % UINT16) == (n + 1) % UINT16
  {
  }

  lemma StoredKeeps(h: History, data: bytes)
    requires Inv(h)
    ensures Inv(History(Stored(h.buffer, data), h.accepted + [data]))
  {
    hide Concat;
    ConcatSnoc(h.accepted, data);
    AddedModulo(|Concat(h.accepted)|, |data|);
    WrappedStep(|h.accepted|);
  }

  lemma ConcatSnoc(parts: seq<bytes>, data: bytes)
    ensures Concat(parts + [data]) == Concat(parts) + data
  {
    assert (parts + [data])[..|parts|] == parts;
  }

  lemma AddedModulo(a: nat, b: nat)
    ensures (a % UINT32 + b) % UINT32 == (a + b) % UINT32
  {
  }

  lemma InvApply(h: History, op: Op)
    requires Inv(h)
    ensures Inv(Apply(h, op))
  {
    hide Stored, Concat, Wrapped;
    if op.Reset? { FreshInv(); }
    if op.Add? && Accepts(h.buffer, op.seqNo) {
      StoredKeeps(h, op.data);
      hide Reassembled;
      var kept := History(Stored(h.buffer, op.data), h.accepted + [op.data]);
      CompletingKeeps(kept);
      assert Apply(h, op) in {kept, kept.(buffer := kept.buffer.(complete := true))};
    }
  }

  lemma {:induction false} InvRun(ops: seq<Op>)
    ensures Inv(Run(ops))
  {
    hide Inv;
    if ops == [] {
      FreshInv();
    } else {
      InvRun(ops[..|ops| - 1]);
      InvApply(Run(ops[..|ops| - 1]), ops[|ops| - 1]);
    }
  }

  lemma FreshInv()
    ensures Inv(History(EMPTY, []))
  {
  }

  /** Below 65536 accepted fragments the buffer holds exactly those, under 0, 1, 2, ..., and the byte count
      is their total modulo 2^32. */
  lemma BufferHoldsAccepted(ops: seq<Op>)
    ensures var h := Run(ops);
            && h.buffer.seqNo == |h.accepted| % UINT16
            && h.buffer.received == |Concat(h.accepted)| % UINT32
            && (|h.accepted| < UINT16 ==>
                  && (forall k :: k in h.buffer.fragments <==> 0 <= k < |h.accepted|)
                  && forall k | 0 <= k < |h.accepted| :: h.buffer.fragments[k] == h.accepted[k])
  {
    InvRun(ops);
    hide Run, Concat;
  }

  /** A fragment out of order, or after completion, leaves no mark: whatever comes before and after it, the run
      without it ends in the same buffer. */
  lemma RejectedFragmentInvisible(before: seq<Op>, seqNo: nat, data: bytes, more: bool, after: seq<Op>)
    requires var b := Run(before).buffer; b.complete || seqNo != b.seqNo
    ensures AddSpec(Run(before).buffer, seqNo, data, more).1.Rejected?
    ensures Run(before + [Add(seqNo, data, more)] + after) == Run(before + after)
  {
    var add := Add(seqNo, data, more);
    RunSplit(before + [add], after);
    RunSplit(before, after);
    RunSnoc(before, add);
    hide Run, Resume;
  }

  /** Going on from a history. */
  function Resume(h: History, ops: seq<Op>): History {
    if ops == [] then h else Apply(Resume(h, ops[..|ops| - 1]), ops[|ops| - 1])
  }

  lemma RunSnoc(ops: seq<Op>, op: Op)
    ensures Run(ops + [op]) == Apply(Run(ops), op)
  {
    hide Apply;
    assert (ops + [op])[..|ops|] == ops;
  }

  lemma {:induction false} RunSplit(before: seq<Op>, after: seq<Op>)
    ensures Run(before + after) == Resume(Run(before), after)
  {
    hide Apply;
    if after == [] {
      assert before + after == before;
    } else {
      var n := |after| - 1;
      RunSplit(before, after[..n]);
      assert (before + after)[..|before| + n] == before + after[..n];
    }
  }

  lemma InOrderIsTail(h: History)
    requires Inv(h)
    ensures AllPresent(h.buffer) && InOrder(h.buffer) == h.accepted[Wrapped(h.accepted)..]
  {
    hide Concat;
  }

  /** What completing the buffer with one more fragment returns. */
  lemma CompletedPayload(h: History, data: bytes)
    requires Inv(h)
    ensures var acc := h.accepted + [data];
            Reassembled(Stored(h.buffer, data).(complete := true)) == Payload(Concat(acc[Wrapped(acc)..]))
  {
    StoredKeeps(h, data);
    hide Stored, Concat, Inv, Wrapped;
    var kept := History(Stored(h.buffer, data), h.accepted + [data]);
    CompletingKeeps(kept);
    InOrderIsTail(kept.(buffer := kept.buffer.(complete := true)));
  }

  lemma CompletingKeeps(h: History)
    requires Inv(h)
    ensures Inv(h.(buffer := h.buffer.(complete := true)))
  {
    hide Concat, Wrapped;
  }

  /** A payload that any Add returns is the in-order concatenation of the accepted fragments since the last
      wrap of the sequence number... */
  lemma PayloadIsTail(ops: seq<Op>, seqNo: nat, data: bytes, more: bool)
    requires AddSpec(Run(ops).buffer, seqNo, data, more).1.Payload?
    ensures Accepts(Run(ops).buffer, seqNo)
    ensures var acc := Run(ops).accepted + [data];
            AddSpec(Run(ops).buffer, seqNo, data, more).1 == Payload(Concat(acc[Wrapped(acc)..]))
  {
    InvRun(ops);
    CompletedPayload(Run(ops), data);
    hide Run, Concat, Inv, Reassembled;
  }

  /** ...so it is all that was accepted if and only if nothing but empty fragments came before that wrap;
      in particular whenever fewer than 65536 fragments were accepted. */
  lemma PayloadIsWholeIff(ops: seq<Op>, seqNo: nat, data: bytes, more: bool)
    requires AddSpec(Run(ops).buffer, seqNo, data, more).1.Payload?
    ensures var acc := Run(ops).accepted + [data];
            && (AddSpec(Run(ops).buffer, seqNo, data, more).1.data == Concat(acc)
                <==> Concat(acc[..Wrapped(acc)]) == [])
            && (|acc| < UINT16 ==> Concat(acc[..Wrapped(acc)]) == [])
  {
    PayloadIsTail(ops, seqNo, data, more);
    hide Run, AddSpec, Concat;
    var acc := Run(ops).accepted + [data];
    ConcatSplit(acc, Wrapped(acc));
    if |acc| < UINT16 { WrappedNothing(acc); }
  }

  lemma WrappedNothing(accepted: seq<bytes>)
    requires |accepted| < UINT16
    ensures Wrapped(accepted) == 0 && Concat(accepted[..Wrapped(accepted)]) == []
  {
  }

  /** An Add returns a payload exactly when it accepts the last fragment and the declared length, if any,
      is met, or accepts a further one and the declared length is met or exceeded. */
  lemma PayloadIff(ops: seq<Op>, seqNo: nat, data: bytes, more: bool)
    ensures var b := Run(ops).buffer;
            var got := (b.received + |data|) % UINT32;
            AddSpec(b, seqNo, data, more).1.Payload?
            <==> && Accepts(b, seqNo)
                 && (if more then b.total > 0 && got >= b.total else b.total == 0 || got == b.total)
  {
    hide Run, Inv, Reassembled, Stored, AddSpec;
    InvRun(ops);
    CompletingReturns(Run(ops), data);
    CompletesIff(Run(ops).buffer, seqNo, data, more);
  }

  lemma CompletingReturns(h: History, data: bytes)
    requires Inv(h)
    ensures Reassembled(Stored(h.buffer, data).(complete := true)).Payload?
  {
    hide Inv, Reassembled, Stored, Wrapped;
    CompletedPayload(h, data);
  }

  lemma CompletesIff(b: Buffer, seqNo: nat, data: bytes, more: bool)
    requires Reassembled(Stored(b, data).(complete := true)).Payload?
    ensures var got := (b.received + |data|) % UINT32;
            AddSpec(b, seqNo, data, more).1.Payload?
            <==> && Accepts(b, seqNo)
                 && (if more then b.total > 0 && got >= b.total else b.total == 0 || got == b.total)
  {
    hide Reassembled, NextSeq;
  }

  /** Every answer of AddFragment, exactly: rejected once complete, rejected out of order, too long or too short at the
      end, waiting, or else a payload. */
  lemma AnswersExactly(ops: seq<Op>, seqNo: nat, data: bytes, more: bool)
    ensures var b := Run(ops).buffer;
            var answer, got := AddSpec(b, seqNo, data, more).1, (b.received + |data|) % UINT32;
            && (answer == Rejected(AlreadyComplete) <==> b.complete)
            && (answer == Rejected(NotFound) <==> !b.complete && seqNo != b.seqNo)
            && (answer == Rejected(Overflow) <==> Accepts(b, seqNo) && !more && got > b.total > 0)
            && (answer == Rejected(Incomplete) <==> Accepts(b, seqNo) && !more && got < b.total)
            && (answer == MoreExpected <==> Accepts(b, seqNo) && more && (b.total == 0 || got < b.total))
  {
    hide Run, Inv, Reassembled, Stored, AddSpec;
    InvRun(ops);
    CompletingReturns(Run(ops), data);
    AnswersOf(Run(ops).buffer, seqNo, data, more);
  }

  lemma AnswersOf(b: Buffer, seqNo: nat, data: bytes, more: bool)
    requires Reassembled(Stored(b, data).(complete := true)).Payload?
    ensures var answer, got := AddSpec(b, seqNo, data, more).1, (b.received + |data|) % UINT32;
            && (answer == Rejected(AlreadyComplete) <==> b.complete)
            && (answer == Rejected(NotFound) <==> !b.complete && seqNo != b.seqNo)
            && (answer == Rejected(Overflow) <==> Accepts(b, seqNo) && !more && got > b.total > 0)
            && (answer == Rejected(Incomplete) <==> Accepts(b, seqNo) && !more && got < b.total)
            && (answer == MoreExpected <==> Accepts(b, seqNo) && more && (b.total == 0 || got < b.total))
  {
    hide Reassembled, NextSeq;
  }

  lemma PayloadCompletes(b: Buffer, seqNo: nat, data: bytes, more: bool)
    requires Reassembled(Stored(b, data).(complete := true)).Payload?
    ensures var add := AddSpec(b, seqNo, data, more); add.0.complete <==> b.complete || add.1.Payload?
  {
    hide Reassembled, NextSeq;
  }

  /** A buffer becomes complete exactly when it returns a payload. */
  lemma CompleteIffPayload(ops: seq<Op>, seqNo: nat, data: bytes, more: bool)
    ensures var b := Run(ops).buffer;
            var add := AddSpec(b, seqNo, data, more);
            add.0.complete <==> b.complete || add.1.Payload?
  {
    hide Run, Inv, Reassembled, Stored, AddSpec;
    InvRun(ops);
    CompletingReturns(Run(ops), data);
    PayloadCompletes(Run(ops).buffer, seqNo, data, more);
  }

  /** Once a fragment has made the buffer return a payload, every further one is rejected as long as the buffer is not
      reset. */
  lemma CompleteUntilReset(ops: seq<Op>, add: Op, after: seq<Op>, seqNo: nat, data: bytes, more: bool)
    requires add.Add? && AddSpec(Run(ops).buffer, add.seqNo, add.data, add.more).1.Payload?
    requires forall i | 0 <= i < |after| :: !after[i].Reset?
    ensures var b := Run(ops + [add] + after).buffer;
            b.complete && AddSpec(b, seqNo, data, more).1 == Rejected(AlreadyComplete)
  {
    RunSnoc(ops, add);
    CompleteIffPayload(ops, add.seqNo, add.data, add.more);
    RunSplit(ops + [add], after);
    StaysComplete(Run(ops + [add]), after);
    hide Run, Resume;
  }

  lemma {:induction false} StaysComplete(h: History, after: seq<Op>)
    requires h.buffer.complete && forall i | 0 <= i < |after| :: !after[i].Reset?
    ensures Resume(h, after).buffer.complete
  {
    if after != [] { StaysComplete(h, after[..|after| - 1]); }
  }

  /** Asked to reassemble at any time, the buffer refuses exactly until it is complete. */
  lemma ReassemblesIffComplete(ops: seq<Op>)
    ensures var h := Run(ops);
            Reassembled(h.buffer) == if h.buffer.complete then Payload(Concat(h.accepted[Wrapped(h.accepted)..]))
                                     else Rejected(Incomplete)
  {
    InvRun(ops);
    InOrderIsTail(Run(ops));
    hide Run, Inv, Concat, Wrapped;
  }

  /** Declaring a length counts exactly while nothing has been received, and a reset buffer is a new one. */
  lemma OtherOperations(ops: seq<Op>, length: nat)
    ensures var b := Run(ops).buffer;
            Run(ops + [SetTotal(length)]).buffer == if b.received == 0 then b.(total := length) else b
    ensures Run(ops + [Reset]) == Run([])
  {
    RunSnoc(ops, SetTotal(length));
    RunSnoc(ops, Reset);
    assert Run([]) == History(EMPTY, []);
    hide Run;
  }

  // ---- Splitting and feeding the result back ----

  datatype Fragment = Fragment(seqNo: nat, data: bytes, more: bool)

  /** The first fragments out of `n`. */
  function Tagged(parts: seq<bytes>, n: nat): seq<Fragment> {
    seq(|parts|, i requires 0 <= i < |parts| => Fragment(i % UINT16, parts[i], i + 1 < n))
  }

  function Numbered(parts: seq<bytes>): seq<Fragment> { Tagged(parts, |parts|) }

  lemma TaggedNext(parts: seq<bytes>, k: nat, n: nat)
    requires k < |parts|
    ensures Tagged(parts[..k + 1], n) == Tagged(parts[..k], n) + [Fragment(k % UINT16, parts[k], k + 1 < n)]
  {
  }

  lemma TaggedEnds(packet: bytes, maxSize: int)
    requires maxSize >= 1 || |packet| <= maxSize
    ensures Tagged(Chunks(packet, maxSize)[..0], |Chunks(packet, maxSize)|) == []
    ensures |packet| <= maxSize ==> Numbered(Chunks(packet, maxSize)) == [Fragment(0, packet, false)]
  {
  }

  /** SplitPacket: the chunks of the packet, numbered modulo 2^16, all but the last announcing more. A
      positive size is needed as soon as there is something to cut; nothing is cut into no fragments by a
      negative one. */
  method SplitPacket(packet: bytes, maxSize: int) returns (frags: seq<Fragment>)
    requires maxSize >= 1 || |packet| <= maxSize || packet == []
    ensures maxSize >= 1 || |packet| <= maxSize ==> frags == Numbered(Chunks(packet, maxSize))
    ensures maxSize < 0 ==> frags == []
  {
    hide Chunks, Tagged, ChunksLeft, NextSeq;
    if maxSize >= 1 || |packet| <= maxSize { TaggedEnds(packet, maxSize); }
    if |packet| <= maxSize {
      return [Fragment(0, packet, false)];
    }
    ghost var parts, k := if packet == [] then [] else Chunks(packet, maxSize), 0;
    if packet != [] { NothingCut(packet, maxSize); }
    frags := [];
    var remaining, offset, seqNo := |packet|, 0, 0;
    while remaining > 0
      invariant 0 <= remaining && offset + remaining == |packet|
      invariant k <= |parts| && seqNo == k % UINT16
      invariant packet != [] ==> parts[k..] == ChunksLeft(packet, maxSize, offset)
      invariant remaining == 0 ==> k == |parts|
      invariant if packet == [] then frags == [] else frags == Tagged(parts[..k], |parts|)
    {
      var size := maxSize;
      if size > remaining {
        size := remaining;
      }
      var moreComing := remaining - size > 0;
      NextSeqOf(k);
      CutOne(packet, maxSize, offset, k);
      AllCut(packet, maxSize, offset + size);
      TaggedNext(parts, k, |parts|);
      frags := frags + [Fragment(seqNo, packet[offset..offset + size], moreComing)];
      offset := offset + size;
      remaining := remaining - size;
      seqNo := NextSeq(seqNo);
      k := k + 1;
    }
    assert parts[..k] == parts;
  }

  /** The operations that feed fragments to a buffer, after the declared length if there is one. */
  function Feed(declared: Option<nat>, frags: seq<Fragment>): seq<Op> {
    (if declared.Some? then [SetTotal(declared.value)] else [])
    + seq(|frags|, i requires 0 <= i < |frags| => Add(frags[i].seqNo, frags[i].data, frags[i].more))
  }

  ghost predicate Honest(packet: bytes, declared: Option<nat>) {
    declared.Some? ==> declared.value == |packet| < UINT32
  }

  /** Taking in one more fragment when what has arrived stays below the declared length, if any. */
  lemma FeedStep(h: History, parts: seq<bytes>, n: nat)
    requires Inv(h) && 0 < n < |parts| && h.accepted == parts[..n - 1] && !h.buffer.complete
    requires h.buffer.total > 0 ==> |Concat(parts[..n])| < h.buffer.total < UINT32
    ensures var add := AddSpec(h.buffer, (n - 1) % UINT16, parts[n - 1], true);
            && add.1 == MoreExpected && !add.0.complete && add.0.total == h.buffer.total
            && Apply(h, Add((n - 1) % UINT16, parts[n - 1], true)) == History(add.0, parts[..n])
  {
    hide Concat, Inv, Wrapped, NextSeq, Reassembled;
    var data := parts[n - 1];
    StoredKeeps(h, data);
    assert parts[..n] == parts[..n - 1] + [data];
    InvCounts(h);
    InvCounts(History(Stored(h.buffer, data), h.accepted + [data]));
  }

  lemma InvCounts(h: History)
    requires Inv(h)
    ensures h.buffer.seqNo == |h.accepted| % UINT16 && h.buffer.received == |Concat(h.accepted)| % UINT32
  {
    hide Concat, Wrapped;
  }

  lemma {:induction false} FeedPrefix(packet: bytes, maxSize: int, declared: Option<nat>, n: nat)
    requires maxSize >= 1 || |packet| <= maxSize
    requires Honest(packet, declared) && n < |Chunks(packet, maxSize)|
    ensures var parts := Chunks(packet, maxSize);
            var h := Run(Feed(declared, Numbered(parts)[..n]));
            && h.accepted == parts[..n] && !h.buffer.complete
            && h.buffer.total == if declared.Some? then declared.value else 0
  {
    hide Inv, AddSpec, Chunks, Concat, Feed;
    var parts := Chunks(packet, maxSize);
    var frags := Numbered(parts);
    if n == 0 {
      FeedNothing(declared, frags[..0]);
    } else {
      FeedPrefix(packet, maxSize, declared, n - 1);
      FeedOneMore(declared, frags, n);
      var before := Feed(declared, frags[..n - 1]);
      InvRun(before);
      PrefixShorter(packet, maxSize, n);
      FeedStep(Run(before), parts, n);
      hide Apply;
    }
  }

  lemma FeedNothing(declared: Option<nat>, frags: seq<Fragment>)
    requires frags == []
    ensures Run(Feed(declared, frags)) == History(EMPTY.(total := if declared.Some? then declared.value else 0), [])
  {
    var ops := Feed(declared, frags);
    assert Run([]) == History(EMPTY, []);
    if declared.Some? { assert ops == [SetTotal(declared.value)] && ops[..0] == []; }
  }

  lemma FeedOneMore(declared: Option<nat>, frags: seq<Fragment>, n: nat)
    requires 0 < n <= |frags|
    ensures var last := frags[n - 1];
            Run(Feed(declared, frags[..n])) == Apply(Run(Feed(declared, frags[..n - 1])), Add(last.seqNo, last.data, last.more))
  {
    var ops := Feed(declared, frags[..n]);
    assert ops[..|ops| - 1] == Feed(declared, frags[..n - 1]);
    assert ops[|ops| - 1] == Add(frags[n - 1].seqNo, frags[n - 1].data, frags[n - 1].more);
    hide Apply;
  }

  /** Fewer than all chunks hold fewer than all bytes, unless there are none. */
  lemma PrefixShorter(packet: bytes, maxSize: int, n: nat)
    requires maxSize >= 1 || |packet| <= maxSize
    requires n < |Chunks(packet, maxSize)|
    ensures packet != [] ==> |Concat(Chunks(packet, maxSize)[..n])| < |packet|
    ensures packet == [] ==> |Chunks(packet, maxSize)| == 1
  {
    var parts := Chunks(packet, maxSize);
    ChunksJoin(packet, maxSize);
    ConcatSplit(parts, n);
    ConcatSplit(parts[n..], 1);
    ConcatOne(parts[n]);
    assert parts[n..][..1] == [parts[n]];
  }

  /** What the buffer answers to fragment `n` after all the fragments before it. */
  function Answer(declared: Option<nat>, frags: seq<Fragment>, n: nat): AddResult
    requires n < |frags|
  {
    AddSpec(Run(Feed(declared, frags[..n])).buffer, frags[n].seqNo, frags[n].data, frags[n].more).1
  }

  /** Every fragment of a split packet but the last is taken in silence, with or without the true length
      declared, and the last one makes the buffer return a payload. That payload is the packet if and only
      if there are at most 65535 fragments. */
  lemma SplitThenReassemble(packet: bytes, maxSize: int, declared: Option<nat>)
    requires maxSize >= 1 || |packet| <= maxSize
    requires Honest(packet, declared)
    ensures var frags := Numbered(Chunks(packet, maxSize));
            && (forall n | 0 <= n < |frags| - 1 :: Answer(declared, frags, n) == MoreExpected)
            && var last := Answer(declared, frags, |frags| - 1);
               last.Payload? && (last.data == packet <==> |frags| < UINT16)
  {
    hide Answer, Chunks;
    var frags := Numbered(Chunks(packet, maxSize));
    forall n | 0 <= n < |frags| - 1 ensures Answer(declared, frags, n) == MoreExpected {
      OneMore(packet, maxSize, declared, n);
    }
    LastIsPayload(packet, maxSize, declared);
    LastIsWhole(packet, maxSize, declared);
  }

  lemma OneMore(packet: bytes, maxSize: int, declared: Option<nat>, n: nat)
    requires maxSize >= 1 || |packet| <= maxSize
    requires Honest(packet, declared) && n + 1 < |Chunks(packet, maxSize)|
    ensures Answer(declared, Numbered(Chunks(packet, maxSize)), n) == MoreExpected
  {
    hide Inv, AddSpec, Chunks, Concat, Run, Feed;
    var parts := Chunks(packet, maxSize);
    FeedPrefix(packet, maxSize, declared, n);
    InvRun(Feed(declared, Numbered(parts)[..n]));
    PrefixShorter(packet, maxSize, n + 1);
    FeedStep(Run(Feed(declared, Numbered(parts)[..n])), parts, n + 1);
  }

  lemma LastIsPayload(packet: bytes, maxSize: int, declared: Option<nat>)
    requires maxSize >= 1 || |packet| <= maxSize
    requires Honest(packet, declared)
    ensures var parts := Chunks(packet, maxSize);
            Answer(declared, Numbered(parts), |parts| - 1).Payload?
  {
    hide AddSpec, Chunks, Run, Feed;
    var parts := Chunks(packet, maxSize);
    var last := |parts| - 1;
    var ops := Feed(declared, Numbered(parts)[..last]);
    FeedPrefix(packet, maxSize, declared, last);
    BufferHoldsAccepted(ops);
    ChunksJoin(packet, maxSize);
    assert |Concat(parts)| == |Concat(parts[..last])| + |parts[last]|;
    PayloadIff(ops, last % UINT16, parts[last], false);
  }

  lemma LastIsWhole(packet: bytes, maxSize: int, declared: Option<nat>)
    requires maxSize >= 1 || |packet| <= maxSize
    requires Honest(packet, declared)
    requires var parts := Chunks(packet, maxSize); Answer(declared, Numbered(parts), |parts| - 1).Payload?
    ensures var parts := Chunks(packet, maxSize);
            Answer(declared, Numbered(parts), |parts| - 1).data == packet <==> |parts| < UINT16
  {
    hide AddSpec, Chunks, Run, Concat, Feed, Wrapped;
    var parts := Chunks(packet, maxSize);
    var last := |parts| - 1;
    var ops := Feed(declared, Numbered(parts)[..last]);
    FeedPrefix(packet, maxSize, declared, last);
    assert Run(ops).accepted + [parts[last]] == parts;
    PayloadIsWholeIff(ops, last % UINT16, parts[last], false);
    ChunksJoin(packet, maxSize);
    if |parts| >= UINT16 {
      PrefixShorter(packet, maxSize, 1);
      SomethingWrapped(parts);
    }
  }

  lemma SomethingWrapped(parts: seq<bytes>)
    requires |parts| >= UINT16 && forall i | 0 <= i < |parts| :: parts[i] != []
    ensures Concat(parts[..Wrapped(parts)]) != []
  {
    var q := Wrapped(parts);
    assert 0 < q <= |parts| && parts[..q][q - 1] == parts[q - 1];
  }

  // ---- The buffer and its manager as they run ----

  class FragmentBuffer {
    const authCtxID: string
    const expectedID: byte
    var seqNo: nat
    var total: nat
    var received: nat
    var fragments: map<nat, bytes>
    var complete: bool
    var createdAt: int

    ghost function View(): Buffer
      reads this
    {
      Buffer(seqNo, total, received, fragments, complete)
    }

    constructor (authCtxID: string, id: byte, now: int)
      ensures View() == EMPTY && this.authCtxID == authCtxID && this.expectedID == id && createdAt == now
    {
      this.authCtxID, this.expectedID := authCtxID, id;
      seqNo, total, received, fragments, complete, createdAt := 0, 0, 0, map[], false, now;
    }

    method AddFragment(seqNo: nat, data: bytes, more: bool) returns (r: AddResult)
      modifies this
      ensures (View(), r) == AddSpec(old(View()), seqNo, data, more) && createdAt == old(createdAt)
    {
      if complete {
        return Rejected(AlreadyComplete);
      }
      if seqNo != this.seqNo {
        return Rejected(NotFound);
      }
      fragments := fragments[this.seqNo := data];
      received := (received + |data|) % UINT32;
      this.seqNo := NextSeq(this.seqNo);
      if !more {
        if total > 0 {
          if received > total {
            return Rejected(Overflow);
          }
          if received < total {
            return Rejected(Incomplete);
          }
        }
        complete := true;
        r := Reassemble();
        return;
      }
      if total > 0 && received >= total {
        complete := true;
        r := Reassemble();
        return;
      }
      return MoreExpected;
    }

    method SetTotalLength(length: nat) returns (ok: bool)
      modifies this
      ensures ok == (old(received) == 0)
      ensures View() == if ok then old(View()).(total := length) else old(View())
    {
      if received > 0 {
        return false;
      }
      total := length;
      return true;
    }

    method Reassemble() returns (r: AddResult)
      ensures r == Reassembled(View())
    {
      if !complete {
        return Rejected(Incomplete);
      }
      for k := 0 to seqNo
        invariant forall i | 0 <= i < k :: i in fragments
      {
        if k !in fragments {
          return Rejected(NotFound);
        }
      }
      var result := [];
      for k := 0 to seqNo
        invariant result == Concat(InOrder(View())[..k])
      {
        assert InOrder(View())[..k + 1][..k] == InOrder(View())[..k];
        result := result + fragments[k];
      }
      assert InOrder(View())[..seqNo] == InOrder(View());
      return Payload(result);
    }

    method Reset()
      modifies this
      ensures View() == EMPTY && createdAt == old(createdAt)
    {
      seqNo, received, total, complete, fragments := 0, 0, 0, false, map[];
    }
  }

  function FragmentKey(authCtxID: string, id: byte): string { Keys.Join(authCtxID, Keys.Decimal(id)) }

  class FragmentManager {
    var buffers: map<string, FragmentBuffer>
    const maxAge: int

    /** Every buffer sits under the key of its own session and identifier. */
    ghost predicate Valid()
      reads this
    {
      forall key | key in buffers :: FragmentKey(buffers[key].authCtxID, buffers[key].expectedID) == key
    }

    constructor (ttlSeconds: int)
      ensures Valid() && buffers == map[] && maxAge == ttlSeconds
    {
      buffers, maxAge := map[], ttlSeconds;
    }

    /** The buffer handed out is that of the session and identifier asked for and of no other pair. */
    method GetOrCreate(authCtxID: string, id: byte, now: int) returns (b: FragmentBuffer, created: bool)
      requires Valid()
      modifies this
      ensures Valid() && b.authCtxID == authCtxID && b.expectedID == id
      ensures created <==> FragmentKey(authCtxID, id) !in old(buffers)
      ensures created ==> fresh(b) && b.View() == EMPTY
      ensures buffers == old(buffers)[FragmentKey(authCtxID, id) := b]
    {
      var key := FragmentKey(authCtxID, id);
      if key in buffers {
        b := buffers[key];
        Keys.DecimalKeyInjective(b.authCtxID, b.expectedID, authCtxID, id);
        return b, false;
      }
      b := new FragmentBuffer(authCtxID, id, now);
      buffers := buffers[key := b];
      return b, true;
    }

    method Delete(authCtxID: string, id: byte)
      requires Valid()
      modifies this
      ensures Valid() && buffers == old(buffers) - {FragmentKey(authCtxID, id)}
    {
      buffers := buffers - {FragmentKey(authCtxID, id)};
    }
  }

  /** Different sessions or identifiers have different keys, so they never share a buffer. */
  lemma KeysAreDistinct(a1: string, id1: byte, a2: string, id2: byte)
    requires (a1, id1) != (a2, id2)
    ensures FragmentKey(a1, id1) != FragmentKey(a2, id2)
  {
    if FragmentKey(a1, id1) == FragmentKey(a2, id2) {
      Keys.DecimalKeyInjective(a1, id1, a2, id2);
    }
  }
}
