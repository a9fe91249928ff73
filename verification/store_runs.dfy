/** Whole runs of a metric store: any calls, with the store closed and opened again in between. */
module StoreRuns {
  import opened Bytes
  import opened SeqFacts
  import opened RawEntries
  import opened MetricLog
  import opened LogContents
  import opened Growth
  import opened MmapFile

  datatype Op =
    | Get(key: StoredMetricKey)
    | Set(key: StoredMetricKey, value: Bits, io: Io)
    | Increment(key: StoredMetricKey, amount: Bits, io: Io)
    | Reopen

  /** A call and its answer. */
  datatype Call = Call(op: Op, answer: Result<Bits>)

  type Model = map<StoredMetricKey, Bits>

  /** An absent key reads as zero. */
  function Read(m: Model, key: StoredMetricKey): Bits {
    if key in m then m[key] else ZERO
  }

  /** What a successful call answers. */
  function Expected(m: Model, op: Op, add: (Bits, Bits) -> Bits): Bits {
    match op
    case Get(key) => Read(m, key)
    case Set(_, value, _) => value
    case Increment(key, amount, _) => add(Read(m, key), amount)
    case Reopen => ZERO
  }

  predicate Updates(op: Op) {
    op.Set? || op.Increment?
  }

  /** A map under the calls that succeeded. */
  function Replay(m: Model, calls: seq<Call>, add: (Bits, Bits) -> Bits): Model {
    if calls == [] then m else
    var before, call := Replay(m, calls[..|calls| - 1], add), calls[|calls| - 1];
    if Updates(call.op) && call.answer.Ok? then before[call.op.key := Expected(before, call.op, add)] else before
  }

  /** Reading, reopening and updating a known key always succeed, updating a new one exactly if there is
      room for it; what succeeds has the right answer. */
  predicate RightAnswer(m: Model, size: Size, call: Call, add: (Bits, Bits) -> Bits) {
    && (call.answer.Ok? <==> !Updates(call.op) || call.op.key in m || RoomFor(size, call.op.key, call.op.io))
    && (call.answer.Ok? ==> call.answer.value == Expected(m, call.op, add))
  }

  /** How the file changes with a call. */
  predicate RightSize(m: Model, a: Size, call: Call, b: Size, pageSize: nat)
    requires pageSize > 0
  {
    && SoundSize(a) && SoundSize(b)
    && if Updates(call.op) then Resized(a, b, m, call.op.key, call.answer.Ok?, pageSize) else b == a
  }

  predicate SoundSize(s: Size) {
    HEADER_SIZE <= s.used <= s.len && s.used <= U32_MAX && s.used % 8 == 0
  }

  /** Every call is answered as by a map with default zero in a file of the size it has at that moment;
      `sizes[i]` is the size before call `i`. */
  predicate BehavesAsMap(m: Model, calls: seq<Call>, sizes: seq<Size>, add: (Bits, Bits) -> Bits, pageSize: nat)
    requires pageSize > 0
  {
    && |sizes| == |calls| + 1 && SoundSize(sizes[0])
    && forall i | 0 <= i < |calls| ::
         && RightAnswer(Replay(m, calls[..i], add), sizes[i], calls[i], add)
         && RightSize(Replay(m, calls[..i], add), sizes[i], calls[i], sizes[i + 1], pageSize)
  }

  lemma OneMore(m: Model, calls: seq<Call>, sizes: seq<Size>, call: Call, size: Size, add: (Bits, Bits) -> Bits, pageSize: nat)
    requires pageSize > 0 && BehavesAsMap(m, calls, sizes, add, pageSize)
    requires RightAnswer(Replay(m, calls, add), sizes[|calls|], call, add)
    requires RightSize(Replay(m, calls, add), sizes[|calls|], call, size, pageSize)
    ensures BehavesAsMap(m, calls + [call], sizes + [size], add, pageSize)
    ensures Replay(m, calls + [call], add)
         == var before := Replay(m, calls, add);
            if Updates(call.op) && call.answer.Ok? then before[call.op.key := Expected(before, call.op, add)] else before
  {
    hide Replay, RightAnswer, RightSize, SoundSize;
    var more, grown := calls + [call], sizes + [size];
    forall i | 0 <= i < |more|
      ensures RightAnswer(Replay(m, more[..i], add), grown[i], more[i], add)
      ensures RightSize(Replay(m, more[..i], add), grown[i], more[i], grown[i + 1], pageSize)
    {
      assert more[..i] == if i < |calls| then calls[..i] else calls;
    }
    ReplayLast(m, calls, call, add);
  }

  lemma ReplayLast(m: Model, calls: seq<Call>, call: Call, add: (Bits, Bits) -> Bits)
    ensures Replay(m, calls + [call], add)
         == var before := Replay(m, calls, add);
            if Updates(call.op) && call.answer.Ok? then before[call.op.key := Expected(before, call.op, add)] else before
  {
    assert (calls + [call])[..|calls|] == calls;
  }

  function Ops(calls: seq<Call>): (ops: seq<Op>)
    ensures |ops| == |calls|
  {
    seq(|calls|, i requires 0 <= i < |calls| => calls[i].op)
  }

  /** A published image is opened as it is. */
  lemma NothingToPrepare(b: seq<byte>, log: seq<Rec>, pageSize: nat)
    requires 0 < pageSize <= U32_MAX && WellFormed(b, log)
    ensures Prepared(b, pageSize) == b
  {
    EndInFile(b, log);
  }

  lemma StoreSize(b: seq<byte>, log: seq<Rec>)
    requires WellFormed(b, log)
    ensures SoundSize(Size(|b|, End(log)))
  {
    hide End, WellFormed;
    EndInFile(b, log);
    EndAligned(log);
  }

  /** One call on a store; reopening leaves a new store. */
  method Perform(store: MmapMetricStore, op: Op, add: (Bits, Bits) -> Bits) returns (next: MmapMetricStore, answer: Result<Bits>)
    requires store.Valid()
    modifies store, store.mmap
    ensures next == store || fresh(next)
    ensures next.mmap == old(store.mmap) || fresh(next.mmap)
    ensures next.Valid() && next.pageSize == store.pageSize
    ensures RightAnswer(old(store.Model()), old(store.Extent()), Call(op, answer), add)
    ensures RightSize(old(store.Model()), old(store.Extent()), Call(op, answer), next.Extent(), store.pageSize)
    ensures next.Model() == if Updates(op) && answer.Ok? then old(store.Model())[op.key := answer.value] else old(store.Model())
  {
    hide WellFormed, IndexOf, Contents, End, EntryLen, Publication, Resized, RoomFor, SoundSize;
    StoreSize(store.mmap[..], store.log);
    next := store;
    match op {
      case Get(key) => answer := store.Get(key);
      case Set(key, value, io) => answer := store.Set(key, value, io);
      case Increment(key, amount, io) => answer := store.Increment(key, amount, add, io);
      case Reopen =>
        NothingToPrepare(store.mmap[..], store.log, store.pageSize);
        var again, r := MmapMetricStore.Open(store.mmap[..], store.pageSize, true, store.log);
        next, answer := again, Ok(ZERO);
    }
    StoreSize(next.mmap[..], next.log);
  }

  /** For every sequence of calls the store behaves as a map in which absent keys are zero, in a file
      that grows as the calls demand. */
  method Run(store: MmapMetricStore, ops: seq<Op>, add: (Bits, Bits) -> Bits)
    returns (last: MmapMetricStore, calls: seq<Call>, ghost sizes: seq<Size>)
    requires store.Valid()
    modifies store, store.mmap
    ensures last.Valid() && last.pageSize == store.pageSize
    ensures last == store || fresh(last)
    ensures last.mmap == old(store.mmap) || fresh(last.mmap)
    ensures Ops(calls) == ops && BehavesAsMap(old(store.Model()), calls, sizes, add, store.pageSize)
    ensures sizes[0] == old(store.Extent()) && sizes[|calls|] == last.Extent()
    ensures last.Model() == Replay(old(store.Model()), calls, add)
  {
    hide WellFormed, IndexOf, Contents, Replay, BehavesAsMap, RightAnswer, RightSize, SoundSize, End;
    ghost var m := store.Model();
    StoreSize(store.mmap[..], store.log);
    last, calls, sizes := store, [], [store.Extent()];
    EmptyRun(m, store.Extent(), add, store.pageSize);
    for i := 0 to |ops|
      invariant last == store || fresh(last)
      invariant last.mmap == old(store.mmap) || fresh(last.mmap)
      invariant last.Valid() && last.pageSize == store.pageSize
      invariant |sizes| == |calls| + 1 == i + 1 && sizes[0] == old(store.Extent()) && sizes[i] == last.Extent()
      invariant Ops(calls) == ops[..i] && BehavesAsMap(m, calls, sizes, add, store.pageSize)
      invariant last.Model() == Replay(m, calls, add)
    {
      var answer;
      last, answer := Perform(last, ops[i], add);
      SameValue(m, calls, sizes[i], Call(ops[i], answer), add);
      OneMore(m, calls, sizes, Call(ops[i], answer), last.Extent(), add, store.pageSize);
      OpsMore(calls, Call(ops[i], answer));
      Snoc(ops, i);
      calls, sizes := calls + [Call(ops[i], answer)], sizes + [last.Extent()];
    }
    assert ops[..|ops|] == ops;
    AsManySizes(m, calls, sizes, add, store.pageSize);
  }

  lemma SameValue(m: Model, calls: seq<Call>, size: Size, call: Call, add: (Bits, Bits) -> Bits)
    requires RightAnswer(Replay(m, calls, add), size, call, add)
    ensures call.answer.Ok? ==> call.answer.value == Expected(Replay(m, calls, add), call.op, add)
  {
  }

  lemma AsManySizes(m: Model, calls: seq<Call>, sizes: seq<Size>, add: (Bits, Bits) -> Bits, pageSize: nat)
    requires pageSize > 0 && BehavesAsMap(m, calls, sizes, add, pageSize)
    ensures |sizes| == |calls| + 1
  {
  }

  lemma EmptyRun(m: Model, size: Size, add: (Bits, Bits) -> Bits, pageSize: nat)
    requires pageSize > 0 && SoundSize(size)
    ensures Ops([]) == [] && BehavesAsMap(m, [], [size], add, pageSize) && Replay(m, [], add) == m
  {
  }

  // ----- the file over a run -----

  /** Over any run, also with failures, `used` stays a multiple of 8 inside the file and never goes back,
      and the file never shrinks. */
  lemma {:induction false} SizesMonotone(m: Model, calls: seq<Call>, sizes: seq<Size>, add: (Bits, Bits) -> Bits, pageSize: nat, i: nat, j: nat)
    requires pageSize > 0 && BehavesAsMap(m, calls, sizes, add, pageSize) && i <= j < |sizes|
    ensures SoundSize(sizes[j]) && sizes[i].used <= sizes[j].used && sizes[i].len <= sizes[j].len
    decreases j - i
  {
    hide Replay, RightAnswer, EntryLen, Growable;
    if i < j {
      SizesMonotone(m, calls, sizes, add, pageSize, i, j - 1);
      assert RightSize(Replay(m, calls[..j - 1], add), sizes[j - 1], calls[j - 1], sizes[j], pageSize);
    } else if j > 0 {
      assert RightSize(Replay(m, calls[..j - 1], add), sizes[j - 1], calls[j - 1], sizes[j], pageSize);
    }
  }

  /** A run without failures is a run of publications, so the file has grown as little as doubling
      allows: at least to `2^r` times its length in `r` growths, and to less than twice what is used, plus
      a page. */
  lemma RunGrowth(m: Model, calls: seq<Call>, sizes: seq<Size>, add: (Bits, Bits) -> Bits, pageSize: nat)
    requires pageSize > 0 && BehavesAsMap(m, calls, sizes, add, pageSize)
    requires forall call <- calls :: call.answer.Ok?
    ensures Growth.Run(sizes, pageSize)
    ensures var first, last := sizes[0], sizes[|calls|];
            && Pow2(Growths(sizes)) * first.len <= last.len
            && (Growths(sizes) > 0 ==> last.len < 2 * last.used + pageSize)
            && (Growths(sizes) == 0 ==> last.len == first.len)
  {
    hide Replay, RightAnswer, EntryLen, Publication, Growths, Pow2;
    forall i | 0 < i < |sizes|
      ensures Publication(sizes[i - 1], sizes[i], pageSize)
    {
      var call := calls[i - 1];
      assert call in calls;
      assert RightSize(Replay(m, calls[..i - 1], add), sizes[i - 1], call, sizes[i], pageSize);
      PublicationSame(sizes[i - 1].len, sizes[i - 1].used, pageSize);
    }
    GrowthOverRuns(sizes, pageSize);
  }

  lemma OpsMore(calls: seq<Call>, call: Call)
    ensures Ops(calls + [call]) == Ops(calls) + [call.op]
  {
  }
}
