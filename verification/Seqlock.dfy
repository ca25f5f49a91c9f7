/** The sequence lock of urw.h, as atomic steps of serialized writers and any number of readers. */
module Seqlock {
  import opened Words

  /** Two increments a write: this many writes bring the 32-bit sequence back. */
  const HALF := 0x8000_0000

  /** Outside a read block, in the load loop of __try_read_start, or in the block's body. */
  datatype Phase = Outside | Loading | InBody

  /** One accepted pass: what was copied, and the number of sequence increments that had
      happened at the token load and at the recheck. */
  datatype Pass = Pass(snapshot: map<nat, int>, from: nat, to: nat)

  /** urwstate_t of a reader with its position in the macro's loop; loadedAt and accepted
      record history and are read by no step. */
  datatype Reader = Reader(phase: Phase, token: nat, dirty: bool, snapshot: map<nat, int>,
                           loadedAt: nat, accepted: seq<Pass>)

  /** sequence and fields are the shared memory, writing is the current writer's dirty flag;
      ticks (increments so far) and history (values published so far) record history. */
  datatype State = State(sequence: nat, fields: seq<int>, writing: bool, readers: seq<Reader>,
                         ticks: nat, history: seq<seq<int>>)

  datatype Step =
    | WriteStart
    | WriteField(i: nat, v: int)
    | WriteEnd
    | ReadBegin(r: nat)
    | ReadStart(r: nat)
    | ReadField(r: nat, i: nat)
    | ReadEnd(r: nat)

  predicate Writes(step: Step) { step.WriteStart? || step.WriteField? || step.WriteEnd? }

  /** Writers are serialized by the caller: one starts only when none is inside. */
  predicate Enabled(s: State, step: Step) {
    match step
    case WriteStart => !s.writing
    case WriteField(i, _) => s.writing && i < |s.fields|
    case WriteEnd => s.writing
    case ReadBegin(r) => r < |s.readers| && s.readers[r].phase.Outside?
    case ReadStart(r) => r < |s.readers| && s.readers[r].phase.Loading?
    case ReadField(r, i) => r < |s.readers| && s.readers[r].phase.InBody? && i < |s.fields|
    case ReadEnd(r) => r < |s.readers| && s.readers[r].phase.InBody?
  }

  /** __try_read_start: one look at the sequence; an odd value means try again. */
  function TryReadStart(s: State, reader: Reader): Reader {
    if s.sequence % 2 == 1 then reader
    else reader.(phase := InBody, token := s.sequence, dirty := true, snapshot := map[], loadedAt := s.ticks)
  }

  /** __try_read_end: a changed sequence restarts the pass, an unchanged one accepts it. */
  function TryReadEnd(s: State, reader: Reader): Reader {
    if s.sequence != reader.token then reader.(phase := Loading)
    else reader.(phase := Outside, dirty := false,
                 accepted := reader.accepted + [Pass(reader.snapshot, reader.loadedAt, s.ticks)])
  }

  function Apply(s: State, step: Step): State
    requires Enabled(s, step)
  {
    match step
    case WriteStart => s.(sequence := (s.sequence + 1) % WORD, writing := true, ticks := s.ticks + 1)
    case WriteField(i, v) => s.(fields := s.fields[i := v])
    case WriteEnd =>
      s.(writing := false, sequence := (s.sequence + 1) % WORD, ticks := s.ticks + 1,
         history := s.history + [s.fields])
    case ReadBegin(r) => s.(readers := s.readers[r := s.readers[r].(phase := Loading)])
    case ReadStart(r) => s.(readers := s.readers[r := TryReadStart(s, s.readers[r])])
    case ReadField(r, i) =>
      var reader := s.readers[r];
      s.(readers := s.readers[r := reader.(snapshot := reader.snapshot[i := s.fields[i]])])
    case ReadEnd(r) => s.(readers := s.readers[r := TryReadEnd(s, s.readers[r])])
  }

  ghost predicate Init(s: State) {
    && s.sequence == 0 && s.ticks == 0 && !s.writing
    && s.history == [s.fields]
    && forall r | 0 <= r < |s.readers| :: s.readers[r].phase.Outside? && s.readers[r].accepted == []
  }

  /** steps leads from s to t. */
  ghost predicate Runs(s: State, steps: seq<Step>, t: State)
    decreases |steps|
  {
    if steps == [] then s == t
    else Enabled(s, steps[0]) && Runs(Apply(s, steps[0]), steps[1..], t)
  }

  // ----- the invariant -----

  /** The snapshot holds values of one published version. */
  ghost predicate FromVersion(snapshot: map<nat, int>, history: seq<seq<int>>, version: nat) {
    version < |history| && forall i | i in snapshot :: i < |history[version]| && snapshot[i] == history[version][i]
  }

  /** Writes completed during a pass. */
  function WritesDuring(p: Pass): int { p.to / 2 - p.from / 2 }

  /** An accepted pass saw the sequence move by whole wraps only; if it did not move at all
      the pass is not torn, and its version was current from the token load to the recheck. */
  ghost predicate AcceptedPass(p: Pass, history: seq<seq<int>>) {
    && p.from <= p.to && p.from % 2 == 0 && (p.to - p.from) % WORD == 0
    && (p.from == p.to ==> FromVersion(p.snapshot, history, p.from / 2))
  }

  ghost predicate ReaderInv(s: State, reader: Reader) {
    && (reader.phase.InBody? ==>
          && reader.dirty
          && reader.token == reader.loadedAt % WORD && reader.loadedAt % 2 == 0 && reader.loadedAt <= s.ticks
          && (reader.loadedAt == s.ticks ==> FromVersion(reader.snapshot, s.history, s.ticks / 2)))
    && (forall k | 0 <= k < |reader.accepted| ::
          && AcceptedPass(reader.accepted[k], s.history)
          && reader.accepted[k].to <= s.ticks
          && (reader.phase.InBody? ==> reader.accepted[k].to <= reader.loadedAt))
    && (forall k, l | 0 <= k < l < |reader.accepted| :: reader.accepted[k].to <= reader.accepted[l].from)
  }

  ghost predicate MemoryInv(s: State) {
    && s.sequence == s.ticks % WORD
    && (s.writing <==> s.ticks % 2 == 1)
    && |s.history| == s.ticks / 2 + 1
    && (!s.writing ==> s.fields == s.history[s.ticks / 2])
  }

  ghost predicate Inv(s: State) {
    MemoryInv(s) && forall r | 0 <= r < |s.readers| :: ReaderInv(s, s.readers[r])
  }

  lemma StepMemory(s: State, step: Step)
    requires MemoryInv(s) && Enabled(s, step)
    ensures MemoryInv(Apply(s, step))
  {}

  /** A writer step keeps what holds of every reader. */
  lemma WriterKeepsReader(s: State, step: Step, reader: Reader)
    requires MemoryInv(s) && Enabled(s, step) && Writes(step) && ReaderInv(s, reader)
    ensures ReaderInv(Apply(s, step), reader)
  {}

  /** Equal sequence numbers mean that the sequence moved by whole wraps, and conversely. */
  lemma RecheckExact(from: nat, to: nat)
    requires from <= to
    ensures from % WORD == to % WORD <==> (to - from) % WORD == 0
  {}

  lemma ReadEndStep(s: State, reader: Reader)
    requires MemoryInv(s) && ReaderInv(s, reader) && reader.phase.InBody?
    ensures ReaderInv(s, TryReadEnd(s, reader))
  {
    hide FromVersion;
    RecheckExact(reader.loadedAt, s.ticks);
  }

  lemma ReaderStep(s: State, step: Step, r: nat)
    requires Inv(s) && Enabled(s, step) && !Writes(step) && step.r == r
    ensures ReaderInv(s, Apply(s, step).readers[r])
  {
    assert ReaderInv(s, s.readers[r]);
    if step.ReadEnd? {
      ReadEndStep(s, s.readers[r]);
    } else {
      hide AcceptedPass;
    }
  }

  lemma StepInv(s: State, step: Step)
    requires Inv(s) && Enabled(s, step)
    ensures Inv(Apply(s, step))
  {
    var t := Apply(s, step);
    StepMemory(s, step);
    forall r: nat | r < |t.readers| ensures ReaderInv(t, t.readers[r]) {
      if Writes(step) {
        WriterKeepsReader(s, step, s.readers[r]);
      } else if step.r == r {
        ReaderStep(s, step, r);
      }
    }
  }

  lemma {:induction false} RunInv(s: State, steps: seq<Step>, t: State)
    requires Inv(s) && Runs(s, steps, t)
    ensures Inv(t)
    decreases |steps|
  {
    if steps != [] {
      StepInv(s, steps[0]);
      RunInv(Apply(s, steps[0]), steps[1..], t);
    }
  }

  // ----- safety over every run -----

  ghost predicate Reachable(t: State) { exists s, steps :: Init(s) && Runs(s, steps, t) }

  lemma ReachableInv(t: State)
    requires Reachable(t)
    ensures Inv(t)
  {
    var s, steps :| Init(s) && Runs(s, steps, t);
    RunInv(s, steps, t);
  }

  /** The sequence is odd exactly while a writer is inside, and otherwise the shared
      fields are the last published value. */
  lemma OddExactlyWhileWriting(t: State)
    requires Reachable(t)
    ensures t.sequence % 2 == 1 <==> t.writing
    ensures !t.writing ==> t.history != [] && t.fields == t.history[|t.history| - 1]
  {
    ReachableInv(t);
  }

  /** The recheck accepts exactly when the number of sequence increments since the token
      load is a multiple of 2^32. */
  lemma AcceptedIffWholeWraps(t: State, r: nat)
    requires Reachable(t) && Enabled(t, ReadEnd(r))
    ensures
      Apply(t, ReadEnd(r)).readers[r].phase.Outside?
      <==> (t.ticks - t.readers[r].loadedAt) % WORD == 0
  {
    ReachableInv(t);
    assert ReaderInv(t, t.readers[r]);
    RecheckExact(t.readers[r].loadedAt, t.ticks);
  }

  /** So the writes overlapping an accepted pass are a multiple of 2^31, and a pass that no
      write overlapped copied one published version. */
  lemma AcceptedPassExact(t: State, r: nat, k: nat)
    requires Reachable(t) && r < |t.readers| && k < |t.readers[r].accepted|
    ensures
      var p := t.readers[r].accepted[k];
      && WritesDuring(p) >= 0 && WritesDuring(p) % HALF == 0
      && (WritesDuring(p) == 0 ==> p.from == p.to && FromVersion(p.snapshot, t.history, p.from / 2))
  {
    ReachableInv(t);
    assert ReaderInv(t, t.readers[r]);
    assert AcceptedPass(t.readers[r].accepted[k], t.history);
  }

  /** Every accepted pass with fewer than 2^31 overlapping writes copied one published
      version, which was current during the whole pass. */
  lemma AcceptedNeverTorn(t: State, r: nat, k: nat)
    requires Reachable(t) && r < |t.readers| && k < |t.readers[r].accepted|
    requires WritesDuring(t.readers[r].accepted[k]) < HALF
    ensures var p := t.readers[r].accepted[k]; p.from == p.to && FromVersion(p.snapshot, t.history, p.from / 2)
  {
    AcceptedPassExact(t, r, k);
  }

  /** The snapshots of one reader never go back in the history of published values. */
  lemma SnapshotsNeverGoBack(t: State, r: nat, j: nat, k: nat)
    requires Reachable(t) && r < |t.readers| && j < k < |t.readers[r].accepted|
    requires forall l | l == j || l == k :: WritesDuring(t.readers[r].accepted[l]) < HALF
    ensures
      var p, q := t.readers[r].accepted[j], t.readers[r].accepted[k];
      && FromVersion(p.snapshot, t.history, p.from / 2)
      && FromVersion(q.snapshot, t.history, q.from / 2)
      && p.from / 2 <= q.from / 2
  {
    AcceptedNeverTorn(t, r, j);
    AcceptedNeverTorn(t, r, k);
    ReachableInv(t);
    assert ReaderInv(t, t.readers[r]);
  }

  /** Short of the wrap, a pass is accepted exactly when no writer step overlapped it. */
  lemma AcceptedIffUndisturbed(t: State, r: nat)
    requires Reachable(t) && Enabled(t, ReadEnd(r))
    requires t.ticks / 2 - t.readers[r].loadedAt / 2 < HALF
    ensures Apply(t, ReadEnd(r)).readers[r].phase.Outside? <==> t.ticks == t.readers[r].loadedAt
  {
    AcceptedIffWholeWraps(t, r);
    ReachableInv(t);
    assert ReaderInv(t, t.readers[r]);
  }

  // ----- progress -----

  /** No writer steps, and reader r only copies fields. */
  ghost predicate Quiet(steps: seq<Step>, r: nat) {
    forall i | 0 <= i < |steps| :: !Writes(steps[i]) && (steps[i].r == r ==> steps[i].ReadField?)
  }

  lemma {:induction false} QuietKeeps(s: State, steps: seq<Step>, t: State, r: nat)
    requires Quiet(steps, r) && Runs(s, steps, t)
    requires r < |s.readers| && s.readers[r].phase.InBody?
    ensures t.sequence == s.sequence && t.ticks == s.ticks && |t.readers| == |s.readers|
    ensures t.readers[r] == s.readers[r].(snapshot := t.readers[r].snapshot)
    decreases |steps|
  {
    if steps != [] {
      assert !Writes(steps[0]);
      QuietKeeps(Apply(s, steps[0]), steps[1..], t, r);
    }
  }

  /** A pass that no writer step overlaps succeeds at its first recheck, with a copy of the
      version that is current. */
  lemma UndisturbedPassSucceeds(s: State, steps: seq<Step>, t: State, r: nat)
    requires Reachable(s) && !s.writing && Enabled(s, ReadStart(r))
    requires Quiet(steps, r) && Runs(Apply(s, ReadStart(r)), steps, t)
    ensures Enabled(t, ReadEnd(r))
    ensures
      var before, after := s.readers[r], Apply(t, ReadEnd(r)).readers[r];
      && after.phase.Outside? && !after.dirty
      && after.accepted == before.accepted + [Pass(t.readers[r].snapshot, s.ticks, s.ticks)]
      && FromVersion(t.readers[r].snapshot, t.history, s.ticks / 2)
  {
    hide FromVersion, AcceptedPass;
    OddExactlyWhileWriting(s);
    QuietKeeps(Apply(s, ReadStart(r)), steps, t, r);
    ReachableInv(s);
    StepInv(s, ReadStart(r));
    RunInv(Apply(s, ReadStart(r)), steps, t);
    assert ReaderInv(t, t.readers[r]);
  }

  /** A reader enters its block by asking for a token, and gets one exactly when no writer is
      inside; otherwise it asks again. */
  lemma TokenIffNoWriter(t: State, r: nat)
    requires Reachable(t) && r < |t.readers|
    ensures Enabled(t, ReadBegin(r)) ==> Enabled(Apply(t, ReadBegin(r)), ReadStart(r))
    ensures Enabled(t, ReadStart(r)) ==>
      var u := Apply(t, ReadStart(r));
      if t.writing then u == t
      else u.readers[r].token == t.sequence && u.readers[r].loadedAt == t.ticks
           && Enabled(u, ReadEnd(r)) && forall i: nat | i < |t.fields| :: Enabled(u, ReadField(r, i))
  {
    OddExactlyWhileWriting(t);
  }

  /** Reader r takes no step. */
  ghost predicate Away(steps: seq<Step>, r: nat) {
    forall i | 0 <= i < |steps| :: Writes(steps[i]) || steps[i].r != r
  }

  lemma {:induction false} AwayKeeps(s: State, steps: seq<Step>, t: State, r: nat)
    requires Away(steps, r) && Runs(s, steps, t) && r < |s.readers|
    ensures |t.readers| == |s.readers| && t.readers[r] == s.readers[r]
    decreases |steps|
  {
    if steps != [] {
      assert Writes(steps[0]) || steps[0].r != r;
      AwayKeeps(Apply(s, steps[0]), steps[1..], t, r);
    }
  }

  lemma ReachableRuns(s: State, steps: seq<Step>, t: State)
    requires Reachable(s) && Runs(s, steps, t)
    ensures Reachable(t)
  {
    hide Runs;
    var first, before :| Init(first) && Runs(first, before, s);
    RunsConcat(first, before, s, steps, t);
  }

  lemma OneStepRuns(s: State, step: Step)
    requires Enabled(s, step)
    ensures Runs(s, [step], Apply(s, step))
  {
    assert [step][1..] == [];
    assert Runs(Apply(s, step), [], Apply(s, step));
  }

  /** A rejected reader goes back for a token with nothing accepted, ... */
  lemma RejectedRestarts(t: State, r: nat)
    requires Reachable(t) && Enabled(t, ReadEnd(r)) && (t.ticks - t.readers[r].loadedAt) % WORD != 0
    ensures
      var u := Apply(t, ReadEnd(r));
      && Enabled(u, ReadStart(r)) && u.readers[r].accepted == t.readers[r].accepted
      && u == t.(readers := t.readers[r := u.readers[r]])
  {
    AcceptedIffWholeWraps(t, r);
  }

  /** ... and whatever the others do before it gets one, its next pass that no writer step
      overlaps is accepted. */
  lemma RejectedThenAccepted(t: State, r: nat, others: seq<Step>, s: State, steps: seq<Step>, v: State)
    requires Reachable(t) && Enabled(t, ReadEnd(r)) && (t.ticks - t.readers[r].loadedAt) % WORD != 0
    requires Away(others, r) && Runs(Apply(t, ReadEnd(r)), others, s) && !s.writing
    requires Quiet(steps, r)
    ensures Enabled(s, ReadStart(r))
    ensures Runs(Apply(s, ReadStart(r)), steps, v) ==>
      && Enabled(v, ReadEnd(r))
      && var after := Apply(v, ReadEnd(r)).readers[r];
      && after.phase.Outside?
      && after.accepted == t.readers[r].accepted + [Pass(v.readers[r].snapshot, s.ticks, s.ticks)]
      && FromVersion(v.readers[r].snapshot, v.history, s.ticks / 2)
  {
    hide Runs, Quiet, Away, FromVersion;
    var u := Apply(t, ReadEnd(r));
    RejectedRestarts(t, r);
    OneStepRuns(t, ReadEnd(r));
    ReachableRuns(t, [ReadEnd(r)], u);
    ReachableRuns(u, others, s);
    AwayKeeps(u, others, s, r);
    if Runs(Apply(s, ReadStart(r)), steps, v) { UndisturbedPassSucceeds(s, steps, v, r); }
  }

  // ----- the bound is exact -----

  lemma {:induction false} RunsConcat(s: State, a: seq<Step>, m: State, b: seq<Step>, t: State)
    requires Runs(s, a, m) && Runs(m, b, t)
    ensures Runs(s, a + b, t)
    decreases |a|
  {
    if a == [] {
      assert a + b == b;
    } else {
      RunsConcat(Apply(s, a[0]), a[1..], m, b, t);
      assert (a + b)[1..] == a[1..] + b;
    }
  }

  const ONE_WRITE := [WriteStart, WriteField(0, 1), WriteField(1, 1), WriteEnd]

  function Block(k: nat): seq<Step> { if k == 0 then [] else ONE_WRITE + Block(k - 1) }

  function Repeated(k: nat): seq<seq<int>> { seq(k, (i: nat) => [1, 1]) }

  function AfterWrites(s: State, k: nat): State {
    if k == 0 then s
    else s.(sequence := (s.sequence + 2 * k) % WORD, fields := [1, 1], ticks := s.ticks + 2 * k,
            history := s.history + Repeated(k))
  }

  lemma {:induction false} OneWrite(s: State)
    requires !s.writing && |s.fields| == 2
    ensures Runs(s, ONE_WRITE, AfterWrites(s, 1))
  {
    var s1 := Apply(s, WriteStart);
    var s2 := Apply(s1, WriteField(0, 1));
    var s3 := Apply(s2, WriteField(1, 1));
    var s4 := Apply(s3, WriteEnd);
    assert s3.fields == [1, 1] && Repeated(1) == [[1, 1]];
    assert s4 == AfterWrites(s, 1);
    assert Runs(s3, [WriteEnd], s4);
    assert ONE_WRITE[1..][1..][1..] == [WriteEnd];
    assert Runs(s2, ONE_WRITE[1..][1..], s4);
    assert Runs(s1, ONE_WRITE[1..], s4);
  }

  lemma WrapAdd(a: nat, b: nat)
    ensures (a % WORD + b) % WORD == (a + b) % WORD
  {}

  lemma RepeatedGrows(history: seq<seq<int>>, k: nat)
    ensures history + Repeated(1) + Repeated(k) == history + Repeated(k + 1)
  {
    assert Repeated(1) + Repeated(k) == Repeated(k + 1);
  }

  lemma OneMoreWrite(s: State, k: nat)
    ensures k > 0 ==> AfterWrites(AfterWrites(s, 1), k) == AfterWrites(s, k + 1)
  {
    hide Repeated;
    WrapAdd(s.sequence + 2, 2 * k);
    RepeatedGrows(s.history, k);
  }

  lemma {:induction false} ManyWrites(s: State, k: nat)
    requires !s.writing && |s.fields| == 2
    ensures Runs(s, Block(k), AfterWrites(s, k))
    decreases k
  {
    hide Enabled, Apply;
    if k > 0 {
      var m := AfterWrites(s, 1);
      OneWrite(s);
      ManyWrites(m, k - 1);
      OneMoreWrite(s, k - 1);
      RunsConcat(s, ONE_WRITE, m, Block(k - 1), AfterWrites(s, k));
    }
  }

  const START := State(0, [0, 0], false, [Reader(Outside, 0, false, map[], 0, [])], 0, [[0, 0]])

  /** The first half of a pass has copied field 0. */
  const HALFWAY := START.(readers := [Reader(InBody, 0, true, map[0 := 0], 0, [])])

  const FIRST_HALF := [ReadBegin(0), ReadStart(0), ReadField(0, 0)]
  const SECOND_HALF := [ReadField(0, 1), ReadEnd(0)]

  lemma FirstHalf()
    ensures Runs(START, FIRST_HALF, HALFWAY)
  {}

  /** The rest of the pass, in a state with an unmoved token and other field values. */
  lemma SecondHalf(s: State) returns (t: State)
    requires s.readers == HALFWAY.readers && s.sequence == 0 && s.fields == [1, 1]
    ensures Runs(s, SECOND_HALF, t) && t.history == s.history
    ensures |t.readers| == 1 && t.readers[0].accepted == [Pass(map[0 := 0, 1 := 1], 0, s.ticks)]
  {
    var s1 := Apply(s, ReadField(0, 1));
    t := Apply(s1, ReadEnd(0));
    assert s1.readers[0].snapshot == map[0 := 0, 1 := 1];
    assert Runs(s1, [ReadEnd(0)], t);
    assert SECOND_HALF[1..] == [ReadEnd(0)];
  }

  lemma NeverPublished(k: nat, version: nat)
    ensures !FromVersion(map[0 := 0, 1 := 1], [[0, 0]] + Repeated(k), version)
  {
    var snapshot, history := map[0 := 0, 1 := 1], [[0, 0]] + Repeated(k);
    if version < |history| {
      assert history[version] == [0, 0] || history[version] == [1, 1];
      assert 0 in snapshot && 1 in snapshot;
    }
  }

  /** With exactly 2^31 writes during a pass, the sequence is back at the token: a reader
      accepts a snapshot that no write ever published. */
  lemma TornAtTheWrap(k: nat) returns (t: State)
    requires k == HALF
    ensures Reachable(t) && |t.readers| == 1 && |t.readers[0].accepted| == 1
    ensures
      var p := t.readers[0].accepted[0];
      && WritesDuring(p) == HALF
      && forall version: nat :: !FromVersion(p.snapshot, t.history, version)
  {
    hide Runs, FromVersion, Block, Enabled, Apply;
    var m := AfterWrites(HALFWAY, k);
    FirstHalf();
    ManyWrites(HALFWAY, k);
    RunsConcat(START, FIRST_HALF, HALFWAY, Block(k), m);
    t := SecondHalf(m);
    RunsConcat(START, FIRST_HALF + Block(k), m, SECOND_HALF, t);
    assert Init(START);
    forall version: nat ensures !FromVersion(map[0 := 0, 1 := 1], t.history, version) {
      NeverPublished(k, version);
    }
  }
}
