/**
  Whole runs of the journal: writes, compactions, flash faults and power cuts at
  any flash operation, in any order, starting from a mounted journal.

  A power cut inside a write is a write that fails with a flash error which nobody
  sees, followed by a restart.
 */
module JournalRuns {
  import opened Bytes
  import opened Wrappers
  import opened NorFlash
  import opened JournalLayout
  import opened JournalFormat
  import opened JournalRecovery
  import opened JournalState
  import opened JournalSteps

  datatype Event =
    | Wrote(offset: nat, data: seq<byte>, r: Outcome<JournalError>)  // a write returned, or was cut by a power failure
    | Restarted                                                      // the journal was mounted again
  {
    predicate Acknowledged() { Wrote? && r.Pass? && |data| > 0 }

    /** A flash operation stopped inside the write. */
    predicate Stopped() { Wrote? && r.Fail? && r.error.Flash? }

    /** A write the driver does not refuse for its arguments. */
    predicate Permitted(l: Layout) { Wrote? && l.RangeValid(offset, |data|) && 0 < |data| <= l.maxAtomicWrite }
  }

  ghost predicate Step(l: Layout, s: State, e: Event, t: State)
    requires Shape(l, s)
  {
    match e
    case Wrote(offset, data, r) => WriteRel(l, s, offset, data, r, t)
    case Restarted => Mount(l, s.First(), s.Second()) == Mounted(t)
  }

  // ---------- one step ----------

  predicate IsWriteOf(rec: Record, offset: nat, data: seq<byte>) { rec.offset == offset && rec.data == data }

  /**
    Every outcome of a write keeps the invariant, barring a misread. An acknowledged
    write that compacted leaves the other region counting for less, whatever it was
    before; only a compaction that ended with a flash error makes it count for more.
   */
  lemma WriteKeeps(l: Layout, s: State, recs: seq<Record>, pending: Option<Record>, held: Option<Record>,
                   offset: nat, data: seq<byte>, r: Outcome<JournalError>, t: State)
    returns (recs': seq<Record>, pending': Option<Record>, held': Option<Record>)
    requires Core(l, s, recs, pending) && WriteRel(l, s, offset, data, r, t)
    ensures Core(l, t, recs', pending')
    ensures OtherInv(l, s, held) && ((HeaderInOneUnit(l) && !Misread(l, s, t)) || r.Pass?) ==>
              && OtherInv(l, t, held')
              && (OtherIsOlder(l, s) ==>
                    OtherIsOlder(l, t) || (held' == Some(Snapshot(s)) && r.Fail? && r.error.Flash?))
    ensures || held' == None
            || (held' == held && t.other == s.other && t.generation == s.generation)
            || (&& held' == Some(Snapshot(s)) && t.generation == s.generation
                && r.Fail? && r.error.Flash? && NeedsCompaction(l, s, |data|))
    ensures r.Pass? && |data| > 0 ==>
              && t.mirror == Put(s.mirror, offset, data) && pending' == None && !t.unusable
              && (NeedsCompaction(l, s, |data|) ==> held' == None && OtherIsOlder(l, t))
              && (!NeedsCompaction(l, s, |data|) ==> held' == held && t.other == s.other)
    ensures r.Pass? && |data| == 0 ==> t == s && pending' == pending && held' == held
    ensures r.Fail? ==> t.mirror == s.mirror
    ensures r.Fail? ==> (|| pending' == None || pending' == pending
                         || (IsWriteOf(pending'.value, offset, data) && Wrote(offset, data, r).Stopped()
                             && Wrote(offset, data, r).Permitted(l)))
  {
    hide LogInv, TailInv, AppendRel, CompactRel, Inspect, Put, LoadRegion, OtherInv, OtherIsOlder;
    if !l.RangeValid(offset, |data|) || |data| > l.maxAtomicWrite || |data| == 0 {
      return recs, pending, held;
    }
    if NeedsCompaction(l, s, |data|) {
      var c, mid :| CompactAndAppend(l, s, offset, data, c, mid, r, t);
      recs', pending', held' := CompactKeeps(l, s, recs, pending, held, c, mid);
      if c.Pass? {
        WriteFitsAfterSnapshot(l, |data|);
        NoneWhenOlder(l, mid);
        recs', pending' := AppendKeeps(l, mid, recs', offset, data, r, t);
      }
    } else {
      UsableHasNoPending(l, s, recs, pending);
      recs', pending' := AppendKeeps(l, s, recs, offset, data, r, t);
      held' := held;
    }
  }

  lemma NoneWhenOlder(l: Layout, s: State)
    requires l.Valid() && |s.other| == l.regionSize && OtherIsOlder(l, s)
    ensures OtherInv(l, s, None)
  {
  }

  lemma UsableHasNoPending(l: Layout, s: State, recs: seq<Record>, pending: Option<Record>)
    requires Core(l, s, recs, pending) && !s.unusable
    ensures pending == None
  {
    hide HoldsRecord, LogInv;
  }

  /**
    The caller's side: if the other region counted for less before a write, it does
    so afterwards, unless the write had to compact and ended with a flash error.
   */
  lemma NewerOnlyAfterFlashError(l: Layout, s: State, recs: seq<Record>, pending: Option<Record>,
                                 offset: nat, data: seq<byte>, r: Outcome<JournalError>, t: State)
    requires Core(l, s, recs, pending) && WriteRel(l, s, offset, data, r, t)
    requires OtherIsOlder(l, s)
    ensures |t.other| == l.regionSize
    ensures OtherIsOlder(l, t) || (r.Fail? && r.error.Flash? && NeedsCompaction(l, s, |data|))
  {
    hide LogInv, TailInv, AppendRel, CompactRel, Inspect, Put, LoadRegion, OtherIsOlder;
    if l.RangeValid(offset, |data|) && 0 < |data| <= l.maxAtomicWrite {
      if NeedsCompaction(l, s, |data|) {
        var c, mid :| CompactAndAppend(l, s, offset, data, c, mid, r, t);
        var recs', pending', held' := CompactKeeps(l, s, recs, pending, None, c, mid);
        if c.Pass? {
          WriteFitsAfterSnapshot(l, |data|);
          recs', pending' := AppendKeeps(l, mid, recs', offset, data, r, t);
        } else if !c.error.Flash? {
          RefusedCompaction(l, s, c, mid);
        }
      } else {
        UsableHasNoPending(l, s, recs, pending);
        var recs', pending' := AppendKeeps(l, s, recs, offset, data, r, t);
      }
    }
  }

  lemma RefusedCompaction(l: Layout, s: State, c: Outcome<JournalError>, t: State)
    requires l.Valid() && CompactRel(l, s, c, t) && c.Fail? && !c.error.Flash?
    ensures t == s
  {
  }

  // ---------- the specification a run is held to ----------

  /**
    What an observer may rely on: the image that reads return, at most one failed
    write of unknown fate, and perhaps an older image that the next mount will give.
   */
  datatype Contents = Contents(image: seq<byte>, unknown: Option<Record>, held: Option<seq<byte>>)

  ghost predicate SpecStep(l: Layout, a: Contents, e: Event, b: Contents) {
    match e
    case Wrote(offset, data, Pass) =>
      if |data| == 0 then b == a
      else
        && e.Permitted(l) && b.image == Put(a.image, offset, data) && b.unknown == None
        && (b.held == None || b.held == a.held)
    case Wrote(offset, data, Fail(error)) =>
      && b.image == a.image
      && (|| b.unknown == None || b.unknown == a.unknown
          || (IsWriteOf(b.unknown.value, offset, data) && e.Stopped() && e.Permitted(l)))
      && (b.held == None || b.held == a.held || (b.held == Some(a.image) && e.Stopped()))
    case Restarted =>
      && b.unknown == None && b.held == None
      && match a.held
         case Some(image) => b.image == image
         case None =>
           || b.image == a.image
           || (a.unknown.Some? && b.image == Put(a.image, a.unknown.value.offset, a.unknown.value.data))
  }

  function ContentsOf(s: State, pending: Option<Record>, held: Option<Record>): Contents {
    Contents(s.mirror, pending, if held.None? then None else Some(held.value.data))
  }

  /** The write of `e`, if it is one, was not misread. */
  ghost predicate Sound(l: Layout, s: State, e: Event, t: State)
    requires Shape(l, t)
  {
    e.Wrote? ==> !Misread(l, s, t)
  }

  /** One step of the journal is one step of the specification, and keeps the invariant unless it is misread. */
  lemma StepRefines(l: Layout, s: State, recs: seq<Record>, pending: Option<Record>, held: Option<Record>,
                    e: Event, t: State)
    returns (recs': seq<Record>, pending': Option<Record>, held': Option<Record>)
    requires Inv(l, s, recs, pending, held) && HeaderInOneUnit(l)
    requires Shape(l, t) && Step(l, s, e, t)
    ensures Core(l, t, recs', pending') && (Sound(l, s, e, t) ==> Inv(l, t, recs', pending', held'))
    ensures SpecStep(l, ContentsOf(s, pending, held), e, ContentsOf(t, pending', held'))
    ensures || held' == None
            || (e.Wrote? && held' == held && t.other == s.other && t.generation == s.generation)
            || (e.Stopped() && held' == Some(Snapshot(s)) && t.generation == s.generation)
    ensures Sound(l, s, e, t) && (OtherIsOlder(l, s) || (e.Restarted? && held.Some?)) ==>
              OtherIsOlder(l, t) || (e.Stopped() && held'.Some?)
  {
    hide LogInv, TailInv, WriteRel, Inspect, Put, Mount, OtherInv, LoadRegion, OtherIsOlder;
    match e
    case Wrote(offset, data, r) =>
      recs', pending', held' := WriteKeeps(l, s, recs, pending, held, offset, data, r, t);
      if r.Pass? && |data| > 0 {
        PassIsPermitted(l, s, offset, data, t);
      }
    case Restarted =>
      var u;
      u, recs' := MountKeeps(l, s, recs, pending, held);
      pending', held' := None, None;
  }

  lemma PassIsPermitted(l: Layout, s: State, offset: nat, data: seq<byte>, t: State)
    requires Shape(l, s) && |data| > 0 && WriteRel(l, s, offset, data, Pass, t)
    ensures Wrote(offset, data, Pass).Permitted(l)
  {
    hide AppendRel, CompactRel;
  }

  /** After any step power may fail, and mounting then succeeds. */
  lemma AlwaysMountable(l: Layout, s: State, recs: seq<Record>, pending: Option<Record>, held: Option<Record>)
    requires Inv(l, s, recs, pending, held)
    ensures Mount(l, s.First(), s.Second()).Mounted?
  {
    var t, recs' := MountKeeps(l, s, recs, pending, held);
  }

  // ---------- whole runs ----------

  ghost predicate Shapes(l: Layout, states: seq<State>) {
    forall i :: 0 <= i < |states| ==> Shape(l, states[i])
  }

  ghost predicate Run(l: Layout, states: seq<State>, events: seq<Event>) {
    && |states| == |events| + 1 && Shapes(l, states)
    && forall i :: 0 <= i < |events| ==> Step(l, states[i], events[i], states[i + 1])
  }

  /** No write of the run was misread. */
  ghost predicate AllSound(l: Layout, states: seq<State>, events: seq<Event>)
    requires |states| == |events| + 1 && Shapes(l, states)
  {
    forall i :: 0 <= i < |events| ==> Sound(l, states[i], events[i], states[i + 1])
  }

  lemma PrefixRun(l: Layout, states: seq<State>, events: seq<Event>, n: nat)
    requires Run(l, states, events) && n < |events|
    ensures Run(l, states[..n + 1], events[..n])
    ensures Shape(l, states[n]) && Shape(l, states[n + 1]) && Step(l, states[n], events[n], states[n + 1])
    ensures AllSound(l, states, events) ==>
              AllSound(l, states[..n + 1], events[..n]) && Sound(l, states[n], events[n], states[n + 1])
  {
    hide Step, Shape, Sound;
  }

  /** The invariant holds throughout. */
  lemma {:induction false} InvAt(l: Layout, states: seq<State>, events: seq<Event>, recs: seq<Record>, n: nat)
    returns (recs': seq<Record>, pending: Option<Record>, held: Option<Record>)
    requires |states| > 0 && Inv(l, states[0], recs, None, None) && HeaderInOneUnit(l)
    requires Run(l, states, events) && AllSound(l, states, events) && n <= |events|
    ensures Inv(l, states[n], recs', pending, held)
  {
    hide Inv, Step, SpecStep, Shape, Sound, OtherIsOlder;
    if n == 0 {
      return recs, None, None;
    }
    PrefixRun(l, states, events, n - 1);
    recs', pending, held := InvAt(l, states, events, recs, n - 1);
    recs', pending, held := StepRefines(l, states[n - 1], recs', pending, held, events[n - 1], states[n]);
  }

  lemma LastStep(l: Layout, states: seq<State>, events: seq<Event>, k: nat)
    requires Run(l, states, events) && k < |events| && events[k].Wrote?
    ensures states[k].last <= states[k + 1].last
    ensures events[k].Acknowledged() ==> states[k].last < states[k + 1].last
  {
    hide Shape, WriteRel;
    var e := events[k];
    assert Step(l, states[k], e, states[k + 1]);
    WriteStaysInRegion(l, states[k], e.offset, e.data, e.r, states[k + 1]);
  }

  /** Between two mounts the last sequence number never falls, and every acknowledged write raises it. */
  lemma {:induction false} LastGrows(l: Layout, states: seq<State>, events: seq<Event>, i: nat, j: nat)
    requires Run(l, states, events) && i <= j <= |events|
    requires forall k :: i <= k < j ==> events[k].Wrote?
    ensures states[i].last <= states[j].last
    ensures i < j && events[i].Acknowledged() ==> states[i].last < states[j].last
    decreases j
  {
    hide Shapes, Step;
    if i < j {
      LastGrows(l, states, events, i, j - 1);
      LastStep(l, states, events, j - 1);
    }
  }

  // ---------- what a run leaves behind ----------

  /** The first mount behind event `i`. */
  predicate NextMount(events: seq<Event>, i: nat, j: nat) {
    && i < j < |events| && events[j].Restarted?
    && forall k :: i < k < j ==> events[k].Wrote?
  }

  /** In `s` the other region would take over, and neither it nor the live generation has changed in `t`. */
  ghost predicate Bypassed(l: Layout, s: State, t: State)
    requires Shape(l, s)
  {
    TakesOver(l, s) && t.other == s.other && t.generation == s.generation
  }

  /** Write `i` was made while the other region would take over, which is how the next mount found things. */
  ghost predicate Lost(l: Layout, states: seq<State>, events: seq<Event>, i: nat)
    requires |states| == |events| + 1 && Shapes(l, states) && i < |events|
  {
    exists j: nat :: NextMount(events, i, j) && Bypassed(l, states[i], states[j])
  }

  /** The image left by the writes marked in `kept`, in order. */
  function Outcomes(image: seq<byte>, events: seq<Event>, kept: seq<bool>): (r: seq<byte>)
    requires |kept| == |events|
    ensures |r| == |image|
    decreases events
  {
    if events == [] then image
    else
      var n := |events| - 1;
      var before := Outcomes(image, events[..n], kept[..n]);
      if kept[n] && events[n].Wrote? then Put(before, events[n].offset, events[n].data) else before
  }

  /** Nothing behind write `i` up to the next mount is kept. */
  ghost predicate SettledAt(events: seq<Event>, kept: seq<bool>, i: nat, j: nat)
    requires |kept| == |events|
  {
    NextMount(events, i, j) && forall k :: i < k <= j ==> !kept[k]
  }

  ghost predicate ExplainsAt(l: Layout, states: seq<State>, events: seq<Event>, kept: seq<bool>, i: nat)
    requires |states| == |events| + 1 && Shapes(l, states) && |kept| == |events| && i < |events|
  {
    && (kept[i] ==> events[i].Permitted(l))
    && (events[i].Acknowledged() ==> (kept[i] <==> !Lost(l, states, events, i)))
    && (kept[i] && !events[i].Acknowledged() ==>
          events[i].Stopped() && exists j: nat :: SettledAt(events, kept, i, j))
  }

  /**
    `kept` explains a run: of the acknowledged writes exactly the lost ones are not
    kept; of the others only writes whose flash operation stopped, each of them
    wholly, and only if it was the last one kept before the next mount.
   */
  ghost predicate Explains(l: Layout, states: seq<State>, events: seq<Event>, kept: seq<bool>)
    requires |states| == |events| + 1 && Shapes(l, states)
  {
    |kept| == |events| && forall i :: 0 <= i < |events| ==> ExplainsAt(l, states, events, kept, i)
  }

  // ---------- extending the account of a run by one event ----------

  /** Event `p` is the failed write whose fate is unknown; nothing kept has happened since. */
  ghost predicate Outstanding(l: Layout, events: seq<Event>, kept: seq<bool>, p: nat, rec: Record)
    requires |kept| == |events|
  {
    && p < |events| && events[p].Stopped() && events[p].Permitted(l)
    && IsWriteOf(rec, events[p].offset, events[p].data)
    && forall k :: p <= k < |events| ==> !kept[k] && events[k].Wrote?
  }

  /** Inside event `c` a compaction committed the snapshot `snap` and failed; that region is still as it was. */
  ghost predicate HeldSince(states: seq<State>, events: seq<Event>, kept: seq<bool>, c: nat, snap: Record)
    requires |states| == |events| + 1 && |kept| == |events|
  {
    && c < |events| && events[c].Stopped() && snap.sequence == states[c].last + 1
    && snap.data == Outcomes(states[0].mirror, events[..c], kept[..c])
    && (forall k :: c <= k < |events| ==> events[k].Wrote?)
    && forall k :: c < k <= |events| ==>
         states[k].other == states[|events|].other && states[k].generation == states[|events|].generation
  }

  lemma LostMore(l: Layout, states: seq<State>, events: seq<Event>, e: Event, t: State, i: nat)
    requires |states| == |events| + 1 && Shapes(l, states) && Shape(l, t) && i < |events|
    ensures Shapes(l, states + [t])
    ensures Lost(l, states + [t], events + [e], i)
            <==> Lost(l, states, events, i)
                 || (NextMount(events + [e], i, |events|) && Bypassed(l, states[i], states[|events|]))
  {
    hide Shape, Bypassed;
    var states', events' := states + [t], events + [e];
    forall j: nat | j < |events|
      ensures NextMount(events', i, j) <==> NextMount(events, i, j)
    {
      assert forall k :: i < k <= j ==> events'[k] == events[k];
    }
    if Lost(l, states, events, i) {
      var j: nat :| NextMount(events, i, j) && Bypassed(l, states[i], states[j]);
      assert NextMount(events', i, j) && Bypassed(l, states'[i], states'[j]);
    }
  }

  /** Behind the last event no mount can follow. */
  lemma LastNotLost(l: Layout, states: seq<State>, events: seq<Event>)
    requires |states| == |events| + 1 && Shapes(l, states) && 0 < |events|
    ensures !Lost(l, states, events, |events| - 1)
  {
  }

  lemma SettledMore(events: seq<Event>, kept: seq<bool>, e: Event, kept': seq<bool>, i: nat)
    requires |kept| == |events| && |kept'| == |events| + 1
    requires exists j: nat :: SettledAt(events, kept, i, j)
    requires forall k :: i < k < |events| && kept'[k] ==> kept[k] || forall j :: k <= j < |events| ==> events[j].Wrote?
    ensures exists j: nat :: SettledAt(events + [e], kept', i, j)
  {
    var j: nat :| SettledAt(events, kept, i, j);
    assert SettledAt(events + [e], kept', i, j);
  }

  /** A write is kept if it was acknowledged. */
  lemma ExplainsWrite(l: Layout, states: seq<State>, events: seq<Event>, kept: seq<bool>, e: Event, t: State)
    requires |states| == |events| + 1 && Shapes(l, states) && Shape(l, t)
    requires Explains(l, states, events, kept) && e.Wrote? && (e.Acknowledged() ==> e.Permitted(l))
    ensures Shapes(l, states + [t]) && Explains(l, states + [t], events + [e], kept + [e.Acknowledged()])
  {
    hide Shape, Lost, SettledAt;
    var states', events', kept' := states + [t], events + [e], kept + [e.Acknowledged()];
    LastNotLost(l, states', events');
    forall i | 0 <= i < |events|
      ensures ExplainsAt(l, states', events', kept', i)
    {
      assert ExplainsAt(l, states, events, kept, i);
      LostMore(l, states, events, e, t, i);
      if kept[i] && !events[i].Acknowledged() {
        SettledMore(events, kept, e, kept', i);
      }
    }
  }

  lemma SameTakeOver(l: Layout, s: State, t: State)
    requires Shape(l, s) && Shape(l, t)
    ensures t.other == s.other && t.generation == s.generation ==> (Bypassed(l, s, t) <==> TakesOver(l, t))
  {
    hide Inspect, LoadRegion;
  }

  /** A mount of the live region loses nothing; it may bring the outstanding write to light. */
  lemma ExplainsMount(l: Layout, states: seq<State>, events: seq<Event>, kept: seq<bool>, t: State,
                      settles: bool, p: nat, rec: Record)
    requires |states| == |events| + 1 && Shapes(l, states) && Shape(l, t)
    requires Explains(l, states, events, kept) && !TakesOver(l, states[|events|])
    requires settles ==> Outstanding(l, events, kept, p, rec)
    ensures Shapes(l, states + [t])
    ensures var kept' := if settles then kept[p := true] else kept;
            Explains(l, states + [t], events + [Restarted], kept' + [false])
  {
    hide Shape, Lost, SettledAt, TakesOver, IsWriteOf;
    var states', events' := states + [t], events + [Restarted];
    var kept' := (if settles then kept[p := true] else kept) + [false];
    forall i | 0 <= i < |events|
      ensures ExplainsAt(l, states', events', kept', i)
    {
      assert ExplainsAt(l, states, events, kept, i);
      LostMore(l, states, events, Restarted, t, i);
      SameTakeOver(l, states[i], states[|events|]);
      if settles && i == p {
        Settles(events, kept', p);
      } else if kept[i] && !events[i].Acknowledged() {
        SettledMore(events, kept, Restarted, kept', i);
      }
    }
  }

  lemma Settles(events: seq<Event>, kept': seq<bool>, p: nat)
    requires p < |events| && |kept'| == |events| + 1
    requires forall k :: p <= k < |events| ==> events[k].Wrote?
    requires forall k :: p < k <= |events| ==> !kept'[k]
    ensures exists j: nat :: SettledAt(events + [Restarted], kept', p, j)
  {
    assert SettledAt(events + [Restarted], kept', p, |events|);
  }

  /** Only what came before event `c`. */
  function Before(kept: seq<bool>, c: nat): (r: seq<bool>)
    ensures |r| == |kept|
  {
    seq(|kept|, i requires 0 <= i < |kept| => i < c && kept[i])
  }

  /** A mount that takes over drops every write since the snapshot, all of them lost. */
  lemma ExplainsTakeOver(l: Layout, states: seq<State>, events: seq<Event>, kept: seq<bool>, t: State,
                         c: nat, snap: Record)
    requires |states| == |events| + 1 && Shapes(l, states) && Shape(l, t)
    requires Explains(l, states, events, kept) && TakesOver(l, states[|events|])
    requires HeldSince(states, events, kept, c, snap)
    requires forall i :: 0 <= i < c && events[i].Acknowledged() && NextMount(events + [Restarted], i, |events|) ==>
               !Bypassed(l, states[i], states[|events|])
    ensures Shapes(l, states + [t])
    ensures Explains(l, states + [t], events + [Restarted], Before(kept, c) + [false])
  {
    hide Shape, Lost, SettledAt, TakesOver, Outcomes, Bypassed;
    var states', events', kept' := states + [t], events + [Restarted], Before(kept, c) + [false];
    forall i | 0 <= i < |events|
      ensures ExplainsAt(l, states', events', kept', i)
    {
      assert ExplainsAt(l, states, events, kept, i);
      LostMore(l, states, events, Restarted, t, i);
      SameTakeOver(l, states[i], states[|events|]);
      if i < c && kept[i] && !events[i].Acknowledged() {
        SettledMore(events, kept, Restarted, kept', i);
      }
    }
  }

  // ---------- the image along a run ----------

  lemma OutcomesMore(image: seq<byte>, events: seq<Event>, kept: seq<bool>, e: Event, keep: bool)
    requires |kept| == |events|
    ensures Outcomes(image, events + [e], kept + [keep])
         == var before := Outcomes(image, events, kept);
            if keep && e.Wrote? then Put(before, e.offset, e.data) else before
  {
    assert (events + [e])[..|events|] == events;
    assert (kept + [keep])[..|events|] == kept;
  }

  /** Keeping one more write behind all kept ones puts it on top of them. */
  lemma {:induction false} KeepLast(image: seq<byte>, events: seq<Event>, kept: seq<bool>, i: nat)
    requires |kept| == |events| && i < |events| && events[i].Wrote?
    requires forall k :: i <= k < |events| ==> !kept[k]
    ensures Outcomes(image, events, kept[i := true])
         == Put(Outcomes(image, events, kept), events[i].offset, events[i].data)
    decreases events
  {
    hide Put;
    var n := |events| - 1;
    if i < n {
      KeepLast(image, events[..n], kept[..n], i);
      assert kept[i := true][..n] == kept[..n][i := true];
    } else {
      assert kept[i := true][..n] == kept[..n];
    }
  }

  /** What is kept before event `c` alone gives the image as it was then. */
  lemma {:induction false} OutcomesBefore(image: seq<byte>, events: seq<Event>, kept: seq<bool>, c: nat)
    requires |kept| == |events| && c <= |events|
    ensures Outcomes(image, events, Before(kept, c)) == Outcomes(image, events[..c], kept[..c])
    decreases events
  {
    hide Put;
    if c == |events| {
      assert Before(kept, c) == kept == kept[..c] && events[..c] == events;
    } else {
      var n := |events| - 1;
      OutcomesBefore(image, events[..n], kept[..n], c);
      assert Before(kept, c)[..n] == Before(kept[..n], c);
      assert events[..n][..c] == events[..c] && kept[..n][..c] == kept[..c];
    }
  }

  // ---------- the account of a whole run ----------

  lemma HeldMore(l: Layout, states: seq<State>, events: seq<Event>, kept: seq<bool>, c: nat, snap: Record,
                 e: Event, t: State)
    requires |states| == |events| + 1 && |kept| == |events| && HeldSince(states, events, kept, c, snap)
    requires e.Wrote? && t.other == states[|events|].other && t.generation == states[|events|].generation
    ensures HeldSince(states + [t], events + [e], kept + [e.Acknowledged()], c, snap)
  {
    hide Outcomes;
    assert (events + [e])[..c] == events[..c] && (kept + [e.Acknowledged()])[..c] == kept[..c];
  }

  lemma HeldNow(states: seq<State>, events: seq<Event>, kept: seq<bool>, e: Event, t: State)
    requires |states| == |events| + 1 && |kept| == |events| && e.Stopped()
    requires states[|events|].mirror == Outcomes(states[0].mirror, events, kept)
    ensures HeldSince(states + [t], events + [e], kept + [false], |events|, Snapshot(states[|events|]))
  {
    hide Outcomes;
    assert (events + [e])[..|events|] == events && (kept + [false])[..|events|] == kept;
  }

  lemma OutstandingMore(l: Layout, events: seq<Event>, kept: seq<bool>, p: nat, rec: Record, e: Event)
    requires |kept| == |events| && Outstanding(l, events, kept, p, rec) && e.Wrote?
    ensures Outstanding(l, events + [e], kept + [false], p, rec)
  {
    hide IsWriteOf;
  }

  lemma OutstandingNow(l: Layout, events: seq<Event>, kept: seq<bool>, e: Event, rec: Record)
    requires |kept| == |events| && e.Stopped() && e.Permitted(l) && IsWriteOf(rec, e.offset, e.data)
    ensures Outstanding(l, events + [e], kept + [false], |events|, rec)
  {
    hide IsWriteOf;
  }

  lemma ExplainWrote(l: Layout, states: seq<State>, events: seq<Event>, kept: seq<bool>, p: nat, c: nat,
                     pending: Option<Record>, held: Option<Record>,
                     e: Event, t: State, pending': Option<Record>, held': Option<Record>)
    returns (kept': seq<bool>, p': nat, c': nat)
    requires |states| == |events| + 1 && Shapes(l, states) && Shape(l, t) && e.Wrote?
    requires |kept| == |events| && Explains(l, states, events, kept)
    requires Outcomes(states[0].mirror, events, kept) == states[|events|].mirror
    requires pending.Some? ==> Outstanding(l, events, kept, p, pending.value)
    requires held.Some? ==> HeldSince(states, events, kept, c, held.value)
    requires SpecStep(l, ContentsOf(states[|events|], pending, held), e, ContentsOf(t, pending', held'))
    requires var s := states[|events|];
             || held' == None
             || (held' == held && t.other == s.other && t.generation == s.generation)
             || (e.Stopped() && held' == Some(Snapshot(s)) && t.generation == s.generation)
    ensures Shapes(l, states + [t]) && |kept'| == |events| + 1 && Explains(l, states + [t], events + [e], kept')
    ensures Outcomes(states[0].mirror, events + [e], kept') == t.mirror
    ensures pending'.Some? ==> Outstanding(l, events + [e], kept', p', pending'.value)
    ensures held'.Some? ==> HeldSince(states + [t], events + [e], kept', c', held'.value)
  {
    hide Shape, Explains, Outcomes, Outstanding, HeldSince, Put, IsWriteOf;
    var s := states[|events|];
    var keep := e.Acknowledged();
    ExplainsWrite(l, states, events, kept, e, t);
    OutcomesMore(states[0].mirror, events, kept, e, keep);
    kept', p', c' := kept + [keep], p, c;
    if pending'.Some? {
      if pending' == pending {
        OutstandingMore(l, events, kept, p, pending.value, e);
      } else {
        p' := |events|;
        OutstandingNow(l, events, kept, e, pending'.value);
      }
    }
    if held'.Some? {
      if held' == held && t.other == s.other && t.generation == s.generation {
        HeldMore(l, states, events, kept, c, held.value, e, t);
      } else {
        c' := |events|;
        HeldNow(states, events, kept, e, t);
      }
    }
  }

  lemma ExplainRestarted(l: Layout, states: seq<State>, events: seq<Event>, kept: seq<bool>, p: nat, c: nat,
                         pending: Option<Record>, held: Option<Record>, t: State)
    returns (kept': seq<bool>)
    requires |states| == |events| + 1 && Shapes(l, states) && Shape(l, t)
    requires |kept| == |events| && Explains(l, states, events, kept)
    requires Outcomes(states[0].mirror, events, kept) == states[|events|].mirror
    requires pending.Some? ==> Outstanding(l, events, kept, p, pending.value)
    requires held.Some? ==> HeldSince(states, events, kept, c, held.value)
    requires TakesOver(l, states[|events|]) <==> held.Some?
    requires SpecStep(l, ContentsOf(states[|events|], pending, held), Restarted, ContentsOf(t, None, None))
    requires forall i :: 0 <= i < c && held.Some? && events[i].Acknowledged()
                         && NextMount(events + [Restarted], i, |events|) ==>
               !Bypassed(l, states[i], states[|events|])
    ensures Shapes(l, states + [t]) && |kept'| == |events| + 1
    ensures Explains(l, states + [t], events + [Restarted], kept')
    ensures Outcomes(states[0].mirror, events + [Restarted], kept') == t.mirror
  {
    hide Shape, Explains, Outcomes, Put, TakesOver, Bypassed;
    var image := states[0].mirror;
    if held.Some? {
      ExplainsTakeOver(l, states, events, kept, t, c, held.value);
      OutcomesBefore(image, events, kept, c);
      OutcomesMore(image, events, Before(kept, c), Restarted, false);
      kept' := Before(kept, c) + [false];
    } else if t.mirror == states[|events|].mirror {
      ExplainsMount(l, states, events, kept, t, false, 0, Record(0, 0, []));
      OutcomesMore(image, events, kept, Restarted, false);
      kept' := kept + [false];
    } else {
      ExplainsMount(l, states, events, kept, t, true, p, pending.value);
      KeepLast(image, events, kept, p);
      OutcomesMore(image, events, kept[p := true], Restarted, false);
      kept' := kept[p := true] + [false];
    }
  }

  /** What was acknowledged before the snapshot was taken was not written past it. */
  lemma EarlierNotBypassed(l: Layout, states: seq<State>, events: seq<Event>, recs: seq<Record>,
                           recs': seq<Record>, pending: Option<Record>, snap: Record, i: nat, c: nat)
    requires |states| > 0 && Inv(l, states[0], recs, None, None) && HeaderInOneUnit(l)
    requires Run(l, states, events) && AllSound(l, states, events)
    requires Inv(l, states[|events|], recs', pending, Some(snap))
    requires i < c < |events| && events[i].Acknowledged() && snap.sequence == states[c].last + 1
    requires forall k :: i <= k < |events| ==> events[k].Wrote?
    ensures !Bypassed(l, states[i], states[|events|])
  {
    hide Core, Step, Sound, Inspect, LoadRegion, Broken, HoldsRecord, Committed;
    var n := |events|;
    if Bypassed(l, states[i], states[n]) {
      var r, p, h := InvAt(l, states, events, recs, i);
      TakesOverIff(l, states[i], r, p, h);
      TakesOverIff(l, states[n], recs', pending, Some(snap));
      LastGrows(l, states, events, i, c);
    }
  }

  /** One more event extends the account of a run. */
  lemma ExplainEvent(l: Layout, states: seq<State>, events: seq<Event>, recs: seq<Record>, recs': seq<Record>,
                     kept: seq<bool>, p: nat, c: nat, pending: Option<Record>, held: Option<Record>,
                     e: Event, t: State)
    returns (kept': seq<bool>, p': nat, c': nat,
             recs'': seq<Record>, pending': Option<Record>, held': Option<Record>)
    requires |states| > 0 && Inv(l, states[0], recs, None, None) && HeaderInOneUnit(l)
    requires Run(l, states, events) && AllSound(l, states, events)
    requires Inv(l, states[|events|], recs', pending, held)
    requires |kept| == |events| && Explains(l, states, events, kept)
    requires Outcomes(states[0].mirror, events, kept) == states[|events|].mirror
    requires pending.Some? ==> Outstanding(l, events, kept, p, pending.value)
    requires held.Some? ==> HeldSince(states, events, kept, c, held.value)
    requires Shape(l, t) && Step(l, states[|events|], e, t) && Sound(l, states[|events|], e, t)
    ensures Inv(l, t, recs'', pending', held')
    ensures Shapes(l, states + [t]) && |kept'| == |events| + 1 && Explains(l, states + [t], events + [e], kept')
    ensures Outcomes(states[0].mirror, events + [e], kept') == t.mirror
    ensures pending'.Some? ==> Outstanding(l, events + [e], kept', p', pending'.value)
    ensures held'.Some? ==> HeldSince(states + [t], events + [e], kept', c', held'.value)
  {
    hide Inv, Step, SpecStep, Shape, Sound, Explains, Outstanding, HeldSince, OtherIsOlder, TakesOver, Bypassed;
    hide Outcomes, NextMount;
    var s := states[|events|];
    TakesOverIs(l, s, recs', pending, held);
    recs'', pending', held' := StepRefines(l, s, recs', pending, held, e, t);
    if e.Wrote? {
      kept', p', c' := ExplainWrote(l, states, events, kept, p, c, pending, held, e, t, pending', held');
    } else {
      if held.Some? {
        EarlierKept(l, states, events, recs, recs', pending, held.value, kept, c);
      }
      RestartSettles(l, s, pending, held, t, pending', held');
      kept' := ExplainRestarted(l, states, events, kept, p, c, pending, held, t);
      p', c' := 0, 0;
    }
  }

  lemma {:induction false} ExplainRun(l: Layout, states: seq<State>, events: seq<Event>, recs: seq<Record>)
    returns (kept: seq<bool>, p: nat, c: nat, recs': seq<Record>, pending: Option<Record>, held: Option<Record>)
    requires |states| > 0 && Inv(l, states[0], recs, None, None) && HeaderInOneUnit(l)
    requires Run(l, states, events) && AllSound(l, states, events)
    ensures Inv(l, states[|events|], recs', pending, held)
    ensures |kept| == |events| && Explains(l, states, events, kept)
    ensures Outcomes(states[0].mirror, events, kept) == states[|events|].mirror
    ensures pending.Some? ==> Outstanding(l, events, kept, p, pending.value)
    ensures held.Some? ==> HeldSince(states, events, kept, c, held.value)
    decreases events
  {
    hide Inv, Step, Shape, Sound, Explains, Outstanding, HeldSince, Outcomes;
    if events == [] {
      NothingToExplain(l, states);
      return [], 0, 0, recs, None, None;
    }
    var n := |events| - 1;
    var before, earlier, e, t := states[..n + 1], events[..n], events[n], states[n + 1];
    PrefixRun(l, states, events, n);
    kept, p, c, recs', pending, held := ExplainRun(l, before, earlier, recs);
    kept, p, c, recs', pending, held :=
      ExplainEvent(l, before, earlier, recs, recs', kept, p, c, pending, held, e, t);
    assert earlier + [e] == events && before + [t] == states;
  }

  lemma NothingToExplain(l: Layout, states: seq<State>)
    requires |states| == 1 && Shapes(l, states)
    ensures Explains(l, states, [], []) && Outcomes(states[0].mirror, [], []) == states[0].mirror
  {
  }

  lemma TakesOverIs(l: Layout, s: State, recs: seq<Record>, pending: Option<Record>, held: Option<Record>)
    requires Inv(l, s, recs, pending, held)
    ensures TakesOver(l, s) <==> held.Some?
  {
    TakesOverIff(l, s, recs, pending, held);
  }

  lemma RestartSettles(l: Layout, s: State, pending: Option<Record>, held: Option<Record>,
                       t: State, pending': Option<Record>, held': Option<Record>)
    requires SpecStep(l, ContentsOf(s, pending, held), Restarted, ContentsOf(t, pending', held'))
    ensures pending' == None && held' == None
    ensures SpecStep(l, ContentsOf(s, pending, held), Restarted, ContentsOf(t, None, None))
  {
  }

  lemma EarlierKept(l: Layout, states: seq<State>, events: seq<Event>, recs: seq<Record>,
                    recs': seq<Record>, pending: Option<Record>, snap: Record, kept: seq<bool>, c: nat)
    requires |states| > 0 && Inv(l, states[0], recs, None, None) && HeaderInOneUnit(l)
    requires Run(l, states, events) && AllSound(l, states, events)
    requires Inv(l, states[|events|], recs', pending, Some(snap))
    requires |kept| == |events| && HeldSince(states, events, kept, c, snap)
    ensures forall i :: 0 <= i < c && events[i].Acknowledged() && NextMount(events + [Restarted], i, |events|) ==>
               !Bypassed(l, states[i], states[|events|])
  {
    hide Inv, Step, Shape, Sound, Outcomes, Bypassed;
    forall i | 0 <= i < c && events[i].Acknowledged() && NextMount(events + [Restarted], i, |events|)
      ensures !Bypassed(l, states[i], states[|events|])
    {
      assert forall k :: i < k < |events| ==> events[k] == (events + [Restarted])[k];
      EarlierNotBypassed(l, states, events, recs, recs', pending, snap, i, c);
    }
  }

  ghost predicate Explained(l: Layout, states: seq<State>, events: seq<Event>)
    requires |states| == |events| + 1 && Shapes(l, states)
  {
    exists kept ::
      Explains(l, states, events, kept) && Outcomes(states[0].mirror, events, kept) == states[|events|].mirror
  }

  /**
    Crash atomicity over whole runs. Starting from a mounted journal, after any run
    of writes, faults, power cuts and restarts in which no half-erased region was
    misread, the image is exactly what the acknowledged writes that are not lost
    give in order, together with a choice of writes whose flash operation stopped,
    each applied wholly or not at all and at most one per mount. An acknowledged
    write is lost if and only if it was made while the other region would have
    taken over, and that is how the next mount found things. At any time mounting
    succeeds, and its image is explained in the same way.
   */
  lemma CrashAtomicity(l: Layout, states: seq<State>, events: seq<Event>, recs: seq<Record>)
    requires |states| > 0 && Inv(l, states[0], recs, None, None) && HeaderInOneUnit(l)
    requires Run(l, states, events) && AllSound(l, states, events)
    ensures Explained(l, states, events)
    ensures exists t ::
              && Mount(l, states[|events|].First(), states[|events|].Second()) == Mounted(t)
              && Shapes(l, states + [t]) && Explained(l, states + [t], events + [Restarted])
  {
    hide Explained, Inv, Step, Mount, Shape, Sound;
    var t := MountExplained(l, states, events, recs);
  }

  lemma MountExplained(l: Layout, states: seq<State>, events: seq<Event>, recs: seq<Record>) returns (t: State)
    requires |states| > 0 && Inv(l, states[0], recs, None, None) && HeaderInOneUnit(l)
    requires Run(l, states, events) && AllSound(l, states, events)
    ensures Explained(l, states, events)
    ensures Mount(l, states[|events|].First(), states[|events|].Second()) == Mounted(t)
    ensures Shapes(l, states + [t]) && Explained(l, states + [t], events + [Restarted])
  {
    hide Explains, Inv, Step, Mount, Outcomes, Shape, Sound, Outstanding, HeldSince;
    var kept, p, c, recs', pending, held := ExplainRun(l, states, events, recs);
    t := MountedAgain(l, states[|events|], recs', pending, held);
    var kept2, p2, c2, recs2, pending2, held2 :=
      ExplainEvent(l, states, events, recs, recs', kept, p, c, pending, held, Restarted, t);
    assert Explained(l, states + [t], events + [Restarted]);
  }

  /** The flash erases from the front: no compaction stopped in its first erase has skipped the first cell. */
  ghost predicate ErasedFromTheFront(l: Layout, states: seq<State>, events: seq<Event>)
    requires |states| == |events| + 1 && Shapes(l, states)
  {
    forall i :: 0 <= i < |events| && events[i].Wrote? && StoppedInErase(l, states[i], states[i + 1]) ==>
      FromTheFront(states[i].other, states[i + 1].other)
  }

  /** Over a flash that erases from the front, crash atomicity holds of all runs. */
  lemma FrontErasedAtomicity(l: Layout, states: seq<State>, events: seq<Event>, recs: seq<Record>)
    requires |states| > 0 && Inv(l, states[0], recs, None, None) && HeaderInOneUnit(l)
    requires Run(l, states, events) && ErasedFromTheFront(l, states, events)
    ensures Explained(l, states, events)
    ensures exists t ::
              && Mount(l, states[|events|].First(), states[|events|].Second()) == Mounted(t)
              && Shapes(l, states + [t]) && Explained(l, states + [t], events + [Restarted])
  {
    hide Explained, Inv, Step, Mount, Shape, Misread, StoppedInErase, FromTheFront;
    forall i | 0 <= i < |events|
      ensures Sound(l, states[i], events[i], states[i + 1])
    {
      if events[i].Wrote? {
        LengthOf(l, states, i + 1);
        FrontIsSound(l, states[i], states[i + 1]);
      }
    }
    CrashAtomicity(l, states, events, recs);
  }

  lemma LengthOf(l: Layout, states: seq<State>, i: nat)
    requires Shapes(l, states) && i < |states|
    ensures l.Valid() && |states[i].other| == l.regionSize
  {
    assert Shape(l, states[i]);
  }

  /** With regions of a single erase unit it holds of all runs over any flash. */
  lemma OneUnitAtomicity(l: Layout, states: seq<State>, events: seq<Event>, recs: seq<Record>)
    requires |states| > 0 && Inv(l, states[0], recs, None, None) && HeaderInOneUnit(l)
    requires Run(l, states, events) && l.regionSize == l.eraseSize
    ensures Explained(l, states, events)
    ensures exists t ::
              && Mount(l, states[|events|].First(), states[|events|].Second()) == Mounted(t)
              && Shapes(l, states + [t]) && Explained(l, states + [t], events + [Restarted])
  {
    hide Explained, Inv, Step, Mount, Shape, Misread;
    forall i | 0 <= i < |events|
      ensures Sound(l, states[i], events[i], states[i + 1])
    {
      LengthOf(l, states, i + 1);
      if Misread(l, states[i], states[i + 1]) {
        MisreadNeeds(l, states[i], states[i + 1]);
      }
    }
    CrashAtomicity(l, states, events, recs);
  }

  lemma MountedAgain(l: Layout, s: State, recs: seq<Record>, pending: Option<Record>, held: Option<Record>)
    returns (t: State)
    requires Inv(l, s, recs, pending, held)
    ensures Mount(l, s.First(), s.Second()) == Mounted(t) && Shape(l, t)
    ensures Step(l, s, Restarted, t) && Sound(l, s, Restarted, t)
  {
    hide Mount;
    var recs';
    t, recs' := MountKeeps(l, s, recs, pending, held);
  }

  // ---------- what the caller can do about it ----------

  /** Mount again after every write that failed with a flash error. */
  predicate Prudent(events: seq<Event>) {
    forall i :: 0 < i < |events| && events[i - 1].Stopped() ==> events[i].Restarted?
  }

  /** Along a prudent run the other region counts for more only right behind a flash error. */
  lemma {:induction false} PrudentKeeps(l: Layout, states: seq<State>, events: seq<Event>, recs: seq<Record>, n: nat)
    returns (recs': seq<Record>, pending: Option<Record>, held: Option<Record>)
    requires |states| > 0 && Inv(l, states[0], recs, None, None) && OtherIsOlder(l, states[0]) && HeaderInOneUnit(l)
    requires Run(l, states, events) && Prudent(events) && n <= |events|
    ensures Inv(l, states[n], recs', pending, held)
    ensures OtherIsOlder(l, states[n]) || (held.Some? && 0 < n && events[n - 1].Stopped())
    ensures 0 < n && events[n - 1].Wrote? ==> OtherIsOlder(l, states[n - 1])
    ensures 0 < n ==> Sound(l, states[n - 1], events[n - 1], states[n])
  {
    hide Inv, Step, SpecStep, Shape, OtherIsOlder, Misread, Prudent;
    if n == 0 {
      return recs, None, None;
    }
    PrefixRun(l, states, events, n - 1);
    recs', pending, held := PrudentKeeps(l, states, events, recs, n - 1);
    if events[n - 1].Wrote? {
      AfterFlashError(events, n - 1);
      OlderIsSound(l, states[n - 1], states[n]);
    }
    recs', pending, held := StepRefines(l, states[n - 1], recs', pending, held, events[n - 1], states[n]);
  }

  lemma AfterFlashError(events: seq<Event>, n: nat)
    requires Prudent(events) && n < |events| && events[n].Wrote?
    ensures 0 < n ==> !events[n - 1].Stopped()
  {
  }

  lemma OlderIsSound(l: Layout, s: State, t: State)
    requires Shape(l, s) && Shape(l, t) && HeaderInOneUnit(l) && OtherIsOlder(l, s)
    ensures !Misread(l, s, t)
  {
    hide Inspect, Misread;
    if Misread(l, s, t) {
      MisreadNeeds(l, s, t);
    }
  }

  ghost predicate NothingLost(l: Layout, states: seq<State>, events: seq<Event>)
    requires |states| == |events| + 1 && Shapes(l, states)
  {
    exists kept ::
      && Explains(l, states, events, kept)
      && Outcomes(states[0].mirror, events, kept) == states[|events|].mirror
      && forall i :: 0 <= i < |events| && events[i].Acknowledged() ==> kept[i]
  }

  /**
    For a caller that mounts again after every flash error nothing can be misread and
    nothing acknowledged is ever lost, whatever erase units the regions consist of.
    This holds at every moment, and of the image that a mount then gives.
   */
  lemma PrudentAtomicity(l: Layout, states: seq<State>, events: seq<Event>, recs: seq<Record>)
    requires |states| > 0 && Inv(l, states[0], recs, None, None) && OtherIsOlder(l, states[0]) && HeaderInOneUnit(l)
    requires Run(l, states, events) && Prudent(events)
    ensures AllSound(l, states, events) && NothingLost(l, states, events)
    ensures exists t ::
              && Mount(l, states[|events|].First(), states[|events|].Second()) == Mounted(t) && OtherIsOlder(l, t)
              && Shapes(l, states + [t]) && NothingLost(l, states + [t], events + [Restarted])
  {
    hide Inv, Step, Shape, OtherIsOlder, NothingLost, Mount;
    PrudentLosesNothing(l, states, events, recs);
    var recs', pending, held := PrudentKeeps(l, states, events, recs, |events|);
    var t := MountedAgain(l, states[|events|], recs', pending, held);
    var states', events' := states + [t], events + [Restarted];
    RunMore(l, states, events, t);
    PrudentLosesNothing(l, states', events', recs);
    var recs'', pending'', held'' := PrudentKeeps(l, states', events', recs, |events'|);
  }

  lemma RunMore(l: Layout, states: seq<State>, events: seq<Event>, t: State)
    requires Run(l, states, events) && Shape(l, t) && Step(l, states[|events|], Restarted, t)
    ensures Run(l, states + [t], events + [Restarted])
    ensures Prudent(events) ==> Prudent(events + [Restarted])
  {
    hide Step, Shape;
  }

  lemma PrudentLosesNothing(l: Layout, states: seq<State>, events: seq<Event>, recs: seq<Record>)
    requires |states| > 0 && Inv(l, states[0], recs, None, None) && OtherIsOlder(l, states[0]) && HeaderInOneUnit(l)
    requires Run(l, states, events) && Prudent(events)
    ensures AllSound(l, states, events) && NothingLost(l, states, events)
  {
    hide Inv, Step, Shape, Outcomes, Prudent, OtherIsOlder, Misread, Outstanding, HeldSince, TakesOver, SettledAt;
    forall i | 0 <= i < |events|
      ensures Sound(l, states[i], events[i], states[i + 1])
      ensures events[i].Acknowledged() ==> !Lost(l, states, events, i)
    {
      var r, p, h := PrudentKeeps(l, states, events, recs, i + 1);
      if events[i].Wrote? {
        OlderIsNotNewer(l, states[i]);
      }
    }
    var kept, p, c, recs', pending, held := ExplainRun(l, states, events, recs);
    forall i | 0 <= i < |events| && events[i].Acknowledged()
      ensures kept[i]
    {
      assert ExplainsAt(l, states, events, kept, i);
    }
  }

  lemma OlderIsNotNewer(l: Layout, s: State)
    requires Shape(l, s) && OtherIsOlder(l, s)
    ensures !TakesOver(l, s)
  {
    hide Inspect, LoadRegion;
  }

  // ---------- remounting after success ----------

  /** The image after every write of a run of writes. */
  function AllApplied(image: seq<byte>, events: seq<Event>): seq<byte>
    requires forall e :: e in events ==> e.Wrote?
    decreases events
  {
    if events == [] then image
    else
      var last := events[|events| - 1];
      Put(AllApplied(image, events[..|events| - 1]), last.offset, last.data)
  }

  ghost predicate AllSucceed(events: seq<Event>) {
    forall e :: e in events ==> e.Wrote? && e.r.Pass?
  }

  lemma {:induction false} SuccessfulRun(l: Layout, states: seq<State>, events: seq<Event>, recs: seq<Record>)
    returns (recs': seq<Record>)
    requires |states| > 0 && Inv(l, states[0], recs, None, None)
    requires Run(l, states, events) && AllSucceed(events)
    ensures var t := states[|events|];
            && Inv(l, t, recs', None, None)
            && t.mirror == AllApplied(states[0].mirror, events)
            && (t.unusable ==> states[0].unusable && forall e :: e in events ==> |e.data| == 0)
    decreases events
  {
    hide Inv, Step, Shape, Put, Sound;
    if events == [] {
      return recs;
    }
    var n := |events| - 1;
    PrefixRun(l, states, events, n);
    recs' := SuccessfulRun(l, states[..n + 1], events[..n], recs);
    var e := events[n];
    assert e in events;
    recs' := SuccessfulStep(l, states[n], recs', e, states[n + 1]);
  }

  lemma SuccessfulStep(l: Layout, s: State, recs: seq<Record>, e: Event, t: State)
    returns (recs': seq<Record>)
    requires Inv(l, s, recs, None, None)
    requires e.Wrote? && e.r.Pass? && Step(l, s, e, t)
    ensures Inv(l, t, recs', None, None)
    ensures t.mirror == Put(s.mirror, e.offset, e.data)
    ensures t.unusable ==> s.unusable && |e.data| == 0
  {
    hide LogInv, TailInv, WriteRel, Inspect, OtherInv, OtherIsOlder;
    var pending', held';
    recs', pending', held' := WriteKeeps(l, s, recs, None, None, e.offset, e.data, Pass, t);
    if |e.data| == 0 {
      EmptyPut(s.mirror, e.offset, e.data);
    }
  }

  lemma EmptyPut(image: seq<byte>, offset: nat, data: seq<byte>)
    requires |data| == 0
    ensures Put(image, offset, data) == image
  {
  }

  /**
    Remount refinement: after any run of successful writes, with whatever
    compactions they needed, mounting rebuilds the live object exactly: mirror,
    generation, last sequence, append position and active region. Only the flag for
    an unusable tail may differ: it is set exactly if the tail is not erased or is
    too short for one more record header and marker.
   */
  lemma RemountRefinement(l: Layout, states: seq<State>, events: seq<Event>, recs: seq<Record>)
    requires |states| > 0 && Inv(l, states[0], recs, None, None)
    requires Run(l, states, events) && AllSucceed(events)
    ensures var t := states[|events|];
            var unusable := !ErasedFrom(t.own, t.append)
                            || t.append + l.RecordHeaderSize() + l.CommitSize() > l.regionSize;
            && Mount(l, t.First(), t.Second()) == Mounted(t.(unusable := unusable))
            && t.mirror == AllApplied(states[0].mirror, events)
    ensures states[|events|].unusable ==> states[0].unusable && forall e :: e in events ==> |e.data| == 0
  {
    hide Inv, Step, Mount, Shape, ErasedFrom;
    var recs' := SuccessfulRun(l, states, events, recs);
    var t := states[|events|];
    var u, recs'' := MountKeeps(l, t, recs', None, None);
  }
}
