/** Atomic secure writes: create a temporary file, restrict it, write, sync, and
    rename it over the target. Any step may fail, many writers may interleave, and a
    process or the machine may stop between any two steps. */
module AtomicWrite {
  import opened Bytes
  import opened Options
  import TempNames

  // ---- The file system ---------------------------------------------------------------

  /** A file's contents, whether they are all on disk, and whether its mode is 0600. */
  datatype Inode = Inode(data: seq<byte>, synced: bool, private: bool)

  datatype Fs = Fs(names: map<string, nat>, inodes: seq<Inode>)
  {
    ghost predicate Valid() {
      forall p | p in names :: names[p] < |inodes|
    }

    predicate Has(p: string) {
      p in names
    }

    /** The file a path leads to. */
    function At(p: string): Inode
      requires Valid() && Has(p)
    {
      inodes[names[p]]
    }
  }

  /** Creating truncates a file that is there and keeps its mode. */
  function Create(fs: Fs, p: string): (r: Fs)
    requires fs.Valid()
    ensures r.Valid() && r.Has(p)
  {
    if fs.Has(p) then fs.(inodes := fs.inodes[fs.names[p] := fs.At(p).(data := [], synced := false)])
    else Fs(fs.names[p := |fs.inodes|], fs.inodes + [Inode([], false, false)])
  }

  function Restrict(fs: Fs, p: string): (r: Fs)
    requires fs.Valid() && fs.Has(p)
    ensures r.Valid()
  {
    fs.(inodes := fs.inodes[fs.names[p] := fs.At(p).(private := true)])
  }

  function Append(fs: Fs, handle: nat, bytes: seq<byte>): (r: Fs)
    requires fs.Valid() && handle < |fs.inodes|
    ensures r.Valid()
  {
    var node := fs.inodes[handle];
    fs.(inodes := fs.inodes[handle := node.(data := node.data + bytes, synced := false)])
  }

  function Sync(fs: Fs, handle: nat): (r: Fs)
    requires fs.Valid() && handle < |fs.inodes|
    ensures r.Valid()
  {
    fs.(inodes := fs.inodes[handle := fs.inodes[handle].(synced := true)])
  }

  function Rename(fs: Fs, from: string, to: string): (r: Fs)
    requires fs.Valid() && fs.Has(from)
    ensures r.Valid()
  {
    fs.(names := (fs.names - {from})[to := fs.names[from]])
  }

  function Remove(fs: Fs, p: string): (r: Fs)
    requires fs.Valid()
    ensures r.Valid()
  {
    fs.(names := fs.names - {p})
  }

  // ---- Writers -------------------------------------------------------------------------

  /** How far a writer has got; `Removed` and `Leaked` end a failed write, whose
      clean-up worked or did not, and `Stopped` one that was cut short. */
  datatype Phase =
    | Idle
    | Opened
    | Writing(done: nat)
    | Flushed
    | Replaced
    | Failing
    | Removed
    | Leaked
    | Stopped

  datatype Writer = Writer(target: string, temp: string, data: seq<byte>, handle: Option<nat>, phase: Phase)

  /** A namespace the disk may come back with, and the renames it includes. */
  datatype Snapshot = Snapshot(names: map<string, nat>, renames: seq<nat>)

  datatype State = State(fs: Fs, writers: seq<Writer>, renames: seq<nat>, past: seq<Snapshot>, lost: bool)

  datatype Event =
    | CreateTemp(w: nat, ok: bool)
    | RestrictTemp(w: nat, ok: bool)
    | WriteChunk(w: nat, count: nat, ok: bool)
    | SyncTemp(w: nat, ok: bool)
    | RenameTemp(w: nat, ok: bool)
    | RemoveTemp(w: nat, ok: bool)
    | Stop(w: nat)
    | PowerLoss(snapshot: nat, inodes: seq<Inode>)

  /** At work: started and neither finished nor given up. */
  predicate Busy(p: Phase) {
    p.Opened? || p.Writing? || p.Flushed? || p.Failing?
  }

  /** The writer has its file open. */
  predicate Holds(fs: Fs, x: Writer) {
    x.handle.Some? && x.handle.value < |fs.inodes|
  }

  ghost predicate Enabled(s: State, e: Event) {
    && s.fs.Valid()
    && (e.PowerLoss? || e.w < |s.writers|)
    && match e
       case CreateTemp(w, _) => s.writers[w].phase.Idle?
       case RestrictTemp(w, ok) => s.writers[w].phase.Opened? && (ok ==> s.fs.Has(s.writers[w].temp))
       case WriteChunk(w, count, _) =>
         var x := s.writers[w];
         x.phase.Writing? && Holds(s.fs, x) && x.phase.done + count <= |x.data|
       case SyncTemp(w, _) =>
         var x := s.writers[w];
         x.phase.Writing? && Holds(s.fs, x) && x.phase.done == |x.data|
       case RenameTemp(w, ok) => s.writers[w].phase.Flushed? && (ok ==> s.fs.Has(s.writers[w].temp))
       case RemoveTemp(w, _) => s.writers[w].phase.Failing?
       case Stop(w) => Busy(s.writers[w].phase)
       case PowerLoss(k, inodes) =>
         // Synced files come back as they were; the others hold anything at all.
         && k < |s.past| && Fs(s.past[k].names, inodes).Valid()
         && |inodes| == |s.fs.inodes|
         && forall i | 0 <= i < |inodes| && s.fs.inodes[i].synced :: inodes[i] == s.fs.inodes[i]
  }

  function Moved(s: State, w: nat, fs: Fs, phase: Phase): State
    requires w < |s.writers|
  {
    s.(fs := fs, writers := s.writers[w := s.writers[w].(phase := phase)])
  }

  /** Every change of the namespace may be the last that reaches the disk. */
  function Noted(s: State): State {
    s.(past := s.past + [Snapshot(s.fs.names, s.renames)])
  }

  function Step(s: State, e: Event): State
    requires Enabled(s, e)
  {
    match e
    case CreateTemp(w, ok) =>
      if !ok then Moved(s, w, s.fs, Failing)
      else
        var fs, x := Create(s.fs, s.writers[w].temp), s.writers[w];
        Noted(s.(fs := fs, writers := s.writers[w := x.(handle := Some(fs.names[x.temp]), phase := Opened)]))
    case RestrictTemp(w, ok) =>
      if !ok then Moved(s, w, s.fs, Failing) else Moved(s, w, Restrict(s.fs, s.writers[w].temp), Writing(0))
    case WriteChunk(w, count, ok) =>
      var x := s.writers[w];
      Moved(s, w, Append(s.fs, x.handle.value, x.data[x.phase.done..x.phase.done + count]),
            if ok then Writing(x.phase.done + count) else Failing)
    case SyncTemp(w, ok) =>
      if !ok then Moved(s, w, s.fs, Failing) else Moved(s, w, Sync(s.fs, s.writers[w].handle.value), Flushed)
    case RenameTemp(w, ok) =>
      if !ok then Moved(s, w, s.fs, Failing)
      else
        var x := s.writers[w];
        Noted(Moved(s, w, Rename(s.fs, x.temp, x.target), Replaced).(renames := s.renames + [w]))
    case RemoveTemp(w, ok) =>
      if !ok then Moved(s, w, s.fs, Leaked) else Noted(Moved(s, w, Remove(s.fs, s.writers[w].temp), Removed))
    case Stop(w) => Moved(s, w, s.fs, Stopped)
    case PowerLoss(k, inodes) =>
      s.(fs := Fs(s.past[k].names, inodes),
         renames := s.past[k].renames,
         writers := seq(|s.writers|, i requires 0 <= i < |s.writers| =>
           if Busy(s.writers[i].phase) then s.writers[i].(phase := Stopped) else s.writers[i]),
         lost := true)
  }

  // ---- Runs ------------------------------------------------------------------------------

  ghost predicate Initial(s: State) {
    && s.fs.Valid() && (forall i | 0 <= i < |s.fs.inodes| :: s.fs.inodes[i].synced)
    && s.renames == [] && s.past == [Snapshot(s.fs.names, [])] && !s.lost
    && (forall w | 0 <= w < |s.writers| ::
          s.writers[w].phase.Idle? && s.writers[w].handle.None? && !s.fs.Has(s.writers[w].temp))
    && DistinctNames(s.writers)
  }

  /** Random suffixes: no two writers share a temporary name, and none is a target. */
  ghost predicate DistinctNames(writers: seq<Writer>) {
    && (forall v, w | 0 <= v < w < |writers| :: writers[v].temp != writers[w].temp)
    && (forall v, w | 0 <= v < |writers| && 0 <= w < |writers| :: writers[v].temp != writers[w].target)
  }

  /** Writers of files of any directories are so named when their 64-bit suffixes
      differ, unless one of the files is itself called like a temporary file. */
  lemma SuffixesGiveDistinctNames(writers: seq<Writer>, dirs: seq<string>, bases: seq<string>, suffixes: seq<nat>)
    requires |dirs| == |bases| == |suffixes| == |writers|
    requires forall w | 0 <= w < |writers| ::
               && suffixes[w] < TempNames.Power16(16)
               && writers[w].target == dirs[w] + bases[w]
               && writers[w].temp == dirs[w] + TempNames.TempName(bases[w], suffixes[w])
    requires forall v, w | 0 <= v < w < |suffixes| :: suffixes[v] != suffixes[w]
    requires forall v, w | 0 <= v < |writers| && 0 <= w < |writers| ::
               writers[v].target == writers[w].target || !TempNames.EndsTemporary(writers[w].target)
    ensures DistinctNames(writers)
  {
    forall v, w | 0 <= v < w < |writers|
      ensures writers[v].temp != writers[w].temp
    {
      TempNames.SuffixesDecide(dirs[v], bases[v], suffixes[v], dirs[w], bases[w], suffixes[w]);
    }
    forall v, w | 0 <= v < |writers| && 0 <= w < |writers|
      ensures writers[v].temp != writers[w].target
    {
      TempNames.TempIsNotTarget(dirs[v], bases[v], suffixes[v]);
    }
  }

  ghost predicate StepAt(ss: seq<State>, es: seq<Event>, i: nat)
    requires |ss| == |es| + 1 && i < |es|
  {
    Enabled(ss[i], es[i]) && ss[i + 1] == Step(ss[i], es[i])
  }

  ghost predicate IsRun(ss: seq<State>, es: seq<Event>) {
    && |ss| == |es| + 1 && Initial(ss[0])
    && forall i | 0 <= i < |es| :: StepAt(ss, es, i)
  }

  /** The last of the listed writers that renamed over `p`. */
  function LastOver(p: string, renames: seq<nat>, writers: seq<Writer>): (r: Option<nat>)
    requires forall i | 0 <= i < |renames| :: renames[i] < |writers|
    ensures r.Some? ==> r.value in renames && writers[r.value].target == p
    ensures r.None? ==> forall i | 0 <= i < |renames| :: writers[renames[i]].target != p
  {
    if renames == [] then None
    else
      var w := renames[|renames| - 1];
      if writers[w].target == p then Some(w) else LastOver(p, renames[..|renames| - 1], writers)
  }

  // ---- The invariant ---------------------------------------------------------------------------

  ghost predicate IsTemp(p: string, writers: seq<Writer>) {
    exists w :: 0 <= w < |writers| && writers[w].temp == p
  }

  /** A namespace tells the truth about the renames it includes: a path that is no
      temporary name leads to the last writer's file, or where it led at the start. */
  ghost predicate Honest(snap: Snapshot, init: Fs, writers: seq<Writer>) {
    && (forall i | 0 <= i < |snap.renames| ::
          snap.renames[i] < |writers| && writers[snap.renames[i]].phase.Replaced?)
    && (forall p | !IsTemp(p, writers) ::
          match LastOver(p, snap.renames, writers)
          case None => (p in snap.names <==> init.Has(p)) && (init.Has(p) ==> snap.names[p] == init.names[p])
          case Some(w) => p in snap.names && Some(snap.names[p]) == writers[w].handle)
    && (forall w | 0 <= w < |writers| && writers[w].temp in snap.names ::
          Some(snap.names[writers[w].temp]) == writers[w].handle)
  }

  /** What a writer's file holds at each phase. */
  ghost predicate FileFits(x: Writer, node: Inode, lost: bool) {
    match x.phase
    case Idle => false
    case Opened => node.data == []
    case Writing(done) => done <= |x.data| && node.data == x.data[..done] && node.private
    case Flushed => node == Inode(x.data, true, true)
    case Replaced => node == Inode(x.data, true, true)
    case _ => lost || node.data == [] || node.private
  }

  /** A writer without a file has not started or could not create one. */
  ghost predicate WriterFits(x: Writer, inodes: seq<Inode>, init: Fs, lost: bool) {
    if x.handle.None? then x.phase.Idle? || x.phase.Failing? || x.phase.Removed? || x.phase.Leaked? || x.phase.Stopped?
    else |init.inodes| <= x.handle.value < |inodes| && FileFits(x, inodes[x.handle.value], lost)
  }

  ghost predicate FilesFit(inodes: seq<Inode>, writers: seq<Writer>, init: Fs, lost: bool) {
    && |init.inodes| <= |inodes|
    && (forall i | 0 <= i < |init.inodes| :: inodes[i] == init.inodes[i] && init.inodes[i].synced)
    && (forall w | 0 <= w < |writers| :: WriterFits(writers[w], inodes, init, lost))
    && (forall v, w | 0 <= v < w < |writers| && writers[v].handle.Some? :: writers[v].handle != writers[w].handle)
  }

  ghost predicate NoResidue(s: State) {
    forall w | 0 <= w < |s.writers| && s.fs.Has(s.writers[w].temp) ::
      !s.writers[w].phase.Replaced? && !s.writers[w].phase.Removed?
  }

  ghost predicate Inv(s: State, init: Fs) {
    && s.fs.Valid() && init.Valid() && DistinctNames(s.writers)
    && FilesFit(s.fs.inodes, s.writers, init, s.lost)
    && Honest(Snapshot(s.fs.names, s.renames), init, s.writers)
    && (forall k | 0 <= k < |s.past| :: Honest(s.past[k], init, s.writers))
    && (!s.lost ==> NoResidue(s))
  }

  /** What steps never take away from a writer. */
  ghost predicate Extends(before: seq<Writer>, after: seq<Writer>) {
    && |before| == |after|
    && forall w | 0 <= w < |before| ::
         && after[w].target == before[w].target && after[w].temp == before[w].temp && after[w].data == before[w].data
         && (before[w].handle.Some? ==> after[w].handle == before[w].handle)
         && (before[w].phase.Replaced? ==> after[w].phase.Replaced? && before[w].handle.Some?)
  }

  lemma {:induction false} LastOverKeeps(p: string, renames: seq<nat>, before: seq<Writer>, after: seq<Writer>)
    requires Extends(before, after) && forall i | 0 <= i < |renames| :: renames[i] < |before|
    ensures LastOver(p, renames, before) == LastOver(p, renames, after)
  {
    if renames != [] {
      LastOverKeeps(p, renames[..|renames| - 1], before, after);
    }
  }

  lemma IsTempKeeps(p: string, before: seq<Writer>, after: seq<Writer>)
    requires Extends(before, after)
    ensures IsTemp(p, before) == IsTemp(p, after)
  {
    if IsTemp(p, before) {
      var w :| 0 <= w < |before| && before[w].temp == p;
      assert after[w].temp == p;
    }
    if IsTemp(p, after) {
      var w :| 0 <= w < |after| && after[w].temp == p;
      assert before[w].temp == p;
    }
  }

  lemma HonestKeeps(snap: Snapshot, init: Fs, before: seq<Writer>, after: seq<Writer>)
    requires Honest(snap, init, before) && Extends(before, after)
    ensures Honest(snap, init, after)
  {
    forall p | !IsTemp(p, after)
      ensures match LastOver(p, snap.renames, after)
              case None => (p in snap.names <==> init.Has(p)) && (init.Has(p) ==> snap.names[p] == init.names[p])
              case Some(w) => p in snap.names && Some(snap.names[p]) == after[w].handle
    {
      IsTempKeeps(p, before, after);
      LastOverKeeps(p, snap.renames, before, after);
    }
  }

  lemma PastKeeps(s: State, init: Fs, after: seq<Writer>)
    requires Inv(s, init) && Extends(s.writers, after)
    ensures Honest(Snapshot(s.fs.names, s.renames), init, after)
    ensures forall k | 0 <= k < |s.past| :: Honest(s.past[k], init, after)
  {
    HonestKeeps(Snapshot(s.fs.names, s.renames), init, s.writers, after);
    forall k | 0 <= k < |s.past|
      ensures Honest(s.past[k], init, after)
    {
      HonestKeeps(s.past[k], init, s.writers, after);
    }
  }

  lemma PastGrows(past: seq<Snapshot>, snap: Snapshot, init: Fs, writers: seq<Writer>)
    requires forall k | 0 <= k < |past| :: Honest(past[k], init, writers)
    requires Honest(snap, init, writers)
    ensures forall k | 0 <= k < |past + [snap]| :: Honest((past + [snap])[k], init, writers)
  {
  }

  // ---- Every step keeps it ------------------------------------------------------------------------

  lemma InitialInv(s: State)
    requires Initial(s)
    ensures Inv(s, s.fs)
  {
  }

  /** A step that changes one writer and at most the bytes of its own file. */
  lemma OwnFileKeeps(s: State, init: Fs, w: nat, inodes: seq<Inode>, x: Writer)
    requires FilesFit(s.fs.inodes, s.writers, init, s.lost) && w < |s.writers| && x.handle == s.writers[w].handle
    requires WriterFits(x, inodes, init, s.lost) && |inodes| == |s.fs.inodes|
    requires forall i | 0 <= i < |inodes| && Some(i) != x.handle :: inodes[i] == s.fs.inodes[i]
    ensures FilesFit(inodes, s.writers[w := x], init, s.lost)
  {
    var writers := s.writers[w := x];
    assert x.handle.Some? ==> x.handle.value >= |init.inodes|;
    forall v | 0 <= v < |writers|
      ensures WriterFits(writers[v], inodes, init, s.lost)
    {
      assert WriterFits(s.writers[v], s.fs.inodes, init, s.lost);
    }
  }

  /** Such a step that leaves the namespace alone keeps the invariant. */
  lemma QuietStepKeeps(s: State, init: Fs, w: nat, fs: Fs, phase: Phase)
    requires Inv(s, init) && w < |s.writers| && fs.names == s.fs.names && fs.Valid()
    requires !s.writers[w].phase.Replaced? && !phase.Replaced? && !phase.Removed?
    requires WriterFits(s.writers[w].(phase := phase), fs.inodes, init, s.lost) && |fs.inodes| == |s.fs.inodes|
    requires forall i | 0 <= i < |fs.inodes| && Some(i) != s.writers[w].handle :: fs.inodes[i] == s.fs.inodes[i]
    ensures Inv(Moved(s, w, fs, phase), init)
  {
    var t := Moved(s, w, fs, phase);
    OwnFileKeeps(s, init, w, fs.inodes, s.writers[w].(phase := phase));
    PastKeeps(s, init, t.writers);
  }

  lemma FailureKeeps(s: State, init: Fs, e: Event)
    requires Inv(s, init) && Enabled(s, e) && !e.Stop? && !e.PowerLoss? && !e.WriteChunk? && !e.ok
    ensures Inv(Step(s, e), init)
  {
    assert WriterFits(s.writers[e.w], s.fs.inodes, init, s.lost);
    QuietStepKeeps(s, init, e.w, s.fs, if e.RemoveTemp? then Leaked else Failing);
  }

  lemma StopKeeps(s: State, init: Fs, w: nat)
    requires Inv(s, init) && Enabled(s, Stop(w))
    ensures Inv(Step(s, Stop(w)), init)
  {
    assert WriterFits(s.writers[w], s.fs.inodes, init, s.lost);
    QuietStepKeeps(s, init, w, s.fs, Stopped);
  }

  lemma RestrictKeeps(s: State, init: Fs, w: nat)
    requires Inv(s, init) && Enabled(s, RestrictTemp(w, true))
    ensures Inv(Step(s, RestrictTemp(w, true)), init)
  {
    var x := s.writers[w];
    assert WriterFits(x, s.fs.inodes, init, s.lost);
    assert Some(s.fs.names[x.temp]) == x.handle;
    assert x.data[..0] == [];
    QuietStepKeeps(s, init, w, Restrict(s.fs, x.temp), Writing(0));
  }

  lemma AppendFits(x: Writer, node: Inode, count: nat, lost: bool)
    requires x.phase.Writing? && FileFits(x, node, lost) && x.phase.done + count <= |x.data|
    ensures var done := x.phase.done;
            var grown := Inode(node.data + x.data[done..done + count], false, node.private);
            FileFits(x.(phase := Writing(done + count)), grown, lost) && FileFits(x.(phase := Failing), grown, lost)
  {
    var done := x.phase.done;
    assert x.data[..done] + x.data[done..done + count] == x.data[..done + count];
  }

  lemma WriteKeeps(s: State, init: Fs, w: nat, count: nat, ok: bool)
    requires Inv(s, init) && Enabled(s, WriteChunk(w, count, ok))
    ensures Inv(Step(s, WriteChunk(w, count, ok)), init)
  {
    var x := s.writers[w];
    assert WriterFits(x, s.fs.inodes, init, s.lost);
    var done, h := x.phase.done, x.handle.value;
    AppendFits(x, s.fs.inodes[h], count, s.lost);
    var fs := Append(s.fs, h, x.data[done..done + count]);
    assert fs.inodes[h] == Inode(s.fs.inodes[h].data + x.data[done..done + count], false, s.fs.inodes[h].private);
    QuietStepKeeps(s, init, w, fs, if ok then Writing(done + count) else Failing);
  }

  lemma SyncKeeps(s: State, init: Fs, w: nat)
    requires Inv(s, init) && Enabled(s, SyncTemp(w, true))
    ensures Inv(Step(s, SyncTemp(w, true)), init)
  {
    var x := s.writers[w];
    assert WriterFits(x, s.fs.inodes, init, s.lost);
    assert x.data[..|x.data|] == x.data;
    QuietStepKeeps(s, init, w, Sync(s.fs, x.handle.value), Flushed);
  }

  lemma CreateFits(s: State, init: Fs, w: nat)
    requires Inv(s, init) && Enabled(s, CreateTemp(w, true))
    requires s.writers[w].handle.None? && !s.fs.Has(s.writers[w].temp)
    ensures var t := Step(s, CreateTemp(w, true)); FilesFit(t.fs.inodes, t.writers, init, t.lost)
  {
    var t := Step(s, CreateTemp(w, true));
    forall v | 0 <= v < |t.writers|
      ensures WriterFits(t.writers[v], t.fs.inodes, init, t.lost)
    {
      assert WriterFits(s.writers[v], s.fs.inodes, init, s.lost);
    }
    forall v | 0 <= v < |s.writers| && s.writers[v].handle.Some?
      ensures s.writers[v].handle.value < |s.fs.inodes|
    {
      assert WriterFits(s.writers[v], s.fs.inodes, init, s.lost);
    }
  }

  /** A namespace that gains the temporary name of a writer without one stays honest. */
  lemma HonestGainsTemp(snap: Snapshot, init: Fs, writers: seq<Writer>, w: nat, handle: nat)
    requires Honest(snap, init, writers) && DistinctNames(writers) && w < |writers|
    requires writers[w].handle == Some(handle)
    ensures Honest(snap.(names := snap.names[writers[w].temp := handle]), init, writers)
  {
    assert IsTemp(writers[w].temp, writers);
  }

  lemma CreateKeeps(s: State, init: Fs, w: nat)
    requires Inv(s, init) && Enabled(s, CreateTemp(w, true))
    ensures Inv(Step(s, CreateTemp(w, true)), init)
  {
    var t, x := Step(s, CreateTemp(w, true)), s.writers[w];
    assert WriterFits(x, s.fs.inodes, init, s.lost) && x.handle.None?;
    assert !s.fs.Has(x.temp);
    CreateFits(s, init, w);
    PastKeeps(s, init, t.writers);
    HonestGainsTemp(Snapshot(s.fs.names, s.renames), init, t.writers, w, |s.fs.inodes|);
    PastGrows(s.past, Snapshot(t.fs.names, t.renames), init, t.writers);
    assert DistinctNames(t.writers);
    assert !s.lost ==> NoResidue(t) by {
      assert !s.lost ==> NoResidue(s);
    }
  }

  /** A namespace that loses a temporary name stays honest. */
  lemma HonestLosesTemp(snap: Snapshot, init: Fs, writers: seq<Writer>, w: nat)
    requires Honest(snap, init, writers) && w < |writers|
    ensures Honest(snap.(names := snap.names - {writers[w].temp}), init, writers)
  {
    assert IsTemp(writers[w].temp, writers);
  }

  lemma ResidueKeeps(s: State, w: nat, names: map<string, nat>, phase: Phase)
    requires NoResidue(s) && w < |s.writers|
    requires forall v | 0 <= v < |s.writers| && s.writers[v].temp in names :: s.fs.Has(s.writers[v].temp) && v != w
    ensures NoResidue(Moved(s, w, s.fs.(names := names), phase))
  {
  }

  /** A step that changes the namespace and one writer's phase. */
  lemma NamespaceStepKeeps(s: State, init: Fs, w: nat, names: map<string, nat>, renames: seq<nat>, phase: Phase)
    requires Inv(s, init) && w < |s.writers| && Fs(names, s.fs.inodes).Valid()
    requires !s.writers[w].phase.Replaced? && (phase.Replaced? ==> s.writers[w].handle.Some?)
    requires WriterFits(s.writers[w].(phase := phase), s.fs.inodes, init, s.lost)
    requires Honest(Snapshot(names, renames), init, s.writers[w := s.writers[w].(phase := phase)])
    requires forall v | 0 <= v < |s.writers| && s.writers[v].temp in names :: s.fs.Has(s.writers[v].temp) && v != w
    ensures Inv(Noted(Moved(s, w, s.fs.(names := names), phase).(renames := renames)), init)
  {
    var t := Noted(Moved(s, w, s.fs.(names := names), phase).(renames := renames));
    OwnFileKeeps(s, init, w, s.fs.inodes, s.writers[w].(phase := phase));
    PastKeeps(s, init, t.writers);
    PastGrows(s.past, Snapshot(names, renames), init, t.writers);
    if !s.lost {
      ResidueKeeps(s, w, names, phase);
    }
    assert DistinctNames(t.writers);
  }

  lemma RemoveKeeps(s: State, init: Fs, w: nat)
    requires Inv(s, init) && Enabled(s, RemoveTemp(w, true))
    ensures Inv(Step(s, RemoveTemp(w, true)), init)
  {
    var x := s.writers[w];
    var after := s.writers[w := x.(phase := Removed)];
    assert WriterFits(x, s.fs.inodes, init, s.lost);
    HonestKeeps(Snapshot(s.fs.names, s.renames), init, s.writers, after);
    HonestLosesTemp(Snapshot(s.fs.names, s.renames), init, after, w);
    assert after[w].temp == x.temp;
    NamespaceStepKeeps(s, init, w, s.fs.names - {x.temp}, s.renames, Removed);
  }

  lemma LastOverAppend(p: string, renames: seq<nat>, writers: seq<Writer>, w: nat)
    requires w < |writers| && forall i | 0 <= i < |renames| :: renames[i] < |writers|
    ensures LastOver(p, renames + [w], writers) ==
            if writers[w].target == p then Some(w) else LastOver(p, renames, writers)
  {
    assert (renames + [w])[..|renames + [w]| - 1] == renames;
  }

  /** Renaming adds the writer to the renames and its file under its target. */
  lemma HonestRenames(snap: Snapshot, init: Fs, writers: seq<Writer>, w: nat, handle: nat)
    requires Honest(snap, init, writers) && DistinctNames(writers) && w < |writers|
    requires writers[w].phase.Replaced? && writers[w].handle == Some(handle)
    ensures var names := (snap.names - {writers[w].temp})[writers[w].target := handle];
            Honest(Snapshot(names, snap.renames + [w]), init, writers)
  {
    var names := (snap.names - {writers[w].temp})[writers[w].target := handle];
    var renames := snap.renames + [w];
    forall p | !IsTemp(p, writers)
      ensures match LastOver(p, renames, writers)
              case None => (p in names <==> init.Has(p)) && (init.Has(p) ==> names[p] == init.names[p])
              case Some(v) => p in names && Some(names[p]) == writers[v].handle
    {
      LastOverAppend(p, snap.renames, writers, w);
      assert p != writers[w].temp;
    }
  }

  lemma RenameKeeps(s: State, init: Fs, w: nat)
    requires Inv(s, init) && Enabled(s, RenameTemp(w, true))
    ensures Inv(Step(s, RenameTemp(w, true)), init)
  {
    var x := s.writers[w];
    var after := s.writers[w := x.(phase := Replaced)];
    assert WriterFits(x, s.fs.inodes, init, s.lost);
    assert Some(s.fs.names[x.temp]) == x.handle;
    HonestKeeps(Snapshot(s.fs.names, s.renames), init, s.writers, after);
    HonestRenames(Snapshot(s.fs.names, s.renames), init, after, w, x.handle.value);
    assert after[w].temp == x.temp && after[w].target == x.target;
    NamespaceStepKeeps(s, init, w, Rename(s.fs, x.temp, x.target).names, s.renames + [w], Replaced);
  }

  lemma PowerLossKeeps(s: State, init: Fs, k: nat, inodes: seq<Inode>)
    requires Inv(s, init) && Enabled(s, PowerLoss(k, inodes))
    ensures Inv(Step(s, PowerLoss(k, inodes)), init)
  {
    var t := Step(s, PowerLoss(k, inodes));
    forall v | 0 <= v < |t.writers|
      ensures WriterFits(t.writers[v], t.fs.inodes, init, t.lost)
    {
      assert WriterFits(s.writers[v], s.fs.inodes, init, s.lost);
    }
    assert Extends(s.writers, t.writers) by {
      forall v | 0 <= v < |s.writers| && s.writers[v].phase.Replaced?
        ensures s.writers[v].handle.Some?
      {
        assert WriterFits(s.writers[v], s.fs.inodes, init, s.lost);
      }
    }
    PastKeeps(s, init, t.writers);
  }

  lemma StepKeeps(s: State, init: Fs, e: Event)
    requires Inv(s, init) && Enabled(s, e)
    ensures Inv(Step(s, e), init)
  {
    match e
    case PowerLoss(k, inodes) => PowerLossKeeps(s, init, k, inodes);
    case Stop(w) => StopKeeps(s, init, w);
    case WriteChunk(w, count, ok) => WriteKeeps(s, init, w, count, ok);
    case _ =>
      if !e.ok {
        FailureKeeps(s, init, e);
      } else {
        match e
        case CreateTemp(w, _) => CreateKeeps(s, init, w);
        case RestrictTemp(w, _) => RestrictKeeps(s, init, w);
        case SyncTemp(w, _) => SyncKeeps(s, init, w);
        case RenameTemp(w, _) => RenameKeeps(s, init, w);
        case RemoveTemp(w, _) => RemoveKeeps(s, init, w);
      }
  }

  lemma {:induction false} RunKeeps(ss: seq<State>, es: seq<Event>, n: nat)
    requires IsRun(ss, es) && n <= |es|
    ensures Inv(ss[n], ss[0].fs)
    ensures SameWriters(ss[0].writers, ss[n].writers)
  {
    if n == 0 {
      InitialInv(ss[0]);
    } else {
      RunKeeps(ss, es, n - 1);
      assert StepAt(ss, es, n - 1);
      StepKeeps(ss[n - 1], ss[0].fs, es[n - 1]);
      WritersStay(ss[n - 1], es[n - 1]);
    }
  }

  lemma WritersStay(s: State, e: Event)
    requires Enabled(s, e)
    ensures SameWriters(s.writers, Step(s, e).writers)
  {
  }

  ghost predicate SameWriters(before: seq<Writer>, after: seq<Writer>) {
    |before| == |after| && forall w | 0 <= w < |before| ::
      after[w].target == before[w].target && after[w].temp == before[w].temp && after[w].data == before[w].data
  }

  // ---- What readers and owners see -----------------------------------------------------------------

  /** Never torn: at every moment of every run, whatever failed or stopped, a path
      that is no temporary name holds its initial file until some writer of it has
      renamed, and from then the complete data of the last that did, in a synced 0600
      file. After a power loss "last" is read off the namespace the disk came back
      with, which includes an initial part of the renames. */
  lemma NeverTorn(ss: seq<State>, es: seq<Event>, n: nat, p: string)
    requires IsRun(ss, es) && n <= |es| && !IsTemp(p, ss[0].writers)
    ensures var s, init := ss[n], ss[0].fs;
            && SameWriters(ss[0].writers, s.writers)
            && s.fs.Valid() && (forall i | 0 <= i < |s.renames| :: s.renames[i] < |s.writers|)
            && match LastOver(p, s.renames, s.writers)
               case None => (s.fs.Has(p) <==> init.Has(p)) && (init.Has(p) ==> s.fs.At(p) == init.At(p))
               case Some(w) =>
                 && s.writers[w].phase.Replaced? && s.writers[w].target == p
                 && s.fs.Has(p) && s.fs.At(p) == Inode(ss[0].writers[w].data, true, true)
  {
    RunKeeps(ss, es, n);
    var s, init := ss[n], ss[0].fs;
    assert !IsTemp(p, s.writers) by {
      assert forall w | 0 <= w < |s.writers| :: s.writers[w].temp == ss[0].writers[w].temp;
    }
    match LastOver(p, s.renames, s.writers) {
      case None =>
      case Some(w) => assert WriterFits(s.writers[w], s.fs.inodes, init, s.lost);
    }
  }

  lemma StepNotesRenames(s: State, e: Event)
    requires Enabled(s, e) && !Step(s, e).lost
    ensures !s.lost && forall w | w in s.renames :: w in Step(s, e).renames
    ensures forall w: nat | w < |s.writers| && Step(s, e).writers[w].phase.Replaced? && !s.writers[w].phase.Replaced? ::
              w in Step(s, e).renames
  {
  }

  lemma {:induction false} RenamesAreAll(ss: seq<State>, es: seq<Event>, n: nat)
    requires IsRun(ss, es) && n <= |es| && !ss[n].lost
    ensures forall w: nat | w < |ss[n].writers| && ss[n].writers[w].phase.Replaced? :: w in ss[n].renames
  {
    if n > 0 {
      assert StepAt(ss, es, n - 1);
      StepNotesRenames(ss[n - 1], es[n - 1]);
      WritersStay(ss[n - 1], es[n - 1]);
      RenamesAreAll(ss, es, n - 1);
    }
  }

  lemma {:induction false} LastOverIsLast(p: string, renames: seq<nat>, writers: seq<Writer>, i: nat) returns (j: nat)
    requires forall k | 0 <= k < |renames| :: renames[k] < |writers|
    requires i < |renames| && writers[renames[i]].target == p
    ensures i <= j < |renames| && LastOver(p, renames, writers) == Some(renames[j])
  {
    j := |renames| - 1;
    if writers[renames[j]].target != p {
      j := LastOverIsLast(p, renames[..j], writers, i);
    }
  }

  /** Until the machine itself loses power, a successful write is visible at once and
      for good: its target holds its data or that of a writer that renamed after it. */
  lemma SuccessIsVisible(ss: seq<State>, es: seq<Event>, n: nat, w: nat)
    requires IsRun(ss, es) && n <= |es| && w < |ss[n].writers| && !ss[n].lost && ss[n].writers[w].phase.Replaced?
    ensures ss[n].fs.Valid() && ss[n].fs.Has(ss[n].writers[w].target)
    ensures exists i, j :: 0 <= i <= j < |ss[n].renames| && ss[n].renames[i] == w && ss[n].renames[j] < |ss[n].writers|
                           && ss[n].writers[ss[n].renames[j]].target == ss[n].writers[w].target
                           && ss[n].fs.At(ss[n].writers[w].target).data == ss[n].writers[ss[n].renames[j]].data
  {
    RunKeeps(ss, es, n);
    RenamesAreAll(ss, es, n);
    var p := ss[n].writers[w].target;
    assert !IsTemp(p, ss[0].writers) by {
      assert p == ss[0].writers[w].target;
    }
    NeverTorn(ss, es, n, p);
    var i :| 0 <= i < |ss[n].renames| && ss[n].renames[i] == w;
    var j := LastOverIsLast(p, ss[n].renames, ss[n].writers, i);
  }

  /** Until the machine loses power, data written by anybody sits in files of mode
      0600 only. */
  lemma DataStaysPrivate(ss: seq<State>, es: seq<Event>, n: nat, w: nat)
    requires IsRun(ss, es) && n <= |es| && w < |ss[n].writers| && !ss[n].lost
    requires ss[n].writers[w].handle.Some?
    ensures var h := ss[n].writers[w].handle.value;
            h < |ss[n].fs.inodes| && (ss[n].fs.inodes[h].data != [] ==> ss[n].fs.inodes[h].private)
  {
    RunKeeps(ss, es, n);
    assert WriterFits(ss[n].writers[w], ss[n].fs.inodes, ss[0].fs, false);
    assert FileFits(ss[n].writers[w], ss[n].fs.inodes[ss[n].writers[w].handle.value], false);
  }

  /** Until then, a writer that finished, or failed and cleaned up, leaves no
      temporary file behind. */
  lemma NoTempIsLeft(ss: seq<State>, es: seq<Event>, n: nat, w: nat)
    requires IsRun(ss, es) && n <= |es| && w < |ss[n].writers| && !ss[n].lost
    requires ss[n].writers[w].phase.Replaced? || ss[n].writers[w].phase.Removed?
    ensures !ss[n].fs.Has(ss[n].writers[w].temp)
  {
    RunKeeps(ss, es, n);
  }

  // ---- The program of one writer ---------------------------------------------------------------------

  /** Which of the calls succeed, and how many bytes a write call takes. */
  datatype Plan = Plan(dir: bool, create: bool, restrict: bool, chunk: nat, writable: nat,
                       sync: bool, rename: bool, remove: bool)

  predicate Faultless(plan: Plan, size: nat) {
    plan.dir && plan.create && plan.restrict && size <= plan.writable && plan.sync && plan.rename
  }

  lemma RunExtends(ss: seq<State>, es: seq<Event>, e: Event)
    requires IsRun(ss, es) && Enabled(ss[|es|], e)
    ensures IsRun(ss + [Step(ss[|es|], e)], es + [e])
  {
    var ss', es' := ss + [Step(ss[|es|], e)], es + [e];
    forall i | 0 <= i < |es'|
      ensures StepAt(ss', es', i)
    {
      assert i < |es| ==> StepAt(ss, es, i);
    }
  }

  lemma ChunksAdd(data: seq<byte>, done: nat, count: nat)
    requires done + count <= |data|
    ensures data[..done] + data[done..done + count] == data[..done + count]
  {
  }

  /** One call of the write: the file system it works on and, as ghosts, what it has
      done so far as a run of the step machine. */
  class WriteCall {
    const writer: Writer
    ghost const start: Fs
    var fs: Fs
    ghost var ss: seq<State>
    ghost var es: seq<Event>

    ghost predicate Valid()
      reads this
    {
      IsRun(ss, es) && ss[0].fs == start && Now().fs == fs && !Now().lost && |Now().writers| == 1
    }

    ghost function Now(): State
      requires |ss| == |es| + 1
      reads this
    {
      ss[|es|]
    }

    constructor (fs: Fs, target: string, temp: string, data: seq<byte>)
      requires fs.Valid() && forall i | 0 <= i < |fs.inodes| :: fs.inodes[i].synced
      requires temp != target && !fs.Has(temp)
      ensures Valid() && this.fs == fs && start == fs && writer == Writer(target, temp, data, None, Idle)
      ensures es == [] && Now().writers == [writer]
    {
      writer := Writer(target, temp, data, None, Idle);
      this.fs, start := fs, fs;
      ss := [State(fs, [Writer(target, temp, data, None, Idle)], [], [Snapshot(fs.names, [])], false)];
      es := [];
    }

    ghost method Note(e: Event)
      requires IsRun(ss, es) && Enabled(Now(), e)
      modifies this`ss, this`es
      ensures IsRun(ss, es) && Now() == Step(old(Now()), e) && ss[0] == old(ss[0])
    {
      RunExtends(ss, es, e);
      ss, es := ss + [Step(ss[|es|], e)], es + [e];
    }

    method CreateFile(ok: bool)
      requires Valid() && Enabled(Now(), CreateTemp(0, ok)) && Now().writers[0].temp == writer.temp
      modifies this
      ensures Valid() && Now() == Step(old(Now()), CreateTemp(0, ok))
    {
      Note(CreateTemp(0, ok));
      if ok {
        fs := Create(fs, writer.temp);
      }
    }

    method ApplySecurePermissions(ok: bool)
      requires Valid() && Enabled(Now(), RestrictTemp(0, ok)) && Now().writers[0].temp == writer.temp
      modifies this
      ensures Valid() && Now() == Step(old(Now()), RestrictTemp(0, ok))
    {
      Note(RestrictTemp(0, ok));
      if ok {
        fs := Restrict(fs, writer.temp);
      }
    }

    method Write(handle: nat, done: nat, count: nat, ok: bool)
      requires Valid() && Enabled(Now(), WriteChunk(0, count, ok)) && Now().writers[0].data == writer.data
      requires Now().writers[0].handle == Some(handle) && Now().writers[0].phase == Writing(done)
      modifies this
      ensures Valid() && Now() == Step(old(Now()), WriteChunk(0, count, ok))
    {
      Note(WriteChunk(0, count, ok));
      fs := Append(fs, handle, writer.data[done..done + count]);
    }

    method SyncAll(handle: nat, ok: bool)
      requires Valid() && Enabled(Now(), SyncTemp(0, ok)) && Now().writers[0].handle == Some(handle)
      modifies this
      ensures Valid() && Now() == Step(old(Now()), SyncTemp(0, ok))
    {
      Note(SyncTemp(0, ok));
      if ok {
        fs := Sync(fs, handle);
      }
    }

    method RenameFile(ok: bool)
      requires Valid() && Enabled(Now(), RenameTemp(0, ok))
      requires Now().writers[0].temp == writer.temp && Now().writers[0].target == writer.target
      modifies this
      ensures Valid() && Now() == Step(old(Now()), RenameTemp(0, ok))
    {
      Note(RenameTemp(0, ok));
      if ok {
        fs := Rename(fs, writer.temp, writer.target);
      }
    }

    method RemoveFile(ok: bool)
      requires Valid() && Enabled(Now(), RemoveTemp(0, ok)) && Now().writers[0].temp == writer.temp
      modifies this
      ensures Valid() && Now() == Step(old(Now()), RemoveTemp(0, ok))
    {
      Note(RemoveTemp(0, ok));
      if ok {
        fs := Remove(fs, writer.temp);
      }
    }

    /** The writer's file and namespace while it is being prepared. */
    ghost predicate Preparing(init: Fs, phase: Phase, node: Inode)
      reads this
    {
      && Valid() && fs.Valid() && !init.Has(writer.temp)
      && fs == Fs(init.names[writer.temp := |init.inodes|], init.inodes + [node])
      && Now().writers == [writer.(handle := Some(|init.inodes|), phase := phase)]
    }

    /** Writes all the data in chunks, stopping at the first failing write. */
    method WriteAll(ghost init: Fs, handle: nat, chunk: nat, writable: nat) returns (ok: bool)
      requires Preparing(init, Writing(0), Inode([], false, true)) && handle == |init.inodes| && chunk > 0
      modifies this
      ensures ok <==> |writer.data| <= writable
      ensures ok ==> Preparing(init, Writing(|writer.data|), Inode(writer.data, false, true))
      ensures !ok ==> exists n ::
                0 <= n <= |writer.data| && Preparing(init, Failing, Inode(writer.data[..n], false, true))
    {
      var done := 0;
      while done < |writer.data|
        invariant 0 <= done <= |writer.data|
        invariant Preparing(init, Writing(done), Inode(writer.data[..done], false, true))
        invariant done <= writable
      {
        var count := if done + chunk <= |writer.data| then chunk else |writer.data| - done;
        ok := done + count <= writable;
        if !ok && writable > done {
          count := writable - done;
        }
        ChunksAdd(writer.data, done, count);
        Write(handle, done, count, ok);
        if !ok {
          return;
        }
        done := done + count;
      }
      assert writer.data[..done] == writer.data;
      ok := true;
    }

    /** The attempt has failed: at most the temporary file is extra. */
    ghost predicate Abandoned()
      reads this
    {
      && Valid() && fs.Valid() && Now().writers[0].phase.Failing? && Now().writers[0].temp == writer.temp
      && (fs == start
          || (fs.names == start.names[writer.temp := |start.inodes|]
              && |fs.inodes| == |start.inodes| + 1 && fs.inodes[..|start.inodes|] == start.inodes))
    }

    /** Syncs the complete file and renames it over the target. */
    method Publish(handle: nat, syncOk: bool, renameOk: bool) returns (ok: bool)
      requires Preparing(start, Writing(|writer.data|), Inode(writer.data, false, true)) && handle == |start.inodes|
      requires writer.temp != writer.target
      modifies this
      ensures Valid()
      ensures ok <==> syncOk && renameOk
      ensures var h := |start.inodes|;
              ok ==> fs == Fs((start.names[writer.temp := h] - {writer.temp})[writer.target := h],
                              start.inodes + [Inode(writer.data, true, true)])
      ensures !ok ==> Abandoned()
    {
      SyncAll(handle, syncOk);
      if !syncOk {
        return false;
      }
      assert Preparing(start, Flushed, Inode(writer.data, true, true));
      RenameFile(renameOk);
      ok := renameOk;
    }

    /** Creates, restricts, writes, syncs and renames, giving up at the first failure. */
    method Attempt(plan: Plan) returns (ok: bool)
      requires Valid() && es == [] && fs == start && Now().writers == [writer]
      requires writer.phase == Idle && writer.handle == None && writer.temp != writer.target
      requires fs.Valid() && !fs.Has(writer.temp) && plan.chunk > 0
      modifies this
      ensures Valid()
      ensures ok <==> Faultless(plan.(dir := true), |writer.data|)
      ensures var h := |start.inodes|;
              ok ==> fs == Fs((start.names[writer.temp := h] - {writer.temp})[writer.target := h],
                              start.inodes + [Inode(writer.data, true, true)])
      ensures !ok ==> Abandoned() && (!plan.create ==> fs == start)
    {
      var handle := |fs.inodes|;
      CreateFile(plan.create);
      if !plan.create {
        return false;
      }
      assert Preparing(start, Opened, Inode([], false, false));
      ApplySecurePermissions(plan.restrict);
      if !plan.restrict {
        return false;
      }
      assert Preparing(start, Writing(0), Inode([], false, true));
      ok := WriteAll(start, handle, plan.chunk, plan.writable);
      if ok {
        ok := Publish(handle, plan.sync, plan.rename);
      }
    }

    /** Replaces the target or fails, in which case the temporary file is removed if it
        can be. Everything done is a run of the step machine with this writer alone. */
    method AtomicWriteSecure(plan: Plan) returns (ok: bool)
      requires Valid() && es == [] && fs == start && Now().writers == [writer]
      requires writer.phase == Idle && writer.handle == None && writer.temp != writer.target
      requires fs.Valid() && !fs.Has(writer.temp) && plan.chunk > 0
      modifies this
      ensures Valid() && fs.Valid()
      ensures ok <==> Faultless(plan, |writer.data|)
      ensures |start.inodes| <= |fs.inodes| && fs.inodes[..|start.inodes|] == start.inodes
      ensures ok ==> fs.names == start.names[writer.target := |start.inodes|]
                     && fs.At(writer.target) == Inode(writer.data, true, true)
      ensures !ok ==> fs.names - {writer.temp} == start.names
      ensures !ok && (plan.remove || !plan.dir || !plan.create) ==> fs.names == start.names
    {
      assert start.names - {writer.temp} == start.names;
      if !plan.dir {
        return false;
      }
      ok := Attempt(plan);
      assert start.names[writer.temp := |start.inodes|] - {writer.temp} == start.names;
      if !ok {
        RemoveFile(plan.remove);
      }
    }
  }
}
