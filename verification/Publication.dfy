/** Publication as a machine of single disk steps that may be cut short between any two of
    them, and the publication routine as one run of that machine. */
module Publication {
  import opened Bytes
  import opened Lifecycle

  datatype Phase =
    | Idle
    | Searching(job: Job, attempt: nat)
    | Chosen(chosen: Job, name: Digest)
    | Written(written: Job, place: Digest)

  datatype World = World(disk: Disk, phase: Phase)

  datatype Event =
    | Begin(job: Job)
    | Try
    | OpenPointer
    | WritePointer
    | Activate
    | Crash
    | Damage(generation: Digest, files: Files)

  /** One step, or None when the event cannot happen now. A crash may happen at any time;
      damage may change any file of a generation but its manifest. */
  function Next(f: Format, w: World, e: Event): Option<World> {
    var d := w.disk;
    match e
    case Begin(job) => if w.phase == Idle && Objection(f, job).None? then Some(w.(phase := Searching(job, 0))) else None
    case Try => if w.phase.Searching? then Some(TryName(f, d, w.phase.job, w.phase.attempt)) else None
    case OpenPointer => if w.phase.Chosen? then Some(w.(disk := d.(temporary := Some(Torn)))) else None
    case WritePointer =>
      if w.phase.Chosen? && d.temporary == Some(Torn) then
        var p := w.phase;
        Some(World(d.(temporary := Some(Whole(PointerTo(f, p.chosen.manifest, p.name)))), Written(p.chosen, p.name)))
      else None
    case Activate =>
      if w.phase.Written? && d.temporary.Some? && d.temporary.value.Whole? then
        Some(World(d.(active := Some(d.temporary.value.pointer), temporary := None), Idle))
      else None
    case Crash => Some(w.(phase := Idle))
    case Damage(g, files) =>
      if g in d.generations then
        Some(w.(disk := d.(generations := d.generations[g := d.generations[g].(files := files)])))
      else None
  }

  function TryName(f: Format, d: Disk, job: Job, attempt: nat): World {
    if attempt > MAX_REPAIRS then World(d, Idle)
    else if Usable(f, d.generations, job.manifest, attempt) then
      World(d.(generations := Placed(f, d.generations, job, attempt)), Chosen(job, Candidate(f, job.manifest, attempt)))
    else World(d, Searching(job, attempt + 1))
  }

  function Run(f: Format, w: World, events: seq<Event>): Option<World> {
    if events == [] then Some(w)
    else
      var before :- Run(f, w, events[..|events| - 1]);
      Next(f, before, events[|events| - 1])
  }

  lemma RunStep(f: Format, w: World, events: seq<Event>, e: Event)
    requires Run(f, w, events).Some?
    ensures Run(f, w, events + [e]) == Next(f, Run(f, w, events).value, e)
  {
    assert (events + [e])[..|events|] == events;
  }

  // ---------- The routine ----------

  class ArtifactRoot {
    var generations: map<Digest, Generation>
    var active: Option<Pointer>
    var temporary: Option<PointerFile>

    function Disk(): Disk
      reads this
    {
      Lifecycle.Disk(generations, active, temporary)
    }

    constructor ()
      ensures generations == map[] && active == None && temporary == None
    {
      generations, active, temporary := map[], None, None;
    }

    /** `publish_staged_generation`. Its result and the disk it leaves are as specified, and
        what it does to the disk is a run of the machine without crash or damage. */
    method Publish(f: Format, job: Job) returns (r: Result<Digest, PublishError>, ghost events: seq<Event>)
      modifies this
      ensures match Published(f, old(Disk()), job)
              case Err(e) => r == Err(e) && Disk() == old(Disk())
              case Ok((disk, name)) => r == Ok(name) && Disk() == disk
      ensures forall e <- events :: !e.Crash? && !e.Damage?
      ensures Run(f, World(old(Disk()), Idle), events) == Some(World(Disk(), Idle))
    {
      hide Objection, GenerationValid, Candidate;
      events := [];
      ghost var start := World(Disk(), Idle);
      var objection := Objection(f, job);
      if objection.Some? {
        return Err(objection.value), events;
      }
      RunStep(f, start, events, Begin(job));
      events := [Begin(job)];
      var bytes := f.printed(job.manifest);
      var found: Option<Digest> := None;
      var attempt := 0;
      while attempt <= MAX_REPAIRS && found.None?
        invariant attempt <= MAX_REPAIRS + 1
        invariant active == old(active) && temporary == old(temporary)
        invariant found.None? ==>
          && generations == old(generations)
          && FirstUsable(f, generations, job.manifest, 0) == FirstUsable(f, generations, job.manifest, attempt)
          && Run(f, start, events) == Some(World(Disk(), Searching(job, attempt)))
        invariant found.Some? ==>
          && attempt <= MAX_REPAIRS
          && FirstUsable(f, old(generations), job.manifest, 0) == Some(attempt)
          && found.value == Candidate(f, job.manifest, attempt)
          && generations == Placed(f, old(generations), job, attempt)
          && Run(f, start, events) == Some(World(Disk(), Chosen(job, found.value)))
        invariant forall e <- events :: !e.Crash? && !e.Damage?
        decreases MAX_REPAIRS + 1 - attempt, found.None?
      {
        var candidate := Candidate(f, job.manifest, attempt);
        RunStep(f, start, events, Try);
        events := events + [Try];
        if candidate in generations {
          if GenerationValid(f, generations[candidate], job.manifest) {
            found := Some(candidate);
          } else {
            attempt := attempt + 1;
          }
        } else {
          generations := generations[candidate := Generation(bytes, job.files)];
          found := Some(candidate);
        }
      }
      if found.None? {
        RunStep(f, start, events, Try);
        return Err(Exhausted), events + [Try];
      }
      RunStep(f, start, events, OpenPointer);
      events := events + [OpenPointer];
      temporary := Some(Torn);
      RunStep(f, start, events, WritePointer);
      events := events + [WritePointer];
      temporary := Some(Whole(PointerTo(f, job.manifest, found.value)));
      RunStep(f, start, events, Activate);
      events := events + [Activate];
      active, temporary := Some(temporary.value.pointer), None;
      r := Ok(found.value);
    }
  }

  // ---------- Safety over all runs ----------

  ghost predicate IsPrinted(f: Format, bytes: seq<byte>) { exists m :: f.wellFormed(m) && bytes == f.printed(m) }

  // The pointer leads to an existing generation whose manifest has its checksum.
  predicate Selects(f: Format, d: Disk, p: Pointer) {
    && p.schemaMajor == ARTIFACT_SCHEMA_MAJOR
    && p.generation in d.generations
    && f.hash(d.generations[p.generation].manifest) == p.manifestChecksum
  }

  predicate Placing(f: Format, d: Disk, job: Job, name: Digest) {
    && f.wellFormed(job.manifest)
    && name in d.generations && d.generations[name].manifest == f.printed(job.manifest)
  }

  ghost predicate Safe(f: Format, w: World) {
    var d := w.disk;
    && (forall g :: g in d.generations ==> IsPrinted(f, d.generations[g].manifest))
    && (d.active.Some? ==> Selects(f, d, d.active.value))
    && (match w.phase
        case Idle => true
        case Searching(job, _) => f.wellFormed(job.manifest)
        case Chosen(job, name) => Placing(f, d, job, name)
        case Written(job, name) =>
          Placing(f, d, job, name) && d.temporary == Some(Whole(PointerTo(f, job.manifest, name))))
  }

  /** A valid copy of the manifest among printed ones is printed the same. */
  lemma ValidCopyIsPrinted(f: Format, g: Generation, m: Manifest)
    requires Faithful(f) && IsPrinted(f, g.manifest) && f.parse(g.manifest) == Some(m)
    ensures g.manifest == f.printed(m) && f.wellFormed(m)
  {
  }

  lemma TrySafe(f: Format, d: Disk, job: Job, attempt: nat)
    requires Faithful(f) && Safe(f, World(d, Searching(job, attempt)))
    ensures Safe(f, TryName(f, d, job, attempt))
  {
    hide Candidate, Objection;
    var name := Candidate(f, job.manifest, attempt);
    if attempt <= MAX_REPAIRS && Usable(f, d.generations, job.manifest, attempt) {
      if name in d.generations {
        ValidCopyIsPrinted(f, d.generations[name], job.manifest);
      } else {
        assert IsPrinted(f, f.printed(job.manifest));
      }
    }
  }

  /** Every step keeps the active pointer good. */
  lemma StepSafe(f: Format, w: World, e: Event)
    requires Faithful(f) && Safe(f, w) && Next(f, w, e).Some?
    ensures Safe(f, Next(f, w, e).value)
  {
    hide TryName, IsPrinted, StagedValid;
    if e.Try? { TrySafe(f, w.disk, w.phase.job, w.phase.attempt); }
  }

  lemma {:induction false} RunSafe(f: Format, w: World, events: seq<Event>)
    requires Faithful(f) && Safe(f, w) && Run(f, w, events).Some?
    ensures Safe(f, Run(f, w, events).value)
  {
    hide Safe, Next, Faithful;
    if events != [] {
      RunSafe(f, w, events[..|events| - 1]);
      StepSafe(f, Run(f, w, events[..|events| - 1]).value, events[|events| - 1]);
    }
  }

  const FRESH := World(Lifecycle.Disk(map[], None, None), Idle)

  /** Crash safety. In every world reached from an empty root, wherever crashes fell and
      whatever was done to files other than manifests, an active pointer selects an existing
      generation with the checksum it records, and a manifest can be read through it. */
  lemma CrashSafe(f: Format, events: seq<Event>)
    requires Faithful(f) && Run(f, FRESH, events).Some?
    requires Run(f, FRESH, events).value.disk.active.Some?
    ensures var d := Run(f, FRESH, events).value.disk;
            && Selects(f, d, d.active.value)
            && ReadSelected(f, d)
              == Some((d.active.value.generation, d.generations[d.active.value.generation].manifest))
            && Inspect(f, d).Some?
  {
    hide Run;
    RunSafe(f, FRESH, events);
    var d := Run(f, FRESH, events).value.disk;
    assert IsPrinted(f, d.generations[d.active.value.generation].manifest);
  }

  /** A generation is never renamed, removed, or given another manifest, and nothing but
      damage to it changes any of its files. */
  lemma {:induction false} GenerationsPersist(f: Format, w: World, events: seq<Event>, g: Digest)
    requires Run(f, w, events).Some? && g in w.disk.generations
    ensures var gs := Run(f, w, events).value.disk.generations;
            && g in gs && gs[g].manifest == w.disk.generations[g].manifest
            && ((forall e <- events :: e.Damage? ==> e.generation != g) ==> gs[g] == w.disk.generations[g])
  {
    hide Usable, Objection, PointerTo, Candidate;
    if events != [] {
      var n := |events| - 1;
      GenerationsPersist(f, w, events[..n], g);
      assert events == events[..n] + [events[n]];
    }
  }

  ghost predicate Working(w: World, job: Job) {
    match w.phase
    case Idle => true
    case Searching(j, _) => j == job
    case Chosen(j, _) => j == job
    case Written(j, _) => j == job
  }

  /** A publication cut short at any point leaves the old selection or makes the new one:
      nothing in between. */
  lemma {:induction false} OldOrNew(f: Format, w: World, job: Job, events: seq<Event>)
    requires Faithful(f) && Safe(f, w) && w.phase == Idle
    requires events != [] && events[0] == Begin(job) && forall i :: 0 < i < |events| ==> !events[i].Begin?
    requires Run(f, w, events).Some?
    ensures var w' := Run(f, w, events).value;
            && Working(w', job)
            && (|| (w'.disk.active == w.disk.active && Inspect(f, w'.disk) == Inspect(f, w.disk))
                || (w'.disk.active.Some? && Inspect(f, w'.disk) == Some(job.manifest)))
  {
    hide Safe, Faithful, Inspect, Objection, TryName, PointerTo;
    var n := |events| - 1;
    if n == 0 {
      assert events[..0] == [];
    } else {
      OldOrNew(f, w, job, events[..n]);
      RunSafe(f, w, events[..n]);
      var w1 := Run(f, w, events[..n]).value;
      StepInspects(f, w1, job, events[n]);
    }
  }

  /** One step keeps what is selected and readable, or selects the job's manifest. */
  lemma StepInspects(f: Format, w: World, job: Job, e: Event)
    requires Faithful(f) && Safe(f, w) && Working(w, job) && !e.Begin? && Next(f, w, e).Some?
    ensures var w' := Next(f, w, e).value;
            && Working(w', job)
            && (|| (w'.disk.active == w.disk.active && Inspect(f, w'.disk) == Inspect(f, w.disk))
                || (w'.disk.active.Some? && Inspect(f, w'.disk) == Some(job.manifest)))
  {
    hide Usable, Objection, Candidate, IsPrinted;
  }
}
