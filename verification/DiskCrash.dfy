/** Crashes between the file system and index steps of puts and sweeps that run side by side. */
module DiskCrash {
  import opened Bytes
  import opened Block
  import opened StoreSpec
  import opened DiskKeys

  /** A put or a sweep that is under way. A put whose temporary file another put of the same CID has renamed while it
      was writing may go on writing to the file under its new name. */
  datatype Task =
    | Writing(b: Block, moved: bool) // the file it writes to may hold anything
    | Written(b: Block)
    | Renamed(b: Block)
    | Removing(c: CID)
    | Removed(c: CID)

  function Of(t: Task): CID {
    match t
    case Writing(b, _) => b.cid
    case Written(b) => b.cid
    case Renamed(b) => b.cid
    case Removing(c) => c
    case Removed(c) => c
  }

  /** The disk, the running tasks, and for the record the puts that completed and were not swept since. */
  datatype Machine = Machine(db: Db, files: Files, tasks: map<nat, Task>, done: map<CID, Block>)

  datatype Step =
    | BeginPut(id: nat, b: Block)
    | WriteSome(id: nat, path: bytes, garbage: bytes) // a write that may be cut short
    | WriteAll(id: nat, path: bytes)
    | Rename(id: nat)
    | RenameFails(id: nat)
    | Index(id: nat)
    | BeginSweep(id: nat, c: CID)
    | RemoveFile(id: nat)
    | DropIndex(id: nat)
    | Crash

  /** Where a writing put writes to. */
  predicate WritesTo(t: Task, path: bytes) {
    t.Writing? && (path == TmpPath(t.b.cid) || (t.moved && path == RelPath(t.b.cid)))
  }

  /** The tasks after a rename: other writers of the same CID may have lost their temporary file. */
  function AfterRename(tasks: map<nat, Task>, id: nat): map<nat, Task>
    requires id in tasks && tasks[id].Written?
  {
    map i | i in tasks ::
      if i == id then Renamed(tasks[id].b)
      else if tasks[i].Writing? && tasks[i].b.cid == tasks[id].b.cid then tasks[i].(moved := true)
      else tasks[i]
  }

  /** When a step can happen. Any number of tasks run side by side, also for the same CID. */
  predicate Enabled(m: Machine, step: Step) {
    match step
    case BeginPut(id, _) => id !in m.tasks
    case WriteSome(id, path, _) => id in m.tasks && WritesTo(m.tasks[id], path)
    case WriteAll(id, path) => id in m.tasks && WritesTo(m.tasks[id], path)
    case Rename(id) => id in m.tasks && m.tasks[id].Written? && TmpPath(m.tasks[id].b.cid) in m.files
    case RenameFails(id) => id in m.tasks && m.tasks[id].Written? && TmpPath(m.tasks[id].b.cid) !in m.files
    case Index(id) => id in m.tasks && m.tasks[id].Renamed?
    case BeginSweep(id, c) => id !in m.tasks && Key(BLOCK, c) in m.db
    case RemoveFile(id) => id in m.tasks && m.tasks[id].Removing?
    case DropIndex(id) => id in m.tasks && m.tasks[id].Removed?
    case Crash => true
  }

  function Apply(m: Machine, step: Step): Machine
    requires Enabled(m, step)
  {
    match step
    case BeginPut(id, b) => m.(tasks := m.tasks[id := Writing(b, false)])
    case WriteSome(_, path, garbage) => m.(files := m.files[path := garbage])
    case WriteAll(id, path) =>
      m.(files := m.files[path := m.tasks[id].b.bytes], tasks := m.tasks[id := Written(m.tasks[id].b)])
    case Rename(id) =>
      var c := m.tasks[id].b.cid;
      m.(files := m.files[RelPath(c) := m.files[TmpPath(c)]] - {TmpPath(c)}, tasks := AfterRename(m.tasks, id))
    case RenameFails(id) => m.(tasks := m.tasks - {id})
    case Index(id) =>
      var b := m.tasks[id].b;
      Machine(m.db[Key(BLOCK, b.cid) := RelPath(b.cid)], m.files, m.tasks - {id}, m.done[b.cid := b])
    case BeginSweep(id, c) => m.(tasks := m.tasks[id := Removing(c)])
    case RemoveFile(id) =>
      var c := m.tasks[id].c;
      m.(files := m.files - {RelPath(c)}, tasks := m.tasks[id := Removed(c)], done := m.done - {c})
    case DropIndex(id) => m.(db := m.db - {Key(BLOCK, m.tasks[id].c)}, tasks := m.tasks - {id})
    case Crash => m.(tasks := map[])
  }

  predicate Next(m: Machine, step: Step, m': Machine) {
    Enabled(m, step) && m' == Apply(m, step)
  }

  /** What a local read answers on this disk. */
  function ReadDisk(env: Env, db: Db, files: Files, c: CID): Result<Block, Error> {
    Read(env, StateOf(db, files), c)
  }

  /** Only consistent blocks are put, and one CID always means one block. */
  ghost predicate Sane(env: Env, known: map<CID, Block>, step: Step) {
    step.BeginPut? ==> Consistent(env, step.b) && (step.b.cid in known ==> known[step.b.cid] == step.b)
  }

  /** The blocks known after a step: a put adds its block. */
  function Learn(known: map<CID, Block>, step: Step): map<CID, Block> {
    if step.BeginPut? then known[step.b.cid := step.b] else known
  }

  predicate IsPut(t: Task) {
    !t.Removing? && !t.Removed?
  }

  /** Which kinds of task may be under way for one CID at the same time. */
  datatype Policy = Policy(putPut: bool, putSweep: bool, sweepSweep: bool)

  predicate Permits(p: Policy, t: Task, u: Task) {
    if IsPut(t) && IsPut(u) then p.putPut else if IsPut(t) || IsPut(u) then p.putSweep else p.sweepSweep
  }

  ghost predicate Obeys(m: Machine, c: CID, p: Policy) {
    forall i, j :: i in m.tasks && j in m.tasks && Of(m.tasks[i]) == c && Of(m.tasks[j]) == c && i != j ==>
      Permits(p, m.tasks[i], m.tasks[j])
  }

  /** A put of c is alone; sweeps of c may run side by side. */
  ghost predicate Alone(m: Machine, c: CID) {
    Obeys(m, c, Policy(false, false, true))
  }

  // ---------------------------------------------------------------- the invariant for one CID

  ghost predicate TaskOk(known: map<CID, Block>, m: Machine, c: CID, t: Task) {
    match t
    case Writing(b, moved) => c in known && b == known[c] && !moved
    case Written(b) => c in known && b == known[c] && TmpPath(c) in m.files && m.files[TmpPath(c)] == b.bytes
    case Renamed(b) => c in known && b == known[c] && RelPath(c) in m.files
    case Removing(_) => true
    case Removed(_) => c !in m.done
  }

  /** The file of c holds the block that was put under c, whatever was interrupted. */
  ghost predicate Intact(env: Env, known: map<CID, Block>, m: Machine, c: CID) {
    && ValidDisk(m.db)
    && (c in known ==> Consistent(env, known[c]) && known[c].cid == c)
    && (RelPath(c) in m.files ==> c in known && m.files[RelPath(c)] == known[c].bytes)
    && (forall i :: i in m.tasks && Of(m.tasks[i]) == c ==> TaskOk(known, m, c, m.tasks[i]))
    && (c in m.done ==>
          c in known && m.done[c] == known[c] && RelPath(c) in m.files
          && Key(BLOCK, c) in m.db && m.db[Key(BLOCK, c)] == RelPath(c))
  }

  lemma DistinctPaths()
    ensures forall c: CID, x: CID {:trigger RelPath(c), RelPath(x)} :: RelPath(c) == RelPath(x) <==> c == x
    ensures forall c: CID, x: CID {:trigger TmpPath(c), TmpPath(x)} :: TmpPath(c) == TmpPath(x) <==> c == x
    ensures forall c: CID, x: CID {:trigger RelPath(c), TmpPath(x)} :: RelPath(c) != TmpPath(x)
    ensures forall c: CID, x: CID {:trigger Key(BLOCK, c), Key(BLOCK, x)} ::
              Key(BLOCK, c) == Key(BLOCK, x) <==> c == x
  {
    hide RelPath, TmpPath, Key;
    forall c: CID, x: CID
      ensures RelPath(c) == RelPath(x) <==> c == x
    {
      PathsDiffer(c, x);
    }
    forall c: CID, x: CID
      ensures TmpPath(c) == TmpPath(x) <==> c == x
    {
      PathsDiffer(c, x);
    }
    forall c: CID, x: CID
      ensures RelPath(c) != TmpPath(x)
    {
      PathsDiffer(c, x);
    }
    forall c: CID, x: CID
      ensures Key(BLOCK, c) == Key(BLOCK, x) <==> c == x
    {
      KeysDiffer(BLOCK, c, BLOCK, x);
    }
  }

  /** The database stays readable, whoever runs. */
  lemma ValidStep(m: Machine, step: Step, m': Machine)
    requires ValidDisk(m.db) && Next(m, step, m')
    ensures ValidDisk(m'.db)
  {
    hide RelPath, TmpPath, Key, Section, ValidDisk;
    if step.Index? {
      IndexPut(m.db, m.tasks[step.id].b.cid);
    } else if step.DropIndex? {
      BlockDelete(m.db, m.files, m.tasks[step.id].c);
    }
  }

  /** The CID a step works on. */
  function Subject(m: Machine, step: Step): Option<CID> {
    match step
    case BeginPut(_, b) => Some(b.cid)
    case BeginSweep(_, c) => Some(c)
    case Crash => None
    case _ => if step.id in m.tasks then Some(Of(m.tasks[step.id])) else None
  }

  /** Nothing that concerns c differs in m'. */
  ghost predicate SameFor(m: Machine, m': Machine, c: CID) {
    && (RelPath(c) in m'.files <==> RelPath(c) in m.files)
    && (RelPath(c) in m.files ==> m'.files[RelPath(c)] == m.files[RelPath(c)])
    && (TmpPath(c) in m'.files <==> TmpPath(c) in m.files)
    && (TmpPath(c) in m.files ==> m'.files[TmpPath(c)] == m.files[TmpPath(c)])
    && (Key(BLOCK, c) in m'.db <==> Key(BLOCK, c) in m.db)
    && (Key(BLOCK, c) in m.db ==> m'.db[Key(BLOCK, c)] == m.db[Key(BLOCK, c)])
    && (c in m'.done <==> c in m.done) && (c in m.done ==> m'.done[c] == m.done[c])
    && forall i :: i in m'.tasks && Of(m'.tasks[i]) == c ==> i in m.tasks && m'.tasks[i] == m.tasks[i]
  }

  lemma SameIntact(env: Env, known: map<CID, Block>, m: Machine, step: Step, m': Machine, c: CID)
    requires Intact(env, known, m, c) && SameFor(m, m', c) && ValidDisk(m'.db)
    requires !(step.BeginPut? && step.b.cid == c)
    ensures Intact(env, Learn(known, step), m', c)
  {
    hide RelPath, TmpPath, Key, ValidDisk, Consistent;
  }

  /** Steps for other CIDs do not matter to c, and neither does a crash. */
  lemma ElsewhereStep(m: Machine, step: Step, m': Machine, c: CID)
    requires Next(m, step, m') && Subject(m, step) != Some(c) && !step.Rename? && !step.Index?
    ensures SameFor(m, m', c)
  {
    hide RelPath, TmpPath, Key;
    DistinctPaths();
  }

  lemma ElsewhereRename(m: Machine, step: Step, m': Machine, c: CID)
    requires Next(m, step, m') && Subject(m, step) != Some(c) && (step.Rename? || step.Index?)
    ensures SameFor(m, m', c)
  {
    hide RelPath, TmpPath, Key;
    DistinctPaths();
  }

  /** After a step of a put for c, which is alone, there is no other task for c either. */
  lemma OnlyOwn(m: Machine, step: Step, m': Machine, c: CID)
    requires Next(m, step, m') && Subject(m, step) == Some(c) && Alone(m, c)
    requires !step.BeginPut? && !step.BeginSweep? && !step.RemoveFile? && !step.DropIndex?
    ensures forall i :: i in m'.tasks && Of(m'.tasks[i]) == c ==> i == step.id
  {
    hide RelPath, TmpPath, Key;
    assert step.id in m.tasks && Of(m.tasks[step.id]) == c;
    forall i | i in m'.tasks && i != step.id
      ensures i in m.tasks && Of(m'.tasks[i]) == Of(m.tasks[i])
    {
    }
  }

  lemma OwnWriteSome(env: Env, known: map<CID, Block>, m: Machine, step: Step, m': Machine, c: CID)
    requires Intact(env, known, m, c) && Next(m, step, m') && Subject(m, step) == Some(c) && Alone(m, c)
    requires step.WriteSome?
    ensures Intact(env, known, m', c)
  {
    assert TaskOk(known, m, c, m.tasks[step.id]);
    OnlyOwn(m, step, m', c);
    hide RelPath, TmpPath, Key, ValidDisk, Consistent, Alone, AfterRename;
    DistinctPaths();
  }

  lemma OwnWriteAll(env: Env, known: map<CID, Block>, m: Machine, step: Step, m': Machine, c: CID)
    requires Intact(env, known, m, c) && Next(m, step, m') && Subject(m, step) == Some(c) && Alone(m, c)
    requires step.WriteAll?
    ensures Intact(env, known, m', c)
  {
    hide ValidDisk, Consistent, RelPath, TmpPath, Key;
    OnlyOwn(m, step, m', c);
    WroteAll(known, m, step, m', c);
    hide Alone, Next, Subject, TaskOk;
    DistinctPaths();
    assert TaskOk(known, m', c, m'.tasks[step.id]) by {
      WrittenOk(known, m', c);
    }
  }

  lemma WroteAll(known: map<CID, Block>, m: Machine, step: Step, m': Machine, c: CID)
    requires Next(m, step, m') && Subject(m, step) == Some(c) && step.WriteAll? && TaskOk(known, m, c, m.tasks[step.id])
    ensures c in known && step.id in m'.tasks && m'.tasks[step.id] == Written(known[c])
    ensures m' == m.(tasks := m'.tasks, files := m.files[TmpPath(c) := known[c].bytes])
  {
    hide RelPath, TmpPath, Key;
  }

  lemma WrittenOk(known: map<CID, Block>, m: Machine, c: CID)
    requires c in known && TmpPath(c) in m.files && m.files[TmpPath(c)] == known[c].bytes
    ensures TaskOk(known, m, c, Written(known[c]))
  {
  }

  lemma OwnRename(env: Env, known: map<CID, Block>, m: Machine, step: Step, m': Machine, c: CID)
    requires Intact(env, known, m, c) && Next(m, step, m') && Subject(m, step) == Some(c) && Alone(m, c)
    requires step.Rename? || step.RenameFails?
    ensures Intact(env, known, m', c)
  {
    assert TaskOk(known, m, c, m.tasks[step.id]);
    OnlyOwn(m, step, m', c);
    hide RelPath, TmpPath, Key, ValidDisk, Consistent, Alone;
    DistinctPaths();
  }

  lemma OwnIndex(env: Env, known: map<CID, Block>, m: Machine, step: Step, m': Machine, c: CID)
    requires Intact(env, known, m, c) && Next(m, step, m') && Subject(m, step) == Some(c) && Alone(m, c)
    requires step.Index? && ValidDisk(m'.db)
    ensures Intact(env, known, m', c)
  {
    assert TaskOk(known, m, c, m.tasks[step.id]);
    OnlyOwn(m, step, m', c);
    hide RelPath, TmpPath, Key, ValidDisk, Consistent, Alone;
    DistinctPaths();
  }

  lemma OwnBeginPut(env: Env, known: map<CID, Block>, m: Machine, step: Step, m': Machine, c: CID)
    requires Intact(env, known, m, c) && Next(m, step, m') && Subject(m, step) == Some(c) && Sane(env, known, step)
    requires Alone(m', c) && step.BeginPut?
    ensures Intact(env, Learn(known, step), m', c)
  {
    NewPutAlone(m, step, m', c);
    assert m' == m.(tasks := m'.tasks) && m'.tasks[step.id] == Writing(step.b, false) && step.b.cid == c;
    hide RelPath, TmpPath, Key, ValidDisk, Consistent, Alone, Next, Subject;
  }

  lemma OwnBeginSweep(env: Env, known: map<CID, Block>, m: Machine, step: Step, m': Machine, c: CID)
    requires Intact(env, known, m, c) && Next(m, step, m') && Subject(m, step) == Some(c)
    requires Alone(m', c) && step.BeginSweep?
    ensures Intact(env, Learn(known, step), m', c)
  {
    OnlySweepsBeside(m, step, m', c);
    assert m' == m.(tasks := m'.tasks) && m'.tasks[step.id] == Removing(c);
    hide RelPath, TmpPath, Key, ValidDisk, Consistent, Alone, Next, Subject;
  }

  lemma NewPutAlone(m: Machine, step: Step, m': Machine, c: CID)
    requires Next(m, step, m') && Subject(m, step) == Some(c) && Alone(m', c) && step.BeginPut?
    ensures forall i :: i in m'.tasks && Of(m'.tasks[i]) == c ==> i == step.id
  {
    assert step.id in m'.tasks && Of(m'.tasks[step.id]) == c && IsPut(m'.tasks[step.id]);
  }

  /** Beside a sweep of c there are only sweeps of c. */
  lemma OnlySweepsBeside(m: Machine, step: Step, m': Machine, c: CID)
    requires Next(m, step, m') && Subject(m, step) == Some(c)
    requires if step.BeginSweep? then Alone(m', c) else Alone(m, c) && (step.RemoveFile? || step.DropIndex?)
    ensures forall i :: i in m'.tasks && Of(m'.tasks[i]) == c && i != step.id ==>
              i in m.tasks && m'.tasks[i] == m.tasks[i] && !IsPut(m.tasks[i])
  {
    hide RelPath, TmpPath, Key;
    if step.BeginSweep? {
      assert step.id in m'.tasks && Of(m'.tasks[step.id]) == c && !IsPut(m'.tasks[step.id]);
    } else {
      assert step.id in m.tasks && Of(m.tasks[step.id]) == c && !IsPut(m.tasks[step.id]);
    }
  }

  lemma OwnRemove(env: Env, known: map<CID, Block>, m: Machine, step: Step, m': Machine, c: CID)
    requires Intact(env, known, m, c) && Next(m, step, m') && Subject(m, step) == Some(c) && Alone(m, c)
    requires step.RemoveFile?
    ensures Intact(env, known, m', c)
  {
    OnlySweepsBeside(m, step, m', c);
    assert m' == Machine(m.db, m.files - {RelPath(c)}, m'.tasks, m.done - {c}) && m'.tasks[step.id] == Removed(c);
    hide RelPath, TmpPath, Key, ValidDisk, Consistent, Alone, Next, Subject;
  }

  lemma OwnDrop(env: Env, known: map<CID, Block>, m: Machine, step: Step, m': Machine, c: CID)
    requires Intact(env, known, m, c) && Next(m, step, m') && Subject(m, step) == Some(c) && Alone(m, c)
    requires step.DropIndex? && ValidDisk(m'.db)
    ensures Intact(env, known, m', c)
  {
    assert TaskOk(known, m, c, m.tasks[step.id]);
    OnlySweepsBeside(m, step, m', c);
    hide RelPath, TmpPath, Key, ValidDisk, Consistent, Alone, AfterRename;
    DistinctPaths();
  }

  lemma IntactStep(env: Env, known: map<CID, Block>, m: Machine, step: Step, m': Machine, c: CID)
    requires Intact(env, known, m, c) && Next(m, step, m') && Sane(env, known, step) && Alone(m, c) && Alone(m', c)
    ensures Intact(env, Learn(known, step), m', c)
  {
    assert ValidDisk(m.db);
    ValidStep(m, step, m');
    hide Intact, Next, Alone, Sane, Learn, ValidDisk, SameFor;
    if Subject(m, step) != Some(c) {
      if step.Rename? || step.Index? {
        ElsewhereRename(m, step, m', c);
      } else {
        ElsewhereStep(m, step, m', c);
      }
      SameIntact(env, known, m, step, m', c);
    } else if step.BeginPut? {
      OwnBeginPut(env, known, m, step, m', c);
    } else if step.BeginSweep? {
      OwnBeginSweep(env, known, m, step, m', c);
    } else {
      assert Learn(known, step) == known by {
        NothingLearned(known, step);
      }
      match step
      case Index(_) => OwnIndex(env, known, m, step, m', c);
      case RemoveFile(_) => OwnRemove(env, known, m, step, m', c);
      case DropIndex(_) => OwnDrop(env, known, m, step, m', c);
      case WriteSome(_, _, _) => OwnWriteSome(env, known, m, step, m', c);
      case WriteAll(_, _) => OwnWriteAll(env, known, m, step, m', c);
      case Rename(_) => OwnRename(env, known, m, step, m', c);
      case RenameFails(_) => OwnRename(env, known, m, step, m', c);
    }
  }

  lemma NothingLearned(known: map<CID, Block>, step: Step)
    requires !step.BeginPut?
    ensures Learn(known, step) == known
  {
  }

  // ---------------------------------------------------------------- runs

  ghost predicate Run(ms: seq<Machine>, steps: seq<Step>) {
    && |ms| == |steps| + 1 && ms[0] == Machine(map[], map[], map[], map[])
    && forall i :: 0 <= i < |steps| ==> Next(ms[i], steps[i], ms[i + 1])
  }

  /** The blocks put up to step i. */
  function Known(steps: seq<Step>, i: nat): map<CID, Block>
    requires i <= |steps|
  {
    if i == 0 then map[] else Learn(Known(steps, i - 1), steps[i - 1])
  }

  lemma {:induction false} IntactRun(env: Env, ms: seq<Machine>, steps: seq<Step>, i: nat, c: CID)
    requires Run(ms, steps) && i <= |steps|
    requires forall j :: 0 <= j < |steps| ==> Sane(env, Known(steps, j), steps[j])
    requires forall j :: 0 <= j <= i ==> Alone(ms[j], c)
    ensures Intact(env, Known(steps, i), ms[i], c)
  {
    hide Next, Sane, Alone;
    if i == 0 {
      EmptyDisk(map[]);
      hide RelPath, ValidDisk;
    } else {
      hide Intact;
      IntactRun(env, ms, steps, i - 1, c);
      assert Next(ms[i - 1], steps[i - 1], ms[(i - 1) + 1]);
      IntactStep(env, Known(steps, i - 1), ms[i - 1], steps[i - 1], ms[i], c);
    }
  }

  lemma IntactReads(env: Env, known: map<CID, Block>, m: Machine, c: CID)
    requires Intact(env, known, m, c)
    ensures var r := ReadDisk(env, m.db, m.files, c);
            && (r == Err(NotFound) || (c in known && r == Ok(known[c])))
            && (c in m.done ==> r == Ok(m.done[c]))
  {
    Entries(m.db, m.files, c);
    SectionEntry(m.db, BLOCK, c);
    hide DecodeBlock, RelPath, Key;
  }

  /** For a CID whose puts overlap with nothing: at every point of every run with crashes, whatever runs for other
      CIDs, a read finds the block that was put under it or nothing, and a completed put is found until a sweep
      removes its file. */
  lemma CrashConsistency(env: Env, ms: seq<Machine>, steps: seq<Step>, i: nat, c: CID)
    requires Run(ms, steps) && i <= |steps|
    requires forall j :: 0 <= j < |steps| ==> Sane(env, Known(steps, j), steps[j])
    requires forall j :: 0 <= j <= i ==> Alone(ms[j], c)
    ensures var r := ReadDisk(env, ms[i].db, ms[i].files, c);
            && (r == Err(NotFound) || (c in Known(steps, i) && r == Ok(Known(steps, i)[c]) && r.value.cid == c))
            && (c in ms[i].done ==> r == Ok(ms[i].done[c]))
  {
    IntactRun(env, ms, steps, i, c);
    IntactReads(env, Known(steps, i), ms[i], c);
  }

  /** With overlaps, a read still never gives other bytes: it fails, or finds the block that was put under c, or a
      block whose bytes collide with that one's under the hash. */
  lemma NeverOtherBytes(env: Env, m: Machine, known: map<CID, Block>, c: CID)
    requires c in known && Consistent(env, known[c]) && known[c].cid == c
    ensures var r := ReadDisk(env, m.db, m.files, c);
            r.Ok? ==>
              && r.value.cid == c && Consistent(env, r.value)
              && (r.value == known[c]
                  || (r.value.bytes != known[c].bytes && env.hash(r.value.bytes) == env.hash(known[c].bytes)))
  {
    var s := StateOf(m.db, m.files);
    ReadConsistent(env, s, c);
    hide Read, StateOf, DecodeBlock;
  }

  lemma ReadConsistent(env: Env, s: State, c: CID)
    ensures Read(env, s, c).Ok? ==> Consistent(env, Read(env, s, c).value) && Read(env, s, c).value.cid == c
  {
    hide DecodeBlock;
    if Read(env, s, c).Ok? {
      DecodeStable(env, s.store[c], []);
    }
  }

  /** A completed put stays completed until a sweep removes the file of its CID. */
  lemma {:induction false} DoneStays(ms: seq<Machine>, steps: seq<Step>, i: nat, j: nat, c: CID)
    requires Run(ms, steps) && i <= j <= |steps| && c in ms[i].done
    requires forall k :: i <= k < j ==> !(steps[k].RemoveFile? && Subject(ms[k], steps[k]) == Some(c))
    ensures c in ms[j].done
  {
    if j > i {
      DoneStays(ms, steps, i, j - 1, c);
      assert Next(ms[j - 1], steps[j - 1], ms[(j - 1) + 1]);
    }
  }

  // ---------------------------------------------------------------- overlaps lose completed puts

  lemma LastStep(ms: seq<Machine>, steps: seq<Step>, step: Step, m': Machine)
    requires Run(ms, steps) && Next(ms[|ms| - 1], step, m')
    ensures Run(ms + [m'], steps + [step])
  {
    hide Next;
    var more, all := ms + [m'], steps + [step];
    forall i | 0 <= i < |all|
      ensures Next(more[i], all[i], more[i + 1])
    {
      if i < |steps| {
        assert more[i] == ms[i] && more[i + 1] == ms[i + 1] && all[i] == steps[i];
      }
    }
  }

  ghost predicate OnlyPuts(m: Machine) {
    forall i :: i in m.tasks ==> IsPut(m.tasks[i])
  }

  /** At most one put and one sweep are under way. */
  ghost predicate OneOfEach(m: Machine) {
    forall i, j :: i in m.tasks && j in m.tasks && i != j ==> IsPut(m.tasks[i]) != IsPut(m.tasks[j])
  }

  lemma OnlyPutsRun(ms: seq<Machine>, steps: seq<Step>)
    requires Run(ms, steps) && forall j :: 0 <= j < |steps| ==> !steps[j].BeginSweep?
    ensures forall j :: 0 <= j < |ms| ==> OnlyPuts(ms[j])
  {
    hide OnlyPuts, Run;
    forall j | 0 <= j < |ms|
      ensures OnlyPuts(ms[j])
    {
      OnlyPutsAt(ms, steps, j);
    }
  }

  lemma {:induction false} OnlyPutsAt(ms: seq<Machine>, steps: seq<Step>, j: nat)
    requires Run(ms, steps) && (forall j :: 0 <= j < |steps| ==> !steps[j].BeginSweep?) && j < |ms|
    ensures OnlyPuts(ms[j])
  {
    hide RelPath, TmpPath, Key;
    if j > 0 {
      OnlyPutsAt(ms, steps, j - 1);
      assert Next(ms[j - 1], steps[j - 1], ms[(j - 1) + 1]);
    }
  }

  /** A put is indexed while a second put of the same block has just emptied the temporary file it renames. */
  lemma OverlappingPuts(env: Env, b: Block) returns (ms: seq<Machine>, steps: seq<Step>)
    requires Consistent(env, b)
    ensures Run(ms, steps) && forall j :: 0 <= j < |steps| ==> Sane(env, Known(steps, j), steps[j])
    ensures |steps| == 6 && steps[5] == Index(1)
    ensures b.cid in ms[6].done && ReadDisk(env, ms[6].db, ms[6].files, b.cid).Err?
    ensures forall j :: 0 <= j < |ms| ==> OnlyPuts(ms[j])
  {
    var tmp := TmpPath(b.cid);
    steps := [BeginPut(1, b), WriteAll(1, tmp), BeginPut(2, b), WriteSome(2, tmp, []), Rename(1), Index(1)];
    ms := PutsOverlap(b);
    KnownOne(b, steps);
    OnlyPutsRun(ms, steps);
    var m := ms[6];
    hide Run;
    Entries(m.db, m.files, b.cid);
    assert DecodeBlock(env, []).Err?;
    hide StateOf, DecodeBlock;
  }

  lemma PutsOverlap(b: Block) returns (ms: seq<Machine>)
    ensures Run(ms, [BeginPut(1, b), WriteAll(1, TmpPath(b.cid)), BeginPut(2, b), WriteSome(2, TmpPath(b.cid), []),
                     Rename(1), Index(1)])
    ensures var m := ms[6];
            && b.cid in m.done && Key(BLOCK, b.cid) in m.db && m.db[Key(BLOCK, b.cid)] == RelPath(b.cid)
            && RelPath(b.cid) in m.files && m.files[RelPath(b.cid)] == []
  {
    var c, tmp := b.cid, TmpPath(b.cid);
    PathsDiffer(c, c);
    hide RelPath, TmpPath, Key;
    var m0 := Machine(map[], map[], map[], map[]);
    var m1 := Apply(m0, BeginPut(1, b));
    var m2 := Apply(m1, WriteAll(1, tmp));
    var m3 := Apply(m2, BeginPut(2, b));
    var m4 := Apply(m3, WriteSome(2, tmp, []));
    var m5 := Apply(m4, Rename(1));
    var m6 := Apply(m5, Index(1));
    var next := [m1, m2, m3, m4, m5, m6];
    assert Run([m0], []);
    hide Run;
    FourSteps([m0], [], m1, BeginPut(1, b), m2, WriteAll(1, tmp), m3, BeginPut(2, b), m4, WriteSome(2, tmp, []));
    var four := [BeginPut(1, b), WriteAll(1, tmp), BeginPut(2, b), WriteSome(2, tmp, [])];
    LastStep([m0] + [m1, m2, m3, m4], [] + four, Rename(1), m5);
    LastStep([m0] + [m1, m2, m3, m4] + [m5], [] + four + [Rename(1)], Index(1), m6);
    ms := [m0] + [m1, m2, m3, m4] + [m5] + [m6];
    assert [] + four + [Rename(1)] + [Index(1)] == [BeginPut(1, b), WriteAll(1, tmp), BeginPut(2, b),
                                                    WriteSome(2, tmp, []), Rename(1), Index(1)];
  }

  lemma FourSteps(
      ms: seq<Machine>, steps: seq<Step>, m1: Machine, s1: Step, m2: Machine, s2: Step, m3: Machine, s3: Step,
      m4: Machine, s4: Step)
    requires Run(ms, steps) && Next(ms[|ms| - 1], s1, m1) && Next(m1, s2, m2) && Next(m2, s3, m3) && Next(m3, s4, m4)
    ensures Run(ms + [m1, m2, m3, m4], steps + [s1, s2, s3, s4])
  {
    hide Next, Run;
    LastStep(ms, steps, s1, m1);
    LastStep(ms + [m1], steps + [s1], s2, m2);
    LastStep(ms + [m1] + [m2], steps + [s1] + [s2], s3, m3);
    LastStep(ms + [m1] + [m2] + [m3], steps + [s1] + [s2] + [s3], s4, m4);
    assert ms + [m1] + [m2] + [m3] + [m4] == ms + [m1, m2, m3, m4];
    assert steps + [s1] + [s2] + [s3] + [s4] == steps + [s1, s2, s3, s4];
  }

  lemma KnownOne(b: Block, steps: seq<Step>)
    requires forall j :: 0 <= j < |steps| && steps[j].BeginPut? ==> steps[j].b == b
    ensures forall j :: 0 <= j <= |steps| ==> forall c :: c in Known(steps, j) ==> Known(steps, j)[c] == b
  {
    forall j | 0 <= j <= |steps|
      ensures forall c :: c in Known(steps, j) ==> Known(steps, j)[c] == b
    {
      KnownOneAt(b, steps, j);
    }
  }

  lemma {:induction false} KnownOneAt(b: Block, steps: seq<Step>, j: nat)
    requires j <= |steps| && forall j :: 0 <= j < |steps| && steps[j].BeginPut? ==> steps[j].b == b
    ensures forall c :: c in Known(steps, j) ==> Known(steps, j)[c] == b
  {
    if j > 0 {
      KnownOneAt(b, steps, j - 1);
    }
  }

  /** A block is put again between the two halves of its sweep: the second half takes the new index entry away. */
  lemma PutDuringSweep(env: Env, b: Block) returns (ms: seq<Machine>, steps: seq<Step>)
    requires Consistent(env, b)
    ensures Run(ms, steps) && forall j :: 0 <= j < |steps| ==> Sane(env, Known(steps, j), steps[j])
    ensures |steps| == 11 && steps[5] == RemoveFile(2) && steps[9] == Index(3)
    ensures b.cid in ms[11].done && ReadDisk(env, ms[11].db, ms[11].files, b.cid) == Err(NotFound)
    ensures forall j :: 0 <= j < |ms| ==> OneOfEach(ms[j])
  {
    ms, steps := SweepOverlaps(b);
    KnownOne(b, steps);
    hide Run, Consistent, RelPath, TmpPath, Key;
    var m := ms[11];
    Entries(m.db, m.files, b.cid);
    hide StateOf;
  }

  lemma SweepOverlaps(b: Block) returns (ms: seq<Machine>, steps: seq<Step>)
    ensures Run(ms, steps) && |steps| == 11 && steps[5] == RemoveFile(2) && steps[9] == Index(3)
    ensures forall j :: 0 <= j < |steps| && steps[j].BeginPut? ==> steps[j].b == b
    ensures b.cid in ms[11].done && Key(BLOCK, b.cid) !in ms[11].db
    ensures forall j :: 0 <= j < |ms| ==> OneOfEach(ms[j])
  {
    hide RelPath, TmpPath, Key, PutSteps, OneOfEach, Run;
    ms, steps := SweptHalf(b);
    var next := PutWhole(ms[6], 3, b, ms, steps);
    ms, steps := ms + next, steps + PutSteps(3, b);
    var last := Apply(next[3], DropIndex(2));
    LastStep(ms, steps, DropIndex(2), last);
    OneTask(last, 2);
    ms, steps := ms + [last], steps + [DropIndex(2)];
  }

  /** A block is put, and the first half of its sweep is over. */
  lemma SweptHalf(b: Block) returns (ms: seq<Machine>, steps: seq<Step>)
    ensures Run(ms, steps) && |ms| == 7 && |steps| == 6 && steps[5] == RemoveFile(2)
    ensures forall j :: 0 <= j < |steps| && steps[j].BeginPut? ==> steps[j].b == b
    ensures ms[6].tasks == map[2 := Removed(b.cid)]
    ensures forall j :: 0 <= j < |ms| ==> OneOfEach(ms[j])
  {
    var c := b.cid;
    var m0 := Machine(map[], map[], map[], map[]);
    assert Run([m0], []);
    OneTask(m0, 2);
    hide RelPath, TmpPath, Key, PutSteps, OneOfEach, Run;
    var next := PutWhole(m0, 1, b, [m0], []);
    ms, steps := [m0] + next, [] + PutSteps(1, b);
    var m5 := Apply(next[3], BeginSweep(2, c));
    var m6 := Apply(m5, RemoveFile(2));
    LastStep(ms, steps, BeginSweep(2, c), m5);
    OneTask(m5, 2);
    OneTask(m6, 2);
    ms, steps := ms + [m5], steps + [BeginSweep(2, c)];
    LastStep(ms, steps, RemoveFile(2), m6);
    ms, steps := ms + [m6], steps + [RemoveFile(2)];
  }

  lemma OneTask(m: Machine, id: nat)
    requires forall i :: i in m.tasks ==> i == id
    ensures OneOfEach(m)
  {
  }

  function PutSteps(id: nat, b: Block): (steps: seq<Step>)
    ensures |steps| == 4 && steps[3] == Index(id)
    ensures forall j :: 0 <= j < 4 && steps[j].BeginPut? ==> steps[j].b == b
  {
    [BeginPut(id, b), WriteAll(id, TmpPath(b.cid)), Rename(id), Index(id)]
  }

  /** A put that runs from its first to its last step, while no other put writes. */
  lemma PutWhole(m: Machine, id: nat, b: Block, before: seq<Machine>, done: seq<Step>) returns (next: seq<Machine>)
    requires Run(before, done) && before[|before| - 1] == m && id !in m.tasks
    requires OneOfEach(m) && forall i :: i in m.tasks ==> !IsPut(m.tasks[i])
    ensures |next| == 4 && (forall j :: 0 <= j < 4 ==> OneOfEach(next[j])) && Run(before + next, done + PutSteps(id, b))
    ensures var m' := next[3];
            && m'.tasks == m.tasks && b.cid in m'.done
            && m'.db == m.db[Key(BLOCK, b.cid) := RelPath(b.cid)]
  {
    PathsDiffer(b.cid, b.cid);
    hide RelPath, TmpPath, Key, Run;
    var m1 := Apply(m, BeginPut(id, b));
    var m2 := Apply(m1, WriteAll(id, TmpPath(b.cid)));
    var m3 := Apply(m2, Rename(id));
    var m4 := Apply(m3, Index(id));
    next := [m1, m2, m3, m4];
    assert m4.tasks == m.tasks;
    FourSteps(before, done, m1, BeginPut(id, b), m2, WriteAll(id, TmpPath(b.cid)), m3, Rename(id), m4, Index(id));
  }

  // ---------------------------------------------------------------- the exact condition

  ghost predicate SaneRun(env: Env, ms: seq<Machine>, steps: seq<Step>, p: Policy) {
    && Run(ms, steps) && (forall j :: 0 <= j < |steps| ==> Sane(env, Known(steps, j), steps[j]))
    && forall j, c :: 0 <= j < |ms| ==> Obeys(ms[j], c, p)
  }

  /** In every run under this policy a completed put can be read until a sweep removes its file. */
  ghost predicate StaysReadable(env: Env, p: Policy) {
    forall ms: seq<Machine>, steps: seq<Step>, i: nat, c: CID ::
      SaneRun(env, ms, steps, p) && i < |ms| && c in ms[i].done ==>
        ReadDisk(env, ms[i].db, ms[i].files, c) == Ok(ms[i].done[c])
  }

  /** Completed puts stay readable if and only if puts of a CID overlap neither with each other nor with its sweeps;
      sweeps may overlap with sweeps. */
  lemma ExactPolicy(env: Env, p: Policy)
    ensures StaysReadable(env, p) <==> !p.putPut && !p.putSweep
  {
    hide SaneRun, ReadDisk;
    if !p.putPut && !p.putSweep {
      forall ms: seq<Machine>, steps: seq<Step>, i: nat, c: CID
        | SaneRun(env, ms, steps, p) && i < |ms| && c in ms[i].done
        ensures ReadDisk(env, ms[i].db, ms[i].files, c) == Ok(ms[i].done[c])
      {
        ReadableUnder(env, p, ms, steps, i, c);
      }
    } else {
      var ms, steps, i, c := LostUnder(env, p);
    }
  }

  lemma ReadableUnder(env: Env, p: Policy, ms: seq<Machine>, steps: seq<Step>, i: nat, c: CID)
    requires !p.putPut && !p.putSweep && SaneRun(env, ms, steps, p) && i < |ms| && c in ms[i].done
    ensures ReadDisk(env, ms[i].db, ms[i].files, c) == Ok(ms[i].done[c])
  {
    hide ReadDisk, Sane;
    forall j | 0 <= j <= i
      ensures Alone(ms[j], c)
    {
      assert Obeys(ms[j], c, p);
    }
    CrashConsistency(env, ms, steps, i, c);
  }

  lemma LostUnder(env: Env, p: Policy) returns (ms: seq<Machine>, steps: seq<Step>, i: nat, c: CID)
    requires p.putPut || p.putSweep
    ensures SaneRun(env, ms, steps, p) && i < |ms| && c in ms[i].done
    ensures ReadDisk(env, ms[i].db, ms[i].files, c) != Ok(ms[i].done[c])
  {
    var b := MakeBlock(env, DATA, RAW, []);
    BuiltConsistent(env, DATA, RAW, []);
    c := b.cid;
    hide ReadDisk, Run, Consistent, MakeBlock, SaneRun;
    if p.putPut {
      ms, steps := LostToPut(env, b, p);
      i := 6;
    } else {
      ms, steps := LostToSweep(env, b, p);
      i := 11;
    }
  }

  lemma LostToPut(env: Env, b: Block, p: Policy) returns (ms: seq<Machine>, steps: seq<Step>)
    requires Consistent(env, b) && p.putPut
    ensures SaneRun(env, ms, steps, p) && |ms| == 7 && b.cid in ms[6].done
    ensures ReadDisk(env, ms[6].db, ms[6].files, b.cid).Err?
  {
    hide ReadDisk, Sane, Run, Consistent, OnlyPuts, Obeys;
    ms, steps := OverlappingPuts(env, b);
    RunLength(ms, steps);
    forall j, x | 0 <= j < |ms|
      ensures Obeys(ms[j], x, p)
    {
      OnlyPutsObey(ms[j], x, p);
    }
  }

  lemma LostToSweep(env: Env, b: Block, p: Policy) returns (ms: seq<Machine>, steps: seq<Step>)
    requires Consistent(env, b) && p.putSweep
    ensures SaneRun(env, ms, steps, p) && |ms| == 12 && b.cid in ms[11].done
    ensures ReadDisk(env, ms[11].db, ms[11].files, b.cid).Err?
  {
    hide ReadDisk, Sane, Run, Consistent, OneOfEach, Obeys;
    ms, steps := PutDuringSweep(env, b);
    RunLength(ms, steps);
    forall j, x | 0 <= j < |ms|
      ensures Obeys(ms[j], x, p)
    {
      OneOfEachObeys(ms[j], x, p);
    }
  }

  lemma OnlyPutsObey(m: Machine, c: CID, p: Policy)
    requires OnlyPuts(m) && p.putPut
    ensures Obeys(m, c, p)
  {
  }

  lemma OneOfEachObeys(m: Machine, c: CID, p: Policy)
    requires OneOfEach(m) && p.putSweep
    ensures Obeys(m, c, p)
  {
  }

  lemma RunLength(ms: seq<Machine>, steps: seq<Step>)
    requires Run(ms, steps)
    ensures |ms| == |steps| + 1
  {
  }
}
