/** Publishing a checkpoint directory: any number of savers and loaders interleave over one
    destination, each filesystem call being one step. */
module Publication {
  import opened Basics

  type Files = map<string, string>

  /** What stands at the destination path. */
  datatype Entry = Absent | NotADirectory | Directory(files: Files)

  /** The saver's private sibling directory; its name is unique to the saver. */
  datatype Temporary = NoTemp | TempDir(files: Files)

  /** Where a saver is; the comments give the call about to be made. */
  datatype SaverPc =
    | CheckExists       // os.path.lexists(directory)
    | CheckIsDir        // directory.is_dir()
    | CheckEmpty        // any(directory.iterdir())
    | MakeTemp          // tempfile.mkdtemp
    | Writing(done: nat)  // the next file
    | SelfCheck         // load what was written
    | Sync              // fsync of files and temporary directory
    | TestExists        // directory.exists()
    | RemoveEmpty       // directory.rmdir()
    | Rename            // os.rename / os.replace
    | SyncParent        // fsync of the parent
    | Returned          // the call returned normally
    | CleaningUp        // shutil.rmtree(temporary, ignore_errors=True)
    | RaisedError       // the call raised
    | Crashed           // the process died

  datatype Saver = Saver(pc: SaverPc, temp: Temporary, renamed: bool)

  /** A loader: is_dir, one listing without undeclared names (it may insist on more), then
      one file after another; any check may reject. */
  datatype Loader = LoadStart | Listing | Reading(got: Files) | Accepted(got: Files) | Rejected

  datatype World = World(dest: Entry, savers: seq<Saver>, loaders: seq<Loader>)

  /** One saver's job: the files it writes, in program order. */
  datatype Job = Job(order: seq<string>, contents: Files)

  /** names are the files a complete checkpoint consists of; manifest.json is one of them. */
  datatype Config = Config(names: set<string>, jobs: seq<Job>, initial: Entry)

  predicate GoodJob(names: set<string>, j: Job) {
    && j.contents.Keys == names && Elems(j.order) == names
    && (forall a, b :: 0 <= a < b < |j.order| ==> j.order[a] != j.order[b])
  }

  predicate GoodConfig(c: Config) {
    c.names != {} && forall j | j in c.jobs :: GoodJob(c.names, j)
  }

  /** The first k files written. */
  function Written(j: Job, k: nat): Files
    requires k <= |j.order| && Elems(j.order) <= j.contents.Keys
  {
    map n | n in Elems(j.order[..k]) && n in j.contents :: j.contents[n]
  }

  predicate Empty(e: Entry) { e == Directory(map[]) }

  // ---- filesystem calls ----

  /** rmdir succeeds on an empty directory only. */
  function RmdirOk(e: Entry): bool { Empty(e) }

  /** rename of a directory: the target must be absent or an empty directory. */
  function RenameOk(e: Entry): bool { e.Absent? || Empty(e) }

  // ---- steps ----

  predicate MayRaise(pc: SaverPc) {
    pc.Writing? || pc.SelfCheck? || pc.Sync? || pc.TestExists? || pc.RemoveEmpty? || pc.Rename? || pc.SyncParent?
  }

  predicate Finished(pc: SaverPc) { pc.Returned? || pc.RaisedError? || pc.Crashed? }

  /** One call of a saver with job j: from (dest, s) to (dest', s'). */
  predicate SaverStep(j: Job, dest: Entry, s: Saver, dest': Entry, s': Saver)
    requires Elems(j.order) <= j.contents.Keys
  {
    || (!Finished(s.pc) && dest' == dest && s' == s.(pc := Crashed))
    || (MayRaise(s.pc) && dest' == dest && s' == s.(pc := CleaningUp))
    || match s.pc
       case CheckExists => dest' == dest && s' == s.(pc := if dest.Absent? then MakeTemp else CheckIsDir)
       case CheckIsDir => dest' == dest && s' == s.(pc := if dest.Directory? then CheckEmpty else RaisedError)
       case CheckEmpty => dest' == dest && s' == s.(pc := if Empty(dest) then MakeTemp else RaisedError)
       case MakeTemp =>
         dest' == dest && (s' == s.(pc := Writing(0), temp := TempDir(map[])) || s' == s.(pc := RaisedError))
       case Writing(k) =>
         && dest' == dest && s.temp.TempDir?
         && (if k < |j.order| then s' == s.(pc := Writing(k + 1), temp := TempDir(s.temp.files[j.order[k] := j.contents[j.order[k]]]))
             else s' == s.(pc := SelfCheck))
       case SelfCheck => dest' == dest && s' == s.(pc := if s.temp == TempDir(j.contents) then Sync else CleaningUp)
       case Sync => dest' == dest && s' == s.(pc := TestExists)
       case TestExists => dest' == dest && s' == s.(pc := if dest.Absent? then Rename else RemoveEmpty)
       case RemoveEmpty =>
         if RmdirOk(dest) then dest' == Absent && s' == s.(pc := Rename) else dest' == dest && s' == s.(pc := CleaningUp)
       case Rename =>
         if RenameOk(dest) && s.temp.TempDir?
         then dest' == Directory(s.temp.files) && s' == Saver(SyncParent, NoTemp, true)
         else dest' == dest && s' == s.(pc := CleaningUp)
       case SyncParent => dest' == dest && s' == s.(pc := Returned)
       case CleaningUp =>
         dest' == dest && s'.renamed == s.renamed &&
         (|| (s'.pc == RaisedError && s'.temp == s.temp)
          || (s'.pc == RaisedError && s'.temp == NoTemp)
          || (s'.pc == CleaningUp && s.temp.TempDir? && s'.temp.TempDir? && s'.temp.files.Keys < s.temp.files.Keys))
       case Returned => false
       case RaisedError => false
       case Crashed => false
  }

  predicate LoaderStep(names: set<string>, dest: Entry, l: Loader, l': Loader) {
    match l
    case LoadStart => l' == if dest.Directory? then Listing else Rejected
    case Listing => l' == Rejected || (dest.Directory? && dest.files.Keys <= names && l' == Reading(map[]))
    case Reading(got) =>
      || l' == Rejected
      || (got.Keys == names && l' == Accepted(got))
      || (dest.Directory? && exists n :: n in names && n !in got && n in dest.files && l' == Reading(got[n := dest.files[n]]))
    case Accepted(_) => false
    case Rejected => false
  }

  ghost predicate Next(c: Config, w: World, w': World)
    requires GoodConfig(c)
  {
    || (exists i :: 0 <= i < |c.jobs| && SaverMoves(c, i, w, w'))
    || (exists i :: 0 <= i < |w.loaders| && LoaderMoves(c, i, w, w'))
  }

  ghost predicate SaverMoves(c: Config, i: int, w: World, w': World)
    requires GoodConfig(c) && 0 <= i < |c.jobs|
  {
    && |w.savers| == |c.jobs| == |w'.savers|
    && c.jobs[i] in c.jobs && GoodJob(c.names, c.jobs[i])
    && SaverStep(c.jobs[i], w.dest, w.savers[i], w'.dest, w'.savers[i])
    && w' == World(w'.dest, w.savers[i := w'.savers[i]], w.loaders)
  }

  ghost predicate LoaderMoves(c: Config, i: int, w: World, w': World)
    requires 0 <= i < |w.loaders|
  {
    && |w'.loaders| == |w.loaders|
    && LoaderStep(c.names, w.dest, w.loaders[i], w'.loaders[i])
    && w' == World(w.dest, w.savers, w.loaders[i := w'.loaders[i]])
  }

  ghost predicate Init(c: Config, w: World) {
    && w.dest == c.initial && |w.savers| == |c.jobs|
    && (forall s | s in w.savers :: s == Saver(CheckExists, NoTemp, false))
    && (forall l | l in w.loaders :: l == LoadStart)
  }

  // ---- the invariant ----

  /** What a saver's private state is, given where it is. */
  ghost predicate SaverOk(j: Job, s: Saver)
    requires Elems(j.order) <= j.contents.Keys
  {
    match s.pc
    case CheckExists => s.temp.NoTemp? && !s.renamed
    case CheckIsDir => s.temp.NoTemp? && !s.renamed
    case CheckEmpty => s.temp.NoTemp? && !s.renamed
    case MakeTemp => s.temp.NoTemp? && !s.renamed
    case Writing(k) => k <= |j.order| && s.temp == TempDir(Written(j, k)) && !s.renamed
    case SelfCheck => !s.renamed && s.temp == TempDir(j.contents)
    case Sync => !s.renamed && s.temp == TempDir(j.contents)
    case TestExists => !s.renamed && s.temp == TempDir(j.contents)
    case RemoveEmpty => !s.renamed && s.temp == TempDir(j.contents)
    case Rename => !s.renamed && s.temp == TempDir(j.contents)
    case SyncParent => s.renamed && s.temp.NoTemp?
    case Returned => s.renamed && s.temp.NoTemp?
    case CleaningUp => s.renamed ==> s.temp.NoTemp?
    case RaisedError => s.renamed ==> s.temp.NoTemp?
    case Crashed => s.renamed ==> s.temp.NoTemp?
  }

  /** Saver i renamed its complete directory into place and it stands there now. */
  ghost predicate PublishedBy(c: Config, w: World, i: int) {
    0 <= i < |c.jobs| == |w.savers| && w.savers[i].renamed && w.dest == Directory(c.jobs[i].contents)
  }

  /** Nobody has renamed: the destination is as found, or was empty and has been removed. */
  ghost predicate Untouched(c: Config, w: World) {
    && (w.dest == c.initial || (w.dest.Absent? && Empty(c.initial)))
    && (forall i | 0 <= i < |w.savers| :: !w.savers[i].renamed)
  }

  /** Exactly one saver has renamed, from an absent or empty destination. */
  ghost predicate Published(c: Config, w: World) {
    RenameOk(c.initial) && exists i :: PublishedBy(c, w, i) && OnlyRenamer(w, i)
  }

  ghost predicate OnlyRenamer(w: World, i: int) { forall j | 0 <= j < |w.savers| && w.savers[j].renamed :: j == i }

  /** A loader that has read something reads from a directory that no longer changes. */
  ghost predicate LoaderOk(c: Config, dest: Entry, l: Loader) {
    match l
    case LoadStart => true
    case Listing => true
    case Reading(got) =>
      (dest.Directory? ==> dest.files.Keys <= c.names) && (got != map[] ==> dest.Directory? && Agrees(got, dest.files))
    case Accepted(got) => dest == Directory(got) && got.Keys == c.names
    case Rejected => true
  }

  ghost predicate Agrees(got: Files, files: Files) { forall n | n in got :: n in files && got[n] == files[n] }

  ghost predicate Inv(c: Config, w: World)
    requires GoodConfig(c)
  {
    && |w.savers| == |c.jobs|
    && (forall i | 0 <= i < |c.jobs| :: c.jobs[i] in c.jobs && SaverOk(c.jobs[i], w.savers[i]))
    && (Untouched(c, w) || Published(c, w))
    && (forall l | l in w.loaders :: LoaderOk(c, w.dest, l))
  }

  // ---- single steps ----

  /** No call changes a directory that has something in it, nor a file in the way. */
  lemma NonemptyStays(j: Job, dest: Entry, s: Saver, dest': Entry, s': Saver)
    requires Elems(j.order) <= j.contents.Keys && SaverStep(j, dest, s, dest', s')
    requires dest.NotADirectory? || (dest.Directory? && dest.files != map[])
    ensures dest' == dest
  {
  }

  lemma WrittenNext(j: Job, k: nat)
    requires k < |j.order| && Elems(j.order) <= j.contents.Keys
    ensures j.order[k] in j.contents
    ensures Written(j, k)[j.order[k] := j.contents[j.order[k]]] == Written(j, k + 1)
  {
    assert j.order[k] in Elems(j.order);
    assert j.order[..k + 1] == j.order[..k] + [j.order[k]];
  }

  lemma WrittenAll(names: set<string>, j: Job)
    requires GoodJob(names, j)
    ensures Written(j, 0) == map[] && Written(j, |j.order|) == j.contents
  {
    assert j.order[..|j.order|] == j.order;
  }

  /** A saver's private state stays right. */
  lemma SaverStaysOk(names: set<string>, j: Job, dest: Entry, s: Saver, dest': Entry, s': Saver)
    requires GoodJob(names, j) && SaverOk(j, s) && SaverStep(j, dest, s, dest', s')
    ensures SaverOk(j, s')
  {
    if s.pc.Writing? {
      WriterStaysOk(names, j, dest, s, dest', s');
    } else if s.pc.CleaningUp? {
      CleanerStaysOk(names, j, dest, s, dest', s');
    }
  }

  lemma WriterStaysOk(names: set<string>, j: Job, dest: Entry, s: Saver, dest': Entry, s': Saver)
    requires GoodJob(names, j) && SaverOk(j, s) && SaverStep(j, dest, s, dest', s') && s.pc.Writing?
    ensures SaverOk(j, s')
  {
    if s.pc.done < |j.order| { WrittenNext(j, s.pc.done); } else { WrittenAll(names, j); }
  }

  lemma CleanerStaysOk(names: set<string>, j: Job, dest: Entry, s: Saver, dest': Entry, s': Saver)
    requires GoodJob(names, j) && SaverOk(j, s) && SaverStep(j, dest, s, dest', s') && s.pc.CleaningUp?
    ensures SaverOk(j, s')
  {
  }

  /** Only the rename step publishes, and only what is complete. */
  lemma SaverEffect(names: set<string>, j: Job, dest: Entry, s: Saver, dest': Entry, s': Saver)
    requires GoodJob(names, j) && SaverOk(j, s) && SaverStep(j, dest, s, dest', s')
    ensures s.renamed ==> s'.renamed && dest' == dest
    ensures !s.renamed && s'.renamed ==> RenameOk(dest) && dest' == Directory(j.contents)
    ensures !s.renamed && !s'.renamed ==> dest' == dest || (Empty(dest) && dest'.Absent?)
  {
    match s.pc
    case Rename =>
    case RemoveEmpty =>
    case _ =>
  }

  lemma SaverStepOk(names: set<string>, j: Job, dest: Entry, s: Saver, dest': Entry, s': Saver)
    requires GoodJob(names, j) && SaverOk(j, s) && SaverStep(j, dest, s, dest', s')
    ensures SaverOk(j, s')
    ensures s.renamed ==> s'.renamed && dest' == dest
    ensures !s.renamed && s'.renamed ==> RenameOk(dest) && dest' == Directory(j.contents)
    ensures !s'.renamed ==> dest' == dest || (Empty(dest) && dest'.Absent?)
  {
    SaverStaysOk(names, j, dest, s, dest', s');
    SaverEffect(names, j, dest, s, dest', s');
  }

  lemma DestinationKept(c: Config, i: int, w: World, w': World)
    requires GoodConfig(c) && Inv(c, w) && 0 <= i < |c.jobs| && SaverMoves(c, i, w, w')
    ensures Untouched(c, w') || Published(c, w')
  {
    if Untouched(c, w) {
      UntouchedMoves(c, i, w, w');
    } else {
      var p :| PublishedBy(c, w, p) && OnlyRenamer(w, p);
      PublishedMoves(c, i, w, w', p);
    }
  }

  lemma UntouchedMoves(c: Config, i: int, w: World, w': World)
    requires GoodConfig(c) && Inv(c, w) && Untouched(c, w) && 0 <= i < |c.jobs| && SaverMoves(c, i, w, w')
    ensures Untouched(c, w') || Published(c, w')
  {
    SaverStepOk(c.names, c.jobs[i], w.dest, w.savers[i], w'.dest, w'.savers[i]);
    assert forall k | 0 <= k < |w.savers| && k != i :: w'.savers[k] == w.savers[k];
    if w'.savers[i].renamed { assert PublishedBy(c, w', i) && OnlyRenamer(w', i); }
  }

  lemma PublishedMoves(c: Config, i: int, w: World, w': World, p: int)
    requires GoodConfig(c) && Inv(c, w) && 0 <= i < |c.jobs| && SaverMoves(c, i, w, w')
    requires PublishedBy(c, w, p) && OnlyRenamer(w, p) && RenameOk(c.initial)
    ensures Published(c, w')
  {
    SaverStepOk(c.names, c.jobs[i], w.dest, w.savers[i], w'.dest, w'.savers[i]);
    assert c.jobs[p] in c.jobs && c.jobs[p].contents != map[];
    NonemptyStays(c.jobs[i], w.dest, w.savers[i], w'.dest, w'.savers[i]);
    assert PublishedBy(c, w', p) && OnlyRenamer(w', p);
  }

  lemma LoadersKept(c: Config, i: int, w: World, w': World)
    requires GoodConfig(c) && Inv(c, w) && 0 <= i < |c.jobs| && SaverMoves(c, i, w, w')
    ensures forall l | l in w'.loaders :: LoaderOk(c, w'.dest, l)
  {
    forall l | l in w'.loaders ensures LoaderOk(c, w'.dest, l) {
      assert l in w.loaders && LoaderOk(c, w.dest, l);
      SaverEffect(c.names, c.jobs[i], w.dest, w.savers[i], w'.dest, w'.savers[i]);
      if w.dest.Directory? && w.dest.files != map[] {
        NonemptyStays(c.jobs[i], w.dest, w.savers[i], w'.dest, w'.savers[i]);
      }
    }
  }

  lemma SaverKeepsInv(c: Config, i: int, w: World, w': World)
    requires GoodConfig(c) && Inv(c, w) && 0 <= i < |c.jobs| && SaverMoves(c, i, w, w')
    ensures Inv(c, w')
  {
    SaverStepOk(c.names, c.jobs[i], w.dest, w.savers[i], w'.dest, w'.savers[i]);
    DestinationKept(c, i, w, w');
    LoadersKept(c, i, w, w');
  }

  lemma LoaderKeepsInv(c: Config, i: int, w: World, w': World)
    requires GoodConfig(c) && Inv(c, w) && 0 <= i < |w.loaders| && LoaderMoves(c, i, w, w')
    ensures Inv(c, w')
  {
    assert w.loaders[i] in w.loaders && LoaderOk(c, w.dest, w.loaders[i]);
    var l, l' := w.loaders[i], w'.loaders[i];
    assert LoaderOk(c, w.dest, l') by { LoaderStepOk(c, w.dest, l, l'); }
    forall x | x in w'.loaders ensures LoaderOk(c, w'.dest, x) {
      var k :| 0 <= k < |w'.loaders| && w'.loaders[k] == x;
      if k != i { assert w.loaders[k] == x && x in w.loaders; }
    }
    if Published(c, w) {
      var p :| PublishedBy(c, w, p) && OnlyRenamer(w, p);
      assert PublishedBy(c, w', p) && OnlyRenamer(w', p);
    }
  }

  lemma LoaderStepOk(c: Config, dest: Entry, l: Loader, l': Loader)
    requires GoodConfig(c) && LoaderOk(c, dest, l) && LoaderStep(c.names, dest, l, l')
    ensures LoaderOk(c, dest, l')
  {
  }

  // ---- whole runs ----

  ghost predicate Steps(c: Config, run: seq<World>)
    requires GoodConfig(c)
  {
    forall k | 0 <= k < |run| - 1 :: Next(c, run[k], run[k + 1])
  }

  /** Any interleaving of savers and loaders, each stopping, raising or dying anywhere. */
  ghost predicate IsRun(c: Config, run: seq<World>)
    requires GoodConfig(c)
  {
    run != [] && Init(c, run[0]) && Steps(c, run)
  }

  lemma {:induction false} InvOverRun(c: Config, run: seq<World>, k: nat)
    requires GoodConfig(c) && IsRun(c, run) && k < |run|
    ensures Inv(c, run[k])
  {
    if k == 0 {
      forall i | 0 <= i < |c.jobs| ensures c.jobs[i] in c.jobs && SaverOk(c.jobs[i], run[0].savers[i]) {
        assert run[0].savers[i] in run[0].savers;
      }
      forall i | 0 <= i < |run[0].savers| ensures !run[0].savers[i].renamed {
        assert run[0].savers[i] in run[0].savers;
      }
    } else {
      InvOverRun(c, run, k - 1);
      var w, w' := run[k - 1], run[k];
      assert Next(c, w, w');
      if i :| 0 <= i < |c.jobs| && SaverMoves(c, i, w, w') {
        SaverKeepsInv(c, i, w, w');
      } else {
        var i :| 0 <= i < |w.loaders| && LoaderMoves(c, i, w, w');
        LoaderKeepsInv(c, i, w, w');
      }
    }
  }

  /** At every moment the destination is as it was found, or an empty one has been removed,
      or it is the complete output of exactly the one saver that has renamed. */
  lemma AtomicPublication(c: Config, run: seq<World>, k: nat)
    requires GoodConfig(c) && IsRun(c, run) && k < |run|
    ensures var w := run[k];
            || w.dest == c.initial
            || (Empty(c.initial) && w.dest.Absent?)
            || (RenameOk(c.initial) && exists i :: PublishedBy(c, w, i))
    ensures forall i | 0 <= i < |c.jobs| :: i < |run[k].savers| && (run[k].savers[i].renamed <==> PublishedBy(c, run[k], i))
    ensures forall i, j :: PublishedBy(c, run[k], i) && PublishedBy(c, run[k], j) ==> i == j
  {
    InvOverRun(c, run, k);
    var w := run[k];
    if Published(c, w) {
      var p :| PublishedBy(c, w, p) && OnlyRenamer(w, p);
    }
  }

  /** What a caller is told: a saver that returned has published; one that raised after the
      rename has published all the same. */
  lemma ReturnedMeansPublished(c: Config, run: seq<World>, k: nat, i: nat)
    requires GoodConfig(c) && IsRun(c, run) && k < |run| && i < |c.jobs|
    ensures i < |run[k].savers|
    ensures run[k].savers[i].pc.Returned? || run[k].savers[i].pc.SyncParent? ==> PublishedBy(c, run[k], i)
    ensures run[k].savers[i].pc.RaisedError? && run[k].savers[i].renamed ==> PublishedBy(c, run[k], i)
  {
    InvOverRun(c, run, k);
    AtomicPublication(c, run, k);
    assert SaverOk(c.jobs[i], run[k].savers[i]);
  }

  lemma RunStepKeepsPublished(c: Config, run: seq<World>, k: nat, i: int)
    requires GoodConfig(c) && IsRun(c, run) && k + 1 < |run| && PublishedBy(c, run[k], i)
    ensures PublishedBy(c, run[k + 1], i) && run[k + 1].dest == run[k].dest
  {
    InvOverRun(c, run, k);
    assert Next(c, run[k], run[k + 1]);
    StepKeepsPublished(c, run[k], run[k + 1], i);
  }

  /** Once published, always published: nothing later changes the destination, neither other
      savers nor an error after the rename. */
  lemma {:induction false} PublishedForever(c: Config, run: seq<World>, k: nat, m: nat, i: int)
    requires GoodConfig(c) && IsRun(c, run) && k <= m < |run| && PublishedBy(c, run[k], i)
    ensures PublishedBy(c, run[m], i) && run[m].dest == run[k].dest
    decreases m - k
  {
    if k < m {
      RunStepKeepsPublished(c, run, k, i);
      PublishedForever(c, run, k + 1, m, i);
    }
  }

  lemma StepKeepsPublished(c: Config, w: World, w': World, i: int)
    requires GoodConfig(c) && Inv(c, w) && Next(c, w, w') && PublishedBy(c, w, i)
    ensures PublishedBy(c, w', i) && w'.dest == w.dest
  {
    assert c.jobs[i] in c.jobs && c.jobs[i].contents != map[];
    if k :| 0 <= k < |c.jobs| && SaverMoves(c, k, w, w') { SaverKeepsPublished(c, w, w', i, k); }
  }

  lemma SaverKeepsPublished(c: Config, w: World, w': World, i: int, k: int)
    requires GoodConfig(c) && Inv(c, w) && 0 <= k < |c.jobs| && SaverMoves(c, k, w, w') && PublishedBy(c, w, i)
    requires c.jobs[i].contents != map[]
    ensures PublishedBy(c, w', i) && w'.dest == w.dest
  {
    NonemptyStays(c.jobs[k], w.dest, w.savers[k], w'.dest, w'.savers[k]);
    SaverStepOk(c.names, c.jobs[k], w.dest, w.savers[k], w'.dest, w'.savers[k]);
  }

  /** A destination that was neither absent nor an empty directory is never touched. */
  lemma OccupiedStays(c: Config, run: seq<World>, k: nat)
    requires GoodConfig(c) && IsRun(c, run) && k < |run| && !RenameOk(c.initial)
    ensures run[k].dest == c.initial
    ensures forall s | s in run[k].savers :: !s.renamed
  {
    InvOverRun(c, run, k);
  }

  /** A saver that finds the destination occupied gives up before it makes anything. */
  predicate Refused(s: Saver) {
    && (s.pc.CheckExists? || s.pc.CheckIsDir? || s.pc.CheckEmpty? || s.pc.RaisedError? || s.pc.Crashed?)
    && s.temp == NoTemp && !s.renamed
  }

  lemma RefusedStep(j: Job, dest: Entry, s: Saver, dest': Entry, s': Saver)
    requires Elems(j.order) <= j.contents.Keys && SaverStep(j, dest, s, dest', s') && !RenameOk(dest) && Refused(s)
    ensures Refused(s') && dest' == dest
  {
  }

  /** Over an occupied destination every saver raises without making its temporary directory. */
  lemma {:induction false} OccupiedIsRefused(c: Config, run: seq<World>, k: nat)
    requires GoodConfig(c) && IsRun(c, run) && k < |run| && !RenameOk(c.initial)
    ensures run[k].dest == c.initial && forall i | 0 <= i < |run[k].savers| :: Refused(run[k].savers[i])
  {
    OccupiedStays(c, run, k);
    if k == 0 {
      forall i | 0 <= i < |run[0].savers| ensures Refused(run[0].savers[i]) { assert run[0].savers[i] in run[0].savers; }
    } else {
      OccupiedIsRefused(c, run, k - 1);
      assert Next(c, run[k - 1], run[k]);
      RefusedNext(c, run[k - 1], run[k]);
    }
  }

  lemma RefusedNext(c: Config, w: World, w': World)
    requires GoodConfig(c) && Next(c, w, w') && !RenameOk(w.dest) && forall i | 0 <= i < |w.savers| :: Refused(w.savers[i])
    ensures forall i | 0 <= i < |w'.savers| :: Refused(w'.savers[i])
  {
    if i :| 0 <= i < |c.jobs| && SaverMoves(c, i, w, w') {
      RefusedStep(c.jobs[i], w.dest, w.savers[i], w'.dest, w'.savers[i]);
    } else {
      var i :| 0 <= i < |w.loaders| && LoaderMoves(c, i, w, w');
      assert w'.savers == w.savers;
    }
  }

  /** A loader that accepts has read one saver's complete output, or the directory that was
      there from the start; never a mixture and never a part. */
  lemma LoadsAreComplete(c: Config, run: seq<World>, k: nat, l: Loader)
    requires GoodConfig(c) && IsRun(c, run) && k < |run| && l in run[k].loaders && l.Accepted?
    ensures run[k].dest == Directory(l.got)
    ensures c.initial == Directory(l.got) || exists i :: PublishedBy(c, run[k], i) && l.got == c.jobs[i].contents
  {
    InvOverRun(c, run, k);
    assert LoaderOk(c, run[k].dest, l);
    AtomicPublication(c, run, k);
  }

  // ---- publication does happen ----

  /** The calls left to a saver that nothing disturbs. */
  function CallsLeft(j: Job, s: Saver): nat {
    match s.pc
    case CheckExists => |j.order| + 11
    case CheckIsDir => |j.order| + 10
    case CheckEmpty => |j.order| + 9
    case MakeTemp => |j.order| + 8
    case Writing(k) => if k <= |j.order| then |j.order| - k + 7 else 7
    case SelfCheck => 6
    case Sync => 5
    case TestExists => 4
    case RemoveEmpty => 3
    case Rename => 2
    case SyncParent => 1
    case _ => 0
  }

  predicate OnTheWay(pc: SaverPc) {
    !pc.Returned? && !pc.CleaningUp? && !pc.RaisedError? && !pc.Crashed?
  }

  /** The next call of a saver when it does not fail. */
  function UndisturbedCall(j: Job, dest: Entry, s: Saver): (Entry, Saver)
    requires Elems(j.order) <= j.contents.Keys
    requires s.pc.Writing? ==> s.temp.TempDir?
  {
    match s.pc
    case CheckExists => (dest, s.(pc := if dest.Absent? then MakeTemp else CheckIsDir))
    case CheckIsDir => (dest, s.(pc := CheckEmpty))
    case CheckEmpty => (dest, s.(pc := MakeTemp))
    case MakeTemp => (dest, s.(pc := Writing(0), temp := TempDir(map[])))
    case Writing(k) =>
      if k < |j.order| && j.order[k] in j.contents
      then (dest, s.(pc := Writing(k + 1), temp := TempDir(s.temp.files[j.order[k] := j.contents[j.order[k]]])))
      else (dest, s.(pc := SelfCheck))
    case SelfCheck => (dest, s.(pc := Sync))
    case Sync => (dest, s.(pc := TestExists))
    case TestExists => (dest, s.(pc := if dest.Absent? then Rename else RemoveEmpty))
    case RemoveEmpty => (Absent, s.(pc := Rename))
    case Rename => (Directory(j.contents), Saver(SyncParent, NoTemp, true))
    case SyncParent => (dest, s.(pc := Returned))
    case _ => (dest, s)
  }

  /** The destination the next call needs to succeed. */
  predicate Suits(dest: Entry, s: Saver) {
    && (RenameOk(dest) || s.renamed)
    && (s.pc.Rename? ==> RenameOk(dest))
    && (s.pc.CheckIsDir? || s.pc.CheckEmpty? || s.pc.RemoveEmpty? ==> Empty(dest))
  }

  lemma UndisturbedCallWorks(names: set<string>, j: Job, dest: Entry, s: Saver)
    requires GoodJob(names, j) && SaverOk(j, s) && OnTheWay(s.pc) && Suits(dest, s)
    ensures var (dest', s') := UndisturbedCall(j, dest, s);
            && SaverStep(j, dest, s, dest', s') && Suits(dest', s')
            && (OnTheWay(s'.pc) || s'.pc.Returned?) && CallsLeft(j, s') < CallsLeft(j, s)
  {
    if s.pc.Writing? && s.pc.done < |j.order| { WrittenNext(j, s.pc.done); }
  }

  /** The next step of saver i when no call fails. */
  lemma UndisturbedStep(c: Config, w: World, i: int) returns (w': World)
    requires GoodConfig(c) && Inv(c, w) && 0 <= i < |c.jobs| && OnTheWay(w.savers[i].pc) && Suits(w.dest, w.savers[i])
    ensures SaverMoves(c, i, w, w') && Inv(c, w')
    ensures OnTheWay(w'.savers[i].pc) || w'.savers[i].pc.Returned?
    ensures CallsLeft(c.jobs[i], w'.savers[i]) < CallsLeft(c.jobs[i], w.savers[i])
    ensures Suits(w'.dest, w'.savers[i])
  {
    assert c.jobs[i] in c.jobs && SaverOk(c.jobs[i], w.savers[i]);
    UndisturbedCallWorks(c.names, c.jobs[i], w.dest, w.savers[i]);
    var (dest', s') := UndisturbedCall(c.jobs[i], w.dest, w.savers[i]);
    w' := World(dest', w.savers[i := s'], w.loaders);
    SaverKeepsInv(c, i, w, w');
  }

  lemma {:induction false} UndisturbedSaverPublishes(c: Config, w: World, i: int) returns (path: seq<World>)
    requires GoodConfig(c) && Inv(c, w) && 0 <= i < |c.jobs| && OnTheWay(w.savers[i].pc) && Suits(w.dest, w.savers[i])
    ensures path != [] && path[0] == w && Steps(c, path)
    ensures var end := path[|path| - 1]; Inv(c, end) && end.savers[i].pc.Returned? && PublishedBy(c, end, i)
    decreases CallsLeft(c.jobs[i], w.savers[i])
  {
    var w' := UndisturbedStep(c, w, i);
    assert Next(c, w, w');
    if w'.savers[i].pc.Returned? {
      path := [w, w'];
      ReturnedIsPublished(c, w', i);
    } else {
      var rest := UndisturbedSaverPublishes(c, w', i);
      path := [w] + rest;
      StepsCons(c, w, rest);
    }
  }

  lemma ReturnedIsPublished(c: Config, w: World, i: int)
    requires GoodConfig(c) && Inv(c, w) && 0 <= i < |c.jobs| && w.savers[i].pc.Returned?
    ensures PublishedBy(c, w, i)
  {
    assert c.jobs[i] in c.jobs && SaverOk(c.jobs[i], w.savers[i]);
    var p :| PublishedBy(c, w, p) && OnlyRenamer(w, p);
  }

  lemma StepsCons(c: Config, w: World, rest: seq<World>)
    requires GoodConfig(c) && rest != [] && Next(c, w, rest[0]) && Steps(c, rest)
    ensures Steps(c, [w] + rest)
  {
    var path := [w] + rest;
    forall k | 0 <= k < |path| - 1 ensures Next(c, path[k], path[k + 1]) {
      if k > 0 { assert path[k] == rest[k - 1] && path[k + 1] == rest[k]; }
    }
  }

  // ---- any number of savers, none of them hit by a fault ----

  /** No crash and no error but the ones the destination causes. */
  predicate Faultless(dest: Entry, s: Saver, s': Saver) {
    && !s'.pc.Crashed? && (s.pc.MakeTemp? ==> s'.pc.Writing?)
    && (MayRaise(s.pc) && s'.pc.CleaningUp? ==>
          (s.pc.RemoveEmpty? && !RmdirOk(dest)) || (s.pc.Rename? && !RenameOk(dest)))
  }

  ghost predicate FaultlessMove(c: Config, i: int, w: World, w': World)
    requires GoodConfig(c) && 0 <= i < |c.jobs|
  {
    SaverMoves(c, i, w, w') && Faultless(w.dest, w.savers[i], w'.savers[i])
  }

  ghost predicate FaultlessNext(c: Config, w: World, w': World)
    requires GoodConfig(c)
  {
    || (exists i :: 0 <= i < |c.jobs| && FaultlessMove(c, i, w, w'))
    || (exists i :: 0 <= i < |w.loaders| && LoaderMoves(c, i, w, w'))
  }

  ghost predicate IsFaultlessRun(c: Config, run: seq<World>)
    requires GoodConfig(c)
  {
    run != [] && Init(c, run[0]) && forall k | 0 <= k < |run| - 1 :: FaultlessNext(c, run[k], run[k + 1])
  }

  /** Where a saver can be before the destination has changed. */
  predicate Early(initial: Entry, pc: SaverPc) {
    && OnTheWay(pc) && !pc.SyncParent?
    && (initial.Absent? ==> !pc.CheckIsDir? && !pc.CheckEmpty? && !pc.RemoveEmpty?)
  }

  ghost predicate AllEarly(c: Config, w: World) { forall i | 0 <= i < |w.savers| :: Early(c.initial, w.savers[i].pc) }

  ghost predicate SomeoneRenames(w: World) { exists i :: 0 <= i < |w.savers| && w.savers[i].pc.Rename? }

  /** As long as nobody has published, somebody still will: either the destination is as
      found and every saver is on its way, or it was removed and somebody is about to rename. */
  ghost predicate Underway(c: Config, w: World) {
    Untouched(c, w) ==> (w.dest == c.initial && AllEarly(c, w)) || (w.dest.Absent? && SomeoneRenames(w))
  }

  /** A saver that has published is not going to raise. */
  predicate Steady(s: Saver) { !s.pc.Crashed? && (s.renamed ==> s.pc.SyncParent? || s.pc.Returned?) }

  ghost predicate AllSteady(w: World) { forall i | 0 <= i < |w.savers| :: Steady(w.savers[i]) }

  lemma EarlyStep(names: set<string>, j: Job, dest: Entry, s: Saver, dest': Entry, s': Saver)
    requires GoodJob(names, j) && SaverOk(j, s) && SaverStep(j, dest, s, dest', s') && Faultless(dest, s, s')
    requires RenameOk(dest) && Early(dest, s.pc) && !s'.renamed
    ensures (dest' == dest && Early(dest, s'.pc)) || (dest'.Absent? && s'.pc.Rename?)
  {
  }

  lemma AbsentStep(names: set<string>, j: Job, dest: Entry, s: Saver, dest': Entry, s': Saver)
    requires GoodJob(names, j) && SaverOk(j, s) && SaverStep(j, dest, s, dest', s') && Faultless(dest, s, s')
    requires dest.Absent? && !s'.renamed
    ensures dest'.Absent? && !s.pc.Rename?
  {
  }

  lemma SteadyStep(names: set<string>, j: Job, dest: Entry, s: Saver, dest': Entry, s': Saver)
    requires GoodJob(names, j) && SaverOk(j, s) && SaverStep(j, dest, s, dest', s') && Faultless(dest, s, s') && Steady(s)
    ensures Steady(s')
  {
  }

  lemma MoveKeepsUnderway(c: Config, i: int, w: World, w': World)
    requires GoodConfig(c) && Inv(c, w) && RenameOk(c.initial) && Underway(c, w)
    requires 0 <= i < |c.jobs| && FaultlessMove(c, i, w, w')
    ensures Underway(c, w')
  {
    assert SaverOk(c.jobs[i], w.savers[i]);
    if Untouched(c, w') {
      UntouchedBefore(c, i, w, w');
      if w.dest == c.initial && AllEarly(c, w) { EarlyMove(c, i, w, w'); } else { AbsentMove(c, i, w, w'); }
    }
  }

  lemma EarlyMove(c: Config, i: int, w: World, w': World)
    requires GoodConfig(c) && 0 <= i < |c.jobs| && FaultlessMove(c, i, w, w') && SaverOk(c.jobs[i], w.savers[i])
    requires RenameOk(c.initial) && w.dest == c.initial && AllEarly(c, w) && !w'.savers[i].renamed
    ensures (w'.dest == c.initial && AllEarly(c, w')) || (w'.dest.Absent? && SomeoneRenames(w'))
  {
    EarlyStep(c.names, c.jobs[i], w.dest, w.savers[i], w'.dest, w'.savers[i]);
  }

  lemma AbsentMove(c: Config, i: int, w: World, w': World)
    requires GoodConfig(c) && 0 <= i < |c.jobs| && FaultlessMove(c, i, w, w') && SaverOk(c.jobs[i], w.savers[i])
    requires w.dest.Absent? && SomeoneRenames(w) && !w'.savers[i].renamed
    ensures w'.dest.Absent? && SomeoneRenames(w')
  {
    AbsentStep(c.names, c.jobs[i], w.dest, w.savers[i], w'.dest, w'.savers[i]);
    var p :| 0 <= p < |w.savers| && w.savers[p].pc.Rename?;
    assert w'.savers[p].pc.Rename?;
  }

  lemma UntouchedBefore(c: Config, i: int, w: World, w': World)
    requires GoodConfig(c) && Inv(c, w) && 0 <= i < |c.jobs| && SaverMoves(c, i, w, w') && Untouched(c, w')
    ensures Untouched(c, w)
  {
    SaverEffect(c.names, c.jobs[i], w.dest, w.savers[i], w'.dest, w'.savers[i]);
    forall p | 0 <= p < |w.savers| ensures !w.savers[p].renamed { assert !w'.savers[p].renamed; }
  }

  lemma MoveKeepsSteady(c: Config, i: int, w: World, w': World)
    requires GoodConfig(c) && Inv(c, w) && AllSteady(w) && 0 <= i < |c.jobs| && FaultlessMove(c, i, w, w')
    ensures AllSteady(w')
  {
    assert SaverOk(c.jobs[i], w.savers[i]);
    SteadyStep(c.names, c.jobs[i], w.dest, w.savers[i], w'.dest, w'.savers[i]);
  }

  lemma FaultlessIsNext(c: Config, w: World, w': World)
    requires GoodConfig(c) && FaultlessNext(c, w, w')
    ensures Next(c, w, w')
  {
    if i :| 0 <= i < |c.jobs| && FaultlessMove(c, i, w, w') { assert SaverMoves(c, i, w, w'); }
  }

  lemma FaultlessIsRun(c: Config, run: seq<World>)
    requires GoodConfig(c) && IsFaultlessRun(c, run)
    ensures IsRun(c, run)
  {
    forall k | 0 <= k < |run| - 1 ensures Next(c, run[k], run[k + 1]) {
      assert FaultlessNext(c, run[k], run[k + 1]);
      FaultlessIsNext(c, run[k], run[k + 1]);
    }
  }

  lemma {:induction false} UnderwayOverRun(c: Config, run: seq<World>, k: nat)
    requires GoodConfig(c) && IsFaultlessRun(c, run) && RenameOk(c.initial) && k < |run|
    ensures Inv(c, run[k]) && Underway(c, run[k]) && AllSteady(run[k])
  {
    FaultlessIsRun(c, run);
    InvOverRun(c, run, k);
    if k == 0 {
      forall i | 0 <= i < |run[0].savers| ensures Early(c.initial, run[0].savers[i].pc) && Steady(run[0].savers[i]) {
        assert run[0].savers[i] in run[0].savers;
      }
    } else {
      UnderwayOverRun(c, run, k - 1);
      assert FaultlessNext(c, run[k - 1], run[k]);
      UnderwayStep(c, run[k - 1], run[k]);
    }
  }

  lemma UnderwayStep(c: Config, w: World, w': World)
    requires GoodConfig(c) && RenameOk(c.initial) && Inv(c, w) && Underway(c, w) && AllSteady(w) && FaultlessNext(c, w, w')
    ensures Underway(c, w') && AllSteady(w')
  {
    if i :| 0 <= i < |c.jobs| && FaultlessMove(c, i, w, w') {
      MoveKeepsUnderway(c, i, w, w');
      MoveKeepsSteady(c, i, w, w');
    } else {
      var i :| 0 <= i < |w.loaders| && LoaderMoves(c, i, w, w');
      assert w'.savers == w.savers && w'.dest == w.dest;
    }
  }

  /** From a free destination, however many savers interleave: when all have finished, exactly
      one has returned, it has published, and all others have raised. */
  lemma ExactlyOneSucceeds(c: Config, run: seq<World>, k: nat) returns (i: nat)
    requires GoodConfig(c) && IsFaultlessRun(c, run) && k < |run|
    requires RenameOk(c.initial) && c.jobs != [] && forall s | s in run[k].savers :: Finished(s.pc)
    ensures i < |c.jobs| == |run[k].savers| && PublishedBy(c, run[k], i)
    ensures forall m | 0 <= m < |c.jobs| :: run[k].savers[m].pc == if m == i then Returned else RaisedError
  {
    UnderwayOverRun(c, run, k);
    FinishedIsPublished(c, run[k]);
    i :| PublishedBy(c, run[k], i) && OnlyRenamer(run[k], i);
    forall m | 0 <= m < |c.jobs| ensures run[k].savers[m].pc == if m == i then Returned else RaisedError {
      FinishedSaver(c, run[k], i, m);
    }
  }

  lemma FinishedIsPublished(c: Config, w: World)
    requires (Untouched(c, w) || Published(c, w)) && Underway(c, w) && w.savers != []
    requires forall s | s in w.savers :: Finished(s.pc)
    ensures Published(c, w)
  {
    assert Finished(w.savers[0].pc);
    assert AllEarly(c, w) ==> Early(c.initial, w.savers[0].pc);
    forall m | 0 <= m < |w.savers| ensures Finished(w.savers[m].pc) { assert w.savers[m] in w.savers; }
  }

  lemma FinishedSaver(c: Config, w: World, i: int, m: nat)
    requires GoodConfig(c) && Inv(c, w) && AllSteady(w) && PublishedBy(c, w, i) && OnlyRenamer(w, i)
    requires m < |c.jobs| && forall s | s in w.savers :: Finished(s.pc)
    ensures w.savers[m].pc == if m == i then Returned else RaisedError
  {
    assert w.savers[m] in w.savers && Steady(w.savers[m]) && SaverOk(c.jobs[m], w.savers[m]);
  }
}
