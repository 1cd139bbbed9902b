/** Build, validate, promote and roll back as steps on the candidate directories, the archives
    and the one deployed file, each of which the file system may cut off. */
module ThresholdOps {
  import opened Wrappers
  import opened ThresholdFile

  datatype Scope = AllMeters | TrainingMeters

  datatype Checks = Checks(scope: Scope, minSamples: int, ratio: real)

  /** A verdict, the checks asked for, the file it is about (by hash) and, which the file does
      not record, what was deployed at the time. */
  datatype Validation = Validation(verdict: Verdict, checks: Checks, about: Content, against: Option<Content>)

  /** validation.json: absent, cut off while it was written, or whole. */
  datatype Record = NoRecord | Unreadable | Recorded(validation: Validation)

  datatype Candidate = Candidate(file: Option<Content>, record: Record)

  datatype Archive = Archive(backup: Option<Content>)

  /** A promotion that took place: which archive keeps what was deployed just before. */
  datatype Promotion = Promotion(archive: string, previous: Option<Content>)

  datatype Meters = Meters(all: set<string>, training: set<string>) {
    function Selected(scope: Scope): set<string> {
      if scope == AllMeters then all else training
    }
  }

  datatype Store = Store(candidates: map<string, Candidate>, archives: map<string, Archive>,
                         deployed: Option<Content>, promotions: seq<Promotion>)

  // ----- Where an operation can be cut off -----------------------------------------------

  /** Removing an old candidate directory deletes file after file and may stop in between. */
  datatype Removal = Removed | Stopped(fileLeft: bool, recordLeft: bool)

  /** How far the database and the file system let a build get after that. */
  datatype BuildResult = NothingWritten | PartlyWritten(partial: Content) | Written(content: Content)

  /** Writing validation.json. */
  datatype Write = Complete | NotStarted | CutOff

  /** Copying over a file in place. */
  datatype Copy = Whole | NotBegun | PartOf(left: Content)

  /** Where a promotion that goes ahead hits an error, if it does. */
  datatype Fault =
    | NoFault
    | ArchiveNotMade
    | ArchiveCopyFails(left: Option<Content>)
    | StagingFails
    | ReplaceFails(restore: Copy)
    | RecordingFails

  datatype RollbackSource =
    | FromArchive(archive: string)
    | FromCandidate(run: string)
    | FromElsewhere(file: Option<Content>)

  datatype BuildArgs = BuildArgs(run: string, overwrite: bool, removal: Removal, built: BuildResult)

  datatype PromoteArgs = PromoteArgs(run: string, confirm: bool, revalidate: bool, allowWarn: bool, checks: Checks,
                                     write: Write, archive: string, fault: Fault)

  datatype RollbackArgs = RollbackArgs(source: RollbackSource, confirm: bool, checks: Checks, copy: Copy, logged: bool)

  datatype Command =
    | Build(build: BuildArgs)
    | Validate(run: string, checks: Checks, write: Write)
    | Promote(promote: PromoteArgs)
    | Rollback(rollback: RollbackArgs)

  // ----- The operations on the store -----------------------------------------------------

  /** The store after a command and whether the command raised. */
  datatype Result = Result(store: Store, raised: bool)

  function FileOf(s: Store, run: string): Option<Content> {
    if run in s.candidates then s.candidates[run].file else None
  }

  function RecordOf(s: Store, run: string): Record {
    if run in s.candidates then s.candidates[run].record else NoRecord
  }

  ghost function CheckFile(m: Meters, file: Option<Content>, c: Checks,
                           deployed: Option<Content>): Outcome<Validation> {
    if !CanBeChecked(file) || !CanBeCompared(deployed) then Raised
    else
      var verdict := VerdictOn(file.value.rows, m.Selected(c.scope), c.minSamples, deployed, c.ratio);
      Returned(Validation(verdict, c, file.value, deployed))
  }

  function WithRecord(s: Store, run: string, record: Record): Store {
    s.(candidates := s.candidates[run := Candidate(FileOf(s, run), record)])
  }

  function WriteRecord(s: Store, run: string, v: Validation, write: Write): Result {
    match write
    case Complete => Result(WithRecord(s, run, Recorded(v)), false)
    case NotStarted => Result(s, true)
    case CutOff => Result(WithRecord(s, run, Unreadable), true)
  }

  function Left(c: Candidate, removal: Removal): Candidate
    requires removal.Stopped?
  {
    Candidate(if removal.fileLeft then c.file else None, if removal.recordLeft then c.record else NoRecord)
  }

  function AfterBuild(s: Store, b: BuildArgs): Result {
    if b.run in s.candidates && !b.overwrite then Result(s, true)
    else if b.run in s.candidates && b.removal.Stopped? then
      Result(s.(candidates := s.candidates[b.run := Left(s.candidates[b.run], b.removal)]), true)
    else
      var file := match b.built case NothingWritten => None case PartlyWritten(c) => Some(c) case Written(c) => Some(c);
      Result(s.(candidates := s.candidates[b.run := Candidate(file, NoRecord)]), !b.built.Written?)
  }

  ghost function AfterValidate(m: Meters, s: Store, run: string, c: Checks, write: Write): Result {
    var v := CheckFile(m, FileOf(s, run), c, s.deployed);
    if v.Raised? then Result(s, true) else WriteRecord(s, run, v.value, write)
  }

  /** The validation a promotion decides by, and the store once it is on file. */
  ghost function Decide(m: Meters, s: Store, p: PromoteArgs): (Outcome<Validation>, Store) {
    var record := RecordOf(s, p.run);
    if record != NoRecord && !p.revalidate then
      (if record.Recorded? then Returned(record.validation) else Raised, s)
    else
      var v := CheckFile(m, FileOf(s, p.run), p.checks, s.deployed);
      if v.Raised? then (Raised, s)
      else
        var written := WriteRecord(s, p.run, v.value, p.write);
        (if written.raised then Raised else v, written.store)
  }

  function CopyOnto(before: Option<Content>, source: Content, copy: Copy): Option<Content> {
    match copy
    case Whole => Some(source)
    case NotBegun => before
    case PartOf(left) => Some(left)
  }

  function Deploy(s: Store, run: string, archive: string, fault: Fault): Result {
    if archive in s.archives || fault.ArchiveNotMade? then Result(s, true)
    else if fault.ArchiveCopyFails? && s.deployed.Some? then
      Result(s.(archives := s.archives[archive := Archive(fault.left)]), true)
    else
      var archived := s.(archives := s.archives[archive := Archive(s.deployed)]);
      if fault.StagingFails? || FileOf(s, run).None? then Result(archived, true)
      else if fault.ReplaceFails? then
        var restored := if s.deployed.Some? then CopyOnto(s.deployed, s.deployed.value, fault.restore) else None;
        Result(archived.(deployed := restored), true)
      else
        var promotions := s.promotions + [Promotion(archive, s.deployed)];
        Result(archived.(deployed := FileOf(s, run), promotions := promotions), fault.RecordingFails?)
  }

  predicate Admits(v: Outcome<Validation>, allowWarn: bool) {
    v.Returned? && (v.value.verdict == Pass || (v.value.verdict == Warn && allowWarn))
  }

  ghost function AfterPromote(m: Meters, s: Store, p: PromoteArgs): Result {
    if !p.confirm then Result(s, true)
    else
      var (v, checked) := Decide(m, s, p);
      if Admits(v, p.allowWarn) then Deploy(checked, p.run, p.archive, p.fault) else Result(checked, true)
  }

  function BackupAt(s: Store, source: RollbackSource): Option<Content> {
    match source
    case FromArchive(a) => if a in s.archives then s.archives[a].backup else None
    case FromCandidate(run) => FileOf(s, run)
    case FromElsewhere(file) => file
  }

  ghost predicate RollbackAccepted(m: Meters, s: Store, r: RollbackArgs) {
    r.confirm && Admits(CheckFile(m, BackupAt(s, r.source), r.checks, None), true)
  }

  ghost function AfterRollback(m: Meters, s: Store, r: RollbackArgs): Result {
    if !RollbackAccepted(m, s, r) then Result(s, true)
    else
      var copied := CopyOnto(s.deployed, BackupAt(s, r.source).value, r.copy);
      Result(s.(deployed := copied), !r.copy.Whole? || !r.logged)
  }

  ghost function Step(m: Meters, s: Store, command: Command): Result {
    match command
    case Build(b) => AfterBuild(s, b)
    case Validate(run, c, write) => AfterValidate(m, s, run, c, write)
    case Promote(p) => AfterPromote(m, s, p)
    case Rollback(r) => AfterRollback(m, s, r)
  }

  ghost function RunAll(m: Meters, s: Store, commands: seq<Command>): Store
    decreases |commands|
  {
    if commands == [] then s
    else Step(m, RunAll(m, s, commands[..|commands| - 1]), commands[|commands| - 1]).store
  }

  /** Nothing built, archived or promoted yet; some file may be deployed. */
  function Fresh(deployed: Option<Content>): Store {
    Store(map[], map[], deployed, [])
  }

  // ----- The operations on files ---------------------------------------------------------

  class ThresholdFiles {
    const meters: Meters
    var candidates: map<string, Candidate>
    var archives: map<string, Archive>
    var deployed: Option<Content>
    var promotions: seq<Promotion>

    constructor (meters: Meters, deployed: Option<Content>)
      ensures this.meters == meters && State() == Fresh(deployed)
    {
      this.meters, this.deployed := meters, deployed;
      candidates, archives, promotions := map[], map[], [];
    }

    ghost function State(): Store
      reads this
    {
      Store(candidates, archives, deployed, promotions)
    }

    /** A build touches its own candidate directory only. Once the old directory is removed the
        old validation is gone, however the build ends; a removal that stops leaves some of the
        old files. */
    method BuildCandidate(b: BuildArgs) returns (raised: bool)
      modifies this`candidates
      ensures candidates - {b.run} == old(candidates) - {b.run}
      ensures b.run in old(candidates) && !b.overwrite ==> raised && candidates == old(candidates)
      ensures b.run !in old(candidates) || (b.overwrite && b.removal.Removed?) ==>
                && RecordOf(State(), b.run) == NoRecord && b.run in candidates
                && raised == !b.built.Written?
                && (b.built.Written? ==> FileOf(State(), b.run) == Some(b.built.content))
      ensures Result(State(), raised) == AfterBuild(old(State()), b)
    {
      if b.run in candidates {
        if !b.overwrite {
          return true;
        }
        if b.removal.Stopped? {
          candidates := candidates[b.run := Left(candidates[b.run], b.removal)];
          return true;
        }
      }
      candidates := candidates[b.run := Candidate(None, NoRecord)];
      match b.built
      case NothingWritten =>
        raised := true;
      case PartlyWritten(c) =>
        candidates := candidates[b.run := Candidate(Some(c), NoRecord)];
        raised := true;
      case Written(c) =>
        candidates := candidates[b.run := Candidate(Some(c), NoRecord)];
        raised := false;
    }

    /** Validate the candidate's file and write validation.json. */
    method CheckCandidate(run: string, c: Checks, write: Write) returns (raised: bool, verdict: Verdict)
      modifies this`candidates
      ensures Result(State(), raised) == AfterValidate(meters, old(State()), run, c, write)
      ensures !raised ==> RecordOf(State(), run).Recorded? && RecordOf(State(), run).validation.verdict == verdict
    {
      var file := if run in candidates then candidates[run].file else None;
      var r := ValidateFile(file, meters.Selected(c.scope), c.minSamples, deployed, c.ratio);
      verdict := Fail;
      if r.Raised? || write == NotStarted {
        return true, verdict;
      }
      verdict := r.value;
      raised := write == CutOff;
      var record := if raised then Unreadable else Recorded(Validation(verdict, c, file.value, deployed));
      candidates := candidates[run := Candidate(file, record)];
    }

    method ValidateCandidate(run: string, c: Checks, write: Write) returns (raised: bool)
      modifies this`candidates
      ensures Result(State(), raised) == AfterValidate(meters, old(State()), run, c, write)
    {
      var verdict;
      raised, verdict := CheckCandidate(run, c, write);
    }

    /** Archive what is deployed, stage the candidate's file and put it in place. A promotion on
        record has its predecessor in its own new archive and the candidate's file deployed;
        without one the deployed file changes only by a restoring copy that is cut off. */
    method DeployCandidate(run: string, archive: string, fault: Fault) returns (raised: bool)
      requires run in candidates
      modifies this`archives, this`deployed, this`promotions
      ensures archives - {archive} == old(archives) - {archive}
      ensures archive in old(archives) ==> raised && State() == old(State())
      ensures promotions == old(promotions) || promotions == old(promotions) + [Promotion(archive, old(deployed))]
      ensures promotions != old(promotions) ==>
                && archive in archives && archives[archive].backup == old(deployed)
                && deployed.Some? && deployed == candidates[run].file
      ensures promotions == old(promotions) ==>
                && raised
                && (deployed == old(deployed)
                    || (fault.ReplaceFails? && deployed.Some? && fault.restore == PartOf(deployed.value)))
      ensures Result(State(), raised) == Deploy(old(State()), run, archive, fault)
    {
      if archive in archives || fault.ArchiveNotMade? {
        return true;
      }
      archives := archives[archive := Archive(None)];
      if deployed.Some? {
        if fault.ArchiveCopyFails? {
          archives := archives[archive := Archive(fault.left)];
          return true;
        }
        archives := archives[archive := Archive(deployed)];
      }
      if fault.StagingFails? || candidates[run].file.None? {
        return true;
      }
      if fault.ReplaceFails? {
        if deployed.Some? {
          deployed := CopyOnto(deployed, archives[archive].backup.value, fault.restore);
        }
        return true;
      }
      promotions := promotions + [Promotion(archive, deployed)];
      deployed := candidates[run].file;
      raised := fault.RecordingFails?;
    }

    method PromoteCandidate(p: PromoteArgs) returns (raised: bool)
      modifies this
      ensures Result(State(), raised) == AfterPromote(meters, old(State()), p)
    {
      if !p.confirm {
        return true;
      }
      var verdict: Verdict;
      if p.run in candidates && candidates[p.run].record != NoRecord && !p.revalidate {
        if candidates[p.run].record.Unreadable? {
          return true;
        }
        verdict := candidates[p.run].record.validation.verdict;
      } else {
        raised, verdict := CheckCandidate(p.run, p.checks, p.write);
        if raised {
          return;
        }
      }
      if verdict == Fail || (verdict == Warn && !p.allowWarn) {
        return true;
      }
      raised := DeployCandidate(p.run, p.archive, p.fault);
    }

    method RollBack(r: RollbackArgs) returns (raised: bool)
      modifies this`deployed
      ensures Result(State(), raised) == AfterRollback(meters, old(State()), r)
    {
      if !r.confirm {
        return true;
      }
      var backup := None;
      match r.source {
        case FromArchive(a) =>
          backup := if a in archives then archives[a].backup else None;
        case FromCandidate(run) =>
          backup := if run in candidates then candidates[run].file else None;
        case FromElsewhere(file) =>
          backup := file;
      }
      var v := ValidateFile(backup, meters.Selected(r.checks.scope), r.checks.minSamples, None, r.checks.ratio);
      if v.Raised? || v.value == Fail {
        return true;
      }
      deployed := CopyOnto(deployed, backup.value, r.copy);
      raised := !r.copy.Whole? || !r.logged;
    }
  }

  // ----- What every sequence of operations keeps -----------------------------------------

  /** The content lists every meter and hour of the scope, each with sound bounds. */
  ghost predicate PassesFor(m: Meters, content: Content, scope: Scope) {
    content.Rows? && WellFormed(content.rows, m.Selected(scope))
  }

  /** What the checks say of this content against what was deployed. */
  ghost function VerdictFor(m: Meters, content: Content, c: Checks, deployed: Option<Content>): Verdict {
    if content.BadColumns? then Fail
    else VerdictOn(content.rows, m.Selected(c.scope), c.minSamples, deployed, c.ratio)
  }

  /** A stored validation says what its checks say of the content it is about, against what was
      deployed at the time, and a candidate file that has one is that content. */
  ghost predicate ValidationsFaithful(m: Meters, s: Store) {
    forall run :: run in s.candidates && s.candidates[run].record.Recorded? ==>
      var v := s.candidates[run].record.validation;
      && v.verdict == VerdictFor(m, v.about, v.checks, v.against)
      && (s.candidates[run].file.Some? ==> s.candidates[run].file == Some(v.about))
  }

  /** The archive of every promotion still holds what that promotion replaced, and no two
      promotions share an archive. */
  ghost predicate ArchivesKept(s: Store) {
    && (forall k :: 0 <= k < |s.promotions| ==>
          s.promotions[k].archive in s.archives
          && s.archives[s.promotions[k].archive] == Archive(s.promotions[k].previous))
    && (forall j, k :: 0 <= j < k < |s.promotions| ==> s.promotions[j].archive != s.promotions[k].archive)
  }

  ghost predicate Invariant(m: Meters, s: Store) {
    ValidationsFaithful(m, s) && ArchivesKept(s)
  }

  lemma CheckedFileCurrent(m: Meters, s: Store, run: string, c: Checks, write: Write)
    requires ValidationsFaithful(m, s)
    ensures ValidationsFaithful(m, AfterValidate(m, s, run, c, write).store)
  {
  }

  lemma BuildKeeps(m: Meters, s: Store, b: BuildArgs)
    requires Invariant(m, s)
    ensures Invariant(m, AfterBuild(s, b).store)
  {
  }

  lemma DeployKeeps(m: Meters, s: Store, run: string, archive: string, fault: Fault)
    requires Invariant(m, s)
    ensures Invariant(m, Deploy(s, run, archive, fault).store)
  {
    var after := Deploy(s, run, archive, fault).store;
    assert after.candidates == s.candidates;
    assert forall a :: a in s.archives ==> a in after.archives && after.archives[a] == s.archives[a];
  }

  lemma PromoteKeeps(m: Meters, s: Store, p: PromoteArgs)
    requires Invariant(m, s)
    ensures Invariant(m, AfterPromote(m, s, p).store)
  {
    var (v, checked) := Decide(m, s, p);
    CheckedFileCurrent(m, s, p.run, p.checks, p.write);
    assert checked == s || checked == AfterValidate(m, s, p.run, p.checks, p.write).store;
    DeployKeeps(m, checked, p.run, p.archive, p.fault);
  }

  lemma StepKeepsInvariant(m: Meters, s: Store, command: Command)
    requires Invariant(m, s)
    ensures Invariant(m, Step(m, s, command).store)
  {
    match command
    case Build(b) =>
      BuildKeeps(m, s, b);
    case Validate(run, c, write) =>
      CheckedFileCurrent(m, s, run, c, write);
    case Promote(p) =>
      PromoteKeeps(m, s, p);
    case Rollback(r) =>
  }

  /** Over every sequence of operations, cut off anywhere: stored validations are faithful to
      the candidate files, and every promotion's archive keeps what it replaced. */
  lemma {:induction false} EverySequenceIsSafe(m: Meters, initial: Option<Content>, commands: seq<Command>)
    ensures Invariant(m, RunAll(m, Fresh(initial), commands))
  {
    if commands != [] {
      var front := commands[..|commands| - 1];
      EverySequenceIsSafe(m, initial, front);
      StepKeepsInvariant(m, RunAll(m, Fresh(initial), front), commands[|commands| - 1]);
    }
  }

  // ----- When the deployed file is one that passed ---------------------------------------

  /** The content was deployed at the start or passes for some scope. */
  ghost predicate Sound(m: Meters, initial: Option<Content>, deployed: Option<Content>) {
    deployed == initial || (deployed.Some? && exists scope :: PassesFor(m, deployed.value, scope))
  }

  /** The promotion gets as far as replacing the deployed file. */
  ghost predicate ReachesReplace(m: Meters, s: Store, p: PromoteArgs) {
    && p.confirm && Admits(Decide(m, s, p).0, p.allowWarn) && FileOf(s, p.run).Some?
    && p.archive !in s.archives && !p.fault.ArchiveNotMade? && !p.fault.StagingFails?
    && (p.fault.ArchiveCopyFails? ==> s.deployed.None?)
  }

  /** The command puts a whole file in place: a promotion whose replacement succeeds, or an
      accepted rollback whose copy does. */
  ghost predicate Replaces(m: Meters, s: Store, command: Command) {
    match command
    case Build(_) => false
    case Validate(_, _, _) => false
    case Promote(p) => ReachesReplace(m, s, p) && !p.fault.ReplaceFails?
    case Rollback(r) => RollbackAccepted(m, s, r) && r.copy.Whole?
  }

  /** What a copy over the deployed file leaves there when it is cut off: the copy of an
      accepted rollback, or the restoring copy after a failed replacement. */
  ghost function CutOffCopy(m: Meters, s: Store, command: Command): Option<Content> {
    match command
    case Build(_) => None
    case Validate(_, _, _) => None
    case Promote(p) =>
      if ReachesReplace(m, s, p) && p.fault.ReplaceFails? && p.fault.restore.PartOf? && s.deployed.Some?
      then Some(p.fault.restore.left) else None
    case Rollback(r) => if RollbackAccepted(m, s, r) && r.copy.PartOf? then Some(r.copy.left) else None
  }

  /** A command deploys a passing file, leaves what a cut-off copy leaves, or leaves the
      deployed file alone. */
  lemma StepDeploys(m: Meters, s: Store, command: Command)
    requires Invariant(m, s)
    ensures var after := Step(m, s, command).store.deployed;
            if Replaces(m, s, command) then after.Some? && exists scope :: PassesFor(m, after.value, scope)
            else if CutOffCopy(m, s, command).Some? then after == CutOffCopy(m, s, command)
            else after == s.deployed
  {
    match command
    case Build(_) =>
    case Validate(_, _, _) =>
    case Promote(p) =>
      var (v, checked) := Decide(m, s, p);
      if Replaces(m, s, command) {
        assert FileOf(checked, p.run) == Some(v.value.about);
        assert PassesFor(m, v.value.about, v.value.checks.scope);
      }
    case Rollback(r) =>
      if Replaces(m, s, command) {
        assert PassesFor(m, BackupAt(s, r.source).value, r.checks.scope);
      }
  }

  /** What a command does to the soundness of the deployed file. */
  datatype Effect = Spoils | Mends | Neutral

  /** A cut-off copy spoils the deployed file if what it leaves passes for no scope and is not the
      initial file; any other write to it mends. */
  ghost function EffectOf(m: Meters, initial: Option<Content>, s: Store, command: Command): Effect {
    var cut := CutOffCopy(m, s, command);
    if Replaces(m, s, command) then Mends
    else if cut.None? then Neutral
    else if Sound(m, initial, cut) then Mends else Spoils
  }

  /** The effect of each command of a sequence, in the store that the ones before it leave. */
  ghost function Effects(m: Meters, initial: Option<Content>, commands: seq<Command>): (effects: seq<Effect>)
    ensures |effects| == |commands|
  {
    if commands == [] then []
    else
      var front, last := commands[..|commands| - 1], commands[|commands| - 1];
      Effects(m, initial, front) + [EffectOf(m, initial, RunAll(m, Fresh(initial), front), last)]
  }

  ghost predicate EverySpoilMended(effects: seq<Effect>) {
    forall n :: 0 <= n < |effects| && effects[n] == Spoils ==> exists k :: n < k < |effects| && effects[k] == Mends
  }

  lemma OneEffectMore(effects: seq<Effect>, last: Effect)
    ensures EverySpoilMended(effects + [last]) <==> last == Mends || (last == Neutral && EverySpoilMended(effects))
  {
    var more := effects + [last];
    assert more[|effects|] == last;
    if EverySpoilMended(effects) && last == Neutral {
      forall n | 0 <= n < |more| && more[n] == Spoils
        ensures exists k :: n < k < |more| && more[k] == Mends
      {
        assert effects[n] == Spoils;
        var k :| n < k < |effects| && effects[k] == Mends;
        assert more[k] == Mends;
      }
    }
    if EverySpoilMended(more) && last != Mends {
      forall n | 0 <= n < |effects| && effects[n] == Spoils
        ensures exists k :: n < k < |effects| && effects[k] == Mends
      {
        assert more[n] == Spoils;
        var k :| n < k < |more| && more[k] == Mends;
        assert effects[k] == Mends;
      }
    }
  }

  /** After every sequence of operations, cut off anywhere, the deployed file is the initial one
      or passes for some scope, if and only if every cut-off copy that left a bad file there was
      followed by a good one. */
  lemma {:induction false} DeployedSoundIff(m: Meters, initial: Option<Content>, commands: seq<Command>)
    ensures Sound(m, initial, RunAll(m, Fresh(initial), commands).deployed)
            <==> EverySpoilMended(Effects(m, initial, commands))
  {
    if commands != [] {
      var last := |commands| - 1;
      var s := RunAll(m, Fresh(initial), commands[..last]);
      DeployedSoundIff(m, initial, commands[..last]);
      EverySequenceIsSafe(m, initial, commands[..last]);
      StepDeploys(m, s, commands[last]);
      OneEffectMore(Effects(m, initial, commands[..last]), EffectOf(m, initial, s, commands[last]));
    }
  }

  /** A rollback whose copy is cut off before the header is out deploys an unreadable file. */
  lemma CutOffRollbackSpoils(m: Meters, content: Content, c: Checks)
    requires PassesFor(m, content, c.scope)
    ensures var commands := [Rollback(RollbackArgs(FromElsewhere(Some(content)), true, c, PartOf(BadColumns), true))];
            RunAll(m, Fresh(Some(content)), commands).deployed == Some(BadColumns)
            && !Sound(m, Some(content), Some(BadColumns))
  {
    var command := Rollback(RollbackArgs(FromElsewhere(Some(content)), true, c, PartOf(BadColumns), true));
    WellFormedMeters(content.rows, m.Selected(c.scope), m.Selected(c.scope));
    assert [command][..0] == [];
    assert RunAll(m, Fresh(Some(content)), [command][..0]) == Fresh(Some(content));
  }

  // ----- When a stored validation has its file -------------------------------------------

  /** A readable validation of the run is stored and describes a file that is gone. */
  predicate Orphaned(s: Store, run: string) {
    RecordOf(s, run).Recorded? && FileOf(s, run).None?
  }

  ghost function StoreBefore(m: Meters, initial: Option<Content>, commands: seq<Command>, n: nat): Store
    requires n < |commands|
  {
    RunAll(m, Fresh(initial), commands[..n])
  }

  /** At the n-th command a build of the run stops while it removes the old directory, after
      the file and before the validation that was stored. */
  ghost predicate OrphansAt(m: Meters, initial: Option<Content>, commands: seq<Command>, run: string, n: nat) {
    && n < |commands| && commands[n].Build?
    && var b, s := commands[n].build, StoreBefore(m, initial, commands, n);
       && b.run == run && b.overwrite && b.removal == Stopped(false, true)
       && FileOf(s, run).Some? && RecordOf(s, run).Recorded?
  }

  /** The n-th command is a build of the run that gets past the validation it removes. */
  predicate ClearsAt(commands: seq<Command>, run: string, n: nat) {
    && n < |commands| && commands[n].Build? && commands[n].build.run == run && commands[n].build.overwrite
    && (commands[n].build.removal.Removed? || !commands[n].build.removal.recordLeft)
  }

  /** The last removal of the run that stopped in between is still as it was left. */
  ghost predicate OrphanUncleared(m: Meters, initial: Option<Content>, commands: seq<Command>, run: string) {
    exists n: nat :: OrphansAt(m, initial, commands, run, n) && forall k: nat :: n < k ==> !ClearsAt(commands, run, k)
  }

  lemma UnclearedWithoutLast(m: Meters, initial: Option<Content>, commands: seq<Command>, run: string)
    requires commands != []
    ensures var last := |commands| - 1;
            OrphanUncleared(m, initial, commands, run)
            <==> OrphansAt(m, initial, commands, run, last)
                 || (!ClearsAt(commands, run, last) && OrphanUncleared(m, initial, commands[..last], run))
  {
    var last := |commands| - 1;
    var front := commands[..last];
    forall n: nat | n < last
      ensures OrphansAt(m, initial, front, run, n) <==> OrphansAt(m, initial, commands, run, n)
      ensures ClearsAt(front, run, n) <==> ClearsAt(commands, run, n)
    {
      assert front[..n] == commands[..n];
    }
  }

  lemma PromoteOrphansNothing(m: Meters, s: Store, p: PromoteArgs, run: string)
    ensures Orphaned(AfterPromote(m, s, p).store, run) <==> Orphaned(s, run)
  {
    var (v, checked) := Decide(m, s, p);
    assert AfterPromote(m, s, p).store.candidates in {s.candidates, checked.candidates};
    assert Orphaned(checked, run) <==> Orphaned(s, run);
  }

  lemma StepOrphans(m: Meters, s: Store, command: Command, run: string)
    ensures Orphaned(Step(m, s, command).store, run) <==>
            if command.Build? && command.build.run == run && command.build.overwrite then
              && command.build.removal.Stopped? && command.build.removal.recordLeft && RecordOf(s, run).Recorded?
              && (!command.build.removal.fileLeft || FileOf(s, run).None?)
            else Orphaned(s, run)
  {
    match command
    case Build(b) =>
    case Validate(other, c, write) =>
    case Promote(p) =>
      PromoteOrphansNothing(m, s, p, run);
    case Rollback(r) =>
  }

  /** After every sequence of operations, cut off anywhere, a run's stored validation describes
      a file that is gone if and only if some build stopped in between the two while it removed
      them and no later build got past that validation. */
  lemma {:induction false} OrphanedIff(m: Meters, initial: Option<Content>, commands: seq<Command>, run: string)
    ensures Orphaned(RunAll(m, Fresh(initial), commands), run) <==> OrphanUncleared(m, initial, commands, run)
  {
    if commands != [] {
      var front := commands[..|commands| - 1];
      OrphanedIff(m, initial, front, run);
      StepOrphans(m, RunAll(m, Fresh(initial), front), commands[|commands| - 1], run);
      UnclearedWithoutLast(m, initial, commands, run);
    }
  }

  /** A rebuild that stops between the file and its validation leaves the validation orphaned. */
  lemma StoppedRemovalOrphans(m: Meters, run: string, rows: seq<ThresholdRow>, c: Checks)
    requires !MeetsMissingCell(rows)
    ensures var first := Build(BuildArgs(run, false, Removed, Written(Rows(rows))));
            var again := Build(BuildArgs(run, true, Stopped(false, true), NothingWritten));
            Orphaned(RunAll(m, Fresh(None), [first, Validate(run, c, Complete), again]), run)
  {
    var first := Build(BuildArgs(run, false, Removed, Written(Rows(rows))));
    var again := Build(BuildArgs(run, true, Stopped(false, true), NothingWritten));
    var commands := [first, Validate(run, c, Complete), again];
    assert commands[..2][..1] == [first] && commands[..2][1] == commands[1] && [first][..0] == [];
    var built := RunAll(m, Fresh(None), [first]);
    assert built == Step(m, RunAll(m, Fresh(None), [first][..0]), first).store;
    assert built == AfterBuild(Fresh(None), first.build).store;
    assert RunAll(m, Fresh(None), commands[..2]) == AfterValidate(m, built, run, c, Complete).store;
  }

  // ----- Rolling back --------------------------------------------------------------------

  /** Rolling back to the archive of the k-th promotion, whatever happened since, is accepted
      exactly when something was deployed before it that is well-formed for the scope asked
      for, and then restores exactly that unless its copy is cut off; otherwise it changes
      nothing. */
  lemma RollbackRestores(m: Meters, initial: Option<Content>, commands: seq<Command>, k: nat, r: RollbackArgs)
    requires k < |RunAll(m, Fresh(initial), commands).promotions| && r.confirm
    requires r.source == FromArchive(RunAll(m, Fresh(initial), commands).promotions[k].archive)
    ensures var s := RunAll(m, Fresh(initial), commands);
            var previous, after := s.promotions[k].previous, AfterRollback(m, s, r);
            if previous.None? || !PassesFor(m, previous.value, r.checks.scope) then after == Result(s, true)
            else
              && after.store == s.(deployed := CopyOnto(s.deployed, previous.value, r.copy))
              && (!after.raised <==> r.copy.Whole? && r.logged)
  {
    EverySequenceIsSafe(m, initial, commands);
    var previous := RunAll(m, Fresh(initial), commands).promotions[k].previous;
    if previous.Some? && PassesFor(m, previous.value, r.checks.scope) {
      WellFormedMeters(previous.value.rows, m.Selected(r.checks.scope), m.Selected(r.checks.scope));
    }
  }

  /** Promoting and rolling back to the promotion's own archive leaves the deployed file as it
      was before the promotion. */
  lemma RollbackUndoesPromotion(m: Meters, s: Store, p: PromoteArgs, undo: Checks)
    requires Replaces(m, s, Promote(p)) && s.deployed.Some? && PassesFor(m, s.deployed.value, undo.scope)
    ensures var promoted := AfterPromote(m, s, p).store;
            var back := AfterRollback(m, promoted, RollbackArgs(FromArchive(p.archive), true, undo, Whole, true));
            !back.raised && back.store.deployed == s.deployed
  {
    var (v, checked) := Decide(m, s, p);
    assert checked.deployed == s.deployed && checked.promotions == s.promotions;
    WellFormedMeters(s.deployed.value.rows, m.Selected(undo.scope), m.Selected(undo.scope));
  }

  // ----- The scope a promotion is given --------------------------------------------------

  /** A promotion that finds a stored validation and is not told to revalidate goes by the
      scope of that validation, not by the one it was given. */
  lemma StoredScopeDecides(m: Meters, s: Store, p: PromoteArgs, other: Checks)
    requires RecordOf(s, p.run) != NoRecord && !p.revalidate
    ensures AfterPromote(m, s, p) == AfterPromote(m, s, p.(checks := other))
  {
  }

  /** The promotion goes by a validation that was stored before. */
  predicate GoesByStored(s: Store, p: PromoteArgs) {
    RecordOf(s, p.run).Recorded? && !p.revalidate
  }

  /** What a promotion deploys passes for the scope it was given if and only if it validated
      the file itself or the stored validation was for the same meters. */
  lemma GivenScopeHonouredIff(m: Meters, s: Store, p: PromoteArgs)
    requires Invariant(m, s) && Replaces(m, s, Promote(p))
    ensures var deployed := AfterPromote(m, s, p).store.deployed;
            && deployed.Some?
            && (PassesFor(m, deployed.value, p.checks.scope) <==>
                (GoesByStored(s, p) ==>
                   m.Selected(RecordOf(s, p.run).validation.checks.scope) == m.Selected(p.checks.scope)))
  {
    var (v, checked) := Decide(m, s, p);
    assert FileOf(checked, p.run) == FileOf(s, p.run) == Some(v.value.about);
    assert PassesFor(m, v.value.about, v.value.checks.scope);
    WellFormedMeters(v.value.about.rows, m.Selected(v.value.checks.scope), m.Selected(p.checks.scope));
  }

  /** So any file that lists the training meters but not all meters, once validated for the
      training scope, is deployed by a promotion that asks for all meters. */
  lemma PromotedOutsideGivenScope(m: Meters, initial: Option<Content>, run: string, rows: seq<ThresholdRow>,
                                  training: Checks, all: Checks, archive: string)
    requires CanBeCompared(initial) && training.scope == TrainingMeters && all.scope == AllMeters
    requires PassesFor(m, Rows(rows), TrainingMeters) && !PassesFor(m, Rows(rows), AllMeters)
    ensures var build := Build(BuildArgs(run, false, Removed, Written(Rows(rows))));
            var s := RunAll(m, Fresh(initial), [build, Validate(run, training, Complete)]);
            var promoted := AfterPromote(m, s, PromoteArgs(run, true, false, true, all, Complete, archive, NoFault));
            !promoted.raised && promoted.store.deployed == Some(Rows(rows))
  {
    var build := Build(BuildArgs(run, false, Removed, Written(Rows(rows))));
    var commands := [build, Validate(run, training, Complete)];
    var built := AfterBuild(Fresh(initial), build.build).store;
    assert commands[..1] == [build] && [build][..0] == [];
    assert RunAll(m, Fresh(initial), [build][..0]) == Fresh(initial);
    assert RunAll(m, Fresh(initial), commands[..1]) == built;
    WellFormedMeters(rows, m.training, m.training);
  }

  // ----- What a passed validation says about the change ----------------------------------

  /** What an unwarned promotion deploys has no large change against what it replaces if and only
      if validating it again at this point would pass; so it has none when the validation it goes
      by was made against what it replaces. */
  lemma UnwarnedPromotionIff(m: Meters, s: Store, p: PromoteArgs)
    requires Invariant(m, s) && Replaces(m, s, Promote(p)) && !p.allowWarn
    ensures var (v, checked) := Decide(m, s, p);
            && v.Returned? && v.value.about.Rows? && AfterPromote(m, s, p).store.deployed == Some(v.value.about)
            && (!LargelyChanged(v.value.about.rows, s.deployed, v.value.checks.ratio)
                <==> VerdictFor(m, v.value.about, v.value.checks, s.deployed) == Pass)
            && (v.value.against == s.deployed ==>
                  !LargelyChanged(v.value.about.rows, s.deployed, v.value.checks.ratio))
  {
    var (v, checked) := Decide(m, s, p);
    assert FileOf(checked, p.run) == FileOf(s, p.run) == Some(v.value.about);
    assert v.value.verdict == VerdictFor(m, v.value.about, v.value.checks, v.value.against);
  }

  /** A promotion that validates the file itself validates it against what it replaces. */
  lemma OwnValidationIsCurrent(m: Meters, s: Store, p: PromoteArgs)
    requires Decide(m, s, p).0.Returned? && !GoesByStored(s, p)
    ensures Decide(m, s, p).0.value.against == s.deployed
  {
  }

  /** Commands that neither put a whole file in place nor cut a copy off leave what is deployed,
      so that a validation made before them still is against it. */
  lemma {:induction false} DeployedUntouched(m: Meters, s: Store, commands: seq<Command>)
    requires Invariant(m, s)
    requires forall n :: 0 <= n < |commands| ==>
               var before := RunAll(m, s, commands[..n]);
               !Replaces(m, before, commands[n]) && CutOffCopy(m, before, commands[n]).None?
    ensures Invariant(m, RunAll(m, s, commands)) && RunAll(m, s, commands).deployed == s.deployed
  {
    if commands != [] {
      var last := |commands| - 1;
      forall n | 0 <= n < last
        ensures commands[..last][..n] == commands[..n] && commands[..last][n] == commands[n]
      {
      }
      DeployedUntouched(m, s, commands[..last]);
      StepKeepsInvariant(m, RunAll(m, s, commands[..last]), commands[last]);
      StepDeploys(m, RunAll(m, s, commands[..last]), commands[last]);
    }
  }

  /** A validation that passed stays good for a promotion, whatever has been deployed since, and
      however large a change it has become. */
  lemma StalePassPromotes(m: Meters, s: Store, p: PromoteArgs)
    requires GoesByStored(s, p) && p.confirm && !p.allowWarn && p.fault.NoFault? && p.archive !in s.archives
    requires RecordOf(s, p.run).validation.verdict == Pass && FileOf(s, p.run).Some?
    ensures var after := AfterPromote(m, s, p);
            !after.raised && after.store.deployed == FileOf(s, p.run)
  {
  }

  function RollOut(run: string, c: Checks, archive: string): PromoteArgs {
    PromoteArgs(run, true, false, false, c, Complete, archive, NoFault)
  }

  /** Two candidates validated while nothing was deployed and promoted one after the other: the
      second is let through without leave although it changes the first largely. */
  lemma SecondPromotionIsUnwarned(m: Meters, first: seq<ThresholdRow>, second: seq<ThresholdRow>, c: Checks)
    requires VerdictFor(m, Rows(first), c, None) == Pass && VerdictFor(m, Rows(second), c, None) == Pass
    ensures var validated :=
              Store(map["a" := Candidate(Some(Rows(first)), Recorded(Validation(Pass, c, Rows(first), None))),
                        "b" := Candidate(Some(Rows(second)), Recorded(Validation(Pass, c, Rows(second), None)))],
                    map[], None, []);
            var once := AfterPromote(m, validated, RollOut("a", c, "x")).store;
            var twice := AfterPromote(m, once, RollOut("b", c, "y"));
            && Invariant(m, validated) && once.deployed == Some(Rows(first))
            && !twice.raised && twice.store.deployed == Some(Rows(second))
  {
    var validated :=
      Store(map["a" := Candidate(Some(Rows(first)), Recorded(Validation(Pass, c, Rows(first), None))),
                "b" := Candidate(Some(Rows(second)), Recorded(Validation(Pass, c, Rows(second), None)))],
            map[], None, []);
    StalePassPromotes(m, validated, RollOut("a", c, "x"));
    StalePassPromotes(m, AfterPromote(m, validated, RollOut("a", c, "x")).store, RollOut("b", c, "y"));
  }

  // ----- When a command takes effect, written out ----------------------------------------

  /** A promotion succeeds exactly if it is confirmed, the validation it goes by passed, or only
      warned and that is allowed, the archive is new, and neither staging, replacing nor recording
      fails. */
  lemma PromotionIff(m: Meters, s: Store, p: PromoteArgs)
    ensures !AfterPromote(m, s, p).raised <==>
            && p.confirm && Decide(m, s, p).0.Returned?
            && Decide(m, s, p).0.value.verdict != Fail && (Decide(m, s, p).0.value.verdict == Warn ==> p.allowWarn)
            && p.archive !in s.archives && FileOf(s, p.run).Some?
            && (p.fault.NoFault? || (p.fault.ArchiveCopyFails? && s.deployed.None?))
    ensures !AfterPromote(m, s, p).raised ==> AfterPromote(m, s, p).store.deployed == FileOf(s, p.run)
  {
    var (v, checked) := Decide(m, s, p);
    assert FileOf(checked, p.run) == FileOf(s, p.run) && checked.archives == s.archives;
  }

  /** The validation a promotion goes by: the stored one unless there is none or it is told to validate
      again, and then one of the candidate's file against the deployed one by the checks it is
      given. A record that cannot be read raises. */
  lemma DecisionIff(m: Meters, s: Store, p: PromoteArgs, v: Validation)
    ensures Decide(m, s, p).0 == Returned(v) <==>
            if p.run in s.candidates && s.candidates[p.run].record != NoRecord && !p.revalidate
            then s.candidates[p.run].record == Recorded(v)
            else
              && p.write.Complete? && p.run in s.candidates && CanBeChecked(s.candidates[p.run].file)
              && CanBeCompared(s.deployed)
              && v == Validation(VerdictOn(s.candidates[p.run].file.value.rows, MetersFor(m, p.checks.scope),
                                           p.checks.minSamples, s.deployed, p.checks.ratio),
                                 p.checks, s.candidates[p.run].file.value, s.deployed)
  {
  }

  function MetersFor(m: Meters, scope: Scope): set<string> {
    match scope
    case AllMeters => m.all
    case TrainingMeters => m.training
  }

  /** A rollback is accepted exactly if it is confirmed and the backup is there, readable and
      well-formed for the meters of the scope; a warning does not stop it. Without confirmation
      neither a promotion nor a rollback does anything. */
  lemma RollbackIff(m: Meters, s: Store, r: RollbackArgs)
    ensures RollbackAccepted(m, s, r) <==>
            && r.confirm && BackupAt(s, r.source).Some? && BackupAt(s, r.source).value.Rows?
            && WellFormed(BackupAt(s, r.source).value.rows, MetersFor(m, r.checks.scope))
    ensures !r.confirm ==> AfterRollback(m, s, r) == Result(s, true)
  {
    if BackupAt(s, r.source).Some? && BackupAt(s, r.source).value.Rows?
       && WellFormed(BackupAt(s, r.source).value.rows, m.Selected(r.checks.scope)) {
      WellFormedMeters(BackupAt(s, r.source).value.rows, m.Selected(r.checks.scope), m.Selected(r.checks.scope));
    }
  }

  /** A build raises unless the directory was free, or an old one could be removed whole by leave, and
      the file was written to its end. */
  lemma BuildIff(s: Store, b: BuildArgs)
    ensures !AfterBuild(s, b).raised <==>
            (b.run in s.candidates ==> b.overwrite && b.removal == Removed) && b.built.Written?
    ensures !AfterBuild(s, b).raised ==>
              AfterBuild(s, b).store
                == s.(candidates := s.candidates[b.run := Candidate(Some(b.built.content), NoRecord)])
  {
  }

  /** A validation raises unless the candidate's file and the deployed one can be read and the record is
      written to its end; it then records the verdict on the candidate's file for the meters of
      the scope against the deployed file. */
  lemma ValidationIff(m: Meters, s: Store, run: string, c: Checks, write: Write)
    ensures !AfterValidate(m, s, run, c, write).raised <==>
            CanBeChecked(FileOf(s, run)) && CanBeCompared(s.deployed) && write == Complete
    ensures !AfterValidate(m, s, run, c, write).raised ==>
              var content := FileOf(s, run).value;
              var verdict := VerdictOn(content.rows, MetersFor(m, c.scope), c.minSamples, s.deployed, c.ratio);
              AfterValidate(m, s, run, c, write).store
              == s.(candidates := s.candidates[run := Candidate(Some(content),
                                                               Recorded(Validation(verdict, c, content, s.deployed)))])
  {
  }

  lemma UnconfirmedDoesNothing(m: Meters, s: Store, p: PromoteArgs)
    requires !p.confirm
    ensures AfterPromote(m, s, p) == Result(s, true)
  {
  }
}
