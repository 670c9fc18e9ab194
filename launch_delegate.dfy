/**
 * The direct remote debug launch: it uploads the project through its export
 * description, starts gdb in a remote shell, waits for gdb's banner on the shell
 * output, hands over to the GDB launch, and adds a path-mapping source container.
 */
module LaunchDelegate {
  import opened Common
  import ExportAction

  /** The suffix of export description files searched among the project root members. */
  const DescriptionSuffix := ".rexpfd"

  /** The text of gdb's version banner. */
  const GdbBanner := "GNU gdb (GDB"

  /** The name of the path-mapping source container. */
  const MappingName := "DirectRemoteDebugMapping"

  // ---------------------------------------------------------------- the export description

  /**
   * A member of the project root: its name, and the description files the export action
   * finds in a selection holding only this member.
   */
  datatype RootMember = RootMember(name: string, descriptions: seq<ExportAction.Description>)

  predicate IsDescriptionName(m: RootMember)
  {
    EndsWith(m.name, DescriptionSuffix)
  }

  /** The search of `uploadSourceCodeToRemoteWorkSpace`: the first root member whose name ends with ".rexpfd". */
  method FindExportDescription(rootFiles: seq<RootMember>) returns (found: Option<nat>)
    ensures found.None? <==> forall k :: 0 <= k < |rootFiles| ==> !IsDescriptionName(rootFiles[k])
    ensures found.Some? ==>
              found.value < |rootFiles| && IsDescriptionName(rootFiles[found.value]) &&
              forall k :: 0 <= k < found.value ==> !IsDescriptionName(rootFiles[k])
  {
    found := None;
    for i := 0 to |rootFiles|
      invariant found.None?
      invariant forall k :: 0 <= k < i ==> !IsDescriptionName(rootFiles[k])
    {
      var name := rootFiles[i].name;
      if EndsWith(name, DescriptionSuffix) {
        found := Some(i);
        break;
      }
    }
  }

  /** The index `FindExportDescription` yields, as a function. */
  function DescriptionIndex(rootFiles: seq<RootMember>): nat
  {
    First(rootFiles, IsDescriptionName)
  }

  // ---------------------------------------------------------------- the shell output listener

  /** What the listener has learnt: the banner latch, the ready flag and the version it set. */
  datatype ListenerState = ListenerState(initialized: bool, ready: bool, version: string)

  /** One output line: empty lines are skipped; the first banner line sets the version and the ready flag. */
  function LineStep(s: ListenerState, line: string, versionOf: string -> string): ListenerState
  {
    if |line| == 0 then s
    else if Contains(line, GdbBanner) && !s.initialized then ListenerState(true, true, versionOf(line))
    else s
  }

  /** One change event: its lines in order. */
  function EventStep(s: ListenerState, lines: seq<string>, versionOf: string -> string): ListenerState
  {
    if lines == [] then s
    else LineStep(EventStep(s, lines[..|lines| - 1], versionOf), lines[|lines| - 1], versionOf)
  }

  /** The buffer one change event builds: each non-empty line followed by the line separator. */
  function EventBuffer(lines: seq<string>, separator: string): string
  {
    if lines == [] then []
    else
      var last := lines[|lines| - 1];
      EventBuffer(lines[..|lines| - 1], separator) + (if |last| == 0 then [] else last + separator)
  }

  /** Several change events, in order. */
  function EventsStep(s: ListenerState, events: seq<seq<string>>, versionOf: string -> string): ListenerState
    decreases |events|
  {
    if events == [] then s
    else EventsStep(EventStep(s, events[0], versionOf), events[1..], versionOf)
  }

  /** The non-empty lines of an event, in order. */
  function NonEmptyLines(lines: seq<string>): (r: seq<string>)
    ensures forall k :: 0 <= k < |r| ==> |r[k]| > 0
  {
    if lines == [] then []
    else NonEmptyLines(lines[..|lines| - 1]) + (if |lines[|lines| - 1]| == 0 then [] else [lines[|lines| - 1]])
  }

  /** Each non-empty line followed by the separator. */
  function Terminated(lines: seq<string>, separator: string): seq<string>
  {
    seq(|lines|, k requires 0 <= k < |lines| => lines[k] + separator)
  }

  lemma TerminatedAppend(a: seq<string>, b: seq<string>, separator: string)
    ensures Terminated(a + b, separator) == Terminated(a, separator) + Terminated(b, separator)
  {
  }

  /** The buffer is the concatenation of the non-empty lines, each followed by the line separator. */
  lemma {:induction false} EventBufferIsNonEmptyLines(lines: seq<string>, separator: string)
    ensures EventBuffer(lines, separator) == Flatten(Terminated(NonEmptyLines(lines), separator))
  {
    if lines != [] {
      var init := lines[..|lines| - 1];
      var last := lines[|lines| - 1];
      EventBufferIsNonEmptyLines(init, separator);
      var tail := if |last| == 0 then [] else [last];
      assert NonEmptyLines(lines) == NonEmptyLines(init) + tail;
      TerminatedAppend(NonEmptyLines(init), tail, separator);
      FlattenAppend(Terminated(NonEmptyLines(init), separator), Terminated(tail, separator));
      if |last| > 0 {
        assert Terminated(tail, separator) == [last + separator];
        assert Flatten([last + separator]) == last + separator;
      }
    }
  }

  lemma {:induction false} EventStepAppend(s: ListenerState, a: seq<string>, b: seq<string>, versionOf: string -> string)
    ensures EventStep(s, a + b, versionOf) == EventStep(EventStep(s, a, versionOf), b, versionOf)
    decreases |b|
  {
    if b == [] {
      assert a + b == a;
    } else {
      assert (a + b)[..|a + b| - 1] == a + b[..|b| - 1];
      EventStepAppend(s, a, b[..|b| - 1], versionOf);
    }
  }

  lemma {:induction false} EventBufferAppend(a: seq<string>, b: seq<string>, separator: string)
    ensures EventBuffer(a + b, separator) == EventBuffer(a, separator) + EventBuffer(b, separator)
    decreases |b|
  {
    if b == [] {
      assert a + b == a;
    } else {
      var last := b[|b| - 1];
      assert (a + b)[..|a + b| - 1] == a + b[..|b| - 1];
      EventBufferAppend(a, b[..|b| - 1], separator);
      Associative(EventBuffer(a, separator), EventBuffer(b[..|b| - 1], separator), if |last| == 0 then [] else last + separator);
    }
  }

  /** An empty line is skipped entirely: it neither reaches the banner check nor the buffer. */
  lemma EmptyLineSkipped(s: ListenerState, a: seq<string>, b: seq<string>, separator: string, versionOf: string -> string)
    ensures EventStep(s, a + [""] + b, versionOf) == EventStep(s, a + b, versionOf)
    ensures EventBuffer(a + [""] + b, separator) == EventBuffer(a + b, separator)
  {
    EventStepAppend(s, a + [""], b, versionOf);
    EventStepAppend(s, a, b, versionOf);
    assert (a + [""])[..|a + [""]| - 1] == a;
    EventBufferAppend(a + [""], b, separator);
    EventBufferAppend(a, b, separator);
  }

  /** `gdbReady` never goes back to false, and once the latch is set the version stays. */
  lemma {:induction false} EventStepMonotone(s: ListenerState, lines: seq<string>, versionOf: string -> string)
    ensures s.ready ==> EventStep(s, lines, versionOf).ready
    ensures s.initialized ==> EventStep(s, lines, versionOf) == s
  {
    if lines != [] {
      EventStepMonotone(s, lines[..|lines| - 1], versionOf);
    }
  }

  /** The ready flag is set exactly together with the latch. */
  lemma {:induction false} EventStepKeepsLatch(s: ListenerState, lines: seq<string>, versionOf: string -> string)
    requires s.ready == s.initialized
    ensures EventStep(s, lines, versionOf).ready == EventStep(s, lines, versionOf).initialized
  {
    if lines != [] {
      EventStepKeepsLatch(s, lines[..|lines| - 1], versionOf);
    }
  }

  predicate IsBannerLine(line: string)
  {
    Contains(line, GdbBanner)
  }

  /**
   * Before the latch is set, an event sets it exactly when one of its lines holds the
   * banner, and the version then comes from the first such line.
   */
  lemma {:induction false} FirstBannerSetsVersion(s: ListenerState, lines: seq<string>, versionOf: string -> string)
    requires !s.initialized
    ensures var k := First(lines, IsBannerLine);
            EventStep(s, lines, versionOf) ==
              if k < |lines| then ListenerState(true, true, versionOf(lines[k])) else s
  {
    var k := First(lines, IsBannerLine);
    if lines != [] {
      var init := lines[..|lines| - 1];
      FirstBannerSetsVersion(s, init, versionOf);
      var j := First(init, IsBannerLine);
      assert forall i :: 0 <= i < |init| ==> init[i] == lines[i];
      if j < |init| {
        assert k == j;
        EventStepMonotone(s, init, versionOf);
      } else if IsBannerLine(lines[|lines| - 1]) {
        assert k == |lines| - 1;
      } else {
        assert k == |lines|;
      }
    }
  }

  lemma {:induction false} EventsStepMonotone(s: ListenerState, events: seq<seq<string>>, versionOf: string -> string)
    ensures s.ready ==> EventsStep(s, events, versionOf).ready
    ensures s.initialized ==> EventsStep(s, events, versionOf) == s
    ensures s.ready == s.initialized ==>
              EventsStep(s, events, versionOf).ready == EventsStep(s, events, versionOf).initialized
    decreases |events|
  {
    if events != [] {
      EventStepMonotone(s, events[0], versionOf);
      if s.ready == s.initialized {
        EventStepKeepsLatch(s, events[0], versionOf);
      }
      EventsStepMonotone(EventStep(s, events[0], versionOf), events[1..], versionOf);
    }
  }

  /** The listener registered on the remote shell. */
  class ShellOutputListener {
    /** The launch delegate whose `version` the listener sets. */
    const owner: RemoteDebugLaunchDelegate
    /** The one-element array shared with the launch: `gdbReady[0]`. */
    const gdbReady: array<bool>
    /** `LaunchUtils.getGDBVersionFromText`. */
    const versionOf: string -> string
    /** The `line.separator` system property. */
    const lineSeparator: string
    var gdbInitialized: bool

    function State(): ListenerState
      reads this, owner, gdbReady
      requires gdbReady.Length == 1
    {
      ListenerState(gdbInitialized, gdbReady[0], owner.version)
    }

    constructor (owner: RemoteDebugLaunchDelegate, gdbReady: array<bool>, versionOf: string -> string, lineSeparator: string)
      requires gdbReady.Length == 1
      ensures this.owner == owner && this.gdbReady == gdbReady
      ensures this.versionOf == versionOf && this.lineSeparator == lineSeparator
      ensures !gdbInitialized
    {
      this.owner := owner;
      this.gdbReady := gdbReady;
      this.versionOf := versionOf;
      this.lineSeparator := lineSeparator;
      gdbInitialized := false;
    }

    /** `shellOutputChanged`: processes the lines of one event and builds the event's text. */
    method ShellOutputChanged(lines: seq<string>) returns (newContent: string)
      requires gdbReady.Length == 1
      modifies this, owner`version, gdbReady
      ensures State() == EventStep(old(State()), lines, versionOf)
      ensures newContent == EventBuffer(lines, lineSeparator)
    {
      var buf := "";
      for i := 0 to |lines|
        invariant State() == EventStep(old(State()), lines[..i], versionOf)
        invariant buf == EventBuffer(lines[..i], lineSeparator)
      {
        assert lines[..i + 1][..i] == lines[..i];
        var lineString := lines[i];
        if |lineString| == 0 {
          continue;
        }
        if Contains(lineString, GdbBanner) && !gdbInitialized {
          owner.version := versionOf(lineString);
          gdbReady[0] := true;
          gdbInitialized := true;
        }
        buf := buf + lineString;
        buf := buf + lineSeparator;
      }
      assert lines[..|lines|] == lines;
      if |buf| != 0 {
        newContent := buf;
      } else {
        newContent := "";
      }
    }
  }

  // ---------------------------------------------------------------- the wait loop

  datatype WaitDecision = Exit | Abort | KeepWaiting

  /** One pass of the wait loop: leave once gdb is ready, give up when cancelled or the shell died. */
  function WaitStep(ready: bool, cancelled: bool, active: bool): (d: WaitDecision)
    ensures d == Exit <==> ready
    ensures d == Abort <==> !ready && (cancelled || !active)
    ensures d == KeepWaiting <==> !ready && !cancelled && active
  {
    if ready then Exit else if cancelled || !active then Abort else KeepWaiting
  }

  /**
   * One pass of the wait loop as the environment presents it: whether the monitor is
   * cancelled and the shell active when polled, and the change events the listener
   * receives during the following `wait(500)`.
   */
  datatype Tick = Tick(cancelled: bool, active: bool, outputs: seq<seq<string>>)

  datatype WaitResult = GdbReady | WaitAborted | StillWaiting

  /** Where the wait loop ends over the passes given (StillWaiting once they run out). */
  function WaitRun(s: ListenerState, ticks: seq<Tick>, versionOf: string -> string): (WaitResult, ListenerState)
    decreases |ticks|
  {
    if ticks == [] then (if s.ready then GdbReady else StillWaiting, s)
    else match WaitStep(s.ready, ticks[0].cancelled, ticks[0].active)
      case Exit => (GdbReady, s)
      case Abort => (WaitAborted, s)
      case KeepWaiting => WaitRun(EventsStep(s, ticks[0].outputs, versionOf), ticks[1..], versionOf)
  }

  /**
   * The wait loop leaves with gdb ready only when the ready flag is set, aborts only
   * on a pass at which the monitor was cancelled or the shell inactive, and never
   * loses the latch.
   */
  lemma {:induction false} WaitRunOutcomes(s: ListenerState, ticks: seq<Tick>, versionOf: string -> string)
    ensures WaitRun(s, ticks, versionOf).0 == GdbReady <==> WaitRun(s, ticks, versionOf).1.ready
    ensures WaitRun(s, ticks, versionOf).0 == WaitAborted ==>
              exists k :: 0 <= k < |ticks| && (ticks[k].cancelled || !ticks[k].active)
    ensures s.ready == s.initialized ==> WaitRun(s, ticks, versionOf).1.ready == WaitRun(s, ticks, versionOf).1.initialized
    ensures s.initialized ==> WaitRun(s, ticks, versionOf) == (GdbReady, s) || !s.ready
    decreases |ticks|
  {
    if ticks != [] && WaitStep(s.ready, ticks[0].cancelled, ticks[0].active) == KeepWaiting {
      var next := EventsStep(s, ticks[0].outputs, versionOf);
      EventsStepMonotone(s, ticks[0].outputs, versionOf);
      WaitRunOutcomes(next, ticks[1..], versionOf);
      if WaitRun(s, ticks, versionOf).0 == WaitAborted {
        var k :| 0 <= k < |ticks[1..]| && (ticks[1..][k].cancelled || !ticks[1..][k].active);
        assert ticks[k + 1] == ticks[1..][k];
      }
    }
  }

  /** A launch cancelled before gdb printed its banner is aborted on the first pass. */
  lemma CancelledBeforeBannerAborts(s: ListenerState, ticks: seq<Tick>, versionOf: string -> string)
    requires !s.ready && ticks != [] && ticks[0].cancelled
    ensures WaitRun(s, ticks, versionOf) == (WaitAborted, s)
  {
  }

  // ---------------------------------------------------------------- source lookup

  datatype MapEntry = MapEntry(remotePath: string, localPath: string)

  /**
   * A source container: its name and, for a mapping container, its map entries.
   * `constantName` says whether the name is the very String object held by the plugin's
   * mapping-name constant, as it is for a container this plugin built; a container
   * restored from a saved launch configuration has an equal but distinct name object.
   */
  datatype SourceContainer = SourceContainer(name: string, constantName: bool, entries: seq<MapEntry>)

  /** The source lookup director of the launch, holding its containers. */
  class SourceLookupDirector {
    var containers: seq<SourceContainer>

    constructor (containers: seq<SourceContainer>)
      ensures this.containers == containers
    {
      this.containers := containers;
    }
  }

  /** The test of `getSourceLocator`, which compares the name with `==`, by reference. */
  predicate IsMapping(c: SourceContainer)
  {
    c.constantName && c.name == MappingName
  }

  /** The containers of the director once `getSourceLocator` has run. */
  function Injected(containers: seq<SourceContainer>, projectLocation: Option<string>, remoteWorkspace: string): seq<SourceContainer>
  {
    if exists k :: 0 <= k < |containers| && IsMapping(containers[k]) then containers
    else if projectLocation.Some? && |remoteWorkspace| > 0 then
      containers + [SourceContainer(MappingName, true, [MapEntry(remoteWorkspace, projectLocation.value)])]
    else containers
  }

  /** The number of mapping containers. */
  function Mappings(containers: seq<SourceContainer>): nat
  {
    if containers == [] then 0
    else Mappings(containers[..|containers| - 1]) + (if IsMapping(containers[|containers| - 1]) then 1 else 0)
  }

  lemma {:induction false} MappingsZero(containers: seq<SourceContainer>)
    ensures Mappings(containers) == 0 <==> forall k :: 0 <= k < |containers| ==> !IsMapping(containers[k])
  {
    if containers != [] {
      var init := containers[..|containers| - 1];
      MappingsZero(init);
      assert forall k :: 0 <= k < |init| ==> init[k] == containers[k];
    }
  }

  /**
   * The injection leaves the containers alone when a mapping container is there or the
   * project or remote workspace is missing; otherwise it appends exactly one mapping
   * container, from the remote workspace to the project location, after the old ones.
   */
  lemma InjectedShape(containers: seq<SourceContainer>, projectLocation: Option<string>, remoteWorkspace: string)
    ensures Mappings(containers) > 0 ==> Injected(containers, projectLocation, remoteWorkspace) == containers
    ensures projectLocation.None? || remoteWorkspace == [] ==> Injected(containers, projectLocation, remoteWorkspace) == containers
    ensures Mappings(containers) == 0 && projectLocation.Some? && remoteWorkspace != [] ==>
              Injected(containers, projectLocation, remoteWorkspace) ==
                containers + [SourceContainer(MappingName, true, [MapEntry(remoteWorkspace, projectLocation.value)])]
    ensures Mappings(Injected(containers, projectLocation, remoteWorkspace)) ==
              if Mappings(containers) == 0 && projectLocation.Some? && remoteWorkspace != [] then 1 else Mappings(containers)
  {
    MappingsZero(containers);
  }

  /** Injecting twice is injecting once, and leaves at most one mapping container when there was none. */
  lemma InjectedIdempotent(containers: seq<SourceContainer>, projectLocation: Option<string>, remoteWorkspace: string)
    ensures var once := Injected(containers, projectLocation, remoteWorkspace);
            Injected(once, projectLocation, remoteWorkspace) == once
    ensures Mappings(containers) == 0 ==>
              Mappings(Injected(Injected(containers, projectLocation, remoteWorkspace), projectLocation, remoteWorkspace)) <= 1
  {
    var once := Injected(containers, projectLocation, remoteWorkspace);
    InjectedShape(containers, projectLocation, remoteWorkspace);
    InjectedShape(once, projectLocation, remoteWorkspace);
    MappingsZero(containers);
    if once != containers {
      assert IsMapping(once[|once| - 1]);
    }
  }

  /**
   * A mapping container with the right name that did not come from the constant (restored
   * from a saved configuration, say) is not recognised, and a second one is appended.
   */
  lemma EqualNameNotRecognised(remoteWorkspace: string, projectLocation: string)
    requires remoteWorkspace != []
    ensures var restored := SourceContainer(MappingName, false, []);
            Injected([restored], Some(projectLocation), remoteWorkspace) ==
              [restored, SourceContainer(MappingName, true, [MapEntry(remoteWorkspace, projectLocation)])]
  {
    var restored := SourceContainer(MappingName, false, []);
    assert !IsMapping([restored][0]);
  }

  /**
   * `getSourceLocator` after the GDB launch built the director `sl`: adds the mapping
   * container unless one is there; `projectLocation` is None when the launch has no C project.
   */
  method GetSourceLocator(sl: SourceLookupDirector, projectLocation: Option<string>, remoteWorkspace: string)
    modifies sl
    ensures sl.containers == Injected(old(sl.containers), projectLocation, remoteWorkspace)
  {
    var containers := sl.containers;
    var found := false;
    for i := 0 to |containers|
      invariant !found
      invariant forall k :: 0 <= k < i ==> !IsMapping(containers[k])
    {
      if containers[i].constantName && containers[i].name == MappingName {
        found := true;
        assert IsMapping(containers[i]);
        break;
      }
    }
    if found {
      assert Injected(containers, projectLocation, remoteWorkspace) == containers;
    } else {
      assert !exists k :: 0 <= k < |containers| && IsMapping(containers[k]);
      var newContainers := new SourceContainer[|containers| + 1];
      for i := 0 to |containers|
        invariant newContainers[..i] == containers[..i]
        invariant sl.containers == containers
      {
        newContainers[i] := containers[i];
      }
      var mapContainer := SourceContainer(MappingName, true, []);
      if projectLocation.Some? && |remoteWorkspace| > 0 {
        var entry := MapEntry(remoteWorkspace, projectLocation.value);
        mapContainer := mapContainer.(entries := mapContainer.entries + [entry]);
        newContainers[|containers|] := mapContainer;
        assert mapContainer == SourceContainer(MappingName, true, [entry]);
        assert newContainers[..] == containers + [mapContainer];
        sl.containers := newContainers[..];
      } else {
        assert Injected(containers, projectLocation, remoteWorkspace) == containers;
      }
    }
  }

  // ---------------------------------------------------------------- the launch

  /** What starting gdb in the remote shell does: it throws, returns no shell, or starts one. */
  datatype ShellStart = ShellFails | NoShell | ShellStarted

  /**
   * The environment a launch meets. `initInterrupted` says that RSE's model was not yet
   * initialised and the wait for it was interrupted; `projectUnavailable` says that the
   * configuration names no C project, or that listing the project's members throws;
   * `shellHandle` identifies the shell
   * `execCmdInRemoteShell` returns when it starts one.
   */
  datatype LaunchEnvironment = LaunchEnvironment(
    initInterrupted: bool,
    projectUnavailable: bool,
    rootFiles: seq<RootMember>,
    shell: ShellStart,
    shellHandle: nat,
    adapterFails: bool,
    ticks: seq<Tick>,
    executorAcceptsShutdown: bool,
    gdbLaunchFails: bool)

  /** What the launch does that others see. */
  datatype LaunchEvent =
    | SourcesExported(activity: seq<ExportAction.Activity>)
    | ProcessDestroyed
    | ShutdownRequested
    | GdbLaunchStarted(version: string)

  datatype LaunchFailure =
    | InitInterrupted
    | ProjectUnavailable
    | UploadFailed(ex: ExportAction.Thrown)
    | ShellStartFailed
    | AdapterFailed
    | DebuggerNotInstalled
    | GdbLaunchFailed

  /** How a launch ends; Pending when the passes given run out before gdb is ready. */
  datatype LaunchOutcome = Launched | LaunchAborted(failure: LaunchFailure) | Pending

  datatype LaunchResult = LaunchResult(events: seq<LaunchEvent>, outcome: LaunchOutcome, version: string)

  /** The upload: the export action runs on the first description found, if any. */
  function UploadEvents(rootFiles: seq<RootMember>): seq<LaunchEvent>
  {
    var k := DescriptionIndex(rootFiles);
    if k == |rootFiles| then [] else [SourcesExported(ExportAction.RunSpec(rootFiles[k].descriptions).activity)]
  }

  function UploadOutcome(rootFiles: seq<RootMember>): ExportAction.RunOutcome
  {
    var k := DescriptionIndex(rootFiles);
    if k == |rootFiles| then ExportAction.Returned else ExportAction.RunSpec(rootFiles[k].descriptions).outcome
  }

  /** `super.launch` and its failure cleanup. */
  function GdbLaunch(before: seq<LaunchEvent>, processCreated: bool, version: string, fails: bool): LaunchResult
  {
    var started := before + [GdbLaunchStarted(version)];
    if fails then LaunchResult(started + (if processCreated then [ProcessDestroyed] else []), LaunchAborted(GdbLaunchFailed), version)
    else LaunchResult(started, Launched, version)
  }

  function LaunchSpec(env: LaunchEnvironment, version: string, versionOf: string -> string): LaunchResult
  {
    if env.initInterrupted then LaunchResult([], LaunchAborted(InitInterrupted), version)
    else if env.projectUnavailable then LaunchResult([], LaunchAborted(ProjectUnavailable), version)
    else
      var uploaded := UploadEvents(env.rootFiles);
      match UploadOutcome(env.rootFiles)
      case Threw(ex) => LaunchResult(uploaded, LaunchAborted(UploadFailed(ex)), version)
      case Returned => ShellLaunch(env, uploaded, version, versionOf)
  }

  /** Whether a launch gets past the upload to the reset of the remote process and the shell start. */
  predicate ReachesShell(env: LaunchEnvironment)
  {
    !env.initInterrupted && !env.projectUnavailable && UploadOutcome(env.rootFiles).Returned?
  }

  /** Whether the shell part of a launch leaves a remote process: gdb started and the adapter wrapped it. */
  predicate ProcessAfterShell(env: LaunchEnvironment)
  {
    env.shell == ShellStarted && !env.adapterFails
  }

  /**
   * Whether there is a remote process after a launch, given whether there was one before:
   * a launch that stops before the reset keeps the old one.
   */
  predicate ProcessAfterLaunch(env: LaunchEnvironment, before: bool)
  {
    if ReachesShell(env) then ProcessAfterShell(env) else before
  }

  /**
   * The remote shell after the shell start, given the one before: a start that throws
   * leaves the field as it was, and nothing else resets it.
   */
  function ShellAfterShell(env: LaunchEnvironment, before: Option<nat>): Option<nat>
  {
    match env.shell
    case ShellFails => before
    case NoShell => None
    case ShellStarted => Some(env.shellHandle)
  }

  /** The remote shell after a launch: one that stops before the shell start keeps the old one. */
  function ShellAfterLaunch(env: LaunchEnvironment, before: Option<nat>): Option<nat>
  {
    if ReachesShell(env) then ShellAfterShell(env, before) else before
  }

  /**
   * A launch whose project is missing or cannot list its members stops before the export
   * action runs, records nothing, and keeps the remote process and shell it had.
   */
  lemma UnavailableProjectAborts(env: LaunchEnvironment, version: string, versionOf: string -> string,
                                 shellBefore: Option<nat>, processBefore: bool)
    requires !env.initInterrupted && env.projectUnavailable
    ensures LaunchSpec(env, version, versionOf) == LaunchResult([], LaunchAborted(ProjectUnavailable), version)
    ensures ProcessAfterLaunch(env, processBefore) == processBefore
    ensures ShellAfterLaunch(env, shellBefore) == shellBefore
  {
  }

  /**
   * A remote process only ever exists beside the shell it was started in, whereas after
   * a failed shell start the shell of an earlier launch is still there with no process.
   */
  lemma ProcessHasItsShell(env: LaunchEnvironment, shellBefore: Option<nat>, processBefore: bool)
    ensures ProcessAfterShell(env) ==> ShellAfterShell(env, shellBefore) == Some(env.shellHandle)
    ensures ReachesShell(env) && env.shell == ShellFails ==>
              ShellAfterLaunch(env, shellBefore) == shellBefore && !ProcessAfterLaunch(env, processBefore)
  {
  }

  /** The launch once the sources are uploaded: the shell, the adapter, the wait and the GDB launch. */
  function ShellLaunch(env: LaunchEnvironment, before: seq<LaunchEvent>, version: string, versionOf: string -> string): LaunchResult
  {
    match env.shell
    case ShellFails => LaunchResult(before, LaunchAborted(ShellStartFailed), version)
    case NoShell => GdbLaunch(before, false, version, env.gdbLaunchFails)
    case ShellStarted =>
      if env.adapterFails then LaunchResult(before, LaunchAborted(AdapterFailed), version)
      else
        var (result, s) := WaitRun(ListenerState(false, false, version), env.ticks, versionOf);
        match result
        case GdbReady => GdbLaunch(before, true, s.version, env.gdbLaunchFails)
        case StillWaiting => LaunchResult(before, Pending, s.version)
        case WaitAborted =>
          LaunchResult(before + [ProcessDestroyed] + (if env.executorAcceptsShutdown then [ShutdownRequested] else []),
                       LaunchAborted(DebuggerNotInstalled), s.version)
  }

  /** What happened before the shell starts is kept, unchanged, ahead of what the launch then does. */
  lemma ShellLaunchPrefix(env: LaunchEnvironment, pre: seq<LaunchEvent>, before: seq<LaunchEvent>, version: string, versionOf: string -> string)
    ensures var r, q := ShellLaunch(env, pre + before, version, versionOf), ShellLaunch(env, before, version, versionOf);
            r.events == pre + q.events && r.outcome == q.outcome && r.version == q.version
  {
    var tail := if env.executorAcceptsShutdown then [ShutdownRequested] else [];
    Associative(pre, before, [ProcessDestroyed]);
    Associative(pre, before + [ProcessDestroyed], tail);
    Associative(pre, before, [GdbLaunchStarted(version)]);
    var (_, s) := WaitRun(ListenerState(false, false, version), env.ticks, versionOf);
    Associative(pre, before, [GdbLaunchStarted(s.version)]);
    Associative(pre, before + [GdbLaunchStarted(version)], [ProcessDestroyed]);
    Associative(pre, before + [GdbLaunchStarted(s.version)], [ProcessDestroyed]);
  }

  function Destroyed(events: seq<LaunchEvent>): nat
  {
    if events == [] then 0
    else Destroyed(events[..|events| - 1]) + (if events[|events| - 1] == ProcessDestroyed then 1 else 0)
  }

  lemma DestroyedAppend(a: seq<LaunchEvent>, b: seq<LaunchEvent>)
    ensures Destroyed(a + b) == Destroyed(a) + Destroyed(b)
    decreases |b|
  {
    if b != [] {
      assert (a + b)[..|a + b| - 1] == a + b[..|b| - 1];
      DestroyedAppend(a, b[..|b| - 1]);
    } else {
      assert a + b == a;
    }
  }

  lemma UploadDestroysNothing(rootFiles: seq<RootMember>)
    ensures Destroyed(UploadEvents(rootFiles)) == 0
  {
    var k := DescriptionIndex(rootFiles);
    if k < |rootFiles| {
      assert UploadEvents(rootFiles)[..0] == [];
    }
  }

  /**
   * The remote process is destroyed exactly once when the launch fails after the
   * process was created (gdb never became ready, or the GDB launch failed), and
   * never otherwise.
   */
  lemma LaunchCleanup(env: LaunchEnvironment, version: string, versionOf: string -> string)
    ensures var r := LaunchSpec(env, version, versionOf);
            Destroyed(r.events) ==
              if r.outcome == LaunchAborted(DebuggerNotInstalled) ||
                 (r.outcome == LaunchAborted(GdbLaunchFailed) && env.shell == ShellStarted) then 1 else 0
  {
    var uploaded := UploadEvents(env.rootFiles);
    UploadDestroysNothing(env.rootFiles);
    var r := LaunchSpec(env, version, versionOf);
    if ReachesShell(env) && !(env.shell == ShellStarted && env.adapterFails) && env.shell != ShellFails {
      if env.shell == NoShell {
        DestroyedAppend(uploaded, [GdbLaunchStarted(version)]);
        assert Destroyed([GdbLaunchStarted(version)]) == 0;
      } else {
        var (result, s) := WaitRun(ListenerState(false, false, version), env.ticks, versionOf);
        if result == GdbReady {
          DestroyedAppend(uploaded, [GdbLaunchStarted(s.version)]);
          assert Destroyed([GdbLaunchStarted(s.version)]) == 0;
          if env.gdbLaunchFails {
            DestroyedAppend(uploaded + [GdbLaunchStarted(s.version)], [ProcessDestroyed]);
          }
        } else if result == WaitAborted {
          DestroyedAppend(uploaded, [ProcessDestroyed]);
          if env.executorAcceptsShutdown {
            DestroyedAppend(uploaded + [ProcessDestroyed], [ShutdownRequested]);
            assert Destroyed([ShutdownRequested]) == 0;
          } else {
            assert uploaded + [ProcessDestroyed] + [] == uploaded + [ProcessDestroyed];
          }
        }
      }
    }
  }

  /**
   * Only a remote process this launch created is destroyed, and one it created is destroyed
   * exactly when the launch then fails.
   */
  lemma DestroysOnlyCreatedProcess(env: LaunchEnvironment, version: string, versionOf: string -> string, before: bool)
    ensures var r := LaunchSpec(env, version, versionOf);
            Destroyed(r.events) > 0 ==> ProcessAfterShell(env) && ProcessAfterLaunch(env, before) && r.outcome.LaunchAborted?
    ensures var r := LaunchSpec(env, version, versionOf);
            ProcessAfterShell(env) && ReachesShell(env) ==>
              (Destroyed(r.events) == 1 <==> r.outcome.LaunchAborted?)
  {
    LaunchCleanup(env, version, versionOf);
  }

  /**
   * When gdb started in a shell and the launch went ahead, the GDB launch was given the
   * version parsed from gdb's banner.
   */
  lemma LaunchUsesBannerVersion(env: LaunchEnvironment, version: string, versionOf: string -> string)
    requires env.shell == ShellStarted
    requires LaunchSpec(env, version, versionOf).outcome == Launched
    ensures var r := LaunchSpec(env, version, versionOf);
            r.events[|r.events| - 1] == GdbLaunchStarted(r.version) &&
            WaitRun(ListenerState(false, false, version), env.ticks, versionOf).1 == ListenerState(true, true, r.version)
  {
    WaitRunOutcomes(ListenerState(false, false, version), env.ticks, versionOf);
  }

  /** The launch delegate: the version handed to gdb's services, the remote process, and what it did. */
  class RemoteDebugLaunchDelegate {
    var version: string
    /** The shell gdb was started in, if any; `getShell` returns it. */
    var remoteShell: Option<nat>
    /** Whether `remoteProcess` is non-null. */
    var remoteProcess: bool
    var events: seq<LaunchEvent>
    /** The symbolic name of the import/export plugin. */
    const exportPluginId: string

    constructor (exportPluginId: string)
      ensures version == "" && remoteShell == None && !remoteProcess && events == []
      ensures this.exportPluginId == exportPluginId
    {
      version := "";
      remoteShell := None;
      remoteProcess := false;
      events := [];
      this.exportPluginId := exportPluginId;
    }

    /** `uploadSourceCodeToRemoteWorkSpace`: runs the export action on the first description, if any. */
    method UploadSourceCode(rootFiles: seq<RootMember>) returns (outcome: ExportAction.RunOutcome)
      modifies this`events
      ensures events == old(events) + UploadEvents(rootFiles)
      ensures outcome == UploadOutcome(rootFiles)
    {
      var exportConfig := FindExportDescription(rootFiles);
      ghost var k := DescriptionIndex(rootFiles);
      if exportConfig.Some? {
        assert exportConfig.value == k;
        var exportConfigResource := rootFiles[exportConfig.value];
        var action := new ExportAction.ExportActionDelegate(exportPluginId);
        outcome := action.Run(exportConfigResource.descriptions);
        assert action.activity == ExportAction.RunSpec(exportConfigResource.descriptions).activity;
        events := events + [SourcesExported(action.activity)];
      } else {
        assert k == |rootFiles|;
        outcome := ExportAction.Returned;
      }
    }

    /** The wait loop of `launch`, with the listener receiving the output of each pass while it waits. */
    method WaitForGdb(listener: ShellOutputListener, ticks: seq<Tick>, executorAcceptsShutdown: bool)
      returns (result: WaitResult)
      requires listener.owner == this && listener.gdbReady.Length == 1
      requires remoteProcess
      modifies this`events, this`version, listener, listener.gdbReady
      ensures (result, listener.State()) == WaitRun(old(listener.State()), ticks, listener.versionOf)
      ensures result == WaitAborted ==>
                events == old(events) + [ProcessDestroyed] + (if executorAcceptsShutdown then [ShutdownRequested] else [])
      ensures result != WaitAborted ==> events == old(events)
      ensures remoteProcess
    {
      var gdbReady := listener.gdbReady;
      var i := 0;
      while !gdbReady[0]
        invariant 0 <= i <= |ticks|
        invariant WaitRun(old(listener.State()), ticks, listener.versionOf) == WaitRun(listener.State(), ticks[i..], listener.versionOf)
        invariant events == old(events) && remoteProcess
        decreases |ticks| - i
      {
        if i == |ticks| {
          return StillWaiting;
        }
        if ticks[i].cancelled || !ticks[i].active {
          if remoteProcess {
            events := events + [ProcessDestroyed];
          }
          if executorAcceptsShutdown {
            events := events + [ShutdownRequested];
          }
          return WaitAborted;
        }
        // lock.wait(500): the change events of this pass reach the listener.
        var outputs := ticks[i].outputs;
        for j := 0 to |outputs|
          invariant WaitRun(old(listener.State()), ticks, listener.versionOf) ==
                    WaitRun(EventsStep(listener.State(), outputs[j..], listener.versionOf), ticks[i + 1..], listener.versionOf)
          invariant events == old(events) && remoteProcess
        {
          var _ := listener.ShellOutputChanged(outputs[j]);
          assert outputs[j..][1..] == outputs[j + 1..];
        }
        assert outputs[|outputs|..] == [];
        i := i + 1;
      }
      if i < |ticks| {
        assert WaitStep(true, ticks[i].cancelled, ticks[i].active) == Exit;
      }
      return GdbReady;
    }

    /** `launch`, from the upload to the GDB launch and its failure cleanup. */
    method Launch(env: LaunchEnvironment, versionOf: string -> string, lineSeparator: string)
      returns (outcome: LaunchOutcome)
      modifies this
      ensures events == old(events) + LaunchSpec(env, old(version), versionOf).events
      ensures outcome == LaunchSpec(env, old(version), versionOf).outcome
      ensures version == LaunchSpec(env, old(version), versionOf).version
      ensures remoteProcess == ProcessAfterLaunch(env, old(remoteProcess))
      ensures remoteShell == ShellAfterLaunch(env, old(remoteShell))
    {
      if env.initInterrupted {
        return LaunchAborted(InitInterrupted);
      }
      // The first two calls of `uploadSourceCodeToRemoteWorkSpace`: the C project and its members.
      if env.projectUnavailable {
        return LaunchAborted(ProjectUnavailable);
      }
      var uploadOutcome := UploadSourceCode(env.rootFiles);
      if uploadOutcome.Threw? {
        return LaunchAborted(UploadFailed(uploadOutcome.ex));
      }
      ghost var uploaded := UploadEvents(env.rootFiles);
      outcome := LaunchAfterUpload(env, versionOf, lineSeparator);
      ShellLaunchPrefix(env, old(events), uploaded, old(version), versionOf);
    }

    /** The rest of `launch` once the sources are uploaded. */
    method LaunchAfterUpload(env: LaunchEnvironment, versionOf: string -> string, lineSeparator: string)
      returns (outcome: LaunchOutcome)
      modifies this
      ensures events == ShellLaunch(env, old(events), old(version), versionOf).events
      ensures outcome == ShellLaunch(env, old(events), old(version), versionOf).outcome
      ensures version == ShellLaunch(env, old(events), old(version), versionOf).version
      ensures remoteProcess == ProcessAfterShell(env)
      ensures remoteShell == ShellAfterShell(env, old(remoteShell))
    {
      remoteProcess := false;
      if env.shell == ShellFails {
        return LaunchAborted(ShellStartFailed);
      }
      remoteShell := if env.shell == ShellStarted then Some(env.shellHandle) else None;
      if env.shell == ShellStarted {
        var gdbReady := new bool[1];
        gdbReady[0] := false;
        var listener := new ShellOutputListener(this, gdbReady, versionOf, lineSeparator);
        assert listener.State() == ListenerState(false, false, old(version));
        if env.adapterFails {
          return LaunchAborted(AdapterFailed);
        }
        remoteProcess := true;
        var result := WaitForGdb(listener, env.ticks, env.executorAcceptsShutdown);
        if result == WaitAborted {
          return LaunchAborted(DebuggerNotInstalled);
        }
        if result == StillWaiting {
          return Pending;
        }
      }
      outcome := GdbLaunchWithCleanup(env.gdbLaunchFails);
    }

    /** `super.launch`, destroying the remote process when it fails. */
    method GdbLaunchWithCleanup(fails: bool) returns (outcome: LaunchOutcome)
      modifies this`events
      ensures events == GdbLaunch(old(events), remoteProcess, version, fails).events
      ensures outcome == GdbLaunch(old(events), remoteProcess, version, fails).outcome
    {
      events := events + [GdbLaunchStarted(version)];
      if fails {
        if remoteProcess {
          events := events + [ProcessDestroyed];
        }
        return LaunchAborted(GdbLaunchFailed);
      }
      return Launched;
    }
  }
}
