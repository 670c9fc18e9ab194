# DirectRemoteDebug: a verified model of the remote export and launch core

DirectRemoteDebug is an Eclipse CDT plugin. It debugs a C/C++ program on a remote
machine by starting gdb there directly. Before gdb starts, the project's sources are
uploaded to the remote workspace. This project models the three classes that do that
work and proves properties of the model.

- **The exporter** (`DirectDebugRemoteExporter`, modules `Exporter` and
  `ExporterProperties`).
  - It mirrors a tree of workspace resources onto the remote file system.
  - A nested container becomes a remote (or, without a host, local) folder.
  - A file with a local location is uploaded.
  - A file that is only a byte stream is copied through a 1000-byte buffer after its
    destination is split at the host's last separator.
  - Everything the exporter asks of the remote subsystem is recorded on the exporter
    object as an ordered trace of effects.
  - The class's methods are proved equal to trace functions, and the lemmas are stated
    about those functions.
- **The export action** (`DirectDebugRemoteFileExportActionDelegate`, module
  `ExportAction`).
  - It reads every export description (a `.rexpfd` file) in the selection and
    collects failures into a read status (a `MultiStatus`).
  - It runs one export job per description that parsed, stopping at the first failure.
  - It throws when a description is not an accessible `.rexpfd` file, when the jobs
    failed, or when nothing parsed and the read status is not OK.
- **The launch delegate** (`DirectRemoteDebugLaunchDelegate`, module `LaunchDelegate`).
  - It finds the project's first `.rexpfd` member and runs the export action on it.
  - It starts gdb in a remote shell.
  - A listener watches the shell output for gdb's banner, which sets the version and
    the ready flag.
  - It waits for the flag, aborting (and destroying the remote process) when the
    monitor is cancelled or the shell dies.
  - It then runs the GDB launch, destroying the process if that launch fails.
  - `getSourceLocator` adds a path mapping from the remote workspace to the project
    when none exists.

`Common` holds the `java.lang.String` operations the code relies on (`replace`,
`lastIndexOf`, `endsWith`) and small sequence helpers.

Three behaviours of the code that a reader may not expect, which the model follows:
- `createFolder` does not translate '/' into the host separator; only `writeFile` does.
- When `getContents()` throws after the output stream was opened, nothing closes that
  stream.
- `export` always returns `null`, so `run` never merges the export status into the
  read status. The merge block is unreachable.

## Model

| member | source | states |
|---|---|---|
| Common.Replace | src/org.eclipse.cdt.launch.remote.direct/src/org/eclipse/cdt/launch/remote/direct/DirectDebugRemoteExporter.java:87-93 | replacing a character keeps the length and maps each position independently: `from` becomes `to`, every other character is kept |
| Common.LastIndexOf | src/org.eclipse.cdt.launch.remote.direct/src/org/eclipse/cdt/launch/remote/direct/DirectDebugRemoteExporter.java:102-104 | the result is -1 exactly when the character is absent; otherwise it is a position holding the character with none after it |
| Exporter.ContentStream.Read | src/org.eclipse.cdt.launch.remote.direct/src/org/eclipse/cdt/launch/remote/direct/DirectDebugRemoteExporter.java:110-115 | a read fails exactly when the next grant is a fault; at the end of the data it returns -1; otherwise it copies the next `n` unread bytes into the buffer, with `n` bounded by the request and the grant, and leaves the rest of the buffer as it was; a fault consumes its grant and changes neither the position nor the buffer, and the end of the data changes nothing |
| Exporter.RemoteExporter.constructor | src/org.eclipse.cdt.launch.remote.direct/src/org/eclipse/cdt/launch/remote/direct/DirectDebugRemoteExporter.java:31-34 | a new exporter has its host and no effects yet |
| Exporter.RemoteExporter.CreateFolder | src/org.eclipse.cdt.launch.remote.direct/src/org/eclipse/cdt/launch/remote/direct/DirectDebugRemoteExporter.java:47-53 | one mkdir effect is appended: a remote directory when there is a host, a local one otherwise, named by the unconverted destination |
| Exporter.RemoteExporter.Write | src/org.eclipse.cdt.launch.remote.direct/src/org/eclipse/cdt/launch/remote/direct/DirectDebugRemoteExporter.java:59-64 | the effects appended and the failure returned are those of the write walk (`WriteTrace`): a file is written directly, a container has only its children written |
| Exporter.RemoteExporter.WriteChildren | src/org.eclipse.cdt.launch.remote.direct/src/org/eclipse/cdt/launch/remote/direct/DirectDebugRemoteExporter.java:70-78 | an inaccessible folder writes nothing; otherwise the members are written in order, each at destination/name, stopping at the first one that fails |
| Exporter.RemoteExporter.WriteResource | src/org.eclipse.cdt.launch.remote.direct/src/org/eclipse/cdt/launch/remote/direct/DirectDebugRemoteExporter.java:136-143 | a file is written directly; a container first gets its folder, then its children |
| Exporter.RemoteExporter.WriteFile | src/org.eclipse.cdt.launch.remote.direct/src/org/eclipse/cdt/launch/remote/direct/DirectDebugRemoteExporter.java:85-130 | with no host it fails before any effect; with a local location it uploads to the translated destination; otherwise it fails on a destination without the separator, opens the output stream at (parent, file), fails if the contents cannot be read, and else copies the stream and closes both streams, failing if a read threw |
| Exporter.RemoteExporter.CopyStream | src/org.eclipse.cdt.launch.remote.direct/src/org/eclipse/cdt/launch/remote/direct/DirectDebugRemoteExporter.java:110-123 | the loop appends exactly the writes of the reference copy (`Copy`) on the stream's unread bytes and read schedule, and reports completion exactly when that copy completes |
| ExporterProperties.SeparatorTranslation | src/org.eclipse.cdt.launch.remote.direct/src/org/eclipse/cdt/launch/remote/direct/DirectDebugRemoteExporter.java:87-93 | the translated destination has the same length and exactly the original's characters with '/' mapped to the separator, holds no '/' when the separator differs, and is unchanged when it is '/' |
| ExporterProperties.StreamTargetSplitsDestination | src/org.eclipse.cdt.launch.remote.direct/src/org/eclipse/cdt/launch/remote/direct/DirectDebugRemoteExporter.java:102-106 | once the output stream is opened, parent + separator + file is the whole translated destination, and the file part holds no separator |
| ExporterProperties.ContainerFilesAlwaysSplit | src/org.eclipse.cdt.launch.remote.direct/src/org/eclipse/cdt/launch/remote/direct/DirectDebugRemoteExporter.java:59-64 | writing a container to an absolute or non-empty destination never fails for want of a separator |
| ExporterProperties.ResourceAlwaysSplits | src/org.eclipse.cdt.launch.remote.direct/src/org/eclipse/cdt/launch/remote/direct/DirectDebugRemoteExporter.java:136-143 | a resource written at an absolute destination, or one of at least two segments, never fails for want of a separator |
| ExporterProperties.MembersAlwaysSplit | src/org.eclipse.cdt.launch.remote.direct/src/org/eclipse/cdt/launch/remote/direct/DirectDebugRemoteExporter.java:70-78 | the members from any index onwards never fail for want of a separator below an absolute or non-empty destination |
| ExporterProperties.CopyChunkSizes | src/org.eclipse.cdt.launch.remote.direct/src/org/eclipse/cdt/launch/remote/direct/DirectDebugRemoteExporter.java:110-123 | every chunk the copy loop writes holds between 1 and 1000 bytes |
| ExporterProperties.CopyWritesPrefix | src/org.eclipse.cdt.launch.remote.direct/src/org/eclipse/cdt/launch/remote/direct/DirectDebugRemoteExporter.java:110-123 | the bytes written are always a prefix of the file's contents, and all of them when the copy completes |
| ExporterProperties.CopyWithoutFaultsCompletes | src/org.eclipse.cdt.launch.remote.direct/src/org/eclipse/cdt/launch/remote/direct/DirectDebugRemoteExporter.java:110-123 | a stream whose reads never fault is copied completely |
| ExporterProperties.ZeroByteReadWritesNothing | src/org.eclipse.cdt.launch.remote.direct/src/org/eclipse/cdt/launch/remote/direct/DirectDebugRemoteExporter.java:114-118 | a read that delivers zero bytes writes nothing and the loop carries on |
| ExporterProperties.BytesOfWrites | src/org.eclipse.cdt.launch.remote.direct/src/org/eclipse/cdt/launch/remote/direct/DirectDebugRemoteExporter.java:115-117 | the bytes carried by the write effects are the concatenation of the chunks |
| ExporterProperties.StreamTransfer | src/org.eclipse.cdt.launch.remote.direct/src/org/eclipse/cdt/launch/remote/direct/DirectDebugRemoteExporter.java:106-128 | a stream transfer whose contents are available ends by closing the input and then the output stream, and a transfer without failure writes exactly the file's bytes |
| ExporterProperties.FileCounts | src/org.eclipse.cdt.launch.remote.direct/src/org/eclipse/cdt/launch/remote/direct/DirectDebugRemoteExporter.java:85-130 | a file never creates a folder, and it starts exactly one transfer unless the host is missing or the destination cannot be split |
| ExporterProperties.ResourceCounts | src/org.eclipse.cdt.launch.remote.direct/src/org/eclipse/cdt/launch/remote/direct/DirectDebugRemoteExporter.java:136-143 | a write that does not fail starts one transfer per file reached and creates one folder per container reached, the root included |
| ExporterProperties.MembersCounts | src/org.eclipse.cdt.launch.remote.direct/src/org/eclipse/cdt/launch/remote/direct/DirectDebugRemoteExporter.java:70-78 | the members from any index onwards, written without failure, start one transfer per file and create one folder per container among them |
| ExporterProperties.WriteCounts | src/org.eclipse.cdt.launch.remote.direct/src/org/eclipse/cdt/launch/remote/direct/DirectDebugRemoteExporter.java:59-64 | a write that does not fail starts one transfer per file reached and creates one folder per nested container; the root container is not created |
| ExporterProperties.InaccessibleContainer | src/org.eclipse.cdt.launch.remote.direct/src/org/eclipse/cdt/launch/remote/direct/DirectDebugRemoteExporter.java:70-78 | a closed container draws only its own folder when nested, and nothing at all as the root |
| ExporterProperties.ChildTraces | src/org.eclipse.cdt.launch.remote.direct/src/org/eclipse/cdt/launch/remote/direct/DirectDebugRemoteExporter.java:70-78 | there is one child trace per member |
| ExporterProperties.ChildrenInOrder | src/org.eclipse.cdt.launch.remote.direct/src/org/eclipse/cdt/launch/remote/direct/DirectDebugRemoteExporter.java:70-78 | a container whose children all succeed produces exactly its children's traces, concatenated in member order |
| ExporterProperties.MembersInOrder | src/org.eclipse.cdt.launch.remote.direct/src/org/eclipse/cdt/launch/remote/direct/DirectDebugRemoteExporter.java:70-78 | the same holds from any member index onwards |
| ExporterProperties.FileEffectsAtDestination | src/org.eclipse.cdt.launch.remote.direct/src/org/eclipse/cdt/launch/remote/direct/DirectDebugRemoteExporter.java:85-130 | every effect of a file write is issued at that file's destination and none is a mkdir |
| ExporterProperties.ResourceOrdered | src/org.eclipse.cdt.launch.remote.direct/src/org/eclipse/cdt/launch/remote/direct/DirectDebugRemoteExporter.java:136-143 | when sibling names are distinct, each folder is created before anything inside it, and every effect lies within the destination |
| ExporterProperties.MembersOrdered | src/org.eclipse.cdt.launch.remote.direct/src/org/eclipse/cdt/launch/remote/direct/DirectDebugRemoteExporter.java:70-78 | the same holds for the members from any index onwards, and each effect lies below the destination, under one of the members from that index on |
| ExporterProperties.WriteOrdered | src/org.eclipse.cdt.launch.remote.direct/src/org/eclipse/cdt/launch/remote/direct/DirectDebugRemoteExporter.java:59-64 | a write creates every folder before anything inside it; for a container every effect lies strictly below the destination, so the root itself is never created |
| ExportAction.MaxOf | src/org.eclipse.cdt.launch.remote.direct/src/org/eclipse/cdt/launch/remote/direct/DirectDebugRemoteFileExportActionDelegate.java:186-193 | the combined severity is one of the two and at least both |
| ExportAction.MaxSeverityOk | src/org.eclipse.cdt.launch.remote.direct/src/org/eclipse/cdt/launch/remote/direct/DirectDebugRemoteFileExportActionDelegate.java:63-65 | a status list's severity is OK exactly when every child is OK |
| ExportAction.MaxSeverityBounds | src/org.eclipse.cdt.launch.remote.direct/src/org/eclipse/cdt/launch/remote/direct/DirectDebugRemoteFileExportActionDelegate.java:63-65 | no child is more severe than the list's severity |
| ExportAction.MultiStatus.constructor | src/org.eclipse.cdt.launch.remote.direct/src/org/eclipse/cdt/launch/remote/direct/DirectDebugRemoteFileExportActionDelegate.java:63-64 | a new read status has its plugin, code and message, no children, and OK severity |
| ExportAction.MultiStatus.Add | src/org.eclipse.cdt.launch.remote.direct/src/org/eclipse/cdt/launch/remote/direct/DirectDebugRemoteFileExportActionDelegate.java:186-193 | adding appends the child and raises the severity to the greater of the two, keeping severity equal to the children's maximum |
| ExportAction.MultiStatus.AddAll | src/org.eclipse.cdt.launch.remote.direct/src/org/eclipse/cdt/launch/remote/direct/DirectDebugRemoteFileExportActionDelegate.java:186-193 | adding a list appends all of it in order and keeps severity equal to the children's maximum |
| ExportAction.StatusEntry | src/org.eclipse.cdt.launch.remote.direct/src/org/eclipse/cdt/launch/remote/direct/DirectDebugRemoteFileExportActionDelegate.java:186-193 | the entry keeps the exception status's severity, plugin and code; it is that status when its localized message is non-empty, and otherwise carries the default message |
| ExportAction.FileExtension | src/org.eclipse.cdt.launch.remote.direct/src/org/eclipse/cdt/launch/remote/direct/DirectDebugRemoteFileExportActionDelegate.java:107-109 | there is no extension exactly when the name holds no '.'; otherwise the name ends with '.' plus an extension that holds no '.' |
| ExportAction.DescriptionNameHasExtension | src/org.eclipse.cdt.launch.remote.direct/src/org/eclipse/cdt/launch/remote/direct/DirectDebugRemoteFileExportActionDelegate.java:107-109 | a name ending with ".rexpfd" has the description extension `rexpfd` |
| ExportAction.ReadOneOutcomes | src/org.eclipse.cdt.launch.remote.direct/src/org/eclipse/cdt/launch/remote/direct/DirectDebugRemoteFileExportActionDelegate.java:106-138 | a description yields no data exactly when reading it failed, and then its first status entry reports that failure; parsed data never saves settings; the reader is closed exactly when the contents were available; the reader's status entries appear contiguously among the description's entries |
| ExportAction.CombineAssociative | src/org.eclipse.cdt.launch.remote.direct/src/org/eclipse/cdt/launch/remote/direct/DirectDebugRemoteFileExportActionDelegate.java:92-101 | combining the outcomes of reads is associative |
| ExportAction.ReadAllAppend | src/org.eclipse.cdt.launch.remote.direct/src/org/eclipse/cdt/launch/remote/direct/DirectDebugRemoteFileExportActionDelegate.java:92-101 | reading two lists of descriptions in turn combines the two outcomes |
| ExportAction.ReadAllFilters | src/org.eclipse.cdt.launch.remote.direct/src/org/eclipse/cdt/launch/remote/direct/DirectDebugRemoteFileExportActionDelegate.java:92-101 | the parsed data are the concatenation, in order, of what each description yields (`DataParts`); none saves settings; there are never more than descriptions |
| ExportAction.ExportStopsAtFirstFailure | src/org.eclipse.cdt.launch.remote.direct/src/org/eclipse/cdt/launch/remote/direct/DirectDebugRemoteFileExportActionDelegate.java:140-184 | the export completes exactly when no job fails, and then every job was run; on failure the jobs run are those up to and including the first failing one |
| ExportAction.ReadStatusMessage | src/org.eclipse.cdt.launch.remote.direct/src/org/eclipse/cdt/launch/remote/direct/DirectDebugRemoteFileExportActionDelegate.java:57-62 | the read status uses the plural message exactly when there is more than one description; `Run` builds its read status with it |
| ExportAction.ReadActivityAppend | src/org.eclipse.cdt.launch.remote.direct/src/org/eclipse/cdt/launch/remote/direct/DirectDebugRemoteFileExportActionDelegate.java:123-136 | the readers closed for two lists are those of the first, then those of the second |
| ExportAction.RunWithoutDescriptions | src/org.eclipse.cdt.launch.remote.direct/src/org/eclipse/cdt/launch/remote/direct/DirectDebugRemoteFileExportActionDelegate.java:52-55 | with no description files `run` returns at once, doing nothing |
| ExportAction.RunIgnoresReadStatusAfterExport | src/org.eclipse.cdt.launch.remote.direct/src/org/eclipse/cdt/launch/remote/direct/DirectDebugRemoteFileExportActionDelegate.java:66-89 | once some description parsed, `run` returns exactly when no export job failed, whatever the read status holds |
| ExportAction.RunWithNothingParsed | src/org.eclipse.cdt.launch.remote.direct/src/org/eclipse/cdt/launch/remote/direct/DirectDebugRemoteFileExportActionDelegate.java:81-89 | when nothing parsed, `run` throws exactly when some read status entry is not OK, and otherwise returns |
| ExportAction.IllegalDescriptionAborts | src/org.eclipse.cdt.launch.remote.direct/src/org/eclipse/cdt/launch/remote/direct/DirectDebugRemoteFileExportActionDelegate.java:107-109 | a description that is not an accessible .rexpfd file aborts `run` with no export job run, whatever comes after it |
| ExportAction.ExportActionDelegate.constructor | src/org.eclipse.cdt.launch.remote.direct/src/org/eclipse/cdt/launch/remote/direct/DirectRemoteDebugLaunchDelegate.java:105 | a new action has its plugin id, has done nothing and has built no read status |
| ExportAction.ExportActionDelegate.AddToStatus | src/org.eclipse.cdt.launch.remote.direct/src/org/eclipse/cdt/launch/remote/direct/DirectDebugRemoteFileExportActionDelegate.java:186-193 | exactly the status entry for the exception is appended to the multi-status |
| ExportAction.ExportActionDelegate.ReadExportData | src/org.eclipse.cdt.launch.remote.direct/src/org/eclipse/cdt/launch/remote/direct/DirectDebugRemoteFileExportActionDelegate.java:106-138 | an illegal description is reported without any effect; otherwise the data, status entries and closed reader are exactly those of reading that one description |
| ExportAction.ExportActionDelegate.ReadExportDatas | src/org.eclipse.cdt.launch.remote.direct/src/org/eclipse/cdt/launch/remote/direct/DirectDebugRemoteFileExportActionDelegate.java:92-101 | the descriptions are read in order up to the first illegal one, which is reported; the status entries and closed readers are those of reading that prefix, and without an illegal one the data are those of reading all descriptions |
| ExportAction.ExportActionDelegate.Export | src/org.eclipse.cdt.launch.remote.direct/src/org/eclipse/cdt/launch/remote/direct/DirectDebugRemoteFileExportActionDelegate.java:140-184 | the jobs run are those up to the first failure, and the result is the export outcome |
| ExportAction.ExportActionDelegate.Run | src/org.eclipse.cdt.launch.remote.direct/src/org/eclipse/cdt/launch/remote/direct/DirectDebugRemoteFileExportActionDelegate.java:49-90 | the activity and the outcome are those of the run specification (`RunSpec`): nothing without descriptions, an abort on an illegal one, the export's outcome once something parsed, and otherwise the read status's verdict; whenever there are descriptions, the read status it built carries `ReadStatusMessage` of their number |
| ExportAction.ExportActionDelegate.ReadAndExport | src/org.eclipse.cdt.launch.remote.direct/src/org/eclipse/cdt/launch/remote/direct/DirectDebugRemoteFileExportActionDelegate.java:64-89 | once the read status is built, the activity and the outcome are those of the run specification |
| ExportAction.ExportActionDelegate.ExportOrMerge | src/org.eclipse.cdt.launch.remote.direct/src/org/eclipse/cdt/launch/remote/direct/DirectDebugRemoteFileExportActionDelegate.java:66-89 | with data parsed, the jobs are run up to the first failure and the outcome is the export's; with none, nothing is run and `run` throws exactly when the read status is not OK |
| LaunchDelegate.FindExportDescription | src/org.eclipse.cdt.launch.remote.direct/src/org/eclipse/cdt/launch/remote/direct/DirectRemoteDebugLaunchDelegate.java:92-101 | no member is found exactly when no root member's name ends with ".rexpfd"; otherwise the first such member is found |
| LaunchDelegate.NonEmptyLines | src/org.eclipse.cdt.launch.remote.direct/src/org/eclipse/cdt/launch/remote/direct/DirectRemoteDebugLaunchDelegate.java:160-163 | the lines kept are all non-empty |
| LaunchDelegate.EventBufferIsNonEmptyLines | src/org.eclipse.cdt.launch.remote.direct/src/org/eclipse/cdt/launch/remote/direct/DirectRemoteDebugLaunchDelegate.java:175-190 | the listener's new content is the non-empty lines of the event, each followed by the line separator |
| LaunchDelegate.EventStepAppend | src/org.eclipse.cdt.launch.remote.direct/src/org/eclipse/cdt/launch/remote/direct/DirectRemoteDebugLaunchDelegate.java:158-177 | processing an event's lines in two parts, one after the other, is processing them all |
| LaunchDelegate.EventBufferAppend | src/org.eclipse.cdt.launch.remote.direct/src/org/eclipse/cdt/launch/remote/direct/DirectRemoteDebugLaunchDelegate.java:175-190 | the content of two parts of an event is the first part's content followed by the second's |
| LaunchDelegate.EmptyLineSkipped | src/org.eclipse.cdt.launch.remote.direct/src/org/eclipse/cdt/launch/remote/direct/DirectRemoteDebugLaunchDelegate.java:160-163 | an empty line changes neither the listener's state nor its content |
| LaunchDelegate.EventStepMonotone | src/org.eclipse.cdt.launch.remote.direct/src/org/eclipse/cdt/launch/remote/direct/DirectRemoteDebugLaunchDelegate.java:165-173 | the ready flag, once set, stays set; once the banner latch is set, further lines change nothing |
| LaunchDelegate.EventStepKeepsLatch | src/org.eclipse.cdt.launch.remote.direct/src/org/eclipse/cdt/launch/remote/direct/DirectRemoteDebugLaunchDelegate.java:165-173 | when the ready flag follows the latch before an event, it still does after it |
| LaunchDelegate.FirstBannerSetsVersion | src/org.eclipse.cdt.launch.remote.direct/src/org/eclipse/cdt/launch/remote/direct/DirectRemoteDebugLaunchDelegate.java:165-173 | before the latch is set, an event sets latch and ready flag exactly when one of its lines holds gdb's banner, and the version is read from the first such line |
| LaunchDelegate.EventsStepMonotone | src/org.eclipse.cdt.launch.remote.direct/src/org/eclipse/cdt/launch/remote/direct/DirectRemoteDebugLaunchDelegate.java:151-194 | across any number of events the ready flag stays set, a set latch freezes the state, and ready keeps following the latch |
| LaunchDelegate.ShellOutputListener.constructor | src/org.eclipse.cdt.launch.remote.direct/src/org/eclipse/cdt/launch/remote/direct/DirectRemoteDebugLaunchDelegate.java:151-153 | a new listener has its owner, its ready flag, version parser and line separator, and no latch |
| LaunchDelegate.ShellOutputListener.ShellOutputChanged | src/org.eclipse.cdt.launch.remote.direct/src/org/eclipse/cdt/launch/remote/direct/DirectRemoteDebugLaunchDelegate.java:157-193 | after an event, the latch, the ready flag and the owner's version are those of processing the event's lines, and the new content is the event's non-empty lines, each terminated |
| LaunchDelegate.WaitStep | src/org.eclipse.cdt.launch.remote.direct/src/org/eclipse/cdt/launch/remote/direct/DirectRemoteDebugLaunchDelegate.java:201-229 | the wait loop leaves exactly when gdb is ready, aborts exactly when it is not ready and the monitor is cancelled or the shell inactive, and waits otherwise |
| LaunchDelegate.WaitRunOutcomes | src/org.eclipse.cdt.launch.remote.direct/src/org/eclipse/cdt/launch/remote/direct/DirectRemoteDebugLaunchDelegate.java:201-229 | the wait ends with gdb ready exactly when the ready flag is set; it aborts only after a pass that saw cancellation or an inactive shell; the ready flag keeps following the latch |
| LaunchDelegate.CancelledBeforeBannerAborts | src/org.eclipse.cdt.launch.remote.direct/src/org/eclipse/cdt/launch/remote/direct/DirectRemoteDebugLaunchDelegate.java:202-203 | a monitor cancelled at the first pass, before the banner, aborts the wait with the listener state unchanged |
| LaunchDelegate.SourceLookupDirector.constructor | src/org.eclipse.cdt.launch.remote.direct/src/org/eclipse/cdt/launch/remote/direct/DirectRemoteDebugLaunchDelegate.java:258-259 | a director holds the containers it was given |
| LaunchDelegate.MappingsZero | src/org.eclipse.cdt.launch.remote.direct/src/org/eclipse/cdt/launch/remote/direct/DirectRemoteDebugLaunchDelegate.java:264-269 | no container is a path mapping exactly when the count of mapping containers is zero |
| LaunchDelegate.InjectedShape | src/org.eclipse.cdt.launch.remote.direct/src/org/eclipse/cdt/launch/remote/direct/DirectRemoteDebugLaunchDelegate.java:256-291 | existing mapping containers, a missing project or an empty remote workspace leave the containers as they are; otherwise one mapping from the remote workspace to the project location is appended, and the count of mappings becomes one |
| LaunchDelegate.InjectedIdempotent | src/org.eclipse.cdt.launch.remote.direct/src/org/eclipse/cdt/launch/remote/direct/DirectRemoteDebugLaunchDelegate.java:256-291 | asking for the source locator again changes nothing, so there is never more than one injected mapping |
| LaunchDelegate.GetSourceLocator | src/org.eclipse.cdt.launch.remote.direct/src/org/eclipse/cdt/launch/remote/direct/DirectRemoteDebugLaunchDelegate.java:256-291 | the director's containers become the injected containers: the old ones, followed by the mapping container if none is recognised, the launch has a C project and the remote workspace is non-empty; a container is recognised only when its name is the plugin's own constant object, as the source compares names with `==` |
| LaunchDelegate.EqualNameNotRecognised | src/org.eclipse.cdt.launch.remote.direct/src/org/eclipse/cdt/launch/remote/direct/DirectRemoteDebugLaunchDelegate.java:264-289 | a container whose name equals the mapping name but is another String object (one restored from a saved configuration) is not recognised, and a second mapping container is appended after it |
| LaunchDelegate.DestroyedAppend | src/org.eclipse.cdt.launch.remote.direct/src/org/eclipse/cdt/launch/remote/direct/DirectRemoteDebugLaunchDelegate.java:231-242 | destroy events are counted additively |
| LaunchDelegate.UploadDestroysNothing | src/org.eclipse.cdt.launch.remote.direct/src/org/eclipse/cdt/launch/remote/direct/DirectRemoteDebugLaunchDelegate.java:87-111 | uploading the sources never destroys a remote process |
| LaunchDelegate.LaunchCleanup | src/org.eclipse.cdt.launch.remote.direct/src/org/eclipse/cdt/launch/remote/direct/DirectRemoteDebugLaunchDelegate.java:114-243 | the remote process is destroyed exactly once when the launch fails after gdb was started in a shell (gdb never became ready, or the GDB launch failed) and never otherwise |
| LaunchDelegate.DestroysOnlyCreatedProcess | src/org.eclipse.cdt.launch.remote.direct/src/org/eclipse/cdt/launch/remote/direct/DirectRemoteDebugLaunchDelegate.java:129-242 | only a launch that created the remote process (gdb started in a shell and the adapter wrapped it) destroys one, and only when it then fails; a launch that created it destroys it exactly when it fails |
| LaunchDelegate.ProcessHasItsShell | src/org.eclipse.cdt.launch.remote.direct/src/org/eclipse/cdt/launch/remote/direct/DirectRemoteDebugLaunchDelegate.java:131-200 | a remote process exists only beside the shell it was started in; after a failed shell start the previous launch's shell is still the delegate's shell while there is no remote process |
| LaunchDelegate.UnavailableProjectAborts | src/org.eclipse.cdt.launch.remote.direct/src/org/eclipse/cdt/launch/remote/direct/DirectRemoteDebugLaunchDelegate.java:87-92 | a launch whose configuration names no C project, or whose project cannot list its members, aborts before the export action with nothing recorded, and keeps its remote process and shell |
| LaunchDelegate.LaunchUsesBannerVersion | src/org.eclipse.cdt.launch.remote.direct/src/org/eclipse/cdt/launch/remote/direct/DirectRemoteDebugLaunchDelegate.java:165-173 | a launch that succeeds after a shell start hands the GDB launch the version parsed from gdb's banner |
| LaunchDelegate.RemoteDebugLaunchDelegate.constructor | src/org.eclipse.cdt.launch.remote.direct/src/org/eclipse/cdt/launch/remote/direct/DirectRemoteDebugLaunchDelegate.java:56-59 | a new delegate has an empty version, no remote shell, no remote process and no events |
| LaunchDelegate.RemoteDebugLaunchDelegate.UploadSourceCode | src/org.eclipse.cdt.launch.remote.direct/src/org/eclipse/cdt/launch/remote/direct/DirectRemoteDebugLaunchDelegate.java:87-111 | the export action runs on the first ".rexpfd" member's descriptions, and only if there is one; its activity and outcome are the run specification's |
| LaunchDelegate.RemoteDebugLaunchDelegate.WaitForGdb | src/org.eclipse.cdt.launch.remote.direct/src/org/eclipse/cdt/launch/remote/direct/DirectRemoteDebugLaunchDelegate.java:201-229 | the result and the listener state are those of the wait specification (`WaitRun`); an abort destroys the process and asks for shutdown when the executor accepts it; otherwise nothing is recorded |
| LaunchDelegate.ShellLaunchPrefix | src/org.eclipse.cdt.launch.remote.direct/src/org/eclipse/cdt/launch/remote/direct/DirectRemoteDebugLaunchDelegate.java:131-242 | what happened before the shell starts stays, unchanged, ahead of everything the rest of the launch records, and the outcome and version do not depend on it |
| LaunchDelegate.RemoteDebugLaunchDelegate.LaunchAfterUpload | src/org.eclipse.cdt.launch.remote.direct/src/org/eclipse/cdt/launch/remote/direct/DirectRemoteDebugLaunchDelegate.java:131-242 | after the upload, the events, outcome and version are those of the post-upload specification (`ShellLaunch`): a failed shell start, no shell (straight to the GDB launch), a failed adapter, the wait, then the GDB launch; the remote process is reset and exists afterwards exactly when gdb started in a shell and the adapter wrapped it; the remote shell becomes the started one, or none when no shell was returned, and is kept when the start throws |
| LaunchDelegate.RemoteDebugLaunchDelegate.GdbLaunchWithCleanup | src/org.eclipse.cdt.launch.remote.direct/src/org/eclipse/cdt/launch/remote/direct/DirectRemoteDebugLaunchDelegate.java:231-242 | the GDB launch is recorded with the current version; when it fails, the remote process is destroyed if there is one and the launch fails, and otherwise it succeeds |
| LaunchDelegate.RemoteDebugLaunchDelegate.Launch | src/org.eclipse.cdt.launch.remote.direct/src/org/eclipse/cdt/launch/remote/direct/DirectRemoteDebugLaunchDelegate.java:114-243 | the events, the outcome and the new version are those of the launch specification (`LaunchSpec`): an interrupted wait for RSE's initialisation, upload, shell start, adapter, wait, and the GDB launch with its cleanup; the remote process keeps its old value when the launch stops before its reset (interrupted initialisation, or an upload that threw) and otherwise exists exactly when gdb started in a shell and the adapter wrapped it; the remote shell is likewise kept when the launch stops before the shell start or the start throws, and is otherwise the shell returned, or none |

## Left out

- The wait for RSE's initialisation (lines 117-126 of the launch delegate) is one flag of the launch environment, `initInterrupted`, which stops the launch with `InitInterrupted` before the upload; whether initialisation was already complete and the monitor's sub-task are folded into that flag.
- A missing C project (the `NullPointerException` of `getCProject(config).getProject()`, line 89 of the launch delegate) and a failing `members()` (line 92) are one flag of the launch environment, `projectUnavailable`, which stops the launch with `ProjectUnavailable` before the export action runs.
- Connecting to the remote host through RSE (`RSEHelper.execCmdInRemoteShell`, lines 137-142 of the launch delegate) is not modelled; its outcome is the shell start given in the launch environment.
- Threads are left out: `synchronized`, `lock.wait(500)` and `notifyAll`, and the listener's own thread. Shell output reaches the listener only during the wait passes listed in the environment's ticks.
- `execCmdInRemoteShell`, `HostShellProcessAdapter` and `RSEHelper.abort` become outcomes (`ShellFails`, `NoShell`, `AdapterFailed`). The shutdown runnable becomes a flag saying whether the DSF executor accepts it.
- The progress monitor's calls (`subTask`, `setTaskName`, `done`) and the `SubProgressMonitor` given to `execCmdInRemoteShell` are not modelled; only its cancellation is, through the ticks.
- `getGDBVersionFromText` is a function parameter (`versionOf`), since its parsing lives in CDT.
- `super.launch` is one outcome in the launch environment. `super.getSourceLocator` is the director it returns. `newServiceFactory`, `checkBinaryDetails` and `getPluginID` do nothing of interest and are left out.
- Export descriptions are not parsed. What parsing yields is given as data (`Reader`): a read failure, a status, a close failure, the export data.
- `DirectDebugRemoteFileExportOperation` is not part of this model. Each job's outcome is given in its export data. The synchronizer review is an `Activity` event.
- `MultiStatus` keeps only its children and its severity.
- The UI side is not modelled: `DummyAction`, `selectionChanged`, the shell and `getCurrentSelectedProject`. The description files of a selection are given with each root member.
- The test of a description's file extension uses `equals` (line 109 of the export action) and is modelled as string equality.
- `getGDBVersion` (lines 251-253 of the launch delegate) only returns the `version` field; the model records that value in the `GdbLaunchStarted` event of the GDB launch instead.
- The remote shell (`remoteShell`, exposed by `getShell` and handed to the services factory) is a handle given by the launch environment (`shellHandle`); the shell's own behaviour is not modelled.
- The read status's message never leaves `run`: the problem dialog is commented out and the exception thrown carries a fixed text. The ghost field `readMessage` records the message.
- `toOSString` is treated as `toString` on the path.
- Failures of `upload`, `getOutputStream`, `mkdir` and the remote streams' `write` and `close` are not modelled, because these calls go to the remote subsystem, whose code is not part of this model. Failures of `file.getCharset()` (line 94 of the exporter) and of the local `instream.close()` are not modelled either; in the source the latter would skip `outstream.close()`.
- `getEncoding` and `getIRemoteFile` are abstract: the host carries its separator and encoding.
- A missing host in `writeFile` (a `NullPointerException` in the source) is the `NoFileSubSystem` failure.
- LaunchDelegate.RemoteDebugLaunchDelegate.Launch: waits over a finite list of ticks. `Pending` stands for a wait that has not ended when the ticks run out, so an unbounded wait is not modelled.
- LaunchDelegate.ShellOutputListener.ShellOutputChanged: returns the new content instead of writing it anywhere, as the source only builds the string.
- LaunchDelegate.GetSourceLocator: the source compares a container's name with the mapping-name constant by reference (`==`, line 265 of the launch delegate). The model records in `constantName` whether a container's name is that String object. A container restored from a saved configuration, with an equal but distinct name, is not recognised, and a second mapping is appended (`EqualNameNotRecognised`). `InjectedIdempotent` holds because the container the delegate builds carries the constant itself. The project location is `None` when the launch has no C project; a C project whose location is null, which the source maps anyway, is not represented.
