/**
 * The export batch coordinator behind the "export" action: it reads every selected
 * export description into a read status, runs one export job per description that
 * parsed, and turns failures into exceptions.
 */
module ExportAction {
  import opened Common

  // ---------------------------------------------------------------- statuses

  /** `IStatus` severities, ordered by their codes OK=0, INFO=1, WARNING=2, ERROR=4, CANCEL=8. */
  datatype Severity = Ok | Info | Warning | Error | Cancel
  {
    function Code(): nat
    {
      match this
      case Ok => 0
      case Info => 1
      case Warning => 2
      case Error => 4
      case Cancel => 8
    }
  }

  function MaxOf(a: Severity, b: Severity): (m: Severity)
    ensures m.Code() >= a.Code() && m.Code() >= b.Code()
    ensures m == a || m == b
  {
    if b.Code() > a.Code() then b else a
  }

  /** The localized texts involved; the two description texts are formatted with their arguments. */
  datatype Message =
    | Text(text: string)
    | CreateFileFailed
    | CreateFilesFailed
    | DescriptionReadFailed(path: string, reason: Message)
    | DescriptionCloseFailed(path: string)

  datatype Status = Status(severity: Severity, plugin: string, code: int, message: Message)

  /** A `CoreException`: its status and what `getLocalizedMessage()` returns (None for null). */
  datatype CoreException = CoreException(status: Status, localizedMessage: Option<string>)

  /** The severity of a multi-status whose children are `children`: the largest, OK when there are none. */
  function MaxSeverity(children: seq<Status>): Severity
  {
    if children == [] then Ok
    else MaxOf(MaxSeverity(children[..|children| - 1]), children[|children| - 1].severity)
  }

  /** A multi-status is OK exactly when all its children are. */
  lemma {:induction false} MaxSeverityOk(children: seq<Status>)
    ensures MaxSeverity(children) == Ok <==> forall k :: 0 <= k < |children| ==> children[k].severity == Ok
  {
    if children != [] {
      var init := children[..|children| - 1];
      MaxSeverityOk(init);
      assert forall k :: 0 <= k < |init| ==> init[k] == children[k];
    }
  }

  lemma {:induction false} MaxSeverityBounds(children: seq<Status>)
    ensures forall k :: 0 <= k < |children| ==> children[k].severity.Code() <= MaxSeverity(children).Code()
  {
    if children != [] {
      var init := children[..|children| - 1];
      MaxSeverityBounds(init);
      assert forall k :: 0 <= k < |init| ==> init[k] == children[k];
    }
  }

  /** `MultiStatus`: the children added so far and the largest severity among them. */
  class MultiStatus {
    const plugin: string
    const code: int
    const message: Message
    var children: seq<Status>
    var severity: Severity

    ghost predicate Valid()
      reads this
    {
      severity == MaxSeverity(children)
    }

    predicate IsOk()
      reads this
    {
      severity == Ok
    }

    constructor (plugin: string, code: int, message: Message)
      ensures this.plugin == plugin && this.code == code && this.message == message
      ensures children == [] && Valid()
    {
      this.plugin := plugin;
      this.code := code;
      this.message := message;
      children := [];
      severity := Ok;
    }

    /** `add`: appends the status and raises the severity to it when it is higher. */
    method Add(status: Status)
      requires Valid()
      modifies this
      ensures children == old(children) + [status]
      ensures severity == MaxOf(old(severity), status.severity)
      ensures Valid()
    {
      assert (children + [status])[..|children|] == children;
      children := children + [status];
      if status.severity.Code() > severity.Code() {
        severity := status.severity;
      }
    }

    /** `addAll`: adds each child of another status, in order. */
    method AddAll(statuses: seq<Status>)
      requires Valid()
      modifies this
      ensures children == old(children) + statuses
      ensures Valid()
    {
      for i := 0 to |statuses|
        invariant children == old(children) + statuses[..i]
        invariant Valid()
      {
        Add(statuses[i]);
        assert statuses[..i + 1] == statuses[..i] + [statuses[i]];
      }
    }
  }

  /**
   * The entry `addToStatus` adds for a caught exception: the exception's own status,
   * or, when its localized message is null or empty, a copy of that status carrying
   * `defaultMessage`.
   */
  function StatusEntry(defaultMessage: Message, ex: CoreException): (s: Status)
    ensures s.severity == ex.status.severity && s.plugin == ex.status.plugin && s.code == ex.status.code
    ensures ex.localizedMessage.Some? && |ex.localizedMessage.value| >= 1 ==> s == ex.status
    ensures ex.localizedMessage.None? || ex.localizedMessage.value == [] ==> s.message == defaultMessage
  {
    if ex.localizedMessage.None? || |ex.localizedMessage.value| < 1 then
      Status(ex.status.severity, ex.status.plugin, ex.status.code, defaultMessage)
    else ex.status
  }

  // ---------------------------------------------------------------- descriptions

  /** The extension of export description files. */
  const ExportDescriptionExtension := "rexpfd"

  /** What running one export job does: it ends with a status, or is interrupted. */
  datatype JobOutcome = Finished(status: Status) | Interrupted

  /** `RemoteFileExportData`, reduced to what the coordinator looks at. */
  datatype ExportData = ExportData(reviewSynchronize: bool, saveSettings: bool, job: JobOutcome)

  /** How the description reader behaves on a description's contents. */
  datatype Reader = Reader(readFailure: Option<CoreException>, status: seq<Status>,
                           closeFailure: Option<CoreException>, data: ExportData)

  datatype Contents = ContentsUnavailable(ex: CoreException) | Contents(reader: Reader)

  /** An export description file in the workspace. */
  datatype Description = Description(fullPath: string, name: string, accessible: bool, contents: Contents)

  /** `IResource.getFileExtension()`: what follows the last '.' of the name, or None without one. */
  function FileExtension(name: string): (ext: Option<string>)
    ensures ext.None? <==> '.' !in name
    ensures ext.Some? ==> EndsWith(name, "." + ext.value) && '.' !in ext.value
  {
    var dot := LastIndexOf(name, '.');
    if dot == -1 then None
    else
      assert name[dot..] == "." + name[dot + 1..];
      Some(name[dot + 1..])
  }

  lemma DescriptionNameHasExtension(name: string)
    requires EndsWith(name, "." + ExportDescriptionExtension)
    ensures FileExtension(name) == Some(ExportDescriptionExtension)
  {
    var n := |name|;
    assert name[n - 7..] == ".rexpfd";
    assert name[n - 7] == '.';
    assert '.' in name;
    var dot := LastIndexOf(name, '.');
    assert forall k :: n - 6 <= k < n ==> name[k] == name[n - 7..][k - (n - 7)] != '.';
    assert dot == n - 7;
    assert name[dot + 1..] == name[n - 7..][1..];
  }

  /** The descriptions `readExportData` accepts; any other one fails an `Assert.isLegal`/`isNotNull`. */
  predicate Legal(d: Description)
  {
    d.accessible && FileExtension(d.name) == Some(ExportDescriptionExtension)
  }

  predicate Illegal(d: Description)
  {
    !Legal(d)
  }

  /** What reading one legal description adds to the read status, yields, and whether a reader was closed. */
  datatype DescriptionRead = DescriptionRead(entries: seq<Status>, data: Option<ExportData>, readerClosed: bool)

  /** The entry for a failed attempt to get or parse the contents, if there was one. */
  function ReadFailedEntries(path: string, failure: Option<CoreException>): seq<Status>
  {
    match failure
    case None => []
    case Some(ex) => [StatusEntry(DescriptionReadFailed(path, ex.status.message), ex)]
  }

  /** The entry for a failed `close` of the reader, if there was one. */
  function CloseFailedEntries(path: string, failure: Option<CoreException>): seq<Status>
  {
    match failure
    case None => []
    case Some(ex) => [StatusEntry(DescriptionCloseFailed(path), ex)]
  }

  function ReadOne(d: Description): DescriptionRead
  {
    match d.contents
    case ContentsUnavailable(ex) => DescriptionRead(ReadFailedEntries(d.fullPath, Some(ex)), None, false)
    case Contents(reader) =>
      DescriptionRead(ReadFailedEntries(d.fullPath, reader.readFailure) + reader.status +
                        CloseFailedEntries(d.fullPath, reader.closeFailure),
                      if reader.readFailure.Some? then None else Some(reader.data.(saveSettings := false)),
                      true)
  }

  /** The exception that stops reading a description: getting its contents, or parsing them. */
  function ReadFailure(d: Description): Option<CoreException>
  {
    match d.contents
    case ContentsUnavailable(ex) => Some(ex)
    case Contents(reader) => reader.readFailure
  }

  /**
   * The outcomes of reading one description: it yields nothing exactly when getting or
   * parsing its contents failed, and then the first entry added reports that failure;
   * what it yields never saves settings again; whenever a reader was created its own
   * status is merged and it is closed.
   */
  lemma ReadOneOutcomes(d: Description)
    ensures ReadOne(d).data.None? <==> ReadFailure(d).Some?
    ensures ReadOne(d).data.None? ==>
              |ReadOne(d).entries| >= 1 &&
              ReadOne(d).entries[0] ==
                StatusEntry(DescriptionReadFailed(d.fullPath, ReadFailure(d).value.status.message), ReadFailure(d).value)
    ensures ReadOne(d).data.Some? ==> !ReadOne(d).data.value.saveSettings
    ensures ReadOne(d).readerClosed <==> d.contents.Contents?
    ensures d.contents.Contents? ==>
              var rs := d.contents.reader.status;
              var i := if d.contents.reader.readFailure.Some? then 1 else 0;
              i + |rs| <= |ReadOne(d).entries| && ReadOne(d).entries[i..i + |rs|] == rs
  {
  }

  /** The results of `readExportDatas` over some descriptions, all of them legal. */
  datatype Batch = Batch(datas: seq<ExportData>, entries: seq<Status>, closed: seq<string>)

  function Combine(a: Batch, b: Batch): Batch
  {
    Batch(a.datas + b.datas, a.entries + b.entries, a.closed + b.closed)
  }

  lemma CombineAssociative(x: Batch, y: Batch, z: Batch)
    ensures Combine(Combine(x, y), z) == Combine(x, Combine(y, z))
  {
    Associative(x.datas, y.datas, z.datas);
    Associative(x.entries, y.entries, z.entries);
    Associative(x.closed, y.closed, z.closed);
  }

  function Single(d: Description): Batch
  {
    var r := ReadOne(d);
    Batch(if r.data.Some? then [r.data.value] else [], r.entries, if r.readerClosed then [d.fullPath] else [])
  }

  function ReadAll(ds: seq<Description>): Batch
  {
    if ds == [] then Batch([], [], [])
    else Combine(ReadAll(ds[..|ds| - 1]), Single(ds[|ds| - 1]))
  }

  /** A legal description at a position before the first illegal one moves that bound on. */
  lemma FirstPassesLegal(ds: seq<Description>, i: nat)
    requires i < |ds| && i <= First(ds, Illegal) && Legal(ds[i])
    ensures i + 1 <= First(ds, Illegal)
  {
  }

  /** An illegal description at or before the first illegal one is that one. */
  lemma FirstStopsAtIllegal(ds: seq<Description>, i: nat)
    requires i < |ds| && i <= First(ds, Illegal) && !Legal(ds[i])
    ensures First(ds, Illegal) == i
  {
  }

  /**
   * Reading one more description adds its data, its entries and its closed reader
   * after those read so far.
   */
  lemma ReadAllStep(ds: seq<Description>, i: nat, children: seq<Status>, activity: seq<Activity>)
    requires i < |ds|
    ensures var before, after, r := ReadAll(ds[..i]), ReadAll(ds[..i + 1]), ReadOne(ds[i]);
            after.datas == before.datas + (if r.data.Some? then [r.data.value] else []) &&
            children + after.entries == (children + before.entries) + r.entries &&
            activity + ReadActivity(after.closed) ==
              (activity + ReadActivity(before.closed)) + ReadActivity(Single(ds[i]).closed)
  {
    assert ds[..i + 1][..i] == ds[..i];
    var before, one := ReadAll(ds[..i]), Single(ds[i]);
    Associative(children, before.entries, one.entries);
    ReadActivityAppend(before.closed, one.closed);
    Associative(activity, ReadActivity(before.closed), ReadActivity(one.closed));
  }

  /** Reading a concatenation of description lists reads the first, then the second. */
  lemma {:induction false} ReadAllAppend(a: seq<Description>, b: seq<Description>)
    ensures ReadAll(a + b) == Combine(ReadAll(a), ReadAll(b))
    decreases |b|
  {
    if b == [] {
      assert a + b == a;
    } else {
      var init := b[..|b| - 1];
      assert (a + b)[..|a + b| - 1] == a + init;
      assert (a + b)[|a + b| - 1] == b[|b| - 1];
      ReadAllAppend(a, init);
      CombineAssociative(ReadAll(a), ReadAll(init), Single(b[|b| - 1]));
    }
  }

  /**
   * The data read are exactly those of the descriptions that yielded data, in input
   * order, none of them saving settings again.
   */
  /** What each description contributes to the data, one part per description. */
  function DataParts(ds: seq<Description>): (parts: seq<seq<ExportData>>)
    ensures |parts| == |ds|
  {
    seq(|ds|, k requires 0 <= k < |ds| => Single(ds[k]).datas)
  }

  lemma DataPartsInit(ds: seq<Description>)
    requires ds != []
    ensures DataParts(ds) == DataParts(ds[..|ds| - 1]) + [Single(ds[|ds| - 1]).datas]
  {
  }

  lemma {:induction false} ReadAllFilters(ds: seq<Description>)
    ensures ReadAll(ds).datas == Flatten(DataParts(ds))
    ensures forall x :: x in ReadAll(ds).datas ==> !x.saveSettings
    ensures |ReadAll(ds).datas| <= |ds|
  {
    if ds != [] {
      var init, last := ds[..|ds| - 1], Single(ds[|ds| - 1]).datas;
      ReadAllFilters(init);
      DataPartsInit(ds);
      FlattenAppend(DataParts(init), [last]);
      assert Flatten([last]) == last;
      ReadOneOutcomes(ds[|ds| - 1]);
    }
  }

  // ---------------------------------------------------------------- jobs

  /** A job that makes `export` throw: a non-review job that was interrupted or ended not OK. */
  predicate JobFails(d: ExportData)
  {
    !d.reviewSynchronize && (d.job.Interrupted? || d.job.status.severity != Ok)
  }

  /** What the coordinator does with one export data: start a review, or run an export job. */
  datatype Activity = ReaderClosed(path: string) | Reviewed(data: ExportData) | Exported(data: ExportData)

  function JobActivity(d: ExportData): Activity
  {
    if d.reviewSynchronize then Reviewed(d) else Exported(d)
  }

  function JobsActivity(datas: seq<ExportData>): seq<Activity>
  {
    seq(|datas|, k requires 0 <= k < |datas| => JobActivity(datas[k]))
  }

  function Attempted(datas: seq<ExportData>): seq<ExportData>
  {
    datas[..if First(datas, JobFails) < |datas| then First(datas, JobFails) + 1 else |datas|]
  }

  /** How `export` ends when it does not return: it throws, carrying the failed job's status (null if interrupted). */
  datatype ExportResult = Completed | Failed(status: Option<Status>)

  function ExportOutcome(datas: seq<ExportData>): ExportResult
  {
    var f := First(datas, JobFails);
    if f == |datas| then Completed
    else if datas[f].job.Interrupted? then Failed(None)
    else Failed(Some(datas[f].job.status))
  }

  /**
   * `export` tries the jobs in order up to and including the first failing one and no
   * further; it throws exactly when some job fails.
   */
  lemma ExportStopsAtFirstFailure(datas: seq<ExportData>)
    ensures ExportOutcome(datas).Completed? <==> forall k :: 0 <= k < |datas| ==> !JobFails(datas[k])
    ensures ExportOutcome(datas).Completed? ==> Attempted(datas) == datas
    ensures ExportOutcome(datas).Failed? ==>
              |Attempted(datas)| >= 1 && JobFails(Attempted(datas)[|Attempted(datas)| - 1]) &&
              forall k :: 0 <= k < |Attempted(datas)| - 1 ==> !JobFails(Attempted(datas)[k])
  {
  }

  // ---------------------------------------------------------------- run

  /**
   * What `run` throws. `AssertionFailed` stands for both exceptions of the legality test of a
   * description: the `IllegalArgumentException` of `Assert.isLegal` and the
   * `AssertionFailedException` of `Assert.isNotNull`.
   */
  datatype Thrown = AssertionFailed | ExportFailed(status: Option<Status>) | MergedStatusNotOk
  datatype RunOutcome = Returned | Threw(ex: Thrown)

  /** The read status message of `run`: the plural text when more than one description is read. */
  function ReadStatusMessage(n: nat): (m: Message)
    ensures m == CreateFilesFailed <==> n > 1
    ensures m == CreateFileFailed <==> n <= 1
  {
    if n > 1 then CreateFilesFailed else CreateFileFailed
  }

  function ReadActivity(closed: seq<string>): seq<Activity>
  {
    seq(|closed|, k requires 0 <= k < |closed| => ReaderClosed(closed[k]))
  }

  lemma ReadActivityAppend(a: seq<string>, b: seq<string>)
    ensures ReadActivity(a + b) == ReadActivity(a) + ReadActivity(b)
  {
  }

  /** Everything `run` does on some descriptions, and how it ends. */
  datatype RunResult = RunResult(activity: seq<Activity>, outcome: RunOutcome)

  function RunSpec(ds: seq<Description>): RunResult
  {
    if |ds| < 1 then RunResult([], Returned)
    else
      var bad := First(ds, Illegal);
      if bad < |ds| then RunResult(ReadActivity(ReadAll(ds[..bad]).closed), Threw(AssertionFailed))
      else
        var batch := ReadAll(ds);
        if |batch.datas| > 0 then
          RunResult(ReadActivity(batch.closed) + JobsActivity(Attempted(batch.datas)),
                    match ExportOutcome(batch.datas)
                    case Completed => Returned
                    case Failed(s) => Threw(ExportFailed(s)))
        else
          RunResult(ReadActivity(batch.closed),
                    if MaxSeverity(batch.entries) == Ok then Returned else Threw(MergedStatusNotOk))
  }

  /** With no description files `run` returns at once, having read and exported nothing. */
  lemma RunWithoutDescriptions()
    ensures RunSpec([]) == RunResult([], Returned)
  {
  }

  /**
   * Once at least one legal description parsed, `run` ends as the export does, whatever
   * the read status says: it returns normally exactly when no job failed.
   */
  lemma RunIgnoresReadStatusAfterExport(ds: seq<Description>)
    requires forall k :: 0 <= k < |ds| ==> Legal(ds[k])
    requires |ReadAll(ds).datas| > 0
    ensures RunSpec(ds).outcome == Returned <==>
              forall k :: 0 <= k < |ReadAll(ds).datas| ==> !JobFails(ReadAll(ds).datas[k])
  {
    ExportStopsAtFirstFailure(ReadAll(ds).datas);
  }

  /** When nothing parsed, `run` throws exactly when some entry of the read status is not OK. */
  lemma RunWithNothingParsed(ds: seq<Description>)
    requires |ds| >= 1 && forall k :: 0 <= k < |ds| ==> Legal(ds[k])
    requires ReadAll(ds).datas == []
    ensures RunSpec(ds).outcome == Threw(MergedStatusNotOk) <==>
              exists k :: 0 <= k < |ReadAll(ds).entries| && ReadAll(ds).entries[k].severity != Ok
    ensures RunSpec(ds).outcome != Threw(MergedStatusNotOk) ==> RunSpec(ds).outcome == Returned
  {
    MaxSeverityOk(ReadAll(ds).entries);
  }

  /** An illegal description aborts `run` before any job starts, whatever the descriptions after it. */
  lemma IllegalDescriptionAborts(ds: seq<Description>, k: nat)
    requires k < |ds| && !Legal(ds[k])
    ensures RunSpec(ds).outcome == Threw(AssertionFailed)
    ensures forall a :: a in RunSpec(ds).activity ==> a.ReaderClosed?
  {
  }

  /** The coordinator: what it has done so far is its activity. */
  class ExportActionDelegate {
    /** The symbolic name of the import/export plugin, used for the read status. */
    const pluginId: string
    var activity: seq<Activity>
    /** The message of the read status the last `run` built, which never leaves `run`. */
    ghost var readMessage: Option<Message>

    constructor (pluginId: string)
      ensures this.pluginId == pluginId && activity == [] && readMessage == None
    {
      this.pluginId := pluginId;
      activity := [];
      readMessage := None;
    }

    method AddToStatus(multiStatus: MultiStatus, defaultMessage: Message, ex: CoreException)
      requires multiStatus.Valid()
      modifies multiStatus
      ensures multiStatus.children == old(multiStatus.children) + [StatusEntry(defaultMessage, ex)]
      ensures multiStatus.Valid()
    {
      var status := ex.status;
      var message := ex.localizedMessage;
      if message.None? || |message.value| < 1 {
        status := Status(status.severity, status.plugin, status.code, defaultMessage);
      }
      multiStatus.Add(status);
    }

    /** `readExportData` on a legal description; an illegal one throws before anything happens. */
    method ReadExportData(description: Description, readStatus: MultiStatus) returns (illegal: bool, data: Option<ExportData>)
      requires readStatus.Valid()
      modifies this, readStatus
      ensures illegal <==> !Legal(description)
      ensures illegal ==> activity == old(activity) && readStatus.children == old(readStatus.children)
      ensures !illegal ==>
                data == ReadOne(description).data &&
                readStatus.children == old(readStatus.children) + ReadOne(description).entries &&
                activity == old(activity) + ReadActivity(Single(description).closed)
      ensures readStatus.Valid()
    {
      if !description.accessible || FileExtension(description.name) != Some(ExportDescriptionExtension) {
        return true, None;
      }
      illegal := false;
      var path := description.fullPath;
      match description.contents
      case ContentsUnavailable(ex) =>
        AddToStatus(readStatus, DescriptionReadFailed(path, ex.status.message), ex);
        data := None;
        assert Single(description).closed == [];
      case Contents(reader) =>
        ghost var start := readStatus.children;
        if reader.readFailure.Some? {
          var ex := reader.readFailure.value;
          AddToStatus(readStatus, DescriptionReadFailed(path, ex.status.message), ex);
          data := None;
        } else {
          data := Some(reader.data.(saveSettings := false));
        }
        ghost var failed := ReadFailedEntries(path, reader.readFailure);
        assert readStatus.children == start + failed;
        readStatus.AddAll(reader.status);
        ghost var mid := readStatus.children;
        if reader.closeFailure.Some? {
          AddToStatus(readStatus, DescriptionCloseFailed(path), reader.closeFailure.value);
        }
        ghost var closing := CloseFailedEntries(path, reader.closeFailure);
        assert readStatus.children == mid + closing;
        Associative(start, failed, reader.status);
        Associative(start, failed + reader.status, closing);
        activity := activity + [ReaderClosed(path)];
        assert ReadActivity(Single(description).closed) == [ReaderClosed(path)];
    }

    /** `readExportDatas`: reads the descriptions in order and keeps the data that were read. */
    method ReadExportDatas(descriptions: seq<Description>, readStatus: MultiStatus)
      returns (illegal: bool, datas: seq<ExportData>)
      requires readStatus.Valid()
      modifies this, readStatus
      ensures var bad := First(descriptions, Illegal);
              illegal == (bad < |descriptions|) &&
              readStatus.children == old(readStatus.children) + ReadAll(descriptions[..bad]).entries &&
              activity == old(activity) + ReadActivity(ReadAll(descriptions[..bad]).closed) &&
              (!illegal ==> datas == ReadAll(descriptions).datas)
      ensures readStatus.Valid()
    {
      datas := [];
      ghost var bad := First(descriptions, Illegal);
      ghost var batch := Batch([], [], []);
      var i := 0;
      while i < |descriptions|
        invariant 0 <= i <= bad <= |descriptions|
        invariant batch == ReadAll(descriptions[..i])
        invariant datas == batch.datas
        invariant readStatus.children == old(readStatus.children) + batch.entries
        invariant activity == old(activity) + ReadActivity(batch.closed)
        invariant readStatus.Valid()
      {
        var data;
        illegal, data := ReadExportData(descriptions[i], readStatus);
        if illegal {
          FirstStopsAtIllegal(descriptions, i);
          return;
        }
        FirstPassesLegal(descriptions, i);
        ReadAllStep(descriptions, i, old(readStatus.children), old(activity));
        if data.Some? {
          datas := datas + [data.value];
        }
        batch := ReadAll(descriptions[..i + 1]);
        i := i + 1;
      }
      assert bad == i && descriptions[..i] == descriptions;
      illegal := false;
    }

    /** `export`: runs the jobs in order and stops at the first one that fails. */
    method Export(datas: seq<ExportData>) returns (result: ExportResult)
      modifies this
      ensures activity == old(activity) + JobsActivity(Attempted(datas))
      ensures result == ExportOutcome(datas)
    {
      for i := 0 to |datas|
        invariant forall k :: 0 <= k < i ==> !JobFails(datas[k])
        invariant activity == old(activity) + JobsActivity(datas[..i])
      {
        var exportData := datas[i];
        assert JobsActivity(datas[..i + 1]) == JobsActivity(datas[..i]) + [JobActivity(exportData)];
        if exportData.reviewSynchronize {
          activity := activity + [Reviewed(exportData)];
        } else {
          activity := activity + [Exported(exportData)];
          var status: Option<Status> := None;
          var isSuccess := true;
          match exportData.job {
            case Interrupted =>
              isSuccess := false;
            case Finished(s) =>
              status := Some(s);
              if s.severity != Ok {
                isSuccess := false;
              }
          }
          if !isSuccess {
            assert First(datas, JobFails) == i;
            return Failed(status);
          }
        }
      }
      assert datas[..|datas|] == datas;
      return Completed;
    }

    /** `run` on the description files of the selection. */
    method Run(descriptions: seq<Description>) returns (outcome: RunOutcome)
      modifies this
      ensures activity == old(activity) + RunSpec(descriptions).activity
      ensures outcome == RunSpec(descriptions).outcome
      ensures readMessage == if |descriptions| >= 1 then Some(ReadStatusMessage(|descriptions|)) else old(readMessage)
    {
      var length := |descriptions|;
      if length < 1 {
        return Returned;
      }
      var message := ReadStatusMessage(length);
      var readStatus := new MultiStatus(pluginId, 0, message);
      outcome := ReadAndExport(descriptions, readStatus);
      readMessage := Some(readStatus.message);
    }

    /** The rest of `run` once the read status is built: read the descriptions, then export or merge. */
    method ReadAndExport(descriptions: seq<Description>, readStatus: MultiStatus) returns (outcome: RunOutcome)
      requires |descriptions| >= 1
      requires readStatus.Valid() && readStatus.children == []
      modifies this, readStatus
      ensures activity == old(activity) + RunSpec(descriptions).activity
      ensures outcome == RunSpec(descriptions).outcome
    {
      var illegal, exportDatas := ReadExportDatas(descriptions, readStatus);
      ghost var bad := First(descriptions, Illegal);
      assert readStatus.children == [] + ReadAll(descriptions[..bad]).entries;
      if illegal {
        assert RunSpec(descriptions) == RunResult(ReadActivity(ReadAll(descriptions[..bad]).closed), Threw(AssertionFailed));
        return Threw(AssertionFailed);
      }
      assert descriptions[..bad] == descriptions;
      ghost var batch := ReadAll(descriptions);
      ghost var reading := activity;
      assert reading == old(activity) + ReadActivity(batch.closed);
      outcome := ExportOrMerge(batch, exportDatas, readStatus);
      if |exportDatas| > 0 {
        Associative(old(activity), ReadActivity(batch.closed), JobsActivity(Attempted(batch.datas)));
      } else {
        assert activity == reading + [];
      }
    }

    /** The end of `run`: export what was read, or, when nothing was, test the read status. */
    method ExportOrMerge(ghost batch: Batch, exportDatas: seq<ExportData>, readStatus: MultiStatus) returns (outcome: RunOutcome)
      requires exportDatas == batch.datas
      requires readStatus.Valid() && readStatus.children == batch.entries
      modifies this
      ensures activity == old(activity) + if |exportDatas| > 0 then JobsActivity(Attempted(exportDatas)) else []
      ensures |exportDatas| > 0 ==> outcome == match ExportOutcome(exportDatas)
                                               case Completed => Returned
                                               case Failed(s) => Threw(ExportFailed(s))
      ensures |exportDatas| == 0 ==> outcome == if MaxSeverity(batch.entries) == Ok then Returned else Threw(MergedStatusNotOk)
    {
      if |exportDatas| > 0 {
        var result := Export(exportDatas);
        if result.Failed? {
          return Threw(ExportFailed(result.status));
        }
        // `export` returned null: `run` returns here, so the merged status is never built.
        return Returned;
      }
      assert readStatus.severity == MaxSeverity(batch.entries);
      if !readStatus.IsOk() {
        return Threw(MergedStatusNotOk);
      }
      assert activity == old(activity) + [];
      return Returned;
    }
  }
}
