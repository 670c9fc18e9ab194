/**
 * What the resource-tree uploader guarantees: the separator translation and the
 * parent/file split of a destination, the bytes the copy loop writes, and the shape
 * of the trace of a whole walk (how many folders and transfers, where they go, and
 * that a folder always exists before anything is written inside it).
 */
module ExporterProperties {
  import opened Common
  import opened Exporter

  // ---------------------------------------------------------------- destinations

  /** The translated destination: same length, no '/' left once the separator differs, nothing else changed. */
  lemma SeparatorTranslation(dest: string, sep: char)
    ensures |RemoteDestination(dest, sep)| == |dest|
    ensures sep != '/' ==> '/' !in RemoteDestination(dest, sep)
    ensures sep == '/' ==> RemoteDestination(dest, sep) == dest
    ensures forall i :: 0 <= i < |dest| ==>
              RemoteDestination(dest, sep)[i] == (if dest[i] == '/' then sep else dest[i])
  {
  }

  /**
   * The stream transfer opens `remoteFile` in `remoteParent`, the two halves of the
   * translated destination around its last separator.
   */
  lemma StreamTargetSplitsDestination(h: Host, file: Resource, dest: Path)
    requires file.File? && file.location.None?
    requires FileTrace(Some(h), file, dest).effects != []
    ensures var d := RemoteDestination(dest.ToString(), h.separator);
            var a := FileTrace(Some(h), file, dest).effects[0].action;
            a.OpenOutput? && a.remoteParent + [h.separator] + a.remoteFile == d && h.separator !in a.remoteFile
  {
    var d := RemoteDestination(dest.ToString(), h.separator);
    var k := LastIndexOf(d, h.separator);
    StreamCase(h, file, dest);
    assert k != -1;
    StreamOpensFirst(dest, d[..k], d[k + 1..], file.contents);
    SplitAroundLast(d, h.separator);
  }

  lemma SplitAroundLast(d: string, c: char)
    requires c in d
    ensures var k := LastIndexOf(d, c);
            0 <= k && d[..k] + [c] + d[k + 1..] == d && c !in d[k + 1..]
  {
    var k := LastIndexOf(d, c);
    assert d[..k] + [c] + d[k + 1..] == d[..k] + d[k..];
    assert d[..k] + d[k..] == d;
  }

  /**
   * The stream case of `writeFile`: with no local location, a destination without the
   * separator throws, and any other one is streamed to the halves around its last separator.
   */
  lemma StreamCase(h: Host, file: Resource, dest: Path)
    requires file.File? && file.location.None?
    ensures var d := RemoteDestination(dest.ToString(), h.separator);
            var k := LastIndexOf(d, h.separator);
            FileTrace(Some(h), file, dest) ==
              if k == -1 then Trace([], Some(NoSeparator)) else StreamTrace(dest, d[..k], d[k + 1..], file.contents)
  {
  }

  /** A stream transfer issues everything at its destination and creates no folder. */
  lemma StreamEffectsAt(dest: Path, parent: string, name: string, contents: Option<ContentSource>)
    ensures forall e :: e in StreamTrace(dest, parent, name, contents).effects ==> e.at == dest && !e.action.IsMkdir()
  {
  }

  lemma StreamOpensFirst(dest: Path, parent: string, name: string, contents: Option<ContentSource>)
    ensures StreamTrace(dest, parent, name, contents).effects[0] == Effect(dest, OpenOutput(parent, name))
  {
  }

  /** A path below the root of a non-empty absolute or relative destination contains '/'. */
  lemma SlashInPath(p: Path)
    requires p.absolute || |p.segments| >= 2
    ensures '/' in p.ToString()
  {
    if !p.absolute {
      var s := p.segments;
      assert Join(s) == s[0] + "/" + Join(s[1..]);
      assert Join(s)[|s[0]|] == '/';
    } else {
      assert p.ToString()[0] == '/';
    }
  }

  lemma SeparatorSurvives(dest: string, sep: char)
    requires '/' in dest
    ensures sep in RemoteDestination(dest, sep)
  {
    var i :| 0 <= i < |dest| && dest[i] == '/';
    SeparatorTranslation(dest, sep);
    assert RemoteDestination(dest, sep)[i] == sep;
  }

  /** A file written at a path with '/' never fails for want of a separator. */
  lemma FileSplits(host: Option<Host>, file: Resource, dest: Path)
    requires file.File? && (dest.absolute || |dest.segments| >= 2)
    ensures FileTrace(host, file, dest).failure != Some(NoSeparator)
  {
    if host.Some? {
      SlashInPath(dest);
      SeparatorSurvives(dest.ToString(), host.value.separator);
    }
  }

  /**
   * Exporting a container to an absolute or non-empty destination never ends in the
   * exception raised for a destination without a separator: every file lies at least
   * one segment below the root.
   */
  lemma {:induction false} ContainerFilesAlwaysSplit(host: Option<Host>, c: Resource, dest: Path)
    requires c.Container? && (dest.absolute || |dest.segments| >= 1)
    ensures WriteTrace(host, c, dest).failure != Some(NoSeparator)
  {
    if c.accessible {
      MembersAlwaysSplit(host, c, dest, 0);
    }
  }

  lemma {:induction false} ResourceAlwaysSplits(host: Option<Host>, r: Resource, dest: Path)
    requires dest.absolute || |dest.segments| >= 2
    ensures ResourceTrace(host, r, dest).failure != Some(NoSeparator)
    decreases r, 1
  {
    if r.File? {
      FileSplits(host, r, dest);
    } else if r.accessible {
      MembersAlwaysSplit(host, r, dest, 0);
    }
  }

  lemma {:induction false} MembersAlwaysSplit(host: Option<Host>, c: Resource, dest: Path, i: nat)
    requires c.Container? && i <= |c.members| && (dest.absolute || |dest.segments| >= 1)
    ensures MembersTrace(host, c, dest, i).failure != Some(NoSeparator)
    decreases c, 0, |c.members| - i
  {
    if i < |c.members| {
      var child := c.members[i];
      ResourceAlwaysSplits(host, child, dest.Append(child.name));
      MembersAlwaysSplit(host, c, dest, i + 1);
    }
  }

  // ---------------------------------------------------------------- the copy loop

  /** Every chunk the copy loop writes holds between 1 and 1000 bytes. */
  lemma {:induction false} CopyChunkSizes(bytes: seq<byte>, grants: seq<ReadGrant>)
    ensures forall c :: c in Copy(bytes, grants).chunks ==> 1 <= |c| <= BufferLength
    decreases |bytes| + |grants|
  {
    if !(grants != [] && grants[0].Fault?) && bytes != [] {
      var n := Delivered(|bytes|, grants, BufferLength);
      CopyChunkSizes(bytes[n..], Rest(grants));
    }
  }

  /** The chunks written are always a prefix of the data, and all of it once the loop saw the end. */
  lemma {:induction false} CopyWritesPrefix(bytes: seq<byte>, grants: seq<ReadGrant>)
    ensures |Flatten(Copy(bytes, grants).chunks)| <= |bytes|
    ensures Flatten(Copy(bytes, grants).chunks) == bytes[..|Flatten(Copy(bytes, grants).chunks)|]
    ensures Copy(bytes, grants).complete ==> Flatten(Copy(bytes, grants).chunks) == bytes
    decreases |bytes| + |grants|
  {
    if !(grants != [] && grants[0].Fault?) && bytes != [] {
      var n := Delivered(|bytes|, grants, BufferLength);
      var head: seq<seq<byte>> := if n > 0 then [bytes[..n]] else [];
      var rest := Copy(bytes[n..], Rest(grants));
      CopyStep(bytes, grants);
      CopyWritesPrefix(bytes[n..], Rest(grants));
      FlattenAppend(head, rest.chunks);
      assert Flatten(head) == bytes[..n] by {
        if n > 0 {
          assert head[1..] == [];
        }
      }
      PrefixThenPrefix(bytes, n, Flatten(rest.chunks));
    }
  }

  /** A prefix of `bytes`, followed by a prefix of what comes after it, is a prefix of `bytes`. */
  lemma PrefixThenPrefix(bytes: seq<byte>, n: nat, f: seq<byte>)
    requires n <= |bytes| && |f| <= |bytes| - n && f == bytes[n..][..|f|]
    ensures bytes[..n] + f == bytes[..n + |f|]
    ensures f == bytes[n..] ==> bytes[..n] + f == bytes
  {
    assert bytes[..n] + bytes[n..] == bytes;
  }

  /** When no read fails, the loop reaches the end of the data. */
  lemma {:induction false} CopyWithoutFaultsCompletes(bytes: seq<byte>, grants: seq<ReadGrant>)
    requires forall k :: 0 <= k < |grants| ==> grants[k].Deliver?
    ensures Copy(bytes, grants).complete
    decreases |bytes| + |grants|
  {
    if bytes != [] {
      var n := Delivered(|bytes|, grants, BufferLength);
      CopyWithoutFaultsCompletes(bytes[n..], Rest(grants));
    }
  }

  /** A read that delivers no bytes writes nothing and the loop goes on. */
  lemma ZeroByteReadWritesNothing(bytes: seq<byte>, grants: seq<ReadGrant>)
    requires bytes != []
    ensures Copy(bytes, [Deliver(0)] + grants) == Copy(bytes, grants)
  {
    assert bytes[0..] == bytes;
    assert Rest([Deliver(0)] + grants) == grants;
  }

  /** The bytes carried by the write effects of a trace, in order. */
  function BytesWritten(es: seq<Effect>): seq<byte>
  {
    if es == [] then []
    else (if es[0].action.WriteBytes? then es[0].action.bytes else []) + BytesWritten(es[1..])
  }

  lemma {:induction false} BytesWrittenAppend(a: seq<Effect>, b: seq<Effect>)
    ensures BytesWritten(a + b) == BytesWritten(a) + BytesWritten(b)
  {
    if a != [] {
      assert (a + b)[1..] == a[1..] + b;
      BytesWrittenAppend(a[1..], b);
    } else {
      assert a + b == b;
    }
  }

  lemma {:induction false} BytesOfWrites(at: Path, chunks: seq<seq<byte>>)
    ensures BytesWritten(Writes(at, chunks)) == Flatten(chunks)
  {
    if chunks != [] {
      assert Writes(at, chunks) == [Effect(at, WriteBytes(chunks[0]))] + Writes(at, chunks[1..]);
      BytesWrittenAppend([Effect(at, WriteBytes(chunks[0]))], Writes(at, chunks[1..]));
      BytesOfWrites(at, chunks[1..]);
    }
  }

  /**
   * A stream transfer that got its contents ends by closing the input stream and then
   * the output stream, whether or not a read failed; when none failed, the bytes
   * written are exactly the file's contents.
   */
  lemma StreamTransfer(h: Host, file: Resource, dest: Path)
    requires file.File? && file.location.None? && file.contents.Some?
    requires LastIndexOf(RemoteDestination(dest.ToString(), h.separator), h.separator) != -1
    ensures var es := FileTrace(Some(h), file, dest).effects;
            |es| >= 3 && es[|es| - 2].action == CloseInput && es[|es| - 1].action == CloseOutput
    ensures FileTrace(Some(h), file, dest).failure.None? ==>
              BytesWritten(FileTrace(Some(h), file, dest).effects) == file.contents.value.bytes
  {
    var d := RemoteDestination(dest.ToString(), h.separator);
    var k := LastIndexOf(d, h.separator);
    StreamCase(h, file, dest);
    StreamBytes(dest, d[..k], d[k + 1..], file.contents.value);
  }

  /** The bytes and the closing of a stream transfer whose contents were available. */
  lemma StreamBytes(dest: Path, parent: string, name: string, source: ContentSource)
    ensures var es := StreamTrace(dest, parent, name, Some(source)).effects;
            |es| >= 3 && es[|es| - 2].action == CloseInput && es[|es| - 1].action == CloseOutput
    ensures StreamTrace(dest, parent, name, Some(source)).failure.None? ==>
              BytesWritten(StreamTrace(dest, parent, name, Some(source)).effects) == source.bytes
  {
    var copied := Copy(source.bytes, source.grants);
    var open := Effect(dest, OpenOutput(parent, name));
    var closing := Closing(dest);
    BytesWrittenAppend([open], Writes(dest, copied.chunks));
    BytesWrittenAppend([open] + Writes(dest, copied.chunks), closing);
    BytesOfWrites(dest, copied.chunks);
    assert closing[1..] == [closing[1]];
    assert BytesWritten([closing[1]]) == [];
    CopyWritesPrefix(source.bytes, source.grants);
  }

  // ---------------------------------------------------------------- counting

  function Mkdirs(es: seq<Effect>): nat
  {
    if es == [] then 0 else (if es[0].action.IsMkdir() then 1 else 0) + Mkdirs(es[1..])
  }

  function Transfers(es: seq<Effect>): nat
  {
    if es == [] then 0 else (if es[0].action.StartsTransfer() then 1 else 0) + Transfers(es[1..])
  }

  lemma {:induction false} CountsAppend(a: seq<Effect>, b: seq<Effect>)
    ensures Mkdirs(a + b) == Mkdirs(a) + Mkdirs(b)
    ensures Transfers(a + b) == Transfers(a) + Transfers(b)
  {
    if a == [] {
      assert a + b == b;
    } else {
      assert (a + b)[1..] == a[1..] + b;
      CountsAppend(a[1..], b);
    }
  }

  lemma {:induction false} WritesCountNothing(at: Path, chunks: seq<seq<byte>>)
    ensures Mkdirs(Writes(at, chunks)) == 0 && Transfers(Writes(at, chunks)) == 0
  {
    if chunks != [] {
      assert Writes(at, chunks)[1..] == Writes(at, chunks[1..]);
      WritesCountNothing(at, chunks[1..]);
    }
  }

  /**
   * Writing one file creates no folder and starts exactly one transfer, unless it threw
   * before reaching the subsystem (no host, or a destination without a separator).
   */
  lemma FileCounts(host: Option<Host>, file: Resource, dest: Path)
    requires file.File?
    ensures Mkdirs(FileTrace(host, file, dest).effects) == 0
    ensures Transfers(FileTrace(host, file, dest).effects) ==
              if FileTrace(host, file, dest).failure in {Some(NoFileSubSystem), Some(NoSeparator)} then 0 else 1
  {
    if host.Some? && file.location.None? {
      var d := RemoteDestination(dest.ToString(), host.value.separator);
      var k := LastIndexOf(d, host.value.separator);
      StreamCase(host.value, file, dest);
      if k != -1 {
        StreamCounts(dest, d[..k], d[k + 1..], file.contents);
      }
    } else if host.Some? {
      var d := RemoteDestination(dest.ToString(), host.value.separator);
      assert Transfers([Effect(dest, Upload(file.location.value, file.charset, d, host.value.encoding))]) == 1;
    }
  }

  lemma ClosingCountsNothing(at: Path)
    ensures Mkdirs(Closing(at)) == 0 && Transfers(Closing(at)) == 0
  {
    var last := [Effect(at, CloseOutput)];
    assert Closing(at)[1..] == last;
    assert last[1..] == [];
    assert Mkdirs(last) == 0 && Transfers(last) == 0;
  }

  /** A stream transfer creates no folder and starts exactly one transfer, and never fails for want of a separator. */
  lemma StreamCounts(dest: Path, parent: string, name: string, contents: Option<ContentSource>)
    ensures Mkdirs(StreamTrace(dest, parent, name, contents).effects) == 0
    ensures Transfers(StreamTrace(dest, parent, name, contents).effects) == 1
    ensures StreamTrace(dest, parent, name, contents).failure !in {Some(NoFileSubSystem), Some(NoSeparator)}
  {
    var open := Effect(dest, OpenOutput(parent, name));
    assert Transfers([open]) == 1;
    if contents.Some? {
      var copied := Copy(contents.value.bytes, contents.value.grants);
      var closing := Closing(dest);
      ClosingCountsNothing(dest);
      WritesCountNothing(dest, copied.chunks);
      CountsAppend([open], Writes(dest, copied.chunks));
      CountsAppend([open] + Writes(dest, copied.chunks), closing);
    }
  }

  /** The files a walk reaches: every file below accessible containers. */
  function FilesReached(r: Resource): nat
    decreases r, 1
  {
    if r.File? then 1 else if !r.accessible then 0 else MembersFiles(r, 0)
  }

  function MembersFiles(c: Resource, i: nat): nat
    requires c.Container? && i <= |c.members|
    decreases c, 0, |c.members| - i
  {
    if i == |c.members| then 0 else FilesReached(c.members[i]) + MembersFiles(c, i + 1)
  }

  /** The containers `writeResource` reaches: `r` itself, if it is one, and those below it. */
  function FoldersReached(r: Resource): nat
    decreases r, 1
  {
    if r.File? then 0 else 1 + (if !r.accessible then 0 else MembersFolders(r, 0))
  }

  function MembersFolders(c: Resource, i: nat): nat
    requires c.Container? && i <= |c.members|
    decreases c, 0, |c.members| - i
  {
    if i == |c.members| then 0 else FoldersReached(c.members[i]) + MembersFolders(c, i + 1)
  }

  /** The containers below the root of a walk that it reaches (inaccessible ones included). */
  function NestedFoldersReached(r: Resource): nat
  {
    if r.File? || !r.accessible then 0 else MembersFolders(r, 0)
  }

  lemma {:induction false} ResourceCounts(host: Option<Host>, r: Resource, dest: Path)
    requires ResourceTrace(host, r, dest).failure.None?
    ensures Transfers(ResourceTrace(host, r, dest).effects) == FilesReached(r)
    ensures Mkdirs(ResourceTrace(host, r, dest).effects) == FoldersReached(r)
    decreases r, 1
  {
    if r.File? {
      FileCounts(host, r, dest);
    } else {
      var mk := Effect(dest, MkdirAction(host, dest));
      CountsAppend([mk], ChildrenTrace(host, r, dest).effects);
      if r.accessible {
        MembersCounts(host, r, dest, 0);
      }
    }
  }

  lemma {:induction false} MembersCounts(host: Option<Host>, c: Resource, dest: Path, i: nat)
    requires c.Container? && i <= |c.members|
    requires MembersTrace(host, c, dest, i).failure.None?
    ensures Transfers(MembersTrace(host, c, dest, i).effects) == MembersFiles(c, i)
    ensures Mkdirs(MembersTrace(host, c, dest, i).effects) == MembersFolders(c, i)
    decreases c, 0, |c.members| - i
  {
    if i < |c.members| {
      var child := c.members[i];
      var t := ResourceTrace(host, child, dest.Append(child.name));
      ResourceCounts(host, child, dest.Append(child.name));
      MembersCounts(host, c, dest, i + 1);
      CountsAppend(t.effects, MembersTrace(host, c, dest, i + 1).effects);
    }
  }

  /**
   * A walk that throws nothing starts one transfer per file reached through accessible
   * containers and creates one folder per container reached below the root.
   */
  lemma WriteCounts(host: Option<Host>, r: Resource, dest: Path)
    requires WriteTrace(host, r, dest).failure.None?
    ensures Transfers(WriteTrace(host, r, dest).effects) == FilesReached(r)
    ensures Mkdirs(WriteTrace(host, r, dest).effects) == NestedFoldersReached(r)
  {
    if r.File? {
      FileCounts(host, r, dest);
    } else if r.accessible {
      MembersCounts(host, r, dest, 0);
    }
  }

  /** A nested inaccessible container gets its folder and nothing else; as the root it gets nothing. */
  lemma InaccessibleContainer(host: Option<Host>, c: Resource, dest: Path)
    requires c.Container? && !c.accessible
    ensures ResourceTrace(host, c, dest) == Trace([Effect(dest, MkdirAction(host, dest))], None)
    ensures WriteTrace(host, c, dest) == Trace([], None)
  {
  }

  // ---------------------------------------------------------------- order

  /** The traces of writing each member of `c` on its own, at `dest/name`, in `members()` order. */
  function ChildTraces(host: Option<Host>, c: Resource, dest: Path): (parts: seq<seq<Effect>>)
    requires c.Container?
    ensures |parts| == |c.members|
  {
    seq(|c.members|, k requires 0 <= k < |c.members| =>
          ResourceTrace(host, c.members[k], dest.Append(c.members[k].name)).effects)
  }

  /** The children of an accessible container are written one after another, in `members()` order. */
  lemma ChildrenInOrder(host: Option<Host>, c: Resource, dest: Path)
    requires c.Container? && c.accessible && ChildrenTrace(host, c, dest).failure.None?
    ensures ChildrenTrace(host, c, dest).effects == Flatten(ChildTraces(host, c, dest))
  {
    MembersInOrder(host, c, dest, 0);
    assert ChildTraces(host, c, dest)[0..] == ChildTraces(host, c, dest);
  }

  lemma {:induction false} MembersInOrder(host: Option<Host>, c: Resource, dest: Path, i: nat)
    requires c.Container? && i <= |c.members| && MembersTrace(host, c, dest, i).failure.None?
    ensures MembersTrace(host, c, dest, i).effects == Flatten(ChildTraces(host, c, dest)[i..])
    decreases |c.members| - i
  {
    var ms := c.members;
    var all := ChildTraces(host, c, dest);
    if i < |ms| {
      var child := ms[i];
      var t := ResourceTrace(host, child, dest.Append(child.name));
      assert MembersTrace(host, c, dest, i).effects == t.effects + MembersTrace(host, c, dest, i + 1).effects;
      MembersInOrder(host, c, dest, i + 1);
      assert all[i..][1..] == all[i + 1..];
      assert all[i..][0] == t.effects;
    }
  }

  /** No two members of a container share a name. */
  ghost predicate DistinctNames(ms: seq<Resource>)
  {
    forall a, b :: 0 <= a < b < |ms| ==> ms[a].name != ms[b].name
  }

  /** A workspace tree: member names are unique within each container. */
  ghost predicate WellFormed(r: Resource)
    decreases r
  {
    r.Container? ==> DistinctNames(r.members) && forall k :: 0 <= k < |r.members| ==> WellFormed(r.members[k])
  }

  function NamesFrom(ms: seq<Resource>, i: nat): set<string>
  {
    set k | i <= k < |ms| :: ms[k].name
  }

  /** Every folder is created before anything that is issued for a path inside it. */
  ghost predicate MkdirPrecedesDescendants(es: seq<Effect>)
  {
    forall i, j :: 0 <= i < |es| && 0 <= j < |es| && es[i].action.IsMkdir() && Below(es[j].at, es[i].at) ==> i < j
  }

  lemma OrderedConcat(a: seq<Effect>, b: seq<Effect>)
    requires MkdirPrecedesDescendants(a) && MkdirPrecedesDescendants(b)
    requires forall i, j :: 0 <= i < |b| && 0 <= j < |a| && b[i].action.IsMkdir() ==> !Below(a[j].at, b[i].at)
    ensures MkdirPrecedesDescendants(a + b)
  {
    var es := a + b;
    forall i, j | 0 <= i < |es| && 0 <= j < |es| && es[i].action.IsMkdir() && Below(es[j].at, es[i].at)
      ensures i < j
    {
      if i < |a| && j < |a| {
        assert es[i] == a[i] && es[j] == a[j];
      } else if i >= |a| && j >= |a| {
        assert es[i] == b[i - |a|] && es[j] == b[j - |a|];
      } else if i >= |a| {
        assert false;
      }
    }
  }

  lemma BelowAppend(q: Path, p: Path, name: string)
    requires Within(q, p.Append(name))
    ensures Below(q, p) && q.segments[|p.segments|] == name
  {
    if q != p.Append(name) {
      assert q.segments[..|p.segments| + 1] == p.segments + [name];
      assert q.segments[..|p.segments|] == (q.segments[..|p.segments| + 1])[..|p.segments|];
    }
  }

  /** Everything writing one file does is issued at its own destination, and none of it creates a folder. */
  lemma FileEffectsAtDestination(host: Option<Host>, file: Resource, dest: Path)
    requires file.File?
    ensures forall e :: e in FileTrace(host, file, dest).effects ==> e.at == dest && !e.action.IsMkdir()
  {
    if host.Some? && file.location.None? {
      var d := RemoteDestination(dest.ToString(), host.value.separator);
      var k := LastIndexOf(d, host.value.separator);
      StreamCase(host.value, file, dest);
      if k != -1 {
        StreamEffectsAt(dest, d[..k], d[k + 1..], file.contents);
      }
    }
  }

  lemma {:induction false} ResourceOrdered(host: Option<Host>, r: Resource, dest: Path)
    requires WellFormed(r)
    ensures MkdirPrecedesDescendants(ResourceTrace(host, r, dest).effects)
    ensures forall e :: e in ResourceTrace(host, r, dest).effects ==> Within(e.at, dest)
    decreases r, 1
  {
    if r.File? {
      FileEffectsAtDestination(host, r, dest);
    } else {
      var mk := Effect(dest, MkdirAction(host, dest));
      var children := ChildrenTrace(host, r, dest).effects;
      if r.accessible {
        MembersOrdered(host, r, dest, 0);
      }
      assert forall e :: e in children ==> Below(e.at, dest);
      forall a, b | 0 <= a < |children| && 0 <= b < |[mk]| && children[a].action.IsMkdir()
        ensures !Below([mk][b].at, children[a].at)
      {
        assert children[a] in children;
      }
      OrderedConcat([mk], children);
      assert ResourceTrace(host, r, dest).effects == [mk] + children;
    }
  }

  lemma {:induction false} MembersOrdered(host: Option<Host>, c: Resource, dest: Path, i: nat)
    requires c.Container? && i <= |c.members| && WellFormed(c)
    ensures MkdirPrecedesDescendants(MembersTrace(host, c, dest, i).effects)
    ensures forall e :: e in MembersTrace(host, c, dest, i).effects ==>
              Below(e.at, dest) && e.at.segments[|dest.segments|] in NamesFrom(c.members, i)
    decreases c, 0, |c.members| - i
  {
    if i < |c.members| {
      var child := c.members[i];
      var t := ResourceTrace(host, child, dest.Append(child.name));
      assert WellFormed(child);
      ResourceOrdered(host, child, dest.Append(child.name));
      forall e | e in t.effects
        ensures Below(e.at, dest) && e.at.segments[|dest.segments|] == child.name
      {
        BelowAppend(e.at, dest, child.name);
      }
      if t.failure.None? {
        var rest := MembersTrace(host, c, dest, i + 1).effects;
        MembersOrdered(host, c, dest, i + 1);
        assert child.name !in NamesFrom(c.members, i + 1);
        forall a, b | 0 <= a < |rest| && 0 <= b < |t.effects| && rest[a].action.IsMkdir()
          ensures !Below(t.effects[b].at, rest[a].at)
        {
          var q, x := rest[a].at, t.effects[b].at;
          assert q.segments[|dest.segments|] in NamesFrom(c.members, i + 1);
        }
        OrderedConcat(t.effects, rest);
      }
    }
  }

  /**
   * In the trace of `write`, every folder is created before anything inside it, and
   * when the root is a container everything happens strictly below it: in particular
   * the root itself is never created.
   */
  lemma WriteOrdered(host: Option<Host>, r: Resource, dest: Path)
    requires WellFormed(r)
    ensures MkdirPrecedesDescendants(WriteTrace(host, r, dest).effects)
    ensures r.Container? ==> forall e :: e in WriteTrace(host, r, dest).effects ==> Below(e.at, dest)
  {
    if r.File? {
      ResourceOrdered(host, r, dest);
    } else if r.accessible {
      MembersOrdered(host, r, dest, 0);
    }
  }
}
