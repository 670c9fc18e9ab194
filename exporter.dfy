/**
 * The resource-tree uploader: mirrors a local tree of files and containers onto a
 * remote file system, creating one folder per nested container and transferring
 * every file, either by an upload from its local location or, for a file that is
 * only a byte stream, through a copy loop with a 1000-byte buffer.
 *
 * The remote file subsystem, the remote folder objects and the streams are
 * foreign; what the exporter asks of them is recorded, in order, as a trace of
 * effects. Each effect also carries the destination path it was issued for.
 */
module Exporter {
  import opened Common

  /** The destination path (an IPath): absolute or relative, a list of segments. */
  datatype Path = Path(absolute: bool, segments: seq<string>) {
    /** `IPath.append(name)` for a resource name, which is always one segment. */
    function Append(name: string): Path
    {
      Path(absolute, segments + [name])
    }

    /** `IPath.toString()`: the segments joined by '/', after a '/' when absolute. */
    function ToString(): string
    {
      (if absolute then "/" else "") + Join(segments)
    }
  }

  function Join(segments: seq<string>): string
  {
    if segments == [] then ""
    else if |segments| == 1 then segments[0]
    else segments[0] + "/" + Join(segments[1..])
  }

  /** `q` lies strictly inside the subtree rooted at `p`. */
  predicate Below(q: Path, p: Path)
  {
    q.absolute == p.absolute && |p.segments| < |q.segments| && q.segments[..|p.segments|] == p.segments
  }

  /** `q` is `p` itself or lies inside the subtree rooted at `p`. */
  predicate Within(q: Path, p: Path)
  {
    q == p || Below(q, p)
  }

  /** The remote host as the exporter sees it: its path separator and the encoding its files report. */
  datatype Host = Host(separator: char, encoding: string)

  /**
   * How the stream returned by `IFile.getContents()` answers successive reads: at most
   * `max` bytes, or an I/O failure. Once the list is used up, every read delivers as
   * many bytes as it asks for. The end of the data is signalled by -1.
   */
  datatype ReadGrant = Deliver(max: nat) | Fault

  datatype ContentSource = ContentSource(bytes: seq<byte>, grants: seq<ReadGrant>)

  /**
   * A workspace resource. A file has a charset, an optional local location (absent for
   * a file backed only by a byte-stream store) and contents that are either readable or
   * not (`getContents()` throws). A container is a project or folder with its members
   * in `members()` order.
   */
  datatype Resource =
    | File(name: string, charset: string, location: Option<string>, contents: Option<ContentSource>)
    | Container(name: string, accessible: bool, members: seq<Resource>)

  /** What the exporter asks of its collaborators. */
  datatype Action =
    | MakeRemoteDirectory(path: string)
    | MakeLocalDirectory(path: string)
    | Upload(localPath: string, localEncoding: string, remotePath: string, hostEncoding: string)
    | OpenOutput(remoteParent: string, remoteFile: string)
    | WriteBytes(bytes: seq<byte>)
    | CloseInput
    | CloseOutput
  {
    predicate IsMkdir() { MakeRemoteDirectory? || MakeLocalDirectory? }

    /** The single call that starts the transfer of one file. */
    predicate StartsTransfer() { Upload? || OpenOutput? }
  }

  datatype Effect = Effect(at: Path, action: Action)

  /** The exceptions a write can end with. */
  datatype Failure =
    | NoFileSubSystem      // no host: the file subsystem lookup yields null
    | NoSeparator          // lastIndexOf(sep) == -1, so substring(0, -1) throws
    | ContentsUnavailable  // getContents() throws
    | ReadFailed           // read() throws inside the copy loop

  /** The effects of a write, in order, and the exception it ended with, if any. */
  datatype Trace = Trace(effects: seq<Effect>, failure: Option<Failure>)

  /** The trace of a run that first produced `done` without failing and then `t`. */
  function After(done: seq<Effect>, t: Trace): Trace
  {
    Trace(done + t.effects, t.failure)
  }

  lemma AfterAfter(a: seq<Effect>, b: seq<Effect>, t: Trace)
    ensures After(a, After(b, t)) == After(a + b, t)
  {
    assert a + (b + t.effects) == (a + b) + t.effects;
  }

  const BufferLength := 1000

  /**
   * The destination string handed to the remote subsystem: with a separator other
   * than '/', every '/' is replaced by it.
   */
  function RemoteDestination(dest: string, sep: char): string
  {
    if sep != '/' then Replace(dest, '/', sep) else dest
  }

  /** `createFolder`: a remote folder when there is a host, a local one otherwise. */
  function MkdirAction(host: Option<Host>, dest: Path): Action
  {
    if host.Some? then MakeRemoteDirectory(dest.ToString()) else MakeLocalDirectory(dest.ToString())
  }

  function Rest(grants: seq<ReadGrant>): seq<ReadGrant>
  {
    if grants == [] then [] else grants[1..]
  }

  /** How many bytes a read of at most `len` bytes delivers while `remaining` bytes are left. */
  function Delivered(remaining: nat, grants: seq<ReadGrant>, len: nat): nat
    requires grants == [] || grants[0].Deliver?
  {
    Min(Min(if grants == [] then len else grants[0].max, len), remaining)
  }

  /** The chunks the copy loop writes, and whether it reached the end of the data. */
  datatype Copied = Copied(chunks: seq<seq<byte>>, complete: bool)

  function Prepend(done: seq<seq<byte>>, c: Copied): Copied
  {
    Copied(done + c.chunks, c.complete)
  }

  /** The copy loop of `writeFile` on the stream `bytes` answering as `grants` says. */
  function Copy(bytes: seq<byte>, grants: seq<ReadGrant>): Copied
    decreases |bytes| + |grants|
  {
    if grants != [] && grants[0].Fault? then Copied([], false)
    else if bytes == [] then Copied([], true)
    else
      var n := Delivered(|bytes|, grants, BufferLength);
      var rest := Copy(bytes[n..], Rest(grants));
      if n > 0 then Copied([bytes[..n]] + rest.chunks, rest.complete) else rest
  }

  lemma PrependPrepend(a: seq<seq<byte>>, b: seq<seq<byte>>, c: Copied)
    ensures Prepend(a, Prepend(b, c)) == Prepend(a + b, c)
  {
    assert a + (b + c.chunks) == (a + b) + c.chunks;
  }

  /** One read of the copy loop while data remains and the read does not fail. */
  lemma CopyStep(bytes: seq<byte>, grants: seq<ReadGrant>)
    requires bytes != [] && (grants == [] || grants[0].Deliver?)
    ensures var n := Delivered(|bytes|, grants, BufferLength);
            Copy(bytes, grants) == Prepend(if n > 0 then [bytes[..n]] else [], Copy(bytes[n..], Rest(grants)))
  {
  }

  function Writes(at: Path, chunks: seq<seq<byte>>): seq<Effect>
  {
    seq(|chunks|, i requires 0 <= i < |chunks| => Effect(at, WriteBytes(chunks[i])))
  }

  /** `writeFile(file, dest)`. */
  function FileTrace(host: Option<Host>, file: Resource, dest: Path): Trace
    requires file.File?
  {
    if host.None? then Trace([], Some(NoFileSubSystem))
    else HostFileTrace(host.value, file, dest, RemoteDestination(dest.ToString(), host.value.separator))
  }

  /** `writeFile` once the file subsystem is known and `d` is the translated destination. */
  function HostFileTrace(h: Host, file: Resource, dest: Path, d: string): Trace
    requires file.File?
  {
    if file.location.Some? then
      Trace([Effect(dest, Upload(file.location.value, file.charset, d, h.encoding))], None)
    else
      var lastSep := LastIndexOf(d, h.separator);
      if lastSep == -1 then Trace([], Some(NoSeparator))
      else StreamTrace(dest, d[..lastSep], d[lastSep + 1..], file.contents)
  }

  /**
   * The `finally` block of `writeFile`: the input stream is closed, then the output stream.
   * Both closes succeed here; a failing input close, which would skip the output close, is not modelled.
   */
  function Closing(at: Path): seq<Effect>
  {
    [Effect(at, CloseInput), Effect(at, CloseOutput)]
  }

  /** The stream transfer of `writeFile` into `remoteFile` of the folder `remoteParent`. */
  function StreamTrace(dest: Path, remoteParent: string, remoteFile: string, contents: Option<ContentSource>): Trace
  {
    var open := Effect(dest, OpenOutput(remoteParent, remoteFile));
    match contents
    case None => Trace([open], Some(ContentsUnavailable))
    case Some(source) =>
      var copied := Copy(source.bytes, source.grants);
      Trace([open] + Writes(dest, copied.chunks) + Closing(dest),
            if copied.complete then None else Some(ReadFailed))
  }

  /** `writeResource(r, dest)`: a nested container gets its folder before its children. */
  function ResourceTrace(host: Option<Host>, r: Resource, dest: Path): Trace
    decreases r, 1
  {
    if r.File? then FileTrace(host, r, dest)
    else After([Effect(dest, MkdirAction(host, dest))], ChildrenTrace(host, r, dest))
  }

  /** `writeChildren(folder, dest)`: nothing at all for an inaccessible container. */
  function ChildrenTrace(host: Option<Host>, folder: Resource, dest: Path): Trace
    requires folder.Container?
    decreases folder, 0
  {
    if !folder.accessible then Trace([], None) else MembersTrace(host, folder, dest, 0)
  }

  /** The loop of `writeChildren` from member `i` on; the first exception ends it. */
  function MembersTrace(host: Option<Host>, folder: Resource, dest: Path, i: nat): Trace
    requires folder.Container? && i <= |folder.members|
    decreases folder, 0, |folder.members| - i
  {
    if i == |folder.members| then Trace([], None)
    else
      var child := folder.members[i];
      var t := ResourceTrace(host, child, dest.Append(child.name));
      if t.failure.Some? then t else After(t.effects, MembersTrace(host, folder, dest, i + 1))
  }

  /** `write(resource, dest)`: the root itself never gets a folder. */
  function WriteTrace(host: Option<Host>, r: Resource, dest: Path): Trace
  {
    if r.File? then FileTrace(host, r, dest) else ChildrenTrace(host, r, dest)
  }

  /** The input stream returned by `IFile.getContents()`. */
  class ContentStream {
    const bytes: seq<byte>
    var pos: nat
    var grants: seq<ReadGrant>

    ghost predicate Valid()
      reads this
    {
      pos <= |bytes|
    }

    function Remaining(): seq<byte>
      reads this
      requires Valid()
    {
      bytes[pos..]
    }

    constructor (source: ContentSource)
      ensures Valid() && bytes == source.bytes && grants == source.grants && Remaining() == source.bytes
    {
      bytes := source.bytes;
      pos := 0;
      grants := source.grants;
    }

    /** `read(buffer, off, len)`: a number of bytes, -1 at the end of the data, or an I/O failure. */
    method Read(buffer: array<byte>, off: nat, len: nat) returns (n: int, fault: bool)
      requires Valid() && off + len <= buffer.Length && len > 0
      modifies this, buffer
      ensures Valid()
      ensures fault <==> old(grants) != [] && old(grants)[0].Fault?
      ensures fault ==> pos == old(pos)
      ensures !fault && old(pos) == |bytes| ==> n == -1 && pos == old(pos) && grants == old(grants)
      ensures !fault && old(pos) < |bytes| ==>
                n == Delivered(|bytes| - old(pos), old(grants), len) && pos == old(pos) + n &&
                grants == Rest(old(grants)) && buffer[off..off + n] == old(Remaining())[..n]
      ensures fault ==> grants == old(grants)[1..]
      ensures fault || n == -1 ==> buffer[..] == old(buffer[..])
      ensures !fault && n >= 0 ==>
                n <= len && buffer[..off] == old(buffer[..off]) && buffer[off + n..] == old(buffer[off + n..])
    {
      if grants != [] && grants[0].Fault? {
        n, fault := 0, true;
        grants := grants[1..];
      } else if pos == |bytes| {
        n, fault := -1, false;
      } else {
        fault := false;
        n := Delivered(|bytes| - pos, grants, len);
        forall k | off <= k < off + n {
          buffer[k] := bytes[pos + k - off];
        }
        pos := pos + n;
        grants := Rest(grants);
      }
    }
  }

  /** `DirectDebugRemoteExporter`: the host it exports to and the effects issued so far. */
  class RemoteExporter {
    const host: Option<Host>
    var effects: seq<Effect>

    constructor (host: Option<Host>)
      ensures this.host == host && effects == []
    {
      this.host := host;
      effects := [];
    }

    /** `createFolder(destinationPath)`. */
    method CreateFolder(dest: Path)
      modifies this
      ensures effects == old(effects) + [Effect(dest, MkdirAction(host, dest))]
    {
      if host.Some? {
        effects := effects + [Effect(dest, MakeRemoteDirectory(dest.ToString()))];
      } else {
        effects := effects + [Effect(dest, MakeLocalDirectory(dest.ToString()))];
      }
    }

    /** `write(resource, destinationPath)`. */
    method Write(resource: Resource, dest: Path) returns (failure: Option<Failure>)
      modifies this
      ensures effects == old(effects) + WriteTrace(host, resource, dest).effects
      ensures failure == WriteTrace(host, resource, dest).failure
    {
      if resource.File? {
        failure := WriteFile(resource, dest);
      } else {
        failure := WriteChildren(resource, dest);
      }
    }

    /** `writeChildren(folder, destinationPath)`. */
    method WriteChildren(folder: Resource, dest: Path) returns (failure: Option<Failure>)
      requires folder.Container?
      modifies this
      ensures effects == old(effects) + ChildrenTrace(host, folder, dest).effects
      ensures failure == ChildrenTrace(host, folder, dest).failure
      decreases folder, 0
    {
      failure := None;
      if folder.accessible {
        var children := folder.members;
        ghost var done: seq<Effect> := [];
        for i := 0 to |children|
          invariant effects == old(effects) + done && failure.None?
          invariant MembersTrace(host, folder, dest, 0) == After(done, MembersTrace(host, folder, dest, i))
        {
          var child := children[i];
          ghost var t := ResourceTrace(host, child, dest.Append(child.name));
          ghost var rest := MembersTrace(host, folder, dest, i + 1);
          assert MembersTrace(host, folder, dest, i) == if t.failure.Some? then t else After(t.effects, rest);
          ghost var before := effects;
          failure := WriteResource(child, dest.Append(child.name));
          assert effects == before + t.effects;
          Associative(old(effects), done, t.effects);
          if failure.Some? {
            return;
          }
          AfterAfter(done, t.effects, rest);
          done := done + t.effects;
        }
      }
    }

    /** `writeResource(resource, destinationPath)`. */
    method WriteResource(resource: Resource, dest: Path) returns (failure: Option<Failure>)
      modifies this
      ensures effects == old(effects) + ResourceTrace(host, resource, dest).effects
      ensures failure == ResourceTrace(host, resource, dest).failure
      decreases resource, 1
    {
      if resource.File? {
        failure := WriteFile(resource, dest);
      } else {
        CreateFolder(dest);
        failure := WriteChildren(resource, dest);
      }
    }

    /** `writeFile(file, destinationPath)`. */
    method WriteFile(file: Resource, dest: Path) returns (failure: Option<Failure>)
      requires file.File?
      modifies this
      ensures effects == old(effects) + FileTrace(host, file, dest).effects
      ensures failure == FileTrace(host, file, dest).failure
    {
      if host.None? {
        return Some(NoFileSubSystem);
      }
      var sep := host.value.separator;
      var d := dest.ToString();
      if sep != '/' {
        d := Replace(d, '/', sep);
      }
      var localEncoding := file.charset;
      var hostEncoding := host.value.encoding;
      if file.location.Some? {
        effects := effects + [Effect(dest, Upload(file.location.value, localEncoding, d, hostEncoding))];
        return None;
      }
      var lastSep := LastIndexOf(d, sep);
      if lastSep == -1 {
        return Some(NoSeparator);
      }
      var remoteParent := d[..lastSep];
      var remoteFile := d[lastSep + 1..];
      assert FileTrace(host, file, dest) == StreamTrace(dest, remoteParent, remoteFile, file.contents);
      var open := Effect(dest, OpenOutput(remoteParent, remoteFile));
      effects := effects + [open];
      if file.contents.None? {
        return Some(ContentsUnavailable);
      }
      var instream := new ContentStream(file.contents.value);
      ghost var started := effects;
      var complete := CopyStream(dest, instream);
      ghost var writes := Writes(dest, Copy(file.contents.value.bytes, file.contents.value.grants).chunks);
      assert effects == started + writes;
      // finally: instream.close(), then outstream.close()
      var closing := Closing(dest);
      effects := effects + closing;
      assert effects == old(effects) + ([open] + writes + closing) by {
        Associative(old(effects), [open], writes);
        Associative(old(effects) + ([open] + writes), [], closing);
        Associative(old(effects), [open] + writes, closing);
      }
      failure := if complete then None else Some(ReadFailed);
    }

    /** The buffered copy loop of `writeFile`; `complete` is false when a read threw. */
    method CopyStream(at: Path, instream: ContentStream) returns (complete: bool)
      requires instream.Valid()
      modifies this, instream
      ensures effects == old(effects) + Writes(at, Copy(old(instream.Remaining()), old(instream.grants)).chunks)
      ensures complete == Copy(old(instream.Remaining()), old(instream.grants)).complete
    {
      var length := BufferLength;
      var buffer := new byte[length];
      ghost var total := Copy(instream.Remaining(), instream.grants);
      ghost var written: seq<seq<byte>> := [];
      var bytesRead := 0;
      var done := false;
      complete := true;
      while !done
        invariant instream.Valid() && buffer.Length == length
        invariant effects == old(effects) + Writes(at, written)
        invariant !done ==> total == Prepend(written, Copy(instream.Remaining(), instream.grants))
        invariant done ==> total == Copied(written, complete)
        decreases !done, |instream.Remaining()| + |instream.grants|
      {
        ghost var remaining, grants := instream.Remaining(), instream.grants;
        var fault;
        bytesRead, fault := instream.Read(buffer, 0, length);
        if fault {
          assert total == Copied(written, false);
          complete := false;
          break;
        }
        if bytesRead == -1 {
          assert total == Copied(written, true);
        } else {
          CopyStep(remaining, grants);
          assert instream.Remaining() == remaining[bytesRead..];
        }
        if bytesRead > 0 {
          ghost var chunk := buffer[0..bytesRead];
          assert chunk == remaining[..bytesRead];
          ghost var e := Effect(at, WriteBytes(chunk));
          effects := effects + [Effect(at, WriteBytes(buffer[0..bytesRead]))];
          assert Writes(at, written + [chunk]) == Writes(at, written) + [e];
          Associative(old(effects), Writes(at, written), [e]);
          PrependPrepend(written, [chunk], Copy(instream.Remaining(), instream.grants));
          written := written + [chunk];
        }
        if bytesRead == -1 {
          done := true;
        }
      }
    }
  }
}
