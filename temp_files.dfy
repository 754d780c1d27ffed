/** The temporary file that update writes a test file's new text to before it
    replaces the original (tempFile, cmdtest.go:848-858; createTempFile and
    simpleTempFile, tempFileWindows.go:29-76). The file system is a map from paths to
    contents; every operating-system call can fail, which the methods model by a
    nondeterministic choice. */
module TempFiles {
  import opened Wrappers

  /** The operating-system calls, as the Op of Go's *os.PathError names them. */
  datatype Op = Create | Write | Sync | Close | Remove | Rename

  datatype Reason = AlreadyExists | DoesNotExist | FileClosed | Failure

  datatype OsError = OsError(op: Op, reason: Reason)

  /** A call a temporary file made, in the order it made them. */
  datatype OsCall = SyncCall | CloseCall | RemoveCall(name: string) | RenameCall(from: string, to: string)

  class FileSystem {
    var files: map<string, string>

    constructor(files: map<string, string>)
      ensures this.files == files
    {
      this.files := files;
    }
  }

  /** What writing text to the file called name did to the files: if it was open and
      present, a prefix of text was appended to it, all of it unless an error was
      reported, and nothing else changed; otherwise nothing changed, and text, if
      any, was refused. */
  ghost predicate Wrote(name: string, isOpen: bool, before: map<string, string>, after: map<string, string>,
                        text: string, err: Option<OsError>) {
    if isOpen && name in before then
      && name in after && after == before[name := after[name]]
      && before[name] <= after[name] <= before[name] + text
      && (err.None? ==> after[name] == before[name] + text)
    else after == before && (text != [] ==> err.Some?)
  }

  /** Writing t and then u, the second after the first succeeded, writes t + u. */
  lemma WroteThen(name: string, isOpen: bool, m0: map<string, string>, m1: map<string, string>, m2: map<string, string>,
                  t: string, u: string, err: Option<OsError>)
    requires Wrote(name, isOpen, m0, m1, t, None) && Wrote(name, isOpen, m1, m2, u, err)
    ensures Wrote(name, isOpen, m0, m2, t + u, err)
  {
    if isOpen && name in m0 {
      assert m1[name] == m0[name] + t;
      assert m0[name] + t + u == m0[name] + (t + u);
      PrefixTrans(m0[name], m1[name], m2[name]);
      assert m2 == m0[name := m2[name]];
    } else if t != [] {
      assert false;
    }
  }

  /** A write that stopped with an error is also a failed write of any longer text. */
  lemma WroteStopped(name: string, isOpen: bool, m0: map<string, string>, m1: map<string, string>,
                     t: string, u: string, err: Option<OsError>)
    requires Wrote(name, isOpen, m0, m1, t, err) && err.Some?
    ensures Wrote(name, isOpen, m0, m1, t + u, err)
  {
    if isOpen && name in m0 {
      assert m0[name] + t <= m0[name] + t + u;
      PrefixTrans(m1[name], m0[name] + t, m0[name] + t + u);
      assert m0[name] + t + u == m0[name] + (t + u);
    }
  }

  /** Removing a file that was just created gives back the files as they were. */
  lemma RemoveCreated(m: map<string, string>, k: string, v: string)
    requires k !in m
    ensures m[k := v] - {k} == m
  {
  }

  lemma PrefixTrans(a: string, b: string, c: string)
    requires a <= b && b <= c
    ensures a <= c
  {
    assert c[..|b|] == b;
    assert b[..|a|] == a;
    assert c[..|a|] == c[..|b|][..|a|];
  }

  /** The number of Close calls in a trace. */
  function Closes(calls: seq<OsCall>): nat {
    if |calls| == 0 then 0 else Closes(calls[..|calls| - 1]) + (if calls[|calls| - 1] == CloseCall then 1 else 0)
  }

  lemma ClosesAppend(a: seq<OsCall>, b: seq<OsCall>)
    ensures Closes(a + b) == Closes(a) + Closes(b)
    decreases |b|
  {
    if |b| > 0 {
      assert (a + b)[..|a + b| - 1] == a + b[..|b| - 1];
      ClosesAppend(a, b[..|b| - 1]);
    } else {
      assert a + b == a;
    }
  }

  class SimpleTempFile {
    const fs: FileSystem
    /** Name(): the temporary file. */
    const name: string
    /** The file to replace. */
    const path: string
    /** Close was called. */
    var closed: bool
    /** Close and Rename succeeded. */
    var done: bool
    /** Whether the embedded *os.File is still open; not a field of the Go struct. */
    var isOpen: bool
    ghost var calls: seq<OsCall>

    ghost predicate Valid() {
      name != path
    }

    constructor(fs: FileSystem, name: string, path: string)
      requires name != path
      ensures Valid()
      ensures this.fs == fs && this.name == name && this.path == path
      ensures !closed && !done && isOpen && calls == []
    {
      this.fs := fs;
      this.name := name;
      this.path := path;
      closed := false;
      done := false;
      isOpen := true;
      calls := [];
    }

    /** io.Writer: append data to the temporary file; a failed write may have
        written a prefix of it. */
    method WriteString(data: string) returns (err: Option<OsError>)
      requires Valid()
      modifies fs
      ensures Wrote(name, isOpen, old(fs.files), fs.files, data, err)
      ensures !(name in old(fs.files) && isOpen) ==> err.Some?
    {
      if !isOpen {
        return Some(OsError(Write, FileClosed));
      }
      if name !in fs.files {
        return Some(OsError(Write, DoesNotExist));
      }
      var k: nat :| k <= |data|;
      fs.files := fs.files[name := fs.files[name] + data[..k]];
      if k < |data| {
        return Some(OsError(Write, Failure));
      }
      return None;
    }

    /** File.Sync: flush to stable storage, which the model does not distinguish. */
    method SyncFile() returns (err: Option<OsError>)
      modifies this`calls
      ensures calls == old(calls) + [SyncCall]
      ensures !isOpen ==> err == Some(OsError(Sync, FileClosed))
      ensures err.Some? ==> err.value.op == Sync
    {
      calls := calls + [SyncCall];
      if !isOpen {
        return Some(OsError(Sync, FileClosed));
      }
      var ok: bool :| true;
      err := if ok then None else Some(OsError(Sync, Failure));
    }

    /** File.Close: the handle is closed even when Close reports an error. */
    method CloseFile() returns (err: Option<OsError>)
      modifies this`calls, this`isOpen
      ensures calls == old(calls) + [CloseCall]
      ensures !isOpen
      ensures !old(isOpen) ==> err == Some(OsError(Close, FileClosed))
      ensures err.Some? ==> err.value.op == Close
    {
      calls := calls + [CloseCall];
      if !isOpen {
        return Some(OsError(Close, FileClosed));
      }
      isOpen := false;
      var ok: bool :| true;
      err := if ok then None else Some(OsError(Close, Failure));
    }

    /** os.Remove of the temporary file. */
    method RemoveFile() returns (err: Option<OsError>)
      modifies this`calls, fs
      ensures calls == old(calls) + [RemoveCall(name)]
      ensures err.None? ==> name in old(fs.files) && fs.files == old(fs.files) - {name}
      ensures err.Some? ==> err.value.op == Remove && fs.files == old(fs.files)
    {
      calls := calls + [RemoveCall(name)];
      if name !in fs.files {
        return Some(OsError(Remove, DoesNotExist));
      }
      var ok: bool :| true;
      if ok {
        fs.files := fs.files - {name};
        return None;
      }
      return Some(OsError(Remove, Failure));
    }

    /** os.Rename of the temporary file onto the destination, in one step. */
    method RenameFile() returns (err: Option<OsError>)
      modifies this`calls, fs
      ensures calls == old(calls) + [RenameCall(name, path)]
      ensures err.None? ==> name in old(fs.files) && fs.files == (old(fs.files) - {name})[path := old(fs.files)[name]]
      ensures err.Some? ==> err.value.op == Rename && fs.files == old(fs.files)
    {
      calls := calls + [RenameCall(name, path)];
      if name !in fs.files {
        return Some(OsError(Rename, DoesNotExist));
      }
      var ok: bool :| true;
      if ok {
        fs.files := (fs.files - {name})[path := fs.files[name]];
        return None;
      }
      return Some(OsError(Rename, Failure));
    }

    /** Cleanup: close and remove the file, unless it has already replaced the
        destination. A failed Remove is reported in preference to a failed Close. */
    method Cleanup() returns (err: Option<OsError>)
      requires Valid()
      modifies this`calls, this`isOpen, fs
      ensures old(done) ==> err.None? && fs.files == old(fs.files) && calls == old(calls)
      ensures !old(done) ==> calls == old(calls) + (if old(closed) then [] else [CloseCall]) + [RemoveCall(name)]
      // the destination is never touched
      ensures (path in fs.files <==> path in old(fs.files)) && (path in fs.files ==> fs.files[path] == old(fs.files)[path])
      // either Remove succeeded and any error is Close's, or Remove's error is returned
      ensures !old(done) ==>
        || (name in old(fs.files) && fs.files == old(fs.files) - {name} && (err.Some? ==> err.value.op == Close))
        || (fs.files == old(fs.files) && err.Some? && err.value.op == Remove)
      ensures closed == old(closed) && done == old(done)
    {
      if done {
        return None;
      }
      var closeErr: Option<OsError> := None;
      if !closed {
        closeErr := CloseFile();
      }
      var removeErr := RemoveFile();
      if removeErr.Some? {
        return removeErr;
      }
      return closeErr;
    }

    /** CloseAtomicallyReplace: Sync, Close and Rename, stopping at the first failure.
        closed is set before Close is attempted and done only once all three have
        succeeded; the destination changes only through the final Rename. */
    method CloseAtomicallyReplace() returns (err: Option<OsError>)
      requires Valid()
      modifies this`calls, this`isOpen, this`closed, this`done, fs
      ensures err.Some? ==> fs.files == old(fs.files) && done == old(done)
      ensures err.None? ==> done && name in old(fs.files) && fs.files == (old(fs.files) - {name})[path := old(fs.files)[name]]
      ensures err.Some? && err.value.op == Sync ==> calls == old(calls) + [SyncCall] && closed == old(closed)
      ensures err.Some? && err.value.op == Close ==> calls == old(calls) + [SyncCall, CloseCall] && closed
      ensures (err.None? || err.value.op == Rename) ==> calls == old(calls) + [SyncCall, CloseCall, RenameCall(name, path)] && closed
      ensures err.Some? ==> err.value.op in {Sync, Close, Rename}
    {
      err := SyncFile();
      if err.Some? {
        return;
      }
      closed := true;
      err := CloseFile();
      if err.Some? {
        return;
      }
      err := RenameFile();
      if err.Some? {
        return;
      }
      done := true;
    }
  }

  /** createTempFile: a new, empty temporary file whose rename target is filename.
      The name ioutil.TempFile would choose at random is the parameter tempName. */
  method CreateTempFile(fs: FileSystem, filename: string, tempName: string) returns (r: Result<SimpleTempFile, OsError>)
    requires tempName != filename
    modifies fs
    ensures r.Ok? ==> && fresh(r.value) && r.value.Valid()
                      && r.value.fs == fs && r.value.name == tempName && r.value.path == filename
                      && !r.value.closed && !r.value.done && r.value.isOpen && r.value.calls == []
                      && tempName !in old(fs.files) && fs.files == old(fs.files)[tempName := ""]
    ensures r.Err? ==> fs.files == old(fs.files)
    ensures tempName in old(fs.files) ==> r.Err?
  {
    if tempName in fs.files {
      return Err(OsError(Create, AlreadyExists));
    }
    var ok: bool :| true;
    if !ok {
      return Err(OsError(Create, Failure));
    }
    fs.files := fs.files[tempName := ""];
    var f := new SimpleTempFile(fs, tempName, filename);
    return Ok(f);
  }

  /** What update does with the file once the new text is written: replace the
      destination, then clean up as its deferred call does. Cleanup never closes the
      file a second time once the replacement got past Sync, and after a successful
      replacement it does nothing at all. */
  method ReplaceThenCleanup(t: SimpleTempFile) returns (replaceErr: Option<OsError>, cleanupErr: Option<OsError>)
    requires t.Valid() && !t.closed && !t.done
    modifies t`calls, t`isOpen, t`closed, t`done, t.fs
    ensures replaceErr.None? ==> cleanupErr.None? && t.done
    ensures replaceErr.None? || replaceErr.value.op != Sync ==> Closes(t.calls) == Closes(old(t.calls)) + 1
    ensures replaceErr.None? ==> t.name in old(t.fs.files) && t.fs.files == (old(t.fs.files) - {t.name})[t.path := old(t.fs.files)[t.name]]
    ensures replaceErr.Some? ==>
      || (t.name in old(t.fs.files) && t.fs.files == old(t.fs.files) - {t.name} && (cleanupErr.Some? ==> cleanupErr.value.op == Close))
      || (t.fs.files == old(t.fs.files) && cleanupErr.Some? && cleanupErr.value.op == Remove)
  {
    ghost var before := t.calls;
    replaceErr := t.CloseAtomicallyReplace();
    ghost var mid := t.calls;
    cleanupErr := t.Cleanup();
    if replaceErr.None? || replaceErr.value.op != Sync {
      var added := mid[|before|..];
      assert before + added == mid;
      assert added == [SyncCall, CloseCall] || added == [SyncCall, CloseCall, RenameCall(t.name, t.path)];
      assert [SyncCall, CloseCall][..1] == [SyncCall];
      assert [SyncCall, CloseCall, RenameCall(t.name, t.path)][..2] == [SyncCall, CloseCall];
      assert Closes(added) == 1;
      ClosesAppend(before, added);
      var cleaned := t.calls[|mid|..];
      assert mid + cleaned == t.calls;
      assert cleaned == [] || cleaned == [RemoveCall(t.name)];
      assert Closes(cleaned) == 0;
      ClosesAppend(mid, cleaned);
    }
  }
}
