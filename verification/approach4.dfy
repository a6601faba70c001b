/**
 * Approach 4, event-driven: a file-system watcher calls `on_modified` with
 * the path of the changed file; for the log file it reads the file's last
 * line and puts it, stripped, into every queue listed in `clients_4`.
 */
module EventDriven {
  import opened Wrappers
  import opened Text
  import opened Fanout

  /** `LOG_FILE`. */
  const LogFile: string := "log.txt"

  /** `readlines()[-1]` on an empty file raises `IndexError`. */
  datatype HandlerError = IndexError

  /**
   * `f.readlines()[-1].strip()`: the last line of the file, stripped; the
   * same as the last element of `splitlines()`, stripped.
   */
  function LastLine(content: string): (r: Result<string, HandlerError>)
    ensures r.Failure? <==> content == []
    ensures r.Success? ==> |Lines(content)| >= 1 && r.value == Strip(Lines(content)[|Lines(content)| - 1])
  {
    var ls := KeepEnds(content);
    if ls == [] then Failure(IndexError)
    else
      KeepEndsChomp(content);
      StripChomp(ls[|ls| - 1]);
      Success(Strip(ls[|ls| - 1]))
  }

  /** The last path component: everything after the last `/`. */
  function BaseName(path: string): (b: string)
    ensures IsSuffix(b, path)
    ensures '/' !in b
    ensures b == path || path[|path| - |b| - 1] == '/'
    decreases |path|
  {
    if path == [] || path[|path| - 1] == '/' then []
    else
      var b := BaseName(path[..|path| - 1]);
      assert path[..|path| - 1][|path| - 1 - |b|..] == path[|path| - 1 - |b|..|path| - 1];
      b + [path[|path| - 1]]
  }

  /** As written: `event.src_path.endswith(LOG_FILE)`. */
  predicate IsLogFilePathAsWritten(path: string)
  {
    EndsWith(path, LogFile)
  }

  /** Corrected: the path names the file `log.txt` itself, bare or after a directory. */
  predicate IsLogFilePath(path: string)
  {
    path == LogFile || EndsWith(path, "/" + LogFile)
  }

  /** The corrected filter accepts a path exactly when its last component is `log.txt`. */
  lemma LogFilePathIsBaseName(path: string)
    ensures IsLogFilePath(path) <==> BaseName(path) == LogFile
  {
    assert '/' !in LogFile;
    if path == LogFile {
      BaseNameNoSlash(path);
    } else if EndsWith(path, "/" + LogFile) {
      var n := |path|;
      assert path == path[..n - 8] + ['/'] + LogFile;
      BaseNameAfterSlash(path[..n - 8], LogFile);
    }
    if BaseName(path) == LogFile {
      BaseNameIsLogFile(path);
    }
  }

  lemma BaseNameIsLogFile(path: string)
    requires BaseName(path) == LogFile
    ensures IsLogFilePath(path)
  {
    if BaseName(path) != path {
      var n := |path|;
      assert path[n - 8..] == ['/'] + path[n - 7..];
    }
  }

  lemma {:induction false} BaseNameNoSlash(path: string)
    requires '/' !in path
    ensures BaseName(path) == path
    decreases |path|
  {
    if path != [] {
      assert '/' !in path[..|path| - 1];
      BaseNameNoSlash(path[..|path| - 1]);
    }
  }

  /** The corrected filter only ever rejects paths the code as written also rejects. */
  lemma CorrectedFilterIsNarrower(path: string)
    ensures IsLogFilePath(path) ==> IsLogFilePathAsWritten(path)
  {
    if EndsWith(path, "/" + LogFile) {
      var n := |path|;
      assert path[n - 7..] == path[n - 8..][1..];
    }
  }

  /**
   * As written, a file in the watched directory whose name merely ends in
   * `log.txt` (`catalog.txt`, say) passes the filter.
   */
  lemma AsWrittenAcceptsOtherFile(name: string)
    requires '/' !in name && |name| > |LogFile| && EndsWith(name, LogFile)
    ensures IsLogFilePathAsWritten("./" + name)
    ensures BaseName("./" + name) == name && !IsLogFilePath("./" + name)
  {
    var path := "./" + name;
    SuffixOfSuffix("./", name, LogFile);
    BaseNameAfterSlash(".", name);
    assert "." + ['/'] + name == path;
    LogFilePathIsBaseName(path);
  }

  lemma SuffixOfSuffix(pre: string, name: string, suffix: string)
    requires EndsWith(name, suffix)
    ensures EndsWith(pre + name, suffix)
  {
    var path := pre + name;
    assert path[|path| - |suffix|..] == name[|name| - |suffix|..];
  }

  lemma {:induction false} BaseNameAfterSlash(dir: string, name: string)
    requires '/' !in name
    ensures BaseName(dir + ['/'] + name) == name
    decreases |name|
  {
    var path := dir + ['/'] + name;
    if name != [] {
      var init := name[..|name| - 1];
      assert '/' !in init;
      assert path[..|path| - 1] == dir + ['/'] + init;
      BaseNameAfterSlash(dir, init);
      assert init + [name[|name| - 1]] == name;
    }
  }

  /**
   * The body of `on_modified` once the filter has passed: every listed
   * queue gets the stripped last line of the log and no other queue
   * changes; an empty log raises.
   */
  function Notify(clients: Registry<string>, content: string): (r: Result<Registry<string>, HandlerError>)
    requires Valid(clients)
    ensures r.Failure? <==> content == []
    ensures r.Success? ==> Valid(r.value) && r.value.live == clients.live && r.value.queues.Keys == clients.queues.Keys
    ensures r.Success? ==> LastLine(content).Success?
    ensures r.Success? ==> forall k :: k in clients.queues && k in clients.live ==>
      r.value.queues[k] == clients.queues[k] + [LastLine(content).value]
    ensures r.Success? ==> forall k :: k in clients.queues && k !in clients.live ==> r.value.queues[k] == clients.queues[k]
  {
    match LastLine(content)
    case Failure(e) => Failure(e)
    case Success(line) => Success(Publish(clients, line))
  }

  /** `LogHandler.on_modified` with the corrected filter: events for other files change nothing. */
  function OnModified(clients: Registry<string>, srcPath: string, content: string): (r: Result<Registry<string>, HandlerError>)
    requires Valid(clients)
    ensures BaseName(srcPath) != LogFile ==> r == Success(clients)
    ensures BaseName(srcPath) == LogFile ==> r == Notify(clients, content)
  {
    LogFilePathIsBaseName(srcPath);
    if IsLogFilePath(srcPath) then Notify(clients, content) else Success(clients)
  }

  /** `on_modified` as written: the same, behind the `endswith` filter. */
  function OnModifiedAsWritten(clients: Registry<string>, srcPath: string, content: string): (r: Result<Registry<string>, HandlerError>)
    requires Valid(clients)
    ensures !EndsWith(srcPath, LogFile) ==> r == Success(clients)
    ensures EndsWith(srcPath, LogFile) ==> r == Notify(clients, content)
    ensures BaseName(srcPath) == LogFile || !EndsWith(srcPath, LogFile) ==> r == OnModified(clients, srcPath, content)
  {
    LogFilePathIsBaseName(srcPath);
    CorrectedFilterIsNarrower(srcPath);
    if IsLogFilePathAsWritten(srcPath) then Notify(clients, content) else Success(clients)
  }

  /**
   * A change to such a file (`catalog.txt` beside the log) makes the code
   * as written send every client the log's last line again; the corrected
   * handler ignores it.
   */
  lemma AsWrittenRepublishesOnOtherFile(clients: Registry<string>, name: string, content: string, id: QueueId)
    requires Valid(clients) && content != [] && id in clients.live
    requires '/' !in name && |name| > |LogFile| && EndsWith(name, LogFile)
    ensures id in clients.queues
    ensures OnModifiedAsWritten(clients, "./" + name, content).Success?
    ensures LastLine(content).Success?
    ensures OnModifiedAsWritten(clients, "./" + name, content).value.queues[id] == clients.queues[id] + [LastLine(content).value]
    ensures OnModified(clients, "./" + name, content) == Success(clients)
  {
    AsWrittenAcceptsOtherFile(name);
  }
}
