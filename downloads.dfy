/**
 * The download record store: the listener callbacks that move a download
 * through its states, the open streams, and the user actions of the
 * downloads page (cancel, clear, open, reveal, snapshot).
 */
module Downloads {
  import opened Wrappers
  import opened Materializer
  import opened Snapshot
  import Strings

  const OpenFailedError: string := "Failed to open file for writing"
  const DownloadFailedError: string := "Download failed"

  // ----- What each callback does to one record -----

  /** The name shown before the server suggests one: the sanitised tail of the URL. */
  function DefaultDisplayName(url: string): (name: string)
    ensures name != [] && IsSafeFilename(name)
  {
    SanitizedName(DeriveFilename(url, ""))
  }

  /** The record with its display name filled in from the URL when it is still empty. */
  function WithDisplayName(r: Record): (s: Record)
    ensures s.displayName != []
    ensures r.displayName != [] ==> s == r
    ensures r.displayName == [] ==> s == r.(displayName := DefaultDisplayName(r.url))
  {
    if r.displayName == [] then r.(displayName := DefaultDisplayName(r.url)) else r
  }

  /** `OnRequestDownload`: the record reset to a fresh request for the URL, whatever state it was in. */
  function RequestedRecord(r: Record, url: string, now: int): (s: Record)
    ensures s.id == r.id && s.sequence == r.sequence
    ensures s.url == url && s.status == Requested && s.error == [] && s.path == []
    ensures s.finishedAt == 0 && s.expectedBytes == -1 && s.receivedBytes == 0 && s.startedAt == now
    ensures s.displayName == if r.displayName == [] then DefaultDisplayName(url) else r.displayName
  {
    var reset := r.(url := url, status := Requested, error := "", finishedAt := 0, path := "",
                    expectedBytes := -1, receivedBytes := 0);
    WithDisplayName(reset).(startedAt := now)
  }

  /** The URL a record keeps at `OnBeginDownload`: its own, unless it has none. */
  function BeginUrl(r: Record, url: string): (u: string)
    ensures r.url != [] ==> u == r.url
    ensures u == [] <==> r.url == [] && url == []
  {
    if r.url == [] then url else r.url
  }

  /** The unique path `OnBeginDownload` opens: the sanitised name derived from the kept URL and the suggestion. */
  function BeginPath(dir: string, r: Record, url: string, filename: string, existing: set<string>): (p: string)
    ensures dir <= p
  {
    MaterializedPath(dir, BeginUrl(r, url), filename, existing)
  }

  /**
   * The derive, sanitise and make-unique pipeline: a path inside dir (and
   * free unless dir/name and all its numbered variants exist, by
   * UniquePathIsFree).
   */
  function MaterializedPath(dir: string, url: string, filename: string, existing: set<string>): (p: string)
    ensures dir <= p
  {
    UniquePath(dir, SanitizedName(DeriveFilename(url, filename)), existing)
  }

  /**
   * `OnBeginDownload` for a stream opened (or not) on `path`: in progress on
   * that path, or failed with no path when the file could not be opened.
   */
  function BegunRecord(r: Record, url: string, expected: int, now: int, path: string, streamOpen: bool): (s: Record)
    ensures s.id == r.id && s.url == BeginUrl(r, url)
    ensures s.expectedBytes == expected && s.receivedBytes == 0 && s.startedAt == now && s.finishedAt == 0
    ensures s.displayName == FileName(path)
    ensures streamOpen ==> s.status == InProgress && s.path == path && s.error == []
    ensures !streamOpen ==> s.status == Failed && s.path == [] && s.error == OpenFailedError
  {
    var started := r.(url := BeginUrl(r, url), status := InProgress, expectedBytes := expected,
                      receivedBytes := 0, startedAt := now, error := "", finishedAt := 0,
                      displayName := FileName(path), path := path);
    if streamOpen then started else started.(status := Failed, error := OpenFailedError, path := "")
  }

  /** `OnReceiveDataForDownload` for a chunk of `n` bytes on an open stream. */
  function ReceivedRecord(r: Record, n: nat): (s: Record)
    ensures s.receivedBytes == r.receivedBytes + n
    ensures s.status == if r.status == Requested then InProgress else r.status
    ensures s.displayName != [] && s.path == r.path && s.url == r.url && s.id == r.id
    ensures s.displayName == WithDisplayName(r).displayName
    ensures s.(status := r.status, receivedBytes := r.receivedBytes, displayName := r.displayName) == r
  {
    var promoted := if r.status == Requested then r.(status := InProgress) else r;
    var named := WithDisplayName(promoted);
    if n > 0 then named.(receivedBytes := named.receivedBytes + n) else named
  }

  /** `OnFinishDownload`: completed unless it already failed or was cancelled; the byte count reaches the expected size. */
  function FinishedRecord(r: Record, now: int): (s: Record)
    ensures s.status == if r.status == Failed || r.status == Cancelled then r.status else Completed
    ensures IsTerminal(s.status)
    ensures s.receivedBytes >= r.receivedBytes
    ensures r.expectedBytes >= 0 ==> s.receivedBytes == if r.receivedBytes < r.expectedBytes then r.expectedBytes else r.receivedBytes
    ensures r.expectedBytes < 0 ==> s.receivedBytes == r.receivedBytes
    ensures s.path == r.path && s.finishedAt == now && s.displayName != []
    ensures s.displayName == WithDisplayName(r).displayName
    ensures s.(status := r.status, receivedBytes := r.receivedBytes, displayName := r.displayName, finishedAt := r.finishedAt) == r
  {
    var status := if r.status != Failed && r.status != Cancelled then Completed else r.status;
    var received := if r.expectedBytes >= 0 && r.receivedBytes < r.expectedBytes then r.expectedBytes else r.receivedBytes;
    WithDisplayName(r.(status := status, receivedBytes := received)).(finishedAt := now)
  }

  /** `OnFailDownload`: failed, with its path forgotten. */
  function FailedRecord(r: Record, now: int): (s: Record)
    ensures s.status == Failed && s.error == DownloadFailedError && s.path == []
    ensures s.finishedAt == now && s.displayName != []
    ensures s.receivedBytes == r.receivedBytes && s.expectedBytes == r.expectedBytes
    ensures s.displayName == WithDisplayName(r).displayName
    ensures s.(status := r.status, error := r.error, path := r.path, finishedAt := r.finishedAt, displayName := r.displayName) == r
  {
    WithDisplayName(r.(status := Failed, error := DownloadFailedError)).(finishedAt := now, path := "")
  }

  /** `CancelDownload`: only the status changes; path and finish time stay. */
  function CancelledRecord(r: Record): (s: Record)
    ensures s.status == Cancelled
    ensures s == r.(status := Cancelled)
  {
    r.(status := Cancelled)
  }

  // ----- Properties of the record transitions -----

  /** A repeated finish only moves the finish time. */
  lemma FinishIdempotent(r: Record, t1: int, t2: int)
    ensures FinishedRecord(FinishedRecord(r, t1), t2) == FinishedRecord(r, t2)
  {
  }

  /** A repeated failure only moves the finish time. */
  lemma FailIdempotent(r: Record, t1: int, t2: int)
    ensures FailedRecord(FailedRecord(r, t1), t2) == FailedRecord(r, t2)
  {
  }

  /** How the data arrives in chunks does not matter: two chunks count as one of their total size. */
  lemma ReceiveAdditive(r: Record, a: nat, b: nat)
    ensures ReceivedRecord(ReceivedRecord(r, a), b) == ReceivedRecord(r, a + b)
  {
  }

  /** A failed download is never offered for opening, and a cancelled one keeps its path but is not offered either. */
  lemma FailedAndCancelledNotOpenable(r: Record, now: int)
    ensures !CanOpen(FailedRecord(r, now))
    ensures !CanOpen(CancelledRecord(r)) && CancelledRecord(r).path == r.path
  {
  }

  /** A finish can neither revive a failed or cancelled download nor leave fewer bytes than expected. */
  lemma FinishKeepsFailure(r: Record, now: int)
    ensures (r.status == Failed || r.status == Cancelled) <==> FinishedRecord(r, now).status != Completed
    ensures FinishedRecord(r, now).expectedBytes >= 0 ==> FinishedRecord(r, now).receivedBytes >= FinishedRecord(r, now).expectedBytes
  {
  }

  /**
   * A download that opened its file, received any chunks and finished is
   * completed, openable exactly when its path is non-empty, and counts at
   * least the expected bytes.
   */
  lemma {:induction false} SuccessfulDownload(r: Record, url: string, expected: int, t0: int, path: string, chunks: seq<nat>, t1: int)
    ensures var s := FinishedRecord(ReceiveAll(BegunRecord(r, url, expected, t0, path, true), chunks), t1);
      s.status == Completed && (CanOpen(s) <==> path != []) && s.path == path &&
      s.receivedBytes == if expected >= 0 && Sum(chunks) < expected then expected else Sum(chunks)
  {
    var b := BegunRecord(r, url, expected, t0, path, true);
    ReceiveAllSpec(b, chunks);
  }

  /** A status is not monotone: a new request resets even a finished record. */
  lemma RequestResetsTerminal(r: Record, url: string, now: int)
    requires IsTerminal(r.status)
    ensures RequestedRecord(r, url, now).status == Requested
    ensures !IsTerminal(RequestedRecord(r, url, now).status)
  {
  }

  function Sum(ns: seq<nat>): nat {
    if ns == [] then 0 else Sum(ns[..|ns| - 1]) + ns[|ns| - 1]
  }

  /** The record after chunks of the given sizes, in order. */
  function ReceiveAll(r: Record, chunks: seq<nat>): Record {
    if chunks == [] then r else ReceivedRecord(ReceiveAll(r, chunks[..|chunks| - 1]), chunks[|chunks| - 1])
  }

  /** Receiving on an in-progress record keeps everything but the byte count, which grows by the total. */
  lemma {:induction false} ReceiveAllSpec(r: Record, chunks: seq<nat>)
    requires r.status == InProgress
    ensures ReceiveAll(r, chunks).(displayName := r.displayName) == r.(receivedBytes := r.receivedBytes + Sum(chunks))
  {
    if chunks != [] {
      ReceiveAllSpec(r, chunks[..|chunks| - 1]);
    }
  }

  // ----- Bulk removal -----

  /** A record ClearFinishedDownloads removes: finished one way or another and with no open stream. */
  predicate Clearable(id: nat, r: Record, active: map<nat, string>) {
    IsTerminal(r.status) && id !in active
  }

  /** The records ClearFinishedDownloads keeps. */
  ghost function Cleared(records: map<nat, Record>, active: map<nat, string>): (c: map<nat, Record>)
    ensures c.Keys <= records.Keys
    ensures forall id :: id in records && id in active ==> id in c && c[id] == records[id]
  {
    map id | id in records && !Clearable(id, records[id], active) :: records[id]
  }

  /** Clearing twice is clearing once, open downloads survive, and nothing clearable is left. */
  lemma ClearedProperties(records: map<nat, Record>, active: map<nat, string>)
    requires active.Keys <= records.Keys
    ensures var c := Cleared(records, active);
      Cleared(c, active) == c &&
      active.Keys <= c.Keys &&
      c.Keys <= records.Keys &&
      (forall id :: id in c ==> c[id] == records[id] && !Clearable(id, c[id], active)) &&
      (forall id :: id in records && !Clearable(id, records[id], active) ==> id in c)
  {
    var c := Cleared(records, active);
    assert Cleared(c, active) == c;
  }

  /**
   * A download the server names "." is not written over the download
   * directory's own "." entry: unless all 999 numbered names are taken, it
   * gets ". (i)" for the first free i.
   */
  lemma DotNameNotReused(dir: string, url: string, existing: set<string>)
    requires JoinPath(dir, ".") in existing
    ensures MaterializedPath(dir, url, ".", existing) != JoinPath(dir, ".") ||
      forall j :: 1 <= j <= MaxCandidates ==> CandidateTaken(dir, FileName(JoinPath(dir, ".")), existing, j)
  {
    KeepValidOfSafe(".");
    assert SanitizedName(DeriveFilename(url, ".")) == ".";
    UniquePathIsFree(dir, ".", existing);
  }

  // ----- The manager -----

  /** A map updated twice at one key holds only the second value there. */
  lemma OverwriteTwice<K, V>(m: map<K, V>, k: K, a: V, b: V)
    ensures m[k := a][k := b] == m[k := b]
  {
  }

  /** What `std::filesystem::exists` is true of: every file and every directory. */
  function ExistingPaths(files: map<string, seq<byte>>, dirs: set<string>): set<string> {
    files.Keys + dirs
  }

  class DownloadManager {
    /** The directory downloads are written to. */
    const downloadDir: string
    /** The id NextDownloadId hands out next. */
    var nextId: nat
    /** Every record by id; an ordered map in the source. */
    var records: map<nat, Record>
    /** The downloads with an open stream, with the path that stream was opened on. */
    var active: map<nat, string>
    /** The files on disk by full path, with their contents. */
    var files: map<string, seq<byte>>
    /**
     * The directories on disk by full path, among them the "." and ".."
     * entries of the download directory, which exists once the manager has
     * made sure of it; no operation here creates or removes a directory.
     */
    const dirs: set<string>


    /** Every open stream belongs to a record, and every record sits under its own id. */
    ghost predicate Valid()
      reads this
    {
      nextId >= 1 &&
      JoinPath(downloadDir, ".") in dirs && JoinPath(downloadDir, "..") in dirs &&
      files.Keys !! dirs &&
      active.Keys <= records.Keys &&
      forall id :: id in records ==> records[id].id == id
    }

    constructor (dir: string, existing: map<string, seq<byte>>, existingDirs: set<string>)
      requires JoinPath(dir, ".") in existingDirs && JoinPath(dir, "..") in existingDirs
      requires existing.Keys !! existingDirs
      ensures Valid()
      ensures downloadDir == dir && nextId == 1 && records == map[] && active == map[]
      ensures files == existing && dirs == existingDirs
    {
      downloadDir := dir;
      dirs := existingDirs;
      nextId := 1;
      records := map[];
      active := map[];
      files := existing;
    }

    /** Hands out the counter and advances it by one, so ids are distinct and increasing. */
    method NextDownloadId() returns (id: nat)
      requires Valid()
      modifies this
      ensures Valid()
      ensures id == old(nextId) && nextId == id + 1
      ensures records == old(records) && active == old(active) && files == old(files)
    {
      id := nextId;
      nextId := nextId + 1;
    }

    /** The record for id, created with the declared defaults if there is none. */
    method GetOrCreateRecord(id: nat, now: int) returns (r: Record)
      requires Valid()
      modifies this
      ensures Valid()
      ensures records == if id in old(records) then old(records) else old(records)[id := NewRecord(id, now)]
      ensures id in records && r == records[id] && records == old(records)[id := r]
      ensures nextId == old(nextId) && active == old(active) && files == old(files)
    {
      if id !in records {
        records := records[id := NewRecord(id, now)];
      }
      r := records[id];
    }

    /** The display name filled in from the URL when empty, through the sanitising loop. */
    method FillDisplayName(r: Record) returns (s: Record)
      ensures s == WithDisplayName(r)
    {
      s := r;
      if r.displayName == [] {
        var name := SanitizeFilename(DeriveFilename(r.url, ""));
        s := r.(displayName := name);
      }
    }

    /** Closes the stream of id, if any, and deletes the record's file when asked and the path is non-empty. */
    method CloseStream(id: nat, removeFile: bool)
      requires Valid()
      modifies this
      ensures Valid()
      ensures active == old(active) - {id}
      ensures files == if removeFile && id in records && records[id].path != [] then old(files) - {records[id].path} else old(files)
      ensures records == old(records) && nextId == old(nextId)
    {
      active := active - {id};
      if removeFile && id in records && records[id].path != [] {
        files := files - {records[id].path};
      }
    }

    method OnRequestDownload(id: nat, url: string, now: int) returns (accepted: bool)
      requires Valid()
      modifies this
      ensures Valid()
      ensures accepted
      ensures var r := if id in old(records) then old(records)[id] else NewRecord(id, now);
        records == old(records)[id := RequestedRecord(r, Strings.CString(url), now)]
      ensures '\0' !in records[id].url
      ensures active == old(active) && files == old(files) && nextId == old(nextId)
    {
      var r := GetOrCreateRecord(id, now);
      r := r.(url := Strings.CString(url), status := Requested, error := "", finishedAt := 0, path := "",
              expectedBytes := -1, receivedBytes := 0);
      r := FillDisplayName(r);
      r := r.(startedAt := now);
      records := records[id := r];
      accepted := true;
    }

    /** The derive, sanitise and make-unique pipeline against the files present now. */
    method MaterializePath(u: string, filename: string) returns (path: string)
      ensures path == MaterializedPath(downloadDir, u, filename, ExistingPaths(files, dirs))
    {
      var sanitized := SanitizeFilename(DeriveFilename(u, filename));
      path := EnsureUniquePath(downloadDir, sanitized, ExistingPaths(files, dirs));
    }

    /**
     * Opens the download's file at a unique path in the download directory;
     * `streamOpen` says whether the open succeeds when the path is not a
     * directory; a directory never opens as a file. On success the file is
     * created empty and the stream registered; on failure nothing is
     * registered. The URL and the suggested name are read as C strings,
     * up to their first NUL.
     */
    method OnBeginDownload(id: nat, url: string, filename: string, expected: int, now: int, streamOpen: bool)
      requires Valid()
      modifies this
      ensures Valid()
      ensures var r := if id in old(records) then old(records)[id] else NewRecord(id, now);
        var path := BeginPath(downloadDir, r, Strings.CString(url), Strings.CString(filename), ExistingPaths(old(files), dirs));
        var isOpen := streamOpen && path !in dirs;
        records == old(records)[id := BegunRecord(r, Strings.CString(url), expected, now, path, isOpen)] &&
        (isOpen ==> active == old(active)[id := path] && files == old(files)[path := []]) &&
        (!isOpen ==> active == old(active) && files == old(files))
      ensures nextId == old(nextId)
    {
      ghost var before := if id in records then records[id] else NewRecord(id, now);
      var u := Strings.CString(url);
      var suggested := Strings.CString(filename);
      ghost var existing := ExistingPaths(files, dirs);
      ghost var path := BeginPath(downloadDir, before, u, suggested, existing);
      ghost var begun := BegunRecord(before, u, expected, now, path, streamOpen && path !in dirs);
      var r := GetOrCreateRecord(id, now);
      assert r == before && ExistingPaths(files, dirs) == existing;
      var fullPath := MaterializePath(BeginUrl(r, u), suggested);
      assert fullPath == path && files == old(files) && active == old(active);
      var isOpen := streamOpen && fullPath !in dirs;
      var started := BegunRecord(r, u, expected, now, fullPath, isOpen);
      assert started == begun;
      OpenStream(id, started, fullPath, isOpen);
      OverwriteTwice(old(records), id, r, started);
    }

    /** Stores the begun record and, when the file opened, creates it empty and registers its stream. */
    method OpenStream(id: nat, r: Record, path: string, streamOpen: bool)
      requires Valid() && r.id == id
      requires streamOpen ==> path !in dirs
      modifies this
      ensures Valid()
      ensures records == old(records)[id := r]
      ensures streamOpen ==> active == old(active)[id := path] && files == old(files)[path := []]
      ensures !streamOpen ==> active == old(active) && files == old(files)
      ensures nextId == old(nextId)
    {
      records := records[id := r];
      if streamOpen {
        files := files[path := []];
        active := active[id := path];
      }
    }

    /** A chunk of data for id: appended to its open file and counted; ignored when id has no stream. */
    method OnReceiveDataForDownload(id: nat, data: seq<byte>)
      requires Valid()
      modifies this
      ensures Valid()
      ensures id !in old(active) ==> records == old(records) && files == old(files)
      ensures id in old(active) ==>
        records == old(records)[id := ReceivedRecord(old(records)[id], |data|)] &&
        files == if |data| > 0 && old(active)[id] in old(files)
                 then old(files)[old(active)[id] := old(files)[old(active)[id]] + data]
                 else old(files)
      ensures active == old(active) && nextId == old(nextId)
    {
      if id !in active {
        return;
      }
      var r := records[id];
      if r.status == Requested {
        r := r.(status := InProgress);
      }
      r := FillDisplayName(r);
      if |data| > 0 {
        var path := active[id];
        if path in files {
          files := files[path := files[path] + data];
        }
        r := r.(receivedBytes := r.receivedBytes + |data|);
      }
      records := records[id := r];
    }

    /** The end of the transfer: the record is finished and the stream closed, keeping the file. */
    method OnFinishDownload(id: nat, now: int)
      requires Valid()
      modifies this
      ensures Valid()
      ensures records == if id in old(records) then old(records)[id := FinishedRecord(old(records)[id], now)] else old(records)
      ensures active == old(active) - {id} && files == old(files) && nextId == old(nextId)
    {
      if id in records {
        var r := records[id];
        var status := if r.status != Failed && r.status != Cancelled then Completed else r.status;
        r := r.(status := status);
        if r.expectedBytes >= 0 && r.receivedBytes < r.expectedBytes {
          r := r.(receivedBytes := r.expectedBytes);
        }
        r := FillDisplayName(r);
        r := r.(finishedAt := now);
        records := records[id := r];
      }
      CloseStream(id, false);
    }

    /**
     * A failed transfer: the record fails and forgets its path before the
     * stream is closed, so the partial file is not deleted.
     */
    method OnFailDownload(id: nat, now: int)
      requires Valid()
      modifies this
      ensures Valid()
      ensures records == if id in old(records) then old(records)[id := FailedRecord(old(records)[id], now)] else old(records)
      ensures active == old(active) - {id}
      ensures files == old(files)
      ensures nextId == old(nextId)
    {
      if id in records {
        var r := records[id];
        r := r.(status := Failed, error := DownloadFailedError);
        r := FillDisplayName(r);
        r := r.(finishedAt := now, path := "");
        records := records[id := r];
      }
      CloseStream(id, true);
    }

    /** Cancels an open download: the record is cancelled, the stream closed and the file at its path deleted. */
    method CancelDownload(id: nat) returns (cancelled: bool)
      requires Valid()
      modifies this
      ensures Valid()
      ensures cancelled == (id in old(active))
      ensures !cancelled ==> records == old(records) && active == old(active) && files == old(files)
      ensures cancelled ==>
        records == old(records)[id := CancelledRecord(old(records)[id])] &&
        active == old(active) - {id} &&
        files == if old(records)[id].path != [] then old(files) - {old(records)[id].path} else old(files)
      ensures nextId == old(nextId)
    {
      if id !in active {
        return false;
      }
      records := records[id := records[id].(status := Cancelled)];
      CloseStream(id, true);
      cancelled := true;
    }

    /** Removes every finished, failed or cancelled record without an open stream; the others are untouched. */
    method ClearFinishedDownloads()
      requires Valid()
      modifies this
      ensures Valid()
      ensures records == Cleared(old(records), old(active))
      ensures active == old(active) && files == old(files) && nextId == old(nextId)
    {
      var pending := records.Keys;
      while pending != {}
        invariant pending <= old(records).Keys
        invariant active == old(active) && files == old(files) && nextId == old(nextId)
        invariant records == map id | id in old(records) && (id in pending || !Clearable(id, old(records)[id], active)) :: old(records)[id]
        decreases |pending|
      {
        var id :| id in pending;
        if IsTerminal(records[id].status) && id !in active {
          records := records - {id};
        }
        pending := pending - {id};
      }
    }

    /** Whether the shell is asked to open the file: only a completed download with a path; `shellOpens` is the shell's answer. */
    method OpenDownload(id: nat, shellOpens: bool) returns (ok: bool)
      ensures ok <==> id in records && records[id].status == Completed && records[id].path != [] && shellOpens
    {
      if id !in records {
        return false;
      }
      if records[id].status != Completed || records[id].path == [] {
        return false;
      }
      ok := shellOpens;
    }

    /** Whether the file manager is asked to show the file: any record with a path, whatever its status. */
    method RevealDownload(id: nat, shellOpens: bool) returns (ok: bool)
      ensures ok <==> id in records && records[id].path != [] && shellOpens
    {
      if id !in records {
        return false;
      }
      if records[id].path == [] {
        return false;
      }
      ok := shellOpens;
    }

    /** The largest id still to be written. */
    static method MaxKey(s: set<nat>) returns (m: nat)
      requires s != {}
      ensures m == Max(s)
    {
      m :| m in s;
      var rest := s - {m};
      while rest != {}
        invariant rest <= s && m in s
        invariant forall k :: k in s && k !in rest ==> k <= m
        decreases |rest|
      {
        var k :| k in rest;
        if k > m {
          m := k;
        }
        rest := rest - {k};
      }
      assert forall k :: k in s ==> k <= m;
      MaxUnique(s, m);
    }

    /** The snapshot of every record, newest id first, as the downloads page reads it. */
    method GetDownloadsJSON() returns (json: string)
      requires Valid()
      ensures json == SnapshotJson(records)
    {
      var pending := records.Keys;
      var items := "";
      var first := true;
      ghost var done: seq<nat> := [];
      DescendingIdsMembers(records.Keys);
      while pending != {}
        invariant pending <= records.Keys
        invariant forall k :: k in done ==> k in records
        invariant DescendingIds(records.Keys) == done + DescendingIds(pending)
        invariant first <==> done == []
        invariant items == ItemsJson(done, records)
        decreases |pending|
      {
        var id := MaxKey(pending);
        ItemsJsonAppend(done, id, records);
        DescendingIdsTake(DescendingIds(records.Keys), done, pending);
        if !first {
          items := items + ",";
        }
        first := false;
        items := items + RecordJson(records[id]);
        done := done + [id];
        pending := pending - {id};
      }
      assert DescendingIds(pending) == [];
      assert DescendingIds(records.Keys) == done by {
        assert done + DescendingIds(pending) == done;
      }
      assert items == ItemsJson(DescendingIds(records.Keys), records);
      json := "{\"items\":[" + items + "]}";
    }
  }

  /** The deciding fact behind MaxKey: a member of the set no smaller than any other is the maximum. */
  lemma MaxUnique(s: set<nat>, m: nat)
    requires m in s && forall k :: k in s ==> k <= m
    ensures m == Max(s)
  {
  }

  /**
   * What the snapshot promises and what RevealDownload checks differ: a
   * cancelled download keeps its path, so it can be revealed although the
   * snapshot says it cannot.
   */
  lemma RevealWiderThanSnapshot(r: Record)
    requires r.path != []
    ensures var c := CancelledRecord(r);
      c.path != [] && !CanOpen(c)
  {
  }
}
