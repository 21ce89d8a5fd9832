/** The backup-then-write-then-restore sequence at the end of
    `patch_parameters` (big/big.py:255-273), over a file store that maps paths
    to contents. `os.rename` has its POSIX meaning: it fails when the source is
    missing and replaces an existing destination. */
module Store {
  import opened Base

  type Disk = map<string, seq<byte>>

  /** `self.filepath + ".OLD"`. */
  function BackupName(path: string): (b: string)
    ensures b != path
  {
    path + ".OLD"
  }

  /** How writing the patched archive ends: it completes, or it raises after
      leaving `left` at the path (`None`: the file was never created). */
  datatype WriteResult = WriteOk | WriteFailed(left: Option<seq<byte>>)

  /** The failures the operating system may report, other than a missing
      source: on the first rename, on the write, and on the restoring rename. */
  datatype Faults = Faults(renameFails: bool, write: WriteResult, restoreFails: bool)

  const NO_FAULTS := Faults(false, WriteOk, false)

  /** `os.rename(src, dst)`: `None` is the `OSError` for a missing source. */
  function Rename(disk: Disk, src: string, dst: string): (r: Option<Disk>)
    ensures r.Some? <==> src in disk
  {
    if src !in disk then None
    else if src == dst then Some(disk)
    else Some((disk - {src})[dst := disk[src]])
  }

  /** The restoring branch (big/big.py:268-272): when the backup exists it is
      renamed back over the path; a failure there is ignored. */
  function Restore(disk: Disk, path: string, restoreFails: bool): Disk
  {
    var backup := BackupName(path);
    if backup in disk && !restoreFails then Rename(disk, backup, path).value else disk
  }

  /** The store after the sequence, and `patch_parameters`' result: the path on
      success, `None` when an `OSError` was caught. */
  function Commit(disk: Disk, path: string, data: seq<byte>, faults: Faults): (Disk, Option<string>)
  {
    var backup := BackupName(path);
    var renamed := if faults.renameFails then None else Rename(disk, path, backup);
    match renamed
    case None => (Restore(disk, path, faults.restoreFails), None)
    case Some(moved) =>
      match faults.write
      case WriteOk => (moved[path := data], Some(path))
      case WriteFailed(left) =>
        var after := if left.Some? then moved[path := left.value] else moved;
        (Restore(after, path, faults.restoreFails), None)
  }

  /** Without faults the backup holds the old archive, the path holds the new
      one, and the store holds nothing else new. */
  lemma CommitSucceeds(disk: Disk, path: string, data: seq<byte>)
    requires path in disk
    ensures var (after, result) := Commit(disk, path, data, NO_FAULTS);
      && result == Some(path)
      && after.Keys == disk.Keys + {BackupName(path)}
      && after[path] == data
      && after[BackupName(path)] == disk[path]
  {
  }

  /** A missing archive fails the first rename; with no backup that leaves the
      store as it was. */
  lemma CommitMissing(disk: Disk, path: string, data: seq<byte>, faults: Faults)
    requires path !in disk && BackupName(path) !in disk
    ensures Commit(disk, path, data, faults) == (disk, None)
  {
  }

  /** When the write fails and the restore succeeds, the archive is back at its
      path with its old contents, and the backup is gone. */
  lemma CommitRestores(disk: Disk, path: string, data: seq<byte>, left: Option<seq<byte>>)
    requires path in disk
    ensures var (after, result) := Commit(disk, path, data, Faults(false, WriteFailed(left), false));
      && result == None
      && after.Keys == disk.Keys - {BackupName(path)}
      && after[path] == disk[path]
  {
  }

  /** When the first rename fails while a backup from an earlier run exists,
      the restoring rename puts that older backup over the path. */
  lemma CommitStaleBackup(disk: Disk, path: string, data: seq<byte>, write: WriteResult)
    requires BackupName(path) in disk
    ensures var (after, result) := Commit(disk, path, data, Faults(true, write, false));
      && result == None
      && after.Keys == disk.Keys - {BackupName(path)} + {path}
      && after[path] == disk[BackupName(path)]
  {
  }

  /** No outcome touches a file other than the archive and its backup. */
  lemma CommitFrame(disk: Disk, path: string, data: seq<byte>, faults: Faults, other: string)
    requires other != path && other != BackupName(path)
    ensures var after := Commit(disk, path, data, faults).0;
      && (other in after <==> other in disk)
      && (other in disk ==> after[other] == disk[other])
  {
  }

  /** The result names the path exactly when no fault occurred on the way and
      the archive existed, and then the path holds the new bytes. */
  lemma CommitResult(disk: Disk, path: string, data: seq<byte>, faults: Faults)
    ensures var (after, result) := Commit(disk, path, data, faults);
      && (result.Some? <==> path in disk && !faults.renameFails && faults.write == WriteOk)
      && (result.Some? ==> result.value == path && path in after && after[path] == data)
  {
  }
}
