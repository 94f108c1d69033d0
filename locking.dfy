/**
 * The advisory lock on the shared copy in the cloud folder: a sentinel file
 * `<path>.lock` holding the owner's name. A sentinel older than five minutes
 * is stale and ignored. The sentinel files are a map from file path to what
 * the file system reports about them; the clock is a parameter.
 */
module Locking {
  import opened Options
  import opened Strings

  /** A sentinel is stale once it is more than this many seconds old. */
  const StaleAfterSeconds: int := 300

  /** What the file system holds for one sentinel file. */
  datatype Sentinel = Sentinel(content: string, mtime: int, readable: bool)

  type Sentinels = map<string, Sentinel>

  /** The sentinel path of a file. */
  function LockPath(path: string): string
  {
    path + ".lock"
  }

  /**
   * The decision of `isFileLocked` from what the file system reported: no
   * sentinel, a stale one, or an unreadable one does not lock; otherwise the
   * file is locked unless the trimmed owner is the current user.
   */
  function LockVerdict(sentinelExists: bool, ageSeconds: int, owner: Option<string>, currentUser: string): (locked: bool)
    ensures locked ==> sentinelExists && ageSeconds <= StaleAfterSeconds && owner.Some?
    ensures sentinelExists && ageSeconds <= StaleAfterSeconds && owner.Some? ==>
      (locked <==> Trim(owner.value) != currentUser)
  {
    if !sentinelExists then false
    else if ageSeconds > StaleAfterSeconds then false
    else
      match owner
      case None => false
      case Some(text) => Trim(text) != currentUser
  }

  /** `isFileLocked(path)` against the sentinel files at time `now`. */
  function IsFileLocked(locks: Sentinels, path: string, now: int, currentUser: string): (locked: bool)
    ensures locked <==>
      LockPath(path) in locks && now - locks[LockPath(path)].mtime <= StaleAfterSeconds &&
      locks[LockPath(path)].readable && Trim(locks[LockPath(path)].content) != currentUser
  {
    var p := LockPath(path);
    if p in locks then
      LockVerdict(true, now - locks[p].mtime, if locks[p].readable then Some(locks[p].content) else None, currentUser)
    else
      LockVerdict(false, 0, None, currentUser)
  }

  /** The outcome of an operation on the sentinel files: its result and the files afterwards. */
  datatype LockResult = LockResult(ok: bool, after: Sentinels)

  /**
   * `lockFile(path)`: refused, writing nothing, when another user holds a
   * live lock; otherwise the sentinel is (re)written with the current user
   * and the current time, unless the write fails.
   */
  function LockFile(locks: Sentinels, path: string, now: int, currentUser: string, writeOk: bool): (r: LockResult)
    ensures IsFileLocked(locks, path, now, currentUser) ==> !r.ok && r.after == locks
    ensures r.ok <==> !IsFileLocked(locks, path, now, currentUser) && writeOk
    ensures !r.ok ==> r.after == locks
    ensures r.ok ==> r.after.Keys == locks.Keys + {LockPath(path)}
    ensures r.ok ==> r.after[LockPath(path)] == Sentinel(currentUser, now, true)
    ensures r.ok ==> forall p :: p in locks && p != LockPath(path) ==> r.after[p] == locks[p]
  {
    if IsFileLocked(locks, path, now, currentUser) then LockResult(false, locks)
    else if writeOk then LockResult(true, locks[LockPath(path) := Sentinel(currentUser, now, true)])
    else LockResult(false, locks)
  }

  /**
   * `unlockFile(path)`: reports whether there was a sentinel and, if so,
   * asks the file system to remove it, whoever wrote it. The outcome of the
   * removal (`removeOk`) is not looked at: a failed removal leaves the
   * sentinel in place while the result still says there was one.
   */
  function UnlockFile(locks: Sentinels, path: string, removeOk: bool): (r: LockResult)
    ensures r.ok <==> LockPath(path) in locks
    ensures removeOk ==> LockPath(path) !in r.after
    ensures !removeOk ==> r.after == locks
    ensures forall p :: p != LockPath(path) ==> (p in r.after <==> p in locks) && (p in locks ==> r.after[p] == locks[p])
  {
    if LockPath(path) in locks && removeOk then LockResult(true, locks - {LockPath(path)})
    else LockResult(LockPath(path) in locks, locks)
  }

  /** A user never blocks themself, as long as their name has no surrounding whitespace. */
  lemma OwnLockNeverBlocks(locks: Sentinels, path: string, now: int, user: string)
    requires LockPath(path) in locks && Trim(locks[LockPath(path)].content) == user
    ensures !IsFileLocked(locks, path, now, user)
  {
  }

  /** A sentinel older than five minutes never locks, whoever wrote it. */
  lemma StaleLockIgnored(locks: Sentinels, path: string, now: int, user: string)
    requires LockPath(path) in locks && now - locks[LockPath(path)].mtime > StaleAfterSeconds
    ensures !IsFileLocked(locks, path, now, user)
  {
  }

  /**
   * A name with surrounding whitespace is blocked by its own lock: the owner
   * is read back trimmed but compared with the untrimmed name.
   */
  lemma PaddedUserBlocksThemself(now: int)
    ensures var after := LockFile(map[], "/cloud/stock.xlsx", now, " ann", true).after;
      IsFileLocked(after, "/cloud/stock.xlsx", now, " ann")
  {
    var after := LockFile(map[], "/cloud/stock.xlsx", now, " ann", true).after;
    var p := LockPath("/cloud/stock.xlsx");
    assert !IsFileLocked(map[], "/cloud/stock.xlsx", now, " ann");
    assert after[p] == Sentinel(" ann", now, true);
    assert Trim(" ann") == Trim("ann");
    TrimOfTrimmed("ann");
    assert Trim(" ann") != " ann" by {
      assert |"ann"| != |" ann"|;
    }
  }

  /**
   * Once a lock is taken, every other user is blocked from it for five
   * minutes, while its owner is not.
   */
  lemma AcquiredLockBlocksOthers(locks: Sentinels, path: string, now: int, user: string, writeOk: bool, later: int, other: string)
    requires LockFile(locks, path, now, user, writeOk).ok
    requires Trim(user) == user
    requires now <= later <= now + StaleAfterSeconds
    ensures other != user ==> IsFileLocked(LockFile(locks, path, now, user, writeOk).after, path, later, other)
    ensures !IsFileLocked(LockFile(locks, path, now, user, writeOk).after, path, later, user)
  {
  }

  /**
   * After an unlock whose removal succeeds nobody is blocked, and a second
   * unlock reports that there was nothing to remove. After one whose
   * removal fails every user is exactly as blocked as before.
   */
  lemma UnlockReleases(locks: Sentinels, path: string, now: int, user: string, removeOk: bool)
    ensures removeOk ==> !IsFileLocked(UnlockFile(locks, path, removeOk).after, path, now, user)
    ensures removeOk ==> !UnlockFile(UnlockFile(locks, path, removeOk).after, path, removeOk).ok
    ensures IsFileLocked(UnlockFile(locks, path, removeOk).after, path, now, user) ==> IsFileLocked(locks, path, now, user)
    ensures !removeOk ==> (IsFileLocked(UnlockFile(locks, path, removeOk).after, path, now, user) <==> IsFileLocked(locks, path, now, user))
  {
  }

  /**
   * When the removal of a freshly taken sentinel fails, every other user
   * stays blocked until the sentinel turns stale.
   */
  lemma FailedUnlockKeepsOthersOut(locks: Sentinels, path: string, now: int, user: string, writeOk: bool, later: int, other: string)
    requires LockFile(locks, path, now, user, writeOk).ok
    requires Trim(user) == user && other != user
    requires now <= later <= now + StaleAfterSeconds
    ensures UnlockFile(LockFile(locks, path, now, user, writeOk).after, path, false).ok
    ensures IsFileLocked(UnlockFile(LockFile(locks, path, now, user, writeOk).after, path, false).after, path, later, other)
  {
    AcquiredLockBlocksOthers(locks, path, now, user, writeOk, later, other);
  }
}
