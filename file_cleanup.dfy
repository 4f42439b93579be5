/** The hourly sweep of the bot's working directories
    (src/utils/fileCleanup.js): every top-level entry of `temp/` and
    `signed/` whose change time is more than an hour before the sweep's
    clock reading is removed. */
module FileCleanupService {
  import opened Text

  /** `60 * 60 * 1000`: one hour in milliseconds. */
  const MaxAgeMs: int := 3_600_000

  /** A directory's top-level entries: name to change time in whole
      milliseconds. Node's `ctimeMs` can be fractional; each value here
      stands for its floor. Since `now` and `maxAge` are integers,
      `now - c > maxAge` holds exactly when `now - floor(c) > maxAge`, so the
      staleness test is unchanged. */
  type Entries = map<string, int>

  /** `now - stat.ctimeMs > this.maxAge` */
  predicate IsStale(ctime: int, now: int, maxAge: int) {
    now - ctime > maxAge
  }

  /** The entries a sweep at `now` leaves behind. */
  function Sweep(entries: Entries, now: int, maxAge: int): Entries {
    map name | name in entries && !IsStale(entries[name], now, maxAge) :: entries[name]
  }

  /** The directories after sweeping `dirPath`: nothing happens when it does
      not exist. */
  function SweepDir(dirs: map<string, Entries>, dirPath: string, now: int, maxAge: int): map<string, Entries> {
    if dirPath in dirs then dirs[dirPath := Sweep(dirs[dirPath], now, maxAge)] else dirs
  }

  /** The file system, as far as the sweep sees it: directory path to its
      entries. */
  class Disk {
    var dirs: map<string, Entries>

    constructor(dirs: map<string, Entries>)
      ensures this.dirs == dirs
    {
      this.dirs := dirs;
    }

    /** `fs.remove(path.join(dirPath, item))` */
    method Remove(dirPath: string, item: string)
      requires dirPath in dirs
      modifies this
      ensures dirs == old(dirs)[dirPath := old(dirs)[dirPath] - {item}]
    {
      dirs := dirs[dirPath := dirs[dirPath] - {item}];
    }
  }

  class FileCleanup {
    const tempDir: string
    const signedDir: string
    const maxAge: int

    /** The directories sit next to the sources: `<root>/temp` and
        `<root>/signed`. */
    constructor(root: string)
      ensures tempDir == PathJoin(root, "temp") && signedDir == PathJoin(root, "signed")
      ensures maxAge == MaxAgeMs
    {
      tempDir := PathJoin(root, "temp");
      signedDir := PathJoin(root, "signed");
      maxAge := MaxAgeMs;
    }

    /** `cleanupDirectory(dirPath)` with the clock reading `now` taken once
        before the loop. The listing is taken once too; each entry is judged
        by its own change time. */
    method CleanupDirectory(disk: Disk, dirPath: string, now: int)
      modifies disk
      ensures disk.dirs == SweepDir(old(disk.dirs), dirPath, now, maxAge)
    {
      if dirPath !in disk.dirs {
        return;
      }
      var entries := disk.dirs[dirPath];
      var pending := entries.Keys;
      while pending != {}
        invariant pending <= entries.Keys
        invariant dirPath in disk.dirs
        invariant disk.dirs == old(disk.dirs)[dirPath := disk.dirs[dirPath]]
        invariant disk.dirs[dirPath] ==
          map name | name in entries && (name in pending || !IsStale(entries[name], now, maxAge)) :: entries[name]
        decreases pending
      {
        var item :| item in pending;
        var ctime := entries[item];
        if now - ctime > maxAge {
          disk.Remove(dirPath, item);
        }
        pending := pending - {item};
      }
      assert disk.dirs[dirPath] == Sweep(entries, now, maxAge);
    }

    /** `cleanupOldFiles`: the temp directory first, then the signed one,
        each with its own clock reading. */
    method CleanupOldFiles(disk: Disk, tempNow: int, signedNow: int)
      modifies disk
      ensures disk.dirs ==
        SweepDir(SweepDir(old(disk.dirs), tempDir, tempNow, maxAge), signedDir, signedNow, maxAge)
    {
      CleanupDirectory(disk, tempDir, tempNow);
      CleanupDirectory(disk, signedDir, signedNow);
    }
  }

  /** A sweep keeps exactly the entries at most `maxAge` old, with their
      change times, and removes the rest. */
  lemma SweepKeeps(entries: Entries, now: int, maxAge: int, name: string)
    ensures name in Sweep(entries, now, maxAge) <==> name in entries && now - entries[name] <= maxAge
    ensures name in Sweep(entries, now, maxAge) ==> Sweep(entries, now, maxAge)[name] == entries[name]
  {
  }

  /** The boundary is strict: an entry exactly `maxAge` old survives, one a
      millisecond older is removed. */
  lemma SweepBoundary(entries: Entries, name: string, now: int, maxAge: int)
    requires name in entries
    ensures now - entries[name] == maxAge ==> name in Sweep(entries, now, maxAge)
    ensures now - entries[name] == maxAge + 1 ==> name !in Sweep(entries, now, maxAge)
  {
  }

  /** Sweeping twice at the same instant removes nothing more. */
  lemma SweepIdempotent(entries: Entries, now: int, maxAge: int)
    ensures Sweep(Sweep(entries, now, maxAge), now, maxAge) == Sweep(entries, now, maxAge)
  {
  }

  /** A later sweep removes at least what an earlier one does, and sweeping
      at `t1` and then at a later `t2` is sweeping once at `t2`. */
  lemma SweepLater(entries: Entries, t1: int, t2: int, maxAge: int)
    requires t1 <= t2
    ensures Sweep(entries, t2, maxAge).Keys <= Sweep(entries, t1, maxAge).Keys
    ensures Sweep(Sweep(entries, t1, maxAge), t2, maxAge) == Sweep(entries, t2, maxAge)
  {
  }

  /** Sweeping one directory leaves every other directory as it was, and a
      missing directory is not created. */
  lemma SweepDirFrame(dirs: map<string, Entries>, dirPath: string, now: int, maxAge: int, other: string)
    requires other != dirPath
    ensures other in SweepDir(dirs, dirPath, now, maxAge) <==> other in dirs
    ensures other in dirs ==> SweepDir(dirs, dirPath, now, maxAge)[other] == dirs[other]
    ensures dirPath in SweepDir(dirs, dirPath, now, maxAge) <==> dirPath in dirs
  {
  }

  /** The two working directories are distinct, so the temp sweep never
      touches `signed/` and the signed sweep never touches `temp/`. */
  lemma WorkingDirsDistinct(root: string)
    ensures PathJoin(root, "temp") != PathJoin(root, "signed")
  {
    assert PathJoin(root, "temp")[|root| + 1] == 't';
    assert PathJoin(root, "signed")[|root| + 1] == 's';
  }
}
