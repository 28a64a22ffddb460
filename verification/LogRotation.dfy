/** Rotation of the audit log files: the descending rename loop of `rotate_log_files`, writes, and what
    survives on disk. A file is the sequence of its lines. */
module LogRotation {
  /** One line of JSON, as bytes */
  type Line = seq<bv8>

  datatype Path = Current | Backup(i: nat)

  type Files = map<Path, seq<Line>>

  function ContentOf(fs: Files, p: Path): seq<Line> {
    if p in fs then fs[p] else []
  }

  function Rename(fs: Files, from: Path, to: Path): Files
    requires from in fs
  {
    (fs - {from})[to := fs[from]]
  }

  /** Which renames and removals the file system refuses */
  datatype DiskFaults = DiskFaults(rename: Path -> bool, remove: nat -> bool)

  /** The loop over `(1..backup_count).rev()` from `i` down; false when a rename fails, which ends it. */
  function Shift(fs: Files, i: nat, faults: DiskFaults): (Files, bool)
    decreases i
  {
    if i == 0 then (fs, true)
    else if Backup(i) !in fs then Shift(fs, i - 1, faults)
    else if faults.rename(Backup(i)) then (fs, false)
    else Shift(Rename(fs, Backup(i), Backup(i + 1)), i - 1, faults)
  }

  /** The clean-up loop: removes the backups `from` to `from + n - 1`; failures are ignored. */
  function CleanUp(fs: Files, from: nat, n: nat, faults: DiskFaults): Files
    decreases n
  {
    if n == 0 then fs
    else CleanUp(if faults.remove(from) then fs else fs - {Backup(from)}, from + 1, n - 1, faults)
  }

  function Highest(backupCount: nat): nat {
    if backupCount == 0 then 0 else backupCount - 1
  }

  /** `rotate_log_files` */
  function Rotate(fs: Files, backupCount: nat, faults: DiskFaults): (Files, bool) {
    var (shifted, ok) := Shift(fs, Highest(backupCount), faults);
    if !ok || Current !in shifted || faults.rename(Current) then (shifted, false)
    else (CleanUp(Rename(shifted, Current, Backup(1)), backupCount + 1, 9, faults), true)
  }

  /** The length of a file in bytes: each line ends in a newline. */
  function Size(lines: seq<Line>): nat {
    if lines == [] then 0 else Size(lines[..|lines| - 1]) + |lines[|lines| - 1]| + 1
  }

  /** `write_to_log_file`: append, then rotate when the file has reached its maximum size. */
  function Write(fs: Files, line: Line, maxSize: nat, backupCount: nat, faults: DiskFaults): (Files, bool) {
    var appended := fs[Current := ContentOf(fs, Current) + [line]];
    if Size(appended[Current]) >= maxSize then Rotate(appended, backupCount, faults) else (appended, true)
  }

  // ---- nothing but the oldest lines is ever lost, whatever fails -------------------------------------

  /** Backups `i` down to 1, oldest first, followed by the current file */
  function Kept(fs: Files, i: nat): seq<Line> {
    if i == 0 then ContentOf(fs, Current) else ContentOf(fs, Backup(i)) + Kept(fs, i - 1)
  }

  ghost predicate IsSuffix<T>(s: seq<T>, t: seq<T>) {
    |s| <= |t| && s == t[|t| - |s|..]
  }

  lemma SuffixReflexive<T>(s: seq<T>)
    ensures IsSuffix(s, s)
  {
  }

  lemma SuffixTransitive<T>(a: seq<T>, b: seq<T>, c: seq<T>)
    requires IsSuffix(a, b) && IsSuffix(b, c)
    ensures IsSuffix(a, c)
  {
  }

  lemma SuffixExtends<T>(a: seq<T>, b: seq<T>, x: seq<T>)
    requires IsSuffix(a, b)
    ensures IsSuffix(a + x, b + x) && IsSuffix(a, x + b)
  {
  }

  /** Files above `i` play no part. */
  lemma {:induction false} KeptSame(fs: Files, gs: Files, i: nat)
    requires ContentOf(fs, Current) == ContentOf(gs, Current)
    requires forall j :: 1 <= j <= i ==> ContentOf(fs, Backup(j)) == ContentOf(gs, Backup(j))
    ensures Kept(fs, i) == Kept(gs, i)
  {
    if i > 0 {
      KeptSame(fs, gs, i - 1);
    }
  }

  /** Moving file `i` one up, over nothing or over the oldest file, keeps a suffix of the lines. */
  lemma MoveUpKeeps(fs: Files, i: nat, count: nat)
    requires 1 <= i < count && Backup(i) in fs && (i + 1 == count || Backup(i + 1) !in fs)
    ensures IsSuffix(Kept(Rename(fs, Backup(i), Backup(i + 1)), count), Kept(fs, count))
  {
    hide Rename, Kept, IsSuffix;
    if Backup(i + 1) in fs {
      MoveOverOldest(fs, i);
    } else {
      MoveUpTo(fs, i);
      RenameElsewhere(fs, i, count);
      RestSame(fs, Rename(fs, Backup(i), Backup(i + 1)), i + 1, count);
      SuffixReflexive(Kept(fs, count));
    }
  }

  lemma RenameElsewhere(fs: Files, i: nat, count: nat)
    requires Backup(i) in fs
    ensures var gs := Rename(fs, Backup(i), Backup(i + 1));
            forall j :: i + 1 < j <= count ==> ContentOf(fs, Backup(j)) == ContentOf(gs, Backup(j))
  {
  }

  lemma RenameContents(fs: Files, i: nat)
    requires 1 <= i && Backup(i) in fs
    ensures var gs := Rename(fs, Backup(i), Backup(i + 1));
            && ContentOf(gs, Backup(i + 1)) == ContentOf(fs, Backup(i)) && ContentOf(gs, Backup(i)) == []
            && Kept(gs, i - 1) == Kept(fs, i - 1)
  {
    hide Kept;
    KeptSame(fs, Rename(fs, Backup(i), Backup(i + 1)), i - 1);
  }

  /** The file that moved stands where the other one was; what that one held is lost. */
  lemma MovedKept(fs: Files, i: nat)
    requires 1 <= i && Backup(i) in fs
    ensures Kept(fs, i + 1) == ContentOf(fs, Backup(i + 1)) + Kept(Rename(fs, Backup(i), Backup(i + 1)), i + 1)
  {
    hide Kept, Rename, ContentOf;
    var gs := Rename(fs, Backup(i), Backup(i + 1));
    RenameContents(fs, i);
    KeptTwo(fs, i);
    KeptTwo(gs, i);
    assert [] + Kept(fs, i - 1) == Kept(fs, i - 1);
  }

  lemma MoveOverOldest(fs: Files, i: nat)
    requires 1 <= i && Backup(i) in fs
    ensures IsSuffix(Kept(Rename(fs, Backup(i), Backup(i + 1)), i + 1), Kept(fs, i + 1))
  {
    hide Kept, Rename, ContentOf, IsSuffix;
    var kept := Kept(Rename(fs, Backup(i), Backup(i + 1)), i + 1);
    MovedKept(fs, i);
    SuffixReflexive(kept);
    SuffixExtends(kept, kept, ContentOf(fs, Backup(i + 1)));
  }

  lemma KeptTwo(fs: Files, i: nat)
    requires 1 <= i
    ensures Kept(fs, i + 1) == ContentOf(fs, Backup(i + 1)) + (ContentOf(fs, Backup(i)) + Kept(fs, i - 1))
  {
    assert Kept(fs, i) == ContentOf(fs, Backup(i)) + Kept(fs, i - 1);
  }

  lemma MoveUpTo(fs: Files, i: nat)
    requires 1 <= i && Backup(i) in fs && Backup(i + 1) !in fs
    ensures Kept(Rename(fs, Backup(i), Backup(i + 1)), i + 1) == Kept(fs, i + 1)
  {
    hide Kept, Rename;
    MovedKept(fs, i);
  }

  /** Equal lines up to `i` and equal files above give equal lines. */
  lemma {:induction false} RestSame(fs: Files, gs: Files, i: nat, count: nat)
    requires i <= count && Kept(fs, i) == Kept(gs, i)
    requires forall j :: i < j <= count ==> ContentOf(fs, Backup(j)) == ContentOf(gs, Backup(j))
    ensures Kept(fs, count) == Kept(gs, count)
    decreases count
  {
    if i < count {
      RestSame(fs, gs, i, count - 1);
    }
  }

  /** The rename loop, completed or cut short, keeps a suffix of the lines; completed, it frees slot 1. */
  lemma {:induction false} ShiftKeeps(fs: Files, i: nat, count: nat, faults: DiskFaults)
    requires i < count && (i + 1 == count || Backup(i + 1) !in fs)
    ensures var (gs, ok) := Shift(fs, i, faults);
            && IsSuffix(Kept(gs, count), Kept(fs, count))
            && (ok ==> count == 1 || Backup(1) !in gs)
            && (Current in gs <==> Current in fs) && ContentOf(gs, Current) == ContentOf(fs, Current)
    decreases i
  {
    hide IsSuffix, Kept;
    SuffixReflexive(Kept(fs, count));
    if i > 0 {
      if Backup(i) !in fs {
        ShiftKeeps(fs, i - 1, count, faults);
      } else if !faults.rename(Backup(i)) {
        var gs := Rename(fs, Backup(i), Backup(i + 1));
        MoveUpKeeps(fs, i, count);
        ShiftKeeps(gs, i - 1, count, faults);
        SuffixTransitive(Kept(Shift(gs, i - 1, faults).0, count), Kept(gs, count), Kept(fs, count));
      }
    }
  }

  lemma {:induction false} CleanUpAt(fs: Files, from: nat, n: nat, faults: DiskFaults, p: Path)
    ensures var gs := CleanUp(fs, from, n, faults);
            && (p in gs <==> p in fs && !(p.Backup? && from <= p.i < from + n && !faults.remove(p.i)))
            && (p in gs ==> gs[p] == fs[p])
    decreases n
  {
    if n > 0 {
      CleanUpAt(if faults.remove(from) then fs else fs - {Backup(from)}, from + 1, n - 1, faults, p);
    }
  }

  lemma CurrentToBackupKeeps(fs: Files, count: nat)
    requires Current in fs && (count <= 1 || Backup(1) !in fs)
    ensures IsSuffix(Kept(Rename(fs, Current, Backup(1)), count), Kept(fs, count))
  {
    var gs := Rename(fs, Current, Backup(1));
    if count == 0 {
    } else if count == 1 {
      assert Kept(gs, 1) == fs[Current] + Kept(gs, 0) == fs[Current];
      assert Kept(fs, 1) == ContentOf(fs, Backup(1)) + Kept(fs, 0);
    } else {
      assert Kept(gs, 1) == fs[Current] + Kept(gs, 0) == fs[Current];
      assert Kept(fs, 1) == [] + Kept(fs, 0);
      RestSame(fs, gs, 1, count);
    }
  }

  /** The clean-up loop only touches files beyond the count. */
  lemma CleanUpKeeps(fs: Files, count: nat, faults: DiskFaults)
    ensures Kept(CleanUp(fs, count + 1, 9, faults), count) == Kept(fs, count)
  {
    hide CleanUp, Kept;
    var gs := CleanUp(fs, count + 1, 9, faults);
    CleanUpAt(fs, count + 1, 9, faults, Current);
    forall j: nat | 1 <= j <= count ensures ContentOf(gs, Backup(j)) == ContentOf(fs, Backup(j)) {
      CleanUpAt(fs, count + 1, 9, faults, Backup(j));
    }
    KeptSame(gs, fs, count);
  }

  lemma RotateKeeps(fs: Files, count: nat, faults: DiskFaults)
    ensures IsSuffix(Kept(Rotate(fs, count, faults).0, count), Kept(fs, count))
  {
    hide CleanUp, Kept, IsSuffix, Rename, Shift;
    var (shifted, ok) := Shift(fs, Highest(count), faults);
    if count > 0 {
      ShiftKeeps(fs, count - 1, count, faults);
    } else {
      ShiftNothing(fs, faults);
      SuffixReflexive(Kept(fs, 0));
    }
    if ok && Current in shifted && !faults.rename(Current) {
      CurrentToBackupKeeps(shifted, count);
      var moved := Rename(shifted, Current, Backup(1));
      CleanUpKeeps(moved, count, faults);
      SuffixTransitive(Kept(moved, count), Kept(shifted, count), Kept(fs, count));
    }
  }

  lemma ShiftNothing(fs: Files, faults: DiskFaults)
    ensures Shift(fs, 0, faults) == (fs, true)
  {
  }

  // ---- how much one rotation loses -----------------------------------------------------------------------

  /** The file that gives way when all slots are taken */
  function Oldest(fs: Files, count: nat): seq<Line> {
    ContentOf(fs, if count == 0 then Current else Backup(count))
  }

  /** Nothing is lost, or this one file is. */
  ghost predicate LosesAtMost(fs: Files, gs: Files, count: nat, lost: seq<Line>) {
    Kept(fs, count) == Kept(gs, count) || Kept(fs, count) == lost + Kept(gs, count)
  }

  lemma MoveUpSame(fs: Files, i: nat, count: nat)
    requires 1 <= i < count && Backup(i) in fs && Backup(i + 1) !in fs
    ensures Kept(Rename(fs, Backup(i), Backup(i + 1)), count) == Kept(fs, count)
  {
    hide Rename, Kept;
    MoveUpTo(fs, i);
    RenameElsewhere(fs, i, count);
    RestSame(fs, Rename(fs, Backup(i), Backup(i + 1)), i + 1, count);
  }

  /** Over free slots the loop moves files without losing a line, whether it is completed or cut short. */
  lemma {:induction false} ShiftLosesNothing(fs: Files, i: nat, count: nat, faults: DiskFaults)
    requires i < count && Backup(i + 1) !in fs
    ensures Kept(Shift(fs, i, faults).0, count) == Kept(fs, count)
    decreases i
  {
    hide Kept;
    if i > 0 {
      if Backup(i) !in fs {
        ShiftLosesNothing(fs, i - 1, count, faults);
      } else if !faults.rename(Backup(i)) {
        MoveUpSame(fs, i, count);
        ShiftLosesNothing(Rename(fs, Backup(i), Backup(i + 1)), i - 1, count, faults);
      }
    }
  }

  lemma ShiftLosesOldest(fs: Files, count: nat, faults: DiskFaults)
    requires count >= 1
    ensures LosesAtMost(fs, Shift(fs, count - 1, faults).0, count, ContentOf(fs, Backup(count)))
  {
    hide Kept;
    var i := count - 1;
    if i > 0 {
      if Backup(i) !in fs {
        ShiftLosesNothing(fs, i - 1, count, faults);
      } else if !faults.rename(Backup(i)) {
        MovedKept(fs, i);
        ShiftLosesNothing(Rename(fs, Backup(i), Backup(i + 1)), i - 1, count, faults);
      }
    }
  }

  lemma CurrentToBackupLoses(fs: Files, count: nat)
    requires Current in fs && (count <= 1 || Backup(1) !in fs)
    ensures var gs := Rename(fs, Current, Backup(1));
            if count >= 2 then Kept(gs, count) == Kept(fs, count)
            else Kept(fs, count) == Oldest(fs, count) + Kept(gs, count)
  {
    var gs := Rename(fs, Current, Backup(1));
    if count == 1 {
      assert Kept(gs, 1) == fs[Current] + Kept(gs, 0) == fs[Current];
      assert Kept(fs, 1) == ContentOf(fs, Backup(1)) + Kept(fs, 0);
    } else if count >= 2 {
      assert Kept(gs, 1) == fs[Current] + Kept(gs, 0) == fs[Current];
      assert Kept(fs, 1) == [] + Kept(fs, 0);
      RestSame(fs, gs, 1, count);
    }
  }

  /** For every number of backups and every fault: a rotation, completed or cut short, loses at most the one file in the
      last slot, and that only as a whole. */
  lemma RotateLosesOldest(fs: Files, count: nat, faults: DiskFaults)
    ensures LosesAtMost(fs, Rotate(fs, count, faults).0, count, Oldest(fs, count))
  {
    hide CleanUp, Kept, Rename, Shift, IsSuffix;
    var (shifted, ok) := Shift(fs, Highest(count), faults);
    if count > 0 {
      ShiftLosesOldest(fs, count, faults);
      ShiftKeeps(fs, count - 1, count, faults);
    }
    if count <= 1 {
      ShiftNothing(fs, faults);
    }
    if ok && Current in shifted && !faults.rename(Current) {
      CurrentToBackupLoses(shifted, count);
      CleanUpKeeps(Rename(shifted, Current, Backup(1)), count, faults);
    }
  }

  /** A run of writes, each under its own disk faults */
  function Writes(lines: seq<Line>, faults: nat -> DiskFaults, maxSize: nat, count: nat): Files {
    if lines == [] then map[]
    else
      var n := |lines| - 1;
      Write(Writes(lines[..n], faults, maxSize, count), lines[n], maxSize, count, faults(n)).0
  }

  lemma {:induction false} KeptAppend(fs: Files, line: Line, count: nat)
    ensures Kept(fs[Current := ContentOf(fs, Current) + [line]], count) == Kept(fs, count) + [line]
  {
    if count > 0 {
      KeptAppend(fs, line, count - 1);
      assert ContentOf(fs, Backup(count)) + (Kept(fs, count - 1) + [line]) == Kept(fs, count) + [line];
    }
  }

  lemma WriteKeeps(fs: Files, line: Line, maxSize: nat, count: nat, faults: DiskFaults, lines: seq<Line>)
    requires IsSuffix(Kept(fs, count), lines)
    ensures IsSuffix(Kept(Write(fs, line, maxSize, count, faults).0, count), lines + [line])
  {
    hide Rotate, Kept, IsSuffix, Size, ContentOf;
    var appended := fs[Current := ContentOf(fs, Current) + [line]];
    KeptAppend(fs, line, count);
    SuffixExtends(Kept(fs, count), lines, [line]);
    RotateKeeps(appended, count, faults);
    SuffixTransitive(Kept(Rotate(appended, count, faults).0, count), Kept(appended, count), lines + [line]);
  }

  /** For every number of backups, every size limit and every pattern of failing renames and removals:
      backups from the oldest to the newest followed by the current file are a suffix of all lines ever
      written. */
  lemma {:induction false} OnlyOldestLinesLost(lines: seq<Line>, faults: nat -> DiskFaults, maxSize: nat, count: nat)
    ensures IsSuffix(Kept(Writes(lines, faults, maxSize, count), count), lines)
  {
    hide Write, Kept, IsSuffix;
    if lines == [] {
      NothingKept(count);
      SuffixReflexive<Line>([]);
    } else {
      var n := |lines| - 1;
      OnlyOldestLinesLost(lines[..n], faults, maxSize, count);
      WriteKeeps(Writes(lines[..n], faults, maxSize, count), lines[n], maxSize, count, faults(n), lines[..n]);
      assert lines == lines[..n] + [lines[n]];
    }
  }

  lemma {:induction false} NothingKept(count: nat)
    ensures Kept(map[], count) == []
  {
    if count > 0 {
      NothingKept(count - 1);
    }
  }

  // ---- without faults rotation is a bounded queue of whole files ----------------------------------------

  /** The log as it would be without deletion: all rotated files, newest first, and the open one. */
  datatype FullLog = FullLog(rotated: seq<seq<Line>>, open: seq<Line>)

  function FullWrite(log: FullLog, line: Line, maxSize: nat): FullLog {
    var longer := log.open + [line];
    if Size(longer) >= maxSize then FullLog([longer] + log.rotated, []) else FullLog(log.rotated, longer)
  }

  function FullLogOf(lines: seq<Line>, maxSize: nat): FullLog {
    if lines == [] then FullLog([], [])
    else FullWrite(FullLogOf(lines[..|lines| - 1], maxSize), lines[|lines| - 1], maxSize)
  }

  function OldestFirst(files: seq<seq<Line>>): seq<Line> {
    if files == [] then [] else OldestFirst(files[1..]) + files[0]
  }

  /** Nothing is missing from the full log. */
  lemma {:induction false} FullLogIsComplete(lines: seq<Line>, maxSize: nat)
    ensures var log := FullLogOf(lines, maxSize); OldestFirst(log.rotated) + log.open == lines
  {
    if lines != [] {
      var n := |lines| - 1;
      FullLogIsComplete(lines[..n], maxSize);
      var log := FullLogOf(lines[..n], maxSize);
      var longer := log.open + [lines[n]];
      assert ([longer] + log.rotated)[1..] == log.rotated;
      assert OldestFirst(log.rotated) + longer == OldestFirst(log.rotated) + log.open + [lines[n]];
      assert lines == lines[..n] + [lines[n]];
    }
  }

  /** File `.i` holds the i-th most recently rotated log, for as many as there are backups, and there is no
      other file. */
  ghost predicate Holds(fs: Files, log: FullLog, count: nat) {
    && ContentOf(fs, Current) == log.open
    && (forall i: nat :: Backup(i) in fs <==> 1 <= i <= count && i <= |log.rotated|)
    && (forall i: nat :: Backup(i) in fs ==> fs[Backup(i)] == log.rotated[i - 1])
  }

  const NO_FAULTS := DiskFaults(_ => false, _ => false)

  predicate SlotFilled(n: nat, i: nat, count: nat, j: nat) {
    || (1 <= j <= i && j <= n)
    || (i + 2 <= j <= count && j - 1 <= n)
    || (j == i + 1 == count && count <= n)
  }

  ghost predicate SlotMidway(fs: Files, rotated: seq<seq<Line>>, i: nat, count: nat, j: nat) {
    && (Backup(j) in fs <==> SlotFilled(|rotated|, i, count, j))
    && (Backup(j) in fs ==> fs[Backup(j)] == if i + 2 <= j then rotated[j - 2] else rotated[j - 1])
  }

  /** Midway through the loop: slots up to `i` not yet moved, slots from `i + 2` moved. */
  ghost predicate Midway(fs: Files, rotated: seq<seq<Line>>, i: nat, count: nat) {
    forall j: nat :: SlotMidway(fs, rotated, i, count, j)
  }

  lemma MidwayStep(fs: Files, rotated: seq<seq<Line>>, i: nat, count: nat)
    requires 1 <= i < count && Midway(fs, rotated, i, count)
    ensures Midway(if Backup(i) in fs then Rename(fs, Backup(i), Backup(i + 1)) else fs, rotated, i - 1, count)
  {
    var gs := if Backup(i) in fs then Rename(fs, Backup(i), Backup(i + 1)) else fs;
    var h: nat := i - 1;
    assert SlotMidway(fs, rotated, i, count, i) && SlotMidway(fs, rotated, i, count, i + 1);
    forall j: nat ensures SlotMidway(gs, rotated, h, count, j) {
      assert SlotMidway(fs, rotated, i, count, j);
    }
  }

  lemma {:induction false} ShiftMoves(fs: Files, rotated: seq<seq<Line>>, i: nat, count: nat)
    requires i < count && Midway(fs, rotated, i, count)
    ensures var (gs, ok) := Shift(fs, i, NO_FAULTS);
            ok && Midway(gs, rotated, 0, count)
            && (Current in gs <==> Current in fs) && ContentOf(gs, Current) == ContentOf(fs, Current)
    decreases i
  {
    hide Midway;
    if i > 0 {
      MidwayStep(fs, rotated, i, count);
      ShiftMoves(if Backup(i) in fs then Rename(fs, Backup(i), Backup(i + 1)) else fs, rotated, i - 1, count);
    }
  }

  lemma HoldsIsMidway(fs: Files, log: FullLog, count: nat)
    requires Holds(fs, log, count)
    ensures Midway(fs, log.rotated, Highest(count), count)
  {
    forall j: nat ensures SlotMidway(fs, log.rotated, Highest(count), count, j) {
      assert Backup(j) in fs <==> 1 <= j <= count && j <= |log.rotated|;
    }
  }

  /** After the loop: slot 1 is free, the current file takes it, and what lies beyond the count goes. */
  lemma LastMoveAt(fs: Files, rotated: seq<seq<Line>>, count: nat, j: nat)
    requires Midway(fs, rotated, 0, count) && Current in fs
    ensures var gs := CleanUp(Rename(fs, Current, Backup(1)), count + 1, 9, NO_FAULTS);
            var queue := [fs[Current]] + rotated;
            && Current !in gs
            && (Backup(j) in gs <==> 1 <= j <= count && j <= |queue|)
            && (Backup(j) in gs ==> gs[Backup(j)] == queue[j - 1])
  {
    hide CleanUp;
    var moved := Rename(fs, Current, Backup(1));
    CleanUpAt(moved, count + 1, 9, NO_FAULTS, Backup(j));
    CleanUpAt(moved, count + 1, 9, NO_FAULTS, Current);
    assert SlotMidway(fs, rotated, 0, count, j);
  }

  /** A rotation without faults drops the oldest file when all slots are taken, and nothing else. */
  lemma RotateIsPush(fs: Files, log: FullLog, count: nat)
    requires Holds(fs, log, count) && Current in fs
    ensures var (gs, ok) := Rotate(fs, count, NO_FAULTS);
            ok && Holds(gs, FullLog([log.open] + log.rotated, []), count)
  {
    hide CleanUp, Shift, Rename, Midway;
    HoldsIsMidway(fs, log, count);
    if count > 0 {
      ShiftMoves(fs, log.rotated, count - 1, count);
    } else {
      ShiftNothing(fs, NO_FAULTS);
    }
    var shifted := Shift(fs, Highest(count), NO_FAULTS).0;
    forall j: nat
      ensures var gs := Rotate(fs, count, NO_FAULTS).0; var queue := [log.open] + log.rotated;
              && Current !in gs
              && (Backup(j) in gs <==> 1 <= j <= count && j <= |queue|)
              && (Backup(j) in gs ==> gs[Backup(j)] == queue[j - 1])
    {
      LastMoveAt(shifted, log.rotated, count, j);
    }
  }

  /** After every fault-free run of writes and rotations, the files on disk are the full log with all but
      the newest `count` rotated files gone. */
  lemma {:induction false} RotationIsBoundedQueue(lines: seq<Line>, maxSize: nat, count: nat)
    ensures Holds(Writes(lines, _ => NO_FAULTS, maxSize, count), FullLogOf(lines, maxSize), count)
  {
    hide Rotate, Size;
    if lines != [] {
      var n := |lines| - 1;
      RotationIsBoundedQueue(lines[..n], maxSize, count);
      var fs := Writes(lines[..n], _ => NO_FAULTS, maxSize, count);
      var log := FullLogOf(lines[..n], maxSize);
      var appended := fs[Current := ContentOf(fs, Current) + [lines[n]]];
      var longer := FullLog(log.rotated, log.open + [lines[n]]);
      assert Holds(appended, longer, count);
      RotateIsPush(appended, longer, count);
    }
  }

  // ---- when files rotate, and what a rotation does to any files ------------------------------------------

  /** The bytes of a file: its lines, each followed by a newline */
  function Bytes(lines: seq<Line>): seq<bv8> {
    if lines == [] then [] else lines[0] + [10] + Bytes(lines[1..])
  }

  lemma {:induction false} BytesSnoc(lines: seq<Line>, line: Line)
    ensures Bytes(lines + [line]) == Bytes(lines) + line + [10]
  {
    if lines == [] {
      assert [line][1..] == [];
    } else {
      BytesSnoc(lines[1..], line);
      assert (lines + [line])[1..] == lines[1..] + [line];
    }
  }

  lemma {:induction false} SizeIsBytes(lines: seq<Line>)
    ensures Size(lines) == |Bytes(lines)|
  {
    if lines != [] {
      var n := |lines| - 1;
      SizeIsBytes(lines[..n]);
      BytesSnoc(lines[..n], lines[n]);
      assert lines == lines[..n] + [lines[n]];
    }
  }

  /** A file that is still written to: empty, or below the maximum size */
  predicate StillOpen(lines: seq<Line>, maxSize: nat) {
    lines == [] || |Bytes(lines)| < maxSize
  }

  /** A file that was rotated: its last line took it to the maximum size. */
  predicate JustFull(lines: seq<Line>, maxSize: nat) {
    lines != [] && |Bytes(lines)| >= maxSize && StillOpen(lines[..|lines| - 1], maxSize)
  }

  /** Files are rotated by the line that fills them, none earlier and none later. With `RotationIsBoundedQueue` this is
      so for the files on disk. */
  lemma {:induction false} FilesAreJustFull(lines: seq<Line>, maxSize: nat)
    ensures var log := FullLogOf(lines, maxSize);
            StillOpen(log.open, maxSize) && forall i :: 0 <= i < |log.rotated| ==> JustFull(log.rotated[i], maxSize)
  {
    hide Bytes, Size;
    if lines != [] {
      var n := |lines| - 1;
      FilesAreJustFull(lines[..n], maxSize);
      var log := FullLogOf(lines[..n], maxSize);
      var longer := log.open + [lines[n]];
      SizeIsBytes(longer);
      assert longer[..|longer| - 1] == log.open;
    }
  }

  lemma {:induction false} ShiftOkIff(fs: Files, i: nat, faults: DiskFaults)
    ensures Shift(fs, i, faults).1 <==>
              forall j: nat :: 1 <= j <= i && Backup(j) in fs ==> !faults.rename(Backup(j))
    decreases i
  {
    if i > 0 {
      if Backup(i) !in fs {
        ShiftOkIff(fs, i - 1, faults);
      } else if !faults.rename(Backup(i)) {
        ShiftOkIff(Rename(fs, Backup(i), Backup(i + 1)), i - 1, faults);
      }
    }
  }

  lemma {:induction false} ShiftElsewhere(fs: Files, i: nat, faults: DiskFaults, p: Path)
    requires p == Current || p.i > i + 1
    ensures var gs := Shift(fs, i, faults).0; (p in gs <==> p in fs) && (p in fs ==> gs[p] == fs[p])
    decreases i
  {
    if i > 0 {
      if Backup(i) !in fs {
        ShiftElsewhere(fs, i - 1, faults, p);
      } else if !faults.rename(Backup(i)) {
        ShiftElsewhere(Rename(fs, Backup(i), Backup(i + 1)), i - 1, faults, p);
      }
    }
  }

  /** A rotation succeeds if and only if there is a current file and none of the files to be moved refuses. */
  lemma RotateOkIff(fs: Files, count: nat, faults: DiskFaults)
    ensures Rotate(fs, count, faults).1 <==>
              && Current in fs && !faults.rename(Current)
              && forall j: nat :: 1 <= j < count && Backup(j) in fs ==> !faults.rename(Backup(j))
  {
    hide Shift, CleanUp, Rename;
    ShiftOkIff(fs, Highest(count), faults);
    ShiftElsewhere(fs, Highest(count), faults, Current);
  }

  /** From any files on disk: a rotation that succeeds removes the nine files beyond the count, except where removal is
      refused, and leaves those beyond these alone. */
  lemma RotateCleansUp(fs: Files, count: nat, faults: DiskFaults, j: nat)
    requires Rotate(fs, count, faults).1 && j > count && j > 1
    ensures var gs := Rotate(fs, count, faults).0;
            && (Backup(j) in gs <==> Backup(j) in fs && (j >= count + 10 || faults.remove(j)))
            && (Backup(j) in gs ==> gs[Backup(j)] == fs[Backup(j)])
  {
    hide Shift, CleanUp;
    ShiftElsewhere(fs, Highest(count), faults, Backup(j));
    var shifted := Shift(fs, Highest(count), faults).0;
    CleanUpAt(Rename(shifted, Current, Backup(1)), count + 1, 9, faults, Backup(j));
  }

  // ---- the loops ---------------------------------------------------------------------------------------

  lemma ShiftStep(fs: Files, i: nat, faults: DiskFaults)
    requires i >= 1
    ensures Backup(i) !in fs ==> Shift(fs, i, faults) == Shift(fs, i - 1, faults)
    ensures Backup(i) in fs && faults.rename(Backup(i)) ==> Shift(fs, i, faults) == (fs, false)
    ensures Backup(i) in fs && !faults.rename(Backup(i)) ==>
              Shift(fs, i, faults) == Shift(Rename(fs, Backup(i), Backup(i + 1)), i - 1, faults)
  {
  }

  lemma CleanUpNothing(fs: Files, from: nat, faults: DiskFaults)
    ensures CleanUp(fs, from, 0, faults) == fs
  {
  }

  lemma CleanUpStep(fs: Files, from: nat, n: nat, faults: DiskFaults)
    requires n >= 1
    ensures CleanUp(fs, from, n, faults)
         == CleanUp(if Backup(from) in fs && !faults.remove(from) then fs - {Backup(from)} else fs,
                    from + 1, n - 1, faults)
  {
    assert Backup(from) !in fs ==> fs - {Backup(from)} == fs;
  }

  class LogFiles {
    const maxFileSize: nat
    const backupCount: nat
    var files: Files
    var writerOpen: bool

    constructor (maxFileSize: nat, backupCount: nat)
      ensures files == map[] && this.maxFileSize == maxFileSize && this.backupCount == backupCount
    {
      this.maxFileSize, this.backupCount := maxFileSize, backupCount;
      files, writerOpen := map[], false;
    }

    method RotateLogFiles(faults: DiskFaults) returns (ok: bool)
      modifies this
      ensures (files, ok) == Rotate(old(files), backupCount, faults)
      ensures !writerOpen
    {
      hide Shift, CleanUp, Rename;
      writerOpen := false;
      var i := Highest(backupCount);
      while i >= 1
        invariant Shift(files, i, faults) == Shift(old(files), Highest(backupCount), faults)
        invariant !writerOpen
      {
        ShiftStep(files, i, faults);
        if Backup(i) in files {
          if faults.rename(Backup(i)) {
            return false;
          }
          files := Rename(files, Backup(i), Backup(i + 1));
        }
        i := i - 1;
      }
      ShiftNothing(files, faults);
      if Current !in files || faults.rename(Current) {
        return false;
      }
      files := Rename(files, Current, Backup(1));
      ghost var moved := files;
      var j := backupCount + 1;
      while j < backupCount + 10
        invariant backupCount + 1 <= j <= backupCount + 10
        invariant CleanUp(files, j, backupCount + 10 - j, faults) == CleanUp(moved, backupCount + 1, 9, faults)
        invariant !writerOpen
      {
        CleanUpStep(files, j, backupCount + 10 - j, faults);
        if Backup(j) in files && !faults.remove(j) {
          files := files - {Backup(j)};
        }
        j := j + 1;
      }
      CleanUpNothing(files, j, faults);
      return true;
    }

    method WriteToLogFile(line: Line, faults: DiskFaults) returns (ok: bool)
      modifies this
      ensures (files, ok) == Write(old(files), line, maxFileSize, backupCount, faults)
    {
      hide Rotate, Size;
      if !writerOpen {
        writerOpen := true;
        if Current !in files {
          files := files[Current := []];
        }
      }
      files := files[Current := ContentOf(files, Current) + [line]];
      assert files == old(files)[Current := ContentOf(old(files), Current) + [line]];
      if Size(files[Current]) >= maxFileSize {
        ok := RotateLogFiles(faults);
      } else {
        ok := true;
      }
    }
  }
}
