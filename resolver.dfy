/**
 * The moves of src/main.rs:107-113: every listed path whose 1-based position
 * differs from the operator's choice is renamed into the quarantine
 * directory under its own filename. A failed rename ends the run.
 */
module Resolver {
  import opened Wrappers
  import opened Paths
  import opened Filesystem

  /** Every listed path has a final component (true of paths built by `Join`). */
  predicate HaveFileNames(listed: seq<Path>) {
    forall i :: 0 <= i < |listed| ==> FileName(listed[i]).Some?
  }

  /** Where a listed path is moved: the quarantine directory joined with the path's own filename. */
  function Destination(dupdir: Path, src: Path): Path
    requires FileName(src).Some?
  {
    Join(dupdir, FileName(src).value)
  }

  /** Entry `i` (0-based) is moved unless its 1-based position is the choice. */
  predicate IsMoved(i: nat, choice: nat) {
    i + 1 != choice
  }

  /** The filesystem after the moves, and the failure that stopped them, if any. */
  datatype Moves = Moves(entries: set<Path>, fault: Option<Fault>)

  /** The effect of the first `i` iterations of the rename loop. */
  function RelocatePrefix(entries: set<Path>, dirs: set<Path>, listed: seq<Path>, choice: nat, dupdir: Path, i: nat): Moves
    requires i <= |listed| && HaveFileNames(listed)
  {
    if i == 0 then Moves(entries, None)
    else
      var prev := RelocatePrefix(entries, dirs, listed, choice, dupdir, i - 1);
      var src := listed[i - 1];
      if prev.fault.Some? || !IsMoved(i - 1, choice) then prev
      else if src in prev.entries && DirectoryIn(dirs, dupdir) then Moves(prev.entries - {src} + {Destination(dupdir, src)}, None)
      else Moves(prev.entries, Some(MoveFailed(src, Destination(dupdir, src))))
  }

  /** The effect of the whole rename loop. */
  function Relocate(entries: set<Path>, dirs: set<Path>, listed: seq<Path>, choice: nat, dupdir: Path): Moves
    requires HaveFileNames(listed)
  {
    RelocatePrefix(entries, dirs, listed, choice, dupdir, |listed|)
  }

  /** The rename loop itself; a failed rename stops it with the fault. */
  method MoveAllBut(fs: FileSystem, listed: seq<Path>, choice: nat, dupdir: Path) returns (fault: Option<Fault>)
    requires HaveFileNames(listed)
    modifies fs
    ensures fs.dirs == old(fs.dirs)
    ensures Relocate(old(fs.entries), fs.dirs, listed, choice, dupdir) == Moves(fs.entries, fault)
  {
    fault := None;
    var i := 0;
    while i < |listed|
      invariant 0 <= i <= |listed|
      invariant fs.dirs == old(fs.dirs)
      invariant RelocatePrefix(old(fs.entries), fs.dirs, listed, choice, dupdir, i) == Moves(fs.entries, None)
    {
      if i + 1 != choice {
        var name := FileName(listed[i]).value;
        var ok := fs.Rename(listed[i], dupdir, name);
        if !ok {
          fault := Some(MoveFailed(listed[i], Join(dupdir, name)));
          FaultPersists(old(fs.entries), fs.dirs, listed, choice, dupdir, i + 1);
          return;
        }
      }
      i := i + 1;
    }
  }

  lemma {:induction false} FaultPersists(entries: set<Path>, dirs: set<Path>, listed: seq<Path>, choice: nat, dupdir: Path, i: nat)
    requires i <= |listed| && HaveFileNames(listed)
    requires RelocatePrefix(entries, dirs, listed, choice, dupdir, i).fault.Some?
    ensures Relocate(entries, dirs, listed, choice, dupdir) == RelocatePrefix(entries, dirs, listed, choice, dupdir, i)
    decreases |listed| - i
  {
    if i < |listed| {
      FaultPersists(entries, dirs, listed, choice, dupdir, i + 1);
    }
  }

  /** The destination keeps the moved file's name. */
  lemma DestinationKeepsFileName(dupdir: Path, src: Path)
    requires FileName(src).Some?
    ensures FileName(Destination(dupdir, src)) == FileName(src)
  {
    FileNameOfJoin(dupdir, FileName(src).value);
  }

  /** The 0-based positions that are moved for a given choice. */
  function MovedIndices(n: nat, choice: nat): set<nat> {
    set i: nat | i < n && IsMoved(i, choice)
  }

  lemma {:induction false} MovedIndicesCount(n: nat, choice: nat)
    ensures |MovedIndices(n, choice)| == if 1 <= choice <= n then n - 1 else n
  {
    if n > 0 {
      MovedIndicesCount(n - 1, choice);
      if IsMoved(n - 1, choice) {
        assert MovedIndices(n, choice) == MovedIndices(n - 1, choice) + {n - 1};
      } else {
        assert MovedIndices(n, choice) == MovedIndices(n - 1, choice);
      }
    } else {
      assert MovedIndices(n, choice) == {};
    }
  }

  /** The paths moved by the first `i` iterations. */
  function MovedSources(listed: seq<Path>, choice: nat, i: nat): set<Path>
    requires i <= |listed|
  {
    set j | 0 <= j < i && IsMoved(j, choice) :: listed[j]
  }

  /** Where the first `i` iterations put the moved paths. */
  function Destinations(listed: seq<Path>, choice: nat, dupdir: Path, i: nat): set<Path>
    requires i <= |listed| && HaveFileNames(listed)
  {
    set j | 0 <= j < i && IsMoved(j, choice) :: Destination(dupdir, listed[j])
  }

  predicate Distinct(listed: seq<Path>) {
    forall i, j :: 0 <= i < j < |listed| ==> listed[i] != listed[j]
  }

  /** No path is moved onto a different listed path. */
  predicate NoCrossing(listed: seq<Path>, dupdir: Path)
    requires HaveFileNames(listed)
  {
    forall i, j :: 0 <= i < |listed| && 0 <= j < |listed| && i != j ==> Destination(dupdir, listed[i]) != listed[j]
  }

  /** One more iteration adds at most its own entry to the moved paths and its destination to the destinations. */
  lemma MovedStep(listed: seq<Path>, choice: nat, dupdir: Path, i: nat)
    requires 0 < i <= |listed| && HaveFileNames(listed)
    ensures MovedSources(listed, choice, i)
            == MovedSources(listed, choice, i - 1) + if IsMoved(i - 1, choice) then {listed[i - 1]} else {}
    ensures Destinations(listed, choice, dupdir, i)
            == Destinations(listed, choice, dupdir, i - 1) + if IsMoved(i - 1, choice) then {Destination(dupdir, listed[i - 1])} else {}
  {
  }

  /** With distinct paths and no crossing, an entry is neither moved nor a destination before its own turn. */
  lemma NotYetMoved(listed: seq<Path>, choice: nat, dupdir: Path, i: nat)
    requires i < |listed| && HaveFileNames(listed)
    requires Distinct(listed) && NoCrossing(listed, dupdir)
    ensures listed[i] !in MovedSources(listed, choice, i)
    ensures listed[i] !in Destinations(listed, choice, dupdir, i)
  {
  }

  /** One clean iteration: a path not yet moved and not a destination is moved. */
  lemma CleanStep(entries: set<Path>, dirs: set<Path>, listed: seq<Path>, choice: nat, dupdir: Path, i: nat)
    requires 0 < i <= |listed| && HaveFileNames(listed)
    requires DirectoryIn(dirs, dupdir)
    requires RelocatePrefix(entries, dirs, listed, choice, dupdir, i - 1)
             == Moves(entries - MovedSources(listed, choice, i - 1) + Destinations(listed, choice, dupdir, i - 1), None)
    requires IsMoved(i - 1, choice) ==>
               listed[i - 1] in entries && listed[i - 1] !in MovedSources(listed, choice, i - 1) &&
               listed[i - 1] !in Destinations(listed, choice, dupdir, i - 1)
    ensures RelocatePrefix(entries, dirs, listed, choice, dupdir, i)
            == Moves(entries - MovedSources(listed, choice, i) + Destinations(listed, choice, dupdir, i), None)
  {
    var moved := MovedSources(listed, choice, i - 1);
    var dests := Destinations(listed, choice, dupdir, i - 1);
    MovedStep(listed, choice, dupdir, i);
    if IsMoved(i - 1, choice) {
      var src := listed[i - 1];
      var dst := Destination(dupdir, src);
      assert entries - moved + dests - {src} + {dst} == entries - (moved + {src}) + (dests + {dst});
    }
  }

  lemma {:induction false} RelocatePrefixClean(entries: set<Path>, dirs: set<Path>, listed: seq<Path>, choice: nat, dupdir: Path, i: nat)
    requires i <= |listed| && HaveFileNames(listed)
    requires Distinct(listed) && NoCrossing(listed, dupdir)
    requires forall p :: p in listed ==> p in entries
    requires DirectoryIn(dirs, dupdir)
    ensures RelocatePrefix(entries, dirs, listed, choice, dupdir, i)
            == Moves(entries - MovedSources(listed, choice, i) + Destinations(listed, choice, dupdir, i), None)
  {
    if i > 0 {
      RelocatePrefixClean(entries, dirs, listed, choice, dupdir, i - 1);
      assert listed[i - 1] in listed;
      NotYetMoved(listed, choice, dupdir, i - 1);
      CleanStep(entries, dirs, listed, choice, dupdir, i);
    }
  }

  /**
   * With distinct listed paths that all exist, none renamed onto another, and an
   * existing quarantine directory, the loop never fails: the chosen entry's
   * siblings leave the ROM directory and appear in the quarantine directory.
   */
  lemma RelocateClean(entries: set<Path>, dirs: set<Path>, listed: seq<Path>, choice: nat, dupdir: Path)
    requires HaveFileNames(listed)
    requires Distinct(listed) && NoCrossing(listed, dupdir)
    requires forall p :: p in listed ==> p in entries
    requires DirectoryIn(dirs, dupdir)
    ensures Relocate(entries, dirs, listed, choice, dupdir)
            == Moves(entries - MovedSources(listed, choice, |listed|) + Destinations(listed, choice, dupdir, |listed|), None)
  {
    RelocatePrefixClean(entries, dirs, listed, choice, dupdir, |listed|);
  }

  /** For a choice k in 1..n, entry k is left in place. */
  lemma {:induction false} KeptEntryStays(entries: set<Path>, dirs: set<Path>, listed: seq<Path>, choice: nat, dupdir: Path, i: nat)
    requires HaveFileNames(listed)
    requires 1 <= choice <= |listed| && listed[choice - 1] in entries
    requires forall j :: 0 <= j < |listed| && j != choice - 1 ==> listed[j] != listed[choice - 1]
    requires i <= |listed|
    ensures listed[choice - 1] in RelocatePrefix(entries, dirs, listed, choice, dupdir, i).entries
  {
    if i > 0 {
      KeptEntryStays(entries, dirs, listed, choice, dupdir, i - 1);
    }
  }

  /** Every other listed entry is moved: it appears under its own name in the quarantine directory and is gone from its old place. */
  lemma OthersMoved(entries: set<Path>, dirs: set<Path>, listed: seq<Path>, choice: nat, dupdir: Path)
    requires HaveFileNames(listed)
    requires Distinct(listed) && NoCrossing(listed, dupdir)
    requires forall p :: p in listed ==> p in entries
    requires DirectoryIn(dirs, dupdir)
    ensures Relocate(entries, dirs, listed, choice, dupdir).fault == None
    ensures forall i :: 0 <= i < |listed| && IsMoved(i, choice) ==>
              Destination(dupdir, listed[i]) in Relocate(entries, dirs, listed, choice, dupdir).entries &&
              (listed[i] in Relocate(entries, dirs, listed, choice, dupdir).entries ==> listed[i] == Destination(dupdir, listed[i]))
  {
    RelocateClean(entries, dirs, listed, choice, dupdir);
    var n := |listed|;
    forall i | 0 <= i < n && IsMoved(i, choice)
      ensures Destination(dupdir, listed[i]) in Relocate(entries, dirs, listed, choice, dupdir).entries
      ensures listed[i] in Relocate(entries, dirs, listed, choice, dupdir).entries ==> listed[i] == Destination(dupdir, listed[i])
    {
      assert listed[i] in MovedSources(listed, choice, n);
      assert Destination(dupdir, listed[i]) in Destinations(listed, choice, dupdir, n);
      if listed[i] in Destinations(listed, choice, dupdir, n) {
        var j :| 0 <= j < n && IsMoved(j, choice) && Destination(dupdir, listed[j]) == listed[i];
      }
    }
  }

  /**
   * What the operator asked for has happened in `after`: entry k is present for
   * a choice k in 1..n, and every other entry is present under its own filename
   * in the quarantine directory and gone from its old place (unless that place
   * is its destination).
   */
  predicate Resolved(listed: seq<Path>, choice: nat, dupdir: Path, after: set<Path>)
    requires HaveFileNames(listed)
  {
    && (1 <= choice <= |listed| ==> listed[choice - 1] in after)
    && forall i :: 0 <= i < |listed| && IsMoved(i, choice) ==>
         Destination(dupdir, listed[i]) in after &&
         (listed[i] in after ==> listed[i] == Destination(dupdir, listed[i]))
  }

  /** A clean run of the loop: no rename fails and the choice is carried out. */
  lemma ChoiceResolved(entries: set<Path>, dirs: set<Path>, listed: seq<Path>, choice: nat, dupdir: Path)
    requires HaveFileNames(listed)
    requires Distinct(listed) && NoCrossing(listed, dupdir)
    requires forall p :: p in listed ==> p in entries
    requires DirectoryIn(dirs, dupdir)
    ensures Relocate(entries, dirs, listed, choice, dupdir).fault == None
    ensures Resolved(listed, choice, dupdir, Relocate(entries, dirs, listed, choice, dupdir).entries)
  {
    OthersMoved(entries, dirs, listed, choice, dupdir);
    if 1 <= choice <= |listed| {
      KeptEntryStays(entries, dirs, listed, choice, dupdir, |listed|);
    }
  }

  /** A choice of 0 or past the end moves every listed entry, including the first. */
  lemma OutOfRangeMovesAll(entries: set<Path>, dirs: set<Path>, listed: seq<Path>, choice: nat, dupdir: Path)
    requires HaveFileNames(listed)
    requires Distinct(listed) && NoCrossing(listed, dupdir)
    requires forall p :: p in listed ==> p in entries
    requires DirectoryIn(dirs, dupdir)
    requires choice == 0 || choice > |listed|
    ensures forall i :: 0 <= i < |listed| ==>
              Destination(dupdir, listed[i]) in Relocate(entries, dirs, listed, choice, dupdir).entries &&
              (listed[i] in Relocate(entries, dirs, listed, choice, dupdir).entries ==> listed[i] == Destination(dupdir, listed[i]))
  {
    OthersMoved(entries, dirs, listed, choice, dupdir);
  }

  /** Paths that are neither listed nor a destination are left alone, whatever happens. */
  lemma {:induction false} UntouchedOutside(entries: set<Path>, dirs: set<Path>, listed: seq<Path>, choice: nat, dupdir: Path, p: Path, i: nat)
    requires HaveFileNames(listed) && i <= |listed|
    requires p !in listed
    requires forall j :: 0 <= j < |listed| ==> p != Destination(dupdir, listed[j])
    ensures p in RelocatePrefix(entries, dirs, listed, choice, dupdir, i).entries <==> p in entries
  {
    if i > 0 {
      UntouchedOutside(entries, dirs, listed, choice, dupdir, p, i - 1);
    }
  }

  /**
   * One iteration whose destination is not `p` cannot bring `p` back: if `p` was
   * gone (or is moved now), it is gone afterwards unless the loop failed.
   */
  lemma GoneStep(entries: set<Path>, dirs: set<Path>, listed: seq<Path>, choice: nat, dupdir: Path, p: Path, m: nat)
    requires HaveFileNames(listed) && 0 < m <= |listed|
    requires Destination(dupdir, listed[m - 1]) != p
    requires var prev := RelocatePrefix(entries, dirs, listed, choice, dupdir, m - 1);
             prev.fault.Some? || p !in prev.entries || (listed[m - 1] == p && IsMoved(m - 1, choice))
    ensures var r := RelocatePrefix(entries, dirs, listed, choice, dupdir, m);
            r.fault.Some? || p !in r.entries
  {
  }

  /** Once a listed path has been moved, it stays gone unless the loop fails (no destination is that path). */
  lemma {:induction false} GoneAfterMove(entries: set<Path>, dirs: set<Path>, listed: seq<Path>, choice: nat, dupdir: Path,
                                         i: nat, m: nat)
    requires HaveFileNames(listed)
    requires i < m <= |listed| && IsMoved(i, choice)
    requires forall j :: 0 <= j < |listed| ==> Destination(dupdir, listed[j]) != listed[i]
    ensures var r := RelocatePrefix(entries, dirs, listed, choice, dupdir, m);
            r.fault.Some? || listed[i] !in r.entries
  {
    assert Destination(dupdir, listed[m - 1]) != listed[i];
    if m > i + 1 {
      GoneAfterMove(entries, dirs, listed, choice, dupdir, i, m - 1);
    }
    GoneStep(entries, dirs, listed, choice, dupdir, listed[i], m);
  }

  /**
   * A path listed twice (the same filename twice under one game) cannot be
   * kept: whatever the choice, the run ends with the path moved away or with a
   * failed rename, and when the choice keeps neither copy the second rename fails.
   */
  lemma RepeatedPathIsNotKept(entries: set<Path>, dirs: set<Path>, listed: seq<Path>, choice: nat, dupdir: Path, i: nat, j: nat)
    requires HaveFileNames(listed)
    requires i < j < |listed| && listed[i] == listed[j]
    requires forall m :: 0 <= m < |listed| ==> Destination(dupdir, listed[m]) != listed[i]
    ensures var r := Relocate(entries, dirs, listed, choice, dupdir);
            r.fault.Some? || listed[i] !in r.entries
    ensures choice != i + 1 && choice != j + 1 ==> Relocate(entries, dirs, listed, choice, dupdir).fault.Some?
  {
    if choice != j + 1 {
      GoneAfterMove(entries, dirs, listed, choice, dupdir, j, |listed|);
    } else {
      GoneAfterMove(entries, dirs, listed, choice, dupdir, i, |listed|);
    }
    if choice != i + 1 && choice != j + 1 {
      GoneAfterMove(entries, dirs, listed, choice, dupdir, i, j);
      assert RelocatePrefix(entries, dirs, listed, choice, dupdir, j + 1).fault.Some?;
      FaultPersists(entries, dirs, listed, choice, dupdir, j + 1);
    }
  }

  /** Without the quarantine directory nothing moves, and the first rename fails. */
  lemma {:induction false} NoQuarantinePrefix(entries: set<Path>, dirs: set<Path>, listed: seq<Path>, choice: nat, dupdir: Path, m: nat)
    requires HaveFileNames(listed) && m <= |listed|
    requires !DirectoryIn(dirs, dupdir)
    ensures RelocatePrefix(entries, dirs, listed, choice, dupdir, m).entries == entries
    ensures m >= 2 ==> RelocatePrefix(entries, dirs, listed, choice, dupdir, m).fault.Some?
  {
    if m > 0 {
      NoQuarantinePrefix(entries, dirs, listed, choice, dupdir, m - 1);
      if m == 2 && IsMoved(0, choice) {
        assert RelocatePrefix(entries, dirs, listed, choice, dupdir, 1).fault.Some?;
      }
    }
  }

  /**
   * A missing quarantine directory makes the first rename of a group of two or
   * more fail, with the filesystem left as it was.
   */
  lemma NoQuarantineNoMoves(entries: set<Path>, dirs: set<Path>, listed: seq<Path>, choice: nat, dupdir: Path)
    requires HaveFileNames(listed) && |listed| > 1
    requires !DirectoryIn(dirs, dupdir)
    ensures Relocate(entries, dirs, listed, choice, dupdir).entries == entries
    ensures Relocate(entries, dirs, listed, choice, dupdir).fault.Some?
  {
    NoQuarantinePrefix(entries, dirs, listed, choice, dupdir, |listed|);
  }
}
