/**
 * The run of src/main.rs:69-119 once the catalog is read: group the records,
 * then visit each game once, in the map's (unspecified) order, prompting and
 * moving files for every game with at least two existing copies.
 */
module Dedup {
  import opened Wrappers
  import opened Paths
  import opened Filesystem
  import opened Grouping
  import opened Candidates
  import opened Choice
  import opened Resolver

  /** One prompt shown to the operator: the game, its numbered paths, and the choice read back. */
  datatype Prompt = Prompt(name: string, listed: seq<Path>, choice: nat)

  /** How far a run has got: the filesystem, the prompts so far, and the fault that ended it, if any. */
  datatype Session = Session(entries: set<Path>, prompts: seq<Prompt>, fault: Option<Fault>)

  datatype RunOutcome =
    | CatalogUnreadable(message: string)          // reported on standard error; nothing else happens
    | Aborted(prompts: seq<Prompt>, fault: Fault) // a panic ended the run
    | Finished(prompts: seq<Prompt>)

  /** The line read for the n-th prompt; once input is exhausted `read_line` yields "". */
  function Answer(lines: seq<string>, n: nat): string {
    if n < |lines| then lines[n] else ""
  }

  /** Every listed filename is a single path component, as `Grouped` guarantees. */
  predicate ValidGroups(groups: GameMap) {
    forall n :: n in groups ==> forall f :: f in groups[n] ==> IsComponent(f)
  }

  /** One iteration of the loop over the map (src/main.rs:85-115). */
  function Visit(s: Session, dirs: set<Path>, name: string, filenames: seq<string>, romdir: Path, dupdir: Path, lines: seq<string>): Session
    requires forall f :: f in filenames ==> IsComponent(f)
  {
    if |filenames| <= 1 then s
    else
      var listed := Existing(s.entries, romdir, filenames);
      if |listed| <= 1 then s
      else
        ExistingNamed(s.entries, romdir, filenames);
        var choice := ParseChoice(Answer(lines, |s.prompts|));
        var moved := Relocate(s.entries, dirs, listed, choice, dupdir);
        Session(moved.entries, s.prompts + [Prompt(name, listed, choice)], moved.fault)
  }

  /** The games visited in `order`, stopping at the first fault. */
  function VisitAll(entries: set<Path>, dirs: set<Path>, groups: GameMap, order: seq<string>, romdir: Path, dupdir: Path, lines: seq<string>): Session
    requires ValidGroups(groups)
    requires forall n :: n in order ==> n in groups
  {
    if order == [] then Session(entries, [], None)
    else
      var prev := VisitAll(entries, dirs, groups, order[..|order| - 1], romdir, dupdir, lines);
      var name := order[|order| - 1];
      if prev.fault.Some? then prev else Visit(prev, dirs, name, groups[name], romdir, dupdir, lines)
  }

  /** The filenames the grouping stores are single path components. */
  lemma GroupedValid(games: seq<Game>)
    ensures ValidGroups(Grouped(games))
  {
    forall n, f | n in Grouped(games) && f in Grouped(games)[n]
      ensures IsComponent(f)
    {
      FilenamesForMember(games, n, f);
    }
  }

  /**
   * One iteration of the loop over the map (src/main.rs:86-114): the existence
   * checks, the prompt and the moves for one game.
   */
  method VisitGame(fs: FileSystem, prompts: seq<Prompt>, name: string, filenames: seq<string>,
                   romdir: Path, dupdir: Path, lines: seq<string>)
    returns (prompts': seq<Prompt>, fault: Option<Fault>)
    requires forall f :: f in filenames ==> IsComponent(f)
    modifies fs
    ensures fs.dirs == old(fs.dirs)
    ensures Visit(Session(old(fs.entries), prompts, None), fs.dirs, name, filenames, romdir, dupdir, lines)
            == Session(fs.entries, prompts', fault)
  {
    prompts', fault := prompts, None;
    if |filenames| > 1 {
      var duplicates := CollectExisting(fs, romdir, filenames);
      if |duplicates| > 1 {
        ExistingNamed(fs.entries, romdir, filenames);
        var choice := ParseChoice(Answer(lines, |prompts|));
        fault := MoveAllBut(fs, duplicates, choice, dupdir);
        prompts' := prompts + [Prompt(name, duplicates, choice)];
      }
    }
  }

  /**
   * The body of `main` once the catalog has been read (src/main.rs:69-119).
   * `visited` is the order in which the map's iteration happened to visit the games.
   */
  method Run(fs: FileSystem, catalog: Result<seq<Game>, string>, romdir: Path, dupdir: Path, lines: seq<string>)
    returns (outcome: RunOutcome, visited: seq<string>)
    modifies fs
    ensures fs.dirs == old(fs.dirs)
    ensures catalog.Failure? ==> outcome == CatalogUnreadable(catalog.error) && fs.entries == old(fs.entries)
    ensures catalog.Success? && !AllNamed(catalog.value) ==>
              outcome.Aborted? && outcome.prompts == [] && outcome.fault.MalformedPath? && fs.entries == old(fs.entries)
    ensures catalog.Success? && AllNamed(catalog.value) ==>
              var groups := Grouped(catalog.value);
              ValidGroups(groups) && Distinct(visited) && (forall n :: n in visited ==> n in groups) &&
              var s := VisitAll(old(fs.entries), fs.dirs, groups, visited, romdir, dupdir, lines);
              fs.entries == s.entries &&
              (s.fault.None? ==> outcome == Finished(s.prompts) && forall n :: n in groups ==> n in visited) &&
              (s.fault.Some? ==> outcome == Aborted(s.prompts, s.fault.value))
  {
    visited := [];
    if catalog.Failure? {
      return CatalogUnreadable(catalog.error), visited;
    }
    var built := BuildGameMap(catalog.value);
    if built.Failure? {
      return Aborted([], built.error), visited;
    }
    var groups := built.value;
    GroupedValid(catalog.value);
    var remaining := groups.Keys;
    var prompts: seq<Prompt> := [];
    while remaining != {}
      invariant remaining <= groups.Keys
      invariant forall n :: n in visited ==> n in groups && n !in remaining
      invariant forall n :: n in groups ==> n in remaining || n in visited
      invariant Distinct(visited)
      invariant fs.dirs == old(fs.dirs)
      invariant VisitAll(old(fs.entries), fs.dirs, groups, visited, romdir, dupdir, lines) == Session(fs.entries, prompts, None)
      decreases remaining
    {
      var name :| name in remaining;
      assert (visited + [name])[..|visited|] == visited;
      var fault;
      prompts, fault := VisitGame(fs, prompts, name, groups[name], romdir, dupdir, lines);
      visited := visited + [name];
      remaining := remaining - {name};
      if fault.Some? {
        return Aborted(prompts, fault.value), visited;
      }
    }
    outcome := Finished(prompts);
  }

  /**
   * What a prompt promises: it is for a game with more than one catalog
   * filename, lists at least two of that game's joined filenames, and uses the
   * answer read for it.
   */
  predicate Actionable(pr: Prompt, k: nat, groups: GameMap, romdir: Path, lines: seq<string>) {
    && pr.name in groups
    && |groups[pr.name]| > 1
    && |pr.listed| > 1
    && (forall p :: p in pr.listed ==> p in JoinAll(romdir, groups[pr.name]))
    && pr.choice == ParseChoice(Answer(lines, k))
  }

  predicate AllActionable(prompts: seq<Prompt>, groups: GameMap, romdir: Path, lines: seq<string>) {
    forall k :: 0 <= k < |prompts| ==> Actionable(prompts[k], k, groups, romdir, lines)
  }

  /**
   * What one visit adds: nothing, or one prompt for this game that lists
   * exactly its joined filenames that exist, one per catalog position present.
   */
  lemma VisitPrompt(s: Session, dirs: set<Path>, name: string, groups: GameMap, romdir: Path, dupdir: Path, lines: seq<string>)
    requires ValidGroups(groups) && name in groups
    ensures var t := Visit(s, dirs, name, groups[name], romdir, dupdir, lines);
            t == s ||
            (|t.prompts| == |s.prompts| + 1 && t.prompts[..|s.prompts|] == s.prompts &&
             Actionable(t.prompts[|s.prompts|], |s.prompts|, groups, romdir, lines))
    ensures var t := Visit(s, dirs, name, groups[name], romdir, dupdir, lines);
            |t.prompts| > |s.prompts| ==>
              var listed := t.prompts[|s.prompts|].listed;
              && (forall p :: p in listed <==> p in s.entries && p in JoinAll(romdir, groups[name]))
              && |listed| == |PresentPositions(s.entries, romdir, groups[name])|
  {
    var filenames := groups[name];
    var listed := Existing(s.entries, romdir, filenames);
    forall p ensures p in listed <==> p in s.entries && p in JoinAll(romdir, filenames) {
      ExistingMember(s.entries, romdir, filenames, p);
    }
    ExistingCount(s.entries, romdir, filenames);
  }

  /** Every prompt of a run is actionable, whatever order the games are visited in. */
  lemma {:induction false} PromptsAreActionable(entries: set<Path>, dirs: set<Path>, groups: GameMap, order: seq<string>,
                                                romdir: Path, dupdir: Path, lines: seq<string>)
    requires ValidGroups(groups)
    requires forall n :: n in order ==> n in groups
    ensures AllActionable(VisitAll(entries, dirs, groups, order, romdir, dupdir, lines).prompts, groups, romdir, lines)
  {
    if order != [] {
      var init := order[..|order| - 1];
      var name := order[|order| - 1];
      PromptsAreActionable(entries, dirs, groups, init, romdir, dupdir, lines);
      var prev := VisitAll(entries, dirs, groups, init, romdir, dupdir, lines);
      var next := VisitAll(entries, dirs, groups, order, romdir, dupdir, lines);
      assert AllActionable(prev.prompts, groups, romdir, lines);
      if prev.fault.Some? {
        assert next == prev;
      } else {
        VisitPrompt(prev, dirs, name, groups, romdir, dupdir, lines);
        assert next == Visit(prev, dirs, name, groups[name], romdir, dupdir, lines);
        AllActionableStep(prev.prompts, next.prompts, groups, romdir, lines);
      }
    }
  }

  /** Appending one actionable prompt keeps a prompt list actionable. */
  lemma AllActionableStep(prev: seq<Prompt>, next: seq<Prompt>, groups: GameMap, romdir: Path, lines: seq<string>)
    requires AllActionable(prev, groups, romdir, lines)
    requires next == prev ||
             (|next| == |prev| + 1 && next[..|prev|] == prev && Actionable(next[|prev|], |prev|, groups, romdir, lines))
    ensures AllActionable(next, groups, romdir, lines)
  {
    if next != prev {
      forall k | 0 <= k < |next| ensures Actionable(next[k], k, groups, romdir, lines) {
        if k < |prev| {
          assert next[..|prev|][k] == next[k];
        }
      }
    }
  }

  /**
   * A visit prompts exactly when the game has more than one catalog filename
   * and at least two of its positions exist; otherwise nothing changes at all.
   */
  lemma VisitPromptsExactly(s: Session, dirs: set<Path>, name: string, filenames: seq<string>, romdir: Path, dupdir: Path, lines: seq<string>)
    requires forall f :: f in filenames ==> IsComponent(f)
    ensures var t := Visit(s, dirs, name, filenames, romdir, dupdir, lines);
            (|t.prompts| > |s.prompts| <==> |filenames| > 1 && |PresentPositions(s.entries, romdir, filenames)| >= 2) &&
            (|t.prompts| <= |s.prompts| ==> t == s)
  {
    ExistingCount(s.entries, romdir, filenames);
  }

  /**
   * An answer that does not parse as a usize (empty, blank, non-numeric, a bare
   * '+', or too large) keeps the first listed copy in place, when the copies are
   * distinct paths.
   */
  lemma DefaultAnswerKeepsFirst(s: Session, dirs: set<Path>, name: string, filenames: seq<string>, romdir: Path, dupdir: Path, lines: seq<string>)
    requires forall f :: f in filenames ==> IsComponent(f)
    requires ParseChoice(Answer(lines, |s.prompts|)) == DefaultChoice
    requires Distinct(Existing(s.entries, romdir, filenames))
    requires |filenames| > 1 && |Existing(s.entries, romdir, filenames)| > 1
    ensures Existing(s.entries, romdir, filenames)[0] in Visit(s, dirs, name, filenames, romdir, dupdir, lines).entries
  {
    var listed := Existing(s.entries, romdir, filenames);
    ExistingNamed(s.entries, romdir, filenames);
    assert listed[0] in listed;
    ExistingMember(s.entries, romdir, filenames, listed[0]);
    KeptEntryStays(s.entries, dirs, listed, 1, dupdir, |listed|);
  }

  /** A kept path is only ever moved onto itself: no other copy's destination is a different listed path. */
  lemma ExistingDestinations(entries: set<Path>, romdir: Path, filenames: seq<string>, dupdir: Path)
    requires forall f :: f in filenames ==> IsComponent(f)
    ensures HaveFileNames(Existing(entries, romdir, filenames))
    ensures var listed := Existing(entries, romdir, filenames);
            forall i, j :: 0 <= i < |listed| && 0 <= j < |listed| && Destination(dupdir, listed[i]) == listed[j] ==>
              listed[i] == listed[j]
  {
    var listed := Existing(entries, romdir, filenames);
    ExistingNamed(entries, romdir, filenames);
    forall i, j | 0 <= i < |listed| && 0 <= j < |listed| && Destination(dupdir, listed[i]) == listed[j]
      ensures listed[i] == listed[j]
    {
      assert listed[i] in listed && listed[j] in listed;
      DestinationKeepsFileName(dupdir, listed[i]);
    }
  }

  /** Distinct copies of one game are never renamed onto one another. */
  lemma ExistingNoCrossing(entries: set<Path>, romdir: Path, filenames: seq<string>, dupdir: Path)
    requires forall f :: f in filenames ==> IsComponent(f)
    requires Distinct(Existing(entries, romdir, filenames))
    ensures HaveFileNames(Existing(entries, romdir, filenames))
    ensures NoCrossing(Existing(entries, romdir, filenames), dupdir)
  {
    ExistingDestinations(entries, romdir, filenames, dupdir);
  }

  /**
   * The moves of one prompted game, when its copies are distinct paths and the
   * quarantine directory exists: no rename fails, the chosen copy stays, and
   * every other copy is in the quarantine directory under its own filename and
   * gone from its old place (unless that place is its destination).
   */
  lemma VisitResolves(s: Session, dirs: set<Path>, name: string, filenames: seq<string>, romdir: Path, dupdir: Path, lines: seq<string>)
    requires forall f :: f in filenames ==> IsComponent(f)
    requires |filenames| > 1 && |Existing(s.entries, romdir, filenames)| > 1
    requires Distinct(Existing(s.entries, romdir, filenames))
    requires DirectoryIn(dirs, dupdir)
    ensures HaveFileNames(Existing(s.entries, romdir, filenames))
    ensures Visit(s, dirs, name, filenames, romdir, dupdir, lines).fault == None
    ensures Resolved(Existing(s.entries, romdir, filenames), ParseChoice(Answer(lines, |s.prompts|)), dupdir,
                     Visit(s, dirs, name, filenames, romdir, dupdir, lines).entries)
  {
    var listed := Existing(s.entries, romdir, filenames);
    var k := ParseChoice(Answer(lines, |s.prompts|));
    ExistingNoCrossing(s.entries, romdir, filenames, dupdir);
    ExistingPresent(s.entries, romdir, filenames);
    var moved := Relocate(s.entries, dirs, listed, k, dupdir);
    assert Visit(s, dirs, name, filenames, romdir, dupdir, lines) == Session(moved.entries, s.prompts + [Prompt(name, listed, k)], moved.fault);
    ChoiceResolved(s.entries, dirs, listed, k, dupdir);
  }

  /**
   * A copy listed twice (a filename repeated under one game) is not kept,
   * whatever the answer: the visit ends with it moved away or with a failed rename.
   */
  lemma VisitRepeatedPathNotKept(s: Session, dirs: set<Path>, name: string, filenames: seq<string>, romdir: Path, dupdir: Path,
                                 lines: seq<string>, i: nat, j: nat)
    requires forall f :: f in filenames ==> IsComponent(f)
    requires |filenames| > 1
    requires var listed := Existing(s.entries, romdir, filenames);
             i < j < |listed| && listed[i] == listed[j] && FileName(listed[i]).Some? &&
             Destination(dupdir, listed[i]) != listed[i]
    ensures var t := Visit(s, dirs, name, filenames, romdir, dupdir, lines);
            t.fault.Some? || Existing(s.entries, romdir, filenames)[i] !in t.entries
  {
    var listed := Existing(s.entries, romdir, filenames);
    var k := ParseChoice(Answer(lines, |s.prompts|));
    ExistingDestinations(s.entries, romdir, filenames, dupdir);
    RepeatedPathIsNotKept(s.entries, dirs, listed, k, dupdir, i, j);
  }

  /** A game with at most one catalog filename never produces a prompt. */
  lemma SmallGroupsNotPrompted(entries: set<Path>, dirs: set<Path>, groups: GameMap, order: seq<string>,
                               romdir: Path, dupdir: Path, lines: seq<string>, name: string)
    requires ValidGroups(groups)
    requires forall n :: n in order ==> n in groups
    requires name in groups && |groups[name]| <= 1
    ensures forall pr :: pr in VisitAll(entries, dirs, groups, order, romdir, dupdir, lines).prompts ==> pr.name != name
  {
    PromptsAreActionable(entries, dirs, groups, order, romdir, dupdir, lines);
  }

  /** No prompt, no move: a run that prompted nothing left the filesystem as it was. */
  lemma {:induction false} NoPromptNoChange(entries: set<Path>, dirs: set<Path>, groups: GameMap, order: seq<string>,
                                            romdir: Path, dupdir: Path, lines: seq<string>)
    requires ValidGroups(groups)
    requires forall n :: n in order ==> n in groups
    requires VisitAll(entries, dirs, groups, order, romdir, dupdir, lines).prompts == []
    ensures VisitAll(entries, dirs, groups, order, romdir, dupdir, lines) == Session(entries, [], None)
  {
    if order != [] {
      var init := order[..|order| - 1];
      var prev := VisitAll(entries, dirs, groups, init, romdir, dupdir, lines);
      if prev.prompts != [] {
        PromptsOnlyGrow(entries, dirs, groups, order, romdir, dupdir, lines);
      }
      NoPromptNoChange(entries, dirs, groups, init, romdir, dupdir, lines);
    }
  }

  lemma PromptsOnlyGrow(entries: set<Path>, dirs: set<Path>, groups: GameMap, order: seq<string>,
                        romdir: Path, dupdir: Path, lines: seq<string>)
    requires ValidGroups(groups)
    requires order != [] && forall n :: n in order ==> n in groups
    ensures |VisitAll(entries, dirs, groups, order[..|order| - 1], romdir, dupdir, lines).prompts|
            <= |VisitAll(entries, dirs, groups, order, romdir, dupdir, lines).prompts|
  {
  }

  /** Without the quarantine directory a visit moves nothing, and a prompt ends the run with a fault. */
  lemma VisitWithoutQuarantine(s: Session, dirs: set<Path>, name: string, filenames: seq<string>, romdir: Path, dupdir: Path, lines: seq<string>)
    requires forall f :: f in filenames ==> IsComponent(f)
    requires !DirectoryIn(dirs, dupdir)
    ensures var t := Visit(s, dirs, name, filenames, romdir, dupdir, lines);
            t.entries == s.entries && (|t.prompts| > |s.prompts| ==> t.fault.Some?) && (|t.prompts| <= |s.prompts| ==> t == s)
  {
    if |filenames| > 1 {
      var listed := Existing(s.entries, romdir, filenames);
      if |listed| > 1 {
        ExistingNamed(s.entries, romdir, filenames);
        var k := ParseChoice(Answer(lines, |s.prompts|));
        NoQuarantineNoMoves(s.entries, dirs, listed, k, dupdir);
      }
    }
  }

  /**
   * A run whose quarantine directory does not exist leaves the filesystem as it
   * was and stops at its first prompt with a failed rename.
   */
  lemma {:induction false} RunWithoutQuarantine(entries: set<Path>, dirs: set<Path>, groups: GameMap, order: seq<string>,
                                                romdir: Path, dupdir: Path, lines: seq<string>)
    requires ValidGroups(groups)
    requires forall n :: n in order ==> n in groups
    requires !DirectoryIn(dirs, dupdir)
    ensures var r := VisitAll(entries, dirs, groups, order, romdir, dupdir, lines);
            r.entries == entries && |r.prompts| <= 1 && (r.prompts != [] ==> r.fault.Some?)
  {
    if order != [] {
      var init := order[..|order| - 1];
      var name := order[|order| - 1];
      RunWithoutQuarantine(entries, dirs, groups, init, romdir, dupdir, lines);
      var prev := VisitAll(entries, dirs, groups, init, romdir, dupdir, lines);
      var next := VisitAll(entries, dirs, groups, order, romdir, dupdir, lines);
      if prev.fault.Some? {
        assert next == prev;
      } else {
        assert name in groups;
        VisitWithoutQuarantine(prev, dirs, name, groups[name], romdir, dupdir, lines);
        assert next == Visit(prev, dirs, name, groups[name], romdir, dupdir, lines);
        VisitPrompt(prev, dirs, name, groups, romdir, dupdir, lines);
      }
    }
  }

  /** `p` is neither the ROM path nor the quarantine path of any of these filenames. */
  predicate NamedByNone(p: Path, filenames: seq<string>, romdir: Path, dupdir: Path) {
    forall f :: f in filenames ==> p != Join(romdir, f) && p != Join(dupdir, f)
  }

  /** One visit leaves alone every path that none of the game's filenames names, in either directory. */
  lemma VisitUntouched(s: Session, dirs: set<Path>, name: string, filenames: seq<string>, romdir: Path, dupdir: Path, lines: seq<string>, p: Path)
    requires forall f :: f in filenames ==> IsComponent(f)
    requires NamedByNone(p, filenames, romdir, dupdir)
    ensures p in Visit(s, dirs, name, filenames, romdir, dupdir, lines).entries <==> p in s.entries
  {
    if |filenames| > 1 {
      var listed := Existing(s.entries, romdir, filenames);
      if |listed| > 1 {
        ExistingNamed(s.entries, romdir, filenames);
        var choice := ParseChoice(Answer(lines, |s.prompts|));
        assert p !in listed;
        forall j | 0 <= j < |listed| ensures p != Destination(dupdir, listed[j]) {
          assert listed[j] in listed;
        }
        UntouchedOutside(s.entries, dirs, listed, choice, dupdir, p, |listed|);
      }
    }
  }

  /** A path that no game's filename can name, in the ROM or the quarantine directory, is never touched. */
  lemma {:induction false} UntouchedByRun(entries: set<Path>, dirs: set<Path>, groups: GameMap, order: seq<string>,
                                          romdir: Path, dupdir: Path, lines: seq<string>, p: Path)
    requires ValidGroups(groups)
    requires forall n :: n in order ==> n in groups
    requires forall n :: n in groups ==> NamedByNone(p, groups[n], romdir, dupdir)
    ensures p in VisitAll(entries, dirs, groups, order, romdir, dupdir, lines).entries <==> p in entries
  {
    if order != [] {
      var init := order[..|order| - 1];
      var name := order[|order| - 1];
      UntouchedByRun(entries, dirs, groups, init, romdir, dupdir, lines, p);
      var prev := VisitAll(entries, dirs, groups, init, romdir, dupdir, lines);
      var next := VisitAll(entries, dirs, groups, order, romdir, dupdir, lines);
      if prev.fault.Some? {
        assert next == prev;
      } else {
        assert name in groups;
        var filenames := groups[name];
        VisitUntouched(prev, dirs, name, filenames, romdir, dupdir, lines, p);
        assert next == Visit(prev, dirs, name, filenames, romdir, dupdir, lines);
      }
    }
  }
}
