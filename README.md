# deduproms, modelled in Dafny

`deduproms` is a small command-line tool that finds duplicate ROM files. It reads a
catalog (`gamelist.xml`) of records `(path, name)`, groups the records by game name,
checks which of each game's files exist in the ROM directory, and for every game with
at least two existing copies asks the operator which copy to keep. The other copies are
renamed into a quarantine ("dupdir") directory under their own filenames.

This project models the body of `main` after the catalog is read (src/main.rs:69-119):

- `paths.dfy` (module `Paths`): the final component of a path (`Path::file_name`) and
  joining a directory with a filename (`PathBuf::join`), on a Unix host.
- `filesystem.dfy` (module `Filesystem`): the host filesystem as a class holding the
  set of paths that exist and the set of directories a file can be renamed into;
  `Rename` is `fs::rename`, which fails when the source or the target directory is missing.
- `grouping.dfy` (module `Grouping`): the `game_map` loop (lines 71-83), as the method
  `BuildGameMap`, proved against the declarative `Grouped`.
- `candidates.dfy` (module `Candidates`): the existence filter of one game (lines 87-93),
  as the method `CollectExisting`, proved against `Existing`.
- `choice.dfy` (module `Choice`): the operator's answer, trimmed and parsed as a `usize`, with 1 as the fallback (line 105).
- `resolver.dfy` (module `Resolver`): the rename loop (lines 107-113), as the method
  `MoveAllBut`, proved against `Relocate`.
- `dedup.dfy` (module `Dedup`): one iteration of the loop over the map (`VisitGame`,
  specified by `Visit`) and the whole run (`Run`, specified by `VisitAll`).

The map's iteration order is unspecified, so `Run` picks the next game
nondeterministically and returns the order it used; every property of a run is
stated for any such order. A panic (on a path without a filename or on a failed
rename) is modelled as an aborted run carrying a `Fault`, with the moves made so far
kept.

Behaviour worth knowing, all proved about the model:

- A choice of 0, or past the end of the list, moves every listed copy (`OutOfRangeMovesAll`).
- Filenames repeated under one name are not merged. If the file exists, the same path
  is listed once per repeat, so the "kept" copy is moved by another entry's rename:
  whatever the choice, the path ends up moved away or the run fails, and any choice
  that keeps neither copy makes the second rename of that path fail
  (`RepeatedPathIsNotKept`, `VisitRepeatedPathNotKept`). "Keep entry k" is therefore
  proved for distinct listed paths (`KeptEntryStays`, `VisitResolves`).
- A quarantine directory that does not exist makes the first rename of the first
  prompted game fail; nothing is moved (`NoQuarantineNoMoves`, `RunWithoutQuarantine`).
- The code accepts any `usize`, including 0 and a leading `+`. It does not require a
  positive index. The model follows the code here.
- A game is prompted when at least two catalog positions exist, not two distinct
  filenames (`VisitPromptsExactly`). The model follows the code here too.

## Model

| member | source | states |
|---|---|---|
| `Paths.FileName` | src/main.rs:73-78 | a filename taken from a path is one ordinary component: non-empty, no separator, not "." or ".." |
| `Paths.FileNameOfJoin` | src/main.rs:73-78 | the final component of `dir` joined with a component is that component, so filenames keep their exact text |
| `Paths.NoFileNameWithoutComponent` | src/main.rs:73-75 | an empty or root-only path has no final component (the run then aborts) |
| `Filesystem.FileSystem.Rename` | src/main.rs:109-111 | a rename into `dir` succeeds exactly when the source exists and `dir` is an existing directory, removing the source and adding `dir` joined with the name; on failure nothing changes |
| `Grouping.BuildGameMap` | src/main.rs:71-83 | succeeds exactly when every record's path has a final component, and then returns `Grouped`; otherwise fails with `MalformedPath` on the first such record |
| `Grouping.NamesMember` | src/main.rs:79-81 | a name is a key of the map exactly when some record has that name |
| `Grouping.FilenamesForMember` | src/main.rs:72-82 | a filename is listed under a name exactly when some record with that name has it as final component |
| `Grouping.FilenamesForCount` | src/main.rs:79-82 | each name's list has one entry per record with that name, so repeats are kept |
| `Grouping.GroupedSnoc` | src/main.rs:79-82 | one record appends its filename to the end of its name's list and changes no other list; a new name starts with an empty list |
| `Grouping.GroupedTotal` | src/main.rs:71-83 | the list lengths add up to the number of records |
| `Candidates.CollectExisting` | src/main.rs:87-93 | returns `Existing`: a subsequence of the joined paths holding exactly those that exist |
| `Candidates.ExistingMember` | src/main.rs:88-92 | a path is kept exactly when it exists and is one of the group's joined filenames |
| `Candidates.ExistingIsSubsequence` | src/main.rs:87-93 | missing paths are dropped and the rest keep their order |
| `Candidates.ExistingKeepsAll` | src/main.rs:87-93 | nothing is dropped exactly when every joined path exists |
| `Candidates.ExistingCount` | src/main.rs:87-94 | the number of kept paths is the number of catalog positions whose file exists |
| `Candidates.ExistingPresent` | src/main.rs:89-92 | every kept path exists |
| `Candidates.ExistingNamed` | src/main.rs:109-110 | every kept path has a final component, the filename it was joined from, so taking the filename of a kept path before the rename cannot fail |
| `Choice.Trim` | src/main.rs:105 | the trimmed text starts and ends with a non-whitespace character |
| `Choice.ParseChoice` | src/main.rs:105 | the choice is at most `usize::MAX` |
| `Choice.TrimOfPadded` | src/main.rs:105 | whitespace around the answer, the newline included, is removed and nothing else is |
| `Choice.ParseChoiceOfDigits` | src/main.rs:105 | digits with an optional leading '+' and surrounding whitespace give their value, leading zeros allowed, when it fits a usize |
| `Choice.ParseChoiceOfDecimal` | src/main.rs:105 | the answer "n" selects n for every n a usize holds, 0 included (no range check) |
| `Choice.ParseChoiceOfBlank` | src/main.rs:105 | an empty or blank answer gives 1 |
| `Choice.ParseChoiceOfNonNumeric` | src/main.rs:105 | any non-digit in the trimmed answer (other than a leading '+') gives 1 |
| `Choice.ParseChoiceOfBareSign` | src/main.rs:105 | a trimmed answer of a lone '+' has no digits and gives 1 |
| `Choice.ParseChoiceOfOverflow` | src/main.rs:105 | a number above `usize::MAX` gives 1 |
| `Resolver.MoveAllBut` | src/main.rs:107-113 | the rename loop's final filesystem and fault are those of `Relocate` |
| `Resolver.FaultPersists` | src/main.rs:111 | once a rename has failed, the later entries change nothing (the run has panicked) |
| `Resolver.DestinationKeepsFileName` | src/main.rs:109-110 | a moved file keeps its filename in the quarantine directory |
| `Resolver.MovedIndicesCount` | src/main.rs:107-108 | a choice k in 1..n moves n-1 entries; 0 or k > n moves all n |
| `Resolver.RelocateClean` | src/main.rs:107-113 | for distinct, existing listed paths, none of which is another's destination (`NoCrossing`), and an existing quarantine directory, the loop never fails and yields the old filesystem minus the moved sources plus their destinations |
| `Resolver.KeptEntryStays` | src/main.rs:107-108 | for a choice k in 1..n, entry k is still in place after every iteration, if no other entry is the same path |
| `Resolver.OthersMoved` | src/main.rs:107-113 | under the premises of `RelocateClean` (distinct, existing, `NoCrossing`, quarantine directory present): no rename fails, and every other entry is in the quarantine directory under its own name and gone from its old place (unless that place is its destination) |
| `Resolver.ChoiceResolved` | src/main.rs:105-113 | under the same premises: no rename fails, entry k stays for a choice k in 1..n, and every other entry is moved (`Resolved`) |
| `Resolver.OutOfRangeMovesAll` | src/main.rs:105-113 | under the premises of `RelocateClean`, a choice of 0 or past the end moves every listed entry, the first included |
| `Resolver.UntouchedOutside` | src/main.rs:107-113 | a path that is neither listed nor a destination is unchanged |
| `Resolver.GoneAfterMove` | src/main.rs:107-111 | once a listed path has been moved it stays gone for the rest of the loop, unless a rename fails, when no destination is that path |
| `Resolver.RepeatedPathIsNotKept` | src/main.rs:107-113 | a path listed at positions i < j (and no entry's destination) is, for every choice, gone at the end or the loop has failed; a choice other than i+1 and j+1 always ends with a failed rename |
| `Resolver.NoQuarantineNoMoves` | src/main.rs:107-111 | without the quarantine directory, a list of two or more ends with a failed rename and the filesystem unchanged |
| `Dedup.GroupedValid` | src/main.rs:73-83 | every filename stored in the map is a single path component |
| `Dedup.VisitGame` | src/main.rs:86-114 | one game's existence checks, prompt and moves leave the filesystem, prompts and fault given by `Visit` |
| `Dedup.Run` | src/main.rs:69-119 | an unreadable catalog changes nothing; a malformed path aborts before any move; otherwise every game is visited once in some order and the result is `VisitAll` for that order |
| `Dedup.VisitPrompt` | src/main.rs:87-105 | a visit adds nothing or exactly one prompt, for this game, with the answer read for it; the prompt lists a path exactly when it exists and is one of the game's joined filenames, once per catalog position present |
| `Dedup.PromptsAreActionable` | src/main.rs:85-105 | in any visiting order every prompt is for a game with more than one filename, lists at least two of its joined paths and uses the k-th answer |
| `Dedup.VisitPromptsExactly` | src/main.rs:86-94 | a visit prompts exactly when the game has more than one filename and at least two existing positions; without a prompt nothing changes |
| `Dedup.DefaultAnswerKeepsFirst` | src/main.rs:105-113 | an answer that does not parse (empty, blank, non-numeric, a lone '+', too large) keeps the first listed copy in place, for distinct listed paths |
| `Dedup.ExistingDestinations` | src/main.rs:89-110 | a copy's quarantine path is another listed copy only when the two are the same path |
| `Dedup.ExistingNoCrossing` | src/main.rs:89-110 | distinct listed copies of a game are never renamed onto one another, so `NoCrossing` holds for every list a visit builds |
| `Dedup.VisitResolves` | src/main.rs:87-113 | for a prompted game with distinct copies and an existing quarantine directory: no rename fails, copy k stays for a choice k in 1..n, and every other copy is moved into the quarantine directory under its own filename |
| `Dedup.VisitRepeatedPathNotKept` | src/main.rs:87-113 | a copy listed twice in a prompt, whose quarantine path differs from it, is not kept whatever the answer, or the visit fails |
| `Dedup.VisitWithoutQuarantine` | src/main.rs:87-113 | without the quarantine directory a visit moves nothing, and a prompt ends it with a fault |
| `Dedup.RunWithoutQuarantine` | src/main.rs:85-116 | without the quarantine directory a run changes nothing and stops at its first prompt with a failed rename |
| `Dedup.SmallGroupsNotPrompted` | src/main.rs:86 | a game with at most one catalog filename is never prompted |
| `Dedup.NoPromptNoChange` | src/main.rs:85-116 | a run that prompted nothing ends without a fault and with the filesystem unchanged |
| `Dedup.VisitUntouched` | src/main.rs:86-114 | a visit leaves alone every path that is not a ROM or quarantine path of the game's filenames |
| `Dedup.UntouchedByRun` | src/main.rs:85-116 | a path that no catalog filename names, in either directory, is untouched by the whole run |

## Left out

- Command-line parsing with clap (src/main.rs:28-63) and the configuration echo (src/main.rs:65-67): the three directory and file arguments are parameters of `Run`.
- Reading and deserialising the XML catalog (src/main.rs:9-25): `Run` takes the parsed records, or the error message, as its `catalog` input.
- Console output (src/main.rs:95-101, 118): each prompt is recorded as a `Prompt` value (name, numbered paths, choice) instead of being printed.
- Reading standard input (src/main.rs:103-104): the answers are a list of lines, and a prompt past the end of the list reads "" (end of input). A read error, such as invalid UTF-8, is not modelled.
- `Path::exists` is membership in a set of paths. Symbolic links and permission errors are not modelled.
- `fs::rename` fails only when the source is missing or the target directory does not exist. A rename across devices, permission errors and a quarantine path that names a regular file are not modelled. An existing destination is replaced, as on Unix. The set of directories does not change during a run, so a catalog path that names a directory and is moved does not update it.
- Paths are compared as text, not resolved: "./a" and "a" are different paths, and so are "d" and "d/". With ROM directory "." and quarantine directory "", the model renames "./a" to "a" as two different paths, while on disk they are one file.
- `Path::file_name` follows Unix rules for trailing separators, trailing "." and "..". Other "." components, Windows prefixes and non-UTF-8 names are not modelled.
- `usize` is taken to be 64 bits wide.
- The map's iteration order is a nondeterministic choice in `Run`. Whether a copy still exists when a later game is visited depends on that order, so properties are stated per visit or for every order.
