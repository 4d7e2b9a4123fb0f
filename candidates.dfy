/**
 * The existence filter of src/main.rs:86-94: a group's filenames are joined to
 * the ROM directory and only the joined paths that exist are kept, in order.
 */
module Candidates {
  import opened Paths
  import opened Filesystem

  /** The joined paths of `filenames` that are in `entries`, in list order. */
  function Existing(entries: set<Path>, romdir: Path, filenames: seq<string>): seq<Path> {
    if filenames == [] then []
    else
      var p := Join(romdir, filenames[|filenames| - 1]);
      Existing(entries, romdir, filenames[..|filenames| - 1]) + (if p in entries then [p] else [])
  }

  /** Every filename joined to the ROM directory. */
  function JoinAll(romdir: Path, filenames: seq<string>): (r: seq<Path>)
    ensures |r| == |filenames|
    ensures forall i :: 0 <= i < |r| ==> r[i] == Join(romdir, filenames[i])
  {
    seq(|filenames|, i requires 0 <= i < |filenames| => Join(romdir, filenames[i]))
  }

  /** `a` is `b` with some elements dropped, the rest in the same order. */
  predicate IsSubsequence(a: seq<Path>, b: seq<Path>)
    decreases |b|
  {
    if a == [] then true
    else if b == [] then false
    else (a[|a| - 1] == b[|b| - 1] && IsSubsequence(a[..|a| - 1], b[..|b| - 1]))
         || IsSubsequence(a, b[..|b| - 1])
  }

  /** The loop of src/main.rs:87-93: one existence check per filename, in list order. */
  method CollectExisting(fs: FileSystem, romdir: Path, filenames: seq<string>) returns (duplicates: seq<Path>)
    ensures duplicates == Existing(fs.entries, romdir, filenames)
    ensures IsSubsequence(duplicates, JoinAll(romdir, filenames))
    ensures forall p :: p in duplicates <==> p in fs.entries && p in JoinAll(romdir, filenames)
  {
    duplicates := [];
    var i := 0;
    while i < |filenames|
      invariant 0 <= i <= |filenames|
      invariant duplicates == Existing(fs.entries, romdir, filenames[..i])
    {
      var romPath := Join(romdir, filenames[i]);
      assert filenames[..i + 1][..i] == filenames[..i];
      if fs.Exists(romPath) {
        duplicates := duplicates + [romPath];
      }
      i := i + 1;
    }
    assert filenames[..i] == filenames;
    ExistingIsSubsequence(fs.entries, romdir, filenames);
    forall p ensures p in duplicates <==> p in fs.entries && p in JoinAll(romdir, filenames) {
      ExistingMember(fs.entries, romdir, filenames, p);
    }
  }

  /** A path survives exactly when it exists and is one of the group's joined filenames. */
  lemma {:induction false} ExistingMember(entries: set<Path>, romdir: Path, filenames: seq<string>, p: Path)
    ensures p in Existing(entries, romdir, filenames) <==> p in entries && p in JoinAll(romdir, filenames)
    decreases |filenames|
  {
    if filenames != [] {
      var init := filenames[..|filenames| - 1];
      ExistingMember(entries, romdir, init, p);
      assert JoinAll(romdir, filenames) == JoinAll(romdir, init) + [Join(romdir, filenames[|filenames| - 1])];
    }
  }

  /** Every kept path exists. */
  lemma ExistingPresent(entries: set<Path>, romdir: Path, filenames: seq<string>)
    ensures forall p :: p in Existing(entries, romdir, filenames) ==> p in entries
  {
    forall p | p in Existing(entries, romdir, filenames) ensures p in entries {
      ExistingMember(entries, romdir, filenames, p);
    }
  }

  lemma {:induction false} SubsequenceOfLonger(a: seq<Path>, b: seq<Path>, x: Path)
    requires IsSubsequence(a, b)
    ensures IsSubsequence(a, b + [x])
  {
    assert (b + [x])[..|b|] == b;
  }

  /** Non-existing paths are dropped; the rest keep their relative order. */
  lemma {:induction false} ExistingIsSubsequence(entries: set<Path>, romdir: Path, filenames: seq<string>)
    ensures IsSubsequence(Existing(entries, romdir, filenames), JoinAll(romdir, filenames))
    decreases |filenames|
  {
    if filenames != [] {
      var init := filenames[..|filenames| - 1];
      var p := Join(romdir, filenames[|filenames| - 1]);
      var rest := Existing(entries, romdir, init);
      var all := JoinAll(romdir, filenames);
      ExistingIsSubsequence(entries, romdir, init);
      assert all == JoinAll(romdir, init) + [p];
      assert all[..|all| - 1] == JoinAll(romdir, init);
      if p in entries {
        var a := rest + [p];
        assert a[..|a| - 1] == rest;
      } else {
        assert Existing(entries, romdir, filenames) == rest;
        SubsequenceOfLonger(rest, JoinAll(romdir, init), p);
      }
    }
  }

  /** Nothing is dropped exactly when every joined filename exists. */
  lemma {:induction false} ExistingKeepsAll(entries: set<Path>, romdir: Path, filenames: seq<string>)
    ensures |Existing(entries, romdir, filenames)| <= |filenames|
    ensures |Existing(entries, romdir, filenames)| == |filenames| <==>
            forall i :: 0 <= i < |filenames| ==> Join(romdir, filenames[i]) in entries
    decreases |filenames|
  {
    if filenames != [] {
      var init := filenames[..|filenames| - 1];
      ExistingKeepsAll(entries, romdir, init);
      if forall i :: 0 <= i < |filenames| ==> Join(romdir, filenames[i]) in entries {
        assert forall i :: 0 <= i < |init| ==> Join(romdir, init[i]) in entries by {
          forall i | 0 <= i < |init| ensures Join(romdir, init[i]) in entries {
            assert init[i] == filenames[i];
          }
        }
      }
      if |Existing(entries, romdir, filenames)| == |filenames| {
        forall i | 0 <= i < |filenames| ensures Join(romdir, filenames[i]) in entries {
          if i < |init| { assert init[i] == filenames[i]; }
        }
      }
    }
  }

  /** Each kept path's final component is the filename it was joined from, so taking it again before the rename cannot fail. */
  lemma {:induction false} ExistingNamed(entries: set<Path>, romdir: Path, filenames: seq<string>)
    requires forall f :: f in filenames ==> IsComponent(f)
    ensures forall p :: p in Existing(entries, romdir, filenames) ==>
              FileName(p).Some? && FileName(p).value in filenames && p == Join(romdir, FileName(p).value)
    decreases |filenames|
  {
    if filenames != [] {
      var init := filenames[..|filenames| - 1];
      var f := filenames[|filenames| - 1];
      ExistingNamed(entries, romdir, init);
      FileNameOfJoin(romdir, f);
      forall p | p in Existing(entries, romdir, filenames)
        ensures FileName(p).Some? && FileName(p).value in filenames && p == Join(romdir, FileName(p).value)
      {
        if p in Existing(entries, romdir, init) {
          assert FileName(p).value in init;
        }
      }
    }
  }

  /** The positions of the group whose joined path exists. */
  function PresentPositions(entries: set<Path>, romdir: Path, filenames: seq<string>): set<nat> {
    set i: nat | i < |filenames| && Join(romdir, filenames[i]) in entries
  }

  /** One kept path per catalog position whose file exists: repeated filenames count once per position. */
  lemma {:induction false} ExistingCount(entries: set<Path>, romdir: Path, filenames: seq<string>)
    ensures |Existing(entries, romdir, filenames)| == |PresentPositions(entries, romdir, filenames)|
    decreases |filenames|
  {
    if filenames == [] {
      assert PresentPositions(entries, romdir, filenames) == {};
    } else {
      var last := |filenames| - 1;
      var init := filenames[..last];
      ExistingCount(entries, romdir, init);
      var extra: set<nat> := if Join(romdir, filenames[last]) in entries then {last} else {};
      forall i: nat
        ensures i in PresentPositions(entries, romdir, filenames) <==> i in PresentPositions(entries, romdir, init) + extra
      {
        if i < last { assert init[i] == filenames[i]; }
      }
      assert PresentPositions(entries, romdir, filenames) == PresentPositions(entries, romdir, init) + extra;
      assert PresentPositions(entries, romdir, init) !! extra;
    }
  }
}
