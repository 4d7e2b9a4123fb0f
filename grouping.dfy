/**
 * Grouping of catalog records by game name: every record contributes the final
 * component of its path to the list kept under its name, in catalog order,
 * repeats included (src/main.rs:71-83).
 */
module Grouping {
  import opened Wrappers
  import opened Paths

  /** One catalog record: a ROM path and the canonical name of its game. */
  datatype Game = Game(path: Path, name: string)

  type GameMap = map<string, seq<string>>

  /** Every record's path has a final component. */
  predicate AllNamed(games: seq<Game>) {
    forall i :: 0 <= i < |games| ==> FileName(games[i].path).Some?
  }

  /** The names that occur in the catalog. */
  function Names(games: seq<Game>): set<string> {
    if games == [] then {} else Names(games[..|games| - 1]) + {games[|games| - 1].name}
  }

  /** The filenames of the records named `name`, in catalog order. */
  function FilenamesFor(games: seq<Game>, name: string): seq<string> {
    if games == [] then []
    else
      var g := games[|games| - 1];
      FilenamesFor(games[..|games| - 1], name) + (if g.name == name then Listed(g) else [])
  }

  /** What one record contributes to its list: its final path component. */
  function Listed(g: Game): seq<string> {
    match FileName(g.path)
    case Some(f) => [f]
    case None => []
  }

  /** The map the program builds: each name to its filenames. */
  function Grouped(games: seq<Game>): GameMap {
    map n | n in Names(games) :: FilenamesFor(games, n)
  }

  /** The sum of the lengths of all lists in a map. */
  ghost function Total(m: GameMap): nat
    decreases m.Keys
  {
    if m.Keys == {} then 0
    else
      var k :| k in m.Keys;
      |m[k]| + Total(m - {k})
  }

  /** The set of catalog positions whose record is named `name`. */
  function Positions(games: seq<Game>, name: string): set<nat> {
    set i: nat | i < |games| && games[i].name == name
  }

  lemma {:induction false} NamesMember(games: seq<Game>, n: string)
    ensures n in Names(games) <==> exists i :: 0 <= i < |games| && games[i].name == n
    decreases |games|
  {
    if games != [] {
      var init := games[..|games| - 1];
      NamesMember(init, n);
      if n in Names(init) {
        var i :| 0 <= i < |init| && init[i].name == n;
        assert games[i].name == n;
      }
      if exists i :: 0 <= i < |games| && games[i].name == n {
        var i :| 0 <= i < |games| && games[i].name == n;
        if i < |init| { assert init[i].name == n; }
      }
    }
  }

  lemma {:induction false} FilenamesForAbsent(games: seq<Game>, n: string)
    requires n !in Names(games)
    ensures FilenamesFor(games, n) == []
    decreases |games|
  {
    if games != [] {
      FilenamesForAbsent(games[..|games| - 1], n);
    }
  }

  /** A filename is listed under `n` exactly when some record named `n` has it as final component. */
  lemma {:induction false} FilenamesForMember(games: seq<Game>, n: string, f: string)
    ensures f in FilenamesFor(games, n) <==>
            exists i :: 0 <= i < |games| && games[i].name == n && FileName(games[i].path) == Some(f)
    decreases |games|
  {
    if games != [] {
      var init := games[..|games| - 1];
      var g := games[|games| - 1];
      FilenamesForMember(init, n, f);
      assert FilenamesFor(games, n) == FilenamesFor(init, n) + (if g.name == n then Listed(g) else []);
      if f in FilenamesFor(init, n) {
        var i :| 0 <= i < |init| && init[i].name == n && FileName(init[i].path) == Some(f);
        assert games[i] == init[i];
      }
      if exists i :: 0 <= i < |games| && games[i].name == n && FileName(games[i].path) == Some(f) {
        var i :| 0 <= i < |games| && games[i].name == n && FileName(games[i].path) == Some(f);
        if i < |init| {
          assert init[i] == games[i];
        } else {
          assert Listed(g) == [f];
        }
      }
    }
  }

  /** Each name keeps one filename per record carrying it: repeats are not merged. */
  lemma {:induction false} FilenamesForCount(games: seq<Game>, n: string)
    requires AllNamed(games)
    ensures |FilenamesFor(games, n)| == |Positions(games, n)|
    decreases |games|
  {
    if games == [] {
      assert Positions(games, n) == {};
    } else {
      var init := games[..|games| - 1];
      var last := |games| - 1;
      assert AllNamed(init) by {
        forall i | 0 <= i < |init| ensures FileName(init[i].path).Some? {
          assert init[i] == games[i];
        }
      }
      FilenamesForCount(init, n);
      ListedOne(games[last]);
      PositionsSnoc(games, n);
    }
  }

  lemma ListedOne(g: Game)
    requires FileName(g.path).Some?
    ensures |Listed(g)| == 1
  {
  }

  lemma PositionsSnoc(games: seq<Game>, n: string)
    requires games != []
    ensures var last := |games| - 1;
            |Positions(games, n)| == |Positions(games[..last], n)| + (if games[last].name == n then 1 else 0)
  {
    var last := |games| - 1;
    var init := games[..last];
    var extra: set<nat> := if games[last].name == n then {last} else {};
    forall i: nat ensures i in Positions(games, n) <==> i in Positions(init, n) + extra {
      if i < last { assert init[i] == games[i]; }
    }
    assert Positions(games, n) == Positions(init, n) + extra;
    assert Positions(init, n) !! extra;
  }

  /** Removing any key leaves the total short by that key's list. */
  lemma {:induction false} TotalRemove(m: GameMap, k: string)
    requires k in m
    ensures Total(m) == |m[k]| + Total(m - {k})
    decreases m.Keys
  {
    var j :| j in m.Keys && Total(m) == |m[j]| + Total(m - {j});
    if j != k {
      TotalRemove(m - {j}, k);
      TotalRemove(m - {k}, j);
      assert m - {j} - {k} == m - {k} - {j};
    }
  }

  /** Appending to the list under one name adds that many to the total. */
  lemma TotalAppend(m: GameMap, n: string, tail: seq<string>)
    ensures Total(m[n := (if n in m then m[n] else []) + tail]) == Total(m) + |tail|
  {
    var m' := m[n := (if n in m then m[n] else []) + tail];
    TotalRemove(m', n);
    if n in m {
      TotalRemove(m, n);
      assert m' - {n} == m - {n};
    } else {
      assert m' - {n} == m;
    }
  }

  /** How the map grows by one record. */
  lemma GroupedSnoc(games: seq<Game>, g: Game)
    ensures var m := Grouped(games);
            Grouped(games + [g]) == m[g.name := (if g.name in m then m[g.name] else []) + Listed(g)]
  {
    var gs := games + [g];
    assert gs[..|gs| - 1] == games;
    var m := Grouped(games);
    var m' := m[g.name := (if g.name in m then m[g.name] else []) + Listed(g)];
    assert Names(gs) == Names(games) + {g.name};
    assert Grouped(gs).Keys == m'.Keys;
    forall n | n in m'
      ensures Grouped(gs)[n] == m'[n]
    {
      assert FilenamesFor(gs, n) == FilenamesFor(games, n) + (if g.name == n then Listed(g) else []);
      if n == g.name && n !in m {
        FilenamesForAbsent(games, n);
      }
    }
  }

  /** Every record lands in exactly one list: the lengths sum to the catalog size. */
  lemma {:induction false} GroupedTotal(games: seq<Game>)
    requires AllNamed(games)
    ensures Total(Grouped(games)) == |games|
    decreases |games|
  {
    if games == [] {
      assert Grouped(games).Keys == {};
    } else {
      var init := games[..|games| - 1];
      var g := games[|games| - 1];
      assert games == init + [g];
      assert AllNamed(init) by {
        forall i | 0 <= i < |init| ensures FileName(init[i].path).Some? {
          assert init[i] == games[i];
        }
      }
      assert FileName(g.path).Some?;
      GroupedSnoc(init, g);
      GroupedTotal(init);
      TotalAppend(Grouped(init), g.name, Listed(g));
    }
  }

  /** The loop of src/main.rs:72-83: fails on the first record whose path has no final component. */
  method BuildGameMap(games: seq<Game>) returns (r: Result<GameMap, Fault>)
    ensures r.Success? <==> AllNamed(games)
    ensures r.Success? ==> r.value == Grouped(games)
    ensures r.Failure? ==> exists i :: 0 <= i < |games| && AllNamed(games[..i]) &&
                                       FileName(games[i].path).None? && r.error == MalformedPath(games[i].path)
  {
    var m: GameMap := map[];
    var i := 0;
    while i < |games|
      invariant 0 <= i <= |games|
      invariant AllNamed(games[..i])
      invariant m == Grouped(games[..i])
    {
      var g := games[i];
      var f := FileName(g.path);
      if f.None? {
        assert !AllNamed(games) by { assert FileName(games[i].path).None?; }
        return Failure(MalformedPath(g.path));
      }
      var listed := if g.name in m then m[g.name] else [];
      assert games[..i + 1] == games[..i] + [g];
      GroupedSnoc(games[..i], g);
      assert Listed(g) == [f.value];
      m := m[g.name := listed + [f.value]];
      i := i + 1;
    }
    assert games[..i] == games;
    r := Success(m);
  }
}
