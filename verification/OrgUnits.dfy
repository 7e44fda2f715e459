/**
 The org-unit aggregate, its repository and the two use cases, in imperative form, proved against
 the table functions of `OrgForest`. A use case is one transaction.
 */
module OrgUnits {
  import opened Wrappers
  import opened OrgPaths
  import opened OrgForest

  class OrgUnit {
    const id: Id
    var parentId: Option<Id>
    var path: OrgPath
    var version: nat

    constructor FromSnapshot(id: Id, row: Row)
      requires IsPath(row.path)
      ensures this.id == id && ToRow() == row
    {
      this.id := id;
      parentId := row.parentId;
      path := OrgPath(row.path);
      version := row.version;
    }

    function ToRow(): Row
      reads this
    {
      Row(parentId, path.value, version)
    }

    /** Re-parents this node and recomputes its own path. */
    method MoveTo(newParentId: Option<Id>, newParentPath: Option<OrgPath>) returns (r: Result<(), PathError>)
      modifies this
      ensures var leaf := old(path).Leaf();
              var p := if newParentPath.Some? then newParentPath.value.Child(leaf) else FromString(leaf);
              && (p.Err? ==> r == Err(p.error) && ToRow() == old(ToRow()))
              && (p.Ok? ==> r == Ok(()) && ToRow() == Row(newParentId, p.value.value, old(version) + 1))
      ensures r.Ok? ==> IsPath(path.value)
    {
      var segment := path.Leaf();
      var newPath := if newParentPath.None? then FromString(segment) else newParentPath.value.Child(segment);
      if newPath.Err? {
        return Err(newPath.error);
      }
      if newPath.value.Depth() > MAX_DEPTH {
        assert false; // FromString has already bounded the depth
      }
      parentId := newParentId;
      path := newPath.value;
      Touch();
      r := Ok(());
    }

    /** Replaces the old ancestor prefix by the new one. */
    method RebasePath(oldAncestor: OrgPath, newAncestor: OrgPath) returns (r: Result<(), PathError>)
      modifies this
      ensures var p := FromString(Rebased(old(path).value, oldAncestor.value, newAncestor.value));
              && (p.Err? ==> r == Err(p.error) && ToRow() == old(ToRow()))
              && (p.Ok? ==> r == Ok(()) && ToRow() == Row(old(parentId), p.value.value, old(version) + 1))
    {
      var suffix := if |oldAncestor.value| <= |path.value| then path.value[|oldAncestor.value|..] else "";
      var rebased := FromString(newAncestor.value + suffix);
      if rebased.Err? {
        return Err(rebased.error);
      }
      if rebased.value.Depth() > MAX_DEPTH {
        assert false; // FromString has already bounded the depth
      }
      path := rebased.value;
      Touch();
      r := Ok(());
    }

    method Touch()
      modifies this`version
      ensures version == old(version) + 1
    {
      version := version + 1;
    }
  }

  ghost predicate DistinctIds(units: seq<OrgUnit>) {
    forall j, k :: 0 <= j < k < |units| ==> units[j].id != units[k].id
  }

  ghost predicate Lists(units: seq<OrgUnit>, i: Id) {
    exists k :: 0 <= k < |units| && units[k].id == i
  }

  /** The compare-and-set lets this unit through: a first version, an unknown id, or one version behind. */
  predicate Guarded(rows: Table, unit: OrgUnit)
    reads unit
  {
    unit.version <= 1 || unit.id !in rows || rows[unit.id].version == unit.version - 1
  }

  class OrgUnitRepository {
    var rows: Table

    constructor ()
      ensures rows == map[]
    {
      rows := map[];
    }

    method FindById(id: Id) returns (unit: OrgUnit?)
      requires ValidPaths(rows)
      ensures unit != null <==> id in rows
      ensures unit != null ==> fresh(unit) && unit.id == id && unit.ToRow() == rows[id]
    {
      if id !in rows {
        return null;
      }
      assert IsPath(rows[id].path);
      unit := new OrgUnit.FromSnapshot(id, rows[id]);
    }

    method FindByPath(path: OrgPath) returns (unit: OrgUnit?)
      requires ValidPaths(rows)
      ensures unit == null <==> forall i :: i in rows ==> rows[i].path != path.value
      ensures unit != null ==> unit.id in rows && rows[unit.id].path == path.value
      ensures unit != null ==> fresh(unit) && unit.ToRow() == rows[unit.id]
    {
      var matching := set i | i in rows && rows[i].path == path.value;
      if matching == {} {
        assert forall i :: i in rows ==> i !in matching;
        return null;
      }
      var id :| id in matching;
      assert IsPath(rows[id].path);
      unit := new OrgUnit.FromSnapshot(id, rows[id]);
    }

    /** The rows the subtree query selects, each rehydrated once. */
    method FindDescendants(path: OrgPath) returns (units: seq<OrgUnit>)
      requires ValidPaths(rows)
      ensures DistinctIds(units)
      ensures forall k :: 0 <= k < |units| ==> fresh(units[k]) && units[k].id in rows
      ensures forall k :: 0 <= k < |units| ==> units[k].ToRow() == rows[units[k].id]
      ensures forall k :: 0 <= k < |units| ==> units[k].id in OrgForest.FindDescendants(rows, path.value)
      ensures forall i :: i in OrgForest.FindDescendants(rows, path.value) ==> Lists(units, i)
    {
      var todo := OrgForest.FindDescendants(rows, path.value);
      units := [];
      ghost var done: set<Id> := {};
      while todo != {}
        invariant todo <= rows.Keys
        invariant forall k :: 0 <= k < |units| ==> units[k].id in done
        invariant forall i :: i in done ==> Lists(units, i)
        invariant done !! todo && done + todo == OrgForest.FindDescendants(rows, path.value)
        invariant DistinctIds(units)
        invariant forall k :: 0 <= k < |units| ==> fresh(units[k]) && units[k].id in rows
        invariant forall k :: 0 <= k < |units| ==> units[k].ToRow() == rows[units[k].id]
        decreases todo
      {
        var id :| id in todo;
        assert IsPath(rows[id].path);
        var unit := new OrgUnit.FromSnapshot(id, rows[id]);
        ghost var before := units;
        units := units + [unit];
        forall i | i in done + {id}
          ensures Lists(units, i)
        {
          if i == id {
            assert units[|before|].id == i;
          } else {
            var k :| 0 <= k < |before| && before[k].id == i;
            assert units[k].id == i;
          }
        }
        done := done + {id};
        todo := todo - {id};
      }
    }

    /** `UPDATE ... SET version = v WHERE id = ... AND version = v - 1`, then a look at the count. */
    method GuardOptimisticLock(id: Id, newVersion: nat) returns (r: Result<(), OrgError>)
      modifies this`rows
      ensures newVersion <= 1 || id !in old(rows) ==> r.Ok? && rows == old(rows)
      ensures newVersion > 1 && id in old(rows) ==>
                if old(rows)[id].version == newVersion - 1
                then r.Ok? && rows == old(rows)[id := old(rows)[id].(version := newVersion)]
                else r == Err(VersionMismatch) && rows == old(rows)
    {
      if newVersion <= 1 {
        return Ok(());
      }
      if id in rows && rows[id].version == newVersion - 1 {
        rows := rows[id := rows[id].(version := newVersion)];
        return Ok(());
      }
      if id in rows {
        return Err(VersionMismatch);
      }
      r := Ok(());
    }

    /** Every guard first, then every row. A failed guard leaves the transaction to be rolled back. */
    method SaveMany(units: seq<OrgUnit>) returns (r: Result<(), OrgError>)
      requires DistinctIds(units)
      modifies this`rows
      ensures r.Ok? <==> forall k :: 0 <= k < |units| ==> Guarded(old(rows), units[k])
      ensures r.Err? ==> r.error == VersionMismatch
      ensures r.Ok? ==> rows.Keys == old(rows).Keys + set k | 0 <= k < |units| :: units[k].id
      ensures r.Ok? ==> forall k :: 0 <= k < |units| ==> rows[units[k].id] == units[k].ToRow()
      ensures r.Ok? ==> forall i :: i in old(rows) && !Lists(units, i) ==>
                          rows[i] == old(rows)[i]
    {
      var n := 0;
      while n < |units|
        invariant n <= |units|
        invariant rows.Keys == old(rows).Keys
        invariant forall k :: 0 <= k < n ==> Guarded(old(rows), units[k])
        invariant forall k :: n <= k < |units| && units[k].id in rows ==> rows[units[k].id] == old(rows)[units[k].id]
        invariant forall i :: i in rows && !Lists(units, i) ==>
                    rows[i] == old(rows)[i]
      {
        assert Lists(units, units[n].id);
        var guard := GuardOptimisticLock(units[n].id, units[n].version);
        if guard.Err? {
          assert !Guarded(old(rows), units[n]);
          return guard;
        }
        n := n + 1;
      }
      WriteAll(units);
      r := Ok(());
    }

    method WriteAll(units: seq<OrgUnit>)
      requires DistinctIds(units)
      modifies this`rows
      ensures rows.Keys == old(rows).Keys + set k | 0 <= k < |units| :: units[k].id
      ensures forall k :: 0 <= k < |units| ==> rows[units[k].id] == units[k].ToRow()
      ensures forall i :: i in old(rows) && !Lists(units, i) ==>
                rows[i] == old(rows)[i]
    {
      var n := 0;
      while n < |units|
        invariant n <= |units|
        invariant rows.Keys == old(rows).Keys + set k | 0 <= k < n :: units[k].id
        invariant forall k :: 0 <= k < n ==> units[k].id in rows && rows[units[k].id] == units[k].ToRow()
        invariant forall i :: i in old(rows) && !Lists(units, i) ==> rows[i] == old(rows)[i]
      {
        assert Lists(units, units[n].id);
        rows := rows[units[n].id := units[n].ToRow()];
        n := n + 1;
      }
    }

    method Save(unit: OrgUnit) returns (r: Result<(), OrgError>)
      modifies this`rows
      ensures r.Ok? <==> Guarded(old(rows), unit)
      ensures r.Ok? ==> rows == old(rows)[unit.id := unit.ToRow()]
      ensures r.Err? ==> rows == old(rows)
    {
      r := GuardOptimisticLock(unit.id, unit.version);
      if r.Ok? {
        rows := rows[unit.id := unit.ToRow()];
      }
    }
  }

  /** A rebased path can only fail by being too deep: its segments are all old ones. */
  lemma RebaseFailsOnlyByDepth(path: string, oldPath: string, newPath: string)
    requires oldPath + "." <= path && IsPath(path) && IsPath(newPath)
    ensures FromString(Rebased(path, oldPath, newPath)).Err? ==>
              FromString(Rebased(path, oldPath, newPath)).error == PathTooDeep
  {
    RebasedSegments(path, oldPath, newPath);
    var s := Rebased(path, oldPath, newPath);
    assert path[|oldPath|] == '.' && s[|newPath|] == '.';
  }

  /** The move use case is `OrgForest.Move`, and a failing call changes nothing. */
  method MoveOrgUnit(repo: OrgUnitRepository, id: Id, newParentId: Option<Id>, expectedVersion: Option<nat>)
    returns (r: Result<Row, OrgError>)
    requires ValidPaths(repo.rows) && UniquePaths(repo.rows)
    modifies repo`rows
    ensures var m := Move(old(repo.rows), id, newParentId, expectedVersion);
            && (m.Ok? ==> repo.rows == m.value && r == Ok(m.value[id]))
            && (m.Err? ==> repo.rows == old(repo.rows) && r == Err(m.error))
    ensures id in old(repo.rows) && expectedVersion.Some? && expectedVersion.value != old(repo.rows)[id].version ==>
              r == Err(VersionMismatch) && repo.rows == old(repo.rows)
  {
    var failed, node, newParentPath := LoadForMove(repo, id, newParentId, expectedVersion);
    if failed.Some? {
      return Err(failed.value);
    }
    var oldPath := node.path;
    var descendants := repo.FindDescendants(oldPath);
    r := MoveLoaded(repo, id, newParentId, newParentPath, node, descendants, oldPath);
  }

  /** Loads the node and the new parent, and runs the version and cycle checks. */
  method LoadForMove(repo: OrgUnitRepository, id: Id, newParentId: Option<Id>, expectedVersion: Option<nat>)
    returns (failed: Option<OrgError>, node: OrgUnit?, newParentPath: Option<OrgPath>)
    requires ValidPaths(repo.rows)
    ensures failed == CheckMove(repo.rows, id, newParentId, expectedVersion)
    ensures failed.None? ==> node != null && fresh(node) && node.id == id && node.ToRow() == repo.rows[id]
    ensures failed.None? ==> newParentPath == if newParentId.Some? then Some(OrgPath(repo.rows[newParentId.value].path)) else None
  {
    newParentPath := None;
    node := repo.FindById(id);
    if node == null {
      failed := Some(NotFound(id));
      return;
    }
    if expectedVersion.Some? && expectedVersion.value != node.version {
      failed := Some(VersionMismatch);
      return;
    }
    if newParentId.Some? {
      var newParent := repo.FindById(newParentId.value);
      if newParent == null {
        failed := Some(NotFound(newParentId.value));
        return;
      }
      if node.path.IsAncestorOf(newParent.path) {
        failed := Some(CycleRejected);
        return;
      }
      newParentPath := Some(newParent.path);
    }
    failed := None;
  }

  /** The rows the subtree query selects, loaded once each and still as stored. */
  ghost predicate LoadedSubtree(t: Table, p: string, units: seq<OrgUnit>)
    reads units
  {
    && DistinctIds(units)
    && (forall k :: 0 <= k < |units| ==> units[k].id in OrgForest.FindDescendants(t, p) && units[k].ToRow() == t[units[k].id])
    && (forall i :: i in OrgForest.FindDescendants(t, p) ==> Lists(units, i))
  }

  method MoveLoaded(repo: OrgUnitRepository, id: Id, newParentId: Option<Id>, newParentPath: Option<OrgPath>,
                    node: OrgUnit, descendants: seq<OrgUnit>, oldPath: OrgPath) returns (r: Result<Row, OrgError>)
    requires ValidPaths(repo.rows) && UniquePaths(repo.rows)
    requires id in repo.rows && (newParentId.Some? ==> newParentId.value in repo.rows)
    requires newParentPath == if newParentId.Some? then Some(OrgPath(repo.rows[newParentId.value].path)) else None
    requires node.id == id && node.ToRow() == repo.rows[id] && node.path == oldPath
    requires LoadedSubtree(repo.rows, oldPath.value, descendants) && node !in descendants
    modifies repo`rows, node, descendants
    ensures Outcome(old(repo.rows), id, newParentId) == (repo.rows, r)
  {
    ghost var target := NewPath(repo.rows, id, newParentId);
    assert target == if newParentPath.Some? then newParentPath.value.Child(node.path.Leaf()) else FromString(node.path.Leaf());
    var moved := node.MoveTo(newParentId, newParentPath);
    if moved.Err? {
      return Err(InvalidPath(moved.error));
    }
    assert node.path.value == target.value.value;
    r := MovePlaced(repo, id, newParentId, node, descendants, oldPath);
  }

  /** The node has its new path; the path must be free, and then the subtree follows. */
  method MovePlaced(repo: OrgUnitRepository, ghost id: Id, ghost newParentId: Option<Id>, node: OrgUnit,
                    descendants: seq<OrgUnit>, oldPath: OrgPath) returns (r: Result<Row, OrgError>)
    requires ValidPaths(repo.rows) && UniquePaths(repo.rows) && id in repo.rows && repo.rows[id].path == oldPath.value
    requires IsPath(node.path.value) && node.id == id
    requires node.ToRow() == Row(newParentId, node.path.value, repo.rows[id].version + 1)
    requires LoadedSubtree(repo.rows, oldPath.value, descendants) && node !in descendants
    modifies repo`rows, descendants
    ensures node.ToRow() == old(node.ToRow())
    ensures TakenByAnother(old(repo.rows), id, node.path.value) ==>
              r == Err(PathTaken(node.path.value)) && repo.rows == old(repo.rows)
    ensures !TakenByAnother(old(repo.rows), id, node.path.value) && TooDeepAfter(old(repo.rows), id, node.path.value) ==>
              r == Err(InvalidPath(PathTooDeep)) && repo.rows == old(repo.rows)
    ensures !TakenByAnother(old(repo.rows), id, node.path.value) && !TooDeepAfter(old(repo.rows), id, node.path.value) ==>
              r == Ok(node.ToRow()) && repo.rows == MovedTable(old(repo.rows), id, newParentId, node.path.value)
  {
    var clash := repo.FindByPath(node.path);
    if clash != null && clash.id != node.id {
      assert TakenByAnother(repo.rows, id, node.path.value);
      return Err(PathTaken(node.path.value));
    }
    var rewritten := RewriteSubtree(repo, id, newParentId, node, descendants, oldPath);
    if rewritten.Err? {
      return Err(rewritten.error);
    }
    r := Ok(node.ToRow());
  }

  /** Each unit holds the row the move leaves for it. */
  ghost predicate HoldMovedRows(t: Table, id: Id, newParent: Option<Id>, newPath: string, units: seq<OrgUnit>)
    requires id in t
    reads units
  {
    forall k :: 0 <= k < |units| ==>
      units[k].id in t && units[k].ToRow() == MovedRow(t, id, newParent, newPath, units[k].id)
  }

  ghost predicate CoversSubtree(t: Table, p: string, units: seq<OrgUnit>) {
    forall d :: d in t && p + "." <= t[d].path ==> Lists(units, d)
  }

  /** The tail of the move: rebase every descendant, then save the whole subtree. */
  method RewriteSubtree(repo: OrgUnitRepository, ghost id: Id, ghost newParentId: Option<Id>, node: OrgUnit,
                        descendants: seq<OrgUnit>, oldPath: OrgPath) returns (r: Result<(), OrgError>)
    requires ValidPaths(repo.rows) && id in repo.rows && repo.rows[id].path == oldPath.value
    requires IsPath(node.path.value) && node.id == id
    requires node.ToRow() == Row(newParentId, node.path.value, repo.rows[id].version + 1)
    requires LoadedSubtree(repo.rows, oldPath.value, descendants) && node !in descendants
    modifies repo`rows, descendants
    ensures node.ToRow() == old(node.ToRow())
    ensures r.Err? <==> TooDeepAfter(old(repo.rows), id, node.path.value)
    ensures r.Err? ==> r.error == InvalidPath(PathTooDeep) && repo.rows == old(repo.rows)
    ensures r.Ok? ==> repo.rows == MovedTable(old(repo.rows), id, newParentId, node.path.value)
  {
    ghost var t := repo.rows;
    assert IsPath(t[id].path);
    DescendantsArePrefixed(t, oldPath.value);
    var rebase := RebaseAll(t, id, newParentId, node, descendants, oldPath);
    if rebase.Err? {
      return Err(InvalidPath(rebase.error));
    }
    SaveSubtree(repo, id, newParentId, node, descendants, oldPath);
    r := Ok(());
  }

  /** In one transaction every compare-and-set succeeds, so the save is the whole rewrite. */
  method SaveSubtree(repo: OrgUnitRepository, ghost id: Id, ghost newParentId: Option<Id>, node: OrgUnit,
                     descendants: seq<OrgUnit>, ghost oldPath: OrgPath)
    requires id in repo.rows && repo.rows[id].path == oldPath.value && node.id == id
    requires node.ToRow() == Row(newParentId, node.path.value, repo.rows[id].version + 1)
    requires DistinctIds(descendants) && CoversSubtree(repo.rows, oldPath.value, descendants)
    requires HoldMovedRows(repo.rows, id, newParentId, node.path.value, descendants)
    requires forall k :: 0 <= k < |descendants| ==> Above(repo.rows, oldPath.value, descendants[k].id)
    modifies repo`rows
    ensures repo.rows == MovedTable(old(repo.rows), id, newParentId, node.path.value)
  {
    ghost var t := repo.rows;
    var units := [node] + descendants;
    assert DistinctIds(units);
    assert HoldMovedRows(t, id, newParentId, node.path.value, units);
    CoverWithNode(t, oldPath.value, node, descendants);
    AllGuarded(t, id, newParentId, node.path.value, units);
    var saved := repo.SaveMany(units);
    SavedIsMoved(t, repo.rows, id, newParentId, node.path.value, units);
  }

  ghost predicate Above(t: Table, p: string, d: Id) {
    d in t && p + "." <= t[d].path
  }

  lemma CoverWithNode(t: Table, p: string, node: OrgUnit, descendants: seq<OrgUnit>)
    requires CoversSubtree(t, p, descendants)
    ensures CoversSubtree(t, p, [node] + descendants)
  {
    var units := [node] + descendants;
    forall d | d in t && p + "." <= t[d].path
      ensures Lists(units, d)
    {
      var k :| 0 <= k < |descendants| && descendants[k].id == d;
      assert units[k + 1].id == d;
    }
  }

  lemma AllGuarded(t: Table, id: Id, newParent: Option<Id>, newPath: string, units: seq<OrgUnit>)
    requires id in t && HoldMovedRows(t, id, newParent, newPath, units)
    requires forall k :: 0 <= k < |units| ==> units[k].id == id || Above(t, t[id].path, units[k].id)
    ensures forall k :: 0 <= k < |units| ==> Guarded(t, units[k])
  {
  }

  predicate TakenByAnother(t: Table, id: Id, p: string) {
    exists j :: j in t && j != id && t[j].path == p
  }

  /** The table and the answer that a move leaves once its first checks have passed. */
  ghost function Outcome(t: Table, id: Id, newParent: Option<Id>): (Table, Result<Row, OrgError>)
    requires id in t && (newParent.Some? ==> newParent.value in t)
  {
    var m := Rewrite(t, id, newParent);
    if m.Ok? then (m.value, Ok(m.value[id])) else (t, Err(m.error))
  }

  /** One descendant still as stored gets the row the move leaves for it, unless it ends up too deep. */
  method RebaseOne(ghost t: Table, ghost id: Id, ghost newParentId: Option<Id>, unit: OrgUnit, oldPath: OrgPath, newPath: OrgPath)
    returns (r: Result<(), PathError>)
    requires ValidPaths(t) && id in t && t[id].path == oldPath.value && IsPath(newPath.value)
    requires Above(t, oldPath.value, unit.id) && unit.ToRow() == t[unit.id]
    modifies unit
    ensures r.Ok? <==> IsPath(Rebased(t[unit.id].path, oldPath.value, newPath.value))
    ensures r.Ok? ==> unit.ToRow() == MovedRow(t, id, newParentId, newPath.value, unit.id)
    ensures r.Err? ==> r.error == PathTooDeep
  {
    assert IsPath(t[unit.id].path);
    RebaseFailsOnlyByDepth(t[unit.id].path, oldPath.value, newPath.value);
    r := unit.RebasePath(oldPath, newPath);
  }

  /** The loop that rebases every descendant in place, stopping at the first failure. */
  method RebaseAll(ghost t: Table, ghost id: Id, ghost newParentId: Option<Id>, node: OrgUnit,
                   descendants: seq<OrgUnit>, oldPath: OrgPath) returns (r: Result<(), PathError>)
    requires ValidPaths(t) && id in t && t[id].path == oldPath.value && node !in descendants
    requires IsPath(node.path.value) && DistinctIds(descendants)
    requires forall k :: 0 <= k < |descendants| ==>
               Above(t, oldPath.value, descendants[k].id) && descendants[k].ToRow() == t[descendants[k].id]
    requires CoversSubtree(t, oldPath.value, descendants)
    modifies descendants
    ensures r.Err? <==> TooDeepAfter(t, id, node.path.value)
    ensures r.Err? ==> r.error == PathTooDeep
    ensures r.Ok? ==> HoldMovedRows(t, id, newParentId, node.path.value, descendants)
  {
    var n := 0;
    while n < |descendants|
      invariant n <= |descendants|
      invariant forall k :: n <= k < |descendants| ==> descendants[k].ToRow() == t[descendants[k].id]
      invariant forall k :: 0 <= k < n ==>
                  && IsPath(Rebased(t[descendants[k].id].path, oldPath.value, node.path.value))
                  && descendants[k].ToRow() == MovedRow(t, id, newParentId, node.path.value, descendants[k].id)
    {
      var rebased := RebaseOne(t, id, newParentId, descendants[n], oldPath, node.path);
      if rebased.Err? {
        return rebased;
      }
      n := n + 1;
    }
    r := Ok(());
  }

  lemma SavedIsMoved(before: Table, after: Table, id: Id, newParent: Option<Id>, newPath: string, units: seq<OrgUnit>)
    requires id in before && |units| > 0 && units[0].id == id
    requires CoversSubtree(before, before[id].path, units)
    requires forall k :: 0 <= k < |units| ==> units[k].id in before
    requires after.Keys == before.Keys
    requires forall k :: 0 <= k < |units| ==> after[units[k].id] == MovedRow(before, id, newParent, newPath, units[k].id)
    requires forall i :: i in before && !Lists(units, i) ==> after[i] == before[i]
    ensures after == MovedTable(before, id, newParent, newPath)
  {
    forall i | i in before
      ensures after[i] == MovedRow(before, id, newParent, newPath, i)
    {
      if Lists(units, i) {
        var k :| 0 <= k < |units| && units[k].id == i;
      }
    }
  }

  /** The create use case is `OrgForest.Create`, and a failing call changes nothing. */
  method CreateOrgUnit(repo: OrgUnitRepository, newId: Id, parentId: Option<Id>, segment: string)
    returns (r: Result<Row, OrgError>)
    requires ValidPaths(repo.rows) && newId !in repo.rows
    modifies repo`rows
    ensures var c := Create(old(repo.rows), newId, parentId, segment);
            && (c.Ok? ==> repo.rows == c.value && r == Ok(c.value[newId]))
            && (c.Err? ==> repo.rows == old(repo.rows) && r == Err(c.error))
  {
    var path;
    if parentId.Some? {
      var parent := repo.FindById(parentId.value);
      if parent == null {
        return Err(NotFound(parentId.value));
      }
      path := parent.path.Child(segment);
    } else {
      path := FromString(segment);
    }
    if path.Err? {
      return Err(InvalidPath(path.error));
    }
    var orgUnit := new OrgUnit.FromSnapshot(newId, Row(parentId, path.value.value, 1));
    var existing := repo.FindByPath(orgUnit.path);
    if existing != null {
      return Err(PathTaken(orgUnit.path.value));
    }
    var saved := repo.Save(orgUnit);
    r := Ok(orgUnit.ToRow());
  }
}
