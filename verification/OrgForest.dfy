/**
 The org-unit table as a value: what create and move do to it, the invariant that ties the
 `parentId` tree to the dotted-path index, and the theorems that hold in every reachable table.
 */
module OrgForest {
  import opened Wrappers
  import opened DottedPaths
  import opened OrgPaths

  type Id = string

  datatype Row = Row(parentId: Option<Id>, path: string, version: nat)

  /** The rows one tenant sees. */
  type Table = map<Id, Row>

  datatype OrgError =
    | NotFound(id: Id)
    | VersionMismatch
    | CycleRejected
    | PathTaken(path: string)
    | InvalidPath(reason: PathError)

  // ----- The tree and the index -------------------------------------------------------------

  function Segs(t: Table, i: Id): seq<string>
    requires i in t
  {
    Split(t[i].path)
  }

  function LeafOf(path: string): string {
    OrgPath(path).Leaf()
  }

  /** A root has one segment; any other node extends its parent's path by its own leaf. */
  predicate Linked(t: Table, i: Id)
    requires i in t
  {
    match t[i].parentId
    case None => |Segs(t, i)| == 1
    case Some(p) => p in t && t[i].path == t[p].path + "." + LeafOf(t[i].path)
  }

  ghost predicate ValidPaths(t: Table) {
    forall i {:trigger IsPath(t[i].path)} :: i in t ==> IsPath(t[i].path)
  }

  ghost predicate UniquePaths(t: Table) {
    forall i, j {:trigger t[i].path, t[j].path} :: i in t && j in t && i != j ==> t[i].path != t[j].path
  }

  ghost predicate Forest(t: Table) {
    && ValidPaths(t)
    && (forall i {:trigger Linked(t, i)} :: i in t ==> Linked(t, i))
    && UniquePaths(t)
  }

  /** `a` is reached from `x` by following `parentId` n times. */
  ghost predicate Hops(t: Table, x: Id, a: Id, n: nat)
    decreases n
  {
    && x in t
    && if n == 0 then x == a
       else t[x].parentId.Some? && Hops(t, t[x].parentId.value, a, n - 1)
  }

  ghost predicate Below(t: Table, x: Id, a: Id) {
    exists n: nat :: n > 0 && Hops(t, x, a, n)
  }

  lemma ParentSegments(t: Table, i: Id)
    requires i in t && Linked(t, i) && t[i].parentId.Some?
    ensures Segs(t, i) == Segs(t, t[i].parentId.value) + [LeafOf(t[i].path)]
  {
    var leaf := LeafOf(t[i].path);
    SplitConcat(t[t[i].parentId.value].path, leaf);
    SplitDotFree(leaf);
  }

  /** Every prefix of a stored path is itself the path of an ancestor-or-self. */
  lemma {:induction false} PrefixIsAncestor(t: Table, x: Id, p: string) returns (a: Id, n: nat)
    requires Forest(t) && x in t && Split(p) <= Segs(t, x)
    ensures a in t && t[a].path == p && Hops(t, x, a, n)
    ensures n == |Segs(t, x)| - |Split(p)|
    decreases |Segs(t, x)|
  {
    if Split(p) == Segs(t, x) {
      SplitInjective(p, t[x].path);
      a, n := x, 0;
    } else {
      assert Linked(t, x);
      ParentSegments(t, x);
      a, n := PrefixIsAncestor(t, t[x].parentId.value, p);
      n := n + 1;
    }
  }

  lemma {:induction false} HopsExtendPath(t: Table, x: Id, a: Id, n: nat)
    requires Forest(t) && Hops(t, x, a, n)
    ensures a in t && Segs(t, a) <= Segs(t, x) && |Segs(t, x)| == |Segs(t, a)| + n
    decreases n
  {
    if n > 0 {
      assert Linked(t, x);
      ParentSegments(t, x);
      HopsExtendPath(t, t[x].parentId.value, a, n - 1);
    }
  }

  /** The prefix index agrees with the tree, in both directions. */
  lemma PrefixIffBelow(t: Table, x: Id, a: Id)
    requires Forest(t) && x in t && a in t
    ensures t[a].path + "." <= t[x].path <==> Below(t, x, a)
  {
    StartsWithIffSegmentPrefix(t[a].path, t[x].path);
    if t[a].path + "." <= t[x].path {
      var k, n := PrefixIsAncestor(t, x, t[a].path);
      assert k == a && n > 0;
    }
    if Below(t, x, a) {
      var n: nat :| n > 0 && Hops(t, x, a, n);
      HopsExtendPath(t, x, a, n);
    }
  }

  lemma ForestAcyclic(t: Table, x: Id)
    requires Forest(t)
    ensures !Below(t, x, x)
  {
    if Below(t, x, x) {
      var n: nat :| n > 0 && Hops(t, x, x, n);
      HopsExtendPath(t, x, x, n);
    }
  }

  /** Following `parentId` from any node reaches a root in fewer than eight steps. */
  lemma ReachesRoot(t: Table, x: Id) returns (root: Id, n: nat)
    requires Forest(t) && x in t
    ensures root in t && t[root].parentId.None? && Hops(t, x, root, n) && n < MAX_DEPTH
  {
    var first := Segs(t, x)[0];
    SplitDotFree(first);
    root, n := PrefixIsAncestor(t, x, first);
    assert IsPath(t[x].path) && Linked(t, root);
    if t[root].parentId.Some? {
      ParentSegments(t, root);
      assert false;
    }
  }

  // ----- The queries ------------------------------------------------------------------------

  /** `path LIKE 'p.%'` */
  function FindDescendants(t: Table, p: string): set<Id> {
    set i | i in t && Like(t[i].path, p + ".%")
  }

  /** `path = 'p' OR path LIKE 'p.%'` */
  function ListSubtree(t: Table, p: string): set<Id> {
    set i | i in t && (t[i].path == p || Like(t[i].path, p + ".%"))
  }

  lemma DescendantsArePrefixed(t: Table, p: string)
    requires IsPath(p)
    ensures FindDescendants(t, p) == set i | i in t && p + "." <= t[i].path
  {
    forall i | i in t
      ensures Like(t[i].path, p + ".%") <==> p + "." <= t[i].path
    {
      LikeSubtreeIsPrefix(t[i].path, p);
    }
  }

  /** The subtree query returns the nodes below `a` in the tree, no more and no fewer. */
  lemma FindDescendantsExact(t: Table, a: Id, x: Id)
    requires Forest(t) && a in t
    ensures x in FindDescendants(t, t[a].path) <==> Below(t, x, a)
    ensures x in ListSubtree(t, t[a].path) <==> x == a || Below(t, x, a)
  {
    if x in t {
      LikeSubtreeIsPrefix(t[x].path, t[a].path);
      PrefixIffBelow(t, x, a);
    }
  }

  // ----- Create -----------------------------------------------------------------------------

  function Create(t: Table, newId: Id, parentId: Option<Id>, segment: string): Result<Table, OrgError>
    requires newId !in t
  {
    if parentId.Some? && parentId.value !in t then Err(NotFound(parentId.value))
    else
      var path := if parentId.Some? then OrgPath(t[parentId.value].path).Child(segment)
                  else FromString(segment);
      if path.Err? then Err(InvalidPath(path.error))
      else if exists j :: j in t && t[j].path == path.value.value then Err(PathTaken(path.value.value))
      else Ok(t[newId := Row(parentId, path.value.value, 1)])
  }

  /**
   A successful create keeps the invariant exactly when the segment is one segment. The path
   value object alone would take `a.b`; the request pattern is what rules it out.
   */
  lemma CreateKeepsForestIffSingleSegment(t: Table, newId: Id, parentId: Option<Id>, segment: string)
    requires Forest(t) && newId !in t
    requires Create(t, newId, parentId, segment).Ok?
    ensures Forest(Create(t, newId, parentId, segment).value) <==> DotFree(segment)
  {
    if DotFree(segment) {
      CreatedIsForest(t, newId, parentId, segment);
    } else {
      DottedHasTwo(segment);
      var t' := Create(t, newId, parentId, segment).value;
      if parentId.Some? {
        SplitConcat(t[parentId.value].path, segment);
        if Linked(t', newId) {
          ParentSegments(t', newId);
          assert false;
        }
      }
      assert !Linked(t', newId);
    }
  }

  /** Any two segments with a dot between them are taken for one, and the new root has two segments. */
  lemma DottedCreateBreaksForest(newId: Id, a: string, b: string)
    requires IsSegment(a) && IsSegment(b)
    ensures Forest(map[]) && Create(map[], newId, None, a + "." + b).Ok?
    ensures !Forest(Create(map[], newId, None, a + "." + b).value)
  {
    SplitDotFree(a);
    SplitDotFree(b);
    SplitConcat(a, b);
    assert IsPath(a + "." + b);
    assert !DotFree(a + "." + b) by {
      assert (a + "." + b)[|a|] == '.';
    }
    CreateKeepsForestIffSingleSegment(map[], newId, None, a + "." + b);
  }

  lemma CreatedIsForest(t: Table, newId: Id, parentId: Option<Id>, segment: string)
    requires Forest(t) && newId !in t && DotFree(segment)
    requires Create(t, newId, parentId, segment).Ok?
    ensures Forest(Create(t, newId, parentId, segment).value)
  {
    var t' := Create(t, newId, parentId, segment).value;
    SplitDotFree(segment);
    if parentId.Some? {
      SplitConcat(t[parentId.value].path, segment);
    }
    forall i | i in t'
      ensures IsPath(t'[i].path) && Linked(t', i)
    {
      if i != newId {
        assert IsPath(t[i].path) && Linked(t, i);
      }
    }
    assert UniquePaths(t') by {
      assert forall j :: j in t ==> t[j].path != t'[newId].path;
    }
  }

  lemma DottedHasTwo(s: string)
    requires !DotFree(s)
    ensures |Split(s)| >= 2
  {
    JoinSplit(s);
  }

  // ----- Move -------------------------------------------------------------------------------

  function NewPath(t: Table, id: Id, newParent: Option<Id>): Result<OrgPath, PathError>
    requires id in t && (newParent.Some? ==> newParent.value in t)
  {
    var leaf := LeafOf(t[id].path);
    if newParent.Some? then OrgPath(t[newParent.value].path).Child(leaf) else FromString(leaf)
  }

  /** The old ancestor prefix cut off and the new one put in its place. */
  function Rebased(path: string, oldPath: string, newPath: string): string
  {
    newPath + (if |oldPath| <= |path| then path[|oldPath|..] else "")
  }

  predicate InSubtree(path: string, oldPath: string) {
    path == oldPath || oldPath + "." <= path
  }

  function MovedRow(t: Table, id: Id, newParent: Option<Id>, newPath: string, i: Id): Row
    requires id in t && i in t
  {
    if i == id then Row(newParent, newPath, t[id].version + 1)
    else if t[id].path + "." <= t[i].path then
      Row(t[i].parentId, Rebased(t[i].path, t[id].path, newPath), t[i].version + 1)
    else t[i]
  }

  function MovedTable(t: Table, id: Id, newParent: Option<Id>, newPath: string): Table
    requires id in t
  {
    map i | i in t :: MovedRow(t, id, newParent, newPath, i)
  }

  predicate TooDeepAfter(t: Table, id: Id, newPath: string)
    requires id in t
  {
    exists d :: d in t && t[id].path + "." <= t[d].path && !IsPath(Rebased(t[d].path, t[id].path, newPath))
  }

  /** The checks before anything is computed: presence, version, cycle. */
  function CheckMove(t: Table, id: Id, newParent: Option<Id>, expected: Option<nat>): Option<OrgError> {
    if id !in t then Some(NotFound(id))
    else if expected.Some? && expected.value != t[id].version then Some(VersionMismatch)
    else if newParent.Some? && newParent.value !in t then Some(NotFound(newParent.value))
    else if newParent.Some? && OrgPath(t[id].path).IsAncestorOf(OrgPath(t[newParent.value].path)) then
      Some(CycleRejected)
    else None
  }

  function Rewrite(t: Table, id: Id, newParent: Option<Id>): Result<Table, OrgError>
    requires id in t && (newParent.Some? ==> newParent.value in t)
  {
    var path := NewPath(t, id, newParent);
    if path.Err? then Err(InvalidPath(path.error))
    else
      var newPath := path.value.value;
      if exists j :: j in t && j != id && t[j].path == newPath then Err(PathTaken(newPath))
      else if TooDeepAfter(t, id, newPath) then Err(InvalidPath(PathTooDeep))
      else Ok(MovedTable(t, id, newParent, newPath))
  }

  function Move(t: Table, id: Id, newParent: Option<Id>, expected: Option<nat>): Result<Table, OrgError> {
    var failed := CheckMove(t, id, newParent, expected);
    if failed.Some? then Err(failed.value) else Rewrite(t, id, newParent)
  }

  /** The path guard rejects exactly the moves that would make a cycle in the tree. */
  lemma CycleGuardExact(t: Table, id: Id, p: Id)
    requires Forest(t) && id in t && p in t
    ensures OrgPath(t[id].path).IsAncestorOf(OrgPath(t[p].path)) <==> p == id || Below(t, p, id)
  {
    PrefixIffBelow(t, p, id);
  }

  /** What a successful move knows about the two prefixes it swaps. */
  ghost predicate MoveContext(t: Table, id: Id, newParent: Option<Id>, newPath: string) {
    && Forest(t) && id in t
    && (newParent.Some? ==> newParent.value in t && !InSubtree(t[newParent.value].path, t[id].path))
    && NewPath(t, id, newParent) == Ok(OrgPath(newPath))
    && (forall j :: j in t && j != id ==> t[j].path != newPath)
    && !TooDeepAfter(t, id, newPath)
  }

  lemma MoveOkContext(t: Table, id: Id, newParent: Option<Id>, expected: Option<nat>) returns (newPath: string)
    requires Forest(t) && Move(t, id, newParent, expected).Ok?
    ensures MoveContext(t, id, newParent, newPath)
    ensures Move(t, id, newParent, expected).value == MovedTable(t, id, newParent, newPath)
  {
    newPath := NewPath(t, id, newParent).value.value;
  }

  lemma NewPathSegments(t: Table, id: Id, newParent: Option<Id>, newPath: string)
    requires MoveContext(t, id, newParent, newPath)
    ensures newParent.None? ==> Split(newPath) == [LeafOf(t[id].path)]
    ensures newParent.Some? ==> Split(newPath) == Segs(t, newParent.value) + [LeafOf(t[id].path)]
    ensures LeafOf(newPath) == LeafOf(t[id].path)
  {
    var leaf := LeafOf(t[id].path);
    SplitDotFree(leaf);
    if newParent.Some? {
      SplitConcat(t[newParent.value].path, leaf);
    }
  }

  /** No stored path lies at or under the new path, unless the move changes nothing. */
  lemma NewPathIsFresh(t: Table, id: Id, newParent: Option<Id>, newPath: string, j: Id)
    requires MoveContext(t, id, newParent, newPath)
    requires j in t && Split(newPath) <= Segs(t, j)
    ensures newPath == t[id].path
  {
    var k, _ := PrefixIsAncestor(t, j, newPath);
  }

  /** A rebased path has the new prefix's segments followed by the untouched tail. */
  lemma RebasedSegments(path: string, oldPath: string, newPath: string)
    requires oldPath + "." <= path
    ensures Split(oldPath) < Split(path)
    ensures Split(Rebased(path, oldPath, newPath)) == Split(newPath) + Split(path)[|Split(oldPath)|..]
  {
    var tail := path[|oldPath| + 1..];
    assert path == oldPath + "." + tail;
    SplitConcat(oldPath, tail);
    assert Rebased(path, oldPath, newPath) == newPath + "." + tail;
    SplitConcat(newPath, tail);
  }

  /** The segments of row i after the move: moved rows swap prefix, the others keep theirs. */
  lemma MovedSegments(t: Table, id: Id, newParent: Option<Id>, newPath: string, i: Id)
    requires MoveContext(t, id, newParent, newPath) && i in t
    ensures InSubtree(t[i].path, t[id].path) <==> Segs(t, id) <= Segs(t, i)
    ensures var t' := MovedTable(t, id, newParent, newPath);
            Segs(t', i) == if Segs(t, id) <= Segs(t, i) then Split(newPath) + Segs(t, i)[|Segs(t, id)|..]
                           else Segs(t, i)
  {
    IsAncestorOfIsSegmentPrefix(OrgPath(t[id].path), OrgPath(t[i].path));
    if t[id].path + "." <= t[i].path {
      RebasedSegments(t[i].path, t[id].path, newPath);
    }
  }

  /**
   Two rows never meet on one path, whichever of them have been rewritten so far: `i` at its new
   path against `j` at its new path, and `i` at its new path against `j` still at its old one.
   */
  lemma MovedNeverCollides(t: Table, id: Id, newParent: Option<Id>, newPath: string, i: Id, j: Id)
    requires MoveContext(t, id, newParent, newPath) && i in t && j in t && i != j
    ensures var t' := MovedTable(t, id, newParent, newPath);
            t'[i].path != t'[j].path && t'[i].path != t[j].path
  {
    var t' := MovedTable(t, id, newParent, newPath);
    MovedSegments(t, id, newParent, newPath, i);
    MovedSegments(t, id, newParent, newPath, j);
    MovedAgainstOld(t, id, newParent, newPath, i, j);
    if t'[i].path == t'[j].path {
      var prefix := Segs(t, id);
      if prefix <= Segs(t, i) && prefix <= Segs(t, j) {
        assert Segs(t, i)[|prefix|..] == (Split(newPath) + Segs(t, i)[|prefix|..])[|Split(newPath)|..];
        assert Segs(t, j)[|prefix|..] == (Split(newPath) + Segs(t, j)[|prefix|..])[|Split(newPath)|..];
        assert Segs(t, i) == prefix + Segs(t, i)[|prefix|..];
        assert Segs(t, j) == prefix + Segs(t, j)[|prefix|..];
        SplitInjective(t[i].path, t[j].path);
      } else if prefix <= Segs(t, j) {
        MovedAgainstOld(t, id, newParent, newPath, j, i);
      }
    }
  }

  lemma MovedAgainstOld(t: Table, id: Id, newParent: Option<Id>, newPath: string, i: Id, j: Id)
    requires MoveContext(t, id, newParent, newPath) && i in t && j in t && i != j
    ensures MovedTable(t, id, newParent, newPath)[i].path != t[j].path
  {
    var t' := MovedTable(t, id, newParent, newPath);
    MovedSegments(t, id, newParent, newPath, i);
    if t'[i].path == t[j].path && Segs(t, id) <= Segs(t, i) {
      NewPathIsFresh(t, id, newParent, newPath, j);
    }
  }

  lemma MovedLinked(t: Table, id: Id, newParent: Option<Id>, newPath: string, i: Id)
    requires MoveContext(t, id, newParent, newPath) && i in t
    ensures Linked(MovedTable(t, id, newParent, newPath), i)
  {
    var t' := MovedTable(t, id, newParent, newPath);
    assert Linked(t, i);
    NewPathSegments(t, id, newParent, newPath);
    if i == id {
      if newParent.Some? {
        assert t'[newParent.value].path == t[newParent.value].path;
        assert newPath == t[newParent.value].path + "." + LeafOf(t[id].path);
      }
    } else {
      MovedSegments(t, id, newParent, newPath, i);
      if t[i].parentId.Some? {
        MovedChildLinked(t, id, newParent, newPath, i);
      } else if Segs(t, id) <= Segs(t, i) {
        SplitInjective(t[id].path, t[i].path);
      }
    }
  }

  lemma MovedChildLinked(t: Table, id: Id, newParent: Option<Id>, newPath: string, i: Id)
    requires id in t && i in t && i != id
    requires Linked(t, i) && t[i].parentId.Some?
    requires t[t[i].parentId.value].path == t[id].path ==> t[i].parentId.value == id
    ensures Linked(MovedTable(t, id, newParent, newPath), i)
  {
    var parent := t[t[i].parentId.value].path;
    var leaf := LeafOf(t[i].path);
    ChildInSubtreeIff(parent, leaf, t[id].path);
    if InSubtree(parent, t[id].path) {
      RebaseKeepsChild(parent, leaf, t[id].path, newPath);
    }
  }

  lemma ChildInSubtreeIff(parent: string, leaf: string, oldPath: string)
    requires DotFree(leaf)
    ensures oldPath + "." <= parent + "." + leaf <==> InSubtree(parent, oldPath)
  {
    var child := parent + "." + leaf;
    var n := |oldPath|;
    if |parent| < n < |child| {
      assert child[n] == leaf[n - |parent| - 1] != '.' == (oldPath + ".")[n];
    } else if n <= |parent| && oldPath + "." <= child {
      assert oldPath == child[..n] == parent[..n];
      assert n < |parent| ==> oldPath + "." == child[..n + 1] == parent[..n + 1];
    }
  }

  lemma RebaseKeepsChild(parent: string, leaf: string, oldPath: string, newPath: string)
    requires InSubtree(parent, oldPath) && DotFree(leaf)
    ensures var child := parent + "." + leaf;
            && oldPath + "." <= child
            && Rebased(child, oldPath, newPath) == Rebased(parent, oldPath, newPath) + "." + leaf
            && LeafOf(Rebased(child, oldPath, newPath)) == leaf
  {
    var child := parent + "." + leaf;
    assert child[|oldPath|..] == parent[|oldPath|..] + "." + leaf;
    SplitConcat(Rebased(parent, oldPath, newPath), leaf);
    SplitDotFree(leaf);
  }

  /**
   A successful move keeps the whole invariant. Only the moved node's own new path was checked
   against the index, and that check is enough for every rebased descendant.
   */
  lemma MoveKeepsForest(t: Table, id: Id, newParent: Option<Id>, expected: Option<nat>)
    requires Forest(t) && Move(t, id, newParent, expected).Ok?
    ensures Forest(Move(t, id, newParent, expected).value)
  {
    var newPath := MoveOkContext(t, id, newParent, expected);
    var t' := MovedTable(t, id, newParent, newPath);
    forall i | i in t'
      ensures IsPath(t'[i].path) && Linked(t', i)
    {
      MovedLinked(t, id, newParent, newPath, i);
    }
    forall i, j | i in t' && j in t' && i != j
      ensures t'[i].path != t'[j].path
    {
      MovedNeverCollides(t, id, newParent, newPath, i, j);
    }
  }

  /**
   `saveMany` writes the subtree one row at a time under a unique index on the path. Whatever set
   of rows has been written so far, no two rows share a path.
   */
  lemma EveryPartialSaveIsUnique(t: Table, id: Id, newParent: Option<Id>, expected: Option<nat>, written: set<Id>)
    requires Forest(t) && Move(t, id, newParent, expected).Ok?
    ensures var t' := Move(t, id, newParent, expected).value;
            UniquePaths(map i | i in t :: if i in written then t'[i] else t[i])
  {
    var newPath := MoveOkContext(t, id, newParent, expected);
    var t' := MovedTable(t, id, newParent, newPath);
    var partial: Table := map i | i in t :: if i in written then t'[i] else t[i];
    forall i, j | i in partial && j in partial && i != j
      ensures partial[i].path != partial[j].path
    {
      MovedNeverCollides(t, id, newParent, newPath, i, j);
      MovedNeverCollides(t, id, newParent, newPath, j, i);
    }
  }

  /** What a move changes: the node's parent link, the subtree's paths and versions, nothing else. */
  lemma MoveFrame(t: Table, id: Id, newParent: Option<Id>, expected: Option<nat>, i: Id)
    requires Forest(t) && Move(t, id, newParent, expected).Ok? && i in t
    ensures var t' := Move(t, id, newParent, expected).value;
            && t'.Keys == t.Keys
            && t'[i].parentId == (if i == id then newParent else t[i].parentId)
            && LeafOf(t'[i].path) == LeafOf(t[i].path)
            && (if i == id || Below(t, i, id) then t'[i].version == t[i].version + 1 else t'[i] == t[i])
  {
    var newPath := MoveOkContext(t, id, newParent, expected);
    MovedLeaf(t, id, newParent, newPath, i);
    PrefixIffBelow(t, i, id);
  }

  lemma MovedLeaf(t: Table, id: Id, newParent: Option<Id>, newPath: string, i: Id)
    requires MoveContext(t, id, newParent, newPath) && i in t
    ensures LeafOf(MovedTable(t, id, newParent, newPath)[i].path) == LeafOf(t[i].path)
  {
    NewPathSegments(t, id, newParent, newPath);
    if i != id && t[id].path + "." <= t[i].path {
      RebaseKeepsLeaf(t[i].path, t[id].path, newPath);
    }
  }

  lemma RebaseKeepsLeaf(path: string, oldPath: string, newPath: string)
    requires oldPath + "." <= path
    ensures LeafOf(Rebased(path, oldPath, newPath)) == LeafOf(path)
  {
    RebasedSegments(path, oldPath, newPath);
    LastOfTail(Split(newPath), Split(path), |Split(oldPath)|);
  }

  lemma LastOfTail<T>(x: seq<T>, y: seq<T>, n: nat)
    requires n < |y|
    ensures var z := x + y[n..]; z != [] && z[|z| - 1] == y[|y| - 1]
  {
  }

  // ----- Moving back ------------------------------------------------------------------------

  /** What a move returns when none of its checks fails. */
  lemma MoveIsMovedTable(t: Table, id: Id, newParent: Option<Id>, newPath: string)
    requires id in t && (newParent.Some? ==> newParent.value in t && !InSubtree(t[newParent.value].path, t[id].path))
    requires NewPath(t, id, newParent) == Ok(OrgPath(newPath)) && !TooDeepAfter(t, id, newPath)
    requires forall j :: j in t && j != id ==> t[j].path != newPath
    ensures Move(t, id, newParent, None) == Ok(MovedTable(t, id, newParent, newPath))
  {
  }

  /** Moving a node and then moving it back always succeeds and restores every path and link. */
  lemma MoveBackRestores(t: Table, id: Id, newParent: Option<Id>, expected: Option<nat>)
    requires Forest(t) && Move(t, id, newParent, expected).Ok?
    ensures var t1 := Move(t, id, newParent, expected).value;
            var back := Move(t1, id, t[id].parentId, None);
            && back.Ok? && back.value.Keys == t.Keys
            && forall i :: i in t ==> back.value[i].path == t[i].path && back.value[i].parentId == t[i].parentId
  {
    var newPath := MoveOkContext(t, id, newParent, expected);
    var t1 := MovedTable(t, id, newParent, newPath);
    var back := Move(t1, id, t[id].parentId, None);
    OldParentIsFree(t, id, newParent, newPath);
    OldPathIsRebuilt(t, id, newParent, newPath);
    forall j | j in t1 && j != id
      ensures t1[j].path != t[id].path
    {
      MovedAgainstOld(t, id, newParent, newPath, j, id);
    }
    forall i | i in t
      ensures UndoneAt(t, t1, id, newPath, i)
    {
      UndoneRow(t, id, newParent, newPath, i);
    }
    UndoneFits(t, t1, id, newPath);
    MoveIsMovedTable(t1, id, t[id].parentId, t[id].path);
    forall i | i in t
      ensures back.value[i].path == t[i].path && back.value[i].parentId == t[i].parentId
    {
      assert UndoneAt(t, t1, id, newPath, i);
    }
  }

  ghost predicate UndoneAt(t: Table, t1: Table, id: Id, newPath: string, i: Id)
    requires id in t && i in t && i in t1
  {
    && (newPath + "." <= t1[i].path ==> Rebased(t1[i].path, newPath, t[id].path) == t[i].path)
    && (!(newPath + "." <= t1[i].path) && i != id ==> t1[i].path == t[i].path)
    && IsPath(t[i].path)
    && (i != id ==> t1[i].parentId == t[i].parentId)
    && (i == id ==> t1[i].path == newPath)
  }

  lemma UndoneFits(t: Table, t1: Table, id: Id, newPath: string)
    requires id in t && t1.Keys == t.Keys && t1[id].path == newPath
    requires forall i :: i in t ==> UndoneAt(t, t1, id, newPath, i)
    ensures !TooDeepAfter(t1, id, t[id].path)
  {
  }

  /** The old parent is outside the moved subtree, before and after. */
  lemma OldParentIsFree(t: Table, id: Id, newParent: Option<Id>, newPath: string)
    requires MoveContext(t, id, newParent, newPath)
    ensures var t1 := MovedTable(t, id, newParent, newPath);
            t[id].parentId.Some? ==>
              && t[id].parentId.value in t
              && t1[t[id].parentId.value] == t[t[id].parentId.value]
              && !InSubtree(t[t[id].parentId.value].path, newPath)
  {
    assert Linked(t, id);
    if t[id].parentId.Some? {
      var p := t[id].parentId.value;
      ParentSegments(t, id);
      MovedSegments(t, id, newParent, newPath, p);
      IsAncestorOfIsSegmentPrefix(OrgPath(newPath), OrgPath(t[p].path));
      if InSubtree(t[p].path, newPath) {
        NewPathIsFresh(t, id, newParent, newPath, p);
        assert false;
      }
    }
  }

  lemma OldPathIsRebuilt(t: Table, id: Id, newParent: Option<Id>, newPath: string)
    requires MoveContext(t, id, newParent, newPath)
    requires t[id].parentId.Some? ==> t[id].parentId.value in t
    ensures var t1 := MovedTable(t, id, newParent, newPath);
            && (t[id].parentId.Some? ==> t1[t[id].parentId.value].path == t[t[id].parentId.value].path)
            && NewPath(t1, id, t[id].parentId) == Ok(OrgPath(t[id].path))
  {
    NewPathSegments(t, id, newParent, newPath);
    OldParentIsFree(t, id, newParent, newPath);
    assert Linked(t, id) && IsPath(t[id].path);
    if t[id].parentId.None? {
      var leaf := LeafOf(t[id].path);
      assert Segs(t, id) == [leaf];
      SplitDotFree(leaf);
      SplitInjective(leaf, t[id].path);
    }
  }

  lemma UndoneRow(t: Table, id: Id, newParent: Option<Id>, newPath: string, i: Id)
    requires MoveContext(t, id, newParent, newPath) && i in t
    ensures UndoneAt(t, MovedTable(t, id, newParent, newPath), id, newPath, i)
  {
    var t1 := MovedTable(t, id, newParent, newPath);
    assert IsPath(t[i].path);
    if t[id].path + "." <= t[i].path {
      assert t1[i].path[|newPath|..] == t[i].path[|t[id].path|..];
    } else if i != id && newPath + "." <= t1[i].path {
      StartsWithIffSegmentPrefix(newPath, t[i].path);
      NewPathIsFresh(t, id, newParent, newPath, i);
      assert false;
    }
  }

  // ----- When a move succeeds, said about the tree ------------------------------------------

  function ParentDepth(t: Table, parent: Option<Id>): nat
    requires parent.Some? ==> parent.value in t
  {
    if parent.Some? then |Segs(t, parent.value)| else 0
  }

  ghost predicate SiblingWithLeaf(t: Table, id: Id, parent: Option<Id>)
    requires id in t
  {
    exists j :: j in t && j != id && t[j].parentId == parent && LeafOf(t[j].path) == LeafOf(t[id].path)
  }

  ghost predicate SubtreeFits(t: Table, id: Id, parent: Option<Id>)
    requires id in t && (parent.Some? ==> parent.value in t)
  {
    forall x :: x in t && (x == id || Below(t, x, id)) ==>
      ParentDepth(t, parent) + 1 + |Segs(t, x)| - |Segs(t, id)| <= MAX_DEPTH
  }

  /** The node is there, at the version the caller expects, if it expects any. */
  predicate Current(t: Table, id: Id, expected: Option<nat>) {
    id in t && (expected.None? || expected.value == t[id].version)
  }

  predicate Present(t: Table, parent: Option<Id>) {
    parent.Some? ==> parent.value in t
  }

  ghost predicate MakesCycle(t: Table, id: Id, parent: Option<Id>) {
    parent.Some? && (parent.value == id || Below(t, parent.value, id))
  }

  /**
   A move succeeds exactly when the node and the new parent are present, the version is current or not
   asked for, no cycle comes about, no other child of the new parent has the same leaf, and the whole
   subtree still fits in eight levels.
   */
  lemma MoveSucceedsIff(t: Table, id: Id, newParent: Option<Id>, expected: Option<nat>)
    requires Forest(t)
    ensures Move(t, id, newParent, expected).Ok? <==>
              && Current(t, id, expected) && Present(t, newParent)
              && !MakesCycle(t, id, newParent)
              && !SiblingWithLeaf(t, id, newParent)
              && SubtreeFits(t, id, newParent)
  {
    if Current(t, id, expected) && Present(t, newParent) {
      if newParent.Some? {
        CycleGuardExact(t, id, newParent.value);
      }
      if !MakesCycle(t, id, newParent) {
        var newPath := CandidatePath(t, id, newParent);
        SiblingIffTaken(t, id, newParent, newPath);
        FitsIffNotTooDeep(t, id, newParent, newPath);
      }
    }
  }

  /** The string the move would store, valid or not. */
  lemma CandidatePath(t: Table, id: Id, newParent: Option<Id>) returns (p: string)
    requires Forest(t) && id in t && (newParent.Some? ==> newParent.value in t)
    ensures p == if newParent.Some? then t[newParent.value].path + "." + LeafOf(t[id].path) else LeafOf(t[id].path)
    ensures Split(p) == (if newParent.Some? then Segs(t, newParent.value) else []) + [LeafOf(t[id].path)]
    ensures IsPath(p) <==> ParentDepth(t, newParent) + 1 <= MAX_DEPTH
    ensures NewPath(t, id, newParent).Ok? <==> IsPath(p)
    ensures NewPath(t, id, newParent).Ok? ==> NewPath(t, id, newParent).value == OrgPath(p)
  {
    var leaf := LeafOf(t[id].path);
    assert IsPath(t[id].path);
    SplitDotFree(leaf);
    if newParent.Some? {
      assert IsPath(t[newParent.value].path);
      SplitConcat(t[newParent.value].path, leaf);
      p := t[newParent.value].path + "." + leaf;
    } else {
      p := leaf;
    }
  }

  lemma SiblingIffTaken(t: Table, id: Id, newParent: Option<Id>, newPath: string)
    requires Forest(t) && id in t && (newParent.Some? ==> newParent.value in t)
    requires newPath == if newParent.Some? then t[newParent.value].path + "." + LeafOf(t[id].path) else LeafOf(t[id].path)
    requires Split(newPath) == (if newParent.Some? then Segs(t, newParent.value) else []) + [LeafOf(t[id].path)]
    ensures forall j :: j in t && j != id ==>
              (t[j].path == newPath <==> t[j].parentId == newParent && LeafOf(t[j].path) == LeafOf(t[id].path))
    ensures SiblingWithLeaf(t, id, newParent) <==> exists j :: j in t && j != id && t[j].path == newPath
  {
    forall j | j in t && j != id
      ensures t[j].path == newPath <==> t[j].parentId == newParent && LeafOf(t[j].path) == LeafOf(t[id].path)
    {
      assert Linked(t, j);
      if t[j].parentId.Some? {
        var p := t[j].parentId.value;
        ParentSegments(t, j);
        if t[j].path == newPath {
          var n := |Segs(t, j)| - 1;
          assert Segs(t, j)[..n] == Segs(t, p);
          assert newParent.Some? && Split(newPath)[..n] == Segs(t, newParent.value);
          assert Segs(t, p) == Segs(t, newParent.value);
          SplitInjective(t[p].path, t[newParent.value].path);
        }
      } else if LeafOf(t[j].path) == LeafOf(t[id].path) && newParent.None? {
        assert Segs(t, j) == Split(newPath);
        SplitInjective(t[j].path, newPath);
      }
    }
  }

  lemma FitsIffNotTooDeep(t: Table, id: Id, newParent: Option<Id>, newPath: string)
    requires Forest(t) && id in t && (newParent.Some? ==> newParent.value in t)
    requires |Split(newPath)| == ParentDepth(t, newParent) + 1
    requires IsPath(newPath) <==> ParentDepth(t, newParent) + 1 <= MAX_DEPTH
    ensures SubtreeFits(t, id, newParent) <==> IsPath(newPath) && !TooDeepAfter(t, id, newPath)
  {
    var base := ParentDepth(t, newParent) + 1;
    if IsPath(newPath) {
      forall x | x in t && x != id
        ensures Below(t, x, id) <==> t[id].path + "." <= t[x].path
        ensures Below(t, x, id) ==>
                  (IsPath(Rebased(t[x].path, t[id].path, newPath)) <==> base + |Segs(t, x)| - |Segs(t, id)| <= MAX_DEPTH)
      {
        PrefixIffBelow(t, x, id);
        if t[id].path + "." <= t[x].path {
          assert IsPath(t[x].path);
          RebasedSegments(t[x].path, t[id].path, newPath);
          RebasedIsPathIff(t[x].path, t[id].path, newPath);
        }
      }
      assert !(t[id].path + "." <= t[id].path);
    }
  }

  lemma RebasedIsPathIff(path: string, oldPath: string, newPath: string)
    requires oldPath + "." <= path && IsPath(path) && IsPath(newPath)
    ensures IsPath(Rebased(path, oldPath, newPath)) <==>
              |Split(newPath)| + |Split(path)| - |Split(oldPath)| <= MAX_DEPTH
  {
    RebasedSegments(path, oldPath, newPath);
  }

  // ----- Runs -------------------------------------------------------------------------------

  datatype Command =
    | CreateUnit(newId: Id, parentId: Option<Id>, segment: string)
    | MoveUnit(id: Id, newParent: Option<Id>, expected: Option<nat>)

  function Execute(t: Table, c: Command): Result<Table, OrgError>
    requires c.CreateUnit? ==> c.newId !in t
  {
    match c
    case CreateUnit(newId, parentId, segment) => Create(t, newId, parentId, segment)
    case MoveUnit(id, newParent, expected) => Move(t, id, newParent, expected)
  }

  /** One committed or rolled-back transaction. */
  function Next(t: Table, c: Command): Table
    requires c.CreateUnit? ==> c.newId !in t
  {
    var r := Execute(t, c);
    if r.Ok? then r.value else t
  }

  /** Fresh ids, and the single-segment pattern of the create request. */
  predicate Admissible(t: Table, c: Command) {
    c.CreateUnit? ==> c.newId !in t && DotFree(c.segment)
  }

  ghost predicate IsRun(tables: seq<Table>, commands: seq<Command>) {
    && |tables| == |commands| + 1
    && tables[0] == map[]
    && forall k :: 0 <= k < |commands| ==>
         Admissible(tables[k], commands[k]) && tables[k + 1] == Next(tables[k], commands[k])
  }

  /** In every table of every run the path index and the tree agree and no node is deeper than eight. */
  lemma {:induction false} EveryReachableTableIsForest(tables: seq<Table>, commands: seq<Command>, k: nat)
    requires IsRun(tables, commands) && k < |tables|
    ensures Forest(tables[k])
    ensures forall x :: !Below(tables[k], x, x)
    ensures forall x :: x in tables[k] ==> |Segs(tables[k], x)| <= MAX_DEPTH
  {
    if k > 0 {
      EveryReachableTableIsForest(tables, commands, k - 1);
      var t, c := tables[k - 1], commands[k - 1];
      assert Admissible(t, c) && tables[k - 1 + 1] == Next(t, c);
      if Execute(t, c).Ok? {
        match c
        case CreateUnit(newId, parentId, segment) =>
          CreateKeepsForestIffSingleSegment(t, newId, parentId, segment);
        case MoveUnit(id, newParent, expected) =>
          MoveKeepsForest(t, id, newParent, expected);
      }
    }
    forall x
      ensures !Below(tables[k], x, x)
    {
      ForestAcyclic(tables[k], x);
    }
  }
}
