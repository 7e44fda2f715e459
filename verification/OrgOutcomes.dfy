/**
 When org-unit create and move succeed, what they store, and which error comes otherwise: all in
 terms of the table and the tree.
 */
module OrgOutcomes {
  import opened Wrappers
  import opened DottedPaths
  import opened OrgPaths
  import opened OrgForest

  // ----- Move -------------------------------------------------------------------------------

  /** Everything that is checked before the new path: presence, version, cycle. */
  ghost predicate Placeable(t: Table, id: Id, parent: Option<Id>, expected: Option<nat>) {
    Current(t, id, expected) && Present(t, parent) && !MakesCycle(t, id, parent)
  }

  /** A stale version is refused before anything else about a present node is looked at. */
  lemma StaleMoveFailsIff(t: Table, id: Id, newParent: Option<Id>, expected: Option<nat>)
    ensures Move(t, id, newParent, expected) == Err(VersionMismatch)
            <==> id in t && expected.Some? && expected.value != t[id].version
  {
  }

  /** The errors before anything is computed, each in exactly these cases. */
  lemma MoveRefusedIff(t: Table, id: Id, newParent: Option<Id>, expected: Option<nat>)
    requires Forest(t)
    ensures forall i :: Move(t, id, newParent, expected) == Err(NotFound(i)) <==>
              if id in t then Current(t, id, expected) && newParent == Some(i) && i !in t else i == id
    ensures Move(t, id, newParent, expected) == Err(CycleRejected) <==>
              Current(t, id, expected) && Present(t, newParent) && MakesCycle(t, id, newParent)
    ensures CheckMove(t, id, newParent, expected).None? <==> Placeable(t, id, newParent, expected)
  {
    if Current(t, id, expected) && Present(t, newParent) && newParent.Some? {
      CycleGuardExact(t, id, newParent.value);
    }
  }

  /** The row of another unit that the moved one would share its path with. */
  ghost predicate Sibling(t: Table, id: Id, parent: Option<Id>, j: Id)
    requires id in t
  {
    j in t && j != id && t[j].parentId == parent && LeafOf(t[j].path) == LeafOf(t[id].path)
  }

  /** And those after it: a sibling of the same name, or too deep a tree, at the node or only below it. */
  lemma MovePathFailsIff(t: Table, id: Id, newParent: Option<Id>, expected: Option<nat>)
    requires Forest(t)
    ensures forall p :: Move(t, id, newParent, expected) == Err(PathTaken(p)) <==>
              && Placeable(t, id, newParent, expected) && ParentDepth(t, newParent) + 1 <= MAX_DEPTH
              && exists j :: Sibling(t, id, newParent, j) && t[j].path == p
    ensures forall e :: Move(t, id, newParent, expected) == Err(InvalidPath(e)) <==>
              && e == PathTooDeep && Placeable(t, id, newParent, expected)
              && (ParentDepth(t, newParent) + 1 > MAX_DEPTH
                  || (!SiblingWithLeaf(t, id, newParent) && !SubtreeFits(t, id, newParent)))
  {
    MoveRefusedIff(t, id, newParent, expected);
    if Placeable(t, id, newParent, expected) {
      var newPath := CandidatePath(t, id, newParent);
      if NewPath(t, id, newParent).Err? {
        NewPathFailsByDepth(t, id, newParent);
      }
      SiblingIffTaken(t, id, newParent, newPath);
      FitsIffNotTooDeep(t, id, newParent, newPath);
      forall j
        ensures Sibling(t, id, newParent, j) <==> j in t && j != id && t[j].path == newPath
      {
      }
    }
  }

  ghost predicate KebabSegments(s: string) {
    forall k :: 0 <= k < |Split(s)| ==> IsSegment(Split(s)[k])
  }

  lemma KebabConcat(a: string, b: string)
    requires KebabSegments(a)
    ensures |Split(a + "." + b)| == |Split(a)| + |Split(b)|
    ensures KebabSegments(a + "." + b) <==> KebabSegments(b)
    ensures !Blank(a + "." + b)
  {
    SplitConcat(a, b);
    forall k | 0 <= k < |Split(b)|
      ensures Split(b)[k] == Split(a + "." + b)[|Split(a)| + k]
    {
    }
    assert (a + "." + b)[|a|] == '.';
  }

  /** The moved unit's own path, made of valid segments, can only fail by its depth. */
  lemma NewPathFailsByDepth(t: Table, id: Id, newParent: Option<Id>)
    requires Forest(t) && id in t && Present(t, newParent) && NewPath(t, id, newParent).Err?
    ensures NewPath(t, id, newParent).error == PathTooDeep
  {
    assert IsPath(t[id].path);
    LeafIsKebab(t[id].path);
    if newParent.Some? {
      assert IsPath(t[newParent.value].path);
      KebabConcat(t[newParent.value].path, LeafOf(t[id].path));
    }
  }

  lemma LeafIsKebab(path: string)
    requires IsPath(path)
    ensures KebabSegments(LeafOf(path)) && Split(LeafOf(path)) == [LeafOf(path)] && IsPath(LeafOf(path))
  {
    SplitDotFree(LeafOf(path));
  }

  // ----- Create -----------------------------------------------------------------------------

  /** The path of the new unit: its parent's, a dot and the segment, or for a root the segment alone. */
  function CreatedPath(t: Table, parentId: Option<Id>, segment: string): string
    requires Present(t, parentId)
  {
    if parentId.Some? then t[parentId.value].path + "." + segment else segment
  }

  ghost predicate Taken(t: Table, path: string) {
    exists j :: j in t && t[j].path == path
  }

  /** A successful create adds the one row, at version 1 under that parent. */
  lemma CreateFrame(t: Table, newId: Id, parentId: Option<Id>, segment: string)
    requires newId !in t && Create(t, newId, parentId, segment).Ok?
    ensures var t' := Create(t, newId, parentId, segment).value;
            && t'.Keys == t.Keys + {newId} && (forall i :: i in t ==> t'[i] == t[i])
            && Present(t, parentId) && t'[newId].parentId == parentId && t'[newId].version == 1
            && t'[newId].path == CreatedPath(t, parentId, segment)
  {
  }

  lemma CreatedPathIsPathIff(t: Table, parentId: Option<Id>, segment: string)
    requires Forest(t) && Present(t, parentId)
    ensures |Split(CreatedPath(t, parentId, segment))| == ParentDepth(t, parentId) + |Split(segment)|
    ensures KebabSegments(CreatedPath(t, parentId, segment)) <==> KebabSegments(segment)
    ensures Blank(CreatedPath(t, parentId, segment)) <==> parentId.None? && Blank(segment)
  {
    if parentId.Some? {
      assert IsPath(t[parentId.value].path);
      KebabConcat(t[parentId.value].path, segment);
    }
  }

  /** Each error of a create comes in exactly these cases, of which no two meet; in all others it succeeds. */
  lemma CreateFailsIff(t: Table, newId: Id, parentId: Option<Id>, segment: string)
    requires Forest(t) && newId !in t
    ensures var c, depth := Create(t, newId, parentId, segment), |Split(segment)|;
            && (c.Ok? <==>
                  && Present(t, parentId) && KebabSegments(segment) && ParentDepth(t, parentId) + depth <= MAX_DEPTH
                  && !Taken(t, CreatedPath(t, parentId, segment)))
            && (forall i :: c == Err(NotFound(i)) <==> parentId == Some(i) && i !in t)
            && (c == Err(InvalidPath(PathEmpty)) <==> parentId.None? && Blank(segment))
            && (c == Err(InvalidPath(PathTooDeep)) <==>
                  Present(t, parentId) && !(parentId.None? && Blank(segment)) && ParentDepth(t, parentId) + depth > MAX_DEPTH)
            && (c == Err(InvalidPath(SegmentInvalid)) <==>
                  && Present(t, parentId) && !(parentId.None? && Blank(segment)) && ParentDepth(t, parentId) + depth <= MAX_DEPTH
                  && !KebabSegments(segment))
            && (forall p :: c == Err(PathTaken(p)) <==>
                  && Present(t, parentId) && KebabSegments(segment) && ParentDepth(t, parentId) + depth <= MAX_DEPTH
                  && p == CreatedPath(t, parentId, segment) && Taken(t, p))
  {
    if Present(t, parentId) {
      CreatedPathIsPathIff(t, parentId, segment);
      if Blank(CreatedPath(t, parentId, segment)) {
        BlankIsNoPath(segment);
        SplitDotFree(segment);
      }
    }
  }

  /** For a single segment the path is taken exactly when the parent has a child of that name already. */
  lemma TakenIffSibling(t: Table, parentId: Option<Id>, segment: string)
    requires Forest(t) && Present(t, parentId) && DotFree(segment)
    ensures Taken(t, CreatedPath(t, parentId, segment))
            <==> exists j :: j in t && t[j].parentId == parentId && LeafOf(t[j].path) == segment
  {
    SplitDotFree(segment);
    if parentId.Some? {
      SplitConcat(t[parentId.value].path, segment);
    }
    forall j | j in t
      ensures t[j].path == CreatedPath(t, parentId, segment) <==> t[j].parentId == parentId && LeafOf(t[j].path) == segment
    {
      ChildIffPath(t, parentId, segment, j);
    }
  }

  lemma ChildIffPath(t: Table, parentId: Option<Id>, segment: string, j: Id)
    requires Forest(t) && Present(t, parentId) && DotFree(segment) && j in t
    requires Split(CreatedPath(t, parentId, segment)) == (if parentId.Some? then Segs(t, parentId.value) else []) + [segment]
    ensures t[j].path == CreatedPath(t, parentId, segment) <==> t[j].parentId == parentId && LeafOf(t[j].path) == segment
  {
    assert Linked(t, j);
    if t[j].parentId.Some? {
      var p := t[j].parentId.value;
      ParentSegments(t, j);
      if t[j].path == CreatedPath(t, parentId, segment) {
        var n := |Segs(t, j)| - 1;
        assert Segs(t, j)[..n] == Segs(t, p);
        assert parentId.Some? && Segs(t, p) == Segs(t, parentId.value);
        SplitInjective(t[p].path, t[parentId.value].path);
      }
    } else if LeafOf(t[j].path) == segment && parentId.None? {
      assert Segs(t, j) == [segment];
      SplitInjective(t[j].path, segment);
    }
  }
}
