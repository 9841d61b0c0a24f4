/** The stored `categories` table and the operations that walk or change it in place:
    the model methods of `Category`, the write validation of its serializer and the
    `destroy` cascade of its view set. */
module CategoryStore {
  import opened Common
  import opened SoftDelete
  import opened CategoryTree

  class CategoryTable {
    /** Every stored row, deleted or not, by id (what `all_objects` sees). */
    var rows: Rows
    /** The order in which queries over the table return rows. */
    var listing: seq<CategoryId>

    ghost predicate Valid()
      reads this
    {
      WellFormed(rows, listing)
    }

    constructor ()
      ensures Valid() && rows == map[] && listing == []
    {
      rows := map[];
      listing := [];
    }

    /** `get_ancestors`: follows parent links (deleted rows included) up to a root. */
    method GetAncestors(x: CategoryId) returns (ancestors: seq<CategoryId>)
      requires Valid() && x in rows
      ensures ancestors == Ancestors(rows, x)
    {
      ancestors := [];
      var current := rows[x].parent;
      if current.Some? {
        AncestorsStep(rows, x);
      }
      while current.Some?
        invariant current.Some? ==> current.value in rows
        invariant current.Some? ==> ancestors + [current.value] + Ancestors(rows, current.value) == Ancestors(rows, x)
        invariant current.None? ==> ancestors == Ancestors(rows, x)
        decreases |Ancestors(rows, x)| - |ancestors|
      {
        var c := current.value;
        ancestors := ancestors + [c];
        current := rows[c].parent;
        if current.Some? {
          AncestorsStep(rows, c);
        }
      }
    }

    /** `depth`: the number of ancestors; a root has depth 0 and a child is one deeper
        than its parent. */
    method Depth(x: CategoryId) returns (depth: nat)
      requires Valid() && x in rows
      ensures depth == |Ancestors(rows, x)|
      ensures depth == 0 <==> rows[x].parent.None?
      ensures rows[x].parent.Some? ==>
                rows[x].parent.value in rows && depth == DepthOf(rows, rows[x].parent.value) + 1
      ensures depth < |rows|
    {
      var ancestors := GetAncestors(x);
      depth := |ancestors|;
      AncestorsAreParentChain(rows, x);
      DepthBelowSize(rows, x);
      if rows[x].parent.Some? {
        AncestorsStep(rows, x);
      }
    }

    /** `get_all_children`: each live child, then at once everything below it. */
    method GetAllChildren(x: CategoryId) returns (children: seq<CategoryId>)
      requires Valid() && x in rows
      ensures children == Descendants(rows, listing, x)
      decreases |rows| - DepthOf(rows, x)
    {
      var cs := LiveChildren(rows, listing, x);
      assert forall c :: c in cs ==> c in rows && rows[c].parent == Some(x);
      children := [];
      for i := 0 to |cs|
        invariant children == DescendantsOfEach(rows, listing, x, cs[..i])
      {
        DescendantsOfEachStep(rows, listing, x, i);
        var below := GetAllChildren(cs[i]);
        children := children + [cs[i]] + below;
      }
      assert cs[..|cs|] == cs;
    }

    /** The loop of `validate`: walk from the proposed parent, itself included, up its
        chain looking for the instance. */
    method WalksIntoInstance(instance: CategoryId, parent: CategoryId) returns (circular: bool)
      requires Valid() && parent in rows
      ensures circular <==> InSubtree(rows, instance, parent)
    {
      var current := Some(parent);
      while current.Some?
        invariant current.Some? ==> current.value in rows
        invariant InSubtree(rows, instance, parent) <==>
                    current.Some? && InSubtree(rows, instance, current.value)
        decreases if current.Some? then DepthOf(rows, current.value) + 1 else 0
      {
        var c := current.value;
        if c == instance {
          return true;
        }
        current := rows[c].parent;
        if current.Some? {
          AncestorsStep(rows, c);
        }
      }
      return false;
    }

    /** Field validation, then `validate` (on updates with a parent). */
    method ValidateWrite(instance: Option<CategoryId>, name: string, parent: Option<CategoryId>, active: int)
      returns (errors: set<WriteError>)
      requires Valid() && (instance.Some? ==> instance.value in rows)
      ensures errors == WriteCheck(rows, instance, name, parent, active)
    {
      errors := FieldErrors(rows, name, parent, active);
      if errors == {} && instance.Some? && parent.Some? {
        var circular := WalksIntoInstance(instance.value, parent.value);
        if circular {
          errors := {CircularReference};
        }
      }
    }

    /** `create` with a fresh id: the validated row is stored live, or nothing changes. */
    method Create(id: CategoryId, name: string, parent: Option<CategoryId>, active: int)
      returns (errors: set<WriteError>)
      requires Valid() && id !in rows
      modifies this
      ensures Valid()
      ensures errors == WriteCheck(old(rows), None, name, parent, active)
      ensures errors != {} ==> rows == old(rows) && listing == old(listing)
      ensures errors == {} ==>
                rows == old(rows)[id := Category(name, parent, active, NOT_DELETED)] &&
                listing == old(listing) + [id]
    {
      errors := ValidateWrite(None, name, parent, active);
      if errors == {} {
        WriteCheckMatchesAcyclicity(rows, None, name, parent, active);
        var cat := Category(name, parent, active, NOT_DELETED);
        AddKeepsAcyclic(rows, id, cat);
        DistinctConcat(listing, [id]);
        rows := rows[id := cat];
        listing := listing + [id];
      }
    }

    /** `update` (all fields given): a deleted or missing row is not found; otherwise the
        validated fields replace the stored ones, or nothing changes. */
    method Update(x: CategoryId, name: string, parent: Option<CategoryId>, active: int)
      returns (found: bool, errors: set<WriteError>)
      requires Valid()
      modifies this
      ensures Valid() && listing == old(listing)
      ensures found <==> x in old(rows) && IsLive(old(rows)[x].deleteStatus)
      ensures !found ==> errors == {} && rows == old(rows)
      ensures found ==> errors == WriteCheck(old(rows), Some(x), name, parent, active)
      ensures found && errors != {} ==> rows == old(rows)
      ensures found && errors == {} ==>
                rows == old(rows)[x := Category(name, parent, active, old(rows)[x].deleteStatus)]
    {
      if x !in rows || !IsLive(rows[x].deleteStatus) {
        return false, {};
      }
      found := true;
      errors := ValidateWrite(Some(x), name, parent, active);
      if errors == {} {
        WriteCheckMatchesAcyclicity(rows, Some(x), name, parent, active);
        var updated := rows[x := Category(name, parent, active, rows[x].deleteStatus)];
        SameLinksKeepChains(WithParent(rows, x, parent), updated);
        rows := updated;
      }
    }

    /** `delete` / `soft_delete`: only the flag of `x` changes; the row stays stored. */
    method SoftDelete(x: CategoryId)
      requires Valid() && x in rows
      modifies this
      ensures Valid() && listing == old(listing)
      ensures rows == WithDeleteStatus(old(rows), x, DELETED)
    {
      FlagChangeKeepsTree(rows, listing, x, DELETED);
      rows := WithDeleteStatus(rows, x, DELETED);
    }

    /** `restore`: only the flag of `x` changes; deleted children stay deleted. */
    method Restore(x: CategoryId)
      requires Valid() && x in rows
      modifies this
      ensures Valid() && listing == old(listing)
      ensures rows == WithDeleteStatus(old(rows), x, NOT_DELETED)
    {
      FlagChangeKeepsTree(rows, listing, x, NOT_DELETED);
      rows := WithDeleteStatus(rows, x, NOT_DELETED);
    }

    /** `_soft_delete_recursive`: mark `x`, then recurse into each child that is live
        once `x` is marked. Exactly the rows the cascade from `x` reaches are marked. */
    method SoftDeleteRecursive(x: CategoryId)
      requires Valid() && x in rows
      modifies this
      ensures Valid() && listing == old(listing) && SameLinks(old(rows), rows)
      ensures forall y :: y in rows ==> rows[y] == Mark(old(rows)[y], Cascades(old(rows), x, y))
      decreases |rows| - DepthOf(rows, x)
    {
      ghost var start := rows;
      SoftDelete(x);
      var cs := LiveChildren(rows, listing, x);
      ChildrenAfterMark(start, listing, x);
      MarkedTop(start, x);
      for i := 0 to |cs|
        invariant Valid() && listing == old(listing) && SameLinks(start, rows)
        invariant MarkedFrom(start, rows, x, cs[..i])
      {
        ghost var before := rows;
        ChildVisitReady(start, before, listing, x, cs, i);
        SoftDeleteRecursive(cs[i]);
        CascadeStepCombines(start, before, rows, listing, x, cs, i);
      }
      assert cs[..|cs|] == cs;
      CascadeComplete(start, rows, x, cs);
    }

    /** `destroy`: a missing or already deleted id is not found and nothing changes.
        Otherwise the target is marked, and the recursive soft delete runs on each of its
        live, active children (the prefetched `children` of the target); so exactly the
        rows `DestroyReaches` names are marked, and a second destroy finds nothing. */
    method Destroy(x: CategoryId) returns (found: bool)
      requires Valid()
      modifies this
      ensures Valid() && listing == old(listing) && SameLinks(old(rows), rows)
      ensures found <==> x in old(rows) && IsLive(old(rows)[x].deleteStatus)
      ensures !found ==> rows == old(rows)
      ensures found ==> forall y :: y in rows ==> rows[y] == Mark(old(rows)[y], DestroyReaches(old(rows), x, y))
      ensures x in rows ==> !IsLive(rows[x].deleteStatus)
    {
      if x !in rows || !IsLive(rows[x].deleteStatus) {
        return false;
      }
      ghost var start := rows;
      SoftDelete(x);
      var cs := VisibleChildren(rows, listing, x);
      VisibleChildrenAfterMark(start, listing, x);
      MarkedTop(start, x);
      for i := 0 to |cs|
        invariant Valid() && listing == old(listing) && SameLinks(start, rows)
        invariant MarkedFrom(start, rows, x, cs[..i])
      {
        ghost var before := rows;
        ChildVisitReady(start, before, listing, x, cs, i);
        SoftDeleteRecursive(cs[i]);
        CascadeStepCombines(start, before, rows, listing, x, cs, i);
      }
      assert cs[..|cs|] == cs;
      DestroyComplete(start, rows, x, cs);
      return true;
    }

    /** `retrieve`: a live category with its nested live, active children; a deleted or
        missing id is not found. */
    function Retrieve(x: CategoryId): (v: Option<CategoryView>)
      reads this
      requires Valid()
      ensures v.Some? <==> x in rows && IsLive(rows[x].deleteStatus)
      ensures v.Some? ==> v.value.id == x && FaithfulView(rows, listing, v.value)
    {
      if x in rows && IsLive(rows[x].deleteStatus) then
        RenderFaithful(rows, listing, x);
        Some(Render(rows, listing, x))
      else None
    }
  }
}
