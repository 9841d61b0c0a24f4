/** The category hierarchy as values: a table of rows keyed by id, each with an optional
    parent link. Ancestor chains, acyclicity, the subtree relation, the cascade that
    `destroy` performs, the pre-order listing of `get_all_children` and the nested
    rendering of the category serializer are defined and proved here; the class in
    category_store.dfy runs the loops and the updates against these definitions. */
module CategoryTree {
  import opened Common
  import opened SoftDelete

  type CategoryId = nat

  const ACTIVE: int := 1
  const INACTIVE: int := 0

  datatype Category = Category(name: string, parent: Option<CategoryId>, active: int, deleteStatus: int)

  type Rows = map<CategoryId, Category>

  // ---------------------------------------------------------------------------------
  // Parent chains

  /** Walking parent links from `x` reaches a row without a parent in at most `n` steps,
      and every row on the way is stored. */
  predicate ReachesRoot(rows: Rows, x: CategoryId, n: nat)
    decreases n
  {
    x in rows &&
    match rows[x].parent
    case None => true
    case Some(p) => n > 0 && ReachesRoot(rows, p, n - 1)
  }

  /** The parent chain of `x`, immediate parent first, root last. */
  function AncestorsWithin(rows: Rows, x: CategoryId, n: nat): (r: seq<CategoryId>)
    requires ReachesRoot(rows, x, n)
    ensures |r| <= n
    ensures forall a :: a in r ==> a in rows
    decreases n
  {
    match rows[x].parent
    case None => []
    case Some(p) => [p] + AncestorsWithin(rows, p, n - 1)
  }

  /** No parent chain loops: every row reaches a root within as many steps as there are rows. */
  predicate Acyclic(rows: Rows) {
    forall x :: x in rows ==> ReachesRoot(rows, x, |rows|)
  }

  /** `get_ancestors`: immediate parent first, root last. */
  function Ancestors(rows: Rows, x: CategoryId): seq<CategoryId>
    requires Acyclic(rows) && x in rows
  {
    AncestorsWithin(rows, x, |rows|)
  }

  /** The `depth` property: the number of ancestors. */
  function DepthOf(rows: Rows, x: CategoryId): nat
    requires Acyclic(rows) && x in rows
  {
    |Ancestors(rows, x)|
  }

  lemma {:induction false} ReachesMonotone(rows: Rows, x: CategoryId, n: nat, m: nat)
    requires ReachesRoot(rows, x, n) && n <= m
    ensures ReachesRoot(rows, x, m)
    ensures AncestorsWithin(rows, x, m) == AncestorsWithin(rows, x, n)
    decreases n
  {
    match rows[x].parent
    case None =>
    case Some(p) => ReachesMonotone(rows, p, n - 1, m - 1);
  }

  lemma FuelIndependent(rows: Rows, x: CategoryId, n: nat, m: nat)
    requires ReachesRoot(rows, x, n) && ReachesRoot(rows, x, m)
    ensures AncestorsWithin(rows, x, n) == AncestorsWithin(rows, x, m)
  {
    if n <= m {
      ReachesMonotone(rows, x, n, m);
    } else {
      ReachesMonotone(rows, x, m, n);
    }
  }

  /** Every suffix of a parent chain is the parent chain of the row that starts it. */
  lemma {:induction false} ChainSuffix(rows: Rows, x: CategoryId, n: nat, i: nat)
    requires ReachesRoot(rows, x, n) && i < |AncestorsWithin(rows, x, n)|
    ensures i < n
    ensures ReachesRoot(rows, AncestorsWithin(rows, x, n)[i], n - i - 1)
    ensures AncestorsWithin(rows, AncestorsWithin(rows, x, n)[i], n - i - 1)
         == AncestorsWithin(rows, x, n)[i + 1..]
    decreases n
  {
    var p := rows[x].parent.value;
    if i > 0 {
      ChainSuffix(rows, p, n - 1, i - 1);
    }
  }

  /** A row never appears in its own parent chain. */
  lemma NotInOwnChain(rows: Rows, x: CategoryId, n: nat)
    requires ReachesRoot(rows, x, n)
    ensures x !in AncestorsWithin(rows, x, n)
  {
    var a := AncestorsWithin(rows, x, n);
    if x in a {
      var i :| 0 <= i < |a| && a[i] == x;
      ChainSuffix(rows, x, n, i);
      FuelIndependent(rows, x, n, n - i - 1);
      assert false;
    }
  }

  /** A parent chain never revisits a row. */
  lemma {:induction false} ChainDistinct(rows: Rows, x: CategoryId, n: nat)
    requires ReachesRoot(rows, x, n)
    ensures Distinct(AncestorsWithin(rows, x, n))
    decreases n
  {
    match rows[x].parent
    case None =>
    case Some(p) =>
      ChainDistinct(rows, p, n - 1);
      NotInOwnChain(rows, p, n - 1);
  }

  /** Pigeonhole: a chain that reaches a root is shorter than the table. */
  lemma ChainShorterThanTable(rows: Rows, x: CategoryId, n: nat)
    requires ReachesRoot(rows, x, n)
    ensures |AncestorsWithin(rows, x, n)| < |rows|
  {
    var a := AncestorsWithin(rows, x, n);
    ChainDistinct(rows, x, n);
    NotInOwnChain(rows, x, n);
    DistinctCardinality(a);
    var onChain := set z | z in a;
    assert onChain + {x} <= rows.Keys;
    SubsetCardinality(onChain + {x}, rows.Keys);
  }

  lemma {:induction false} TightFuel(rows: Rows, x: CategoryId, n: nat)
    requires ReachesRoot(rows, x, n)
    ensures ReachesRoot(rows, x, |AncestorsWithin(rows, x, n)|)
    ensures AncestorsWithin(rows, x, |AncestorsWithin(rows, x, n)|) == AncestorsWithin(rows, x, n)
    decreases n
  {
    match rows[x].parent
    case None =>
    case Some(p) => TightFuel(rows, p, n - 1);
  }

  /** Any finite walk to a root fits within the table's size, so it satisfies `Acyclic`'s bound. */
  lemma ReachesWithinTable(rows: Rows, x: CategoryId, n: nat)
    requires ReachesRoot(rows, x, n)
    ensures ReachesRoot(rows, x, |rows|)
    ensures AncestorsWithin(rows, x, |rows|) == AncestorsWithin(rows, x, n)
  {
    TightFuel(rows, x, n);
    ChainShorterThanTable(rows, x, n);
    ReachesMonotone(rows, x, |AncestorsWithin(rows, x, n)|, |rows|);
  }

  /** One step up: the chain of `x` is its parent followed by the parent's chain. */
  lemma AncestorsStep(rows: Rows, x: CategoryId)
    requires Acyclic(rows) && x in rows && rows[x].parent.Some?
    ensures rows[x].parent.value in rows
    ensures Ancestors(rows, x) == [rows[x].parent.value] + Ancestors(rows, rows[x].parent.value)
    ensures DepthOf(rows, x) == DepthOf(rows, rows[x].parent.value) + 1
  {
    var p := rows[x].parent.value;
    ReachesMonotone(rows, p, |rows| - 1, |rows|);
  }

  /** `get_ancestors` never revisits a category, and a category is not its own ancestor. */
  lemma AncestorsDistinct(rows: Rows, x: CategoryId)
    requires Acyclic(rows) && x in rows
    ensures Distinct(Ancestors(rows, x)) && x !in Ancestors(rows, x)
  {
    ChainDistinct(rows, x, |rows|);
    NotInOwnChain(rows, x, |rows|);
  }

  lemma DepthBelowSize(rows: Rows, x: CategoryId)
    requires Acyclic(rows) && x in rows
    ensures DepthOf(rows, x) < |rows|
  {
    ChainShorterThanTable(rows, x, |rows|);
  }

  // ---------------------------------------------------------------------------------
  // Which rows a chain depends on

  /** `r1` and `r2` store the rows of `zs` with the same parent links. */
  predicate LinksAgreeOn(r1: Rows, r2: Rows, zs: seq<CategoryId>) {
    forall z :: z in zs ==> z in r1 && z in r2 && r2[z].parent == r1[z].parent
  }

  /** A chain only depends on the links of the rows on it. */
  lemma {:induction false} ChainTransfer(r1: Rows, r2: Rows, x: CategoryId, n: nat)
    requires ReachesRoot(r1, x, n)
    requires LinksAgreeOn(r1, r2, [x] + AncestorsWithin(r1, x, n))
    ensures ReachesRoot(r2, x, n)
    ensures AncestorsWithin(r2, x, n) == AncestorsWithin(r1, x, n)
    decreases n
  {
    assert x in [x] + AncestorsWithin(r1, x, n);
    match r1[x].parent
    case None =>
    case Some(p) =>
      assert AncestorsWithin(r1, x, n) == [p] + AncestorsWithin(r1, p, n - 1);
      ChainTransfer(r1, r2, p, n - 1);
  }

  /** Two tables with the same keys and the same parent links. */
  predicate SameLinks(r1: Rows, r2: Rows) {
    r1.Keys == r2.Keys && forall z :: z in r1 ==> r1[z].parent == r2[z].parent
  }

  /** Changing anything but parent links keeps the tree and every chain. */
  lemma SameLinksKeepChains(r1: Rows, r2: Rows)
    requires SameLinks(r1, r2) && Acyclic(r1)
    ensures Acyclic(r2)
    ensures forall y :: y in r1 ==> Ancestors(r2, y) == Ancestors(r1, y)
  {
    assert |r1| == |r1.Keys| == |r2.Keys| == |r2|;
    forall y | y in r1
      ensures ReachesRoot(r2, y, |r2|) && AncestorsWithin(r2, y, |r2|) == Ancestors(r1, y)
    {
      ChainTransfer(r1, r2, y, |r1|);
    }
  }

  // ---------------------------------------------------------------------------------
  // Reassigning a parent and adding a row

  function WithParent(rows: Rows, c: CategoryId, parent: Option<CategoryId>): Rows
    requires c in rows
  {
    rows[c := rows[c].(parent := parent)]
  }

  /** The rows from which walking up reaches `c` itself: `c` and its descendants. */
  predicate InSubtree(rows: Rows, c: CategoryId, y: CategoryId)
    requires Acyclic(rows) && y in rows
  {
    y == c || c in Ancestors(rows, y)
  }

  /** The proposed parent is acceptable for `c`: none, or a stored row whose chain,
      itself included, does not contain `c`. */
  predicate NoCycleThrough(rows: Rows, c: CategoryId, parent: Option<CategoryId>)
    requires Acyclic(rows)
  {
    parent.Some? ==> parent.value in rows && !InSubtree(rows, c, parent.value)
  }

  lemma {:induction false} ReparentReaches(rows: Rows, c: CategoryId, parent: Option<CategoryId>, y: CategoryId, n: nat)
    requires Acyclic(rows) && c in rows && NoCycleThrough(rows, c, parent)
    requires ReachesRoot(rows, y, n)
    ensures ReachesRoot(WithParent(rows, c, parent), y, n + |rows| + 1)
    decreases n
  {
    var r2 := WithParent(rows, c, parent);
    if y == c {
      if parent.Some? {
        var p := parent.value;
        AncestorsDistinct(rows, p);
        ChainTransfer(rows, r2, p, |rows|);
        ReachesMonotone(r2, p, |rows|, n + |rows|);
      }
    } else {
      match rows[y].parent
      case None =>
      case Some(p) => ReparentReaches(rows, c, parent, p, n - 1);
    }
  }

  /** The cycle check of the update serializer is sound: a parent accepted by it keeps
      every chain finite. */
  lemma ReparentKeepsAcyclic(rows: Rows, c: CategoryId, parent: Option<CategoryId>)
    requires Acyclic(rows) && c in rows && NoCycleThrough(rows, c, parent)
    ensures Acyclic(WithParent(rows, c, parent))
  {
    var r2 := WithParent(rows, c, parent);
    assert |r2| == |rows| by {
      assert r2.Keys == rows.Keys;
    }
    forall y | y in r2
      ensures ReachesRoot(r2, y, |r2|)
    {
      ReparentReaches(rows, c, parent, y, |rows|);
      ReachesWithinTable(r2, y, |rows| + |rows| + 1);
    }
  }

  lemma {:induction false} ChainStillReaches(rows: Rows, c: CategoryId, parent: Option<CategoryId>, y: CategoryId)
    requires Acyclic(rows) && c in rows && y in rows
    requires Acyclic(WithParent(rows, c, parent))
    requires InSubtree(rows, c, y)
    ensures InSubtree(WithParent(rows, c, parent), c, y)
    decreases DepthOf(rows, y)
  {
    var r2 := WithParent(rows, c, parent);
    if y != c {
      AncestorsStep(rows, y);
      var p := rows[y].parent.value;
      ChainStillReaches(rows, c, parent, p);
      AncestorsStep(r2, y);
    }
  }

  /** The cycle check is also complete: a parent rejected by it would close a loop. */
  lemma ReparentIntoSubtreeLoops(rows: Rows, c: CategoryId, p: CategoryId)
    requires Acyclic(rows) && c in rows && p in rows && InSubtree(rows, c, p)
    ensures !Acyclic(WithParent(rows, c, Some(p)))
  {
    var r2 := WithParent(rows, c, Some(p));
    if Acyclic(r2) {
      ChainStillReaches(rows, c, Some(p), p);
      AncestorsStep(r2, c);
      AncestorsDistinct(r2, c);
      assert false;
    }
  }

  /** Adding a row whose parent is stored keeps the tree acyclic and leaves every
      existing chain as it was. */
  lemma AddKeepsAcyclic(rows: Rows, id: CategoryId, cat: Category)
    requires Acyclic(rows) && id !in rows
    requires cat.parent.Some? ==> cat.parent.value in rows
    ensures Acyclic(rows[id := cat])
    ensures forall y :: y in rows ==> Ancestors(rows[id := cat], y) == Ancestors(rows, y)
  {
    var r2 := rows[id := cat];
    assert |r2| == |rows| + 1;
    forall y | y in rows
      ensures ReachesRoot(r2, y, |r2|) && AncestorsWithin(r2, y, |r2|) == Ancestors(rows, y)
    {
      ChainTransfer(rows, r2, y, |rows|);
      ReachesMonotone(r2, y, |rows|, |r2|);
    }
    if cat.parent.Some? {
      ChainTransfer(rows, r2, cat.parent.value, |rows|);
    }
  }

  // ---------------------------------------------------------------------------------
  // The subtree relation

  /** A table whose listing (the order querysets return rows in) names every row once. */
  predicate WellFormed(rows: Rows, listing: seq<CategoryId>) {
    Acyclic(rows) && Distinct(listing) &&
    (forall c :: c in listing ==> c in rows) && (forall c :: c in rows ==> c in listing)
  }

  /** Stepping from a row strictly inside a subtree to its parent stays in the subtree. */
  lemma SubtreeStep(rows: Rows, c: CategoryId, y: CategoryId)
    requires Acyclic(rows) && y in rows && y != c && InSubtree(rows, c, y)
    ensures rows[y].parent.Some? && rows[y].parent.value in rows
    ensures InSubtree(rows, c, rows[y].parent.value)
    ensures DepthOf(rows, rows[y].parent.value) < DepthOf(rows, y)
  {
    AncestorsStep(rows, y);
  }

  lemma {:induction false} SubtreeTransitive(rows: Rows, a: CategoryId, b: CategoryId, y: CategoryId)
    requires Acyclic(rows) && b in rows && y in rows
    requires InSubtree(rows, a, b) && InSubtree(rows, b, y)
    ensures InSubtree(rows, a, y)
    decreases DepthOf(rows, y)
  {
    if y != b {
      SubtreeStep(rows, b, y);
      SubtreeTransitive(rows, a, b, rows[y].parent.value);
      AncestorsStep(rows, y);
    }
  }

  /** Two distinct rows are never each in the other's subtree. */
  lemma SubtreeAntisymmetric(rows: Rows, a: CategoryId, b: CategoryId)
    requires Acyclic(rows) && a in rows && b in rows
    requires InSubtree(rows, a, b) && InSubtree(rows, b, a)
    ensures a == b
  {
    if a != b {
      SubtreeStep(rows, a, b);
      var p := rows[b].parent.value;
      SubtreeTransitive(rows, b, a, p);
      AncestorsStep(rows, b);
      AncestorsDistinct(rows, b);
      assert false;
    }
  }

  /** The subtrees of two different children of one row share no row. */
  lemma {:induction false} SiblingSubtreesDisjoint(rows: Rows, x: CategoryId, c1: CategoryId, c2: CategoryId, y: CategoryId)
    requires Acyclic(rows) && c1 in rows && c2 in rows && y in rows && c1 != c2
    requires rows[c1].parent == Some(x) && rows[c2].parent == Some(x)
    ensures !(InSubtree(rows, c1, y) && InSubtree(rows, c2, y))
    decreases DepthOf(rows, y)
  {
    AncestorsStep(rows, c1);
    AncestorsStep(rows, c2);
    if InSubtree(rows, c1, y) && InSubtree(rows, c2, y) {
      if y == c1 {
        SubtreeAntisymmetric(rows, x, c2);
        AncestorsDistinct(rows, c2);
      } else if y == c2 {
        SubtreeAntisymmetric(rows, x, c1);
        AncestorsDistinct(rows, c1);
      } else {
        SubtreeStep(rows, c1, y);
        SiblingSubtreesDisjoint(rows, x, c1, c2, rows[y].parent.value);
        AncestorsStep(rows, y);
      }
    }
  }

  // ---------------------------------------------------------------------------------
  // Children as the reverse relation returns them

  /** `category.children` goes through the default manager, so only live children are
      returned, in listing order. */
  function LiveChildren(rows: Rows, listing: seq<CategoryId>, x: CategoryId): seq<CategoryId> {
    Select(listing, c => c in rows && rows[c].parent == Some(x) && IsLive(rows[c].deleteStatus))
  }

  /** The children the category serializer nests: live and active. */
  function VisibleChildren(rows: Rows, listing: seq<CategoryId>, x: CategoryId): seq<CategoryId> {
    Select(listing, c => c in rows && rows[c].parent == Some(x) && IsLive(rows[c].deleteStatus)
                         && rows[c].active == ACTIVE)
  }

  // ---------------------------------------------------------------------------------
  // The cascade of `destroy`

  /** Destroying `x` reaches `y`: `y` is `x`, or `y` is live and destroying `x` reaches
      its parent (the recursion only descends into live children). */
  predicate Cascades(rows: Rows, x: CategoryId, y: CategoryId)
    requires Acyclic(rows) && y in rows
    decreases DepthOf(rows, y)
  {
    if y == x then true
    else if !IsLive(rows[y].deleteStatus) || rows[y].parent.None? then false
    else
      AncestorsStep(rows, y);
      Cascades(rows, x, rows[y].parent.value)
  }

  /** The value `destroy` leaves in a row: flagged deleted when the cascade reaches it. */
  function Mark(cat: Category, reached: bool): Category {
    if reached then cat.(deleteStatus := DELETED) else cat
  }

  /** Whether destroying one of `cs` reaches `y`. */
  predicate CascadesFromAny(rows: Rows, cs: seq<CategoryId>, y: CategoryId)
    requires Acyclic(rows) && y in rows
  {
    |cs| > 0 && (CascadesFromAny(rows, cs[..|cs| - 1], y) || Cascades(rows, cs[|cs| - 1], y))
  }

  lemma {:induction false} CascadesFromAnyMeans(rows: Rows, cs: seq<CategoryId>, y: CategoryId)
    requires Acyclic(rows) && y in rows
    ensures CascadesFromAny(rows, cs, y) <==> exists c :: c in cs && Cascades(rows, c, y)
  {
    if cs != [] {
      var init, last := cs[..|cs| - 1], cs[|cs| - 1];
      CascadesFromAnyMeans(rows, init, y);
      assert cs == init + [last];
      if exists c :: c in cs && Cascades(rows, c, y) {
        var c :| c in cs && Cascades(rows, c, y);
        assert c == last || c in init;
      }
    }
  }

  /** The cascade never leaves the subtree of its start. */
  lemma {:induction false} CascadesInSubtree(rows: Rows, x: CategoryId, y: CategoryId)
    requires Acyclic(rows) && y in rows && Cascades(rows, x, y)
    ensures InSubtree(rows, x, y)
    decreases DepthOf(rows, y)
  {
    if y != x {
      AncestorsStep(rows, y);
      CascadesInSubtree(rows, x, rows[y].parent.value);
    }
  }

  /** Reaching `y` from a live child of `x` means reaching it from `x`. */
  lemma {:induction false} CascadeThroughChild(rows: Rows, x: CategoryId, c: CategoryId, y: CategoryId)
    requires Acyclic(rows) && c in rows && y in rows
    requires rows[c].parent == Some(x) && IsLive(rows[c].deleteStatus)
    requires Cascades(rows, c, y)
    ensures Cascades(rows, x, y)
    decreases DepthOf(rows, y)
  {
    if y != c && y != x {
      AncestorsStep(rows, y);
      CascadeThroughChild(rows, x, c, rows[y].parent.value);
    }
  }

  /** A row the cascade from `x` reaches, other than `x`, is reached from one live child. */
  lemma {:induction false} CascadeChild(rows: Rows, x: CategoryId, y: CategoryId) returns (c: CategoryId)
    requires Acyclic(rows) && y in rows && y != x && Cascades(rows, x, y)
    ensures c in rows && rows[c].parent == Some(x) && IsLive(rows[c].deleteStatus)
    ensures Cascades(rows, c, y)
    decreases DepthOf(rows, y)
  {
    AncestorsStep(rows, y);
    var p := rows[y].parent.value;
    if p == x {
      c := y;
    } else {
      c := CascadeChild(rows, x, p);
    }
  }

  /** The cascade from `x` is `x` plus the cascades from its live children. */
  lemma CascadeSplit(rows: Rows, x: CategoryId, cs: seq<CategoryId>, y: CategoryId)
    requires Acyclic(rows) && y in rows
    requires forall c :: c in cs <==> c in rows && rows[c].parent == Some(x) && IsLive(rows[c].deleteStatus)
    ensures Cascades(rows, x, y) <==> y == x || CascadesFromAny(rows, cs, y)
  {
    CascadesFromAnyMeans(rows, cs, y);
    if y != x && Cascades(rows, x, y) {
      var c := CascadeChild(rows, x, y);
    }
    if y != x && CascadesFromAny(rows, cs, y) {
      var c :| c in cs && Cascades(rows, c, y);
      CascadeThroughChild(rows, x, c, y);
    }
  }

  /** The cascade from a row only reads the flags of its own subtree. */
  lemma {:induction false} CascadeFrame(r1: Rows, r2: Rows, c: CategoryId, y: CategoryId)
    requires Acyclic(r1) && Acyclic(r2) && SameLinks(r1, r2) && y in r1
    requires forall z :: z in r1 && InSubtree(r1, c, z) ==> r1[z].deleteStatus == r2[z].deleteStatus
    ensures Cascades(r1, c, y) == Cascades(r2, c, y)
    decreases DepthOf(r1, y)
  {
    SameLinksKeepChains(r1, r2);
    if y != c {
      if InSubtree(r1, c, y) {
        SubtreeStep(r1, c, y);
        AncestorsStep(r2, y);
        CascadeFrame(r1, r2, c, r1[y].parent.value);
      } else {
        if Cascades(r1, c, y) {
          CascadesInSubtree(r1, c, y);
        }
        if Cascades(r2, c, y) {
          CascadesInSubtree(r2, c, y);
        }
      }
    }
  }

  /** Rows in the subtree of one child are not reached from its siblings. */
  lemma {:induction false} SiblingCascadesMiss(rows: Rows, x: CategoryId, cs: seq<CategoryId>, c: CategoryId, z: CategoryId)
    requires Acyclic(rows) && c in rows && z in rows && c !in cs
    requires rows[c].parent == Some(x)
    requires forall d :: d in cs ==> d in rows && rows[d].parent == Some(x)
    requires InSubtree(rows, c, z)
    ensures !CascadesFromAny(rows, cs, z)
  {
    if cs != [] {
      var d := cs[|cs| - 1];
      SiblingCascadesMiss(rows, x, cs[..|cs| - 1], c, z);
      if Cascades(rows, d, z) {
        CascadesInSubtree(rows, d, z);
        SiblingSubtreesDisjoint(rows, x, c, d, z);
      }
    }
  }

  /** A subtree without deleted rows below its top is reached entirely. */
  lemma {:induction false} CascadeCoversLiveSubtree(rows: Rows, x: CategoryId, y: CategoryId)
    requires Acyclic(rows) && y in rows && InSubtree(rows, x, y)
    requires forall z :: z in rows && z != x && InSubtree(rows, x, z) ==> IsLive(rows[z].deleteStatus)
    ensures Cascades(rows, x, y)
    decreases DepthOf(rows, y)
  {
    if y != x {
      SubtreeStep(rows, x, y);
      CascadeCoversLiveSubtree(rows, x, rows[y].parent.value);
    }
  }

  /** A row already deleted below `x` stops the cascade: nothing in its subtree is reached. */
  lemma {:induction false} DeletedBranchSkipped(rows: Rows, x: CategoryId, d: CategoryId, y: CategoryId)
    requires Acyclic(rows) && x in rows && d in rows && y in rows
    requires d != x && InSubtree(rows, x, d) && !IsLive(rows[d].deleteStatus)
    requires InSubtree(rows, d, y)
    ensures !Cascades(rows, x, y)
    decreases DepthOf(rows, y)
  {
    if y != d {
      SubtreeStep(rows, d, y);
      DeletedBranchSkipped(rows, x, d, rows[y].parent.value);
      if y == x {
        SubtreeAntisymmetric(rows, x, d);
      }
    }
  }

  // ---------------------------------------------------------------------------------
  // `get_all_children`

  /** Pre-order listing of what `get_all_children` returns: each live child, followed at
      once by its own descendants. */
  function Descendants(rows: Rows, listing: seq<CategoryId>, x: CategoryId): seq<CategoryId>
    requires WellFormed(rows, listing) && x in rows
    decreases |rows| - DepthOf(rows, x), |listing| + 1
  {
    DescendantsOfEach(rows, listing, x, LiveChildren(rows, listing, x))
  }

  function DescendantsOfEach(rows: Rows, listing: seq<CategoryId>, x: CategoryId, cs: seq<CategoryId>): seq<CategoryId>
    requires WellFormed(rows, listing) && x in rows && |cs| <= |listing|
    requires forall c :: c in cs ==> c in rows && rows[c].parent == Some(x)
    decreases |rows| - DepthOf(rows, x), |cs|
  {
    if cs == [] then []
    else
      var c := cs[|cs| - 1];
      AncestorsStep(rows, c);
      DepthBelowSize(rows, c);
      DescendantsOfEach(rows, listing, x, cs[..|cs| - 1]) + [c] + Descendants(rows, listing, c)
  }

  /** One more child of `x` in the listing adds that child and its descendants. */
  lemma DescendantsOfEachStep(rows: Rows, listing: seq<CategoryId>, x: CategoryId, i: nat)
    requires WellFormed(rows, listing) && x in rows && i < |LiveChildren(rows, listing, x)|
    ensures var cs := LiveChildren(rows, listing, x);
      cs[i] in rows && rows[cs[i]].parent == Some(x) &&
      |rows| - DepthOf(rows, cs[i]) < |rows| - DepthOf(rows, x) &&
      DescendantsOfEach(rows, listing, x, cs[..i + 1]) ==
        DescendantsOfEach(rows, listing, x, cs[..i]) + [cs[i]] + Descendants(rows, listing, cs[i])
  {
    var cs := LiveChildren(rows, listing, x);
    assert cs[i] in cs;
    AncestorsStep(rows, cs[i]);
    DepthBelowSize(rows, cs[i]);
    assert cs[..i + 1][..i] == cs[..i];
  }

  /** In `r`, every entry `y` is followed at once by `below(y)`. */
  predicate PreOrderedBy(r: seq<CategoryId>, below: CategoryId -> seq<CategoryId>) {
    forall k :: 0 <= k < |r| ==>
      k + 1 + |below(r[k])| <= |r| && r[k + 1..k + 1 + |below(r[k])|] == below(r[k])
  }

  /** `Descendants` as a total function of the row, for `PreOrderedBy`. */
  function Below(rows: Rows, listing: seq<CategoryId>): CategoryId -> seq<CategoryId> {
    y => if WellFormed(rows, listing) && y in rows then Descendants(rows, listing, y) else []
  }

  /** `get_all_children` is a pre-order listing: every descendant in it is followed at
      once by its own descendants. */
  lemma DescendantsPreOrder(rows: Rows, listing: seq<CategoryId>, x: CategoryId)
    requires WellFormed(rows, listing) && x in rows
    ensures var r := Descendants(rows, listing, x);
      forall k :: 0 <= k < |r| ==>
        r[k] in rows &&
        k + 1 + |Descendants(rows, listing, r[k])| <= |r| &&
        r[k + 1..k + 1 + |Descendants(rows, listing, r[k])|] == Descendants(rows, listing, r[k])
  {
    var r := Descendants(rows, listing, x);
    DescendantsPreOrderBy(rows, listing, x);
    forall k | 0 <= k < |r|
      ensures r[k] in rows
      ensures Below(rows, listing)(r[k]) == Descendants(rows, listing, r[k])
    {
      DescendantsSound(rows, listing, x, r[k]);
    }
  }

  lemma {:induction false} DescendantsPreOrderBy(rows: Rows, listing: seq<CategoryId>, x: CategoryId)
    requires WellFormed(rows, listing) && x in rows
    ensures PreOrderedBy(Descendants(rows, listing, x), Below(rows, listing))
    decreases |rows| - DepthOf(rows, x), |listing| + 1
  {
    DescendantsOfEachPreOrderBy(rows, listing, x, LiveChildren(rows, listing, x));
  }

  lemma {:induction false} DescendantsOfEachPreOrderBy(rows: Rows, listing: seq<CategoryId>, x: CategoryId, cs: seq<CategoryId>)
    requires WellFormed(rows, listing) && x in rows && |cs| <= |listing|
    requires forall c :: c in cs ==> c in rows && rows[c].parent == Some(x)
    ensures PreOrderedBy(DescendantsOfEach(rows, listing, x, cs), Below(rows, listing))
    decreases |rows| - DepthOf(rows, x), |cs|
  {
    if cs != [] {
      var init, c := cs[..|cs| - 1], cs[|cs| - 1];
      AncestorsStep(rows, c);
      DepthBelowSize(rows, c);
      DescendantsOfEachPreOrderBy(rows, listing, x, init);
      DescendantsPreOrderBy(rows, listing, c);
      assert Below(rows, listing)(c) == Descendants(rows, listing, c);
      PreOrderedConcat(DescendantsOfEach(rows, listing, x, init), c, Below(rows, listing));
    }
  }

  /** A pre-ordered listing followed by one row and what lies below it is pre-ordered. */
  lemma PreOrderedConcat(a: seq<CategoryId>, c: CategoryId, below: CategoryId -> seq<CategoryId>)
    requires PreOrderedBy(a, below) && PreOrderedBy(below(c), below)
    ensures PreOrderedBy(a + [c] + below(c), below)
  {
    var d := below(c);
    var r := a + [c] + d;
    assert r[0..|a|] == a;
    assert r[|a| + 1..|a| + 1 + |d|] == d;
    forall k | 0 <= k < |r|
      ensures k + 1 + |below(r[k])| <= |r| && r[k + 1..k + 1 + |below(r[k])|] == below(r[k])
    {
      if k < |a| {
        PreOrderedShift(a, r, 0, k, below);
      } else if k == |a| {
        assert r[k] == c;
      } else {
        PreOrderedShift(d, r, |a| + 1, k - |a| - 1, below);
      }
    }
  }

  /** A pre-ordered block `b` placed in `r` at offset `o` keeps its property at each of
      its positions `j`. */
  lemma PreOrderedShift(b: seq<CategoryId>, r: seq<CategoryId>, o: nat, j: nat, below: CategoryId -> seq<CategoryId>)
    requires PreOrderedBy(b, below)
    requires o + |b| <= |r| && r[o..o + |b|] == b && j < |b|
    ensures o + j + 1 + |below(r[o + j])| <= |r|
    ensures r[o + j + 1..o + j + 1 + |below(r[o + j])|] == below(r[o + j])
  {
    var y := b[j];
    assert r[o + j] == y;
    var e := below(y);
    assert j + 1 + |e| <= |b| && b[j + 1..j + 1 + |e|] == e;
    forall t | 0 <= t < |e|
      ensures r[o + j + 1 + t] == e[t]
    {
      assert e[t] == b[j + 1 + t] == r[o..o + |b|][j + 1 + t];
    }
  }

  lemma {:induction false} DescendantsSound(rows: Rows, listing: seq<CategoryId>, x: CategoryId, y: CategoryId)
    requires WellFormed(rows, listing) && x in rows && y in Descendants(rows, listing, x)
    ensures y in rows && y != x && Cascades(rows, x, y)
    decreases |rows| - DepthOf(rows, x), |listing| + 1
  {
    var d := DescendantsOfEachSound(rows, listing, x, LiveChildren(rows, listing, x), y);
    CascadeThroughChild(rows, x, d, y);
    if y == x {
      CascadesInSubtree(rows, d, y);
      AncestorsStep(rows, d);
      SubtreeAntisymmetric(rows, x, d);
      AncestorsDistinct(rows, d);
      assert false;
    }
  }

  lemma {:induction false} DescendantsOfEachSound(rows: Rows, listing: seq<CategoryId>, x: CategoryId, cs: seq<CategoryId>, y: CategoryId)
    returns (d: CategoryId)
    requires WellFormed(rows, listing) && x in rows && |cs| <= |listing|
    requires forall c :: c in cs ==> c in rows && rows[c].parent == Some(x) && IsLive(rows[c].deleteStatus)
    requires y in DescendantsOfEach(rows, listing, x, cs)
    ensures d in cs && y in rows && Cascades(rows, d, y)
    decreases |rows| - DepthOf(rows, x), |cs|
  {
    var c, init := cs[|cs| - 1], cs[..|cs| - 1];
    AncestorsStep(rows, c);
    DepthBelowSize(rows, c);
    if y in DescendantsOfEach(rows, listing, x, init) {
      d := DescendantsOfEachSound(rows, listing, x, init, y);
    } else {
      d := c;
      if y != c {
        DescendantsSound(rows, listing, c, y);
      }
    }
  }

  lemma {:induction false} InDescendantsOfEach(rows: Rows, listing: seq<CategoryId>, x: CategoryId, cs: seq<CategoryId>, c: CategoryId, y: CategoryId)
    requires WellFormed(rows, listing) && x in rows && |cs| <= |listing|
    requires forall c :: c in cs ==> c in rows && rows[c].parent == Some(x)
    requires c in cs && (y == c || y in Descendants(rows, listing, c))
    ensures y in DescendantsOfEach(rows, listing, x, cs)
    decreases |cs|
  {
    if cs[|cs| - 1] != c {
      assert c in cs[..|cs| - 1] by {
        assert cs == cs[..|cs| - 1] + [cs[|cs| - 1]];
      }
      InDescendantsOfEach(rows, listing, x, cs[..|cs| - 1], c, y);
    }
  }

  lemma {:induction false} DescendantsComplete(rows: Rows, listing: seq<CategoryId>, x: CategoryId, y: CategoryId)
    requires WellFormed(rows, listing) && x in rows && y in rows && y != x && Cascades(rows, x, y)
    ensures y in Descendants(rows, listing, x)
    decreases |rows| - DepthOf(rows, x)
  {
    var c := CascadeChild(rows, x, y);
    AncestorsStep(rows, c);
    DepthBelowSize(rows, c);
    if y != c {
      DescendantsComplete(rows, listing, c, y);
    }
    InDescendantsOfEach(rows, listing, x, LiveChildren(rows, listing, x), c, y);
  }

  /** `get_all_children` lists exactly the rows below `x` reachable through live rows:
      the rows `destroy` would reach, `x` excluded. */
  lemma DescendantsAreCascade(rows: Rows, listing: seq<CategoryId>, x: CategoryId, y: CategoryId)
    requires WellFormed(rows, listing) && x in rows
    ensures y in Descendants(rows, listing, x) <==> y in rows && y != x && Cascades(rows, x, y)
  {
    if y in Descendants(rows, listing, x) {
      DescendantsSound(rows, listing, x, y);
    }
    if y in rows && y != x && Cascades(rows, x, y) {
      DescendantsComplete(rows, listing, x, y);
    }
  }

  /** ... and lists each of them once. */
  lemma {:induction false} DescendantsDistinct(rows: Rows, listing: seq<CategoryId>, x: CategoryId)
    requires WellFormed(rows, listing) && x in rows
    ensures Distinct(Descendants(rows, listing, x))
    decreases |rows| - DepthOf(rows, x), |listing| + 1
  {
    SelectDistinct(listing, c => c in rows && rows[c].parent == Some(x) && IsLive(rows[c].deleteStatus));
    DescendantsOfEachDistinct(rows, listing, x, LiveChildren(rows, listing, x));
  }

  lemma {:induction false} DescendantsOfEachDistinct(rows: Rows, listing: seq<CategoryId>, x: CategoryId, cs: seq<CategoryId>)
    requires WellFormed(rows, listing) && x in rows && |cs| <= |listing| && Distinct(cs)
    requires forall c :: c in cs ==> c in rows && rows[c].parent == Some(x) && IsLive(rows[c].deleteStatus)
    ensures Distinct(DescendantsOfEach(rows, listing, x, cs))
    decreases |rows| - DepthOf(rows, x), |cs|
  {
    if cs != [] {
      var c, init := cs[|cs| - 1], cs[..|cs| - 1];
      assert cs == init + [c];
      AncestorsStep(rows, c);
      DepthBelowSize(rows, c);
      DescendantsOfEachDistinct(rows, listing, x, init);
      DescendantsDistinct(rows, listing, c);
      var below := Descendants(rows, listing, c);
      forall y | y in below
        ensures y in rows && y != c && InSubtree(rows, c, y)
      {
        DescendantsSound(rows, listing, c, y);
        CascadesInSubtree(rows, c, y);
      }
      DistinctConcat([c], below);
      var before := DescendantsOfEach(rows, listing, x, init);
      forall y | y in before
        ensures y !in [c] + below
      {
        var d := DescendantsOfEachSound(rows, listing, x, init, y);
        CascadesInSubtree(rows, d, y);
        SiblingSubtreesDisjoint(rows, x, c, d, y);
      }
      DistinctConcat(before, [c] + below);
      assert before + [c] + below == before + ([c] + below);
    }
  }

  // ---------------------------------------------------------------------------------
  // Nested rendering (CategorySerializer) and the list endpoint

  datatype CategoryView = CategoryView(
    id: CategoryId, name: string, parent: Option<CategoryId>, active: int,
    subCategories: seq<CategoryView>)

  /** A category with its live, active children nested under it, recursively. */
  function Render(rows: Rows, listing: seq<CategoryId>, x: CategoryId): (v: CategoryView)
    requires WellFormed(rows, listing) && x in rows
    ensures v.id == x
    ensures |v.subCategories| == |VisibleChildren(rows, listing, x)|
    ensures forall i :: 0 <= i < |v.subCategories| ==>
              v.subCategories[i].id == VisibleChildren(rows, listing, x)[i]
    decreases |rows| - DepthOf(rows, x), |listing| + 1
  {
    CategoryView(x, rows[x].name, rows[x].parent, rows[x].active,
                 RenderEach(rows, listing, x, VisibleChildren(rows, listing, x)))
  }

  function RenderEach(rows: Rows, listing: seq<CategoryId>, x: CategoryId, cs: seq<CategoryId>): (vs: seq<CategoryView>)
    requires WellFormed(rows, listing) && x in rows && |cs| <= |listing|
    requires forall c :: c in cs ==> c in rows && rows[c].parent == Some(x)
    ensures |vs| == |cs| && forall i :: 0 <= i < |cs| ==> vs[i].id == cs[i]
    decreases |rows| - DepthOf(rows, x), |cs|
  {
    if cs == [] then []
    else
      var c := cs[|cs| - 1];
      AncestorsStep(rows, c);
      DepthBelowSize(rows, c);
      RenderEach(rows, listing, x, cs[..|cs| - 1]) + [Render(rows, listing, c)]
  }

  /** At every level of `v`, the nested entries are exactly the live, active children of
      the entry above them, in listing order, and carry their stored fields. */
  predicate FaithfulView(rows: Rows, listing: seq<CategoryId>, v: CategoryView)
    decreases v
  {
    v.id in rows && v.name == rows[v.id].name && v.parent == rows[v.id].parent &&
    v.active == rows[v.id].active &&
    |v.subCategories| == |VisibleChildren(rows, listing, v.id)| &&
    forall i :: 0 <= i < |v.subCategories| ==>
      v.subCategories[i].id == VisibleChildren(rows, listing, v.id)[i] &&
      FaithfulView(rows, listing, v.subCategories[i])
  }

  lemma {:induction false} RenderFaithful(rows: Rows, listing: seq<CategoryId>, x: CategoryId)
    requires WellFormed(rows, listing) && x in rows
    ensures FaithfulView(rows, listing, Render(rows, listing, x))
    decreases |rows| - DepthOf(rows, x), |listing| + 1
  {
    RenderEachFaithful(rows, listing, x, VisibleChildren(rows, listing, x));
  }

  lemma {:induction false} RenderEachFaithful(rows: Rows, listing: seq<CategoryId>, x: CategoryId, cs: seq<CategoryId>)
    requires WellFormed(rows, listing) && x in rows && |cs| <= |listing|
    requires forall c :: c in cs ==> c in rows && rows[c].parent == Some(x)
    ensures forall v :: v in RenderEach(rows, listing, x, cs) ==> FaithfulView(rows, listing, v)
    decreases |rows| - DepthOf(rows, x), |cs|
  {
    if cs != [] {
      var c := cs[|cs| - 1];
      AncestorsStep(rows, c);
      DepthBelowSize(rows, c);
      RenderEachFaithful(rows, listing, x, cs[..|cs| - 1]);
      RenderFaithful(rows, listing, c);
    }
  }

  /** Only live, active rows appear below the top of a faithful view, each under its parent. */
  predicate OnlyVisibleBelow(rows: Rows, v: CategoryView)
    decreases v
  {
    forall s :: s in v.subCategories ==>
      s.id in rows && rows[s.id].parent == Some(v.id) &&
      IsLive(rows[s.id].deleteStatus) && rows[s.id].active == ACTIVE &&
      OnlyVisibleBelow(rows, s)
  }

  lemma {:induction false} FaithfulShowsOnlyVisible(rows: Rows, listing: seq<CategoryId>, v: CategoryView)
    requires FaithfulView(rows, listing, v)
    ensures OnlyVisibleBelow(rows, v)
    decreases v
  {
    forall s | s in v.subCategories
      ensures s.id in rows && rows[s.id].parent == Some(v.id)
      ensures IsLive(rows[s.id].deleteStatus) && rows[s.id].active == ACTIVE
      ensures OnlyVisibleBelow(rows, s)
    {
      var i :| 0 <= i < |v.subCategories| && v.subCategories[i] == s;
      assert s.id in VisibleChildren(rows, listing, v.id);
      FaithfulShowsOnlyVisible(rows, listing, s);
    }
  }

  /** The roots `list` returns: live, no parent, and matching the `active` filter if given. */
  function ListedRoots(rows: Rows, listing: seq<CategoryId>, activeFilter: Option<int>): seq<CategoryId> {
    Select(listing, c => c in rows && rows[c].parent.None? && IsLive(rows[c].deleteStatus) &&
                         (activeFilter.None? || rows[c].active == activeFilter.value))
  }

  /** `list`: each listed root rendered with its nesting, in listing order. */
  function ListCategories(rows: Rows, listing: seq<CategoryId>, activeFilter: Option<int>): seq<CategoryView>
    requires WellFormed(rows, listing)
  {
    var roots := ListedRoots(rows, listing, activeFilter);
    seq(|roots|, i requires 0 <= i < |roots| => Render(rows, listing, roots[i]))
  }

  /** `list` shows every live root matching the filter and nothing else, each as a
      faithful nested view. */
  lemma ListCategoriesShowsLiveRoots(rows: Rows, listing: seq<CategoryId>, activeFilter: Option<int>)
    requires WellFormed(rows, listing)
    ensures forall v :: v in ListCategories(rows, listing, activeFilter) ==>
              v.id in rows && rows[v.id].parent.None? && IsLive(rows[v.id].deleteStatus) &&
              (activeFilter.Some? ==> rows[v.id].active == activeFilter.value) &&
              FaithfulView(rows, listing, v)
    ensures forall c :: (c in rows && rows[c].parent.None? && IsLive(rows[c].deleteStatus) &&
              (activeFilter.Some? ==> rows[c].active == activeFilter.value)) ==>
              exists v :: v in ListCategories(rows, listing, activeFilter) && v.id == c
  {
    var roots := ListedRoots(rows, listing, activeFilter);
    var vs := ListCategories(rows, listing, activeFilter);
    forall v | v in vs
      ensures v.id in roots && FaithfulView(rows, listing, v)
    {
      var i :| 0 <= i < |vs| && vs[i] == v;
      RenderFaithful(rows, listing, roots[i]);
    }
    forall c | c in roots
      ensures exists v :: v in vs && v.id == c
    {
      var i :| 0 <= i < |roots| && roots[i] == c;
      assert vs[i] in vs;
    }
  }

  // ---------------------------------------------------------------------------------
  // Validation of a category write (CategoryCreateUpdateSerializer)

  datatype WriteError = InvalidName | InvalidActive | ParentDoesNotExist | ParentDeleted | CircularReference

  const MAX_NAME_LENGTH: nat := 255

  /** `validate_parent_category`: a resolved parent flagged deleted is refused. */
  function ValidateParentCategory(value: Option<Category>): Option<WriteError> {
    if value.Some? && value.value.deleteStatus == DELETED then Some(ParentDeleted) else None
  }

  /** Field-level errors, all collected together: a name that is empty or too long, an
      `active` value outside the choices, and a parent that the default manager does not
      find or that `validate_parent_category` refuses. */
  function FieldErrors(rows: Rows, name: string, parent: Option<CategoryId>, active: int): set<WriteError> {
    (if |name| == 0 || |name| > MAX_NAME_LENGTH then {InvalidName} else {}) +
    (if active != ACTIVE && active != INACTIVE then {InvalidActive} else {}) +
    (match parent
     case None => {}
     case Some(p) =>
       if p !in rows || !IsLive(rows[p].deleteStatus) then {ParentDoesNotExist}
       else if ValidateParentCategory(Some(rows[p])).Some? then {ValidateParentCategory(Some(rows[p])).value}
       else {})
  }

  /** The errors a create (`instance` = None) or update reports: the field errors if there
      are any, otherwise the outcome of the ancestor walk in `validate` (updates only). */
  function WriteCheck(rows: Rows, instance: Option<CategoryId>, name: string, parent: Option<CategoryId>, active: int): set<WriteError>
    requires Acyclic(rows)
  {
    var fieldErrors := FieldErrors(rows, name, parent, active);
    if fieldErrors != {} then fieldErrors
    else if instance.Some? && parent.Some? && InSubtree(rows, instance.value, parent.value) then {CircularReference}
    else {}
  }

  /** A deleted row is never accepted as a parent. */
  lemma DeletedParentRejected(rows: Rows, instance: Option<CategoryId>, name: string, p: CategoryId, active: int)
    requires Acyclic(rows) && p in rows && rows[p].deleteStatus == DELETED
    ensures ParentDoesNotExist in WriteCheck(rows, instance, name, Some(p), active)
  {
  }

  /** An accepted write names a live parent and keeps every chain finite; an update refused
      as circular would have closed a loop; a create never runs the walk. */
  lemma WriteCheckMatchesAcyclicity(rows: Rows, instance: Option<CategoryId>, name: string, parent: Option<CategoryId>, active: int)
    requires Acyclic(rows) && (instance.Some? ==> instance.value in rows)
    ensures instance.None? ==> CircularReference !in WriteCheck(rows, instance, name, parent, active)
    ensures WriteCheck(rows, instance, name, parent, active) == {} && parent.Some? ==>
              parent.value in rows && IsLive(rows[parent.value].deleteStatus)
    ensures instance.Some? && WriteCheck(rows, instance, name, parent, active) == {} ==>
              Acyclic(WithParent(rows, instance.value, parent))
    ensures instance.Some? && CircularReference in WriteCheck(rows, instance, name, parent, active) ==>
              !Acyclic(WithParent(rows, instance.value, parent))
  {
    if instance.Some? && parent.Some? && parent.value in rows {
      var c, p := instance.value, parent.value;
      if InSubtree(rows, c, p) {
        ReparentIntoSubtreeLoops(rows, c, p);
      } else {
        ReparentKeepsAcyclic(rows, c, parent);
      }
    } else if instance.Some? && parent.None? {
      ReparentKeepsAcyclic(rows, instance.value, parent);
    }
  }

  // ---------------------------------------------------------------------------------
  // Flag changes

  /** The table after `delete`/`soft_delete` (DELETED) or `restore` (NOT_DELETED) of `x`. */
  function WithDeleteStatus(rows: Rows, x: CategoryId, status: int): Rows
    requires x in rows
  {
    rows[x := rows[x].(deleteStatus := status)]
  }

  /** A flag change keeps every row stored and every link, hides or shows only `x` itself,
      and restore undoes a soft delete of a live row. */
  lemma FlagChangeKeepsTree(rows: Rows, listing: seq<CategoryId>, x: CategoryId, status: int)
    requires WellFormed(rows, listing) && x in rows
    ensures SameLinks(rows, WithDeleteStatus(rows, x, status))
    ensures WellFormed(WithDeleteStatus(rows, x, status), listing)
    ensures IsLive(rows[x].deleteStatus) ==>
              WithDeleteStatus(WithDeleteStatus(rows, x, DELETED), x, NOT_DELETED) == rows
    ensures forall y :: y in rows && y != x ==> WithDeleteStatus(rows, x, status)[y] == rows[y]
  {
    SameLinksKeepChains(rows, WithDeleteStatus(rows, x, status));
    if IsLive(rows[x].deleteStatus) {
      assert WithDeleteStatus(rows, x, DELETED)[x].(deleteStatus := NOT_DELETED) == rows[x];
    }
  }

  /** `is_parent`: whether `x` has a child the default manager shows. */
  function HasLiveChild(rows: Rows, listing: seq<CategoryId>, x: CategoryId): (r: bool)
    requires WellFormed(rows, listing)
    ensures r <==> exists c :: c in rows && rows[c].parent == Some(x) && IsLive(rows[c].deleteStatus)
  {
    var cs := LiveChildren(rows, listing, x);
    assert forall c :: c in rows && rows[c].parent == Some(x) && IsLive(rows[c].deleteStatus) ==> c in cs;
    assert |cs| > 0 ==> cs[0] in cs;
    |cs| > 0
  }

  /** The chain goes up one link at a time and stops at a row without a parent. */
  lemma {:induction false} AncestorsAreParentChain(rows: Rows, x: CategoryId)
    requires Acyclic(rows) && x in rows
    ensures Ancestors(rows, x) == [] <==> rows[x].parent.None?
    ensures Ancestors(rows, x) != [] ==>
              rows[x].parent == Some(Ancestors(rows, x)[0]) &&
              rows[Ancestors(rows, x)[|Ancestors(rows, x)| - 1]].parent.None?
    ensures forall i :: 0 <= i < |Ancestors(rows, x)| - 1 ==>
              rows[Ancestors(rows, x)[i]].parent == Some(Ancestors(rows, x)[i + 1])
    decreases DepthOf(rows, x)
  {
    if rows[x].parent.Some? {
      AncestorsStep(rows, x);
      var p := rows[x].parent.value;
      AncestorsAreParentChain(rows, p);
      var a, b := Ancestors(rows, x), Ancestors(rows, p);
      assert forall i :: 1 <= i < |a| ==> a[i] == b[i - 1];
    }
  }

  // ---------------------------------------------------------------------------------
  // Steps of the recursive soft delete

  /** `rows` is `start` with `x` and the cascades from `cs` marked deleted. */
  predicate MarkedFrom(start: Rows, rows: Rows, x: CategoryId, cs: seq<CategoryId>)
    requires Acyclic(start)
  {
    rows.Keys == start.Keys &&
    forall y :: y in rows ==> rows[y] == Mark(start[y], y == x || CascadesFromAny(start, cs, y))
  }

  /** Marking `x` itself starts the cascade. */
  lemma MarkedTop(start: Rows, x: CategoryId)
    requires Acyclic(start) && x in start
    ensures SameLinks(start, WithDeleteStatus(start, x, DELETED))
    ensures MarkedFrom(start, WithDeleteStatus(start, x, DELETED), x, [])
  {
  }

  /** The children visited after `x` is marked are its live children before the mark,
      each listed once. */
  lemma ChildrenAfterMark(start: Rows, listing: seq<CategoryId>, x: CategoryId)
    requires WellFormed(start, listing) && x in start
    ensures var cs := LiveChildren(WithDeleteStatus(start, x, DELETED), listing, x);
      Distinct(cs) && |cs| <= |listing| &&
      forall c :: c in cs <==> c in start && start[c].parent == Some(x) && IsLive(start[c].deleteStatus)
  {
    var marked := WithDeleteStatus(start, x, DELETED);
    SelectDistinct(listing, c => c in marked && marked[c].parent == Some(x) && IsLive(marked[c].deleteStatus));
    AncestorsDistinct(start, x);
  }

  /** Before child `cs[i]` is visited, nothing in its subtree has been touched. */
  lemma ChildSubtreeUntouched(start: Rows, rows: Rows, x: CategoryId, cs: seq<CategoryId>, i: nat)
    requires Acyclic(start) && x in start && Distinct(cs) && i < |cs|
    requires forall d :: d in cs ==> d in start && start[d].parent == Some(x)
    requires MarkedFrom(start, rows, x, cs[..i])
    ensures forall z :: z in start && InSubtree(start, cs[i], z) ==> rows[z] == start[z]
  {
    var c := cs[i];
    assert c !in cs[..i];
    forall z | z in start && InSubtree(start, c, z)
      ensures rows[z] == start[z]
    {
      SiblingCascadesMiss(start, x, cs[..i], c, z);
      if z == x {
        AncestorsStep(start, c);
        SubtreeAntisymmetric(start, x, c);
        AncestorsDistinct(start, c);
        assert false;
      }
    }
  }

  /** Facts the visit of child `cs[i]` needs: it is stored and live, one level below `x`. */
  lemma ChildVisitReady(start: Rows, rows: Rows, listing: seq<CategoryId>, x: CategoryId, cs: seq<CategoryId>, i: nat)
    requires WellFormed(start, listing) && x in start && Distinct(cs) && i < |cs|
    requires forall c :: c in cs ==> c in start && start[c].parent == Some(x) && IsLive(start[c].deleteStatus)
    requires SameLinks(start, rows) && MarkedFrom(start, rows, x, cs[..i])
    ensures WellFormed(rows, listing) && cs[i] in rows && IsLive(rows[cs[i]].deleteStatus)
    ensures |rows| == |start| && DepthOf(rows, cs[i]) == DepthOf(start, x) + 1
    ensures DepthOf(start, x) + 1 < |start|
  {
    SameLinksKeepChains(start, rows);
    assert rows.Keys == start.Keys;
    ChildSubtreeUntouched(start, rows, x, cs, i);
    AncestorsStep(start, cs[i]);
    DepthBelowSize(start, cs[i]);
  }

  /** Marking the cascade of child `cs[i]` extends the marks from `cs[..i]` to `cs[..i+1]`. */
  lemma CascadeStepCombines(start: Rows, before: Rows, after: Rows, listing: seq<CategoryId>, x: CategoryId, cs: seq<CategoryId>, i: nat)
    requires WellFormed(start, listing) && x in start && Distinct(cs) && i < |cs|
    requires forall c :: c in cs ==> c in start && start[c].parent == Some(x) && IsLive(start[c].deleteStatus)
    requires SameLinks(start, before) && MarkedFrom(start, before, x, cs[..i])
    requires SameLinks(before, after) && Acyclic(before)
    requires forall y :: y in after ==> after[y] == Mark(before[y], Cascades(before, cs[i], y))
    ensures SameLinks(start, after) && MarkedFrom(start, after, x, cs[..i + 1])
  {
    ChildSubtreeUntouched(start, before, x, cs, i);
    assert cs[..i + 1][..i] == cs[..i];
    forall y | y in after
      ensures after[y] == Mark(start[y], y == x || CascadesFromAny(start, cs[..i + 1], y))
    {
      CascadeFrame(start, before, cs[i], y);
    }
  }

  /** Once every child is visited, exactly the cascade from `x` is marked. */
  lemma CascadeComplete(start: Rows, rows: Rows, x: CategoryId, cs: seq<CategoryId>)
    requires Acyclic(start) && MarkedFrom(start, rows, x, cs)
    requires forall c :: c in cs <==> c in start && start[c].parent == Some(x) && IsLive(start[c].deleteStatus)
    ensures forall y :: y in rows ==> rows[y] == Mark(start[y], Cascades(start, x, y))
  {
    forall y | y in rows
      ensures rows[y] == Mark(start[y], Cascades(start, x, y))
    {
      CascadeSplit(start, x, cs, y);
    }
  }

  // ---------------------------------------------------------------------------------
  // `destroy`

  /** The rows `destroy` flags: the target itself, and whatever the recursive soft delete
      reaches from each of its live, active children. The view set loads the target with
      `children` prefetched through live, active rows only, and the target's
      `children.filter(...)` keeps that restriction; the children it returns are loaded
      without a prefetch, so below them every live child is visited. */
  predicate DestroyReaches(rows: Rows, x: CategoryId, y: CategoryId)
    requires Acyclic(rows) && y in rows
  {
    y == x ||
    exists c :: c in rows && rows[c].parent == Some(x) && IsLive(rows[c].deleteStatus) &&
                rows[c].active == ACTIVE && Cascades(rows, c, y)
  }

  /** The children `destroy` visits, fetched after the target is marked, are its live,
      active children before the mark, each listed once. */
  lemma VisibleChildrenAfterMark(start: Rows, listing: seq<CategoryId>, x: CategoryId)
    requires WellFormed(start, listing) && x in start
    ensures var cs := VisibleChildren(WithDeleteStatus(start, x, DELETED), listing, x);
      Distinct(cs) &&
      forall c :: c in cs <==> c in start && start[c].parent == Some(x) &&
                               IsLive(start[c].deleteStatus) && start[c].active == ACTIVE
  {
    var marked := WithDeleteStatus(start, x, DELETED);
    SelectDistinct(listing, c => c in marked && marked[c].parent == Some(x) &&
                                 IsLive(marked[c].deleteStatus) && marked[c].active == ACTIVE);
    AncestorsDistinct(start, x);
  }

  /** Once every visible child is visited, exactly the rows `destroy` reaches are flagged. */
  lemma DestroyComplete(start: Rows, rows: Rows, x: CategoryId, cs: seq<CategoryId>)
    requires Acyclic(start) && MarkedFrom(start, rows, x, cs)
    requires forall c :: c in cs <==> c in start && start[c].parent == Some(x) &&
                                      IsLive(start[c].deleteStatus) && start[c].active == ACTIVE
    ensures forall y :: y in rows ==> rows[y] == Mark(start[y], DestroyReaches(start, x, y))
  {
    forall y | y in rows
      ensures rows[y] == Mark(start[y], DestroyReaches(start, x, y))
    {
      CascadesFromAnyMeans(start, cs, y);
    }
  }

  /** `destroy` stays within the cascade of `_soft_delete_recursive`, and matches it when
      every live child of the target is active. */
  lemma DestroyVersusCascade(rows: Rows, x: CategoryId, y: CategoryId)
    requires Acyclic(rows) && y in rows
    ensures DestroyReaches(rows, x, y) ==> Cascades(rows, x, y)
    ensures Cascades(rows, x, y) &&
            (forall c :: c in rows && rows[c].parent == Some(x) && IsLive(rows[c].deleteStatus) ==>
                           rows[c].active == ACTIVE) ==>
              DestroyReaches(rows, x, y)
  {
    if y != x && DestroyReaches(rows, x, y) {
      var c :| c in rows && rows[c].parent == Some(x) && IsLive(rows[c].deleteStatus) &&
               rows[c].active == ACTIVE && Cascades(rows, c, y);
      CascadeThroughChild(rows, x, c, y);
    }
    if y != x && Cascades(rows, x, y) {
      var c := CascadeChild(rows, x, y);
    }
  }

  /** A live child of the target that is inactive is not flagged by `destroy`, and
      neither is anything in its subtree. */
  lemma InactiveChildSkipped(rows: Rows, x: CategoryId, d: CategoryId, y: CategoryId)
    requires Acyclic(rows) && d in rows && y in rows
    requires rows[d].parent == Some(x) && rows[d].active != ACTIVE
    requires InSubtree(rows, d, y)
    ensures !DestroyReaches(rows, x, y)
  {
    AncestorsStep(rows, d);
    if y == x {
      SubtreeAntisymmetric(rows, x, d);
      AncestorsDistinct(rows, d);
    } else if DestroyReaches(rows, x, y) {
      var c :| c in rows && rows[c].parent == Some(x) && IsLive(rows[c].deleteStatus) &&
               rows[c].active == ACTIVE && Cascades(rows, c, y);
      CascadesInSubtree(rows, c, y);
      SiblingSubtreesDisjoint(rows, x, c, d, y);
    }
  }
}
