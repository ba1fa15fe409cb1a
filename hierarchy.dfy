/** The activity taxonomy: the depth check create_activity runs before inserting a
    node, and the bounded descendant collection organizations_by_activity filters by. */
module Hierarchy {
  import opened Errors
  import opened Tables
  import opened Models

  /** The deepest level a node may sit at; a root is at level 1. */
  const MaxDepth: nat := 3

  /** Python truthiness of an optional id: both `None` and `0` stop the walk. */
  predicate Truthy(p: Option<int>) {
    p.Some? && p.value != 0
  }

  /** Some activity has exactly the name `name` (a case-sensitive comparison). */
  predicate NameTaken(acts: seq<Activity>, name: string) {
    exists a :: a in acts && a.data.name == name
  }

  /** No activity row has key `id`. */
  ghost predicate Missing(acts: seq<Activity>, id: int) {
    forall a :: a in acts ==> a.id != id
  }

  // ---------------------------------------------------------------------------
  // The parent walk of create_activity

  /** The walk up the parent chain for a new node at `level` whose next link to
      follow is `parentId`; Ok(d) is the level the new node ends up at. */
  function Walk(acts: seq<Activity>, parentId: Option<int>, level: nat): (r: Result<nat>)
    requires 1 <= level <= MaxDepth
    ensures r.Ok? ==> level <= r.value <= MaxDepth
    ensures r.Err? ==> r.error == NotFound || r.error == Validation
    decreases MaxDepth - level
  {
    if !Truthy(parentId) then Ok(level)
    else match Find(acts, parentId.value)
      case None => Err(NotFound)
      case Some(parent) =>
        if level + 1 > MaxDepth then Err(Validation)
        else Walk(acts, parent.data.parentId, level + 1)
  }

  /** The checks create_activity makes before it inserts, in the order it makes
      them: the name first, then the parent walk for a node at level 1. */
  function Admit(acts: seq<Activity>, name: string, parentId: Option<int>): (r: Result<nat>)
    ensures NameTaken(acts, name) ==> r == Err(Validation)
    ensures r.Ok? ==> !NameTaken(acts, name) && 1 <= r.value <= MaxDepth
    ensures r.Err? ==> r.error == NotFound || r.error == Validation
  {
    if NameTaken(acts, name) then Err(Validation) else Walk(acts, parentId, 1)
  }

  // ---------------------------------------------------------------------------
  // Ancestry, the reference the walk is measured against

  /** `chain` lists activities met, in order, when climbing parent links from
      `parentId`: each is a row of the table, the first carries key `parentId`,
      and each next one carries the key its predecessor names as parent. */
  ghost predicate IsAncestry(acts: seq<Activity>, parentId: Option<int>, chain: seq<Activity>) {
    && (forall i :: 0 <= i < |chain| ==> chain[i] in acts)
    && (chain != [] ==> Truthy(parentId) && chain[0].id == parentId.value)
    && (forall i :: 0 <= i < |chain| - 1 ==>
          Truthy(chain[i].data.parentId) && chain[i + 1].id == chain[i].data.parentId.value)
  }

  /** The parent link above the last activity of `chain`. */
  function Above(parentId: Option<int>, chain: seq<Activity>): Option<int> {
    if chain == [] then parentId else chain[|chain| - 1].data.parentId
  }

  lemma AncestryCons(acts: seq<Activity>, p: Option<int>, parent: Activity, rest: seq<Activity>)
    requires parent in acts && Truthy(p) && parent.id == p.value
    requires IsAncestry(acts, parent.data.parentId, rest)
    ensures IsAncestry(acts, p, [parent] + rest)
    ensures Above(p, [parent] + rest) == Above(parent.data.parentId, rest)
  {
    var chain := [parent] + rest;
    forall i | 0 <= i < |chain| - 1
      ensures Truthy(chain[i].data.parentId) && chain[i + 1].id == chain[i].data.parentId.value
    {
      if i > 0 { assert chain[i] == rest[i - 1] && chain[i + 1] == rest[i]; }
    }
  }

  lemma AncestryTail(acts: seq<Activity>, p: Option<int>, chain: seq<Activity>)
    requires IsAncestry(acts, p, chain) && chain != []
    ensures IsAncestry(acts, chain[0].data.parentId, chain[1..])
    ensures Above(chain[0].data.parentId, chain[1..]) == Above(p, chain)
  {
    var rest := chain[1..];
    forall i | 0 <= i < |rest| - 1
      ensures Truthy(rest[i].data.parentId) && rest[i + 1].id == rest[i].data.parentId.value
    {
      assert rest[i] == chain[i + 1] && rest[i + 1] == chain[i + 2];
    }
  }

  /** Whatever the walk answers is explained by the ancestors it actually met: it
      accepts only after at most MaxDepth - level ancestors, the last with a falsy
      parent link; it rejects the nesting after meeting MaxDepth - level + 1 of
      them; it reports NotFound only for a truthy link no row carries. */
  lemma {:induction false} WalkExplained(acts: seq<Activity>, p: Option<int>, level: nat)
    returns (chain: seq<Activity>)
    requires 1 <= level <= MaxDepth
    ensures IsAncestry(acts, p, chain)
    ensures Walk(acts, p, level).Ok? ==>
      !Truthy(Above(p, chain)) && Walk(acts, p, level).value == level + |chain| <= MaxDepth
    ensures Walk(acts, p, level) == Err(Validation) ==> level + |chain| == MaxDepth + 1
    ensures Walk(acts, p, level) == Err(NotFound) ==>
      level + |chain| <= MaxDepth && Truthy(Above(p, chain)) && Missing(acts, Above(p, chain).value)
    decreases MaxDepth - level
  {
    if !Truthy(p) {
      chain := [];
    } else {
      match Find(acts, p.value)
      case None =>
        chain := [];
      case Some(parent) =>
        if level + 1 > MaxDepth {
          chain := [parent];
        } else {
          var rest := WalkExplained(acts, parent.data.parentId, level + 1);
          AncestryCons(acts, p, parent, rest);
          chain := [parent] + rest;
        }
    }
  }

  /** Conversely, any ancestry decides the walk when keys are unique: enough
      ancestors mean the nesting error, a short ancestry that ends in a falsy link
      means acceptance at level + |chain|, and one that ends in a dangling link
      means NotFound. */
  lemma {:induction false} WalkDetermined(acts: seq<Activity>, p: Option<int>, level: nat, chain: seq<Activity>)
    requires KeysAscending(acts)
    requires 1 <= level <= MaxDepth
    requires IsAncestry(acts, p, chain)
    ensures level + |chain| > MaxDepth ==> Walk(acts, p, level) == Err(Validation)
    ensures level + |chain| <= MaxDepth && !Truthy(Above(p, chain)) ==>
      Walk(acts, p, level) == Ok(level + |chain|)
    ensures level + |chain| <= MaxDepth && Truthy(Above(p, chain)) && Missing(acts, Above(p, chain).value) ==>
      Walk(acts, p, level) == Err(NotFound)
    decreases |chain|
  {
    if chain != [] {
      FindUnique(acts, chain[0]);
      if level + 1 <= MaxDepth {
        AncestryTail(acts, p, chain);
        WalkDetermined(acts, chain[0].data.parentId, level + 1, chain[1..]);
      }
    }
  }

  // ---------------------------------------------------------------------------
  // The depth invariant and what an accepted insert does to it

  /** Activity `a`'s own parent walk succeeds: at most MaxDepth - 1 ancestors,
      all present, so `a` sits at depth MaxDepth or less. */
  ghost predicate WithinDepth(acts: seq<Activity>, a: Activity) {
    Walk(acts, a.data.parentId, 1).Ok?
  }

  /** Every activity sits at depth MaxDepth or less. */
  ghost predicate DepthBounded(acts: seq<Activity>) {
    forall a {:trigger WithinDepth(acts, a)} :: a in acts ==> WithinDepth(acts, a)
  }

  ghost predicate UniqueNames(acts: seq<Activity>) {
    forall i, j :: 0 <= i < j < |acts| ==> acts[i].data.name != acts[j].data.name
  }

  /** A walk that succeeds met only rows already there, so appending a row leaves it alone. */
  lemma {:induction false} WalkAppend(acts: seq<Activity>, x: Activity, p: Option<int>, level: nat)
    requires 1 <= level <= MaxDepth
    requires Walk(acts, p, level).Ok?
    ensures Walk(acts + [x], p, level) == Walk(acts, p, level)
    decreases MaxDepth - level
  {
    if Truthy(p) {
      FindAppend(acts, x, p.value);
      var parent := Find(acts, p.value).value;
      WalkAppend(acts, x, parent.data.parentId, level + 1);
    }
  }

  /** Inserting a node that passed the checks keeps names unique and depth bounded. */
  lemma AdmitKeepsInvariants(acts: seq<Activity>, a: Activity)
    requires UniqueNames(acts) && DepthBounded(acts)
    requires Admit(acts, a.data.name, a.data.parentId).Ok?
    ensures UniqueNames(acts + [a]) && DepthBounded(acts + [a])
  {
    var t := acts + [a];
    forall b | b in t ensures WithinDepth(t, b) {
      assert WithinDepth(acts, b);
      WalkAppend(acts, a, b.data.parentId, 1);
    }
    forall i, j | 0 <= i < j < |t| ensures t[i].data.name != t[j].data.name {
      if j == |acts| { assert t[i] in acts; }
    }
  }

  /** The activities form a forest: climbing parent links from any stored
      activity meets at most MaxDepth - 1 stored ancestors and then a falsy link,
      so no chain of parent links loops back. */
  lemma RootReached(acts: seq<Activity>, a: Activity) returns (chain: seq<Activity>)
    requires DepthBounded(acts) && a in acts
    ensures IsAncestry(acts, a.data.parentId, chain)
    ensures |chain| <= MaxDepth - 1 && !Truthy(Above(a.data.parentId, chain))
  {
    assert WithinDepth(acts, a);
    chain := WalkExplained(acts, a.data.parentId, 1);
  }

  // ---------------------------------------------------------------------------
  // Descendant collection

  /** The activities whose parent is `id`, in table order. */
  function Children(acts: seq<Activity>, id: int): (cs: seq<Activity>)
    ensures forall c :: c in cs <==> c in acts && c.data.parentId == Some(id)
  {
    Filter(acts, (c: Activity) => c.data.parentId == Some(id))
  }

  function IdsOf(cs: seq<Activity>): (ids: seq<int>)
    ensures forall x :: x in ids <==> exists c :: c in cs && c.id == x
  {
    var ids := seq(|cs|, k requires 0 <= k < |cs| => cs[k].id);
    assert forall k :: 0 <= k < |cs| ==> ids[k] == cs[k].id && cs[k] in cs;
    ids
  }

  /** collect_ids(id, level): the ids of the children of `id`, then for each child
      in turn what the same collection gathers one level further down; nothing
      from below level MaxDepth. */
  function CollectIds(acts: seq<Activity>, id: int, level: nat): (ids: seq<int>)
    requires 1 <= level <= MaxDepth + 1
    ensures forall x :: x in ids ==> exists c :: c in acts && c.id == x && c.data.parentId.Some?
    decreases MaxDepth + 1 - level, 0, 0
  {
    if level > MaxDepth then []
    else
      var children := Children(acts, id);
      IdsOf(children) + CollectEach(acts, children, level + 1)
  }

  /** The loop of collect_ids that extends the ids with each child's collection. */
  function CollectEach(acts: seq<Activity>, children: seq<Activity>, level: nat): (ids: seq<int>)
    requires 1 <= level <= MaxDepth + 1
    ensures forall x :: x in ids ==> exists c :: c in acts && c.id == x && c.data.parentId.Some?
    decreases MaxDepth + 1 - level, 1, |children|
  {
    if children == [] then []
    else CollectIds(acts, children[0].id, level) + CollectEach(acts, children[1..], level)
  }

  /** Activity id `x` lies at most `k` generations below activity `anc`: some row
      whose parent is `anc` is `x` itself, or has `x` at most k - 1 generations below. */
  ghost predicate DescendsWithin(acts: seq<Activity>, anc: int, x: int, k: nat)
    decreases k
  {
    k > 0 && exists c :: c in acts && c.data.parentId == Some(anc) && (c.id == x || DescendsWithin(acts, c.id, x, k - 1))
  }

  /** collect_ids started at `level` finds exactly the descendants at most
      MaxDepth + 1 - level generations down: none missed, none deeper. */
  lemma {:induction false} CollectIdsExact(acts: seq<Activity>, id: int, level: nat, x: int)
    requires 1 <= level <= MaxDepth + 1
    ensures x in CollectIds(acts, id, level) <==> DescendsWithin(acts, id, x, MaxDepth + 1 - level)
    decreases MaxDepth + 1 - level, 0, 0
  {
    if level <= MaxDepth {
      var children := Children(acts, id);
      var k := MaxDepth + 1 - level;
      var direct := IdsOf(children);
      var below := CollectEach(acts, children, level + 1);
      assert CollectIds(acts, id, level) == direct + below;
      CollectEachExact(acts, children, level + 1, x);
      OneGeneration(acts, id, x, k, direct, below);
    }
  }

  /** One generation down: `x` lies within `k` generations below `id` exactly
      when it is a child of `id` or lies within k - 1 generations below one. */
  lemma DescendsViaChildren(acts: seq<Activity>, id: int, x: int, k: nat)
    requires k > 0
    ensures DescendsWithin(acts, id, x, k) <==>
      exists c :: c in Children(acts, id) && (c.id == x || DescendsWithin(acts, c.id, x, k - 1))
  {
  }

  /** The step of collect_ids: the children's ids followed by what lies below
      each child are exactly the descendants within `k` generations. */
  lemma OneGeneration(acts: seq<Activity>, id: int, x: int, k: nat, direct: seq<int>, below: seq<int>)
    requires k > 0
    requires x in direct <==> exists c :: c in Children(acts, id) && c.id == x
    requires x in below <==> exists c :: c in Children(acts, id) && DescendsWithin(acts, c.id, x, k - 1)
    ensures x in direct + below <==> DescendsWithin(acts, id, x, k)
  {
    DescendsViaChildren(acts, id, x, k);
    if DescendsWithin(acts, id, x, k) {
      var c :| c in Children(acts, id) && (c.id == x || DescendsWithin(acts, c.id, x, k - 1));
      if c.id == x {
        assert x in direct;
      } else {
        assert x in below;
      }
    }
  }

  lemma {:induction false} CollectEachExact(acts: seq<Activity>, children: seq<Activity>, level: nat, x: int)
    requires 1 <= level <= MaxDepth + 1
    ensures x in CollectEach(acts, children, level) <==>
      exists c :: c in children && DescendsWithin(acts, c.id, x, MaxDepth + 1 - level)
    decreases MaxDepth + 1 - level, 1, |children|
  {
    if children != [] {
      CollectIdsExact(acts, children[0].id, level, x);
      CollectEachExact(acts, children[1..], level, x);
      assert forall c :: c in children <==> c == children[0] || c in children[1..];
    }
  }

  /** The id set organizations_by_activity filters by: the activity itself and
      every descendant at most MaxDepth generations below it. */
  function SubtreeIds(acts: seq<Activity>, id: int): (ids: seq<int>)
    ensures forall x :: x in ids <==> x == id || DescendsWithin(acts, id, x, MaxDepth)
  {
    forall x ensures x in CollectIds(acts, id, 1) <==> DescendsWithin(acts, id, x, MaxDepth) {
      CollectIdsExact(acts, id, 1, x);
    }
    [id] + CollectIds(acts, id, 1)
  }
}
