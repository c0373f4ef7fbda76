/** Evolution-chain reconstruction: the root of a chain and the breadth-first
    walk that lists the chain from it, children of a species in ascending id. */
module Evolution {
  import opened Wrappers
  import opened Seqs
  import opened Tables

  // ------------------------------------------------------------ small pieces

  predicate Distinct(s: seq<int>) {
    forall i, j :: 0 <= i < j < |s| ==> s[i] != s[j]
  }

  predicate StrictlyIncreasing(s: seq<int>) {
    forall i, j :: 0 <= i < j < |s| ==> s[i] < s[j]
  }

  function Elems(s: seq<int>): set<int> {
    set x | x in s
  }

  /** The ids of the species of a chain. */
  function ChainIds(chain: seq<SpeciesRow>): set<int> {
    set row | row in chain :: row.id
  }

  /** The id column of some rows, in row order. */
  function Ids(rows: seq<SpeciesRow>): (r: seq<int>)
    ensures |r| == |rows|
    ensures forall k :: 0 <= k < |rows| ==> r[k] == rows[k].id
  {
    seq(|rows|, k requires 0 <= k < |rows| => rows[k].id)
  }

  lemma {:induction false} FilterKeepsUniqueIds(rows: seq<SpeciesRow>, p: SpeciesRow -> bool)
    requires UniqueIds(rows)
    ensures UniqueIds(Filter(rows, p))
  {
    if rows != [] {
      FilterKeepsUniqueIds(rows[1..], p);
      var rest := Filter(rows[1..], p);
      forall row | row in rest ensures row.id != rows[0].id {
        var k :| 0 <= k < |rows[1..]| && rows[1..][k] == row;
        assert rows[k + 1] == row;
      }
    }
  }

  /** With unique ids, a row is determined by its id. */
  lemma SameIdSameRow(rows: seq<SpeciesRow>, a: SpeciesRow, b: SpeciesRow)
    requires UniqueIds(rows) && a in rows && b in rows && a.id == b.id
    ensures a == b
  {
  }

  /** The smallest id among some rows. */
  function MinId(rows: seq<SpeciesRow>): (r: Option<int>)
    ensures r.None? <==> rows == []
    ensures r.Some? ==> exists k :: 0 <= k < |rows| && rows[k].id == r.value
    ensures r.Some? ==> forall row :: row in rows ==> r.value <= row.id
  {
    if rows == [] then None
    else
      assert forall row :: row in rows ==> row == rows[0] || row in rows[1..];
      match MinId(rows[1..])
      case None => Some(rows[0].id)
      case Some(m) =>
        assert exists k :: 0 <= k < |rows| && rows[k].id == m by {
          var k :| 0 <= k < |rows[1..]| && rows[1..][k].id == m;
          assert rows[k + 1].id == m;
        }
        if rows[0].id <= m then Some(rows[0].id) else Some(m)
  }

  /** The species the walk starts from: among the parentless species of the chain the
      one with the smallest id, none when no species of the chain is parentless. */
  function RootId(chain: seq<SpeciesRow>): (r: Option<int>)
    ensures r.None? <==> forall row :: row in chain ==> row.evolvesFromSpeciesId.Some?
    ensures r.Some? ==> exists row :: row in chain && row.id == r.value && row.evolvesFromSpeciesId.None?
    ensures r.Some? ==> forall row :: row in chain && row.evolvesFromSpeciesId.None? ==> r.value <= row.id
  {
    var roots := Filter(chain, (row: SpeciesRow) => row.evolvesFromSpeciesId.None?);
    var r := MinId(roots);
    if r.None? then
      r
    else
      assert exists row :: row in chain && row.id == r.value && row.evolvesFromSpeciesId.None? by {
        var k :| 0 <= k < |roots| && roots[k].id == r.value;
        assert roots[k] in roots;
      }
      r
  }

  /** The parent recorded on the first row with id `c`, if there is one. */
  function ParentOf(chain: seq<SpeciesRow>, c: int): Option<int> {
    if chain == [] then None
    else if chain[0].id == c then chain[0].evolvesFromSpeciesId
    else ParentOf(chain[1..], c)
  }

  lemma {:induction false} ParentOfRow(chain: seq<SpeciesRow>, row: SpeciesRow)
    requires UniqueIds(chain) && row in chain
    ensures ParentOf(chain, row.id) == row.evolvesFromSpeciesId
  {
    if chain[0] != row {
      assert row in chain[1..];
      ParentOfRow(chain[1..], row);
    }
  }

  /** `c` is a species of the chain whose parent is `p`. */
  ghost predicate IsChildOf(chain: seq<SpeciesRow>, c: int, p: int) {
    c in ChainIds(chain) && ParentOf(chain, c) == Some(p)
  }

  // ------------------------------------------------------------ sorting ids

  /** Puts `x` at its place in an ascending list. */
  function Insert(x: int, s: seq<int>): (r: seq<int>)
    requires StrictlyIncreasing(s) && x !in s
    ensures StrictlyIncreasing(r)
    ensures forall y :: y in r <==> y == x || y in s
    ensures |r| == |s| + 1
  {
    if s == [] || x < s[0] then [x] + s
    else
      assert forall k :: 0 < k < |s| ==> s[0] < s[k];
      assert forall y :: y in s[1..] ==> s[0] < y;
      assert x != s[0] && s[0] < x;
      var rest := Insert(x, s[1..]);
      forall k | 0 <= k < |rest| ensures s[0] < rest[k] {
        assert rest[k] in rest;
        assert rest[k] == x || rest[k] in s[1..];
      }
      assert s == [s[0]] + s[1..];
      [s[0]] + rest
  }

  /** Sorting distinct ids into ascending order. */
  function SortIds(ids: seq<int>): (r: seq<int>)
    requires Distinct(ids)
    ensures StrictlyIncreasing(r)
    ensures forall y :: y in r <==> y in ids
    ensures |r| == |ids|
  {
    if ids == [] then [] else Insert(ids[0], SortIds(ids[1..]))
  }

  /** The species of the chain whose recorded parent is `p`, sorted by ascending id. */
  function Children(chain: seq<SpeciesRow>, p: int): (r: seq<int>)
    requires UniqueIds(chain)
    ensures StrictlyIncreasing(r)
    ensures forall c :: c in r <==> IsChildOf(chain, c, p)
  {
    var rows := Filter(chain, (row: SpeciesRow) => row.evolvesFromSpeciesId == Some(p));
    FilterKeepsUniqueIds(chain, (row: SpeciesRow) => row.evolvesFromSpeciesId == Some(p));
    var r := SortIds(Ids(rows));
    ChildrenMembers(chain, p, rows);
    r
  }

  lemma ChildrenMembers(chain: seq<SpeciesRow>, p: int, rows: seq<SpeciesRow>)
    requires UniqueIds(chain)
    requires rows == Filter(chain, (row: SpeciesRow) => row.evolvesFromSpeciesId == Some(p))
    ensures forall c :: c in Ids(rows) <==> IsChildOf(chain, c, p)
  {
    forall c ensures c in Ids(rows) <==> IsChildOf(chain, c, p) {
      if c in Ids(rows) {
        var k :| 0 <= k < |rows| && Ids(rows)[k] == c;
        assert rows[k] in rows;
        ParentOfRow(chain, rows[k]);
      }
      if IsChildOf(chain, c, p) {
        var row :| row in chain && row.id == c;
        ParentOfRow(chain, row);
        assert row in rows;
        var k :| 0 <= k < |rows| && rows[k] == row;
        assert Ids(rows)[k] == c;
      }
    }
  }

  /** The children lists of the species of `q`, one after the other, in the order of `q`. */
  function Expand(chain: seq<SpeciesRow>, q: seq<int>): seq<int>
    requires UniqueIds(chain)
  {
    if q == [] then [] else Expand(chain, q[..|q| - 1]) + Children(chain, q[|q| - 1])
  }

  // ------------------------------------------------------------ the walk

  /** The first discovered id is a parentless species of the chain. */
  ghost predicate RootFirst(chain: seq<SpeciesRow>, q: seq<int>) {
    |q| >= 1 && q[0] in ChainIds(chain) && ParentOf(chain, q[0]).None?
  }

  ghost predicate WithinChain(chain: seq<SpeciesRow>, q: seq<int>) {
    forall x :: x in q ==> x in ChainIds(chain)
  }

  /** Every discovered id after the first is a child of an earlier one among the first `i`. */
  ghost predicate ParentsBefore(chain: seq<SpeciesRow>, q: seq<int>, i: int) {
    forall k :: 0 < k < |q| ==> exists j :: 0 <= j < k && j < i && IsChildOf(chain, q[k], q[j])
  }

  /** `q` is its first entry followed by the children lists of its first `i` entries. */
  ghost predicate Expanded(chain: seq<SpeciesRow>, q: seq<int>, i: int)
    requires UniqueIds(chain)
  {
    0 <= i <= |q| && |q| >= 1 && q == [q[0]] + Expand(chain, q[..i])
  }

  /** What holds of the list of discovered ids `q` once its first `i` entries have been expanded. */
  ghost predicate WalkInv(chain: seq<SpeciesRow>, q: seq<int>, i: int) {
    && UniqueIds(chain)
    && RootFirst(chain, q)
    && Distinct(q)
    && WithinChain(chain, q)
    && ParentsBefore(chain, q, i)
    && Expanded(chain, q, i)
  }

  lemma StepExpanded(chain: seq<SpeciesRow>, q: seq<int>, i: int)
    requires UniqueIds(chain) && Expanded(chain, q, i) && i < |q|
    ensures Expanded(chain, q + Children(chain, q[i]), i + 1)
  {
    var q' := q + Children(chain, q[i]);
    assert q'[..i + 1] == q[..i + 1];
    assert q[..i + 1][..i] == q[..i];
  }

  lemma StepDistinct(chain: seq<SpeciesRow>, q: seq<int>, i: int)
    requires UniqueIds(chain) && RootFirst(chain, q) && Distinct(q) && ParentsBefore(chain, q, i)
    requires 0 <= i < |q|
    ensures Distinct(q + Children(chain, q[i]))
  {
    var cs := Children(chain, q[i]);
    var q' := q + cs;
    forall a, b | 0 <= a < b < |q'| ensures q'[a] != q'[b] {
      if a < |q| <= b {
        var c := cs[b - |q|];
        assert c in cs;
        assert ParentOf(chain, c) == Some(q[i]);
        if a > 0 {
          var j :| 0 <= j < a && j < i && IsChildOf(chain, q[a], q[j]);
          assert q[j] != q[i];
        }
        assert q'[a] == q[a] && q'[b] == c;
      } else if |q| <= a {
        assert cs[a - |q|] < cs[b - |q|];
      }
    }
  }

  lemma StepParents(chain: seq<SpeciesRow>, q: seq<int>, i: int)
    requires UniqueIds(chain) && ParentsBefore(chain, q, i) && 0 <= i < |q|
    ensures ParentsBefore(chain, q + Children(chain, q[i]), i + 1)
  {
    var cs := Children(chain, q[i]);
    var q' := q + cs;
    forall k | 0 < k < |q'| ensures exists j :: 0 <= j < k && j < i + 1 && IsChildOf(chain, q'[k], q'[j]) {
      if k < |q| {
        assert q'[k] == q[k];
        assert exists j :: 0 <= j < k && j < i && IsChildOf(chain, q[k], q[j]);
        var j :| 0 <= j < k && j < i && IsChildOf(chain, q[k], q[j]);
        assert q'[j] == q[j];
      } else {
        assert cs[k - |q|] in cs;
        assert q'[i] == q[i];
      }
    }
  }

  lemma StepWithinChain(chain: seq<SpeciesRow>, q: seq<int>, i: int)
    requires UniqueIds(chain) && WithinChain(chain, q) && 0 <= i < |q|
    ensures WithinChain(chain, q + Children(chain, q[i]))
  {
  }

  lemma StepUsesOne(chain: seq<SpeciesRow>, q: seq<int>, i: int, q': seq<int>)
    requires Distinct(q) && WithinChain(chain, q) && 0 <= i < |q|
    requires |q'| >= |q| && q'[..|q|] == q
    ensures ChainIds(chain) - Elems(q'[..i + 1]) < ChainIds(chain) - Elems(q[..i])
  {
    assert q'[..i + 1] == q'[..|q|][..i + 1];
    assert q'[..i + 1] == q[..i] + [q[i]];
    assert Elems(q'[..i + 1]) == Elems(q[..i]) + {q[i]};
    assert q[i] !in Elems(q[..i]);
    assert q[i] in q;
  }

  /** Expanding entry `i` keeps the invariant and uses up one more species of the chain. */
  lemma WalkStep(chain: seq<SpeciesRow>, q: seq<int>, i: int)
    requires WalkInv(chain, q, i) && i < |q|
    ensures WalkInv(chain, q + Children(chain, q[i]), i + 1)
    ensures ChainIds(chain) - Elems((q + Children(chain, q[i]))[..i + 1])
          < ChainIds(chain) - Elems(q[..i])
  {
    StepExpanded(chain, q, i);
    StepDistinct(chain, q, i);
    StepParents(chain, q, i);
    StepWithinChain(chain, q, i);
    var q' := q + Children(chain, q[i]);
    assert q'[..|q|] == q;
    StepUsesOne(chain, q, i, q');
  }

  /** The walk of the source: go through the discovered ids in order, appending the
      children of each to the end, until no undiscovered entry is left. */
  function Walk(chain: seq<SpeciesRow>, q: seq<int>, i: int): seq<int>
    requires WalkInv(chain, q, i)
    decreases ChainIds(chain) - Elems(q[..i])
  {
    if i == |q| then q
    else
      WalkStep(chain, q, i);
      Walk(chain, q + Children(chain, q[i]), i + 1)
  }

  lemma {:induction false} WalkKeepsInv(chain: seq<SpeciesRow>, q: seq<int>, i: int)
    requires WalkInv(chain, q, i)
    ensures WalkInv(chain, Walk(chain, q, i), |Walk(chain, q, i)|)
    ensures Walk(chain, q, i)[0] == q[0]
    decreases ChainIds(chain) - Elems(q[..i])
  {
    if i < |q| {
      WalkStep(chain, q, i);
      WalkKeepsInv(chain, q + Children(chain, q[i]), i + 1);
      assert (q + Children(chain, q[i]))[0] == q[0];
    }
  }

  lemma RootInv(chain: seq<SpeciesRow>, root: int)
    requires UniqueIds(chain) && RootId(chain) == Some(root)
    ensures WalkInv(chain, [root], 0)
  {
    var row :| row in chain && row.id == root && row.evolvesFromSpeciesId.None?;
    ParentOfRow(chain, row);
    assert [root][..0] == [];
  }

  /** The evolution order of a chain: the walk from its root, or NoRoot. */
  function EvolutionOrderSpec(chain: seq<SpeciesRow>): Result<seq<int>, Error>
    requires UniqueIds(chain)
  {
    match RootId(chain)
    case None => Err(NoRoot)
    case Some(root) => RootInv(chain, root); Ok(Walk(chain, [root], 0))
  }

  /** One round of the walk, as the loop below takes it. */
  lemma WalkAdvance(chain: seq<SpeciesRow>, q: seq<int>, i: int)
    requires WalkInv(chain, q, i) && i < |q|
    ensures WalkInv(chain, q + Children(chain, q[i]), i + 1)
    ensures Walk(chain, q, i) == Walk(chain, q + Children(chain, q[i]), i + 1)
    ensures ChainIds(chain) - Elems((q + Children(chain, q[i]))[..i + 1])
          < ChainIds(chain) - Elems(q[..i])
  {
    WalkStep(chain, q, i);
  }

  /** Find the root, then go through the discovered ids in order while appending the
      children of each to the discovered ids and to the order. */
  method EvolutionOrder(chain: seq<SpeciesRow>) returns (r: Result<seq<int>, Error>)
    requires UniqueIds(chain)
    ensures r == EvolutionOrderSpec(chain)
  {
    var start := RootId(chain);
    if start.None? {
      return Err(NoRoot);
    }
    var root := start.value;
    RootInv(chain, root);
    var order := [root];
    var currentIds := [root];
    var i := 0;
    ghost var walk := Walk(chain, [root], 0);
    while i < |currentIds|
      invariant WalkInv(chain, currentIds, i)
      invariant order == currentIds
      invariant Walk(chain, currentIds, i) == walk
      decreases ChainIds(chain) - Elems(currentIds[..i])
    {
      var nextIds := Children(chain, currentIds[i]);
      WalkAdvance(chain, currentIds, i);
      // A species without children is skipped; appending no children changes nothing.
      order := AppendEach(order, nextIds);
      currentIds := currentIds + nextIds;
      i := i + 1;
    }
    return Ok(order);
  }

  /** Appending the ids of the children one at a time. */
  method AppendEach(order: seq<int>, next: seq<int>) returns (r: seq<int>)
    ensures r == order + next
  {
    r := order;
    for k := 0 to |next|
      invariant r == order + next[..k]
    {
      r := r + [next[k]];
    }
    assert next[..|next|] == next;
  }

  // ------------------------------------------------------------ what the order is

  /** `x` descends from `root` through `n` parent links inside the chain. */
  ghost predicate DescendsFrom(chain: seq<SpeciesRow>, x: int, root: int, n: nat)
    decreases n
  {
    x in ChainIds(chain) &&
    if n == 0 then x == root
    else ParentOf(chain, x).Some? && DescendsFrom(chain, ParentOf(chain, x).value, root, n - 1)
  }

  /** The order starts at the root, lists no species twice and nothing outside the chain,
      and every later entry is a child of an earlier one. */
  lemma OrderShape(chain: seq<SpeciesRow>)
    requires UniqueIds(chain)
    ensures EvolutionOrderSpec(chain).Err? <==> RootId(chain).None?
    ensures EvolutionOrderSpec(chain).Ok? ==>
      (var order := EvolutionOrderSpec(chain).value;
       && |order| >= 1 && Some(order[0]) == RootId(chain)
       && Distinct(order)
       && (forall x :: x in order ==> x in ChainIds(chain))
       && (forall k :: 0 < k < |order| ==>
             exists j :: 0 <= j < k && IsChildOf(chain, order[k], order[j])))
  {
    if RootId(chain).Some? {
      var root := RootId(chain).value;
      RootInv(chain, root);
      WalkKeepsInv(chain, [root], 0);
      var order := Walk(chain, [root], 0);
      assert EvolutionOrderSpec(chain).value == order;
      assert RootFirst(chain, order) && Distinct(order) && WithinChain(chain, order);
      assert ParentsBefore(chain, order, |order|);
    }
  }

  /** The order is its root followed by the children lists of its own entries, taken
      first-in first-out: each species' children form one ascending block, and the
      blocks come in the order their parents were discovered. */
  lemma OrderIsFifoExpansion(chain: seq<SpeciesRow>)
    requires UniqueIds(chain) && EvolutionOrderSpec(chain).Ok?
    ensures var order := EvolutionOrderSpec(chain).value;
            |order| >= 1 && order == [order[0]] + Expand(chain, order)
  {
    var root := RootId(chain).value;
    RootInv(chain, root);
    WalkIsExpansion(chain, root);
  }

  lemma WalkIsExpansion(chain: seq<SpeciesRow>, root: int)
    requires WalkInv(chain, [root], 0)
    ensures var order := Walk(chain, [root], 0);
            |order| >= 1 && order == [order[0]] + Expand(chain, order)
  {
    WalkKeepsInv(chain, [root], 0);
    var order := Walk(chain, [root], 0);
    assert Expanded(chain, order, |order|);
    assert order[..|order|] == order;
  }

  lemma {:induction false} ExpandHasChildren(chain: seq<SpeciesRow>, q: seq<int>, y: int)
    requires UniqueIds(chain) && y in q
    ensures forall c :: c in Children(chain, y) ==> c in Expand(chain, q)
  {
    if q[|q| - 1] != y {
      assert y in q[..|q| - 1];
      ExpandHasChildren(chain, q[..|q| - 1], y);
    }
  }

  /** Every species that descends from the root is in the order. */
  lemma DescendantInOrder(chain: seq<SpeciesRow>, x: int, n: nat)
    requires UniqueIds(chain) && EvolutionOrderSpec(chain).Ok?
    requires DescendsFrom(chain, x, RootId(chain).value, n)
    ensures x in EvolutionOrderSpec(chain).value
  {
    OrderShape(chain);
    OrderIsFifoExpansion(chain);
    var order := EvolutionOrderSpec(chain).value;
    ExpansionClosed(chain, order);
    ClosedHasDescendants(chain, order, order[0], x, n);
  }

  /** The children of every entry of `q` are in `q`. */
  ghost predicate ChildrenClosed(chain: seq<SpeciesRow>, q: seq<int>)
    requires UniqueIds(chain)
  {
    forall y, c :: y in q && c in Children(chain, y) ==> c in q
  }

  lemma ExpansionClosed(chain: seq<SpeciesRow>, order: seq<int>)
    requires UniqueIds(chain) && |order| >= 1 && order == [order[0]] + Expand(chain, order)
    ensures ChildrenClosed(chain, order)
  {
    forall y, c | y in order && c in Children(chain, y) ensures c in order {
      ExpandHasChildren(chain, order, y);
    }
  }

  /** A list closed under children that holds `root` holds every descendant of it. */
  lemma {:induction false} ClosedHasDescendants(chain: seq<SpeciesRow>, q: seq<int>, root: int, x: int, n: nat)
    requires UniqueIds(chain) && ChildrenClosed(chain, q) && root in q
    requires DescendsFrom(chain, x, root, n)
    ensures x in q
    decreases n
  {
    if n > 0 {
      var y := ParentOf(chain, x).value;
      ClosedHasDescendants(chain, q, root, y, n - 1);
      assert x in Children(chain, y);
    }
  }

  /** Every entry of the order descends from the root; `n` is its depth. */
  lemma OrderEntryDescends(chain: seq<SpeciesRow>, k: nat) returns (n: nat)
    requires UniqueIds(chain) && EvolutionOrderSpec(chain).Ok?
    requires k < |EvolutionOrderSpec(chain).value|
    ensures DescendsFrom(chain, EvolutionOrderSpec(chain).value[k], RootId(chain).value, n)
  {
    OrderShape(chain);
    n := EntryDescends(chain, EvolutionOrderSpec(chain).value, k);
  }

  /** In a list of chain ids whose later entries are each a child of an earlier
      one, entry `k` descends from the first through `n` parent links. */
  lemma {:induction false} EntryDescends(chain: seq<SpeciesRow>, order: seq<int>, k: nat) returns (n: nat)
    requires k < |order|
    requires forall x :: x in order ==> x in ChainIds(chain)
    requires forall i :: 0 < i < |order| ==> exists j :: 0 <= j < i && IsChildOf(chain, order[i], order[j])
    ensures DescendsFrom(chain, order[k], order[0], n)
    decreases k
  {
    assert order[k] in order;
    if k == 0 {
      n := 0;
    } else {
      var j :| 0 <= j < k && IsChildOf(chain, order[k], order[j]);
      var m := EntryDescends(chain, order, j);
      n := m + 1;
    }
  }

  lemma SecondIsChildOfFirst(chain: seq<SpeciesRow>)
    requires UniqueIds(chain) && EvolutionOrderSpec(chain).Ok?
    requires |EvolutionOrderSpec(chain).value| > 1
    ensures EvolutionOrderSpec(chain).value[1] in Children(chain, EvolutionOrderSpec(chain).value[0])
  {
    OrderShape(chain);
    var order := EvolutionOrderSpec(chain).value;
    var j :| 0 <= j < 1 && IsChildOf(chain, order[1], order[j]);
  }

  /** A chain whose root has no children lists the root alone. */
  lemma LoneRoot(chain: seq<SpeciesRow>)
    requires UniqueIds(chain) && RootId(chain).Some?
    requires Children(chain, RootId(chain).value) == []
    ensures EvolutionOrderSpec(chain) == Ok([RootId(chain).value])
  {
    OrderShape(chain);
    var order := EvolutionOrderSpec(chain).value;
    if |order| > 1 {
      SecondIsChildOfFirst(chain);
      assert false;
    }
    assert order == [order[0]];
  }
}
