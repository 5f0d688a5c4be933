/**
 * The port-template editor: a forest of ports, each with an id, a value, a
 * read-only flag and child ports, edited by recursive tree transforms, plus
 * the component state (`ports`, `nextId`) those handlers replace.
 */
module PortTree {
  import opened Wrappers

  /** One port and its child ports. */
  datatype PortNode = PortNode(id: string, value: string, readOnly: bool, children: seq<PortNode>)

  /** A partial port record: the fields that are present overwrite a node's fields. */
  datatype PortUpdate = PortUpdate(
    id: Option<string>,
    value: Option<string>,
    readOnly: Option<bool>,
    children: Option<seq<PortNode>>)

  /** The partial record with no fields at all. */
  const NoUpdate: PortUpdate := PortUpdate(None, None, None, None)

  // ---------------------------------------------------------------------------
  // Decimal rendering of counters
  // ---------------------------------------------------------------------------

  /** A decimal digit character. */
  predicate IsDigit(c: char) {
    '0' <= c <= '9'
  }

  /** The character of a single decimal digit. */
  function DigitChar(d: nat): (c: char)
    requires d < 10
    ensures IsDigit(c)
    ensures c as int - '0' as int == d
  {
    ('0' as int + d) as char
  }

  /** A decimal numeral: non-empty, only digits, no leading zero unless it is "0". */
  predicate IsNumeral(s: string) {
    && |s| >= 1
    && (forall i :: 0 <= i < |s| ==> IsDigit(s[i]))
    && (|s| > 1 ==> s[0] != '0')
  }

  /** Decimal rendering of a natural number, as a JavaScript number prints below 2^53. */
  function NatToString(n: nat): (s: string)
    ensures IsNumeral(s)
    ensures n < 10 <==> |s| == 1
    decreases n
  {
    if n < 10 then [DigitChar(n)] else NatToString(n / 10) + [DigitChar(n % 10)]
  }

  /** The value of a string of decimal digits. */
  function DigitsValue(s: string): nat
    requires forall i :: 0 <= i < |s| ==> IsDigit(s[i])
  {
    if |s| == 0 then 0
    else
      assert IsDigit(s[|s| - 1]);
      DigitsValue(s[..|s| - 1]) * 10 + (s[|s| - 1] as int - '0' as int)
  }

  /** Reading a rendered number back gives the number. */
  lemma {:induction false} NatToStringRoundTrip(n: nat)
    ensures DigitsValue(NatToString(n)) == n
    decreases n
  {
    if n >= 10 {
      NatToStringRoundTrip(n / 10);
      var s := NatToString(n);
      assert s[..|s| - 1] == NatToString(n / 10);
    }
  }

  /** Distinct numbers render as distinct strings. */
  lemma NatToStringInjective(m: nat, n: nat)
    requires NatToString(m) == NatToString(n)
    ensures m == n
  {
    NatToStringRoundTrip(m);
    NatToStringRoundTrip(n);
  }

  // ---------------------------------------------------------------------------
  // Measures of a forest
  // ---------------------------------------------------------------------------

  /** Every id that occurs at any depth of the forest. */
  function ForestIds(nodes: seq<PortNode>): set<string>
    decreases nodes
  {
    if nodes == [] then {} else NodeIds(nodes[0]) + ForestIds(nodes[1..])
  }

  /** The id of `node` and of all its descendants. */
  function NodeIds(node: PortNode): set<string>
    decreases node
  {
    {node.id} + ForestIds(node.children)
  }

  /** Number of nodes of the forest at all depths. */
  function ForestSize(nodes: seq<PortNode>): nat
    decreases nodes
  {
    if nodes == [] then 0 else NodeSize(nodes[0]) + ForestSize(nodes[1..])
  }

  /** Number of nodes of the subtree rooted at `node`. */
  function NodeSize(node: PortNode): nat
    decreases node
  {
    1 + ForestSize(node.children)
  }

  /** The ids of the forest's roots, in order. */
  function RootIds(nodes: seq<PortNode>): (r: seq<string>)
    ensures |r| == |nodes|
    ensures forall i :: 0 <= i < |nodes| ==> r[i] == nodes[i].id
  {
    if nodes == [] then [] else [nodes[0].id] + RootIds(nodes[1..])
  }

  /** The ids of a forest of one root followed by others. */
  lemma ForestIdsCons(n: PortNode, rest: seq<PortNode>)
    ensures ForestIds([n] + rest) == NodeIds(n) + ForestIds(rest)
    ensures ForestSize([n] + rest) == NodeSize(n) + ForestSize(rest)
  {
    assert ([n] + rest)[0] == n;
    assert ([n] + rest)[1..] == rest;
  }

  // ---------------------------------------------------------------------------
  // Adding a root
  // ---------------------------------------------------------------------------

  /** A fresh, empty, editable port with the given id. */
  function NewPort(id: string): (r: PortNode)
    ensures r.id == id && r.value == "" && !r.readOnly && r.children == []
    ensures NodeSize(r) == 1
  {
    PortNode(id, "", false, [])
  }

  // ---------------------------------------------------------------------------
  // Updating a port
  // ---------------------------------------------------------------------------

  /** Object spread of a partial record over a node: each field present in `u` replaces the node's field. */
  function Merge(node: PortNode, u: PortUpdate): (r: PortNode)
    ensures u.id.Some? ==> r.id == u.id.value
    ensures u.id.None? ==> r.id == node.id
    ensures u.value.Some? ==> r.value == u.value.value
    ensures u.value.None? ==> r.value == node.value
    ensures u.readOnly.Some? ==> r.readOnly == u.readOnly.value
    ensures u.readOnly.None? ==> r.readOnly == node.readOnly
    ensures u.children.Some? ==> r.children == u.children.value
    ensures u.children.None? ==> r.children == node.children
  {
    PortNode(u.id.GetOr(node.id), u.value.GetOr(node.value),
             u.readOnly.GetOr(node.readOnly), u.children.GetOr(node.children))
  }

  /** Merging the empty record changes nothing. */
  lemma MergeNoUpdate(node: PortNode)
    ensures Merge(node, NoUpdate) == node
  {
  }

  /** Merging the same record twice is merging it once. */
  lemma MergeIdempotent(node: PortNode, u: PortUpdate)
    ensures Merge(Merge(node, u), u) == Merge(node, u)
  {
  }

  /**
   * Merges `u` into every node whose id is `id` and that is reached by
   * descending only through nodes with other ids; sibling lists keep their
   * length and order.
   */
  function UpdateForest(nodes: seq<PortNode>, id: string, u: PortUpdate): (r: seq<PortNode>)
    ensures |r| == |nodes|
    ensures forall i :: 0 <= i < |nodes| ==> r[i] == UpdateNode(nodes[i], id, u)
    decreases nodes
  {
    if nodes == [] then [] else [UpdateNode(nodes[0], id, u)] + UpdateForest(nodes[1..], id, u)
  }

  /** One step of the update walk: merge a match, otherwise descend into the children. */
  function UpdateNode(node: PortNode, id: string, u: PortUpdate): (r: PortNode)
    ensures node.id == id ==> r == Merge(node, u)
    ensures node.id != id ==>
              r.id == node.id && r.value == node.value && r.readOnly == node.readOnly &&
              r.children == UpdateForest(node.children, id, u)
    decreases node
  {
    if node.id == id then Merge(node, u)
    else if |node.children| > 0 then node.(children := UpdateForest(node.children, id, u))
    else node
  }

  /** Updating an id that occurs nowhere returns an equal forest. */
  lemma {:induction false} UpdateForestAbsent(nodes: seq<PortNode>, id: string, u: PortUpdate)
    requires id !in ForestIds(nodes)
    ensures UpdateForest(nodes, id, u) == nodes
    decreases nodes
  {
    if nodes != [] {
      UpdateNodeAbsent(nodes[0], id, u);
      UpdateForestAbsent(nodes[1..], id, u);
      assert nodes == [nodes[0]] + nodes[1..];
    }
  }

  /** Updating an id that occurs nowhere in the subtree returns the node itself. */
  lemma {:induction false} UpdateNodeAbsent(node: PortNode, id: string, u: PortUpdate)
    requires id !in NodeIds(node)
    ensures UpdateNode(node, id, u) == node
    decreases node
  {
    UpdateForestAbsent(node.children, id, u);
  }

  /** Updating with the empty record returns an equal forest. */
  lemma {:induction false} UpdateForestNoUpdate(nodes: seq<PortNode>, id: string)
    ensures UpdateForest(nodes, id, NoUpdate) == nodes
    decreases nodes
  {
    if nodes != [] {
      UpdateNodeNoUpdate(nodes[0], id);
      UpdateForestNoUpdate(nodes[1..], id);
      assert nodes == [nodes[0]] + nodes[1..];
    }
  }

  /** Updating a subtree with the empty record returns the node itself. */
  lemma {:induction false} UpdateNodeNoUpdate(node: PortNode, id: string)
    ensures UpdateNode(node, id, NoUpdate) == node
    decreases node
  {
    UpdateForestNoUpdate(node.children, id);
  }

  /**
   * Repeating an update that leaves the matched id in place changes nothing
   * more: a merged node is matched again and merging is idempotent.
   */
  lemma {:induction false} UpdateForestIdempotent(nodes: seq<PortNode>, id: string, u: PortUpdate)
    requires u.id.None? || u.id == Some(id)
    ensures UpdateForest(UpdateForest(nodes, id, u), id, u) == UpdateForest(nodes, id, u)
    decreases nodes
  {
    if nodes != [] {
      var once := UpdateForest(nodes, id, u);
      UpdateNodeIdempotent(nodes[0], id, u);
      UpdateForestIdempotent(nodes[1..], id, u);
      assert once == [once[0]] + once[1..];
      assert once[1..] == UpdateForest(nodes[1..], id, u);
    }
  }

  /** The node-level half of `UpdateForestIdempotent`. */
  lemma {:induction false} UpdateNodeIdempotent(node: PortNode, id: string, u: PortUpdate)
    requires u.id.None? || u.id == Some(id)
    ensures UpdateNode(UpdateNode(node, id, u), id, u) == UpdateNode(node, id, u)
    decreases node
  {
    if node.id == id {
      MergeIdempotent(node, u);
    } else {
      UpdateForestIdempotent(node.children, id, u);
    }
  }

  /** An update without an id or children field keeps the set of ids and the size. */
  lemma {:induction false} UpdateForestKeepsShape(nodes: seq<PortNode>, id: string, u: PortUpdate)
    requires u.id.None? && u.children.None?
    ensures ForestIds(UpdateForest(nodes, id, u)) == ForestIds(nodes)
    ensures ForestSize(UpdateForest(nodes, id, u)) == ForestSize(nodes)
    decreases nodes
  {
    if nodes != [] {
      var r := UpdateForest(nodes, id, u);
      UpdateNodeKeepsShape(nodes[0], id, u);
      UpdateForestKeepsShape(nodes[1..], id, u);
      assert r == [r[0]] + r[1..];
      assert r[1..] == UpdateForest(nodes[1..], id, u);
      ForestIdsCons(r[0], r[1..]);
    }
  }

  /** The node-level half of `UpdateForestKeepsShape`. */
  lemma {:induction false} UpdateNodeKeepsShape(node: PortNode, id: string, u: PortUpdate)
    requires u.id.None? && u.children.None?
    ensures NodeIds(UpdateNode(node, id, u)) == NodeIds(node)
    ensures NodeSize(UpdateNode(node, id, u)) == NodeSize(node)
    decreases node
  {
    if node.id != id {
      UpdateForestKeepsShape(node.children, id, u);
    }
  }

  // ---------------------------------------------------------------------------
  // Adding a child
  // ---------------------------------------------------------------------------

  /** The child appended to `parent`: id `parent.id + "." + (count + 1)`, empty and editable. */
  function NewChild(parent: PortNode): (c: PortNode)
    ensures c == NewPort(parent.id + "." + NatToString(|parent.children| + 1))
    ensures |c.id| > |parent.id| && c.id[..|parent.id|] == parent.id
  {
    NewPort(parent.id + "." + NatToString(|parent.children| + 1))
  }

  /**
   * Appends a new child to every node whose id is `parentId` and that is
   * reached by descending only through nodes with other ids.
   */
  function AddChildForest(nodes: seq<PortNode>, parentId: string): (r: seq<PortNode>)
    ensures |r| == |nodes|
    ensures forall i :: 0 <= i < |nodes| ==> r[i] == AddChildNode(nodes[i], parentId)
    decreases nodes
  {
    if nodes == [] then [] else [AddChildNode(nodes[0], parentId)] + AddChildForest(nodes[1..], parentId)
  }

  /** One step of the add-child walk: extend a match, otherwise descend into the children. */
  function AddChildNode(node: PortNode, parentId: string): (r: PortNode)
    ensures r.id == node.id && r.value == node.value && r.readOnly == node.readOnly
    ensures node.id == parentId ==> r.children == node.children + [NewChild(node)]
    ensures node.id != parentId ==> r.children == AddChildForest(node.children, parentId)
    decreases node
  {
    if node.id == parentId then
      node.(children := node.children + [NewChild(node)])
    else if |node.children| > 0 then
      node.(children := AddChildForest(node.children, parentId))
    else
      node
  }

  /** Adding a child under an id that occurs nowhere returns an equal forest. */
  lemma {:induction false} AddChildForestAbsent(nodes: seq<PortNode>, parentId: string)
    requires parentId !in ForestIds(nodes)
    ensures AddChildForest(nodes, parentId) == nodes
    decreases nodes
  {
    if nodes != [] {
      AddChildNodeAbsent(nodes[0], parentId);
      AddChildForestAbsent(nodes[1..], parentId);
      assert nodes == [nodes[0]] + nodes[1..];
    }
  }

  /** The node-level half of `AddChildForestAbsent`. */
  lemma {:induction false} AddChildNodeAbsent(node: PortNode, parentId: string)
    requires parentId !in NodeIds(node)
    ensures AddChildNode(node, parentId) == node
    decreases node
  {
    AddChildForestAbsent(node.children, parentId);
  }

  /**
   * Adding a child keeps every id and never shrinks the forest; the forest
   * grows exactly when the parent id occurs in it.
   */
  lemma {:induction false} AddChildForestGrows(nodes: seq<PortNode>, parentId: string)
    ensures ForestIds(nodes) <= ForestIds(AddChildForest(nodes, parentId))
    ensures ForestSize(AddChildForest(nodes, parentId)) >= ForestSize(nodes)
    ensures ForestSize(AddChildForest(nodes, parentId)) > ForestSize(nodes) <==> parentId in ForestIds(nodes)
    decreases nodes
  {
    if nodes != [] {
      var r := AddChildForest(nodes, parentId);
      AddChildNodeGrows(nodes[0], parentId);
      AddChildForestGrows(nodes[1..], parentId);
      assert r == [r[0]] + r[1..];
      assert r[1..] == AddChildForest(nodes[1..], parentId);
      ForestIdsCons(r[0], r[1..]);
    }
  }

  /** The node-level half of `AddChildForestGrows`. */
  lemma {:induction false} AddChildNodeGrows(node: PortNode, parentId: string)
    ensures NodeIds(node) <= NodeIds(AddChildNode(node, parentId))
    ensures NodeSize(AddChildNode(node, parentId)) >= NodeSize(node)
    ensures NodeSize(AddChildNode(node, parentId)) > NodeSize(node) <==> parentId in NodeIds(node)
    decreases node
  {
    var r := AddChildNode(node, parentId);
    if node.id == parentId {
      ForestAppend(node.children, NewChild(node));
    } else {
      AddChildForestGrows(node.children, parentId);
    }
  }

  /** Appending one root adds its ids and its size. */
  lemma {:induction false} ForestAppend(nodes: seq<PortNode>, n: PortNode)
    ensures ForestIds(nodes + [n]) == ForestIds(nodes) + NodeIds(n)
    ensures ForestSize(nodes + [n]) == ForestSize(nodes) + NodeSize(n)
    decreases nodes
  {
    if nodes == [] {
      assert [] + [n] == [n] + [];
      ForestIdsCons(n, []);
    } else {
      ForestAppend(nodes[1..], n);
      assert nodes + [n] == [nodes[0]] + (nodes[1..] + [n]);
      ForestIdsCons(nodes[0], nodes[1..] + [n]);
    }
  }

  // ---------------------------------------------------------------------------
  // Deleting a port
  // ---------------------------------------------------------------------------

  /** The roots whose id differs from `id`, in their original order. */
  function Filter(nodes: seq<PortNode>, id: string): (r: seq<PortNode>)
    ensures |r| <= |nodes|
    ensures forall n :: n in r <==> n in nodes && n.id != id
    ensures RootIds(r) == FilterIds(RootIds(nodes), id)
    decreases nodes
  {
    if nodes == [] then []
    else
      assert RootIds(nodes)[1..] == RootIds(nodes[1..]);
      if nodes[0].id == id then Filter(nodes[1..], id)
      else
        var rest := Filter(nodes[1..], id);
        assert RootIds([nodes[0]] + rest) == [nodes[0].id] + RootIds(rest);
        [nodes[0]] + rest
  }

  /** Filtering a concatenation filters each part. */
  lemma {:induction false} FilterAppend(xs: seq<PortNode>, ys: seq<PortNode>, id: string)
    ensures Filter(xs + ys, id) == Filter(xs, id) + Filter(ys, id)
    decreases xs
  {
    if xs == [] {
      assert xs + ys == ys;
    } else {
      assert (xs + ys)[0] == xs[0];
      assert (xs + ys)[1..] == xs[1..] + ys;
      FilterAppend(xs[1..], ys, id);
    }
  }

  /**
   * The survivors keep their order as nodes, not only as ids: a surviving
   * node `nodes[i]` sits in the result right after the survivors before it.
   */
  lemma FilterKeepsOrder(nodes: seq<PortNode>, id: string)
    ensures forall i :: 0 <= i < |nodes| && nodes[i].id != id ==>
              |Filter(nodes[..i], id)| < |Filter(nodes, id)| &&
              Filter(nodes, id)[|Filter(nodes[..i], id)|] == nodes[i]
  {
    forall i | 0 <= i < |nodes| && nodes[i].id != id
      ensures |Filter(nodes[..i], id)| < |Filter(nodes, id)|
      ensures Filter(nodes, id)[|Filter(nodes[..i], id)|] == nodes[i]
    {
      assert nodes == nodes[..i] + ([nodes[i]] + nodes[i + 1..]);
      FilterAppend(nodes[..i], [nodes[i]] + nodes[i + 1..], id);
      FilterAppend([nodes[i]], nodes[i + 1..], id);
      assert [nodes[i]][1..] == [];
      assert Filter([nodes[i]], id) == [nodes[i]];
    }
  }

  /** The id sequence with every occurrence of `id` dropped, order kept. */
  function FilterIds(ids: seq<string>, id: string): (r: seq<string>)
    ensures |r| <= |ids|
    ensures forall x :: x in r <==> x in ids && x != id
  {
    if ids == [] then []
    else if ids[0] == id then FilterIds(ids[1..], id)
    else [ids[0]] + FilterIds(ids[1..], id)
  }

  /** Apply the delete walk to the children of every node of a list. */
  function PruneEach(nodes: seq<PortNode>, id: string): (r: seq<PortNode>)
    ensures |r| == |nodes|
    ensures forall i :: 0 <= i < |nodes| ==>
              r[i] == nodes[i].(children := DeleteForest(nodes[i].children, id))
  {
    if nodes == [] then []
    else [nodes[0].(children := DeleteForest(nodes[0].children, id))] + PruneEach(nodes[1..], id)
  }

  /**
   * Removes every node whose id is `id`, at every depth, together with its
   * subtree: the filter and the map of the recursive walk, fused into one
   * recursion on the list.
   */
  function DeleteForest(nodes: seq<PortNode>, id: string): (r: seq<PortNode>)
    ensures |r| <= |nodes|
    ensures forall i :: 0 <= i < |r| ==> r[i].id != id
    decreases nodes
  {
    if nodes == [] then []
    else if nodes[0].id == id then DeleteForest(nodes[1..], id)
    else [nodes[0].(children := DeleteForest(nodes[0].children, id))] + DeleteForest(nodes[1..], id)
  }

  /** The fused recursion is exactly filter-then-map. */
  lemma {:induction false} DeleteIsFilterThenMap(nodes: seq<PortNode>, id: string)
    ensures DeleteForest(nodes, id) == PruneEach(Filter(nodes, id), id)
    decreases nodes
  {
    if nodes != [] {
      DeleteIsFilterThenMap(nodes[1..], id);
      if nodes[0].id != id {
        var f := Filter(nodes, id);
        assert f == [nodes[0]] + Filter(nodes[1..], id);
        assert f[1..] == Filter(nodes[1..], id);
      }
    }
  }

  /**
   * Surviving roots keep their relative order: as ids, and as nodes, each
   * surviving root `nodes[i]` (with its children pruned) sitting right after
   * the survivors before it.
   */
  lemma DeleteKeepsRootOrder(nodes: seq<PortNode>, id: string)
    ensures RootIds(DeleteForest(nodes, id)) == FilterIds(RootIds(nodes), id)
    ensures forall i :: 0 <= i < |nodes| && nodes[i].id != id ==>
              |Filter(nodes[..i], id)| < |DeleteForest(nodes, id)| &&
              DeleteForest(nodes, id)[|Filter(nodes[..i], id)|] ==
                nodes[i].(children := DeleteForest(nodes[i].children, id))
  {
    DeleteIsFilterThenMap(nodes, id);
    var f := Filter(nodes, id);
    var r := PruneEach(f, id);
    assert RootIds(r) == RootIds(f);
    FilterKeepsOrder(nodes, id);
  }

  /** After deleting, the id occurs nowhere and no new id appears. */
  lemma {:induction false} DeleteRemovesId(nodes: seq<PortNode>, id: string)
    ensures ForestIds(DeleteForest(nodes, id)) <= ForestIds(nodes) - {id}
    decreases nodes
  {
    if nodes != [] {
      DeleteRemovesId(nodes[1..], id);
      if nodes[0].id != id {
        var rest := DeleteForest(nodes[1..], id);
        var kept := nodes[0].(children := DeleteForest(nodes[0].children, id));
        DeleteRemovesId(nodes[0].children, id);
        ForestIdsCons(kept, rest);
      }
    }
  }

  /** Deleting an id that occurs nowhere returns an equal forest. */
  lemma {:induction false} DeleteAbsent(nodes: seq<PortNode>, id: string)
    requires id !in ForestIds(nodes)
    ensures DeleteForest(nodes, id) == nodes
    decreases nodes
  {
    if nodes != [] {
      DeleteAbsent(nodes[0].children, id);
      DeleteAbsent(nodes[1..], id);
      assert nodes == [nodes[0]] + nodes[1..];
    }
  }

  /** Deleting twice is deleting once. */
  lemma DeleteIdempotent(nodes: seq<PortNode>, id: string)
    ensures DeleteForest(DeleteForest(nodes, id), id) == DeleteForest(nodes, id)
  {
    DeleteRemovesId(nodes, id);
    DeleteAbsent(DeleteForest(nodes, id), id);
  }

  /** Deleting never grows the forest. */
  lemma {:induction false} DeleteShrinks(nodes: seq<PortNode>, id: string)
    ensures ForestSize(DeleteForest(nodes, id)) <= ForestSize(nodes)
    decreases nodes
  {
    if nodes != [] {
      DeleteShrinks(nodes[1..], id);
      if nodes[0].id != id {
        DeleteShrinks(nodes[0].children, id);
        ForestIdsCons(nodes[0].(children := DeleteForest(nodes[0].children, id)), DeleteForest(nodes[1..], id));
      }
    }
  }

  /** `t` is one of the nodes of the forest, at any depth. */
  predicate OccursIn(t: PortNode, nodes: seq<PortNode>)
    decreases nodes
  {
    && nodes != []
    && (nodes[0] == t || OccursIn(t, nodes[0].children) || OccursIn(t, nodes[1..]))
  }

  /** A subtree is no larger than a forest it occurs in. */
  lemma {:induction false} OccursInSize(t: PortNode, nodes: seq<PortNode>)
    requires OccursIn(t, nodes)
    ensures NodeSize(t) <= ForestSize(nodes)
    decreases nodes
  {
    if nodes[0] != t {
      if OccursIn(t, nodes[0].children) {
        OccursInSize(t, nodes[0].children);
      } else {
        OccursInSize(t, nodes[1..]);
      }
    }
  }

  /**
   * A deleted port, at whatever depth, takes its whole subtree with it: the
   * forest shrinks by at least that subtree's size.
   */
  lemma {:induction false} DeleteDropsSubtree(nodes: seq<PortNode>, id: string, t: PortNode)
    requires OccursIn(t, nodes) && t.id == id
    ensures ForestSize(DeleteForest(nodes, id)) <= ForestSize(nodes) - NodeSize(t)
    decreases nodes
  {
    var n, rest := nodes[0], nodes[1..];
    var kept := n.(children := DeleteForest(n.children, id));
    if n == t {
      DeleteShrinks(rest, id);
    } else if OccursIn(t, n.children) {
      DeleteShrinks(rest, id);
      if n.id == id {
        OccursInSize(t, n.children);
      } else {
        DeleteDropsSubtree(n.children, id, t);
        ForestIdsCons(kept, DeleteForest(rest, id));
      }
    } else {
      DeleteDropsSubtree(rest, id, t);
      if n.id != id {
        DeleteShrinks(n.children, id);
        ForestIdsCons(kept, DeleteForest(rest, id));
      }
    }
  }

  /**
   * Ids are not unique: a port "1" with children "1.1" and "1.2" loses
   * "1.1", and the next child added to "1" is numbered "1.2" again.
   */
  lemma DuplicateChildId()
    ensures var before := [PortNode("1", "", false, [NewPort("1.1"), NewPort("1.2")])];
            var after := AddChildForest(DeleteForest(before, "1.1"), "1");
            RootIds(after[0].children) == ["1.2", "1.2"]
  {
    var before := [PortNode("1", "", false, [NewPort("1.1"), NewPort("1.2")])];
    var children := [NewPort("1.1"), NewPort("1.2")];
    assert DeleteForest(children, "1.1") == DeleteForest(children[1..], "1.1");
    assert children[1..] == [NewPort("1.2")];
    assert DeleteForest([NewPort("1.2")], "1.1") == [NewPort("1.2")];
    var deleted := DeleteForest(before, "1.1");
    assert deleted == [PortNode("1", "", false, [NewPort("1.2")])];
    assert NatToString(2) == "2";
    assert NewChild(deleted[0]).id == "1.2";
  }

  // ---------------------------------------------------------------------------
  // Component state
  // ---------------------------------------------------------------------------

  /** The `ports` and `nextId` state of the port-template editor. */
  class PortTemplate {
    var ports: seq<PortNode>
    var nextId: nat

    /** `nextId` counts from one, so no root is ever numbered "0". */
    predicate Valid()
      reads this
    {
      nextId >= 1
    }

    /** An empty editor whose first root will be "1". */
    constructor()
      ensures Valid()
      ensures ports == [] && nextId == 1
    {
      ports := [];
      nextId := 1;
    }

    /** Appends an empty root numbered `nextId` and advances the counter. */
    method AddRootPort()
      requires Valid()
      modifies this
      ensures Valid()
      ensures ports == old(ports) + [NewPort(NatToString(old(nextId)))]
      ensures nextId == old(nextId) + 1
      ensures ports[|ports| - 1].id != "0"
    {
      NatToStringRoundTrip(nextId);
      assert DigitsValue("0") == 0;
      var newPort := NewPort(NatToString(nextId));
      ports := ports + [newPort];
      nextId := nextId + 1;
    }

    /** Merges `updates` into the port `id`. */
    method UpdatePort(id: string, updates: PortUpdate)
      requires Valid()
      modifies this
      ensures Valid()
      ensures ports == UpdateForest(old(ports), id, updates)
      ensures nextId == old(nextId)
    {
      ports := UpdateForest(ports, id, updates);
    }

    /** Appends a new child to the port `parentId`. */
    method AddChild(parentId: string)
      requires Valid()
      modifies this
      ensures Valid()
      ensures ports == AddChildForest(old(ports), parentId)
      ensures nextId == old(nextId)
    {
      ports := AddChildForest(ports, parentId);
    }

    /** Removes the port `id` and its subtree, at every depth. */
    method DeletePort(id: string)
      requires Valid()
      modifies this
      ensures Valid()
      ensures ports == DeleteForest(old(ports), id)
      ensures nextId == old(nextId)
    {
      ports := DeleteForest(ports, id);
    }
  }
}
