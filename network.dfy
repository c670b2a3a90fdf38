/**
 * The network being annotated and the steps of `annotate_network` that
 * change it: one new edge per pooled node pair, carrying the summary of
 * its statements, and the source attribute filled in on every edge that
 * lacks one.
 */
module Network {
  import opened Wrappers
  import opened Seqs
  import opened Evidence
  import opened Filters
  import opened Lookup
  import opened Pooling
  import opened Summary

  const RelationshipsAttr: string := "Relationships"
  const SourceAttr: string := "__edge_source"
  const DirectedAttr: string := "__directed"
  const ReverseDirectedAttr: string := "__reverse_directed"
  const DefaultBrowserTarget: string := "INDRA_Evidence"
  const Interaction: string := "interacts with"
  const IndraSource: string := "INDRA"

  datatype Edge = Edge(source: int, target: int, interaction: string)

  datatype AttrValue = StrValue(s: string) | BoolValue(b: bool)

  /** The `target` of the evidence links: the one given to the constructor, or the default. */
  function BrowserTarget(given: Option<string>): string {
    given.GetOr(DefaultBrowserTarget)
  }

  /** The attributes `_single_edge_adder` writes, in the order it writes them. */
  function SummaryAttrs(sum: EdgeSummary): map<string, AttrValue> {
    map[][RelationshipsAttr := StrValue(sum.relationships)][SourceAttr := StrValue(IndraSource)]
      [DirectedAttr := BoolValue(sum.directed)][ReverseDirectedAttr := BoolValue(sum.reverseDirected)]
  }

  /** One edge's attributes with the source set when it has none. */
  function FillSource(a: map<string, AttrValue>, v: string): map<string, AttrValue> {
    if SourceAttr in a then a else a[SourceAttr := StrValue(v)]
  }

  /** All edges' attributes after `_add_source_to_existing_edges` with value `v`. */
  function WithSource(attrs: map<int, map<string, AttrValue>>, v: string): map<int, map<string, AttrValue>> {
    map id | id in attrs :: FillSource(attrs[id], v)
  }

  /** `_add_source_to_existing_edges` does nothing when no value is given. */
  function Sourced(attrs: map<int, map<string, AttrValue>>, sourceValue: Option<string>): map<int, map<string, AttrValue>> {
    match sourceValue
    case None => attrs
    case Some(v) => WithSource(attrs, v)
  }

  /** The edge ids `s` lists, with every occurrence of `x` removed and the rest in order. */
  function Unlisted(s: seq<int>, x: int): (r: seq<int>)
    ensures forall y :: y in r <==> y in s && y != x
    ensures |r| <= |s|
  {
    if s == [] then []
    else if s[0] == x then Unlisted(s[1..], x)
    else [s[0]] + Unlisted(s[1..], x)
  }

  /** The first id of a listing whose ids are all keys is a key. */
  lemma FirstListed(order: seq<int>, keys: set<int>)
    requires forall j :: 0 <= j < |order| ==> order[j] in keys
    ensures |order| > 0 ==> order[0] in keys
  {
  }

  /**
   * After filling in the source, every edge has one; an edge that had one
   * keeps it; no other attribute changes; and filling in again changes
   * nothing.
   */
  lemma WithSourceMeans(attrs: map<int, map<string, AttrValue>>, v: string, id: int, name: string)
    requires id in attrs
    ensures id in WithSource(attrs, v) && SourceAttr in WithSource(attrs, v)[id]
    ensures SourceAttr in attrs[id] ==> WithSource(attrs, v)[id][SourceAttr] == attrs[id][SourceAttr]
    ensures SourceAttr !in attrs[id] ==> WithSource(attrs, v)[id][SourceAttr] == StrValue(v)
    ensures name != SourceAttr ==> (name in WithSource(attrs, v)[id] <==> name in attrs[id])
    ensures name != SourceAttr && name in attrs[id] ==> WithSource(attrs, v)[id][name] == attrs[id][name]
    ensures WithSource(WithSource(attrs, v), v) == WithSource(attrs, v)
  {
    var once := WithSource(attrs, v);
    assert forall i :: i in once ==> FillSource(once[i], v) == once[i];
  }

  predicate Ready(p: Pools) {
    forall i :: 0 <= i < |p.order| ==>
      p.order[i] in p.lists && p.lists[p.order[i]] != [] && ParseKey(p.order[i]).Some?
  }

  lemma WellFormedReady(p: Pools, lookup: map<string, int>)
    requires WellFormed(p, lookup)
    ensures Ready(p)
  {
    forall i | 0 <= i < |p.order| ensures ParseKey(p.order[i]).Some? {
      var k := p.order[i];
      PoolKeyOrientation(p, lookup, k, p.lists[k][0]);
    }
  }

  /** The edge of the `i`-th key: from the lower id of the key to the higher. */
  function KeyEdge(p: Pools, i: nat): Edge
    requires Ready(p) && i < |p.order|
  {
    var ends := ParseKey(p.order[i]).value;
    Edge(ends.0, ends.1, Interaction)
  }

  /** The edges after one new edge for each of the first `n` keys, from the lower id to the higher. */
  function NewEdges(es: map<int, Edge>, next: int, p: Pools, n: nat): map<int, Edge>
    requires Ready(p) && n <= |p.order|
  {
    if n == 0 then es
    else NewEdges(es, next, p, n - 1)[next + n - 1 := KeyEdge(p, n - 1)]
  }

  /** The summary of each pool, in key order. */
  function Summaries(p: Pools, target: string): seq<EdgeSummary>
    requires Ready(p)
  {
    seq(|p.order|, i requires 0 <= i < |p.order| => SummaryOf(target, p.lists[p.order[i]]))
  }

  /** The edge attributes after one new edge per summary of `sums`, numbered from `next`. */
  function NewAttrs(attrs: map<int, map<string, AttrValue>>, next: int, sums: seq<EdgeSummary>): map<int, map<string, AttrValue>> {
    if sums == [] then attrs
    else NewAttrs(attrs, next, sums[..|sums| - 1])[next + |sums| - 1 := SummaryAttrs(sums[|sums| - 1])]
  }

  /** `after` lists `before` and then `n` new ids counting up from `next`. */
  predicate ListsNewIds(after: seq<int>, before: seq<int>, next: int, n: nat) {
    && |after| == |before| + n
    && forall j :: 0 <= j < |after| ==> after[j] == if j < |before| then before[j] else next + (j - |before|)
  }

  lemma NewEdgesStep(es: map<int, Edge>, next: int, p: Pools, i: nat, id: int)
    requires Ready(p) && i < |p.order| && id == next + i
    ensures NewEdges(es, next, p, i + 1) == NewEdges(es, next, p, i)[id := KeyEdge(p, i)]
  {
  }

  lemma UpdateTwice<K, V>(m: map<K, V>, k: K, v: V, w: V)
    ensures m[k := v][k := w] == m[k := w]
  {
  }

  lemma NewAttrsStep(attrs: map<int, map<string, AttrValue>>, next: int, sums: seq<EdgeSummary>, i: int, id: int)
    requires 0 <= i < |sums| && id == next + i
    ensures NewAttrs(attrs, next, sums[..i + 1]) == NewAttrs(attrs, next, sums[..i])[id := SummaryAttrs(sums[i])]
  {
    assert sums[..i + 1][..i] == sums[..i];
  }

  /** Edges numbered below `next` are untouched by adding the new ones. */
  lemma {:induction false} NewEdgesKeepOld(es: map<int, Edge>, next: int, p: Pools, n: nat, id: int)
    requires Ready(p) && n <= |p.order| && id < next
    ensures id in NewEdges(es, next, p, n) <==> id in es
    ensures id in es ==> NewEdges(es, next, p, n)[id] == es[id]
  {
    if n > 0 {
      NewEdgesKeepOld(es, next, p, n - 1, id);
    }
  }

  /** The same for their attributes. */
  lemma {:induction false} NewAttrsKeepOld(attrs: map<int, map<string, AttrValue>>, next: int, sums: seq<EdgeSummary>, id: int)
    requires id < next
    ensures id in NewAttrs(attrs, next, sums) <==> id in attrs
    ensures id in attrs ==> NewAttrs(attrs, next, sums)[id] == attrs[id]
  {
    if sums != [] {
      NewAttrsKeepOld(attrs, next, sums[..|sums| - 1], id);
    }
  }

  /**
   * The new edges are numbered from `next` in key order; the `i`-th joins
   * the two ids of its key, lower first.
   */
  lemma {:induction false} NewEdgesMeans(es: map<int, Edge>, next: int, p: Pools, n: nat, i: nat)
    requires Ready(p) && i < n <= |p.order|
    ensures next + i in NewEdges(es, next, p, n)
    ensures NewEdges(es, next, p, n)[next + i] == KeyEdge(p, i)
  {
    if i < n - 1 {
      NewEdgesMeans(es, next, p, n - 1, i);
    }
  }

  /** The `i`-th new edge carries the attributes of the `i`-th summary. */
  lemma {:induction false} NewAttrsMeans(attrs: map<int, map<string, AttrValue>>, next: int, sums: seq<EdgeSummary>, i: nat)
    requires i < |sums|
    ensures next + i in NewAttrs(attrs, next, sums)
    ensures NewAttrs(attrs, next, sums)[next + i] == SummaryAttrs(sums[i])
  {
    var init := sums[..|sums| - 1];
    if i < |init| {
      assert init[i] == sums[i];
      NewAttrsMeans(attrs, next, init, i);
    }
  }

  class Network {
    var nodes: seq<Node>
    var edges: map<int, Edge>
    var edgeAttrs: map<int, map<string, AttrValue>>
    /** The edge ids in the order the network lists them: creation order. */
    var edgeOrder: seq<int>
    /** The id the next created edge receives. */
    var nextEdgeId: int

    ghost predicate Valid()
      reads this
    {
      && edgeAttrs.Keys == edges.Keys
      && (forall j :: 0 <= j < |edgeOrder| ==> edgeOrder[j] in edges)
      && (forall id :: id in edges ==> id in edgeOrder)
      && (forall id :: id in edges ==> id < nextEdgeId)
    }

    constructor(nodes0: seq<Node>, edges0: map<int, Edge>, attrs0: map<int, map<string, AttrValue>>, order0: seq<int>, next: int)
      requires attrs0.Keys == edges0.Keys
      requires forall j :: 0 <= j < |order0| ==> order0[j] in edges0
      requires forall id :: id in edges0 ==> id in order0
      requires forall id :: id in edges0 ==> id < next
      ensures Valid()
      ensures nodes == nodes0 && edges == edges0 && edgeAttrs == attrs0 && edgeOrder == order0 && nextEdgeId == next
    {
      nodes := nodes0;
      edges := edges0;
      edgeAttrs := attrs0;
      edgeOrder := order0;
      nextEdgeId := next;
    }

    /** `create_edge`: a fresh id, no attributes yet. */
    method CreateEdge(src: int, tgt: int, interaction: string) returns (id: int)
      requires Valid()
      modifies this
      ensures Valid()
      ensures id == old(nextEdgeId) && id !in old(edges)
      ensures nextEdgeId == old(nextEdgeId) + 1
      ensures edges == old(edges)[id := Edge(src, tgt, interaction)]
      ensures edgeAttrs == old(edgeAttrs)[id := map[]]
      ensures edgeOrder == old(edgeOrder) + [id]
      ensures nodes == old(nodes)
    {
      id := nextEdgeId;
      edges := edges[id := Edge(src, tgt, interaction)];
      edgeAttrs := edgeAttrs[id := map[]];
      edgeOrder := edgeOrder + [id];
      nextEdgeId := nextEdgeId + 1;
    }

    /** `set_edge_attribute`. */
    method SetEdgeAttribute(id: int, name: string, value: AttrValue)
      requires Valid() && id in edges
      modifies this
      ensures Valid()
      ensures edgeAttrs == old(edgeAttrs)[id := old(edgeAttrs)[id][name := value]]
      ensures edges == old(edges) && edgeOrder == old(edgeOrder) && nodes == old(nodes) && nextEdgeId == old(nextEdgeId)
    {
      edgeAttrs := edgeAttrs[id := edgeAttrs[id][name := value]];
    }

    /** `remove_edge`: the edge, its attributes and its place in the listing go. */
    method RemoveEdge(id: int)
      requires Valid() && id in edges
      modifies this
      ensures Valid()
      ensures edges == old(edges) - {id} && edgeAttrs == old(edgeAttrs) - {id}
      ensures edgeOrder == Unlisted(old(edgeOrder), id)
      ensures nodes == old(nodes) && nextEdgeId == old(nextEdgeId)
    {
      edges := edges - {id};
      edgeAttrs := edgeAttrs - {id};
      edgeOrder := Unlisted(edgeOrder, id);
      forall j | 0 <= j < |edgeOrder|
        ensures edgeOrder[j] in edges
      {
        assert edgeOrder[j] in Unlisted(old(edgeOrder), id);
      }
    }

    /**
     * `_remove_original_edges`: when asked to, every edge the network
     * lists is removed, one `remove_edge` at a time; otherwise nothing
     * changes.
     */
    method RemoveOriginalEdges(remove: bool)
      requires Valid()
      modifies this
      ensures Valid()
      ensures remove ==> edges == map[] && edgeAttrs == map[] && edgeOrder == []
      ensures !remove ==> edges == old(edges) && edgeAttrs == old(edgeAttrs) && edgeOrder == old(edgeOrder)
      ensures nodes == old(nodes) && nextEdgeId == old(nextEdgeId)
    {
      if !remove {
        return;
      }
      var toRemove := edgeOrder;
      for i := 0 to |toRemove|
        invariant Valid() && nodes == old(nodes) && nextEdgeId == old(nextEdgeId)
        invariant forall id :: id in edges <==> id in old(edges) && id !in toRemove[..i]
      {
        assert toRemove[..i + 1] == toRemove[..i] + [toRemove[i]];
        if toRemove[i] in edges {
          RemoveEdge(toRemove[i]);
        }
      }
      assert toRemove[..|toRemove|] == toRemove;
      forall id
        ensures id !in edges
      {
        if id in old(edges) {
          assert id in toRemove;
        }
      }
      assert edges.Keys == {};
      assert edgeAttrs.Keys == {};
      FirstListed(edgeOrder, edges.Keys);
    }

    /** `_single_edge_adder`: one new edge carrying the summary of `pool`. */
    method AddSummaryEdge(srcId: int, tgtId: int, pool: seq<Stmt>, target: string) returns (id: int)
      requires Valid() && pool != []
      modifies this
      ensures Valid()
      ensures id == old(nextEdgeId) && nextEdgeId == old(nextEdgeId) + 1
      ensures edges == old(edges)[id := Edge(srcId, tgtId, Interaction)]
      ensures edgeAttrs == old(edgeAttrs)[id := SummaryAttrs(SummaryOf(target, pool))]
      ensures edgeOrder == old(edgeOrder) + [id]
      ensures nodes == old(nodes)
    {
      id := CreateEdge(srcId, tgtId, Interaction);
      var summary := SingleEdgeSummary(target, pool);
      SetSummaryAttributes(id, summary);
      UpdateTwice(old(edgeAttrs), id, map[], SummaryAttrs(summary));
    }

    /** The four `set_edge_attribute` calls of `_single_edge_adder` on a fresh edge. */
    method SetSummaryAttributes(id: int, summary: EdgeSummary)
      requires Valid() && id in edges && edgeAttrs[id] == map[]
      modifies this
      ensures Valid()
      ensures edgeAttrs == old(edgeAttrs)[id := SummaryAttrs(summary)]
      ensures edges == old(edges) && edgeOrder == old(edgeOrder) && nodes == old(nodes) && nextEdgeId == old(nextEdgeId)
    {
      SetEdgeAttribute(id, RelationshipsAttr, StrValue(summary.relationships));
      SetEdgeAttribute(id, SourceAttr, StrValue(IndraSource));
      SetEdgeAttribute(id, DirectedAttr, BoolValue(summary.directed));
      SetEdgeAttribute(id, ReverseDirectedAttr, BoolValue(summary.reverseDirected));
    }

    /** `_add_source_to_existing_edges`. */
    method AddSourceToExistingEdges(sourceValue: Option<string>)
      requires Valid()
      modifies this
      ensures Valid()
      ensures edgeAttrs == Sourced(old(edgeAttrs), sourceValue)
      ensures edges == old(edges) && edgeOrder == old(edgeOrder) && nodes == old(nodes) && nextEdgeId == old(nextEdgeId)
    {
      if sourceValue.None? {
        return;
      }
      var v := sourceValue.value;
      for i := 0 to |edgeOrder|
        invariant Valid()
        invariant edges == old(edges) && edgeOrder == old(edgeOrder) && nodes == old(nodes) && nextEdgeId == old(nextEdgeId)
        invariant edgeAttrs.Keys == old(edgeAttrs).Keys
        invariant forall id :: id in edgeAttrs ==>
          edgeAttrs[id] == if id in edgeOrder[..i] then FillSource(old(edgeAttrs)[id], v) else old(edgeAttrs)[id]
      {
        var edgeId := edgeOrder[i];
        assert edgeOrder[..i + 1] == edgeOrder[..i] + [edgeId];
        if SourceAttr !in edgeAttrs[edgeId] {
          SetEdgeAttribute(edgeId, SourceAttr, StrValue(v));
        }
      }
      assert edgeOrder[..|edgeOrder|] == edgeOrder;
      assert forall id :: id in edgeAttrs ==> edgeAttrs[id] == WithSource(old(edgeAttrs), v)[id];
      assert edgeAttrs == WithSource(old(edgeAttrs), v);
    }

    /**
     * `annotate_network` on an INDRA result already in hand: remove the
     * original edges when asked to, pool the statements of `records`, add
     * one edge per pool in pool order, then fill in the source of the edges
     * that lack one.
     */
    method Annotate(records: seq<EdgeEvidence>, fs: seq<Filter>, target: string, removeOrigEdges: bool,
                    sourceValue: Option<string>)
      requires Valid() && Paired(records)
      requires forall i :: 0 <= i < |records| ==> ChainAccepts(fs, records[i])
      modifies this
      ensures Valid() && nodes == old(nodes)
      ensures var p := Pooled(fs, NameIndex(nodes), records);
        && Ready(p)
        && nextEdgeId == old(nextEdgeId) + |p.order|
        && ListsNewIds(edgeOrder, if removeOrigEdges then [] else old(edgeOrder), old(nextEdgeId), |p.order|)
        && edges == NewEdges(if removeOrigEdges then map[] else old(edges), old(nextEdgeId), p, |p.order|)
        && edgeAttrs == Sourced(NewAttrs(if removeOrigEdges then map[] else old(edgeAttrs), old(nextEdgeId),
                                         Summaries(p, target)), sourceValue)
    {
      RemoveOriginalEdges(removeOrigEdges);
      var lookup := NodeNameToId(nodes);
      var pools := PoolStatements(fs, lookup, records);
      PooledWellFormed(fs, lookup, records);
      WellFormedReady(pools, lookup);
      AddPoolEdges(pools, target);
      AddSourceToExistingEdges(sourceValue);
    }

    /** The loop of `annotate_network` over the pools: one new edge per key, in key order. */
    method AddPoolEdges(pools: Pools, target: string)
      requires Valid() && Ready(pools)
      modifies this
      ensures Valid() && nodes == old(nodes)
      ensures nextEdgeId == old(nextEdgeId) + |pools.order|
      ensures ListsNewIds(edgeOrder, old(edgeOrder), old(nextEdgeId), |pools.order|)
      ensures edges == NewEdges(old(edges), old(nextEdgeId), pools, |pools.order|)
      ensures edgeAttrs == NewAttrs(old(edgeAttrs), old(nextEdgeId), Summaries(pools, target))
    {
      for i := 0 to |pools.order|
        invariant Valid() && nodes == old(nodes)
        invariant Added(pools, target, i, old(edgeOrder), old(edges), old(edgeAttrs), old(nextEdgeId))
      {
        AddPoolEdge(pools, target, i, old(edgeOrder), old(edges), old(edgeAttrs), old(nextEdgeId));
      }
      TakeAll(Summaries(pools, target));
    }

    /**
     * The state after the edges of the first `n` keys have been added to a
     * network whose edges were `edges0`, listed as `order0`, with the
     * attributes `attrs0` and the next id `next0`.
     */
    ghost predicate Added(pools: Pools, target: string, n: int, order0: seq<int>, edges0: map<int, Edge>,
                          attrs0: map<int, map<string, AttrValue>>, next0: int)
      requires Ready(pools) && 0 <= n <= |pools.order|
      reads this
    {
      && nextEdgeId == next0 + n
      && ListsNewIds(edgeOrder, order0, next0, n)
      && edges == NewEdges(edges0, next0, pools, n)
      && edgeAttrs == NewAttrs(attrs0, next0, Summaries(pools, target)[..n])
    }

    /** One pass of that loop: the edge of the `i`-th key, numbered after those of the keys before it. */
    method AddPoolEdge(pools: Pools, target: string, i: int,
                       ghost order0: seq<int>, ghost edges0: map<int, Edge>,
                       ghost attrs0: map<int, map<string, AttrValue>>, ghost next0: int)
      requires Valid() && Ready(pools) && 0 <= i < |pools.order|
      requires Added(pools, target, i, order0, edges0, attrs0, next0)
      modifies this
      ensures Valid() && nodes == old(nodes)
      ensures Added(pools, target, i + 1, order0, edges0, attrs0, next0)
    {
      var key := pools.order[i];
      var ends := ParseKey(key).value;
      var id := AddSummaryEdge(ends.0, ends.1, pools.lists[key], target);
      NewEdgesStep(edges0, next0, pools, i, id);
      NewAttrsStep(attrs0, next0, Summaries(pools, target), i, id);
    }
  }

  // ---------------------------------------------------------------------
  // What a new edge means

  lemma {:induction false} PreparedFromPool(pool: seq<Stmt>, i: int)
    requires 0 <= i < |Prepared(pool)|
    ensures exists j :: (0 <= j < |pool| && pool[j].sourceNodeId == Prepared(pool)[i].sourceNodeId
      && pool[j].targetNodeId == Prepared(pool)[i].targetNodeId && pool[j].isReversed == Prepared(pool)[i].isReversed)
  {
    var u := UniqueByHash(pool);
    var s := StripPeriods(u);
    var m := Merged(s);
    MergedShape(s);
    var g := StmtsWith(s, m[i].english);
    StmtsWithMeans(s, m[i].english);
    assert g[0] in g;
    var k :| 0 <= k < |s| && s[k] == g[0];
    UniqueByHashProperties(pool);
    assert u[k] in u;
    var j :| 0 <= j < |pool| && pool[j] == u[k];
  }

  /** Every merged statement of a pool runs along the key's pair, forward unless it is reversed. */
  lemma PreparedOriented(p: Pools, lookup: map<string, int>, k: string)
    requires WellFormed(p, lookup) && k in p.lists
    ensures ParseKey(k).Some?
    ensures var (lo, hi) := ParseKey(k).value;
      var m := Prepared(p.lists[k]);
      && lo <= hi
      && forall i :: 0 <= i < |m| ==>
           && (!m[i].isReversed <==> m[i].sourceNodeId == lo && m[i].targetNodeId == hi)
           && (m[i].isReversed <==> m[i].sourceNodeId == hi && m[i].targetNodeId == lo && lo < hi)
  {
    var pool := p.lists[k];
    PoolKeyOrientation(p, lookup, k, pool[0]);
    var (lo, hi) := ParseKey(k).value;
    var m := Prepared(pool);
    forall i | 0 <= i < |m|
      ensures (!m[i].isReversed <==> m[i].sourceNodeId == lo && m[i].targetNodeId == hi)
      ensures (m[i].isReversed <==> m[i].sourceNodeId == hi && m[i].targetNodeId == lo && lo < hi)
    {
      PreparedFromPool(pool, i);
      var j :| 0 <= j < |pool| && pool[j].sourceNodeId == m[i].sourceNodeId
        && pool[j].targetNodeId == m[i].targetNodeId && pool[j].isReversed == m[i].isReversed;
      PoolKeyOrientation(p, lookup, k, pool[j]);
    }
  }

  /**
   * A new edge runs from the lower node id of its pair to the higher. It is
   * directed exactly when some merged statement of a directional type has
   * the edge's source as subject and its target as object, and reverse
   * directed exactly when one runs from the target to a different source.
   */
  lemma EdgeDirection(p: Pools, lookup: map<string, int>, k: string, target: string)
    requires WellFormed(p, lookup) && k in p.lists
    ensures ParseKey(k).Some?
    ensures var (lo, hi) := ParseKey(k).value;
      var m := Prepared(p.lists[k]);
      && lo <= hi
      && (SummaryOf(target, p.lists[k]).directed <==>
            exists i :: 0 <= i < |m| && Directional(m[i]) && m[i].sourceNodeId == lo && m[i].targetNodeId == hi)
      && (SummaryOf(target, p.lists[k]).reverseDirected <==>
            exists i :: 0 <= i < |m| && Directional(m[i]) && m[i].sourceNodeId == hi && m[i].targetNodeId == lo && lo < hi)
  {
    PreparedOriented(p, lookup, k);
    SummaryDirections(target, p.lists[k]);
  }
}
