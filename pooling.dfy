/**
 * The first half of `annotate_network`: every record of the payload is
 * filtered, its statements are tagged with the record's two nodes, and
 * they are pooled under the canonical key of the node pair, so that both
 * orientations of a pair end up on one edge.
 */
module Pooling {
  import opened Wrappers
  import opened Text
  import opened Evidence
  import opened Filters

  // ---------------------------------------------------------------------
  // _get_source_target_key and the key's parse in annotate_network

  /**
   * `_get_source_target_key`: `"<low id>_<high id>"`, and whether the
   * target id came first.
   */
  function PairKey(src: int, tgt: int): (r: (string, bool))
    ensures r.1 <==> tgt < src
    ensures '_' in r.0
  {
    if src <= tgt then (IntToString(src) + "_" + IntToString(tgt), false)
    else (IntToString(tgt) + "_" + IntToString(src), true)
  }

  /** `int(key.split('_')[0])`, `int(key.split('_')[1])`; `None` where Python raises. */
  function ParseKey(key: string): Option<(int, int)> {
    var parts := SplitOn(key, '_');
    if |parts| < 2 then None
    else
      match (ParseInt(parts[0]), ParseInt(parts[1]))
      case (Some(a), Some(b)) => Some((a, b))
      case _ => None
  }

  /** Parsing a pair key gives back the two ids, lower first. */
  lemma KeyRoundTrip(src: int, tgt: int)
    ensures ParseKey(PairKey(src, tgt).0) == Some(if src <= tgt then (src, tgt) else (tgt, src))
  {
    var lo, hi := if src <= tgt then src else tgt, if src <= tgt then tgt else src;
    assert PairKey(src, tgt).0 == IntToString(lo) + ['_'] + IntToString(hi);
    SplitOnPair(IntToString(lo), IntToString(hi), '_');
    IntRoundTrip(lo);
    IntRoundTrip(hi);
  }

  /** Two directed pairs share a key exactly when they join the same two nodes. */
  lemma SameKeySamePair(a: int, b: int, c: int, d: int)
    ensures PairKey(a, b).0 == PairKey(c, d).0 <==> (a == c && b == d) || (a == d && b == c)
  {
    if PairKey(a, b).0 == PairKey(c, d).0 {
      KeyRoundTrip(a, b);
      KeyRoundTrip(c, d);
    }
  }

  // ---------------------------------------------------------------------
  // Tagging and pooling

  /** A statement with the tags `annotate_network` writes into it. */
  function TagStmt(st: Stmt, srcName: string, srcId: int, tgtName: string, tgtId: int): Stmt {
    st.(sourceNode := srcName, sourceNodeId := srcId, targetNode := tgtName, targetNodeId := tgtId,
        isReversed := PairKey(srcId, tgtId).1)
  }

  function TagEntries(es: seq<Entry>, srcName: string, srcId: int, tgtName: string, tgtId: int): seq<Stmt> {
    if es == [] then []
    else TagEntries(es[..|es| - 1], srcName, srcId, tgtName, tgtId) + [TagStmt(es[|es| - 1].stmt, srcName, srcId, tgtName, tgtId)]
  }

  /** The `stmt_hash` dictionary of `annotate_network`: its keys in insertion order and its lists. */
  datatype Pools = Pools(order: seq<string>, lists: map<string, seq<Stmt>>)

  /** `stmt_hash[key].append(st)`, creating the list when the key is new. */
  function Append(p: Pools, key: string, st: Stmt): Pools {
    if key in p.lists then Pools(p.order, p.lists[key := p.lists[key] + [st]])
    else Pools(p.order + [key], p.lists[key := [st]])
  }

  function AppendAll(p: Pools, key: string, sts: seq<Stmt>): Pools {
    if sts == [] then p else Append(AppendAll(p, key, sts[..|sts| - 1]), key, sts[|sts| - 1])
  }

  /** Every record names at least its two entities. */
  predicate Paired(records: seq<EdgeEvidence>) {
    forall i :: 0 <= i < |records| ==> |records[i].names| >= 2
  }

  /**
   * What one record adds: its surviving statements, tagged, with the key
   * of its node pair; `None` when either entity is not a node of the network.
   */
  function RecordPool(fs: seq<Filter>, lookup: map<string, int>, rec: EdgeEvidence): Option<(string, seq<Stmt>)>
    requires |rec.names| >= 2
  {
    var src, tgt := rec.names[0], rec.names[1];
    if src !in lookup || tgt !in lookup then None
    else
      Some((PairKey(lookup[src], lookup[tgt]).0,
            TagEntries(Chain(fs, rec).stmts, src, lookup[src], tgt, lookup[tgt])))
  }

  /** The dictionary after all of `records` has been pooled. */
  function Pooled(fs: seq<Filter>, lookup: map<string, int>, records: seq<EdgeEvidence>): Pools
    requires Paired(records)
  {
    if records == [] then Pools([], map[])
    else
      var p := Pooled(fs, lookup, records[..|records| - 1]);
      match RecordPool(fs, lookup, records[|records| - 1])
      case None => p
      case Some((key, sts)) => AppendAll(p, key, sts)
  }

  /** The pooling loop of `annotate_network`. */
  method PoolStatements(fs: seq<Filter>, lookup: map<string, int>, records: seq<EdgeEvidence>) returns (pools: Pools)
    requires Paired(records)
    requires forall i :: 0 <= i < |records| ==> ChainAccepts(fs, records[i])
    ensures pools == Pooled(fs, lookup, records)
  {
    pools := Pools([], map[]);
    for i := 0 to |records|
      invariant Paired(records[..i])
      invariant pools == Pooled(fs, lookup, records[..i])
    {
      PooledStep(fs, lookup, records, i);
      var filtered := FilterStatements(fs, records[i]);
      ChainKeeps(fs, records[i]);
      var srcName, tgtName := filtered.names[0], filtered.names[1];
      if srcName in lookup && tgtName in lookup {
        pools := AppendTagged(pools, filtered.stmts, srcName, lookup[srcName], tgtName, lookup[tgtName]);
      }
    }
    assert records[..|records|] == records;
  }

  /** The inner loop of the pooling: one record's statements, tagged, appended under its pair's key. */
  method AppendTagged(p: Pools, es: seq<Entry>, srcName: string, srcId: int, tgtName: string, tgtId: int)
    returns (pools: Pools)
    ensures pools == AppendAll(p, PairKey(srcId, tgtId).0, TagEntries(es, srcName, srcId, tgtName, tgtId))
  {
    pools := p;
    var key := PairKey(srcId, tgtId).0;
    for j := 0 to |es|
      invariant pools == AppendAll(p, key, TagEntries(es[..j], srcName, srcId, tgtName, tgtId))
    {
      AppendTaggedStep(p, key, es, j, srcName, srcId, tgtName, tgtId);
      pools := Append(pools, key, TagStmt(es[j].stmt, srcName, srcId, tgtName, tgtId));
    }
    assert es[..|es|] == es;
  }

  /** One more entry: its tagged statement is appended after those of the entries before it. */
  lemma AppendTaggedStep(p: Pools, key: string, es: seq<Entry>, j: int, srcName: string, srcId: int, tgtName: string, tgtId: int)
    requires 0 <= j < |es|
    ensures AppendAll(p, key, TagEntries(es[..j + 1], srcName, srcId, tgtName, tgtId))
      == Append(AppendAll(p, key, TagEntries(es[..j], srcName, srcId, tgtName, tgtId)), key, TagStmt(es[j].stmt, srcName, srcId, tgtName, tgtId))
  {
    assert es[..j + 1][..j] == es[..j];
  }

  // ---------------------------------------------------------------------
  // What the pools hold

  /** A statement tagged with the lookup's ids for its two names. */
  predicate TaggedBy(st: Stmt, lookup: map<string, int>) {
    && st.sourceNode in lookup && lookup[st.sourceNode] == st.sourceNodeId
    && st.targetNode in lookup && lookup[st.targetNode] == st.targetNodeId
    && st.isReversed == PairKey(st.sourceNodeId, st.targetNodeId).1
  }

  /** The keys are listed once each, in insertion order. */
  ghost predicate KeysListed(p: Pools) {
    && (forall i, j :: 0 <= i < j < |p.order| ==> p.order[i] != p.order[j])
    && (forall k :: k in p.lists <==> k in p.order)
  }

  /** Every statement is tagged by the lookup and sits under its own pair's key. */
  ghost predicate ListsTagged(p: Pools, lookup: map<string, int>) {
    forall k, st :: k in p.lists && st in p.lists[k] ==>
      TaggedBy(st, lookup) && PairKey(st.sourceNodeId, st.targetNodeId).0 == k
  }

  /** Keys listed once each, no list empty, every statement under its own pair's key. */
  ghost predicate WellFormed(p: Pools, lookup: map<string, int>) {
    && KeysListed(p)
    && (forall k :: k in p.lists ==> p.lists[k] != [])
    && ListsTagged(p, lookup)
  }

  lemma AppendKeysListed(p: Pools, key: string, st: Stmt)
    requires KeysListed(p)
    ensures KeysListed(Append(p, key, st))
  {
    var q := Append(p, key, st);
    if key !in p.lists {
      assert q.order == p.order + [key];
      forall i, j | 0 <= i < j < |q.order| ensures q.order[i] != q.order[j] {
        if j == |p.order| {
          assert p.order[i] in p.lists;
        } else {
          assert q.order[i] == p.order[i] && q.order[j] == p.order[j];
        }
      }
      forall k ensures k in q.lists <==> k in q.order {
        assert k in q.order <==> k in p.order || k == key;
      }
    }
  }

  lemma AppendListsTagged(p: Pools, lookup: map<string, int>, key: string, st: Stmt)
    requires ListsTagged(p, lookup)
    requires TaggedBy(st, lookup) && PairKey(st.sourceNodeId, st.targetNodeId).0 == key
    ensures ListsTagged(Append(p, key, st), lookup)
  {
    var q := Append(p, key, st);
    forall k, x | k in q.lists && x in q.lists[k]
      ensures TaggedBy(x, lookup) && PairKey(x.sourceNodeId, x.targetNodeId).0 == k
    {
      AppendedTagged(p, lookup, key, st, k, x);
    }
  }

  /** A statement of a list after `Append` is tagged and sits under its own pair's key. */
  lemma AppendedTagged(p: Pools, lookup: map<string, int>, key: string, st: Stmt, k: string, x: Stmt)
    requires ListsTagged(p, lookup)
    requires TaggedBy(st, lookup) && PairKey(st.sourceNodeId, st.targetNodeId).0 == key
    requires k in Append(p, key, st).lists && x in Append(p, key, st).lists[k]
    ensures TaggedBy(x, lookup) && PairKey(x.sourceNodeId, x.targetNodeId).0 == k
  {
    AppendMembers(p, key, st, k, x);
    if k != key || x != st {
      assert k in p.lists && x in p.lists[k];
    }
  }

  /** A list after `Append` holds what it held before, and the appended statement under its key. */
  lemma AppendMembers(p: Pools, key: string, st: Stmt, k: string, x: Stmt)
    requires k in Append(p, key, st).lists && x in Append(p, key, st).lists[k]
    ensures (k == key && x == st) || (k in p.lists && x in p.lists[k])
  {
    if k == key && key in p.lists && x != st {
      assert Append(p, key, st).lists[k] == p.lists[key] + [st];
    }
  }

  lemma AppendWellFormed(p: Pools, lookup: map<string, int>, key: string, st: Stmt)
    requires WellFormed(p, lookup)
    requires TaggedBy(st, lookup) && PairKey(st.sourceNodeId, st.targetNodeId).0 == key
    ensures WellFormed(Append(p, key, st), lookup)
  {
    AppendKeysListed(p, key, st);
    AppendListsTagged(p, lookup, key, st);
    var q := Append(p, key, st);
    forall k | k in q.lists ensures q.lists[k] != [] {
      if k != key {
        assert q.lists[k] == p.lists[k];
      }
    }
  }

  lemma {:induction false} AppendAllWellFormed(p: Pools, lookup: map<string, int>, key: string, sts: seq<Stmt>)
    requires WellFormed(p, lookup)
    requires forall i :: 0 <= i < |sts| ==> TaggedBy(sts[i], lookup) && PairKey(sts[i].sourceNodeId, sts[i].targetNodeId).0 == key
    ensures WellFormed(AppendAll(p, key, sts), lookup)
  {
    if sts != [] {
      var init := sts[..|sts| - 1];
      forall i | 0 <= i < |init|
        ensures TaggedBy(init[i], lookup) && PairKey(init[i].sourceNodeId, init[i].targetNodeId).0 == key
      {
        assert init[i] == sts[i];
      }
      AppendAllWellFormed(p, lookup, key, init);
      AppendWellFormed(AppendAll(p, key, init), lookup, key, sts[|sts| - 1]);
    }
  }

  lemma {:induction false} TagEntriesTagged(es: seq<Entry>, srcName: string, tgtName: string, lookup: map<string, int>)
    requires srcName in lookup && tgtName in lookup
    ensures var sts := TagEntries(es, srcName, lookup[srcName], tgtName, lookup[tgtName]);
      && |sts| == |es|
      && forall i :: 0 <= i < |sts| ==>
           && TaggedBy(sts[i], lookup)
           && PairKey(sts[i].sourceNodeId, sts[i].targetNodeId).0 == PairKey(lookup[srcName], lookup[tgtName]).0
  {
    if es != [] {
      TagEntriesTagged(es[..|es| - 1], srcName, tgtName, lookup);
    }
  }

  /** Pooling keeps the dictionary well formed. */
  lemma {:induction false} PooledWellFormed(fs: seq<Filter>, lookup: map<string, int>, records: seq<EdgeEvidence>)
    requires Paired(records)
    ensures WellFormed(Pooled(fs, lookup, records), lookup)
  {
    if records != [] {
      var init, rec := records[..|records| - 1], records[|records| - 1];
      assert Paired(init) by {
        forall i | 0 <= i < |init| ensures |init[i].names| >= 2 {
          assert init[i] == records[i];
        }
      }
      PooledWellFormed(fs, lookup, init);
      if rec.names[0] in lookup && rec.names[1] in lookup {
        TagEntriesTagged(Chain(fs, rec).stmts, rec.names[0], rec.names[1], lookup);
        var r := RecordPool(fs, lookup, rec);
        AppendAllWellFormed(Pooled(fs, lookup, init), lookup, r.value.0, r.value.1);
      }
    }
  }

  lemma AppendKeeps(p: Pools, key: string, st: Stmt, k: string, x: Stmt)
    requires k in p.lists && x in p.lists[k]
    ensures k in Append(p, key, st).lists && x in Append(p, key, st).lists[k]
  {
  }

  lemma {:induction false} AppendAllKeeps(p: Pools, key: string, sts: seq<Stmt>, k: string, x: Stmt)
    requires k in p.lists && x in p.lists[k]
    ensures k in AppendAll(p, key, sts).lists && x in AppendAll(p, key, sts).lists[k]
  {
    if sts != [] {
      AppendAllKeeps(p, key, sts[..|sts| - 1], k, x);
      AppendKeeps(AppendAll(p, key, sts[..|sts| - 1]), key, sts[|sts| - 1], k, x);
    }
  }

  lemma {:induction false} AppendAllAdds(p: Pools, key: string, sts: seq<Stmt>, j: int)
    requires 0 <= j < |sts|
    ensures key in AppendAll(p, key, sts).lists && sts[j] in AppendAll(p, key, sts).lists[key]
  {
    var init := sts[..|sts| - 1];
    if j < |init| {
      assert init[j] == sts[j];
      AppendAllAdds(p, key, init, j);
      AppendKeeps(AppendAll(p, key, init), key, sts[|sts| - 1], key, sts[j]);
    }
  }

  /** One more record: the pools grow by what the record adds. */
  lemma PooledStep(fs: seq<Filter>, lookup: map<string, int>, records: seq<EdgeEvidence>, n: int)
    requires Paired(records) && 0 <= n < |records|
    ensures Paired(records[..n]) && Paired(records[..n + 1])
    ensures var r := RecordPool(fs, lookup, records[n]);
      Pooled(fs, lookup, records[..n + 1])
        == if r.None? then Pooled(fs, lookup, records[..n]) else AppendAll(Pooled(fs, lookup, records[..n]), r.value.0, r.value.1)
  {
    var pre := records[..n + 1];
    assert pre[..n] == records[..n];
    assert forall i :: 0 <= i < n + 1 ==> pre[i] == records[i];
  }

  lemma {:induction false} PooledKeeps(fs: seq<Filter>, lookup: map<string, int>, records: seq<EdgeEvidence>, n: int, k: string, x: Stmt)
    requires Paired(records) && 0 <= n <= |records|
    requires Paired(records[..n]) && k in Pooled(fs, lookup, records[..n]).lists && x in Pooled(fs, lookup, records[..n]).lists[k]
    ensures k in Pooled(fs, lookup, records).lists && x in Pooled(fs, lookup, records).lists[k]
    decreases |records| - n
  {
    if n < |records| {
      PooledStep(fs, lookup, records, n);
      var r := RecordPool(fs, lookup, records[n]);
      if r.Some? {
        AppendAllKeeps(Pooled(fs, lookup, records[..n]), r.value.0, r.value.1, k, x);
      }
      PooledKeeps(fs, lookup, records, n + 1, k, x);
    } else {
      assert records[..n] == records;
    }
  }

  /**
   * Nothing is lost: every surviving statement of every record whose two
   * entities are nodes of the network lands, tagged, in the list of its
   * pair's key.
   */
  lemma PooledComplete(fs: seq<Filter>, lookup: map<string, int>, records: seq<EdgeEvidence>, r: int, j: int)
    requires Paired(records) && 0 <= r < |records|
    requires RecordPool(fs, lookup, records[r]).Some? && 0 <= j < |RecordPool(fs, lookup, records[r]).value.1|
    ensures var (key, sts) := RecordPool(fs, lookup, records[r]).value;
      key in Pooled(fs, lookup, records).lists && sts[j] in Pooled(fs, lookup, records).lists[key]
  {
    var (key, sts) := RecordPool(fs, lookup, records[r]).value;
    PooledStep(fs, lookup, records, r);
    AppendAllAdds(Pooled(fs, lookup, records[..r]), key, sts, j);
    PooledKeeps(fs, lookup, records, r + 1, key, sts[j]);
  }

  /**
   * Every key of the pools parses back into the two node ids of its
   * statements, lower id first, and a statement is reversed exactly when
   * its subject is the higher id.
   */
  lemma PoolKeyOrientation(p: Pools, lookup: map<string, int>, k: string, st: Stmt)
    requires WellFormed(p, lookup) && k in p.lists && st in p.lists[k]
    ensures ParseKey(k).Some?
    ensures var (lo, hi) := ParseKey(k).value;
      && lo <= hi
      && (!st.isReversed ==> st.sourceNodeId == lo && st.targetNodeId == hi)
      && (st.isReversed ==> st.sourceNodeId == hi && st.targetNodeId == lo)
  {
    KeyRoundTrip(st.sourceNodeId, st.targetNodeId);
  }
}
