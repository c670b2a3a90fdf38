/**
 * The two-level ordering of an edge's evidence lines
 * (`_sort_evidence_tuple_list`): lines are grouped by their leading
 * token, each group is sorted by evidence count, highest first, and the
 * groups are ordered by their highest count. Python's `list.sort(...,
 * reverse=True)` is stable, so equal counts keep their first-seen order at
 * both levels; `SortDesc` below is that sort.
 */
module Ordering {
  import opened Text
  import opened Seqs

  // ---------------------------------------------------------------------
  // A stable sort, highest key first

  /** `x` placed after every element of `t` whose key is at least its own. */
  function InsertDesc<T>(t: seq<T>, x: T, key: T -> int): seq<T> {
    if t == [] then [x]
    else if key(t[|t| - 1]) >= key(x) then t + [x]
    else InsertDesc(t[..|t| - 1], x, key) + [t[|t| - 1]]
  }

  /** `s.sort(key=key, reverse=True)`: descending and stable. */
  function SortDesc<T>(s: seq<T>, key: T -> int): seq<T> {
    if s == [] then [] else InsertDesc(SortDesc(s[..|s| - 1], key), s[|s| - 1], key)
  }

  predicate SortedDesc<T>(s: seq<T>, key: T -> int) {
    forall i, j :: 0 <= i < j < |s| ==> key(s[i]) >= key(s[j])
  }

  /** The elements of `s` whose key is `k`, in order. */
  function WithKey<T>(s: seq<T>, key: T -> int, k: int): seq<T> {
    if s == [] then []
    else WithKey(s[..|s| - 1], key, k) + (if key(s[|s| - 1]) == k then [s[|s| - 1]] else [])
  }

  lemma {:induction false} InsertDescPermutes<T>(t: seq<T>, x: T, key: T -> int)
    ensures multiset(InsertDesc(t, x, key)) == multiset(t) + multiset{x}
    ensures |InsertDesc(t, x, key)| == |t| + 1
  {
    if t != [] && key(t[|t| - 1]) < key(x) {
      InsertDescPermutes(t[..|t| - 1], x, key);
      InitLast(t);
    }
  }

  lemma {:induction false} InsertDescSorted<T>(t: seq<T>, x: T, key: T -> int)
    requires SortedDesc(t, key)
    ensures SortedDesc(InsertDesc(t, x, key), key)
  {
    if t != [] && key(t[|t| - 1]) < key(x) {
      var init, last := t[..|t| - 1], t[|t| - 1];
      InsertDescSorted(init, x, key);
      var r := InsertDesc(init, x, key);
      InsertDescPermutes(init, x, key);
      forall y | y in r ensures key(y) >= key(last) {
        assert y in multiset(r);
        if y != x {
          assert y in multiset(init);
          var i :| 0 <= i < |init| && init[i] == y;
          assert t[i] == y;
        }
      }
      forall i, j | 0 <= i < j < |r + [last]| ensures key((r + [last])[i]) >= key((r + [last])[j]) {
        if j == |r| {
          assert (r + [last])[i] == r[i] && r[i] in r;
        } else {
          assert (r + [last])[i] == r[i] && (r + [last])[j] == r[j];
        }
      }
    }
  }

  lemma {:induction false} SortDescSortedPermutation<T>(s: seq<T>, key: T -> int)
    ensures SortedDesc(SortDesc(s, key), key)
    ensures multiset(SortDesc(s, key)) == multiset(s)
    ensures |SortDesc(s, key)| == |s|
  {
    if s != [] {
      var init := s[..|s| - 1];
      SortDescSortedPermutation(init, key);
      InsertDescSorted(SortDesc(init, key), s[|s| - 1], key);
      InsertDescPermutes(SortDesc(init, key), s[|s| - 1], key);
      InitLast(s);
    }
  }

  lemma {:induction false} WithKeyConcat<T>(a: seq<T>, b: seq<T>, key: T -> int, k: int)
    ensures WithKey(a + b, key, k) == WithKey(a, key, k) + WithKey(b, key, k)
  {
    if b != [] {
      WithKeyConcat(a, b[..|b| - 1], key, k);
      assert (a + b)[..|a + b| - 1] == a + b[..|b| - 1];
    } else {
      assert a + b == a;
    }
  }

  lemma {:induction false} InsertDescStable<T>(t: seq<T>, x: T, key: T -> int, k: int)
    ensures WithKey(InsertDesc(t, x, key), key, k) == WithKey(t, key, k) + (if key(x) == k then [x] else [])
  {
    if t == [] {
      assert WithKey([x], key, k) == WithKey([], key, k) + (if key(x) == k then [x] else []);
    } else {
      var init, last := t[..|t| - 1], t[|t| - 1];
      if key(last) >= key(x) {
        WithKeyConcat(t, [x], key, k);
        assert WithKey([x], key, k) == WithKey([], key, k) + (if key(x) == k then [x] else []);
      } else {
        InsertDescStable(init, x, key, k);
        var r := InsertDesc(init, x, key);
        WithKeyConcat(r, [last], key, k);
        assert WithKey([last], key, k) == WithKey([], key, k) + (if key(last) == k then [last] else []);
      }
    }
  }

  /**
   * The sort is stable: the elements that share a key come out in the
   * order they went in.
   */
  lemma {:induction false} SortDescStable<T>(s: seq<T>, key: T -> int, k: int)
    ensures WithKey(SortDesc(s, key), key, k) == WithKey(s, key, k)
  {
    if s != [] {
      SortDescStable(s[..|s| - 1], key, k);
      InsertDescStable(SortDesc(s[..|s| - 1], key), s[|s| - 1], key, k);
    }
  }

  // ---------------------------------------------------------------------
  // Evidence lines and their groups

  /** One `(text, evidence count)` tuple. */
  datatype Tagged = Tagged(text: string, count: nat)

  /** A value of `protein_dict`: its key and its list of tuples. */
  datatype Group = Group(key: string, items: seq<Tagged>)

  function CountOf(t: Tagged): int { t.count }

  /** The group's highest count: the count of its first tuple once sorted. */
  function MaxOf(g: Group): int {
    if g.items == [] then 0 else g.items[0].count
  }

  function KeysOf(l: seq<Tagged>): seq<string> {
    seq(|l|, i requires 0 <= i < |l| => GroupKey(l[i].text))
  }

  function GroupKeys(gs: seq<Group>): seq<string> {
    seq(|gs|, i requires 0 <= i < |gs| => gs[i].key)
  }

  /** The distinct elements of `ks` in order of first appearance. */
  function FirstSeen(ks: seq<string>): seq<string> {
    if ks == [] then []
    else
      var prev := FirstSeen(ks[..|ks| - 1]);
      if ks[|ks| - 1] in prev then prev else prev + [ks[|ks| - 1]]
  }

  /** The tuples of `l` whose group key is `k`, in order. */
  function ItemsWithKey(l: seq<Tagged>, k: string): seq<Tagged> {
    if l == [] then []
    else ItemsWithKey(l[..|l| - 1], k) + (if GroupKey(l[|l| - 1].text) == k then [l[|l| - 1]] else [])
  }

  /** All the tuples of the groups, group after group. */
  function AllItems(gs: seq<Group>): seq<Tagged> {
    if gs == [] then [] else AllItems(gs[..|gs| - 1]) + gs[|gs| - 1].items
  }

  function TextsOf(ts: seq<Tagged>): seq<string> {
    seq(|ts|, i requires 0 <= i < |ts| => ts[i].text)
  }

  /** The position of the group keyed `k`, or `|gs|` when there is none. */
  function FindGroup(gs: seq<Group>, k: string): (i: nat)
    ensures i <= |gs|
    ensures i < |gs| ==> gs[i].key == k
    ensures forall j :: 0 <= j < i ==> gs[j].key != k
  {
    if gs == [] then 0
    else if gs[0].key == k then 0
    else 1 + FindGroup(gs[1..], k)
  }

  /** `protein_dict[protein].append(a_tuple)`, creating the list when the key is new. */
  function AddToGroups(gs: seq<Group>, x: Tagged): seq<Group> {
    var k := GroupKey(x.text);
    var i := FindGroup(gs, k);
    if i < |gs| then gs[i := Group(k, gs[i].items + [x])] else gs + [Group(k, [x])]
  }

  /** `protein_dict` after all of `l` has been added. */
  function Grouped(l: seq<Tagged>): seq<Group> {
    if l == [] then [] else AddToGroups(Grouped(l[..|l| - 1]), l[|l| - 1])
  }

  /** A group with its tuples sorted by count, highest first. */
  function SortedBlock(g: Group): Group {
    Group(g.key, SortDesc(g.items, CountOf))
  }

  function Blocks(gs: seq<Group>): seq<Group> {
    seq(|gs|, i requires 0 <= i < |gs| => SortedBlock(gs[i]))
  }

  /** The sorted groups, ordered by their highest count. */
  function OrderedBlocks(l: seq<Tagged>): seq<Group> {
    SortDesc(Blocks(Grouped(l)), MaxOf)
  }

  /** The list `_sort_evidence_tuple_list` returns. */
  function EvidenceOrder(l: seq<Tagged>): seq<string> {
    TextsOf(AllItems(OrderedBlocks(l)))
  }

  // ---------------------------------------------------------------------
  // The code

  /** `_sort_evidence_tuple_list`. */
  method SortEvidenceTupleList(l: seq<Tagged>) returns (finalList: seq<string>)
    ensures finalList == EvidenceOrder(l)
  {
    var proteinGroups: seq<Group> := [];
    for i := 0 to |l|
      invariant proteinGroups == Grouped(l[..i])
    {
      assert l[..i + 1][..i] == l[..i];
      proteinGroups := AddToGroups(proteinGroups, l[i]);
    }
    assert l[..|l|] == l;
    var sortedGroups := SortGroups(proteinGroups);
    var ordered := SortDesc(sortedGroups, MaxOf);
    finalList := FlattenTexts(ordered);
  }

  /** The second loop of `_sort_evidence_tuple_list`: each group's tuples sorted by count. */
  method SortGroups(proteinGroups: seq<Group>) returns (sortedGroups: seq<Group>)
    ensures sortedGroups == Blocks(proteinGroups)
  {
    sortedGroups := [];
    for i := 0 to |proteinGroups|
      invariant sortedGroups == Blocks(proteinGroups[..i])
    {
      assert Blocks(proteinGroups[..i + 1]) == Blocks(proteinGroups[..i]) + [SortedBlock(proteinGroups[i])];
      sortedGroups := sortedGroups + [SortedBlock(proteinGroups[i])];
    }
    assert proteinGroups[..|proteinGroups|] == proteinGroups;
  }

  /** The last loop of `_sort_evidence_tuple_list`: the texts of the groups, group after group. */
  method FlattenTexts(ordered: seq<Group>) returns (finalList: seq<string>)
    ensures finalList == TextsOf(AllItems(ordered))
  {
    var flat: seq<Tagged> := [];
    finalList := [];
    for i := 0 to |ordered|
      invariant flat == AllItems(ordered[..i])
      invariant finalList == TextsOf(flat)
    {
      assert ordered[..i + 1][..i] == ordered[..i];
      TextsOfConcat(flat, ordered[i].items);
      flat := flat + ordered[i].items;
      finalList := finalList + TextsOf(ordered[i].items);
    }
    assert ordered[..|ordered|] == ordered;
  }

  lemma TextsOfConcat(a: seq<Tagged>, b: seq<Tagged>)
    ensures TextsOf(a + b) == TextsOf(a) + TextsOf(b)
  {
  }

  // ---------------------------------------------------------------------
  // What the groups are

  /** `gs` is `protein_dict` for `l`. */
  predicate GroupsOf(gs: seq<Group>, l: seq<Tagged>) {
    && GroupKeys(gs) == FirstSeen(KeysOf(l))
    && (forall i :: 0 <= i < |gs| ==> gs[i].items != [] && gs[i].items == ItemsWithKey(l, gs[i].key))
    && multiset(AllItems(gs)) == multiset(l)
  }

  lemma {:induction false} FirstSeenMembers(ks: seq<string>)
    ensures forall k :: k in FirstSeen(ks) <==> k in ks
    ensures forall i, j :: 0 <= i < j < |FirstSeen(ks)| ==> FirstSeen(ks)[i] != FirstSeen(ks)[j]
  {
    if ks != [] {
      FirstSeenMembers(ks[..|ks| - 1]);
      assert ks == ks[..|ks| - 1] + [ks[|ks| - 1]];
    }
  }

  lemma {:induction false} ItemsWithKeyAbsent(l: seq<Tagged>, k: string)
    requires k !in KeysOf(l)
    ensures ItemsWithKey(l, k) == []
  {
    if l != [] {
      var init := l[..|l| - 1];
      assert KeysOf(l) == KeysOf(init) + [GroupKey(l[|l| - 1].text)];
      ItemsWithKeyAbsent(init, k);
    }
  }

  lemma AllItemsReplaceLast(gs: seq<Group>, g: Group)
    requires gs != []
    ensures AllItems(gs[|gs| - 1 := g]) == AllItems(gs[..|gs| - 1]) + g.items
  {
    assert gs[|gs| - 1 := g][..|gs| - 1] == gs[..|gs| - 1];
  }

  lemma AllItemsReplaceInner(gs: seq<Group>, i: nat, g: Group)
    requires i < |gs| - 1
    ensures AllItems(gs[i := g]) == AllItems(gs[..|gs| - 1][i := g]) + gs[|gs| - 1].items
  {
    assert gs[i := g][..|gs| - 1] == gs[..|gs| - 1][i := g];
  }

  lemma {:induction false} AllItemsAppend(gs: seq<Group>, i: nat, x: Tagged)
    requires i < |gs|
    ensures multiset(AllItems(gs[i := Group(gs[i].key, gs[i].items + [x])])) == multiset(AllItems(gs)) + multiset{x}
  {
    var init := gs[..|gs| - 1];
    var g := Group(gs[i].key, gs[i].items + [x]);
    if i == |gs| - 1 {
      AllItemsReplaceLast(gs, g);
    } else {
      AllItemsReplaceInner(gs, i, g);
      AllItemsAppend(init, i, x);
    }
  }

  /** The grouping loop builds exactly `protein_dict`. */
  lemma {:induction false} GroupedIsGroupsOf(l: seq<Tagged>)
    ensures GroupsOf(Grouped(l), l)
  {
    if l != [] {
      var init, x := l[..|l| - 1], l[|l| - 1];
      GroupedIsGroupsOf(init);
      assert l == init + [x];
      var gs := Grouped(init);
      if FindGroup(gs, GroupKey(x.text)) < |gs| {
        AddToExistingGroup(gs, init, x);
      } else {
        AddNewGroup(gs, init, x);
      }
    }
  }

  lemma ItemsWithKeySnoc(l: seq<Tagged>, x: Tagged, k: string)
    ensures ItemsWithKey(l + [x], k) == ItemsWithKey(l, k) + (if GroupKey(x.text) == k then [x] else [])
  {
    assert (l + [x])[..|l|] == l;
  }

  lemma {:induction false} KnownKeyAdded(gs: seq<Group>, l: seq<Tagged>, x: Tagged, i: nat)
    requires GroupKeys(gs) == FirstSeen(KeysOf(l))
    requires i < |gs| && gs[i].key == GroupKey(x.text)
    ensures FirstSeen(KeysOf(l + [x])) == FirstSeen(KeysOf(l))
  {
    var k := GroupKey(x.text);
    var ks := KeysOf(l);
    assert KeysOf(l + [x]) == ks + [k];
    FirstSeenMembers(ks);
    assert GroupKeys(gs)[i] == k;
    assert (ks + [k])[..|ks|] == ks;
  }

  lemma {:induction false} GroupsKeysDistinct(gs: seq<Group>, l: seq<Tagged>)
    requires GroupKeys(gs) == FirstSeen(KeysOf(l))
    ensures KeysDistinct(gs)
  {
    FirstSeenMembers(KeysOf(l));
    forall i, j | 0 <= i < j < |gs| ensures gs[i].key != gs[j].key {
      assert GroupKeys(gs)[i] == gs[i].key && GroupKeys(gs)[j] == gs[j].key;
    }
  }

  lemma {:induction false} ExistingGroupItems(gs: seq<Group>, l: seq<Tagged>, x: Tagged, i: nat)
    requires KeysDistinct(gs)
    requires forall j :: 0 <= j < |gs| ==> gs[j].items != [] && gs[j].items == ItemsWithKey(l, gs[j].key)
    requires i < |gs| && gs[i].key == GroupKey(x.text)
    ensures var gs' := gs[i := Group(gs[i].key, gs[i].items + [x])];
      forall j :: 0 <= j < |gs'| ==> gs'[j].items != [] && gs'[j].items == ItemsWithKey(l + [x], gs'[j].key)
  {
    var gs' := gs[i := Group(gs[i].key, gs[i].items + [x])];
    forall j | 0 <= j < |gs'| ensures gs'[j].items != [] && gs'[j].items == ItemsWithKey(l + [x], gs'[j].key) {
      ItemsWithKeySnoc(l, x, gs'[j].key);
    }
  }

  lemma {:induction false} AddToExistingGroup(gs: seq<Group>, l: seq<Tagged>, x: Tagged)
    requires GroupsOf(gs, l)
    requires FindGroup(gs, GroupKey(x.text)) < |gs|
    ensures GroupsOf(AddToGroups(gs, x), l + [x])
  {
    var k := GroupKey(x.text);
    var i := FindGroup(gs, k);
    var g := Group(k, gs[i].items + [x]);
    var gs' := gs[i := g];
    assert AddToGroups(gs, x) == gs';
    KnownKeyAdded(gs, l, x, i);
    assert GroupKeys(gs') == GroupKeys(gs);
    AllItemsAppend(gs, i, x);
    GroupsKeysDistinct(gs, l);
    ExistingGroupItems(gs, l, x, i);
  }

  lemma {:induction false} AddNewGroup(gs: seq<Group>, l: seq<Tagged>, x: Tagged)
    requires GroupsOf(gs, l)
    requires FindGroup(gs, GroupKey(x.text)) == |gs|
    ensures GroupsOf(AddToGroups(gs, x), l + [x])
  {
    var k := GroupKey(x.text);
    var gs' := gs + [Group(k, [x])];
    assert AddToGroups(gs, x) == gs';
    NewKeyUnseen(gs, l, k);
    NewGroupKeys(gs, l, x);
    assert AllItems(gs') == AllItems(gs) + [x] by {
      assert gs'[..|gs|] == gs;
    }
    forall j | 0 <= j < |gs'| ensures gs'[j].items != [] && gs'[j].items == ItemsWithKey(l + [x], gs'[j].key) {
      ItemsWithKeySnoc(l, x, gs'[j].key);
      if j == |gs| {
        ItemsWithKeyAbsent(l, k);
      }
    }
  }

  /** A key no group has is the key of no tuple yet. */
  lemma NewKeyUnseen(gs: seq<Group>, l: seq<Tagged>, k: string)
    requires GroupKeys(gs) == FirstSeen(KeysOf(l))
    requires forall j :: 0 <= j < |gs| ==> gs[j].key != k
    ensures k !in KeysOf(l)
  {
    FirstSeenMembers(KeysOf(l));
    assert forall j :: 0 <= j < |gs| ==> GroupKeys(gs)[j] != k;
  }

  /** A tuple with an unseen key opens a new group at the end. */
  lemma NewGroupKeys(gs: seq<Group>, l: seq<Tagged>, x: Tagged)
    requires GroupKeys(gs) == FirstSeen(KeysOf(l))
    requires GroupKey(x.text) !in KeysOf(l)
    ensures GroupKeys(gs + [Group(GroupKey(x.text), [x])]) == FirstSeen(KeysOf(l + [x]))
  {
    var ks, k := KeysOf(l), GroupKey(x.text);
    assert KeysOf(l + [x]) == ks + [k];
    assert FirstSeen(ks + [k]) == FirstSeen(ks) + [k] by {
      FirstSeenMembers(ks);
      assert (ks + [k])[..|ks|] == ks;
    }
    assert GroupKeys(gs + [Group(k, [x])]) == GroupKeys(gs) + [k];
  }

  // ---------------------------------------------------------------------
  // What the ordering promises

  predicate KeysDistinct(gs: seq<Group>) {
    forall i, j :: 0 <= i < j < |gs| ==> gs[i].key != gs[j].key
  }

  lemma {:induction false} InsertDescDistinct(t: seq<Group>, x: Group)
    requires KeysDistinct(t)
    requires forall g :: g in t ==> g.key != x.key
    ensures KeysDistinct(InsertDesc(t, x, MaxOf))
  {
    if t != [] && MaxOf(t[|t| - 1]) < MaxOf(x) {
      var init, last := t[..|t| - 1], t[|t| - 1];
      InsertDescDistinct(init, x);
      var r := InsertDesc(init, x, MaxOf);
      InsertDescPermutes(init, x, MaxOf);
      forall y | y in r ensures y.key != last.key {
        assert y in multiset(r);
        if y != x {
          assert y in multiset(init);
          var i :| 0 <= i < |init| && init[i] == y;
          assert t[i] == y;
        }
      }
      SnocDistinct(r, last);
    } else if t != [] {
      SnocDistinct(t, x);
    }
  }

  /** A group whose key no group of `r` has can be appended to `r`. */
  lemma SnocDistinct(r: seq<Group>, g: Group)
    requires KeysDistinct(r)
    requires forall y :: y in r ==> y.key != g.key
    ensures KeysDistinct(r + [g])
  {
    forall i, j | 0 <= i < j < |r + [g]| ensures (r + [g])[i].key != (r + [g])[j].key {
      assert (r + [g])[i] == r[i];
      if j == |r| {
        assert r[i] in r;
      } else {
        assert (r + [g])[j] == r[j];
      }
    }
  }

  lemma {:induction false} SortDescDistinct(s: seq<Group>)
    requires KeysDistinct(s)
    ensures KeysDistinct(SortDesc(s, MaxOf))
  {
    if s != [] {
      var init, last := s[..|s| - 1], s[|s| - 1];
      SortDescDistinct(init);
      SortDescSortedPermutation(init, MaxOf);
      forall g | g in SortDesc(init, MaxOf) ensures g.key != last.key {
        assert g in multiset(SortDesc(init, MaxOf));
        var i :| 0 <= i < |init| && init[i] == g;
        assert s[i] == g;
      }
      InsertDescDistinct(SortDesc(init, MaxOf), last);
    }
  }

  lemma {:induction false} InsertDescAllItems(t: seq<Group>, x: Group)
    ensures multiset(AllItems(InsertDesc(t, x, MaxOf))) == multiset(AllItems(t)) + multiset(x.items)
  {
    if t != [] && MaxOf(t[|t| - 1]) < MaxOf(x) {
      InsertDescAllItems(t[..|t| - 1], x);
    } else if t != [] {
      assert AllItems(t + [x]) == AllItems(t) + x.items by {
        assert (t + [x])[..|t|] == t;
      }
    } else {
      assert AllItems([x]) == AllItems([]) + x.items;
    }
  }

  lemma {:induction false} SortDescAllItems(s: seq<Group>)
    ensures multiset(AllItems(SortDesc(s, MaxOf))) == multiset(AllItems(s))
  {
    if s != [] {
      SortDescAllItems(s[..|s| - 1]);
      InsertDescAllItems(SortDesc(s[..|s| - 1], MaxOf), s[|s| - 1]);
    }
  }

  lemma {:induction false} BlocksAllItems(gs: seq<Group>)
    ensures multiset(AllItems(Blocks(gs))) == multiset(AllItems(gs))
  {
    if gs != [] {
      var init := gs[..|gs| - 1];
      BlocksAllItems(init);
      assert Blocks(gs)[..|gs| - 1] == Blocks(init);
      SortDescSortedPermutation(gs[|gs| - 1].items, CountOf);
    }
  }

  /**
   * One block of the output: non-empty, sorted by count with its maximum
   * first, made of lines sharing its leading token, and holding exactly the
   * input lines with that token.
   */
  predicate GoodBlock(b: Group, l: seq<Tagged>) {
    && b.items != []
    && SortedDesc(b.items, CountOf)
    && (forall x :: x in b.items ==> GroupKey(x.text) == b.key && x.count <= MaxOf(b))
    && multiset(b.items) == multiset(ItemsWithKey(l, b.key))
  }

  lemma BlockIsGood(g: Group, l: seq<Tagged>)
    requires g.items != [] && g.items == ItemsWithKey(l, g.key)
    ensures GoodBlock(SortedBlock(g), l)
  {
    var b := SortedBlock(g);
    SortDescSortedPermutation(g.items, CountOf);
    ItemsWithKeyAllMatch(l, g.key);
    forall x | x in b.items ensures GroupKey(x.text) == b.key && x.count <= MaxOf(b) {
      assert x in multiset(b.items);
      assert x in g.items;
      var m :| 0 <= m < |b.items| && b.items[m] == x;
      if m > 0 {
        assert CountOf(b.items[0]) >= CountOf(b.items[m]);
      }
    }
  }

  /**
   * The blocks the output is made of: each is a good block; no two share a
   * key, so the lines that share a leading token are contiguous; the blocks
   * are in non-increasing order of their maximum; and between them they
   * hold exactly the input tuples, so the output is a permutation of the
   * input lines.
   */
  lemma EvidenceOrderShape(l: seq<Tagged>)
    ensures EvidenceOrder(l) == TextsOf(AllItems(OrderedBlocks(l)))
    ensures multiset(AllItems(OrderedBlocks(l))) == multiset(l)
    ensures KeysDistinct(OrderedBlocks(l))
    ensures SortedDesc(OrderedBlocks(l), MaxOf)
    ensures forall i :: 0 <= i < |OrderedBlocks(l)| ==> GoodBlock(OrderedBlocks(l)[i], l)
  {
    var gs := Grouped(l);
    var blocks := Blocks(gs);
    var bs := OrderedBlocks(l);
    GroupedIsGroupsOf(l);
    SortDescSortedPermutation(blocks, MaxOf);
    SortDescAllItems(blocks);
    BlocksAllItems(gs);
    GroupsKeysDistinct(gs, l);
    BlocksDistinct(gs);
    SortDescDistinct(blocks);
    OrderedBlocksGood(l);
  }

  /** Sorting each group's tuples leaves the groups' keys as they were. */
  lemma BlocksDistinct(gs: seq<Group>)
    requires KeysDistinct(gs)
    ensures KeysDistinct(Blocks(gs))
  {
    var blocks := Blocks(gs);
    forall i, j | 0 <= i < j < |blocks| ensures blocks[i].key != blocks[j].key {
      assert blocks[i].key == gs[i].key && blocks[j].key == gs[j].key;
    }
  }

  /** Every block of the output is a good block. */
  lemma OrderedBlocksGood(l: seq<Tagged>)
    ensures forall i :: 0 <= i < |OrderedBlocks(l)| ==> GoodBlock(OrderedBlocks(l)[i], l)
  {
    var gs := Grouped(l);
    var blocks := Blocks(gs);
    var bs := OrderedBlocks(l);
    GroupedIsGroupsOf(l);
    SortDescSortedPermutation(blocks, MaxOf);
    forall i | 0 <= i < |bs| ensures GoodBlock(bs[i], l) {
      assert bs[i] in multiset(blocks);
      var j :| 0 <= j < |blocks| && blocks[j] == bs[i];
      BlockIsGood(gs[j], l);
    }
  }

  lemma {:induction false} ItemsWithKeyAllMatch(l: seq<Tagged>, k: string)
    ensures forall x :: x in ItemsWithKey(l, k) ==> GroupKey(x.text) == k
  {
    if l != [] {
      ItemsWithKeyAllMatch(l[..|l| - 1], k);
    }
  }

  /**
   * Ties keep their first-seen order at both levels: within a block the
   * tuples with equal counts are in input order, and the blocks with equal
   * maxima are in the order their leading tokens first appear in the input.
   */
  lemma EvidenceOrderTies(l: seq<Tagged>, k: string, c: int, m: int)
    ensures forall i :: 0 <= i < |OrderedBlocks(l)| && OrderedBlocks(l)[i].key == k ==>
      WithKey(OrderedBlocks(l)[i].items, CountOf, c) == WithKey(ItemsWithKey(l, k), CountOf, c)
    ensures GroupKeys(WithKey(OrderedBlocks(l), MaxOf, m)) == GroupKeys(WithKey(Blocks(Grouped(l)), MaxOf, m))
    ensures GroupKeys(Grouped(l)) == FirstSeen(KeysOf(l))
  {
    var gs := Grouped(l);
    var blocks := Blocks(gs);
    GroupedIsGroupsOf(l);
    SortDescStable(blocks, MaxOf, m);
    SortDescSortedPermutation(blocks, MaxOf);
    forall i | 0 <= i < |OrderedBlocks(l)| && OrderedBlocks(l)[i].key == k
      ensures WithKey(OrderedBlocks(l)[i].items, CountOf, c) == WithKey(ItemsWithKey(l, k), CountOf, c)
    {
      var b := OrderedBlocks(l)[i];
      assert b in multiset(blocks);
      var j :| 0 <= j < |blocks| && blocks[j] == b;
      SortDescStable(gs[j].items, CountOf, c);
    }
  }
}
