/**
 * What one new edge says about the statements pooled under its node pair:
 * duplicates by hash dropped, final periods removed, statements with the
 * same English text merged, the direction flags, the evidence total and the
 * `Relationships` text with its links to the INDRA statement browser.
 */
module Summary {
  import opened Text
  import opened Evidence
  import opened Ordering

  const StatementUrl: string := "https://db.indra.bio/statements"

  /** Statement types that say nothing about direction. */
  const NonDirectionalTypes: seq<string> := ["ActiveForm", "Association", "Complex", "Migration"]

  // ---------------------------------------------------------------------
  // _get_unique_statments

  function HashesOf(s: seq<Stmt>): set<int> {
    set i | 0 <= i < |s| :: s[i].stmtHash
  }

  predicate DistinctHashes(s: seq<Stmt>) {
    forall i, j :: 0 <= i < j < |s| ==> s[i].stmtHash != s[j].stmtHash
  }

  /** The statements of `s` whose hash has not been seen before them, in order. */
  function UniqueByHash(s: seq<Stmt>): seq<Stmt> {
    if s == [] then []
    else
      var init := s[..|s| - 1];
      if s[|s| - 1].stmtHash in HashesOf(init) then UniqueByHash(init)
      else UniqueByHash(init) + [s[|s| - 1]]
  }

  lemma HashesSnoc(s: seq<Stmt>, i: int)
    requires 0 <= i < |s|
    ensures HashesOf(s[..i + 1]) == HashesOf(s[..i]) + {s[i].stmtHash}
  {
    var a, b := s[..i + 1], s[..i];
    forall h ensures h in HashesOf(a) <==> h in HashesOf(b) + {s[i].stmtHash} {
      if h in HashesOf(a) {
        var j :| 0 <= j < |a| && a[j].stmtHash == h;
        if j < i {
          assert b[j] == a[j];
        }
      }
      if h in HashesOf(b) {
        var j :| 0 <= j < |b| && b[j].stmtHash == h;
        assert a[j] == b[j];
      }
      if h == s[i].stmtHash {
        assert a[i] == s[i];
      }
    }
  }

  /** `_get_unique_statments`. */
  method UniqueStatements(stmts: seq<Stmt>) returns (unique: seq<Stmt>)
    ensures unique == UniqueByHash(stmts)
  {
    var seen: set<int> := {};
    unique := [];
    for i := 0 to |stmts|
      invariant seen == HashesOf(stmts[..i])
      invariant unique == UniqueByHash(stmts[..i])
    {
      assert stmts[..i + 1][..i] == stmts[..i];
      HashesSnoc(stmts, i);
      if stmts[i].stmtHash !in seen {
        seen := seen + {stmts[i].stmtHash};
        unique := unique + [stmts[i]];
      }
    }
    assert stmts[..|stmts|] == stmts;
  }

  /**
   * Deduplication keeps every hash, keeps each hash once, and keeps only
   * statements of the input.
   */
  lemma {:induction false} UniqueByHashProperties(s: seq<Stmt>)
    ensures HashesOf(UniqueByHash(s)) == HashesOf(s)
    ensures DistinctHashes(UniqueByHash(s))
    ensures forall x :: x in UniqueByHash(s) ==> x in s
  {
    if s != [] {
      var init, x := s[..|s| - 1], s[|s| - 1];
      UniqueByHashProperties(init);
      HashesSnoc(s, |s| - 1);
      assert s[..|s|] == s;
      var u := UniqueByHash(init);
      if x.stmtHash !in HashesOf(init) {
        HashesSnoc(u + [x], |u|);
        assert (u + [x])[..|u| + 1] == u + [x];
        assert (u + [x])[..|u|] == u;
        forall j | 0 <= j < |u| ensures u[j].stmtHash != x.stmtHash {
          assert u[j].stmtHash in HashesOf(u);
        }
      }
    }
  }

  /** The first statement of the pool with a given hash is kept. */
  lemma {:induction false} UniqueKeepsFirst(s: seq<Stmt>, i: int)
    requires 0 <= i < |s|
    requires forall j :: 0 <= j < i ==> s[j].stmtHash != s[i].stmtHash
    ensures s[i] in UniqueByHash(s)
  {
    var init := s[..|s| - 1];
    if i == |s| - 1 {
      forall j | 0 <= j < |init| ensures init[j].stmtHash != s[i].stmtHash {
        assert init[j] == s[j];
      }
      assert s[i].stmtHash !in HashesOf(init);
    } else {
      assert init[i] == s[i];
      forall j | 0 <= j < i ensures init[j].stmtHash != init[i].stmtHash {
        assert init[j] == s[j];
      }
      UniqueKeepsFirst(init, i);
    }
  }

  /** The statement kept for a hash is the first one of the pool with that hash. */
  lemma UniqueIsFirstOfHash(s: seq<Stmt>, i: int, k: int)
    requires 0 <= i < |s|
    requires forall j :: 0 <= j < i ==> s[j].stmtHash != s[i].stmtHash
    requires 0 <= k < |UniqueByHash(s)| && UniqueByHash(s)[k].stmtHash == s[i].stmtHash
    ensures UniqueByHash(s)[k] == s[i]
  {
    UniqueKeepsFirst(s, i);
    UniqueByHashProperties(s);
    var u := UniqueByHash(s);
    var k' :| 0 <= k' < |u| && u[k'] == s[i];
    assert u[k'].stmtHash == u[k].stmtHash;
    assert k' == k;
  }

  // ---------------------------------------------------------------------
  // _remove_period_from_statements

  /** The statements with the final period of their English text removed. */
  function StripPeriods(s: seq<Stmt>): seq<Stmt> {
    seq(|s|, i requires 0 <= i < |s| => s[i].(english := StripPeriod(s[i].english)))
  }

  /** `_remove_period_from_statements`: rewrites each statement of the list in place. */
  method RemovePeriods(a: array<Stmt>)
    modifies a
    ensures a[..] == StripPeriods(old(a[..]))
  {
    for i := 0 to a.Length
      invariant forall j :: 0 <= j < i ==> a[j] == old(a[j]).(english := StripPeriod(old(a[j]).english))
      invariant forall j :: i <= j < a.Length ==> a[j] == old(a[j])
    {
      a[i] := a[i].(english := StripPeriod(a[i].english));
    }
  }

  function SumCounts(s: seq<Stmt>): nat {
    if s == [] then 0 else SumCounts(s[..|s| - 1]) + s[|s| - 1].evidenceCount
  }

  lemma SumCountsSnoc(s: seq<Stmt>, x: Stmt)
    ensures SumCounts(s + [x]) == SumCounts(s) + x.evidenceCount
  {
    assert (s + [x])[..|s|] == s;
  }

  /** Removing periods leaves hashes and evidence counts alone. */
  lemma {:induction false} StripPeriodsKeepsCounts(s: seq<Stmt>)
    ensures |StripPeriods(s)| == |s|
    ensures HashesOf(StripPeriods(s)) == HashesOf(s)
    ensures SumCounts(StripPeriods(s)) == SumCounts(s)
  {
    var r := StripPeriods(s);
    forall h ensures h in HashesOf(r) <==> h in HashesOf(s) {
      if h in HashesOf(r) {
        var j :| 0 <= j < |r| && r[j].stmtHash == h;
        assert s[j].stmtHash == h;
      }
      if h in HashesOf(s) {
        var j :| 0 <= j < |s| && s[j].stmtHash == h;
        assert r[j].stmtHash == h;
      }
    }
    if s != [] {
      StripPeriodsKeepsCounts(s[..|s| - 1]);
      assert r[..|r| - 1] == StripPeriods(s[..|s| - 1]);
    }
  }

  // ---------------------------------------------------------------------
  // _merge_matching_statements

  function EnglishOf(s: seq<Stmt>): seq<string> {
    seq(|s|, i requires 0 <= i < |s| => s[i].english)
  }

  /** The statements of `s` whose English text is `t`, in order. */
  function StmtsWith(s: seq<Stmt>, t: string): seq<Stmt> {
    if s == [] then []
    else StmtsWith(s[..|s| - 1], t) + (if s[|s| - 1].english == t then [s[|s| - 1]] else [])
  }

  /** The first statement of a group, carrying the group's total evidence count. */
  function Combine(g: seq<Stmt>): Stmt
    requires g != []
  {
    g[0].(evidenceCount := SumCounts(g))
  }

  /** One combined statement per text of `ts`, in the order of `ts`. */
  function CombineAll(s: seq<Stmt>, ts: seq<string>): seq<Stmt>
    requires forall t :: t in ts ==> StmtsWith(s, t) != []
  {
    if ts == [] then []
    else CombineAll(s, ts[..|ts| - 1]) + [Combine(StmtsWith(s, ts[|ts| - 1]))]
  }

  /** The list `_merge_matching_statements` returns. */
  function Merged(s: seq<Stmt>): seq<Stmt> {
    MergeableTexts(s);
    CombineAll(s, FirstSeen(EnglishOf(s)))
  }

  lemma {:induction false} StmtsWithMeans(s: seq<Stmt>, t: string)
    ensures forall x :: x in StmtsWith(s, t) <==> x in s && x.english == t
    ensures StmtsWith(s, t) != [] <==> t in EnglishOf(s)
  {
    if s != [] {
      var init, last := s[..|s| - 1], s[|s| - 1];
      StmtsWithMeans(init, t);
      assert s == init + [last];
    }
    if StmtsWith(s, t) != [] {
      var x := StmtsWith(s, t)[0];
      var i :| 0 <= i < |s| && s[i] == x;
      assert EnglishOf(s)[i] == t;
    }
    if t in EnglishOf(s) {
      var i :| 0 <= i < |s| && EnglishOf(s)[i] == t;
      assert s[i] in StmtsWith(s, t);
    }
  }

  lemma MergeableTexts(s: seq<Stmt>)
    ensures forall t :: t in FirstSeen(EnglishOf(s)) ==> StmtsWith(s, t) != []
  {
    FirstSeenMembers(EnglishOf(s));
    forall t | t in FirstSeen(EnglishOf(s)) ensures StmtsWith(s, t) != [] {
      StmtsWithMeans(s, t);
    }
  }

  /** `_merge_matching_statements`. */
  method MergeMatching(stmts: seq<Stmt>) returns (merged: seq<Stmt>)
    ensures merged == Merged(stmts)
  {
    var order, byText := GroupByText(stmts);
    MergeableTexts(stmts);
    merged := [];
    for k := 0 to |order|
      invariant merged == CombineAll(stmts, order[..k])
    {
      assert order[..k + 1][..k] == order[..k];
      var group := byText[order[k]];
      var total := SumGroup(group);
      merged := merged + [group[0].(evidenceCount := total)];
    }
    assert order[..|order|] == order;
  }

  /** The grouping loop of `_merge_matching_statements`: the texts in first-seen order, and each text's statements. */
  method GroupByText(stmts: seq<Stmt>) returns (order: seq<string>, byText: map<string, seq<Stmt>>)
    ensures order == FirstSeen(EnglishOf(stmts))
    ensures forall t :: t in byText <==> t in order
    ensures forall t :: t in byText ==> byText[t] == StmtsWith(stmts, t)
  {
    byText, order := map[], [];
    for i := 0 to |stmts|
      invariant order == FirstSeen(EnglishOf(stmts[..i]))
      invariant forall t :: t in byText <==> t in order
      invariant forall t :: t in byText ==> byText[t] == StmtsWith(stmts[..i], t)
    {
      var x := stmts[i];
      GroupStep(stmts, i);
      if x.english !in byText {
        FirstSeenMembers(EnglishOf(stmts[..i]));
        StmtsWithMeans(stmts[..i], x.english);
        byText := byText[x.english := []];
        order := order + [x.english];
      }
      byText := byText[x.english := byText[x.english] + [x]];
    }
    assert stmts[..|stmts|] == stmts;
  }

  /** One more statement: its text is seen unless it was already, and it joins its text's statements. */
  lemma GroupStep(s: seq<Stmt>, i: int)
    requires 0 <= i < |s|
    ensures var seen := FirstSeen(EnglishOf(s[..i]));
      FirstSeen(EnglishOf(s[..i + 1])) == if s[i].english in seen then seen else seen + [s[i].english]
    ensures forall t :: StmtsWith(s[..i + 1], t) == StmtsWith(s[..i], t) + if s[i].english == t then [s[i]] else []
  {
    assert s[..i + 1][..i] == s[..i];
    assert EnglishOf(s[..i + 1])[..i] == EnglishOf(s[..i]);
  }

  /** The summing loop of `_merge_matching_statements`: a group's total evidence count. */
  method SumGroup(group: seq<Stmt>) returns (total: nat)
    ensures total == SumCounts(group)
  {
    total := 0;
    for j := 0 to |group|
      invariant total == SumCounts(group[..j])
    {
      assert group[..j + 1][..j] == group[..j];
      total := total + group[j].evidenceCount;
    }
    assert group[..|group|] == group;
  }

  lemma {:induction false} CombineAllShape(s: seq<Stmt>, ts: seq<string>)
    requires forall t :: t in ts ==> StmtsWith(s, t) != []
    ensures |CombineAll(s, ts)| == |ts|
    ensures forall i :: 0 <= i < |ts| ==> CombineAll(s, ts)[i] == Combine(StmtsWith(s, ts[i]))
  {
    if ts != [] {
      CombineAllShape(s, ts[..|ts| - 1]);
    }
  }

  /**
   * One merged statement per distinct English text, in order of first
   * appearance; each is the first statement with that text, carrying the
   * evidence count summed over all statements with that text.
   */
  lemma MergedShape(s: seq<Stmt>)
    ensures EnglishOf(Merged(s)) == FirstSeen(EnglishOf(s))
    ensures forall i :: 0 <= i < |Merged(s)| ==>
      var g := StmtsWith(s, Merged(s)[i].english);
      g != [] && Merged(s)[i] == g[0].(evidenceCount := SumCounts(g))
  {
    var ts := FirstSeen(EnglishOf(s));
    MergeableTexts(s);
    CombineAllShape(s, ts);
    forall i | 0 <= i < |ts| ensures Merged(s)[i].english == ts[i] {
      StmtsWithMeans(s, ts[i]);
      assert StmtsWith(s, ts[i])[0] in StmtsWith(s, ts[i]);
    }
  }

  /** Total evidence of each text in `ts`, added up. */
  function SumOver(s: seq<Stmt>, ts: seq<string>): nat {
    if ts == [] then 0 else SumOver(s, ts[..|ts| - 1]) + SumCounts(StmtsWith(s, ts[|ts| - 1]))
  }

  predicate DistinctTexts(ts: seq<string>) {
    forall i, j :: 0 <= i < j < |ts| ==> ts[i] != ts[j]
  }

  lemma {:induction false} SumOverEmpty(ts: seq<string>)
    ensures SumOver([], ts) == 0
  {
    if ts != [] {
      SumOverEmpty(ts[..|ts| - 1]);
    }
  }

  lemma {:induction false} SumOverSnoc(s: seq<Stmt>, x: Stmt, ts: seq<string>)
    requires DistinctTexts(ts)
    ensures SumOver(s + [x], ts) == SumOver(s, ts) + (if x.english in ts then x.evidenceCount else 0)
  {
    if ts != [] {
      var pre, t := ts[..|ts| - 1], ts[|ts| - 1];
      assert ts == pre + [t];
      assert DistinctTexts(pre) by {
        forall i, j | 0 <= i < j < |pre| ensures pre[i] != pre[j] {
          assert pre[i] == ts[i] && pre[j] == ts[j];
        }
      }
      assert t !in pre by {
        forall i | 0 <= i < |pre| ensures pre[i] != t {
          assert pre[i] == ts[i];
        }
      }
      SumOverSnoc(s, x, pre);
      assert (s + [x])[..|s|] == s;
      if x.english == t {
        SumCountsSnoc(StmtsWith(s, t), x);
      } else {
        assert StmtsWith(s, t) + [] == StmtsWith(s, t);
      }
    }
  }

  lemma {:induction false} SumOverAll(s: seq<Stmt>, ts: seq<string>)
    requires DistinctTexts(ts)
    requires forall i :: 0 <= i < |s| ==> s[i].english in ts
    ensures SumOver(s, ts) == SumCounts(s)
  {
    if s == [] {
      SumOverEmpty(ts);
    } else {
      var init, x := s[..|s| - 1], s[|s| - 1];
      assert s == init + [x];
      forall i | 0 <= i < |init| ensures init[i].english in ts {
        assert init[i] == s[i];
      }
      SumOverAll(init, ts);
      SumOverSnoc(init, x, ts);
    }
  }

  lemma {:induction false} CombineAllSum(s: seq<Stmt>, ts: seq<string>)
    requires forall t :: t in ts ==> StmtsWith(s, t) != []
    ensures SumCounts(CombineAll(s, ts)) == SumOver(s, ts)
  {
    if ts != [] {
      var pre := ts[..|ts| - 1];
      CombineAllSum(s, pre);
      SumCountsSnoc(CombineAll(s, pre), Combine(StmtsWith(s, ts[|ts| - 1])));
    }
  }

  /** Merging moves evidence between statements but loses none. */
  lemma MergedTotal(s: seq<Stmt>)
    ensures SumCounts(Merged(s)) == SumCounts(s)
  {
    var ts := FirstSeen(EnglishOf(s));
    MergeableTexts(s);
    CombineAllSum(s, ts);
    FirstSeenMembers(EnglishOf(s));
    forall i | 0 <= i < |s| ensures s[i].english in ts {
      assert EnglishOf(s)[i] == s[i].english;
    }
    SumOverAll(s, ts);
  }

  // ---------------------------------------------------------------------
  // Direction

  predicate Directional(st: Stmt) {
    st.stmtType !in NonDirectionalTypes
  }

  /** How many statements of `s` point from the pair's first node to its second. */
  function ForwardCount(s: seq<Stmt>): nat {
    if s == [] then 0
    else
      var last := s[|s| - 1];
      ForwardCount(s[..|s| - 1]) + (if Directional(last) && !last.isReversed then 1 else 0)
  }

  /** How many statements of `s` point from the pair's second node to its first. */
  function ReverseCount(s: seq<Stmt>): nat {
    if s == [] then 0
    else
      var last := s[|s| - 1];
      ReverseCount(s[..|s| - 1]) + (if Directional(last) && last.isReversed then 1 else 0)
  }

  lemma {:induction false} ForwardCountPositive(s: seq<Stmt>)
    ensures ForwardCount(s) > 0 <==> exists i :: 0 <= i < |s| && Directional(s[i]) && !s[i].isReversed
  {
    if s != [] {
      var init := s[..|s| - 1];
      ForwardCountPositive(init);
      if exists i :: 0 <= i < |s| && Directional(s[i]) && !s[i].isReversed {
        var i :| 0 <= i < |s| && Directional(s[i]) && !s[i].isReversed;
        if i < |init| {
          assert init[i] == s[i];
        }
      }
      if exists i :: 0 <= i < |init| && Directional(init[i]) && !init[i].isReversed {
        var i :| 0 <= i < |init| && Directional(init[i]) && !init[i].isReversed;
        assert s[i] == init[i];
      }
    }
  }

  lemma {:induction false} ReverseCountPositive(s: seq<Stmt>)
    ensures ReverseCount(s) > 0 <==> exists i :: 0 <= i < |s| && Directional(s[i]) && s[i].isReversed
  {
    if s != [] {
      var init := s[..|s| - 1];
      ReverseCountPositive(init);
      if exists i :: 0 <= i < |s| && Directional(s[i]) && s[i].isReversed {
        var i :| 0 <= i < |s| && Directional(s[i]) && s[i].isReversed;
        if i < |init| {
          assert init[i] == s[i];
        }
      }
      if exists i :: 0 <= i < |init| && Directional(init[i]) && init[i].isReversed {
        var i :| 0 <= i < |init| && Directional(init[i]) && init[i].isReversed;
        assert s[i] == init[i];
      }
    }
  }

  // ---------------------------------------------------------------------
  // Links to the INDRA statement browser

  /** A link opening `url` in the browser window named `target`, showing `cnt`. */
  function Anchor(url: string, target: string, cnt: nat): string {
    "<a href=\"" + url + "\" target=\"" + target + "\">" + NatToString(cnt) + "</a>"
  }

  /** The statements of one type from `subject` to `object`. */
  function StatementsUrl(subject: string, obj: string, stmtType: string): string {
    StatementUrl + "/from_agents?subject=" + HtmlEscape(subject) + "&object=" + HtmlEscape(obj)
      + "&type=" + HtmlEscape(stmtType) + "&format=html&expand_all=true"
  }

  /** All statements between two agents. */
  function AgentsUrl(agent0: string, agent1: string): string {
    StatementUrl + "/from_agents?agent0=" + HtmlEscape(agent0) + "&agent1=" + HtmlEscape(agent1)
      + "&format=html&expand_all=false"
  }

  /** `_create_indra_evidence_url`. */
  function EvidenceLink(target: string, cnt: nat, subject: string, obj: string, stmtType: string): string {
    Anchor(StatementsUrl(subject, obj, stmtType), target, cnt)
  }

  /** `_create_indra_all_evidence_url`. */
  function AllEvidenceLink(target: string, cnt: nat, agent0: string, agent1: string): string {
    Anchor(AgentsUrl(agent0, agent1), target, cnt)
  }

  /** What a browser reads as the `href` of a link: the text up to the next double quote. */
  function HrefOf(link: string): string {
    if |link| < 9 then [] else link[9..][..IndexOf(link[9..], '"')]
  }

  lemma AnchorHref(url: string, target: string, cnt: nat)
    requires '"' !in url
    ensures HrefOf(Anchor(url, target, cnt)) == url
  {
    var rest := "\" target=\"" + target + "\">" + NatToString(cnt) + "</a>";
    assert Anchor(url, target, cnt)[9..] == url + rest;
    IndexOfAbsent(url, '"', rest);
    assert (url + rest)[..|url|] == url;
  }

  lemma NoQuoteInEscaped(s: string)
    ensures '"' !in HtmlEscape(s)
  {
    var r := HtmlEscape(s);
    assert forall i :: 0 <= i < |r| ==> r[i] != '"';
  }

  /**
   * Escaping keeps the `href` attribute intact: whatever the node names and
   * statement type, a browser follows exactly the statements URL.
   */
  lemma EvidenceLinkHref(target: string, cnt: nat, subject: string, obj: string, stmtType: string)
    ensures HrefOf(EvidenceLink(target, cnt, subject, obj, stmtType)) == StatementsUrl(subject, obj, stmtType)
  {
    StatementsUrlUnquoted(subject, obj, stmtType);
    AnchorHref(StatementsUrl(subject, obj, stmtType), target, cnt);
  }

  lemma StatementsUrlUnquoted(subject: string, obj: string, stmtType: string)
    ensures '"' !in StatementsUrl(subject, obj, stmtType)
  {
    NoQuoteInEscaped(subject);
    NoQuoteInEscaped(obj);
    NoQuoteInEscaped(stmtType);
    StatementsUrlHead();
    assert '"' !in "&object=" && '"' !in "&type=";
    StatementsUrlTail();
  }

  lemma StatementsUrlHead()
    ensures '"' !in StatementUrl + "/from_agents?subject="
  {
  }

  lemma StatementsUrlTail()
    ensures '"' !in "&format=html&expand_all=true"
  {
  }

  /** The same for the link to all of the pair's statements. */
  lemma AllEvidenceLinkHref(target: string, cnt: nat, agent0: string, agent1: string)
    ensures HrefOf(AllEvidenceLink(target, cnt, agent0, agent1)) == AgentsUrl(agent0, agent1)
  {
    AgentsUrlUnquoted(agent0, agent1);
    AnchorHref(AgentsUrl(agent0, agent1), target, cnt);
  }

  lemma AgentsUrlUnquoted(agent0: string, agent1: string)
    ensures '"' !in AgentsUrl(agent0, agent1)
  {
    NoQuoteInEscaped(agent0);
    NoQuoteInEscaped(agent1);
    AgentsUrlHead();
    assert '"' !in "&agent1=";
    AgentsUrlTail();
  }

  lemma AgentsUrlHead()
    ensures '"' !in StatementUrl + "/from_agents?agent0="
  {
  }

  lemma AgentsUrlTail()
    ensures '"' !in "&format=html&expand_all=false"
  {
  }

  // ---------------------------------------------------------------------
  // _single_edge_adder, without the network

  /** The tuple `_single_edge_adder` builds for one merged statement. */
  function Line(target: string, st: Stmt): Tagged {
    Tagged(st.english + "(" + EvidenceLink(target, st.evidenceCount, st.sourceNode, st.targetNode, st.stmtType) + ")",
           st.evidenceCount)
  }

  function Lines(target: string, s: seq<Stmt>): seq<Tagged> {
    if s == [] then [] else Lines(target, s[..|s| - 1]) + [Line(target, s[|s| - 1])]
  }

  /** The value of the `Relationships` attribute. */
  function RelationshipsText(allLink: string, items: seq<string>): string {
    "All Evidences (" + allLink + ")<ul><li/>" + Join("<li/>", items) + "</ul>"
  }

  /** The attributes one new edge receives (the relationship score aside). */
  datatype EdgeSummary = EdgeSummary(relationships: string, directed: bool, reverseDirected: bool, totalEvidence: nat)

  /** The statements the summary is built from. */
  function Prepared(pool: seq<Stmt>): seq<Stmt> {
    Merged(StripPeriods(UniqueByHash(pool)))
  }

  lemma PreparedNonEmpty(pool: seq<Stmt>)
    requires pool != []
    ensures Prepared(pool) != []
  {
    UniqueKeepsFirst(pool, 0);
    var u := StripPeriods(UniqueByHash(pool));
    assert |u| > 0;
    MergedShape(u);
    FirstSeenMembers(EnglishOf(u));
    assert EnglishOf(u)[0] in FirstSeen(EnglishOf(u));
  }

  function SummaryOf(target: string, pool: seq<Stmt>): EdgeSummary
    requires pool != []
  {
    PreparedNonEmpty(pool);
    var m := Prepared(pool);
    var last := m[|m| - 1];
    var total := SumCounts(m);
    EdgeSummary(
      RelationshipsText(AllEvidenceLink(target, total, last.sourceNode, last.targetNode), EvidenceOrder(Lines(target, m))),
      ForwardCount(m) > 0,
      ReverseCount(m) > 0,
      total)
  }

  /** The loop of `_single_edge_adder` over the merged statements. */
  method EdgeCounts(target: string, merged: seq<Stmt>) returns (items: seq<Tagged>, forward: nat, reverse: nat, total: nat)
    ensures items == Lines(target, merged)
    ensures forward == ForwardCount(merged) && reverse == ReverseCount(merged)
    ensures total == SumCounts(merged)
  {
    items := [];
    forward, reverse, total := 0, 0, 0;
    for i := 0 to |merged|
      invariant items == Lines(target, merged[..i])
      invariant forward == ForwardCount(merged[..i])
      invariant reverse == ReverseCount(merged[..i])
      invariant total == SumCounts(merged[..i])
    {
      var st := merged[i];
      assert merged[..i + 1][..i] == merged[..i];
      if Directional(st) {
        if st.isReversed {
          reverse := reverse + 1;
        } else {
          forward := forward + 1;
        }
      }
      items := items + [Line(target, st)];
      total := total + st.evidenceCount;
    }
    assert merged[..|merged|] == merged;
  }

  /** The statement-processing part of `_single_edge_adder`. */
  method SingleEdgeSummary(target: string, pool: seq<Stmt>) returns (summary: EdgeSummary)
    requires pool != []
    ensures summary == SummaryOf(target, pool)
  {
    var unique := UniqueStatements(pool);
    var a := new Stmt[|unique|](i requires 0 <= i < |unique| => unique[i]);
    assert a[..] == unique;
    RemovePeriods(a);
    var merged := MergeMatching(a[..]);
    PreparedNonEmpty(pool);
    var items, forward, reverse, total := EdgeCounts(target, merged);
    var last := merged[|merged| - 1];
    var allLink := AllEvidenceLink(target, total, last.sourceNode, last.targetNode);
    var fullList := SortEvidenceTupleList(items);
    summary := EdgeSummary(RelationshipsText(allLink, fullList), forward > 0, reverse > 0, total);
  }

  /**
   * The edge is directed exactly when some merged statement of a directional
   * type runs from the pair's first node to its second, and reverse directed
   * exactly when one runs the other way.
   */
  lemma SummaryDirections(target: string, pool: seq<Stmt>)
    requires pool != []
    ensures var m := Prepared(pool);
      && (SummaryOf(target, pool).directed <==> exists i :: 0 <= i < |m| && Directional(m[i]) && !m[i].isReversed)
      && (SummaryOf(target, pool).reverseDirected <==> exists i :: 0 <= i < |m| && Directional(m[i]) && m[i].isReversed)
  {
    ForwardCountPositive(Prepared(pool));
    ReverseCountPositive(Prepared(pool));
  }

  /**
   * The edge's evidence total is the evidence of the pool's statements,
   * each hash counted once.
   */
  lemma SummaryTotal(target: string, pool: seq<Stmt>)
    requires pool != []
    ensures SummaryOf(target, pool).totalEvidence == SumCounts(UniqueByHash(pool))
  {
    MergedTotal(StripPeriods(UniqueByHash(pool)));
    StripPeriodsKeepsCounts(UniqueByHash(pool));
  }
}
