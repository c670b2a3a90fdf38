/**
 * The statement filters of ndexindraloader/indra.py and the chain that
 * applies them. Every filter has the same shape: copy the evidence record,
 * collect the keys of the statements its rule rejects, delete them, and
 * return the copy with a one-line report. Records are values here, so the
 * copy is implicit and the caller's record can never change.
 */
module Filters {
  import opened Wrappers
  import opened Text
  import opened Evidence
  import opened Seqs

  /** Source names of the automated reading systems. */
  const ReadingSystems: seq<string> := ["eidos", "trips", "reach", "sparser", "medscan", "rlimsp", "isi"]

  /** Curation tags that count as "this evidence supports the statement". */
  const CorrectTags: seq<string> := ["correct", "hypothesis", "act_vs_amt"]

  /**
   * The five filters. `Incorrect` carries the map from statement hash to
   * the curations recorded for it, which its constructor builds.
   */
  datatype Filter =
    | SelfLoop
    | Incorrect(curations: map<int, seq<Curation>>)
    | SingleReading
    | SparserComplex
    | Medscan

  /** The Python class that implements each filter. */
  function ClassName(f: Filter): string {
    match f
    case SelfLoop => "SelfLoopStatementFilter"
    case Incorrect(_) => "IncorrectStatementFilter"
    case SingleReading => "SingleReadingStatementFilter"
    case SparserComplex => "SparserComplexStatementFilter"
    case Medscan => "MedscanStatementFilter"
  }

  /** `get_description()` of each filter: its class name, a colon, and what it removes. */
  function Description(f: Filter): (r: string)
    ensures ClassName(f) + ": " <= r
  {
    ClassName(f) + ": " + Purpose(f)
  }

  /** The part of each description after the class name. */
  function Purpose(f: Filter): string {
    match f
    case SelfLoop =>
      "Iterates through " + "evidence " + "statements and removes " + "any where source and target are the same"
    case Incorrect(_) =>
      "Removes statements that lack good curations"
    case SingleReading =>
      "Removes statements with only one evidence that originated from only a single reading system"
    case SparserComplex =>
      "Removes statements for Complexes with only sparser as source of evidence"
    case Medscan =>
      "Removes statements with only medscan as source of evidence"
  }

  /** The self-loop filter's description is the text its test expects. */
  lemma SelfLoopDescription()
    ensures Description(SelfLoop) ==
      "SelfLoopStatementFilter: Iterates through " + "evidence statements and removes " +
      "any where source and target are the same"
  {
    var name, colon, it, ev, st, rest :=
      "SelfLoopStatementFilter", ": ", "Iterates through ", "evidence ", "statements and removes ",
      "any where source and target are the same";
    SelfLoopTestHead();
    SelfLoopTestMiddle();
    Regroup(name + colon, it, ev, st, rest);
  }

  /** The test's first piece is the class name, the colon and the first words. */
  lemma SelfLoopTestHead()
    ensures "SelfLoopStatementFilter: Iterates through " == "SelfLoopStatementFilter" + ": " + "Iterates through "
  {
  }

  /** The test's second piece splits where the description's pieces do. */
  lemma SelfLoopTestMiddle()
    ensures "evidence statements and removes " == "evidence " + "statements and removes "
  {
  }

  /** Regrouping a concatenation of five pieces. */
  lemma Regroup<T>(a: seq<T>, b: seq<T>, c: seq<T>, d: seq<T>, e: seq<T>)
    ensures a + (b + c + d + e) == (a + b) + (c + d) + e
  {
  }

  /** What a filter's report says it removed. */
  function Reason(f: Filter): string {
    match f
    case SelfLoop => "self loop statements"
    case Incorrect(_) => "statements that lacked good curations"
    case SingleReading => "statements with only single reading system source"
    case SparserComplex => "sparser complex statements"
    case Medscan => "medscan statements"
  }

  /** The report line: empty when nothing was removed. */
  function Report(n: nat, reason: string): string {
    if n > 0 then "Removed " + NatToString(n) + " " + reason + "\n" else ""
  }

  // ---------------------------------------------------------------------
  // The rules

  /** The distinct entity names of a record's `edge` list. */
  function NameSet(names: seq<string>): set<string> {
    set i | 0 <= i < |names| :: names[i]
  }

  /** The words of a statement's English text with one trailing period removed. */
  function SelfLoopWords(st: Stmt): seq<string> {
    Words(StripPeriod(st.english))
  }

  /** The statement has exactly one evidence source and it is `source`. */
  predicate SoleSource(st: Stmt, source: string) {
    |st.sourceCounts| == 1 && st.sourceCounts[0].source == source
  }

  /** At least one curation carries a tag that counts as correct. */
  predicate HasCorrectCuration(cs: seq<Curation>) {
    exists i :: 0 <= i < |cs| && cs[i].tag in CorrectTags
  }

  /** The statement id denotes a curated hash none of whose curations is correct. */
  predicate LacksGoodCuration(curations: map<int, seq<Curation>>, key: string) {
    match ParseInt(key)
    case Some(h) => h in curations && !HasCorrectCuration(curations[h])
    case None => false
  }

  /** Whether filter `f` removes entry `en` of a record whose entity names are `names`. */
  predicate Drops(f: Filter, names: seq<string>, en: Entry) {
    var st := en.stmt;
    match f
    case SelfLoop =>
      || |NameSet(names)| <= 1
      || (|SelfLoopWords(st)| >= 3 && SelfLoopWords(st)[0] == SelfLoopWords(st)[2])
    case Incorrect(curations) => LacksGoodCuration(curations, en.key)
    case SingleReading =>
      && |st.sourceCounts| == 1
      && st.sourceCounts[0].source in ReadingSystems
      && st.sourceCounts[0].count <= 1
    case SparserComplex => st.stmtType == "Complex" && SoleSource(st, "sparser")
    case Medscan => SoleSource(st, "medscan")
  }

  /**
   * What the filter's code needs of a record to run without raising:
   * a statement it inspects has at least one source (`list(keys)[0]`),
   * at least three words (`split_english[2]`), or an id `int()` accepts.
   */
  predicate Accepts(f: Filter, e: EdgeEvidence) {
    && DistinctKeys(e.stmts)
    && match f
       case SelfLoop =>
         |NameSet(e.names)| <= 1 || forall i :: 0 <= i < |e.stmts| ==> |SelfLoopWords(e.stmts[i].stmt)| >= 3
       case Incorrect(_) =>
         forall i :: 0 <= i < |e.stmts| ==> ParseInt(e.stmts[i].key).Some?
       case SparserComplex =>
         forall i :: 0 <= i < |e.stmts| && e.stmts[i].stmt.stmtType == "Complex" ==> e.stmts[i].stmt.sourceCounts != []
       case _ =>
         forall i :: 0 <= i < |e.stmts| ==> e.stmts[i].stmt.sourceCounts != []
  }

  // ---------------------------------------------------------------------
  // Specification of one filter

  /** The entries of `s` that `f` keeps, in their order. */
  function KeptOf(f: Filter, names: seq<string>, s: seq<Entry>): (r: seq<Entry>)
    ensures |r| <= |s|
  {
    if s == [] then []
    else KeptOf(f, names, s[..|s| - 1]) + (if Drops(f, names, s[|s| - 1]) then [] else [s[|s| - 1]])
  }

  /** The record `f` returns. */
  function Applied(f: Filter, e: EdgeEvidence): EdgeEvidence {
    e.(stmts := KeptOf(f, e.names, e.stmts))
  }

  /** The report `f` returns. */
  function FilterReport(f: Filter, e: EdgeEvidence): string {
    Report(|e.stmts| - |KeptOf(f, e.names, e.stmts)|, Reason(f))
  }

  /** The keys of the entries of `s` that `f` removes. */
  function DroppedKeys(f: Filter, names: seq<string>, s: seq<Entry>): set<string> {
    if s == [] then {}
    else DroppedKeys(f, names, s[..|s| - 1]) + (if Drops(f, names, s[|s| - 1]) then {s[|s| - 1].key} else {})
  }

  /** The entries of `s` whose key is not in `keys`: what `del` leaves. */
  function Without(s: seq<Entry>, keys: set<string>): seq<Entry> {
    if s == [] then []
    else Without(s[..|s| - 1], keys) + (if s[|s| - 1].key in keys then [] else [s[|s| - 1]])
  }

  // ---------------------------------------------------------------------
  // The filters' code

  /** `_is_at_least_one_curation_correct`. */
  method IsAtLeastOneCurationCorrect(cs: seq<Curation>) returns (b: bool)
    ensures b <==> exists i :: 0 <= i < |cs| && cs[i].tag in CorrectTags
  {
    for i := 0 to |cs|
      invariant forall j :: 0 <= j < i ==> cs[j].tag !in CorrectTags
    {
      if cs[i].tag in CorrectTags {
        return true;
      }
    }
    return false;
  }

  /** The constructor of IncorrectStatementFilter: curations grouped by `pa_hash`, in list order. */
  method NewIncorrectFilter(curationList: Option<seq<Curation>>) returns (f: Filter)
    ensures f.Incorrect?
    ensures forall h :: h in f.curations <==>
      curationList.Some? && exists c :: c in curationList.value && c.paHash == h
    ensures forall h :: h in f.curations ==> f.curations[h] == CurationsFor(curationList.value, h)
  {
    var index: map<int, seq<Curation>> := map[];
    if curationList.Some? {
      var list := curationList.value;
      for k := 0 to |list|
        invariant forall h :: h in index <==> exists c :: c in list[..k] && c.paHash == h
        invariant forall h :: h in index ==> index[h] == CurationsFor(list[..k], h)
      {
        var entry := list[k];
        assert list[..k + 1] == list[..k] + [entry];
        if entry.paHash !in index {
          CurationsForAbsent(list[..k], entry.paHash);
          index := index[entry.paHash := []];
        }
        index := index[entry.paHash := index[entry.paHash] + [entry]];
      }
      assert list[..|list|] == list;
    }
    f := Incorrect(index);
  }

  /** The curations of `list` about hash `h`, in list order. */
  function CurationsFor(list: seq<Curation>, h: int): seq<Curation> {
    if list == [] then []
    else CurationsFor(list[..|list| - 1], h) + (if list[|list| - 1].paHash == h then [list[|list| - 1]] else [])
  }

  lemma {:induction false} CurationsForAbsent(list: seq<Curation>, h: int)
    requires forall c :: c in list ==> c.paHash != h
    ensures CurationsFor(list, h) == []
  {
    if list != [] {
      CurationsForAbsent(list[..|list| - 1], h);
    }
  }

  /** `CurationsFor` holds exactly the curations of the list about `h`. */
  lemma {:induction false} CurationsForExactly(list: seq<Curation>, h: int)
    ensures forall c :: c in CurationsFor(list, h) <==> c in list && c.paHash == h
  {
    if list != [] {
      var init, last := list[..|list| - 1], list[|list| - 1];
      CurationsForExactly(init, h);
      InitLast(list);
    }
  }

  /** The body of each filter's loop: does `f` reject this entry? */
  method DecideDrop(f: Filter, names: seq<string>, en: Entry) returns (drop: bool)
    requires f.SelfLoop? ==> |NameSet(names)| > 1 && |SelfLoopWords(en.stmt)| >= 3
    requires f.Incorrect? ==> ParseInt(en.key).Some?
    requires f.SparserComplex? && en.stmt.stmtType == "Complex" ==> en.stmt.sourceCounts != []
    requires f.SingleReading? || f.Medscan? ==> en.stmt.sourceCounts != []
    ensures drop == Drops(f, names, en)
  {
    var st := en.stmt;
    match f
    case SelfLoop =>
      var split := Words(StripPeriod(st.english));
      drop := split[0] == split[2];
    case Incorrect(curations) =>
      var h := ParseInt(en.key).value;
      if h !in curations {
        drop := false;
      } else {
        var good := IsAtLeastOneCurationCorrect(curations[h]);
        drop := !good;
      }
    case SingleReading =>
      if |st.sourceCounts| > 1 {
        drop := false;
      } else {
        var source := st.sourceCounts[0];
        drop := source.source in ReadingSystems && source.count <= 1;
      }
    case SparserComplex =>
      if st.stmtType != "Complex" || |st.sourceCounts| > 1 {
        drop := false;
      } else {
        drop := st.sourceCounts[0].source == "sparser";
      }
    case Medscan =>
      if |st.sourceCounts| > 1 {
        drop := false;
      } else {
        drop := st.sourceCounts[0].source == "medscan";
      }
  }

  /** `for stmtkey in stmts_to_remove: del filtered_e['stmts'][stmtkey]`. */
  method DeleteKeys(stmts: seq<Entry>, keys: set<string>) returns (r: seq<Entry>)
    ensures r == Without(stmts, keys)
  {
    r := stmts;
    var rest := keys;
    WithoutNone(stmts);
    assert keys - rest == {};
    while rest != {}
      invariant rest <= keys
      invariant r == Without(stmts, keys - rest)
      decreases rest
    {
      var k :| k in rest;
      WithoutTwice(stmts, keys - rest, k);
      r := Without(r, {k});
      assert keys - rest + {k} == keys - (rest - {k});
      rest := rest - {k};
    }
    assert keys - rest == keys;
  }

  /**
   * One filter's `filter(edge_evidence)`: the record with the rejected
   * statements deleted, and the report line.
   */
  method ApplyFilter(f: Filter, e: EdgeEvidence) returns (filtered: EdgeEvidence, report: string)
    requires Accepts(f, e)
    ensures filtered == Applied(f, e)
    ensures report == FilterReport(f, e)
  {
    if f.SelfLoop? {
      var entityNames := EntityNames(e.names);
      if |entityNames| <= 1 {
        AllDropped(f, e.names, e.stmts);
        return e.(stmts := []), Report(|e.stmts|, Reason(f));
      }
    }
    var toRemove := CollectDropped(f, e.names, e.stmts);
    DroppedKeysCount(f, e.names, e.stmts);
    var stmts := e.stmts;
    if |toRemove| > 0 {
      stmts := DeleteKeys(stmts, toRemove);
      WithoutDroppedIsKept(f, e.names, e.stmts);
    } else {
      KeptIsPrefixWhenFull(f, e.names, e.stmts);
    }
    filtered := e.(stmts := stmts);
    report := Report(|toRemove|, Reason(f));
  }

  /** `set(e['name'] for e in edge)`: the distinct entity names. */
  method EntityNames(names: seq<string>) returns (nameSet: set<string>)
    ensures nameSet == NameSet(names)
  {
    nameSet := {};
    for i := 0 to |names|
      invariant nameSet == NameSet(names[..i])
    {
      assert names[..i + 1] == names[..i] + [names[i]];
      nameSet := nameSet + {names[i]};
    }
    assert names[..|names|] == names;
  }

  /** The first loop of every filter: the keys of the statements to remove. */
  method CollectDropped(f: Filter, names: seq<string>, stmts: seq<Entry>) returns (toRemove: set<string>)
    requires f.SelfLoop? ==> |NameSet(names)| > 1
    requires Accepts(f, EdgeEvidence(names, stmts))
    ensures toRemove == DroppedKeys(f, names, stmts)
  {
    toRemove := {};
    for i := 0 to |stmts|
      invariant toRemove == DroppedKeys(f, names, stmts[..i])
    {
      assert stmts[..i + 1][..i] == stmts[..i];
      var drop := DecideDrop(f, names, stmts[i]);
      if drop {
        toRemove := toRemove + {stmts[i].key};
      }
    }
    assert stmts[..|stmts|] == stmts;
  }

  // ---------------------------------------------------------------------
  // Lemmas the filters' code needs

  lemma {:induction false} AllDropped(f: Filter, names: seq<string>, s: seq<Entry>)
    requires forall i :: 0 <= i < |s| ==> Drops(f, names, s[i])
    ensures KeptOf(f, names, s) == []
  {
    if s != [] {
      AllDropped(f, names, s[..|s| - 1]);
    }
  }

  lemma {:induction false} WithoutNone(s: seq<Entry>)
    ensures Without(s, {}) == s
  {
    if s != [] {
      WithoutNone(s[..|s| - 1]);
    }
  }

  lemma {:induction false} WithoutTwice(s: seq<Entry>, a: set<string>, k: string)
    ensures Without(Without(s, a), {k}) == Without(s, a + {k})
  {
    if s != [] {
      var init, last := s[..|s| - 1], s[|s| - 1];
      WithoutTwice(init, a, k);
      var w := Without(init, a);
      if last.key !in a {
        var v := w + [last];
        assert Without(s, a) == v;
        assert v[..|v| - 1] == w && v[|v| - 1] == last;
        assert Without(v, {k}) == Without(w, {k}) + (if last.key == k then [] else [last]);
      } else {
        assert Without(s, a) == w;
      }
    }
  }

  /** The keys of a dictionary are those of all but its last entry, and the last one's. */
  lemma KeysSnoc(s: seq<Entry>)
    requires s != []
    ensures Keys(s) == Keys(s[..|s| - 1]) + {s[|s| - 1].key}
  {
    var init := s[..|s| - 1];
    forall x | x in Keys(s) ensures x in Keys(init) + {s[|s| - 1].key} {
      var i :| 0 <= i < |s| && s[i].key == x;
      if i < |init| {
        assert init[i] == s[i];
      }
    }
    forall x | x in Keys(init) ensures x in Keys(s) {
      var i :| 0 <= i < |init| && init[i].key == x;
      assert s[i] == init[i];
    }
  }

  lemma {:induction false} DroppedKeysWithin(f: Filter, names: seq<string>, s: seq<Entry>)
    ensures DroppedKeys(f, names, s) <= Keys(s)
  {
    if s != [] {
      DroppedKeysWithin(f, names, s[..|s| - 1]);
      KeysSnoc(s);
    }
  }

  lemma {:induction false} WithoutForeignKey(s: seq<Entry>, a: set<string>, k: string)
    requires k !in Keys(s)
    ensures Without(s, a + {k}) == Without(s, a)
  {
    if s != [] {
      KeysSnoc(s);
      WithoutForeignKey(s[..|s| - 1], a, k);
    }
  }

  lemma KeysOfInit(s: seq<Entry>)
    requires s != [] && DistinctKeys(s)
    ensures DistinctKeys(s[..|s| - 1])
    ensures s[|s| - 1].key !in Keys(s[..|s| - 1])
  {
  }

  /** Deleting the collected keys leaves exactly the entries the rule keeps. */
  lemma {:induction false} WithoutDroppedIsKept(f: Filter, names: seq<string>, s: seq<Entry>)
    requires DistinctKeys(s)
    ensures Without(s, DroppedKeys(f, names, s)) == KeptOf(f, names, s)
  {
    if s != [] {
      var init, last := s[..|s| - 1], s[|s| - 1];
      KeysOfInit(s);
      WithoutDroppedIsKept(f, names, init);
      DroppedKeysWithin(f, names, init);
      var d := DroppedKeys(f, names, init);
      if Drops(f, names, last) {
        assert DroppedKeys(f, names, s) == d + {last.key};
        WithoutForeignKey(init, d, last.key);
        assert Without(s, d + {last.key}) == Without(init, d + {last.key});
      } else {
        assert DroppedKeys(f, names, s) == d;
        assert last.key !in d;
        assert Without(s, d) == Without(init, d) + [last];
      }
    }
  }

  /** With distinct keys, the number of collected keys is the number of entries removed. */
  lemma {:induction false} DroppedKeysCount(f: Filter, names: seq<string>, s: seq<Entry>)
    requires DistinctKeys(s)
    ensures |DroppedKeys(f, names, s)| == |s| - |KeptOf(f, names, s)|
  {
    if s != [] {
      var init, last := s[..|s| - 1], s[|s| - 1];
      KeysOfInit(s);
      DroppedKeysCount(f, names, init);
      DroppedKeysWithin(f, names, init);
    }
  }

  // ---------------------------------------------------------------------
  // What a filter promises

  /** A filter keeps exactly the entries its rule does not reject, unchanged. */
  lemma {:induction false} KeptExactly(f: Filter, names: seq<string>, s: seq<Entry>, en: Entry)
    ensures en in KeptOf(f, names, s) <==> en in s && !Drops(f, names, en)
  {
    if s != [] {
      var init, last := s[..|s| - 1], s[|s| - 1];
      KeptExactly(f, names, init, en);
      InitLast(s);
    }
  }

  /** The survivors of a filter still have distinct keys. */
  lemma {:induction false} KeptDistinct(f: Filter, names: seq<string>, s: seq<Entry>)
    requires DistinctKeys(s)
    ensures DistinctKeys(KeptOf(f, names, s))
    ensures Keys(KeptOf(f, names, s)) <= Keys(s)
  {
    if s != [] {
      var init, last := s[..|s| - 1], s[|s| - 1];
      KeysOfInit(s);
      KeptDistinct(f, names, init);
      KeysSnoc(s);
      var k := KeptOf(f, names, init);
      if !Drops(f, names, last) {
        DistinctSnoc(k, last);
      }
    }
  }

  /** An entry whose key is new can be added to a dictionary. */
  lemma DistinctSnoc(k: seq<Entry>, x: Entry)
    requires DistinctKeys(k) && x.key !in Keys(k)
    ensures DistinctKeys(k + [x])
    ensures Keys(k + [x]) == Keys(k) + {x.key}
  {
    var v := k + [x];
    assert v[..|v| - 1] == k;
    KeysSnoc(v);
    forall i, j | 0 <= i < j < |v| ensures v[i].key != v[j].key {
      if j == |k| {
        assert v[i].key in Keys(k);
      } else {
        assert v[i] == k[i] && v[j] == k[j];
      }
    }
  }

  lemma {:induction false} KeptOfNoneDropped(f: Filter, names: seq<string>, s: seq<Entry>)
    requires forall i :: 0 <= i < |s| ==> !Drops(f, names, s[i])
    ensures KeptOf(f, names, s) == s
  {
    if s != [] {
      var init, last := s[..|s| - 1], s[|s| - 1];
      forall i | 0 <= i < |init| ensures !Drops(f, names, init[i]) {
        assert init[i] == s[i];
      }
      KeptOfNoneDropped(f, names, init);
      assert !Drops(f, names, last);
      InitLast(s);
    }
  }

  /**
   * Running a filter on its own output removes nothing: the record comes
   * back unchanged and the report is empty.
   */
  lemma FilterIdempotent(f: Filter, e: EdgeEvidence)
    ensures Applied(f, Applied(f, e)) == Applied(f, e)
    ensures FilterReport(f, Applied(f, e)) == ""
  {
    var k := KeptOf(f, e.names, e.stmts);
    forall i | 0 <= i < |k| ensures !Drops(f, e.names, k[i]) {
      KeptExactly(f, e.names, e.stmts, k[i]);
    }
    KeptOfNoneDropped(f, e.names, k);
  }

  /** Filtering leaves a record its filter accepts still acceptable to it. */
  lemma AcceptsApplied(f: Filter, e: EdgeEvidence, g: Filter)
    requires Accepts(g, e)
    ensures Accepts(g, Applied(f, e))
  {
    KeptDistinct(f, e.names, e.stmts);
    var k := KeptOf(f, e.names, e.stmts);
    forall i | 0 <= i < |k| ensures k[i] in e.stmts {
      KeptExactly(f, e.names, e.stmts, k[i]);
    }
  }

  /**
   * A filter reports "Removed <n> <reason>" with the number of statements it
   * deleted, and its report is empty exactly when its rule rejects none.
   */
  lemma ReportCountsRemovals(f: Filter, e: EdgeEvidence)
    ensures FilterReport(f, e) == "" <==> forall i :: 0 <= i < |e.stmts| ==> !Drops(f, e.names, e.stmts[i])
    ensures FilterReport(f, e) != "" ==>
      FilterReport(f, e) == "Removed " + NatToString(|e.stmts| - |Applied(f, e).stmts|) + " " + Reason(f) + "\n"
  {
    var n := |e.stmts| - |KeptOf(f, e.names, e.stmts)|;
    assert FilterReport(f, e) == Report(n, Reason(f));
    assert |Applied(f, e).stmts| == |KeptOf(f, e.names, e.stmts)|;
    ReportEmpty(n, Reason(f));
    assert n == 0 <==> forall i :: 0 <= i < |e.stmts| ==> !Drops(f, e.names, e.stmts[i]) by {
      RemovedNoneIff(f, e.names, e.stmts);
    }
  }

  /** A report line is empty exactly when nothing was removed. */
  lemma ReportEmpty(n: nat, reason: string)
    ensures Report(n, reason) == "" <==> n == 0
  {
    if n > 0 {
      assert Report(n, reason)[0] == 'R';
    }
  }

  /** No entry is removed exactly when the rule rejects none of them. */
  lemma RemovedNoneIff(f: Filter, names: seq<string>, s: seq<Entry>)
    ensures |KeptOf(f, names, s)| == |s| <==> forall i :: 0 <= i < |s| ==> !Drops(f, names, s[i])
  {
    if exists i :: 0 <= i < |s| && Drops(f, names, s[i]) {
      KeptShorter(f, names, s);
    } else {
      KeptOfNoneDropped(f, names, s);
    }
  }

  lemma {:induction false} KeptShorter(f: Filter, names: seq<string>, s: seq<Entry>)
    requires exists i :: 0 <= i < |s| && Drops(f, names, s[i])
    ensures |KeptOf(f, names, s)| < |s|
  {
    var init, last := s[..|s| - 1], s[|s| - 1];
    if Drops(f, names, last) {
      assert |KeptOf(f, names, s)| == |KeptOf(f, names, init)| <= |init|;
    } else {
      var i :| 0 <= i < |s| && Drops(f, names, s[i]);
      assert init[i] == s[i];
      KeptShorter(f, names, init);
    }
  }

  lemma {:induction false} KeptIsPrefixWhenFull(f: Filter, names: seq<string>, s: seq<Entry>)
    requires |KeptOf(f, names, s)| == |s|
    ensures KeptOf(f, names, s) == s
  {
    if s != [] {
      var init, last := s[..|s| - 1], s[|s| - 1];
      assert !Drops(f, names, last) by {
        assert |KeptOf(f, names, init)| <= |init|;
      }
      KeptIsPrefixWhenFull(f, names, init);
      InitLast(s);
    }
  }

  // ---------------------------------------------------------------------
  // Each filter's rule, stated on the record it returns

  /**
   * SingleReadingStatementFilter removes a statement exactly when its only
   * source is a reading system that gave at most one piece of evidence.
   */
  lemma SingleReadingRemoves(e: EdgeEvidence, en: Entry)
    requires Accepts(SingleReading, e) && en in e.stmts
    ensures en !in Applied(SingleReading, e).stmts <==>
      var sc := en.stmt.sourceCounts;
      |sc| == 1 && sc[0].source in ReadingSystems && sc[0].count <= 1
  {
    KeptExactly(SingleReading, e.names, e.stmts, en);
  }

  /** SparserComplexStatementFilter removes exactly the Complexes whose only source is sparser, whatever the count. */
  lemma SparserComplexRemoves(e: EdgeEvidence, en: Entry)
    requires Accepts(SparserComplex, e) && en in e.stmts
    ensures en !in Applied(SparserComplex, e).stmts <==>
      en.stmt.stmtType == "Complex" && |en.stmt.sourceCounts| == 1 && en.stmt.sourceCounts[0].source == "sparser"
  {
    KeptExactly(SparserComplex, e.names, e.stmts, en);
  }

  /** MedscanStatementFilter removes exactly the statements whose only source is medscan, whatever the type or count. */
  lemma MedscanRemoves(e: EdgeEvidence, en: Entry)
    requires Accepts(Medscan, e) && en in e.stmts
    ensures en !in Applied(Medscan, e).stmts <==>
      |en.stmt.sourceCounts| == 1 && en.stmt.sourceCounts[0].source == "medscan"
  {
    KeptExactly(Medscan, e.names, e.stmts, en);
  }

  /**
   * IncorrectStatementFilter removes a statement exactly when its id names
   * a hash that has curations and none of them is tagged correct,
   * hypothesis or act_vs_amt; an uncurated statement is always kept.
   */
  lemma IncorrectRemoves(curationList: seq<Curation>, index: map<int, seq<Curation>>, e: EdgeEvidence, en: Entry, h: int)
    requires forall h :: h in index <==> exists c :: c in curationList && c.paHash == h
    requires forall h :: h in index ==> index[h] == CurationsFor(curationList, h)
    requires Accepts(Incorrect(index), e) && en in e.stmts && ParseInt(en.key) == Some(h)
    ensures en !in Applied(Incorrect(index), e).stmts <==>
      && (exists c :: c in curationList && c.paHash == h)
      && (forall c :: c in curationList && c.paHash == h ==> c.tag !in CorrectTags)
  {
    KeptExactly(Incorrect(index), e.names, e.stmts, en);
    CurationsForExactly(curationList, h);
    if h in index {
      var cs := CurationsFor(curationList, h);
      if HasCorrectCuration(cs) {
        var i :| 0 <= i < |cs| && cs[i].tag in CorrectTags;
        assert cs[i] in cs;
      }
    }
  }

  /**
   * SelfLoopStatementFilter: when the declared names hold fewer than two
   * distinct values every statement goes and the count reported is the
   * original number; otherwise a statement goes exactly when the first and
   * third words of its period-stripped text are equal.
   */
  lemma SelfLoopRemoves(e: EdgeEvidence)
    requires Accepts(SelfLoop, e)
    ensures |NameSet(e.names)| <= 1 ==>
      Applied(SelfLoop, e).stmts == [] && FilterReport(SelfLoop, e) == Report(|e.stmts|, "self loop statements")
    ensures |NameSet(e.names)| > 1 ==> forall en :: en in e.stmts ==>
      (en !in Applied(SelfLoop, e).stmts <==> SelfLoopWords(en.stmt)[0] == SelfLoopWords(en.stmt)[2])
  {
    if |NameSet(e.names)| <= 1 {
      AllDropped(SelfLoop, e.names, e.stmts);
    } else {
      forall en | en in e.stmts
        ensures en !in Applied(SelfLoop, e).stmts <==> SelfLoopWords(en.stmt)[0] == SelfLoopWords(en.stmt)[2]
      {
        SelfLoopDecides(e, en);
      }
    }
  }

  /** With two distinct names, one statement goes exactly when its first and third words agree. */
  lemma SelfLoopDecides(e: EdgeEvidence, en: Entry)
    requires Accepts(SelfLoop, e) && |NameSet(e.names)| > 1 && en in e.stmts
    ensures |SelfLoopWords(en.stmt)| >= 3
    ensures en !in Applied(SelfLoop, e).stmts <==> SelfLoopWords(en.stmt)[0] == SelfLoopWords(en.stmt)[2]
  {
    var i :| 0 <= i < |e.stmts| && e.stmts[i] == en;
    assert |SelfLoopWords(e.stmts[i].stmt)| >= 3;
    KeptExactly(SelfLoop, e.names, e.stmts, en);
  }

  // ---------------------------------------------------------------------
  // The chain

  /** The record after applying `fs` left to right. */
  function Chain(fs: seq<Filter>, e: EdgeEvidence): EdgeEvidence {
    if fs == [] then e else Chain(fs[1..], Applied(fs[0], e))
  }

  /** Every filter of the chain accepts the record that reaches it. */
  predicate ChainAccepts(fs: seq<Filter>, e: EdgeEvidence) {
    fs == [] || (Accepts(fs[0], e) && ChainAccepts(fs[1..], Applied(fs[0], e)))
  }

  /** `Indra._filter_statements`: apply the filters in order; the reports are dropped. */
  method FilterStatements(fs: seq<Filter>, e: EdgeEvidence) returns (filtered: EdgeEvidence)
    requires ChainAccepts(fs, e)
    ensures filtered == Chain(fs, e)
  {
    if |fs| == 0 {
      return e;
    }
    filtered := e;
    for i := 0 to |fs|
      invariant ChainAccepts(fs[i..], filtered)
      invariant Chain(fs[i..], filtered) == Chain(fs, e)
    {
      assert fs[i..][1..] == fs[i + 1..];
      var report;
      filtered, report := ApplyFilter(fs[i], filtered);
    }
  }

  /** No filter of `fs` rejects `en`. */
  predicate KeptByAll(fs: seq<Filter>, names: seq<string>, en: Entry) {
    fs == [] || (!Drops(fs[0], names, en) && KeptByAll(fs[1..], names, en))
  }

  lemma {:induction false} KeptByAllMeans(fs: seq<Filter>, names: seq<string>, en: Entry)
    ensures KeptByAll(fs, names, en) <==> forall f :: f in fs ==> !Drops(f, names, en)
  {
    if fs != [] {
      KeptByAllMeans(fs[1..], names, en);
      assert forall f :: f in fs <==> f == fs[0] || f in fs[1..];
    }
  }

  /** The entries of `s` that no filter of `fs` rejects. */
  function Survivors(fs: seq<Filter>, names: seq<string>, s: seq<Entry>): seq<Entry> {
    if s == [] then []
    else Survivors(fs, names, s[..|s| - 1]) + (if KeptByAll(fs, names, s[|s| - 1]) then [s[|s| - 1]] else [])
  }

  lemma {:induction false} SurvivorsOfKept(f: Filter, gs: seq<Filter>, names: seq<string>, s: seq<Entry>)
    ensures Survivors(gs, names, KeptOf(f, names, s)) == Survivors([f] + gs, names, s)
  {
    if s != [] {
      var init, last := s[..|s| - 1], s[|s| - 1];
      SurvivorsOfKept(f, gs, names, init);
      var k := KeptOf(f, names, init);
      var fgs := [f] + gs;
      assert fgs[0] == f && fgs[1..] == gs;
      var drop := Drops(f, names, last);
      assert KeptByAll(fgs, names, last) == (!drop && KeptByAll(gs, names, last));
      if drop {
        assert KeptOf(f, names, s) == k;
        assert Survivors(fgs, names, s) == Survivors(fgs, names, init);
      } else {
        var v := k + [last];
        assert KeptOf(f, names, s) == v;
        assert v[..|v| - 1] == k && v[|v| - 1] == last;
        assert Survivors(gs, names, v) == Survivors(gs, names, k) + (if KeptByAll(gs, names, last) then [last] else []);
      }
    }
  }

  /**
   * The chain keeps exactly the statements no filter in it rejects, in
   * their original order.
   */
  lemma {:induction false} ChainKeeps(fs: seq<Filter>, e: EdgeEvidence)
    ensures Chain(fs, e) == e.(stmts := Survivors(fs, e.names, e.stmts))
  {
    if fs == [] {
      SurvivorsNone(e.names, e.stmts);
    } else {
      ChainKeeps(fs[1..], Applied(fs[0], e));
      SurvivorsOfKept(fs[0], fs[1..], e.names, e.stmts);
      assert [fs[0]] + fs[1..] == fs;
    }
  }

  lemma {:induction false} SurvivorsNone(names: seq<string>, s: seq<Entry>)
    ensures Survivors([], names, s) == s
  {
    if s != [] {
      SurvivorsNone(names, s[..|s| - 1]);
    }
  }

  lemma {:induction false} SurvivorsSameFilters(fs: seq<Filter>, gs: seq<Filter>, names: seq<string>, s: seq<Entry>)
    requires forall f :: f in fs <==> f in gs
    ensures Survivors(fs, names, s) == Survivors(gs, names, s)
  {
    if s != [] {
      SurvivorsSameFilters(fs, gs, names, s[..|s| - 1]);
      KeptByAllMeans(fs, names, s[|s| - 1]);
      KeptByAllMeans(gs, names, s[|s| - 1]);
    }
  }

  /**
   * The order of the filters in a chain does not matter: any chain made of
   * the same filters returns the same record. This is about the model's
   * total `Chain`. In the code, the order can decide whether a run raises:
   * a filter that removes a short statement first spares the self-loop
   * filter's `split_english[2]`. On records both chains accept
   * (`ChainAccepts`) the code runs to the end in both orders and agrees.
   */
  lemma ChainOrderIndependent(fs: seq<Filter>, gs: seq<Filter>, e: EdgeEvidence)
    requires forall f :: f in fs <==> f in gs
    ensures Chain(fs, e) == Chain(gs, e)
  {
    ChainKeeps(fs, e);
    ChainKeeps(gs, e);
    SurvivorsSameFilters(fs, gs, e.names, e.stmts);
  }

  /** The chain the loader runs: self loops, curations, single reading, sparser complexes. */
  function ProductionChain(curations: map<int, seq<Curation>>): seq<Filter> {
    [SelfLoop, Incorrect(curations), SingleReading, SparserComplex]
  }
}
