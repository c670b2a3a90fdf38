/**
 * The INDRA payload: statements, the per-pair evidence records that carry
 * them, and curations.
 */
module Evidence {

  /** One `source_counts` entry: an evidence source and how many pieces of evidence it gave. */
  datatype SourceCount = SourceCount(source: string, count: nat)

  /**
   * One INDRA statement. `sourceCounts` keeps the insertion order of the
   * payload's dictionary. The last five fields are written when the
   * statement is pooled under its node pair; before that they hold whatever
   * the payload carried.
   */
  datatype Stmt = Stmt(
    stmtHash: int,
    stmtType: string,
    evidenceCount: nat,
    sourceCounts: seq<SourceCount>,
    english: string,
    sourceNode: string,
    sourceNodeId: int,
    targetNode: string,
    targetNodeId: int,
    isReversed: bool)

  /** One entry of a `stmts` dictionary: the statement id (its hash as a string) and the statement. */
  datatype Entry = Entry(key: string, stmt: Stmt)

  /**
   * One record of the payload's `edges` list: the names of the entities in
   * its `edge` list and its `stmts` dictionary, in insertion order.
   */
  datatype EdgeEvidence = EdgeEvidence(names: seq<string>, stmts: seq<Entry>)

  /** A curation record: the statement hash it is about and its tag. */
  datatype Curation = Curation(paHash: int, tag: string)

  /** A dictionary never holds a key twice. */
  predicate DistinctKeys(stmts: seq<Entry>) {
    forall i, j :: 0 <= i < j < |stmts| ==> stmts[i].key != stmts[j].key
  }

  /** The keys of a `stmts` dictionary. */
  function Keys(stmts: seq<Entry>): set<string> {
    set i | 0 <= i < |stmts| :: stmts[i].key
  }
}
