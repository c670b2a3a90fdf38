/**
 * From the network's nodes to the names INDRA is asked about and back:
 * family members, the name-to-node-id lookup, and the query name list.
 * A node is abstracted to its id, its name and its `member` attribute.
 */
module Lookup {

  /** The value of a node's `member` attribute, as the network API returns it. */
  datatype MemberAttr =
    | NoAttr                          // no attribute, or the `(None, None)` pair
    | ListAttr(entries: seq<string>)  // a list value
    | ScalarAttr(value: string)       // any other value

  datatype Node = Node(id: int, name: string, member: MemberAttr)

  const HgncPrefix: string := "hgnc.symbol:"

  /** One member entry with the `hgnc.symbol:` prefix removed when it has one. */
  function StripHgnc(entry: string): (name: string)
    ensures |HgncPrefix| <= |entry| && entry[..|HgncPrefix|] == HgncPrefix ==> HgncPrefix + name == entry
    ensures !(|HgncPrefix| <= |entry| && entry[..|HgncPrefix|] == HgncPrefix) ==> name == entry
  {
    if |HgncPrefix| <= |entry| && entry[..|HgncPrefix|] == HgncPrefix then entry[|HgncPrefix|..] else entry
  }

  /** Prefixing a name and stripping it again gives the name back. */
  lemma StripHgncPrefixed(name: string)
    ensures StripHgnc(HgncPrefix + name) == name
  {
    assert (HgncPrefix + name)[..|HgncPrefix|] == HgncPrefix;
  }

  /** The member names of a node: empty unless the attribute is a list. */
  function Members(attr: MemberAttr): seq<string> {
    match attr
    case ListAttr(entries) => seq(|entries|, i requires 0 <= i < |entries| => StripHgnc(entries[i]))
    case _ => []
  }

  /** `get_members_of_family_node`. */
  method MembersOfFamilyNode(attr: MemberAttr) returns (names: seq<string>)
    ensures attr.ListAttr? ==>
      && |names| == |attr.entries|
      && forall i :: 0 <= i < |names| ==> names[i] == StripHgnc(attr.entries[i])
    ensures !attr.ListAttr? ==> names == []
    ensures names == Members(attr)
  {
    if !attr.ListAttr? {
      return [];
    }
    var mList := attr.entries;
    names := [];
    for i := 0 to |mList|
      invariant |names| == i
      invariant forall j :: 0 <= j < i ==> names[j] == StripHgnc(mList[j])
    {
      names := names + [StripHgnc(mList[i])];
    }
  }

  /** The names a node is known by: its members, then its own name. */
  function Mentions(node: Node): seq<string> {
    Members(node.member) + [node.name]
  }

  /** `d` after `d[n] = id` for each `n` of `names` in turn. */
  function Assign(d: map<string, int>, names: seq<string>, id: int): map<string, int> {
    if names == [] then d else Assign(d, names[..|names| - 1], id)[names[|names| - 1] := id]
  }

  lemma {:induction false} AssignMeans(d: map<string, int>, names: seq<string>, id: int, k: string)
    ensures k in Assign(d, names, id) <==> k in d || k in names
    ensures k in names ==> Assign(d, names, id)[k] == id
    ensures k !in names && k in d ==> Assign(d, names, id)[k] == d[k]
  {
    if names != [] {
      AssignMeans(d, names[..|names| - 1], id, k);
      assert names == names[..|names| - 1] + [names[|names| - 1]];
    }
  }

  /** The lookup after the nodes of `nodes` have been visited in order. */
  function NameIndex(nodes: seq<Node>): map<string, int> {
    if nodes == [] then map[]
    else
      var last := nodes[|nodes| - 1];
      Assign(NameIndex(nodes[..|nodes| - 1]), Mentions(last), last.id)
  }

  /** `get_node_name_to_id_dict`. */
  method NodeNameToId(nodes: seq<Node>) returns (index: map<string, int>)
    ensures index == NameIndex(nodes)
  {
    index := map[];
    for i := 0 to |nodes|
      invariant index == NameIndex(nodes[..i])
    {
      var node := nodes[i];
      assert nodes[..i + 1][..i] == nodes[..i];
      var members := MembersOfFamilyNode(node.member);
      var before := index;
      for j := 0 to |members|
        invariant index == Assign(before, members[..j], node.id)
      {
        assert members[..j + 1][..j] == members[..j];
        index := index[members[j] := node.id];
      }
      assert members[..|members|] == members;
      index := index[node.name := node.id];
      assert (members + [node.name])[..|members|] == members;
    }
    assert nodes[..|nodes|] == nodes;
  }

  /** Node `i` mentions `name` and no later node does. */
  predicate LastMention(nodes: seq<Node>, name: string, i: int) {
    && 0 <= i < |nodes|
    && name in Mentions(nodes[i])
    && forall j :: i < j < |nodes| ==> name !in Mentions(nodes[j])
  }

  /** A name is in the lookup exactly when some node mentions it. */
  lemma NameIndexKeys(nodes: seq<Node>, name: string)
    ensures name in NameIndex(nodes) <==> exists i :: 0 <= i < |nodes| && name in Mentions(nodes[i])
  {
    if name in NameIndex(nodes) {
      var i := NameIndexWitness(nodes, name);
    } else {
      NameIndexLacks(nodes, name);
    }
  }

  /** A name in the lookup was mentioned by some node; returns that node's position. */
  lemma {:induction false} NameIndexWitness(nodes: seq<Node>, name: string) returns (i: int)
    requires name in NameIndex(nodes)
    ensures 0 <= i < |nodes| && name in Mentions(nodes[i])
  {
    var init, last := nodes[..|nodes| - 1], nodes[|nodes| - 1];
    AssignMeans(NameIndex(init), Mentions(last), last.id, name);
    if name in Mentions(last) {
      i := |nodes| - 1;
    } else {
      i := NameIndexWitness(init, name);
      assert init[i] == nodes[i];
    }
  }

  /** A name missing from the lookup is mentioned by no node. */
  lemma {:induction false} NameIndexLacks(nodes: seq<Node>, name: string)
    requires name !in NameIndex(nodes)
    ensures forall i :: 0 <= i < |nodes| ==> name !in Mentions(nodes[i])
  {
    if nodes != [] {
      var init, last := nodes[..|nodes| - 1], nodes[|nodes| - 1];
      assert name !in NameIndex(init) && name !in Mentions(last) by {
        AssignMeans(NameIndex(init), Mentions(last), last.id, name);
      }
      NameIndexLacks(init, name);
      forall i | 0 <= i < |nodes| ensures name !in Mentions(nodes[i]) {
        if i < |init| {
          assert init[i] == nodes[i];
        }
      }
    }
  }

  /** A name maps to the id of the last node that mentions it: later writes win. */
  lemma {:induction false} NameIndexLastWins(nodes: seq<Node>, name: string, i: int)
    requires LastMention(nodes, name, i)
    ensures name in NameIndex(nodes) && NameIndex(nodes)[name] == nodes[i].id
  {
    var init, last := nodes[..|nodes| - 1], nodes[|nodes| - 1];
    AssignMeans(NameIndex(init), Mentions(last), last.id, name);
    if i < |nodes| - 1 {
      assert name !in Mentions(last);
      assert init[i] == nodes[i];
      assert forall j :: i < j < |init| ==> init[j] == nodes[j];
      NameIndexLastWins(init, name, i);
    }
  }

  /** The names INDRA is asked about: each node's name followed by its members. */
  function QueryNameList(nodes: seq<Node>): seq<string> {
    if nodes == [] then []
    else
      var last := nodes[|nodes| - 1];
      QueryNameList(nodes[..|nodes| - 1]) + [last.name] + Members(last.member)
  }

  /** The `name` fields of `_get_indra_query_dict`, in order. */
  method QueryNames(nodes: seq<Node>) returns (names: seq<string>)
    ensures names == QueryNameList(nodes)
  {
    names := [];
    for i := 0 to |nodes|
      invariant names == QueryNameList(nodes[..i])
    {
      assert nodes[..i + 1][..i] == nodes[..i];
      var members := MembersOfFamilyNode(nodes[i].member);
      names := names + [nodes[i].name] + members;
    }
    assert nodes[..|nodes|] == nodes;
  }

  /**
   * Every name sent to INDRA can be looked up again, and every name in the
   * lookup was sent: the two walks visit the same names.
   */
  lemma {:induction false} QueryNamesAreLookupKeys(nodes: seq<Node>)
    ensures forall n :: n in QueryNameList(nodes) <==> n in NameIndex(nodes)
  {
    if nodes != [] {
      var init, last := nodes[..|nodes| - 1], nodes[|nodes| - 1];
      QueryNamesAreLookupKeys(init);
      forall n ensures n in QueryNameList(nodes) <==> n in NameIndex(nodes) {
        AssignMeans(NameIndex(init), Mentions(last), last.id, n);
        assert n in QueryNameList(nodes) <==> n in QueryNameList(init) || n in [last.name] + Members(last.member);
        assert n in [last.name] + Members(last.member) <==> n in Mentions(last);
      }
    }
  }
}
