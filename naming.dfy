/** Given-name generation: a DNS-label-safe display name derived from the
    hostname a device reports, made distinct with a random suffix when
    another device already holds it. The hostname normaliser and the
    random-string source are collaborators, passed in: `normalize` and the
    suffix it would have produced (or its error). */
module Naming {
  import opened Types
  import opened Tables

  const NodeGivenNameHashLength: nat := 8
  const NodeGivenNameTrimSize: nat := 2

  /** The DNS label length limit used by the util package. */
  const LabelHostnameLength: nat := 63

  /** How much of the normalised hostname survives when a suffix is added. */
  const TrimmedHostnameLength: nat := LabelHostnameLength - NodeGivenNameHashLength - NodeGivenNameTrimSize

  function Min(a: nat, b: nat): nat { if a <= b then a else b }

  /** `generateGivenName`: the normalised hostname, or, with `randomSuffix`,
      its first `TrimmedHostnameLength` characters, a hyphen and the
      8-character suffix. Errors of the normaliser and of the random source
      are passed through. */
  function BuildGivenName(
    suppliedName: string,
    randomSuffix: bool,
    normalize: string -> Result<string>,
    suffix: Result<string>
  ): (r: Result<string>)
    requires suffix.Ok? ==> |suffix.value| == NodeGivenNameHashLength
    ensures normalize(suppliedName).Err? || !randomSuffix ==> r == normalize(suppliedName)
    ensures normalize(suppliedName).Ok? && randomSuffix && suffix.Err? ==> r == Err(suffix.error)
    ensures normalize(suppliedName).Ok? && randomSuffix && suffix.Ok? ==>
              var base := normalize(suppliedName).value;
              var keep := Min(|base|, TrimmedHostnameLength);
              && r.Ok?
              && |r.value| == keep + 1 + NodeGivenNameHashLength
              && |r.value| <= LabelHostnameLength - 1
              && r.value[..keep] == base[..keep]
              && r.value[keep] == '-'
              && r.value[keep + 1..] == suffix.value
  {
    match normalize(suppliedName)
    case Err(e) => Err(e)
    case Ok(normalized) =>
      if !randomSuffix then Ok(normalized)
      else
        var trimmed := if |normalized| > TrimmedHostnameLength then normalized[..TrimmedHostnameLength] else normalized;
        match suffix
        case Err(e) => Err(e)
        case Ok(s) => Ok(trimmed + "-" + s)
  }

  /** `listNodesByGivenName`: the stored nodes holding `name`, in table order. */
  function NodesWithGivenName(nodes: seq<Node>, name: string): (r: seq<Node>)
    ensures forall n :: n in r <==> n in nodes && n.givenName == name
  {
    if nodes == [] then []
    else
      var init := NodesWithGivenName(nodes[..|nodes| - 1], name);
      var last := nodes[|nodes| - 1];
      assert nodes == nodes[..|nodes| - 1] + [last];
      if last.givenName == name then init + [last] else init
  }

  /** The last node in table order that holds `name`, if any. */
  function LastHolder(nodes: seq<Node>, name: string): (r: Option<Node>)
    ensures r.None? <==> forall n :: n in nodes ==> n.givenName != name
    ensures r.Some? ==> r.value in nodes && r.value.givenName == name
    ensures r.Some? ==> exists k :: 0 <= k < |nodes| && nodes[k] == r.value &&
                          forall j :: k < j < |nodes| ==> nodes[j].givenName != name
  {
    if nodes == [] then None
    else
      var init := nodes[..|nodes| - 1];
      var last := nodes[|nodes| - 1];
      assert nodes == init + [last];
      if last.givenName == name then Some(last)
      else
        var r := LastHolder(init, name);
        if r.Some? then
          var k :| 0 <= k < |init| && init[k] == r.value &&
                   forall j :: k < j < |init| ==> init[j].givenName != name;
          assert nodes[k] == r.value;
          r
        else r
  }

  /** In a node table in key order, the last holder is the highest-keyed one. */
  lemma {:induction false} LastHolderHighestKey(nodes: seq<Node>, name: string)
    requires NodesKeyOrdered(nodes) && LastHolder(nodes, name).Some?
    ensures forall n :: n in nodes && n.givenName == name ==> n.id <= LastHolder(nodes, name).value.id
  {
    var init, last := nodes[..|nodes| - 1], nodes[|nodes| - 1];
    LastAboveInit(nodes);
    if last.givenName != name {
      assert LastHolder(nodes, name) == LastHolder(init, name);
      LastHolderHighestKey(init, name);
    }
  }

  lemma LastAboveInit(nodes: seq<Node>)
    requires NodesKeyOrdered(nodes) && nodes != []
    ensures NodesKeyOrdered(nodes[..|nodes| - 1])
    ensures forall n :: n in nodes ==> n == nodes[|nodes| - 1] || n in nodes[..|nodes| - 1]
    ensures forall n :: n in nodes[..|nodes| - 1] ==> n.id < nodes[|nodes| - 1].id
  {
    var init := nodes[..|nodes| - 1];
    forall n | n in init ensures n.id < nodes[|nodes| - 1].id {
      var j :| 0 <= j < |init| && init[j] == n;
      assert nodes[j] == n;
    }
    assert nodes == init + [nodes[|nodes| - 1]];
  }

  /** Looking through the listing of holders finds the same last holder as
      looking through the whole table. */
  lemma {:induction false} LastHolderOfListing(nodes: seq<Node>, name: string)
    ensures LastHolder(NodesWithGivenName(nodes, name), name) == LastHolder(nodes, name)
  {
    if nodes != [] {
      var init := nodes[..|nodes| - 1];
      LastHolderOfListing(init, name);
      var last := nodes[|nodes| - 1];
      if last.givenName == name {
        var listed := NodesWithGivenName(init, name) + [last];
        assert listed[..|listed| - 1] == NodesWithGivenName(init, name);
      }
    }
  }

  /** A suffix is needed when the last node holding the name belongs to a
      different machine. */
  predicate NeedsSuffix(nodes: seq<Node>, givenName: string, mkey: MachineKey) {
    var holder := LastHolder(nodes, givenName);
    holder.Some? && holder.value.machineKey != mkey
  }

  /** `GenerateGivenName`: the normalised hostname when no stored node holds
      it or the last one holding it is the same machine; otherwise the
      suffixed form. */
  method GenerateGivenName(
    nodes: seq<Node>,
    mkey: MachineKey,
    suppliedName: string,
    normalize: string -> Result<string>,
    suffix: Result<string>
  ) returns (r: Result<string>)
    requires suffix.Ok? ==> |suffix.value| == NodeGivenNameHashLength
    ensures normalize(suppliedName).Err? ==> r == normalize(suppliedName)
    ensures normalize(suppliedName).Ok? && !NeedsSuffix(nodes, normalize(suppliedName).value, mkey) ==>
              r == normalize(suppliedName)
    ensures normalize(suppliedName).Ok? && NeedsSuffix(nodes, normalize(suppliedName).value, mkey) ==>
              r == BuildGivenName(suppliedName, true, normalize, suffix)
  {
    var plain := BuildGivenName(suppliedName, false, normalize, suffix);
    if plain.Err? {
      return plain;
    }
    var givenName := plain.value;
    var listed := NodesWithGivenName(nodes, givenName);
    var nodeFound: Option<Node> := None;
    for idx := 0 to |listed|
      invariant nodeFound == LastHolder(listed[..idx], givenName)
    {
      assert listed[..idx + 1][..idx] == listed[..idx];
      if listed[idx].givenName == givenName {
        nodeFound := Some(listed[idx]);
      }
    }
    assert listed[..|listed|] == listed;
    LastHolderOfListing(nodes, givenName);
    if nodeFound.Some? && nodeFound.value.machineKey != mkey {
      var postfixed := BuildGivenName(suppliedName, true, normalize, suffix);
      if postfixed.Err? {
        return postfixed;
      }
      givenName := postfixed.value;
    }
    return Ok(givenName);
  }
}
