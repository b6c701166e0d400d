/** Looking up the network of one address (get_net) and building its tree
    (get_net_extended_tree, get_net_props). The store's answers are inputs:
    the rows routing a block (`routed`), and the property rows of a
    network by its vrfcidr (`propsOf`). */
module NetTree {
  import opened Basics
  import opened Text
  import opened Ipv4
  import opened Dedup
  import opened NgTree
  import opened CidrResolver

  // ---------------------------------------------------------------------
  // get_net_props
  // ---------------------------------------------------------------------

  /** The rows merged key by key, a later row overwriting an earlier one. */
  function MergeRows(rows: seq<Row>): Row
    decreases |rows|
  {
    if rows == [] then map[] else MergeRows(rows[..|rows| - 1]) + rows[|rows| - 1]
  }

  /** get_net_props: copy every key of every row into one dict. */
  method GetNetProps(rows: seq<Row>) returns (d: Row)
    ensures d == MergeRows(rows)
  {
    d := map[];
    for i := 0 to |rows|
      invariant d == MergeRows(rows[..i])
    {
      assert rows[..i + 1][..i] == rows[..i];
      var row := rows[i];
      var keys := row.Keys;
      ghost var before := d;
      while keys != {}
        invariant keys <= row.Keys
        invariant d.Keys == before.Keys + (row.Keys - keys)
        invariant forall k :: k in d ==> d[k] == if k in row.Keys - keys then row[k] else before[k]
        decreases keys
      {
        var k :| k in keys;
        d := d[k := row[k]];
        keys := keys - {k};
      }
      assert d == before + row;
    }
    assert rows[..|rows|] == rows;
  }

  /** A key is in the merge exactly when some row has it, and its value is
      the one of the last row that has it; `i` is that row, or -1. */
  lemma {:induction false} MergeRowsLastWins(rows: seq<Row>, k: string) returns (i: int)
    ensures -1 <= i < |rows|
    ensures i == -1 <==> k !in MergeRows(rows)
    ensures i == -1 ==> forall j :: 0 <= j < |rows| ==> k !in rows[j]
    ensures i >= 0 ==> k in rows[i] && MergeRows(rows)[k] == rows[i][k]
    ensures i >= 0 ==> forall j :: i < j < |rows| ==> k !in rows[j]
    decreases |rows|
  {
    if rows == [] {
      i := -1;
    } else {
      var front := rows[..|rows| - 1];
      var last := rows[|rows| - 1];
      if k in last {
        i := |rows| - 1;
      } else {
        i := MergeRowsLastWins(front, k);
        assert forall j :: 0 <= j < |front| ==> front[j] == rows[j];
      }
    }
  }

  /** The last row of `rows` that has key `k` gives it the value `v`. */
  ghost predicate LastValue(rows: seq<Row>, k: string, v: Value) {
    exists i :: 0 <= i < |rows| && k in rows[i] && rows[i][k] == v
      && forall j :: i < j < |rows| ==> k !in rows[j]
  }

  /** The merge holds exactly the keys some row has, each with the value of
      the last row that has it. */
  lemma MergeRowsKeys(rows: seq<Row>)
    ensures forall k :: k in MergeRows(rows) <==> exists i :: 0 <= i < |rows| && k in rows[i]
    ensures forall k :: k in MergeRows(rows) ==> LastValue(rows, k, MergeRows(rows)[k])
  {
    forall k
      ensures k in MergeRows(rows) <==> exists i :: 0 <= i < |rows| && k in rows[i]
      ensures k in MergeRows(rows) ==> LastValue(rows, k, MergeRows(rows)[k])
    {
      var i := MergeRowsLastWins(rows, k);
    }
  }

  // ---------------------------------------------------------------------
  // one CIDR child of the extended tree
  // ---------------------------------------------------------------------

  /** One routed record: the network's properties, its router's, and its
      standby router's when there is one. */
  datatype RoutedRow = RoutedRow(net: Row, router: Row, standby: Option<Row>)

  /** The standby router's name, when the record has a standby router. */
  function StandbyName(row: RoutedRow): Result<Option<Value>> {
    match row.standby
    case None => Ok(None)
    case Some(props) =>
      var name :- Get(props, "name");
      Ok(Some(name))
  }

  /** The record's vrfcidr, the key the extended tree deduplicates on. */
  function VrfcidrOf(row: RoutedRow): Value {
    if "vrfcidr" in row.net then row.net["vrfcidr"] else Null
  }

  /** `if ip:` for the optional address argument. */
  predicate HasIp(ip: Option<string>) {
    ip.Some? && ip.value != ""
  }

  /** What a CIDR child shows of its block: netmask, broadcast address and
      size figure, as text. */
  datatype Figures = Figures(netmask: string, broadcast: string, size: string)

  /** str(subnet.netmask), str(subnet.broadcast_address) and the size
      text of a block. */
  function BlockFigures(subnet: Network): Figures
    requires Valid(subnet)
  {
    Figures(FormatAddress(Netmask(subnet.prefix)), FormatAddress(Broadcast(subnet)), SizeText(subnet))
  }

  /** The netmask and broadcast texts read back as the block's netmask and
      broadcast address. */
  lemma BlockFiguresParse(subnet: Network)
    requires Valid(subnet)
    ensures ParseAddress(BlockFigures(subnet).netmask) == Ok(Netmask(subnet.prefix))
    ensures ParseAddress(BlockFigures(subnet).broadcast) == Ok(Broadcast(subnet))
    ensures BlockFigures(subnet).size == SizeText(subnet)
  {
    AddressRoundTrip(Netmask(subnet.prefix));
    AddressRoundTrip(Broadcast(subnet));
  }

  /** Every key the CIDR child reads is there: the network's cidr,
      vrfcidr, vrf, desc, gateway and vid, the router's name, and the
      security level whenever the extended properties give a role. */
  predicate ChildBuilds(row: RoutedRow, ext: Row) {
    && "cidr" in row.net && "vrfcidr" in row.net && "vrf" in row.net
    && "desc" in row.net && "gateway" in row.net
    && ("NetRole" in ext ==> "SecurityLevel" in ext)
    && "name" in row.router && "vid" in row.net
  }

  /** The first key the CIDR child misses, in the order it reads them. */
  function ChildError(row: RoutedRow, ext: Row): Error
    requires !ChildBuilds(row, ext)
  {
    if "cidr" !in row.net then MissingKey("cidr")
    else if "vrfcidr" !in row.net then MissingKey("vrfcidr")
    else if "vrf" !in row.net then MissingKey("vrf")
    else if "desc" !in row.net then MissingKey("desc")
    else if "gateway" !in row.net then MissingKey("gateway")
    else if "NetRole" in ext && "SecurityLevel" !in ext then MissingKey("SecurityLevel")
    else if "name" !in row.router then MissingKey("name")
    else MissingKey("vid")
  }

  /** The attributes a CIDR child has only when their condition holds. */
  function OptionalAttrs(ip: Option<string>, row: RoutedRow, standby: Option<Value>, ext: Row)
    : map<string, Value>
    requires ChildBuilds(row, ext)
  {
    var withIp: map<string, Value> := if HasIp(ip) then map["IP" := Str(ip.value)] else map[];
    var withRole :=
      if "NetRole" in ext then withIp["Role" := ext["NetRole"]]["Security Level" := ext["SecurityLevel"]] else withIp;
    var withLocation :=
      if "location" in row.router then withRole["Location" := row.router["location"]] else withRole;
    var withStandby :=
      if standby.Some? && Truthy(standby.value) then withLocation["StandbyRouter" := standby.value] else withLocation;
    if Truthy(row.net["vid"]) then withStandby["VLAN" := row.net["vid"]] else withStandby
  }

  /** The attributes of the CIDR child: the optional ones, and the ones
      every CIDR child has. */
  function ChildAttrs(fig: Figures, ip: Option<string>, row: RoutedRow, standby: Option<Value>, ext: Row)
    : (m: map<string, Value>)
    requires ChildBuilds(row, ext)
    ensures "vrfcidr" in m && m["vrfcidr"] == row.net["vrfcidr"]
  {
    OptionalAttrs(ip, row, standby, ext)
      ["vrfcidr" := row.net["vrfcidr"]]
      ["Netmask" := Str(fig.netmask)]
      ["VRF" := row.net["vrf"]]
      ["Description" := row.net["desc"]]
      ["Gateway" := row.net["gateway"]]
      ["Broadcast" := Str(fig.broadcast)]
      ["Size" := Str(fig.size)]
      ["Router" := row.router["name"]]
  }

  /** The CIDR child get_net_extended_tree builds for a record of a block
      with figures `fig`, given the standby router's name and the merged
      extended properties `ext`; a missing key raises KeyError. */
  function CidrChild(fig: Figures, ip: Option<string>, row: RoutedRow, standby: Option<Value>, ext: Row)
    : (r: Result<Node>)
    ensures r.Ok? <==> ChildBuilds(row, ext)
    ensures r.Err? ==> r.error.MissingKey?
  {
    if !ChildBuilds(row, ext) then Err(ChildError(row, ext))
    else Ok(Node(row.net["cidr"], "CIDR", ChildAttrs(fig, ip, row, standby, ext), []))
  }

  /** The stored attributes of a CIDR child: its name is the cidr, and it
      carries the record's vrfcidr, VRF, description, gateway and router. */
  lemma CidrChildStored(fig: Figures, ip: Option<string>, row: RoutedRow, standby: Option<Value>, ext: Row)
    requires ChildBuilds(row, ext)
    ensures var c := CidrChild(fig, ip, row, standby, ext).value;
      && c.name == row.net["cidr"] && c.nodeType == "CIDR" && c.children == []
      && c.attrs["vrfcidr"] == row.net["vrfcidr"]
      && c.attrs["VRF"] == row.net["vrf"] && c.attrs["Description"] == row.net["desc"]
      && c.attrs["Gateway"] == row.net["gateway"] && c.attrs["Router"] == row.router["name"]
  {
  }

  /** The computed attributes of a CIDR child: the block's netmask,
      broadcast address and size figure. */
  lemma CidrChildFigures(fig: Figures, ip: Option<string>, row: RoutedRow, standby: Option<Value>, ext: Row)
    requires ChildBuilds(row, ext)
    ensures var c := CidrChild(fig, ip, row, standby, ext).value;
      && c.attrs["Netmask"] == Str(fig.netmask) && c.attrs["Broadcast"] == Str(fig.broadcast)
      && c.attrs["Size"] == Str(fig.size)
  {
  }

  /** The optional attributes of a CIDR child that depend on the query and
      the network: IP when an address was given, Role and Security Level
      when the network has a role. */
  lemma CidrChildIpAndRole(fig: Figures, ip: Option<string>, row: RoutedRow, standby: Option<Value>, ext: Row)
    requires ChildBuilds(row, ext)
    ensures var a := CidrChild(fig, ip, row, standby, ext).value.attrs;
      && ("IP" in a <==> HasIp(ip))
      && (HasIp(ip) ==> a["IP"] == Str(ip.value))
      && ("Role" in a <==> "NetRole" in ext)
      && ("Security Level" in a <==> "NetRole" in ext)
      && ("NetRole" in ext ==> a["Role"] == ext["NetRole"] && a["Security Level"] == ext["SecurityLevel"])
  {
  }

  /** The optional attributes of a CIDR child that depend on the record:
      Location when the router has one, StandbyRouter when the standby's
      name is truthy, VLAN when the vid is. */
  lemma CidrChildRouterAndVlan(fig: Figures, ip: Option<string>, row: RoutedRow, standby: Option<Value>, ext: Row)
    requires ChildBuilds(row, ext)
    ensures var a := CidrChild(fig, ip, row, standby, ext).value.attrs;
      && ("Location" in a <==> "location" in row.router)
      && ("location" in row.router ==> a["Location"] == row.router["location"])
      && ("StandbyRouter" in a <==> standby.Some? && Truthy(standby.value))
      && (standby.Some? && Truthy(standby.value) ==> a["StandbyRouter"] == standby.value)
      && ("VLAN" in a <==> Truthy(row.net["vid"]))
      && (Truthy(row.net["vid"]) ==> a["VLAN"] == row.net["vid"])
  {
  }

  // ---------------------------------------------------------------------
  // get_net_extended_tree
  // ---------------------------------------------------------------------

  /** The merged extended properties of the network with this vrfcidr. */
  function ExtendedProps(propsOf: Value -> seq<Row>, vrfcidr: Value): Row {
    MergeRows(propsOf(vrfcidr))
  }

  /** The children the loop adds for `rows`, when the vrfcidrs in `seen`
      are already matched: a record with a new vrfcidr adds its CIDR child,
      a record with a matched one adds nothing. */
  function ExtendedFrom(fig: Figures, ip: Option<string>, rows: seq<RoutedRow>, seen: set<Value>,
                        propsOf: Value -> seq<Row>): Result<seq<Node>>
    decreases |rows|
  {
    if rows == [] then Ok([])
    else
      var row := rows[0];
      var standby :- StandbyName(row);
      var key :- Get(row.net, "vrfcidr");
      if key in seen then ExtendedFrom(fig, ip, rows[1..], seen, propsOf)
      else
        var child :- CidrChild(fig, ip, row, standby, ExtendedProps(propsOf, key));
        var rest :- ExtendedFrom(fig, ip, rows[1..], seen + {key}, propsOf);
        Ok([child] + rest)
  }

  /** The root: the caller's tree, or a new "Parent" node named `ngname`. */
  function RootOf(given: Option<Node>, ngname: string): Node {
    if given.Some? then given.value else Node(Str(ngname), "Parent", map[], [])
  }

  /** `root` with the CIDR children of `rows` appended. */
  function TreeUnder(fig: Figures, ip: Option<string>, root: Node, rows: seq<RoutedRow>,
                     propsOf: Value -> seq<Row>): Result<Node>
  {
    var kids :- ExtendedFrom(fig, ip, rows, {}, propsOf);
    Ok(root.(children := root.children + kids))
  }

  /** get_net_extended_tree(net, ip, ngtree, ngname) over the routed
      records of `net`: the block is parsed strictly first. */
  function ExtendedTreeSpec(net: string, ip: Option<string>, given: Option<Node>, ngname: string,
                            rows: seq<RoutedRow>, propsOf: Value -> seq<Row>): Result<Node>
  {
    var subnet :- ParseNetwork(net);
    TreeUnder(BlockFigures(subnet), ip, RootOf(given, ngname), rows, propsOf)
  }

  /** The loop of get_net_extended_tree: for each record, look up the
      standby's name and the vrfcidr, and for a vrfcidr not yet matched
      merge its extended properties and add its CIDR child. */
  method AddCidrChildren(tree: NGTree, fig: Figures, ip: Option<string>, rows: seq<RoutedRow>,
                         propsOf: Value -> seq<Row>)
    returns (r: Result<Node>)
    requires tree.Valid()
    modifies tree
    ensures r == TreeUnder(fig, ip, old(tree.Snapshot()), rows, propsOf)
    ensures tree.Valid()
    ensures r.Ok? ==> tree.Snapshot() == r.value
  {
    ghost var root := tree.Snapshot();
    ghost var all := ExtendedFrom(fig, ip, rows, {}, propsOf);
    ghost var added: seq<Node> := [];
    var matches: set<Value> := {};
    var i := 0;
    assert rows[i..] == rows;
    PrependNothing(all);
    while i < |rows|
      invariant 0 <= i <= |rows|
      invariant tree.Valid()
      invariant tree.name == root.name && tree.treeType == root.nodeType && tree.attrs == root.attrs
      invariant tree.children == root.children + added
      invariant all == Prepend(added, ExtendedFrom(fig, ip, rows[i..], matches, propsOf))
    {
      assert rows[i..][1..] == rows[i + 1..];
      var row := rows[i];
      var standby := StandbyName(row);
      if standby.Err? {
        return Err(standby.error);
      }
      var key := Get(row.net, "vrfcidr");
      if key.Err? {
        return Err(key.error);
      }
      if key.value !in matches {
        var ext := GetNetProps(propsOf(key.value));
        var child := CidrChild(fig, ip, row, standby.value, ext);
        if child.Err? {
          return Err(child.error);
        }
        ghost var rest := ExtendedFrom(fig, ip, rows[i + 1..], matches + {key.value}, propsOf);
        PrependChild(added, child.value, rest);
        matches := matches + {key.value};
        tree.AddChild(child.value);
        added := added + [child.value];
      }
      i := i + 1;
    }
    assert rows[i..] == [];
    assert all == Ok(added + []);
    assert added + [] == added;
    return Ok(tree.Snapshot());
  }

  method GetNetExtendedTree(net: string, ip: Option<string>, given: Option<Node>, ngname: string,
                            rows: seq<RoutedRow>, propsOf: Value -> seq<Row>)
    returns (r: Result<Node>)
    ensures r == ExtendedTreeSpec(net, ip, given, ngname, rows, propsOf)
  {
    var parsed := ParseNetwork(net);
    if parsed.Err? {
      return Err(parsed.error);
    }
    var fig := BlockFigures(parsed.value);
    var tree: NGTree;
    if given.None? {
      tree := new NGTree(Str(ngname), "Parent");
    } else {
      tree := new NGTree.FromNode(given.value);
    }
    assert tree.Snapshot() == RootOf(given, ngname);
    r := AddCidrChildren(tree, fig, ip, rows, propsOf);
  }

  /** The block is checked before anything else: an unparsable `net` fails
      even when no record routes it; a parsable one with no records gives
      back the root as it was. */
  lemma ExtendedTreeWithoutRows(net: string, ip: Option<string>, given: Option<Node>, ngname: string,
                                propsOf: Value -> seq<Row>)
    ensures ParseNetwork(net).Err? ==>
      ExtendedTreeSpec(net, ip, given, ngname, [], propsOf) == Err(ParseNetwork(net).error)
    ensures ParseNetwork(net).Ok? ==>
      ExtendedTreeSpec(net, ip, given, ngname, [], propsOf) == Ok(RootOf(given, ngname))
  {
    if ParseNetwork(net).Ok? {
      var root := RootOf(given, ngname);
      var t := TreeUnder(BlockFigures(ParseNetwork(net).value), ip, root, [], propsOf);
      assert t.value.children == root.children;
      assert t.value == root;
    }
  }

  /** The errors get_net_extended_tree raises: the block's ValueError, or
      a KeyError from a record. */
  lemma ExtendedTreeErrors(net: string, ip: Option<string>, given: Option<Node>, ngname: string,
                           rows: seq<RoutedRow>, propsOf: Value -> seq<Row>)
    ensures ExtendedTreeSpec(net, ip, given, ngname, rows, propsOf).Err? ==>
      var e := ExtendedTreeSpec(net, ip, given, ngname, rows, propsOf).error;
      IsValueError(e) || e.MissingKey?
  {
    ParseNetworkErrors(net);
    if ParseNetwork(net).Ok? {
      ExtendedErrorsAreMissingKeys(BlockFigures(ParseNetwork(net).value), ip, rows, {}, propsOf);
    }
  }

  /** The errors the loop can raise are missing keys. */
  lemma {:induction false} ExtendedErrorsAreMissingKeys(fig: Figures, ip: Option<string>, rows: seq<RoutedRow>,
                                                        seen: set<Value>, propsOf: Value -> seq<Row>)
    ensures ExtendedFrom(fig, ip, rows, seen, propsOf).Err? ==>
      ExtendedFrom(fig, ip, rows, seen, propsOf).error.MissingKey?
    decreases |rows|
  {
    if rows != [] {
      var key := Get(rows[0].net, "vrfcidr");
      ExtendedErrorsAreMissingKeys(fig, ip, rows[1..], seen, propsOf);
      if key.Ok? {
        ExtendedErrorsAreMissingKeys(fig, ip, rows[1..], seen + {key.value}, propsOf);
      }
    }
  }

  // ---------------------------------------------------------------------
  // deduplication by vrfcidr
  // ---------------------------------------------------------------------

  /** The record has a standby name (when it has a standby), a vrfcidr,
      and everything its CIDR child needs. */
  predicate RowBuilds(propsOf: Value -> seq<Row>, row: RoutedRow) {
    StandbyName(row).Ok? && "vrfcidr" in row.net && ChildBuilds(row, ExtendedProps(propsOf, VrfcidrOf(row)))
  }

  predicate AllBuild(propsOf: Value -> seq<Row>, rows: seq<RoutedRow>) {
    forall k :: 0 <= k < |rows| ==> RowBuilds(propsOf, rows[k])
  }

  /** The CIDR children of the records, one per record, in order. */
  function Children(fig: Figures, ip: Option<string>, propsOf: Value -> seq<Row>, rows: seq<RoutedRow>)
    : (kids: seq<Node>)
    requires AllBuild(propsOf, rows)
    ensures |kids| == |rows|
    ensures forall k :: 0 <= k < |rows| ==>
      "vrfcidr" in kids[k].attrs && kids[k].attrs["vrfcidr"] == VrfcidrOf(rows[k])
    decreases |rows|
  {
    if rows == [] then []
    else
      var row := rows[0];
      var rest := rows[1..];
      assert forall k :: 0 <= k < |rest| ==> rest[k] == rows[k + 1];
      var kids := [CidrChild(fig, ip, row, StandbyName(row).value, ExtendedProps(propsOf, VrfcidrOf(row))).value]
        + Children(fig, ip, propsOf, rest);
      assert forall k :: 1 <= k < |kids| ==> kids[k] == Children(fig, ip, propsOf, rest)[k - 1];
      kids
  }

  /** When every record builds, the loop adds exactly the CIDR children of
      the first record of each vrfcidr, in first-seen order. */
  lemma {:induction false} ExtendedIsFirstSeen(fig: Figures, ip: Option<string>, propsOf: Value -> seq<Row>,
                                               rows: seq<RoutedRow>, seen: set<Value>)
    requires AllBuild(propsOf, rows)
    ensures AllBuild(propsOf, FirstSeen(rows, VrfcidrOf, seen))
    ensures ExtendedFrom(fig, ip, rows, seen, propsOf)
         == Ok(Children(fig, ip, propsOf, FirstSeen(rows, VrfcidrOf, seen)))
    decreases |rows|
  {
    FirstSeenKeeps(rows, VrfcidrOf, seen, row => RowBuilds(propsOf, row));
    if rows != [] {
      var rest := rows[1..];
      assert AllBuild(propsOf, rest) by {
        assert forall k :: 0 <= k < |rest| ==> rest[k] == rows[k + 1];
      }
      assert RowBuilds(propsOf, rows[0]);
      var key := VrfcidrOf(rows[0]);
      if key in seen {
        ExtendedIsFirstSeen(fig, ip, propsOf, rest, seen);
      } else {
        ExtendedIsFirstSeen(fig, ip, propsOf, rest, seen + {key});
        var kept := FirstSeen(rows, VrfcidrOf, seen);
        assert kept == [rows[0]] + FirstSeen(rest, VrfcidrOf, seen + {key});
        assert kept[1..] == FirstSeen(rest, VrfcidrOf, seen + {key});
      }
    }
  }

  /** The tree keeps its root and its earlier children, and gains one CIDR
      child per distinct vrfcidr of the records: the new children's
      vrfcidrs are pairwise distinct, each is the vrfcidr of a record, and
      there are as many new children as distinct vrfcidrs. */
  lemma OneChildPerVrfcidr(fig: Figures, ip: Option<string>, root: Node, rows: seq<RoutedRow>,
                           propsOf: Value -> seq<Row>)
    requires AllBuild(propsOf, rows)
    ensures TreeUnder(fig, ip, root, rows, propsOf).Ok?
    ensures var t := TreeUnder(fig, ip, root, rows, propsOf).value;
      && t.name == root.name && t.nodeType == root.nodeType && t.attrs == root.attrs
      && |root.children| <= |t.children| && t.children[..|root.children|] == root.children
    ensures var t := TreeUnder(fig, ip, root, rows, propsOf).value;
      var added := t.children[|root.children|..];
      && |added| == |KeySet(rows, VrfcidrOf)|
      && (forall i :: 0 <= i < |added| ==> "vrfcidr" in added[i].attrs)
      && (forall i, j :: 0 <= i < j < |added| ==> added[i].attrs["vrfcidr"] != added[j].attrs["vrfcidr"])
      && (forall i :: 0 <= i < |added| ==> added[i].attrs["vrfcidr"] in KeySet(rows, VrfcidrOf))
  {
    ExtendedIsFirstSeen(fig, ip, propsOf, rows, {});
    var kept := FirstSeen(rows, VrfcidrOf, {});
    var added := Children(fig, ip, propsOf, kept);
    FirstSeenDistinct(rows, VrfcidrOf, {});
    FirstSeenCount(rows, VrfcidrOf);
    FirstSeenKeys(rows, VrfcidrOf, {});
    var t := TreeUnder(fig, ip, root, rows, propsOf).value;
    assert t.children == root.children + added;
    assert t.children[|root.children|..] == added;
    forall i | 0 <= i < |added| ensures added[i].attrs["vrfcidr"] in KeySet(rows, VrfcidrOf) {
      assert VrfcidrOf(kept[i]) in KeySet(kept, VrfcidrOf);
    }
  }

  /** A later record whose vrfcidr was already seen changes nothing. */
  lemma RepeatedVrfcidrChangesNothing(fig: Figures, ip: Option<string>, root: Node, rows: seq<RoutedRow>,
                                      dup: RoutedRow, propsOf: Value -> seq<Row>)
    requires AllBuild(propsOf, rows)
    requires StandbyName(dup).Ok? && "vrfcidr" in dup.net
    requires VrfcidrOf(dup) in KeySet(rows, VrfcidrOf)
    ensures TreeUnder(fig, ip, root, rows + [dup], propsOf) == TreeUnder(fig, ip, root, rows, propsOf)
  {
    ExtendedSnocSeen(fig, ip, propsOf, rows, dup, {});
  }

  /** Appending a record whose vrfcidr is matched by the time it is read
      leaves the loop's result unchanged. */
  lemma {:induction false} ExtendedSnocSeen(fig: Figures, ip: Option<string>, propsOf: Value -> seq<Row>,
                                            rows: seq<RoutedRow>, dup: RoutedRow, seen: set<Value>)
    requires AllBuild(propsOf, rows)
    requires StandbyName(dup).Ok? && "vrfcidr" in dup.net
    requires VrfcidrOf(dup) in seen + KeySet(rows, VrfcidrOf)
    ensures ExtendedFrom(fig, ip, rows + [dup], seen, propsOf) == ExtendedFrom(fig, ip, rows, seen, propsOf)
    decreases |rows|
  {
    if rows == [] {
      assert KeySet(rows, VrfcidrOf) == {};
      assert [dup][1..] == [];
    } else {
      var rest := rows[1..];
      assert (rows + [dup])[1..] == rest + [dup];
      assert (rows + [dup])[0] == rows[0];
      assert AllBuild(propsOf, rest) by {
        assert forall k :: 0 <= k < |rest| ==> rest[k] == rows[k + 1];
      }
      assert RowBuilds(propsOf, rows[0]);
      var key := VrfcidrOf(rows[0]);
      assert rows == [rows[0]] + rest;
      KeySetCons(rows[0], rest, VrfcidrOf);
      if key in seen {
        ExtendedSnocSeen(fig, ip, propsOf, rest, dup, seen);
      } else {
        ExtendedSnocSeen(fig, ip, propsOf, rest, dup, seen + {key});
      }
    }
  }

  // ---------------------------------------------------------------------
  // get_net
  // ---------------------------------------------------------------------

  const NetRTypes: seq<string> := ["TREE", "JSON", "YAML", "NGTREE"]

  /** get_net(ip, rtype): resolve the address to a block, build the
      block's extended tree under an "IP Object" root, and raise
      "No CIDR Results" when the tree is not truthy. */
  function GetNetSpec(ip: string, rtype: string, isDecimal: DecimalTest,
                      resolve: string -> Option<string>, cidrs: seq<string>,
                      routed: string -> seq<RoutedRow>, propsOf: Value -> seq<Row>): Result<Node>
  {
    if rtype !in NetRTypes then Err(RTypeNotSupported(NetRTypes))
    else
      var net :- FindCidrSpec(ip, isDecimal, resolve, cidrs);
      var tree :- ExtendedTreeSpec(net, Some(ip), None, "IP Object", routed(net), propsOf);
      if NodeTruthy(tree) then Ok(tree) else Err(NoCidrResults("IP search failed on " + ip))
  }

  method GetNet(ip: string, rtype: string, isDecimal: DecimalTest,
                resolve: string -> Option<string>, cidrs: seq<string>,
                routed: string -> seq<RoutedRow>, propsOf: Value -> seq<Row>)
    returns (r: Result<Node>)
    ensures r == GetNetSpec(ip, rtype, isDecimal, resolve, cidrs, routed, propsOf)
  {
    if rtype !in NetRTypes {
      return Err(RTypeNotSupported(NetRTypes));
    }
    var net := FindCidr(ip, isDecimal, resolve, cidrs);
    if net.Err? {
      return Err(net.error);
    }
    var tree := GetNetExtendedTree(net.value, Some(ip), None, "IP Object", routed(net.value), propsOf);
    if tree.Err? {
      return Err(tree.error);
    }
    if NodeTruthy(tree.value) {
      return Ok(tree.value);
    }
    return Err(NoCidrResults("IP search failed on " + ip));
  }

  /** As written, get_net never reports "No CIDR Results": the tree it
      tests is a node, whose dict always holds its name and type, so
      `if ngtree:` always passes. */
  lemma GetNetNeverReportsNoResults(ip: string, rtype: string, isDecimal: DecimalTest,
                                    resolve: string -> Option<string>,
                                    cidrs: seq<string>, routed: string -> seq<RoutedRow>,
                                    propsOf: Value -> seq<Row>)
    ensures GetNetSpec(ip, rtype, isDecimal, resolve, cidrs, routed, propsOf).Err? ==>
      !GetNetSpec(ip, rtype, isDecimal, resolve, cidrs, routed, propsOf).error.NoCidrResults?
    ensures rtype in NetRTypes && FindCidrSpec(ip, isDecimal, resolve, cidrs).Ok? ==>
      var net := FindCidrSpec(ip, isDecimal, resolve, cidrs).value;
      var tree := ExtendedTreeSpec(net, Some(ip), None, "IP Object", routed(net), propsOf);
      tree.Ok? ==> GetNetSpec(ip, rtype, isDecimal, resolve, cidrs, routed, propsOf) == tree
  {
    if rtype in NetRTypes {
      FindCidrErrors(ip, isDecimal, resolve, cidrs);
      var net := FindCidrSpec(ip, isDecimal, resolve, cidrs);
      if net.Ok? {
        ExtendedTreeErrors(net.value, Some(ip), None, "IP Object", routed(net.value), propsOf);
        var tree := ExtendedTreeSpec(net.value, Some(ip), None, "IP Object", routed(net.value), propsOf);
        if tree.Ok? {
          NodeAlwaysTruthy(tree.value);
        }
      }
    }
  }

  /** As written: when the resolved block routes no records, get_net
      hands back the bare "IP Object" root, without a CIDR child, instead
      of raising. */
  lemma EmptyLookupReturnsBareRoot(ip: string, rtype: string, isDecimal: DecimalTest,
                                   resolve: string -> Option<string>,
                                   cidrs: seq<string>, routed: string -> seq<RoutedRow>,
                                   propsOf: Value -> seq<Row>)
    requires rtype in NetRTypes
    requires FindCidrSpec(ip, isDecimal, resolve, cidrs).Ok?
    requires ParseNetwork(FindCidrSpec(ip, isDecimal, resolve, cidrs).value).Ok?
    requires routed(FindCidrSpec(ip, isDecimal, resolve, cidrs).value) == []
    ensures GetNetSpec(ip, rtype, isDecimal, resolve, cidrs, routed, propsOf)
         == Ok(Node(Str("IP Object"), "Parent", map[], []))
  {
    var net := FindCidrSpec(ip, isDecimal, resolve, cidrs).value;
    ExtendedTreeWithoutRows(net, Some(ip), None, "IP Object", propsOf);
  }

  /** get_net as evidently intended: the block is the longest-prefix match,
      and a tree without a CIDR child is reported as "No CIDR Results". */
  function GetNetChecked(ip: string, rtype: string, isDecimal: DecimalTest,
                         resolve: string -> Option<string>, cidrs: seq<string>,
                         routed: string -> seq<RoutedRow>, propsOf: Value -> seq<Row>): Result<Node>
  {
    if rtype !in NetRTypes then Err(RTypeNotSupported(NetRTypes))
    else
      var net :- FindCidrLongest(ip, isDecimal, resolve, cidrs);
      var tree :- ExtendedTreeSpec(net, Some(ip), None, "IP Object", routed(net), propsOf);
      if tree.children == [] then Err(NoCidrResults("IP search failed on " + ip)) else Ok(tree)
  }

  /** The corrected lookup succeeds only with at least one CIDR child, and
      reports "No CIDR Results" exactly when the tree it built has none. */
  lemma GetNetCheckedReportsEmpty(ip: string, rtype: string, isDecimal: DecimalTest,
                                  resolve: string -> Option<string>,
                                  cidrs: seq<string>, routed: string -> seq<RoutedRow>,
                                  propsOf: Value -> seq<Row>)
    ensures GetNetChecked(ip, rtype, isDecimal, resolve, cidrs, routed, propsOf).Ok? ==>
      GetNetChecked(ip, rtype, isDecimal, resolve, cidrs, routed, propsOf).value.children != []
    ensures GetNetChecked(ip, rtype, isDecimal, resolve, cidrs, routed, propsOf).Err? &&
            GetNetChecked(ip, rtype, isDecimal, resolve, cidrs, routed, propsOf).error.NoCidrResults?
      <==>
      && rtype in NetRTypes
      && FindCidrLongest(ip, isDecimal, resolve, cidrs).Ok?
      && var net := FindCidrLongest(ip, isDecimal, resolve, cidrs).value;
         ExtendedTreeSpec(net, Some(ip), None, "IP Object", routed(net), propsOf).Ok?
         && ExtendedTreeSpec(net, Some(ip), None, "IP Object", routed(net), propsOf).value.children == []
  {
    if rtype in NetRTypes && FindCidrLongest(ip, isDecimal, resolve, cidrs).Ok? {
      var net := FindCidrLongest(ip, isDecimal, resolve, cidrs).value;
      ExtendedTreeErrors(net, Some(ip), None, "IP Object", routed(net), propsOf);
    } else if rtype in NetRTypes {
      FindCidrLongestErrors(ip, isDecimal, resolve, cidrs);
    }
  }
}
