/** The two network listings: every network passing a filter
    (get_networks_on_filter) and every network whose gateway lies in a
    block (get_networks_on_cidr). Both index the fetched records by their
    gateway address, a later record replacing an earlier one with the same
    gateway, and list them in ascending gateway order. The store's records,
    the configured group filters, the filter test and the property lookup
    are inputs. */
module NetList {
  import opened Basics
  import opened Ipv4
  import opened NgTree
  import NetTree

  // ---------------------------------------------------------------------
  // indexing by gateway
  // ---------------------------------------------------------------------

  /** ipaddress.IPv4Address(value): a text is parsed strictly, an integer
      must fit in 32 bits, None is refused. */
  function GatewayAddress(v: Value): (r: Result<Address>)
    ensures v.Str? ==> r == ParseAddress(v.s)
    ensures v.Int? ==> (r.Ok? <==> 0 <= v.i < AddressSpace) && (r.Ok? ==> r.value == v.i)
    ensures v.Null? ==> r == Err(BadAddress)
  {
    match v
    case Str(s) => ParseAddress(s)
    case Int(i) => if 0 <= i < AddressSpace then Ok(i) else Err(BadAddress)
    case Null => Err(BadAddress)
  }

  /** The record's gateway address, read from column `column`. */
  function RowGateway(row: Row, column: string): (r: Result<Address>)
    ensures r.Ok? ==> column in row && GatewayAddress(row[column]) == r
    ensures column !in row ==> r == Err(MissingKey(column))
  {
    var v :- Get(row, column);
    GatewayAddress(v)
  }

  /** Reading the gateway out of column `column`, as a function of the
      record. */
  function GatewayOf(column: string): Row -> Result<Address> {
    row => RowGateway(row, column)
  }

  /** Every indexed record sits under its own gateway address. */
  predicate IndexedBy(index: map<Address, Row>, gateway: Row -> Result<Address>) {
    forall a :: a in index ==> gateway(index[a]) == Ok(a)
  }

  /** `sort_nets[IPv4Address(n[...])] = n` for the records from `rows` on,
      `index` holding the earlier ones. */
  function IndexFrom(rows: seq<Row>, gateway: Row -> Result<Address>, index: map<Address, Row>)
    : Result<map<Address, Row>>
    decreases |rows|
  {
    if rows == [] then Ok(index)
    else
      var a :- gateway(rows[0]);
      IndexFrom(rows[1..], gateway, index[a := rows[0]])
  }

  /** The gateway index of all records; the first record without a usable
      gateway fails it. */
  function GatewayIndex(rows: seq<Row>, column: string): Result<map<Address, Row>> {
    IndexFrom(rows, GatewayOf(column), map[])
  }

  lemma {:induction false} IndexFromIndexed(rows: seq<Row>, gateway: Row -> Result<Address>, index: map<Address, Row>)
    requires IndexedBy(index, gateway)
    ensures IndexFrom(rows, gateway, index).Ok? ==> IndexedBy(IndexFrom(rows, gateway, index).value, gateway)
    decreases |rows|
  {
    if rows != [] && gateway(rows[0]).Ok? {
      var a := gateway(rows[0]).value;
      IndexFromIndexed(rows[1..], gateway, index[a := rows[0]]);
    }
  }

  /** Every record of the index sits under its own gateway address, so it
      has the gateway column. */
  lemma GatewayIndexIndexed(rows: seq<Row>, column: string)
    requires GatewayIndex(rows, column).Ok?
    ensures forall a :: a in GatewayIndex(rows, column).value ==>
      RowGateway(GatewayIndex(rows, column).value[a], column) == Ok(a)
    ensures forall a :: a in GatewayIndex(rows, column).value ==> column in GatewayIndex(rows, column).value[a]
  {
    IndexFromIndexed(rows, GatewayOf(column), map[]);
    var index := GatewayIndex(rows, column).value;
    forall a | a in index ensures RowGateway(index[a], column) == Ok(a) {
      assert GatewayOf(column)(index[a]) == Ok(a);
    }
  }

  method IndexByGateway(rows: seq<Row>, column: string) returns (r: Result<map<Address, Row>>)
    ensures r == GatewayIndex(rows, column)
  {
    var index: map<Address, Row> := map[];
    for i := 0 to |rows|
      invariant IndexFrom(rows[i..], GatewayOf(column), index) == GatewayIndex(rows, column)
    {
      assert rows[i..][1..] == rows[i + 1..];
      var a := RowGateway(rows[i], column);
      assert a == GatewayOf(column)(rows[i]);
      if a.Err? {
        return Err(a.error);
      }
      index := index[a.value := rows[i]];
    }
    assert rows[|rows|..] == [];
    return Ok(index);
  }

  /** The index after `rows` keeps for gateway `a` the last of those records
      with that gateway, `j`, or what `index` held when there is none
      (`j == -1`). */
  lemma {:induction false} IndexFromLastWins(rows: seq<Row>, gateway: Row -> Result<Address>,
                                             index: map<Address, Row>, a: Address)
    returns (j: int)
    requires IndexFrom(rows, gateway, index).Ok?
    ensures -1 <= j < |rows|
    ensures j == -1 ==> forall k :: 0 <= k < |rows| ==> gateway(rows[k]) != Ok(a)
    ensures j == -1 ==> (a in IndexFrom(rows, gateway, index).value <==> a in index)
    ensures j == -1 && a in index ==> IndexFrom(rows, gateway, index).value[a] == index[a]
    ensures j >= 0 ==> gateway(rows[j]) == Ok(a)
    ensures j >= 0 ==> a in IndexFrom(rows, gateway, index).value && IndexFrom(rows, gateway, index).value[a] == rows[j]
    ensures j >= 0 ==> forall k :: j < k < |rows| ==> gateway(rows[k]) != Ok(a)
    decreases |rows|
  {
    if rows == [] {
      j := -1;
    } else {
      var b := gateway(rows[0]).value;
      var tail := rows[1..];
      assert forall k :: 0 <= k < |tail| ==> tail[k] == rows[k + 1];
      var t := IndexFromLastWins(tail, gateway, index[b := rows[0]], a);
      if t >= 0 {
        j := t + 1;
      } else if b == a {
        j := 0;
      } else {
        j := -1;
      }
    }
  }

  /** The index holds exactly the gateways of the records, and for each
      gateway the last record read with it: `j` is that record, or -1 when
      no record has gateway `a`. */
  lemma GatewayIndexLastWins(rows: seq<Row>, column: string, a: Address) returns (j: int)
    requires GatewayIndex(rows, column).Ok?
    ensures -1 <= j < |rows|
    ensures j == -1 <==> a !in GatewayIndex(rows, column).value
    ensures j == -1 ==> forall k :: 0 <= k < |rows| ==> RowGateway(rows[k], column) != Ok(a)
    ensures j >= 0 ==> RowGateway(rows[j], column) == Ok(a) && GatewayIndex(rows, column).value[a] == rows[j]
    ensures j >= 0 ==> forall k :: j < k < |rows| ==> RowGateway(rows[k], column) != Ok(a)
  {
    j := IndexFromLastWins(rows, GatewayOf(column), map[], a);
    forall k | 0 <= k < |rows| ensures GatewayOf(column)(rows[k]) == RowGateway(rows[k], column) {
    }
  }

  lemma {:induction false} IndexFromFirstError(rows: seq<Row>, gateway: Row -> Result<Address>,
                                               index: map<Address, Row>, k: nat)
    requires k < |rows| && gateway(rows[k]).Err?
    requires forall i :: 0 <= i < k ==> gateway(rows[i]).Ok?
    ensures IndexFrom(rows, gateway, index) == Err(gateway(rows[k]).error)
    decreases k
  {
    if k > 0 {
      var tail := rows[1..];
      assert forall i :: 0 <= i < |tail| ==> tail[i] == rows[i + 1];
      var b := gateway(rows[0]).value;
      IndexFromFirstError(tail, gateway, index[b := rows[0]], k - 1);
    }
  }

  /** The first record whose gateway cannot be read decides the error:
      a missing column or an address ipaddress refuses. */
  lemma GatewayIndexFirstError(rows: seq<Row>, column: string, k: nat)
    requires k < |rows| && RowGateway(rows[k], column).Err?
    requires forall i :: 0 <= i < k ==> RowGateway(rows[i], column).Ok?
    ensures GatewayIndex(rows, column) == Err(RowGateway(rows[k], column).error)
    ensures column !in rows[k] ==> GatewayIndex(rows, column) == Err(MissingKey(column))
  {
    forall i | 0 <= i <= k ensures GatewayOf(column)(rows[i]) == RowGateway(rows[i], column) {
    }
    IndexFromFirstError(rows, GatewayOf(column), map[], k);
  }

  // ---------------------------------------------------------------------
  // ascending gateway order
  // ---------------------------------------------------------------------

  predicate StrictlyIncreasing(s: seq<Address>) {
    forall i, j :: 0 <= i < j < |s| ==> s[i] < s[j]
  }

  /** Dropping the first address keeps the order, and every later address
      exceeds the first. */
  lemma IncreasingTail(s: seq<Address>)
    ensures StrictlyIncreasing(s) && |s| > 0 ==>
      StrictlyIncreasing(s[1..]) && forall b :: b in s[1..] ==> s[0] < b
  {
    if StrictlyIncreasing(s) && |s| > 0 {
      var rest := s[1..];
      assert forall k :: 0 <= k < |rest| ==> rest[k] == s[k + 1];
    }
  }

  /** An address below every address of an ordered sequence can go first. */
  lemma IncreasingCons(x: Address, s: seq<Address>)
    requires StrictlyIncreasing(s) && forall b :: b in s ==> x < b
    ensures StrictlyIncreasing([x] + s)
  {
    var r := [x] + s;
    forall i, j | 0 <= i < j < |r| ensures r[i] < r[j] {
      assert r[j] == s[j - 1] && s[j - 1] in s;
      if i > 0 {
        assert r[i] == s[i - 1];
      }
    }
  }

  /** `m` is the least address of `s`. */
  predicate IsLeast(m: Address, s: set<Address>) {
    m in s && forall x :: x in s ==> m <= x
  }

  lemma {:induction false} HasLeast(s: set<Address>) returns (m: Address)
    requires s != {}
    ensures IsLeast(m, s)
    decreases |s|
  {
    var x :| x in s;
    if s == {x} {
      m := x;
    } else {
      assert s - {x} != {} by { var y :| y in s && y != x; assert y in s - {x}; }
      var y := HasLeast(s - {x});
      m := if x < y then x else y;
      forall z | z in s ensures m <= z {
        if z != x { assert z in s - {x}; }
      }
    }
  }

  /** sorted(addresses): the addresses in strictly ascending order. */
  function SortedAddresses(s: set<Address>): (r: seq<Address>)
    ensures StrictlyIncreasing(r)
    ensures forall a :: a in r <==> a in s
    decreases |s|
  {
    if s == {} then []
    else
      assert exists m :: IsLeast(m, s) by {
        var least := HasLeast(s);
        assert IsLeast(least, s);
      }
      var m :| IsLeast(m, s);
      var rest := SortedAddresses(s - {m});
      [m] + rest
  }

  // ---------------------------------------------------------------------
  // one listed network
  // ---------------------------------------------------------------------

  /** The bookkeeping keys a listed network's dict never keeps as data:
      the tree's own `_type`, `Name` and `data`, and the popped
      `__values__` and `_ccount`. */
  const TreeKeys: set<string> := {"_type", "Name", "data", "__values__", "_ccount"}

  /** A network's dict turned into a CIDR child: named after its CIDR,
      which must be there, and keeping its other keys. */
  function ListChild(d: Row): (r: Result<Node>)
    ensures r.Ok? <==> "CIDR" in d
    ensures r.Err? ==> r.error == MissingKey("CIDR")
    ensures r.Ok? ==> r.value.name == d["CIDR"] && r.value.nodeType == "CIDR" && r.value.children == []
  {
    if "CIDR" !in d then Err(MissingKey("CIDR"))
    else Ok(Node(d["CIDR"], "CIDR", d - TreeKeys, []))
  }

  /** A listed child keeps every key of its dict but the bookkeeping ones,
      with its value. */
  lemma ListChildAttrs(d: Row)
    requires "CIDR" in d
    ensures forall k :: k in ListChild(d).value.attrs <==> k in d && k !in TreeKeys
    ensures forall k :: k in ListChild(d).value.attrs ==> ListChild(d).value.attrs[k] == d[k]
  {
  }

  const ListRTypes: seq<string> := ["CSV", "TREE", "JSON", "YAML", "NGTREE"]

  /** `if group:` / `elif nFilter:` on optional text arguments. */
  predicate HasText(t: Option<string>) {
    t.Some? && t.value != ""
  }

  // ---------------------------------------------------------------------
  // get_networks_on_filter
  // ---------------------------------------------------------------------

  /** The root's selector attributes: Group and its configured Filter when
      a group is given (none when the group is not configured), else the
      custom Filter; neither is an error. */
  function Selector(group: Option<string>, nFilter: Option<string>, groupFilters: map<string, string>)
    : Result<Option<map<string, Value>>>
  {
    if HasText(group) then
      if group.value in groupFilters
      then Ok(Some(map["Group" := Str(group.value), "Filter" := Str(groupFilters[group.value])]))
      else Ok(None)
    else if HasText(nFilter) then Ok(Some(map["Filter" := Str(nFilter.value)]))
    else Err(NoSelector)
  }

  /** The children the loop adds, going through `order`: a non-empty
      record that passes the filter becomes a CIDR child. */
  function FilterChildren(order: seq<Address>, index: map<Address, Row>, passes: Row -> bool)
    : Result<seq<Node>>
    requires forall a :: a in order ==> a in index
    decreases |order|
  {
    if order == [] then Ok([])
    else
      var row := index[order[0]];
      var rest := order[1..];
      assert forall a :: a in rest ==> a in order;
      if |row| > 0 && passes(row) then
        var child :- ListChild(row);
        var more :- FilterChildren(rest, index, passes);
        Ok([child] + more)
      else FilterChildren(rest, index, passes)
  }

  /** The root once the loop is over: nothing is returned when there are no
      children or the output is CSV, which is printed; otherwise the root
      with its Count. */
  function Finish(rtype: string, root: Node): Result<Option<Node>> {
    if root.children == [] || rtype == "CSV" then Ok(None)
    else Ok(Some(root.(attrs := root.attrs["Count" := Int(|root.children|)])))
  }

  /** get_networks_on_filter(group, nFilter, rtype) over the fetched
      records. */
  function NetworksOnFilterSpec(group: Option<string>, nFilter: Option<string>, rtype: string,
                                groupFilters: map<string, string>, rows: seq<Row>, passes: Row -> bool)
    : Result<Option<Node>>
  {
    if rtype !in ListRTypes then Err(RTypeNotSupported(ListRTypes))
    else
      var selector :- Selector(group, nFilter, groupFilters);
      if selector.None? then Ok(None)
      else
        var index :- GatewayIndex(rows, "Gateway");
        var kids :- FilterChildren(SortedAddresses(index.Keys), index, passes);
        Finish(rtype, Node(Str("Networks"), "NET", selector.value, kids))
  }

  /** The loop of get_networks_on_filter, adding the children to `tree`. */
  method AddFiltered(tree: NGTree, order: seq<Address>, index: map<Address, Row>, passes: Row -> bool)
    returns (r: Result<seq<Node>>)
    requires tree.Valid() && tree.children == []
    requires forall a :: a in order ==> a in index
    modifies tree
    ensures tree.Valid()
    ensures tree.name == old(tree.name) && tree.treeType == old(tree.treeType) && tree.attrs == old(tree.attrs)
    ensures r == FilterChildren(order, index, passes)
    ensures r.Ok? ==> tree.children == r.value
  {
    ghost var all := FilterChildren(order, index, passes);
    var i := 0;
    assert order[i..] == order;
    PrependNothing(all);
    while i < |order|
      invariant 0 <= i <= |order|
      invariant tree.Valid()
      invariant tree.name == old(tree.name) && tree.treeType == old(tree.treeType) && tree.attrs == old(tree.attrs)
      invariant forall a :: a in order[i..] ==> a in order
      invariant all == Prepend(tree.children, FilterChildren(order[i..], index, passes))
    {
      ghost var done := tree.children;
      assert order[i..][1..] == order[i + 1..];
      var row := index[order[i]];
      if |row| > 0 && passes(row) {
        var child := ListChild(row);
        if child.Err? {
          return Err(child.error);
        }
        PrependChild(done, child.value, FilterChildren(order[i + 1..], index, passes));
        tree.AddChild(child.value);
      }
      i := i + 1;
    }
    assert order[i..] == [];
    assert all == Ok(tree.children + []);
    assert tree.children + [] == tree.children;
    return Ok(tree.children);
  }

  method GetNetworksOnFilter(group: Option<string>, nFilter: Option<string>, rtype: string,
                             groupFilters: map<string, string>, rows: seq<Row>, passes: Row -> bool)
    returns (r: Result<Option<Node>>)
    ensures r == NetworksOnFilterSpec(group, nFilter, rtype, groupFilters, rows, passes)
  {
    if rtype !in ListRTypes {
      return Err(RTypeNotSupported(ListRTypes));
    }
    var tree := new NGTree(Str("Networks"), "NET");
    if HasText(group) {
      tree.Set("Group", Str(group.value));
      if group.value !in groupFilters {
        return Ok(None);
      }
      tree.Set("Filter", Str(groupFilters[group.value]));
    } else if HasText(nFilter) {
      tree.Set("Filter", Str(nFilter.value));
    } else {
      return Err(NoSelector);
    }
    assert Selector(group, nFilter, groupFilters) == Ok(Some(tree.attrs));
    var indexed := IndexByGateway(rows, "Gateway");
    if indexed.Err? {
      return Err(indexed.error);
    }
    var index := indexed.value;
    var kids := AddFiltered(tree, SortedAddresses(index.Keys), index, passes);
    if kids.Err? {
      return Err(kids.error);
    }
    ghost var root := tree.Snapshot();
    if tree.ccount.Some? {
      tree.Set("Count", Int(tree.ccount.value));
      if rtype == "CSV" {
        return Ok(None);
      }
      return Ok(Some(tree.Snapshot()));
    }
    return Ok(None);
  }

  /** The gateways of `order` whose record is non-empty and passes the
      filter, in the same order. */
  function Passing(order: seq<Address>, index: map<Address, Row>, passes: Row -> bool): (picked: seq<Address>)
    requires forall a :: a in order ==> a in index
    ensures forall a :: a in picked <==> a in order && |index[a]| > 0 && passes(index[a])
    ensures StrictlyIncreasing(order) ==> StrictlyIncreasing(picked)
    decreases |order|
  {
    if order == [] then []
    else
      var rest := order[1..];
      assert order == [order[0]] + rest;
      var more := Passing(rest, index, passes);
      IncreasingTail(order);
      var row := index[order[0]];
      if |row| > 0 && passes(row) then
        assert StrictlyIncreasing(order) ==> StrictlyIncreasing([order[0]] + more) by {
          if StrictlyIncreasing(order) {
            IncreasingCons(order[0], more);
          }
        }
        [order[0]] + more
      else more
  }

  /** The children `build` makes of the records at `addrs`, in order:
      they all build exactly when every record builds, and then the k-th
      child is that of the k-th record; the first record that fails to
      build raises its error. */
  function BuildAll(addrs: seq<Address>, index: map<Address, Row>, build: Row -> Result<Node>)
    : (r: Result<seq<Node>>)
    requires forall a :: a in addrs ==> a in index
    ensures r.Ok? <==> forall a :: a in addrs ==> build(index[a]).Ok?
    ensures r.Ok? ==> |r.value| == |addrs| && forall k :: 0 <= k < |addrs| ==> build(index[addrs[k]]) == Ok(r.value[k])
    decreases |addrs|
  {
    if addrs == [] then Ok([])
    else
      var rest := addrs[1..];
      assert addrs == [addrs[0]] + rest;
      var child :- build(index[addrs[0]]);
      var more :- BuildAll(rest, index, build);
      assert forall k :: 1 <= k < |addrs| ==> addrs[k] == rest[k - 1];
      Ok([child] + more)
  }

  /** Building children while filtering is filtering first and building
      the passing records' children after. */
  lemma {:induction false} FilterThenBuild(order: seq<Address>, index: map<Address, Row>, passes: Row -> bool)
    requires forall a :: a in order ==> a in index
    ensures FilterChildren(order, index, passes) == BuildAll(Passing(order, index, passes), index, ListChild)
    decreases |order|
  {
    if order != [] {
      var rest := order[1..];
      assert forall b :: b in rest ==> b in order;
      FilterThenBuild(rest, index, passes);
      var row := index[order[0]];
      if |row| > 0 && passes(row) {
        var more := Passing(rest, index, passes);
        assert Passing(order, index, passes) == [order[0]] + more;
        assert ([order[0]] + more)[1..] == more;
      }
    }
  }

  /** The children the filter listing builds from the gateway index: the
      CIDR children of the non-empty passing records, one per gateway, in
      strictly ascending gateway order, each keeping its record's Gateway.
      `picked` are those gateways. */
  lemma FilterListingOrder(rows: seq<Row>, passes: Row -> bool) returns (picked: seq<Address>)
    requires GatewayIndex(rows, "Gateway").Ok?
    requires var index := GatewayIndex(rows, "Gateway").value;
      FilterChildren(SortedAddresses(index.Keys), index, passes).Ok?
    ensures var index := GatewayIndex(rows, "Gateway").value;
      var kids := FilterChildren(SortedAddresses(index.Keys), index, passes).value;
      && |picked| == |kids|
      && StrictlyIncreasing(picked)
      && (forall a :: a in picked <==> a in index && |index[a]| > 0 && passes(index[a]))
      && (forall k :: 0 <= k < |picked| ==> picked[k] in index && ListChild(index[picked[k]]) == Ok(kids[k]))
      && (forall k :: 0 <= k < |picked| ==>
            "Gateway" in kids[k].attrs && GatewayAddress(kids[k].attrs["Gateway"]) == Ok(picked[k]))
  {
    var index := GatewayIndex(rows, "Gateway").value;
    GatewayIndexIndexed(rows, "Gateway");
    var order := SortedAddresses(index.Keys);
    FilterThenBuild(order, index, passes);
    picked := Passing(order, index, passes);
    var kids := FilterChildren(order, index, passes).value;
    forall k | 0 <= k < |picked|
      ensures "Gateway" in kids[k].attrs && GatewayAddress(kids[k].attrs["Gateway"]) == Ok(picked[k])
    {
      ListChildGateway(index[picked[k]], picked[k]);
    }
  }

  /** A CIDR child keeps its record's Gateway column. */
  lemma ListChildGateway(d: Row, a: Address)
    requires "CIDR" in d && RowGateway(d, "Gateway") == Ok(a)
    ensures "Gateway" in ListChild(d).value.attrs && GatewayAddress(ListChild(d).value.attrs["Gateway"]) == Ok(a)
  {
    assert "Gateway" !in TreeKeys;
    ListChildAttrs(d);
  }

  /** The filter listing, when it returns a tree: the output is not CSV;
      the root "Networks" holds the selector's attributes and a Count equal
      to its number of children, of which there is at least one; the
      children are those of the gateway index's passing records. */
  lemma NetworksOnFilterListing(group: Option<string>, nFilter: Option<string>, rtype: string,
                                groupFilters: map<string, string>, rows: seq<Row>, passes: Row -> bool)
    requires NetworksOnFilterSpec(group, nFilter, rtype, groupFilters, rows, passes).Ok?
    requires NetworksOnFilterSpec(group, nFilter, rtype, groupFilters, rows, passes).value.Some?
    ensures GatewayIndex(rows, "Gateway").Ok?
    ensures var index := GatewayIndex(rows, "Gateway").value;
      FilterChildren(SortedAddresses(index.Keys), index, passes).Ok?
    ensures var t := NetworksOnFilterSpec(group, nFilter, rtype, groupFilters, rows, passes).value.value;
      var index := GatewayIndex(rows, "Gateway").value;
      && rtype != "CSV"
      && Selector(group, nFilter, groupFilters) == Ok(Some(t.attrs - {"Count"}))
      && t.name == Str("Networks") && t.nodeType == "NET"
      && |t.children| >= 1 && "Count" in t.attrs && t.attrs["Count"] == Int(|t.children|)
      && t.children == FilterChildren(SortedAddresses(index.Keys), index, passes).value
  {
    var selector := Selector(group, nFilter, groupFilters).value.value;
    var index := GatewayIndex(rows, "Gateway").value;
    var kids := FilterChildren(SortedAddresses(index.Keys), index, passes).value;
    assert NetworksOnFilterSpec(group, nFilter, rtype, groupFilters, rows, passes)
        == Ok(Some(Node(Str("Networks"), "NET", selector["Count" := Int(|kids|)], kids)));
    assert "Count" !in selector;
    assert selector["Count" := Int(|kids|)] - {"Count"} == selector;
  }

  /** The selector's error paths: an rtype outside the list is refused
      first; a group not configured yields nothing; with neither a group
      nor a custom filter the call fails; a group wins over a custom
      filter. */
  lemma NetworksOnFilterSelectors(group: Option<string>, nFilter: Option<string>, rtype: string,
                                  groupFilters: map<string, string>, rows: seq<Row>, passes: Row -> bool)
    ensures rtype !in ListRTypes ==>
      NetworksOnFilterSpec(group, nFilter, rtype, groupFilters, rows, passes) == Err(RTypeNotSupported(ListRTypes))
    ensures rtype in ListRTypes && HasText(group) && group.value !in groupFilters ==>
      NetworksOnFilterSpec(group, nFilter, rtype, groupFilters, rows, passes) == Ok(None)
    ensures rtype in ListRTypes && !HasText(group) && !HasText(nFilter) ==>
      NetworksOnFilterSpec(group, nFilter, rtype, groupFilters, rows, passes) == Err(NoSelector)
    ensures HasText(group) ==>
      NetworksOnFilterSpec(group, nFilter, rtype, groupFilters, rows, passes)
      == NetworksOnFilterSpec(group, None, rtype, groupFilters, rows, passes)
  {
  }

  // ---------------------------------------------------------------------
  // get_networks_on_cidr
  // ---------------------------------------------------------------------

  /** The child of a gateway record inside the block: the CIDR child of
      its network's merged properties, found through its vrfcidr; what it
      holds is stated by CidrChildContents. */
  function CidrChildOf(row: Row, propsOf: Value -> seq<Row>): Result<Node> {
    var vrfcidr :- Get(row, "vrfcidr");
    ListChild(NetTree.MergeRows(propsOf(vrfcidr)))
  }

  /** The child of a kept gateway with a vrfcidr: it builds exactly when
      one of its network's property rows carries a CIDR, and a KeyError for
      "CIDR" otherwise. It is named after the CIDR of the last row that
      carries one, and keeps every other property some row carries, each
      with the value of the last row that has it. */
  lemma CidrChildContents(row: Row, propsOf: Value -> seq<Row>)
    requires "vrfcidr" in row
    ensures var props := propsOf(row["vrfcidr"]);
      var r := CidrChildOf(row, propsOf);
      && (r.Ok? <==> exists i :: 0 <= i < |props| && "CIDR" in props[i])
      && (r.Err? ==> r.error == MissingKey("CIDR"))
      && (r.Ok? ==> r.value.nodeType == "CIDR" && r.value.children == []
                    && NetTree.LastValue(props, "CIDR", r.value.name))
      && (r.Ok? ==> forall k :: k in r.value.attrs <==>
                      k !in TreeKeys && exists i :: 0 <= i < |props| && k in props[i])
      && (r.Ok? ==> forall k :: k in r.value.attrs ==> NetTree.LastValue(props, k, r.value.attrs[k]))
  {
    var merged := NetTree.MergeRows(propsOf(row["vrfcidr"]));
    NetTree.MergeRowsKeys(propsOf(row["vrfcidr"]));
    if "CIDR" in merged {
      ListChildAttrs(merged);
    }
  }

  /** The children the loop adds, going through `order`: a record with a
      truthy gateway inside the block contributes the CIDR child of its
      network's merged properties. `block` is the parsed block text, whose
      failure surfaces only at the first truthy gateway. */
  function CidrChildren(order: seq<Address>, index: map<Address, Row>, block: Result<Network>,
                        propsOf: Value -> seq<Row>): Result<seq<Node>>
    requires forall a :: a in order ==> a in index && "gateway" in index[a]
    requires block.Ok? ==> Valid(block.value)
    decreases |order|
  {
    if order == [] then Ok([])
    else
      var row := index[order[0]];
      var rest := order[1..];
      assert forall a :: a in rest ==> a in order;
      if !Truthy(row["gateway"]) then CidrChildren(rest, index, block, propsOf)
      else
        var b :- block;
        if !Contains(b, order[0]) then CidrChildren(rest, index, block, propsOf)
        else
          var child :- CidrChildOf(row, propsOf);
          var more :- CidrChildren(rest, index, block, propsOf);
          Ok([child] + more)
  }

  /** get_networks_on_cidr(cidr, rtype) over the fetched gateway records. */
  function NetworksOnCidrSpec(cidr: string, rtype: string, rows: seq<Row>, propsOf: Value -> seq<Row>)
    : Result<Option<Node>>
  {
    if rtype !in ListRTypes then Err(RTypeNotSupported(ListRTypes))
    else
      var index :- GatewayIndex(rows, "gateway");
      assert forall a :: a in index ==> "gateway" in index[a] by { GatewayIndexIndexed(rows, "gateway"); }
      var kids :- CidrChildren(SortedAddresses(index.Keys), index, ParseNetwork(cidr), propsOf);
      Finish(rtype, Node(Str("IN CIDR"), "NET", map["CIDR" := Str(cidr)], kids))
  }

  /** The loop of get_networks_on_cidr, adding the children to `tree`. */
  method AddInBlock(tree: NGTree, order: seq<Address>, index: map<Address, Row>, cidr: string,
                    propsOf: Value -> seq<Row>)
    returns (r: Result<seq<Node>>)
    requires tree.Valid() && tree.children == []
    requires forall a :: a in order ==> a in index && "gateway" in index[a]
    modifies tree
    ensures tree.Valid()
    ensures tree.name == old(tree.name) && tree.treeType == old(tree.treeType) && tree.attrs == old(tree.attrs)
    ensures r == CidrChildren(order, index, ParseNetwork(cidr), propsOf)
    ensures r.Ok? ==> tree.children == r.value
  {
    ghost var block := ParseNetwork(cidr);
    ghost var all := CidrChildren(order, index, block, propsOf);
    var i := 0;
    assert order[i..] == order;
    PrependNothing(all);
    while i < |order|
      invariant 0 <= i <= |order|
      invariant tree.Valid()
      invariant tree.name == old(tree.name) && tree.treeType == old(tree.treeType) && tree.attrs == old(tree.attrs)
      invariant forall a :: a in order[i..] ==> a in order
      invariant all == Prepend(tree.children, CidrChildren(order[i..], index, block, propsOf))
    {
      ghost var done := tree.children;
      assert order[i..][1..] == order[i + 1..];
      var row := index[order[i]];
      if Truthy(row["gateway"]) {
        var parsed := ParseNetwork(cidr);
        if parsed.Err? {
          return Err(parsed.error);
        }
        if Contains(parsed.value, order[i]) {
          var vrfcidr := Get(row, "vrfcidr");
          if vrfcidr.Err? {
            return Err(vrfcidr.error);
          }
          var props := NetTree.GetNetProps(propsOf(vrfcidr.value));
          var child := ListChild(props);
          assert child == CidrChildOf(row, propsOf);
          if child.Err? {
            return Err(child.error);
          }
          PrependChild(done, child.value, CidrChildren(order[i + 1..], index, block, propsOf));
          tree.AddChild(child.value);
        }
      }
      i := i + 1;
    }
    assert order[i..] == [];
    assert all == Ok(tree.children + []);
    assert tree.children + [] == tree.children;
    return Ok(tree.children);
  }

  method GetNetworksOnCidr(cidr: string, rtype: string, rows: seq<Row>, propsOf: Value -> seq<Row>)
    returns (r: Result<Option<Node>>)
    ensures r == NetworksOnCidrSpec(cidr, rtype, rows, propsOf)
  {
    if rtype !in ListRTypes {
      return Err(RTypeNotSupported(ListRTypes));
    }
    var tree := new NGTree(Str("IN CIDR"), "NET");
    tree.Set("CIDR", Str(cidr));
    var indexed := IndexByGateway(rows, "gateway");
    if indexed.Err? {
      return Err(indexed.error);
    }
    var index := indexed.value;
    GatewayIndexIndexed(rows, "gateway");
    var netList := AddInBlock(tree, SortedAddresses(index.Keys), index, cidr, propsOf);
    if netList.Err? {
      return Err(netList.error);
    }
    if |netList.value| > 0 {
      tree.Set("Count", Int(tree.ccount.value));
      if rtype == "CSV" {
        return Ok(None);
      }
      return Ok(Some(tree.Snapshot()));
    }
    return Ok(None);
  }

  /** The gateways a block listing keeps, in `order`: the truthy ones
      inside the block. */
  function InBlock(order: seq<Address>, index: map<Address, Row>, block: Network): (kept: seq<Address>)
    requires Valid(block)
    requires forall a :: a in order ==> a in index && "gateway" in index[a]
    ensures forall a :: a in kept <==> a in order && Truthy(index[a]["gateway"]) && Contains(block, a)
    ensures StrictlyIncreasing(order) ==> StrictlyIncreasing(kept)
    decreases |order|
  {
    if order == [] then []
    else
      var rest := order[1..];
      assert forall a :: a in rest ==> a in order;
      var more := InBlock(rest, index, block);
      IncreasingTail(order);
      if Truthy(index[order[0]]["gateway"]) && Contains(block, order[0]) then
        assert StrictlyIncreasing(order) ==> StrictlyIncreasing([order[0]] + more) by {
          if StrictlyIncreasing(order) {
            IncreasingCons(order[0], more);
          }
        }
        [order[0]] + more
      else more
  }

  /** CidrChildOf as a function of the record alone. */
  function CidrBuilder(propsOf: Value -> seq<Row>): Row -> Result<Node> {
    row => CidrChildOf(row, propsOf)
  }

  /** With a parsable block, building children while selecting gateways is
      selecting the truthy gateways inside the block first and building
      their children after. */
  lemma {:induction false} SelectThenBuild(order: seq<Address>, index: map<Address, Row>, block: Network,
                                           propsOf: Value -> seq<Row>)
    requires Valid(block)
    requires forall a :: a in order ==> a in index && "gateway" in index[a]
    ensures CidrChildren(order, index, Ok(block), propsOf) == BuildAll(InBlock(order, index, block), index, CidrBuilder(propsOf))
    decreases |order|
  {
    if order != [] {
      var rest := order[1..];
      assert forall b :: b in rest ==> b in order;
      SelectThenBuild(rest, index, block, propsOf);
      var a := order[0];
      if Truthy(index[a]["gateway"]) && Contains(block, a) {
        var more := InBlock(rest, index, block);
        assert InBlock(order, index, block) == [a] + more;
        assert ([a] + more)[1..] == more;
      }
    }
  }

  /** The gateways the block listing keeps, in ascending order: the
      indexed gateways that are truthy and inside the block. */
  function KeptGateways(rows: seq<Row>, block: Network): (kept: seq<Address>)
    requires Valid(block)
    requires GatewayIndex(rows, "gateway").Ok?
    ensures var index := GatewayIndex(rows, "gateway").value;
      && StrictlyIncreasing(kept)
      && (forall a :: a in index ==> "gateway" in index[a])
      && (forall a :: a in kept ==> a in index)
      && (forall a :: a in kept <==> a in index && Truthy(index[a]["gateway"]) && Contains(block, a))
  {
    var index := GatewayIndex(rows, "gateway").value;
    GatewayIndexIndexed(rows, "gateway");
    InBlock(SortedAddresses(index.Keys), index, block)
  }

  /** The block listing, when the block parses: it fails exactly when a
      kept gateway's network does not build; otherwise it returns a tree
      exactly when some gateway is kept and the output is not CSV, and the
      tree's children are the kept networks' CIDR children in the order of
      the kept gateways, its Count their number. */
  lemma NetworksOnCidrListing(cidr: string, rtype: string, rows: seq<Row>, propsOf: Value -> seq<Row>,
                              block: Network)
    requires rtype in ListRTypes
    requires GatewayIndex(rows, "gateway").Ok?
    requires ParseNetwork(cidr) == Ok(block)
    ensures var index := GatewayIndex(rows, "gateway").value;
      var kept := KeptGateways(rows, block);
      var r := NetworksOnCidrSpec(cidr, rtype, rows, propsOf);
      && (r.Ok? <==> forall a :: a in kept ==> CidrChildOf(index[a], propsOf).Ok?)
      && (r.Ok? ==> (r.value.Some? <==> |kept| > 0 && rtype != "CSV"))
      && (r.Ok? && r.value.Some? ==>
            var t := r.value.value;
            && t.name == Str("IN CIDR") && t.nodeType == "NET"
            && t.attrs == map["CIDR" := Str(cidr), "Count" := Int(|kept|)]
            && |t.children| == |kept|
            && forall k :: 0 <= k < |kept| ==> CidrChildOf(index[kept[k]], propsOf) == Ok(t.children[k]))
  {
    CidrListingBuildsKept(cidr, rtype, rows, propsOf, block);
  }

  /** With a parsable block, the block listing builds the children of the
      kept gateways and finishes the root with them. */
  lemma CidrListingBuildsKept(cidr: string, rtype: string, rows: seq<Row>, propsOf: Value -> seq<Row>,
                              block: Network)
    requires rtype in ListRTypes
    requires GatewayIndex(rows, "gateway").Ok?
    requires ParseNetwork(cidr) == Ok(block)
    ensures var all := BuildAll(KeptGateways(rows, block), GatewayIndex(rows, "gateway").value, CidrBuilder(propsOf));
      NetworksOnCidrSpec(cidr, rtype, rows, propsOf)
      == if all.Ok? then Finish(rtype, Node(Str("IN CIDR"), "NET", map["CIDR" := Str(cidr)], all.value))
         else Err(all.error)
  {
    var index := GatewayIndex(rows, "gateway").value;
    GatewayIndexIndexed(rows, "gateway");
    SelectThenBuild(SortedAddresses(index.Keys), index, block, propsOf);
  }

  /** Without a truthy gateway the block listing adds nothing, whatever the
      block text: the block is parsed only for a truthy gateway. */
  lemma {:induction false} NoTruthyGatewayNoChildren(order: seq<Address>, index: map<Address, Row>,
                                                     block: Result<Network>, propsOf: Value -> seq<Row>)
    requires forall a :: a in order ==> a in index && "gateway" in index[a]
    requires block.Ok? ==> Valid(block.value)
    requires forall a :: a in order ==> !Truthy(index[a]["gateway"])
    ensures CidrChildren(order, index, block, propsOf) == Ok([])
    decreases |order|
  {
    if order != [] {
      assert forall a :: a in order[1..] ==> a in order;
      NoTruthyGatewayNoChildren(order[1..], index, block, propsOf);
    }
  }

  /** The error paths of the block listing: an unsupported output type
      raises before anything is read; an unreadable gateway raises while
      indexing; with no truthy gateway nothing is returned, even for a
      block text that does not parse. */
  lemma NetworksOnCidrErrors(cidr: string, rtype: string, rows: seq<Row>, propsOf: Value -> seq<Row>)
    ensures rtype !in ListRTypes ==>
      NetworksOnCidrSpec(cidr, rtype, rows, propsOf) == Err(RTypeNotSupported(ListRTypes))
    ensures rtype in ListRTypes && GatewayIndex(rows, "gateway").Err? ==>
      NetworksOnCidrSpec(cidr, rtype, rows, propsOf) == Err(GatewayIndex(rows, "gateway").error)
    ensures (&& rtype in ListRTypes && GatewayIndex(rows, "gateway").Ok?
             && forall k :: 0 <= k < |rows| ==> "gateway" in rows[k] && !Truthy(rows[k]["gateway"]))
      ==> NetworksOnCidrSpec(cidr, rtype, rows, propsOf) == Ok(None)
  {
    if rtype in ListRTypes && GatewayIndex(rows, "gateway").Ok? {
      var index := GatewayIndex(rows, "gateway").value;
      GatewayIndexIndexed(rows, "gateway");
      if forall k :: 0 <= k < |rows| ==> "gateway" in rows[k] && !Truthy(rows[k]["gateway"]) {
        forall a | a in index ensures !Truthy(index[a]["gateway"]) {
          var j := GatewayIndexLastWins(rows, "gateway", a);
        }
        var order := SortedAddresses(index.Keys);
        NoTruthyGatewayNoChildren(order, index, ParseNetwork(cidr), propsOf);
      }
    }
  }
}
