/** The per-switch port listing (get_switch): the switch-port database's
    rows for one switch, ordered by port, become one INT child per port
    under a root named after the switch. The first row of a port decides
    its child, which keeps only the truncated columns and is named after
    the port. The fetched rows are an input. */
module SwitchPorts {
  import opened Basics
  import opened NgTree
  import opened Dedup

  /** The columns a port child keeps, the list `tr`. */
  const TruncKeys: set<string> := {"switch", "port", "status", "description", "vlan", "speed", "duplex"}

  /** The row's port, `Null` standing for a row without one. */
  function PortOf(row: Row): Value {
    if "port" in row then row["port"] else Null
  }

  /** The row's truncated columns. */
  function Truncate(row: Row): (t: map<string, Value>)
    ensures forall k :: k in t <==> k in row && k in TruncKeys
    ensures forall k :: k in t ==> t[k] == row[k]
  {
    map k | k in row.Keys && k in TruncKeys :: row[k]
  }

  /** The INT child of a port's first row: named after the port, keeping
      the truncated columns. */
  function PortChild(row: Row): (n: Node)
    requires "port" in row
    ensures n.name == row["port"] && n.nodeType == "INT" && n.children == []
    ensures "port" in n.attrs && n.attrs["port"] == n.name
    ensures forall k :: k in n.attrs ==> k in TruncKeys
  {
    Node(row["port"], "INT", Truncate(row), [])
  }

  /** The children the loop adds, going through `rows` with the ports in
      `seen` already listed: a row without a port fails, a row of a seen
      port is skipped, any other row becomes its port's child. */
  function PortChildren(rows: seq<Row>, seen: set<Value>): Result<seq<Node>>
    decreases |rows|
  {
    if rows == [] then Ok([])
    else
      var port :- Get(rows[0], "port");
      if port in seen then PortChildren(rows[1..], seen)
      else
        var more :- PortChildren(rows[1..], seen + {port});
        Ok([PortChild(rows[0])] + more)
  }

  /** get_switch(switch, ...) over the fetched rows. */
  function SwitchTree(switch: string, rows: seq<Row>): Result<Node> {
    var kids :- PortChildren(rows, {});
    Ok(Node(Str(switch), "INTs", map[], kids))
  }

  /** Copies the row's truncated columns into a fresh child: the loop
      `for e in en: if e in tr: ngtree[e] = en[e]`. */
  method CopyTruncated(child: NGTree, row: Row)
    requires child.Valid()
    modifies child
    ensures child.Valid()
    ensures child.attrs == old(child.attrs) + Truncate(row)
    ensures child.name == old(child.name) && child.treeType == old(child.treeType)
    ensures child.children == old(child.children)
  {
    var keys := row.Keys;
    ghost var before := child.attrs;
    while keys != {}
      invariant keys <= row.Keys
      invariant child.Valid()
      invariant child.name == old(child.name) && child.treeType == old(child.treeType)
      invariant child.children == old(child.children)
      invariant child.attrs.Keys == before.Keys + (row.Keys - keys) * TruncKeys
      invariant forall k :: k in child.attrs ==>
        child.attrs[k] == if k in (row.Keys - keys) * TruncKeys then row[k] else before[k]
      decreases keys
    {
      var e :| e in keys;
      if e in TruncKeys {
        child.Set(e, row[e]);
      }
      keys := keys - {e};
    }
    assert child.attrs == before + Truncate(row);
  }

  /** The loop of get_switch: one INT child per port, first row first. */
  method GetSwitch(switch: string, rows: seq<Row>, trunc: bool) returns (r: Result<Node>)
    ensures r == SwitchTree(switch, rows)
  {
    var pngtree := new NGTree(Str(switch), "INTs");
    var pseen: set<Value> := {};
    ghost var all := PortChildren(rows, {});
    var i := 0;
    assert rows[i..] == rows;
    PrependNothing(all);
    while i < |rows|
      invariant 0 <= i <= |rows|
      invariant pngtree.Valid()
      invariant pngtree.name == Str(switch) && pngtree.treeType == "INTs" && pngtree.attrs == map[]
      invariant all == Prepend(pngtree.children, PortChildren(rows[i..], pseen))
    {
      ghost var done := pngtree.children;
      assert rows[i..][1..] == rows[i + 1..];
      var en := rows[i];
      var port := Get(en, "port");
      if port.Err? {
        return Err(port.error);
      }
      var ngtree := new NGTree(Str("INT"), "INT");
      if port.value !in pseen {
        CopyTruncated(ngtree, en);
        ghost var before := pseen;
        pseen := pseen + {port.value};
        ngtree.SetName(ngtree.attrs["port"]);
        assert ngtree.Snapshot() == PortChild(en);
        ghost var rest := PortChildren(rows[i + 1..], pseen);
        assert PortChildren(rows[i..], before) == if rest.Ok? then Ok([PortChild(en)] + rest.value) else rest;
        PrependChild(done, ngtree.Snapshot(), rest);
        pngtree.AddChild(ngtree.Snapshot());
      } else {
        assert PortChildren(rows[i..], pseen) == PortChildren(rows[i + 1..], pseen);
      }
      i := i + 1;
    }
    assert rows[i..] == [];
    assert all == Ok(pngtree.children + []);
    assert pngtree.children + [] == pngtree.children;
    return Ok(pngtree.Snapshot());
  }

  // ---------------------------------------------------------------------
  // properties
  // ---------------------------------------------------------------------

  /** Every row has a port. */
  predicate AllHavePort(rows: seq<Row>) {
    forall k :: 0 <= k < |rows| ==> "port" in rows[k]
  }

  /** The children of rows that all have a port. */
  function ChildrenOf(rows: seq<Row>): (kids: seq<Node>)
    requires AllHavePort(rows)
    ensures |kids| == |rows| && forall k :: 0 <= k < |rows| ==> kids[k] == PortChild(rows[k])
  {
    seq(|rows|, k requires 0 <= k < |rows| && "port" in rows[k] => PortChild(rows[k]))
  }

  /** The listing fails exactly when some row has no port, with the
      KeyError for "port". */
  lemma {:induction false} PortChildrenErrors(rows: seq<Row>, seen: set<Value>)
    ensures PortChildren(rows, seen).Ok? <==> AllHavePort(rows)
    ensures PortChildren(rows, seen).Err? ==> PortChildren(rows, seen).error == MissingKey("port")
    decreases |rows|
  {
    if rows != [] {
      var tail := rows[1..];
      assert forall k :: 0 <= k < |tail| ==> tail[k] == rows[k + 1];
      PortChildrenErrors(tail, seen);
      if "port" in rows[0] {
        PortChildrenErrors(tail, seen + {rows[0]["port"]});
      }
    }
  }

  /** With every row carrying a port, the children are those of the rows
      that first show each port not already seen, in order. */
  lemma {:induction false} PortChildrenFirstSeen(rows: seq<Row>, seen: set<Value>)
    requires AllHavePort(rows)
    ensures AllHavePort(FirstSeen(rows, PortOf, seen))
    ensures PortChildren(rows, seen) == Ok(ChildrenOf(FirstSeen(rows, PortOf, seen)))
    decreases |rows|
  {
    FirstSeenKeeps(rows, PortOf, seen, r => "port" in r);
    if rows != [] {
      var tail := rows[1..];
      assert AllHavePort(tail) by {
        assert forall k :: 0 <= k < |tail| ==> tail[k] == rows[k + 1];
      }
      var port := rows[0]["port"];
      if port in seen {
        PortChildrenFirstSeen(tail, seen);
      } else {
        PortChildrenFirstSeen(tail, seen + {port});
        ChildrenOfCons(rows[0], FirstSeen(tail, PortOf, seen + {port}));
      }
    }
  }

  lemma ChildrenOfCons(row: Row, rows: seq<Row>)
    requires "port" in row && AllHavePort(rows)
    ensures AllHavePort([row] + rows)
    ensures ChildrenOf([row] + rows) == [PortChild(row)] + ChildrenOf(rows)
  {
    var all := [row] + rows;
    assert forall k :: 1 <= k < |all| ==> all[k] == rows[k - 1];
  }

  /** The port listing of rows that all carry a port: the root is named
      after the switch with type INTs and no attributes; no two children
      share a port; each child is the child of the first row of its port,
      and the children follow the order of those first rows (positions
      `idx`); there are as many children as distinct ports. */
  lemma SwitchTreeListing(switch: string, rows: seq<Row>) returns (idx: seq<nat>)
    requires AllHavePort(rows)
    ensures SwitchTree(switch, rows).Ok?
    ensures var t := SwitchTree(switch, rows).value;
      && t.name == Str(switch) && t.nodeType == "INTs" && t.attrs == map[]
      && (forall i, j :: 0 <= i < j < |t.children| ==> t.children[i].name != t.children[j].name)
      && |idx| == |t.children|
      && (forall j :: 0 <= j < |idx| ==> idx[j] < |rows| && t.children[j] == PortChild(rows[idx[j]]))
      && (forall j :: 0 <= j < |idx| ==> forall i :: 0 <= i < idx[j] ==> rows[i]["port"] != rows[idx[j]]["port"])
      && (forall j1, j2 :: 0 <= j1 < j2 < |idx| ==> idx[j1] < idx[j2])
      && |t.children| == |KeySet(rows, PortOf)|
  {
    PortChildrenFirstSeen(rows, {});
    var firsts := FirstSeen(rows, PortOf, {});
    FirstSeenKeeps(rows, PortOf, {}, r => "port" in r);
    FirstSeenDistinct(rows, PortOf, {});
    idx := FirstSeenPositions(rows, PortOf, {});
    FirstSeenCount(rows, PortOf);
    var kids := ChildrenOf(firsts);
    assert forall k :: 0 <= k < |kids| ==> kids[k].name == PortOf(firsts[k]);
  }

  /** A later row for a port already listed adds nothing and changes
      nothing. */
  lemma RepeatedPortChangesNothing(switch: string, rows: seq<Row>, x: Row)
    requires AllHavePort(rows) && "port" in x
    requires exists k :: 0 <= k < |rows| && rows[k]["port"] == x["port"]
    ensures SwitchTree(switch, rows + [x]) == SwitchTree(switch, rows)
  {
    var all := rows + [x];
    assert AllHavePort(all) by {
      assert forall k :: 0 <= k < |rows| ==> all[k] == rows[k];
    }
    PortChildrenFirstSeen(all, {});
    PortChildrenFirstSeen(rows, {});
    FirstSeenSnoc(rows, x, PortOf, {});
    var k :| 0 <= k < |rows| && rows[k]["port"] == x["port"];
    assert PortOf(x) in KeySet(rows, PortOf) by {
      assert PortOf(rows[k]) == PortOf(x);
    }
    assert PortOf(x) in {} + KeySet(rows, PortOf);
    assert FirstSeen(all, PortOf, {}) == FirstSeen(rows, PortOf, {}) + [];
    assert FirstSeen(all, PortOf, {}) == FirstSeen(rows, PortOf, {});
    assert PortChildren(all, {}) == PortChildren(rows, {});
  }

  /** No rows: the bare root named after the switch. */
  lemma NoRowsNoChildren(switch: string)
    ensures SwitchTree(switch, []) == Ok(Node(Str(switch), "INTs", map[], []))
  {
  }
}
