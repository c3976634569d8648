/** The list of networks made from a scan: the strongest row of each name, in order. */
module WifiNetworks {
  import opened Wrappers
  import opened Decimals
  import opened EscapedText
  import opened WifiRows

  /** The table after some rows: a row replaces another of its name only if it is stronger. */
  function Strongest(lines: seq<string>): map<string, Network> {
    if lines == [] then map[]
    else
      var table := Strongest(lines[..|lines| - 1]);
      match RowNetwork(lines[|lines| - 1])
      case None => table
      case Some(network) =>
        if network.ssid !in table || network.signal > table[network.ssid].signal then table[network.ssid := network]
        else table
  }

  // ---------------------------------------------------------------------------------------------
  // The table
  // ---------------------------------------------------------------------------------------------

  /** Row k is the first of the strongest rows of its name. */
  ghost predicate IsFirstStrongest(lines: seq<string>, k: nat, network: Network) {
    && k < |lines| && RowNetwork(lines[k]) == Some(network)
    && forall j :: 0 <= j < |lines| && RowNetwork(lines[j]).Some? && RowNetwork(lines[j]).value.ssid == network.ssid ==>
         if j < k then RowNetwork(lines[j]).value.signal < network.signal
         else RowNetwork(lines[j]).value.signal <= network.signal
  }

  ghost predicate FromStrongestRow(lines: seq<string>, network: Network) {
    exists k :: IsFirstStrongest(lines, k, network)
  }

  /** The table has a name exactly when some row does, and then the first of that name's strongest rows. */
  lemma {:induction false} TableIsStrongest(lines: seq<string>, ssid: string) returns (k: nat)
    ensures ssid in Strongest(lines) <==>
              exists j :: 0 <= j < |lines| && RowNetwork(lines[j]).Some? && RowNetwork(lines[j]).value.ssid == ssid
    ensures ssid in Strongest(lines) ==>
              Strongest(lines)[ssid].ssid == ssid && IsFirstStrongest(lines, k, Strongest(lines)[ssid])
  {
    hide RowNetwork;
    k := 0;
    if lines != [] {
      var before, last := lines[..|lines| - 1], |lines| - 1;
      k := TableIsStrongest(before, ssid);
      forall j | 0 <= j < last ensures before[j] == lines[j] {
      }
      var row := RowNetwork(lines[last]);
      if row.Some? && row.value.ssid == ssid && Strongest(lines)[ssid] == row.value
         && (ssid !in Strongest(before) || row.value.signal > Strongest(before)[ssid].signal) {
        k := last;
      }
    }
  }

  // ---------------------------------------------------------------------------------------------
  // The order
  // ---------------------------------------------------------------------------------------------

  predicate AtMost(a: string, b: string) {
    if a == [] then true
    else if b == [] then false
    else if a[0] != b[0] then a[0] < b[0]
    else AtMost(a[1..], b[1..])
  }

  /** The order of texts: one begins the other, or at the first difference its character is smaller. */
  lemma {:induction false} AtMostIff(a: string, b: string)
    ensures AtMost(a, b) <==> exists k :: Parts(a, b, k)
  {
    if a == [] {
      assert Parts(a, b, 0);
    } else if b != [] {
      if a[0] == b[0] {
        AtMostIff(a[1..], b[1..]);
        if AtMost(a, b) {
          var k: nat :| Parts(a[1..], b[1..], k);
          assert a[..k + 1] == [a[0]] + a[1..][..k] && b[..k + 1] == [b[0]] + b[1..][..k];
          assert Parts(a, b, k + 1);
        }
        if exists k :: Parts(a, b, k) {
          var k: nat :| Parts(a, b, k);
          assert k > 0 && a[1..][..k - 1] == a[..k][1..] && b[1..][..k - 1] == b[..k][1..];
          assert Parts(a[1..], b[1..], k - 1);
        }
      } else {
        assert Parts(a, b, 0) <==> a[0] < b[0];
        forall k: nat | Parts(a, b, k) ensures k == 0 {
          FirstDiffers(a, b, k);
        }
      }
    }
  }

  lemma FirstDiffers(a: string, b: string, k: nat)
    requires a != [] && b != [] && a[0] != b[0] && k <= |a| && k <= |b|
    ensures k > 0 ==> a[..k] != b[..k]
  {
    if k > 0 {
      assert a[..k][0] == a[0] && b[..k][0] == b[0];
    }
  }

  /** Two texts part after k characters, with the first one ahead. */
  predicate Parts(a: string, b: string, k: nat) {
    k <= |a| && k <= |b| && a[..k] == b[..k] && (k == |a| || (k < |b| && a[k] < b[k]))
  }

  lemma {:induction false} AtMostTotal(a: string, b: string)
    ensures AtMost(a, b) || AtMost(b, a)
  {
    if a != [] && b != [] && a[0] == b[0] {
      AtMostTotal(a[1..], b[1..]);
    }
  }

  lemma {:induction false} AtMostTransitive(a: string, b: string, c: string)
    requires AtMost(a, b) && AtMost(b, c)
    ensures AtMost(a, c)
  {
    if a != [] && b != [] && c != [] && a[0] == b[0] == c[0] {
      AtMostTransitive(a[1..], b[1..], c[1..]);
    }
  }

  /** Stronger signals first, then names in the order of their lower-case forms. */
  predicate Before(a: Network, b: Network, lower: string -> string) {
    a.signal > b.signal || (a.signal == b.signal && AtMost(lower(a.ssid), lower(b.ssid)))
  }

  ghost predicate InOrder(networks: seq<Network>, lower: string -> string) {
    forall i, j :: 0 <= i < j < |networks| ==> Before(networks[i], networks[j], lower)
  }

  function Insert(networks: seq<Network>, network: Network, lower: string -> string): seq<Network> {
    if networks == [] || !Before(networks[0], network, lower) then [network] + networks
    else [networks[0]] + Insert(networks[1..], network, lower)
  }

  lemma {:induction false} InsertKeeps(networks: seq<Network>, network: Network, lower: string -> string)
    ensures multiset(Insert(networks, network, lower)) == multiset(networks) + multiset{network}
    ensures |Insert(networks, network, lower)| == |networks| + 1
  {
    if networks != [] && Before(networks[0], network, lower) {
      InsertKeeps(networks[1..], network, lower);
      assert networks == [networks[0]] + networks[1..];
    }
  }

  lemma BeforeTransitive(a: Network, b: Network, c: Network, lower: string -> string)
    requires Before(a, b, lower) && Before(b, c, lower)
    ensures Before(a, c, lower)
  {
    if a.signal == b.signal == c.signal {
      AtMostTransitive(lower(a.ssid), lower(b.ssid), lower(c.ssid));
    }
  }

  lemma {:induction false} InsertInOrder(networks: seq<Network>, network: Network, lower: string -> string)
    requires InOrder(networks, lower)
    ensures InOrder(Insert(networks, network, lower), lower)
  {
    hide Before;
    var inserted := Insert(networks, network, lower);
    if networks == [] || !Before(networks[0], network, lower) {
      forall j | 0 <= j < |networks| ensures Before(network, networks[j], lower) {
        TotalBefore(networks[0], network, lower);
        if j > 0 {
          BeforeTransitive(network, networks[0], networks[j], lower);
        }
      }
    } else {
      InsertInOrder(networks[1..], network, lower);
      InsertKeeps(networks[1..], network, lower);
      var rest := Insert(networks[1..], network, lower);
      forall j | 0 <= j < |rest| ensures Before(networks[0], rest[j], lower) {
        assert rest[j] in multiset(rest);
        if rest[j] != network {
          assert rest[j] in networks[1..];
        }
      }
    }
  }

  lemma TotalBefore(a: Network, b: Network, lower: string -> string)
    ensures Before(a, b, lower) || Before(b, a, lower)
  {
    AtMostTotal(lower(a.ssid), lower(b.ssid));
  }

  // ---------------------------------------------------------------------------------------------
  // parse_networks
  // ---------------------------------------------------------------------------------------------

  ghost predicate Lists(networks: seq<Network>, table: map<string, Network>) {
    && (forall i, j :: 0 <= i < j < |networks| ==> networks[i].ssid != networks[j].ssid)
    && (forall i :: 0 <= i < |networks| ==> networks[i].ssid in table && table[networks[i].ssid] == networks[i])
    && (forall ssid :: ssid in table ==> table[ssid] in networks)
  }

  /** Each name that some row has comes exactly once, as the first of its strongest rows reports it. */
  ghost predicate Reports(networks: seq<Network>, lines: seq<string>) {
    && (forall i, j :: 0 <= i < j < |networks| ==> networks[i].ssid != networks[j].ssid)
    && (forall i :: 0 <= i < |networks| ==> FromStrongestRow(lines, networks[i]))
    && (forall j :: 0 <= j < |lines| && RowNetwork(lines[j]).Some? ==>
          exists i :: 0 <= i < |networks| && networks[i].ssid == RowNetwork(lines[j]).value.ssid)
  }

  lemma ListReports(networks: seq<Network>, lines: seq<string>)
    requires Lists(networks, Strongest(lines))
    ensures Reports(networks, lines)
  {
    hide RowNetwork, Strongest, IsFirstStrongest;
    forall i | 0 <= i < |networks| ensures FromStrongestRow(lines, networks[i]) {
      var k := TableIsStrongest(lines, networks[i].ssid);
      assert IsFirstStrongest(lines, k, networks[i]);
    }
    forall j | 0 <= j < |lines| && RowNetwork(lines[j]).Some?
      ensures exists i :: 0 <= i < |networks| && networks[i].ssid == RowNetwork(lines[j]).value.ssid
    {
      var ssid := RowNetwork(lines[j]).value.ssid;
      var k := TableIsStrongest(lines, ssid);
      assert ssid in Strongest(lines);
      var i :| 0 <= i < |networks| && networks[i] == Strongest(lines)[ssid];
    }
  }

  /** The signal that a printed row counts with. */
  ghost predicate CountsAs(row: Row, level: nat) {
    Heard(row) && IsLevel(level, row.signal)
  }

  /** Row k is the first of the strongest heard rows of its name, and the network says what the row says. */
  ghost predicate IsFirstStrongestRow(rows: seq<Row>, k: nat, network: Network) {
    && k < |rows| && network.ssid == rows[k].name && IsSecurity(network, rows[k].security)
    && CountsAs(rows[k], network.signal)
    && forall j, level: nat :: 0 <= j < |rows| && rows[j].name == network.ssid && CountsAs(rows[j], level) ==>
         if j < k then level < network.signal else level <= network.signal
  }

  ghost predicate SaysStrongestRow(rows: seq<Row>, network: Network) {
    exists k :: IsFirstStrongestRow(rows, k, network)
  }

  /** Each name that a heard row has comes exactly once, as the first of its strongest rows says it. */
  ghost predicate ReportsRows(networks: seq<Network>, rows: seq<Row>) {
    && (forall i, j :: 0 <= i < j < |networks| ==> networks[i].ssid != networks[j].ssid)
    && (forall i :: 0 <= i < |networks| ==> SaysStrongestRow(rows, networks[i]))
    && (forall j :: 0 <= j < |rows| && Heard(rows[j]) ==>
          exists i :: 0 <= i < |networks| && networks[i].ssid == rows[j].name)
  }

  lemma RowsReported(networks: seq<Network>, rows: seq<Row>)
    requires RowsApart(rows) && Reports(networks, Lines(ScanText(rows)))
    ensures ReportsRows(networks, rows)
  {
    hide RowNetwork, RowText, Heard, ScanText, Lines, RowsApart, FromStrongestRow, SaysStrongestRow;
    ScanLines(rows);
    var lines := RowTexts(rows);
    forall i | 0 <= i < |networks| ensures SaysStrongestRow(rows, networks[i]) {
      StrongestPrinted(rows, networks[i]);
    }
    forall j | 0 <= j < |rows| && Heard(rows[j])
      ensures exists i :: 0 <= i < |networks| && networks[i].ssid == rows[j].name
    {
      PrintedRow(rows[j]);
      assert RowNetwork(lines[j]).Some?;
    }
  }

  lemma StrongestPrinted(rows: seq<Row>, network: Network)
    requires FromStrongestRow(RowTexts(rows), network)
    ensures SaysStrongestRow(rows, network)
  {
    hide RowNetwork, RowText, Heard, IsSecurity;
    var k: nat :| IsFirstStrongest(RowTexts(rows), k, network);
    PrintedRow(rows[k]);
    forall j, level: nat | 0 <= j < |rows| && rows[j].name == network.ssid && CountsAs(rows[j], level)
      ensures if j < k then level < network.signal else level <= network.signal
    {
      PrintedRow(rows[j]);
    }
    assert IsFirstStrongestRow(rows, k, network);
  }

  method BuildTable(lines: seq<string>) returns (table: map<string, Network>)
    ensures table == Strongest(lines)
  {
    hide ValidName, ParseI32;
    table := map[];
    for i := 0 to |lines|
      invariant table == Strongest(lines[..i])
    {
      assert lines[..i + 1][..i] == lines[..i];
      var fields := SplitRow(lines[i]);
      if |fields| != 3 {
        continue;
      }
      var ssid := fields[0];
      if !ValidName(ssid) {
        continue;
      }
      var raw := ParseI32(fields[2]);
      if raw.None? {
        continue;
      }
      var signal := Clamped(raw.value);
      var security := if fields[1] == [] || fields[1] == "--" then "Open" else fields[1];
      if ssid !in table || signal > table[ssid].signal {
        table := table[ssid := Network(ssid, security, signal, security != "Open")];
      }
    }
    assert lines[..|lines|] == lines;
  }

  /**
    `parse_networks`: the rows of the table, taken in any order and sorted. Lower-casing is a parameter; names
    that it makes equal may come in either order.
    */
  method ParseNetworks(output: string, lower: string -> string) returns (networks: seq<Network>)
    ensures InOrder(networks, lower)
    ensures Reports(networks, Lines(output))
    ensures forall rows :: RowsApart(rows) && output == ScanText(rows) ==> ReportsRows(networks, rows)
  {
    var lines := Lines(output);
    var table := BuildTable(lines);
    NamesAgree(lines);
    networks := [];
    var left := table.Keys;
    ghost var shown: map<string, Network> := map[];
    hide Lists, InOrder, Strongest, Insert, Reports, ReportsRows, RowsApart, ScanText;
    EmptyList(lower);
    while left != {}
      invariant left <= table.Keys && shown.Keys == table.Keys - left
      invariant forall ssid :: ssid in shown ==> shown[ssid] == table[ssid]
      invariant InOrder(networks, lower) && Lists(networks, shown)
      decreases |left|
    {
      var ssid :| ssid in left;
      InsertInOrder(networks, table[ssid], lower);
      InsertLists(networks, table[ssid], shown, lower);
      networks := Insert(networks, table[ssid], lower);
      shown := shown[ssid := table[ssid]];
      left := left - {ssid};
    }
    assert shown == table;
    ListReports(networks, lines);
    forall rows | RowsApart(rows) && output == ScanText(rows) ensures ReportsRows(networks, rows) {
      RowsReported(networks, rows);
    }
  }

  lemma EmptyList(lower: string -> string)
    ensures InOrder([], lower) && Lists([], map[])
  {
  }

  lemma NamesAgree(lines: seq<string>)
    ensures forall ssid :: ssid in Strongest(lines) ==> Strongest(lines)[ssid].ssid == ssid
  {
    forall ssid | ssid in Strongest(lines) ensures Strongest(lines)[ssid].ssid == ssid {
      var k := TableIsStrongest(lines, ssid);
    }
  }

  lemma InsertLists(networks: seq<Network>, network: Network, table: map<string, Network>, lower: string -> string)
    requires Lists(networks, table) && network.ssid !in table
    ensures Lists(Insert(networks, network, lower), table[network.ssid := network])
  {
    hide Before, Insert;
    InsertDistinct(networks, network, lower);
    InsertMembers(networks, network, lower);
    var inserted := Insert(networks, network, lower);
    forall i | 0 <= i < |inserted| ensures inserted[i] in networks || inserted[i] == network {
      assert inserted[i] in inserted;
    }
  }

  lemma InsertMembers(networks: seq<Network>, network: Network, lower: string -> string)
    ensures forall n :: n in Insert(networks, network, lower) <==> n in networks || n == network
  {
    InsertKeeps(networks, network, lower);
    var inserted := Insert(networks, network, lower);
    forall n ensures n in inserted <==> n in networks || n == network {
      assert n in inserted <==> n in multiset(inserted);
      assert n in networks <==> n in multiset(networks);
    }
  }

  lemma {:induction false} InsertDistinct(networks: seq<Network>, network: Network, lower: string -> string)
    requires forall i, j :: 0 <= i < j < |networks| ==> networks[i].ssid != networks[j].ssid
    requires forall i :: 0 <= i < |networks| ==> networks[i].ssid != network.ssid
    ensures var inserted := Insert(networks, network, lower);
            forall i, j :: 0 <= i < j < |inserted| ==> inserted[i].ssid != inserted[j].ssid
  {
    if networks != [] && Before(networks[0], network, lower) {
      InsertDistinct(networks[1..], network, lower);
      InsertKeeps(networks[1..], network, lower);
      var rest := Insert(networks[1..], network, lower);
      forall j | 0 <= j < |rest| ensures rest[j].ssid != networks[0].ssid {
        assert rest[j] in multiset(rest);
        if rest[j] != network {
          assert rest[j] in networks[1..];
        }
      }
    }
  }
}
