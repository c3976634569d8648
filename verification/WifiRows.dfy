/** The rows of a scan: what each one says, and what the list owes to the rows that were printed. */
module WifiRows {
  import opened Wrappers
  import opened Decimals
  import opened EscapedText

  datatype Network = Network(ssid: string, security: string, signal: nat, secured: bool)

  predicate ValidName(ssid: string) {
    && ssid != [] && ssid != "--"
    && forall i :: 0 <= i < |ssid| ==> ssid[i] as int >= 32 && ssid[i] as int != 127
  }

  function Clamped(signal: int): nat {
    if signal < 0 then 0 else if signal > 100 then 100 else signal
  }

  /** What a row of the scan reports; other rows are skipped. */
  function RowNetwork(line: string): Option<Network> {
    var fields := RowFields(line, [], false);
    if |fields| != 3 || !ValidName(fields[0]) || ParseI32(fields[2]).None? then None
    else
      var security := if fields[1] == [] || fields[1] == "--" then "Open" else fields[1];
      Some(Network(fields[0], security, Clamped(ParseI32(fields[2]).value), security != "Open"))
  }

  // ---------------------------------------------------------------------------------------------
  // What a row says
  // ---------------------------------------------------------------------------------------------

  /** A name that can be shown: not empty, not two dashes, no control characters below the space, no DEL. */
  predicate CanBeShown(name: string) {
    name != "" && name != "--" && forall c <- name :: ' ' <= c && c != '\U{7F}'
  }

  predicate IsLevel(level: nat, signal: int) {
    (0 <= signal <= 100 ==> level == signal) && (signal < 0 ==> level == 0) && (signal > 100 ==> level == 100)
  }

  predicate IsSecurity(network: Network, text: string) {
    && (text == "" || text == "--" ==> network.security == "Open")
    && (text != "" && text != "--" ==> network.security == text)
    && (network.secured <==> network.security != "Open")
  }

  ghost predicate SpellsSignal(text: string, signal: int) {
    -0x8000_0000 <= signal <= 0x7FFF_FFFF && exists sign, k :: Spells(text, sign, k, signal)
  }

  /** Three fields: a name, a security, and a number of 32 bits. */
  ghost predicate Says(fields: seq<string>, network: Network) {
    && |fields| == 3 && network.ssid == fields[0] && CanBeShown(fields[0]) && IsSecurity(network, fields[1])
    && exists signal :: SpellsSignal(fields[2], signal) && IsLevel(network.signal, signal)
  }

  lemma ShownIff(name: string)
    ensures ValidName(name) <==> CanBeShown(name)
  {
    if CanBeShown(name) {
      assert forall i :: 0 <= i < |name| ==> name[i] in name;
    }
  }

  /** A row reports a network exactly when its fields say so; other rows report none. */
  lemma RowIff(line: string, network: Network)
    ensures RowNetwork(line) == Some(network) <==> Says(RowFields(line, [], false), network)
  {
    hide RowFields, ParseI32, Spells, ValidName, CanBeShown;
    var fields := RowFields(line, [], false);
    if |fields| == 3 {
      ShownIff(fields[0]);
      forall signal ensures ParseI32(fields[2]) == Some(signal) <==> SpellsSignal(fields[2], signal) {
        ParseI32Iff(fields[2], signal);
      }
    }
  }

  // ---------------------------------------------------------------------------------------------
  // Rows as they are printed
  // ---------------------------------------------------------------------------------------------

  datatype Row = Row(name: string, security: string, signal: int)

  function RowText(row: Row): string {
    JoinRow([row.name, row.security, IntText(row.signal)])
  }

  function RowTexts(rows: seq<Row>): (lines: seq<string>)
    ensures |lines| == |rows| && forall i :: 0 <= i < |rows| ==> lines[i] == RowText(rows[i])
  {
    seq(|rows|, i requires 0 <= i < |rows| => RowText(rows[i]))
  }

  function ScanText(rows: seq<Row>): string {
    Joined(RowTexts(rows))
  }

  /** Rows on lines of their own. */
  predicate RowsApart(rows: seq<Row>) {
    forall i :: 0 <= i < |rows| ==> OneLine(rows[i].name) && OneLine(rows[i].security)
  }

  predicate Heard(row: Row) {
    CanBeShown(row.name) && -0x8000_0000 <= row.signal <= 0x7FFF_FFFF
  }

  /** A printed row reports its own name, security and signal. */
  lemma PrintedRow(row: Row)
    ensures RowNetwork(RowText(row)).Some? <==> Heard(row)
    ensures Heard(row) ==>
              var network := RowNetwork(RowText(row)).value;
              network.ssid == row.name && IsSecurity(network, row.security) && IsLevel(network.signal, row.signal)
  {
    hide RowFields, JoinRow, IntText, ParseI32, ValidName, CanBeShown;
    SplitInvertsJoin([row.name, row.security, IntText(row.signal)]);
    IntTextParses(row.signal);
    ShownIff(row.name);
  }

  lemma {:induction false} EscapedOneLine(field: string)
    requires OneLine(field)
    ensures OneLine(RowEscape(field))
  {
    if field != [] {
      EscapedOneLine(field[1..]);
    }
  }

  lemma SignalOneLine(signal: int)
    ensures OneLine(IntText(signal))
  {
    hide NatText;
  }

  lemma RowOneLine(row: Row)
    requires OneLine(row.name) && OneLine(row.security)
    ensures OneLine(RowText(row))
  {
    hide IntText, RowEscape;
    EscapedOneLine(row.name);
    EscapedOneLine(row.security);
    SignalOneLine(row.signal);
    EscapedOneLine(IntText(row.signal));
    var fields := [row.name, row.security, IntText(row.signal)];
    assert fields[1..] == [row.security, IntText(row.signal)] && fields[1..][1..] == [IntText(row.signal)];
    assert JoinRow(fields[1..]) == RowEscape(row.security) + ":" + RowEscape(IntText(row.signal));
    assert JoinRow(fields) == RowEscape(row.name) + ":" + JoinRow(fields[1..]);
  }

  lemma ScanLines(rows: seq<Row>)
    requires RowsApart(rows)
    ensures Lines(ScanText(rows)) == RowTexts(rows)
  {
    hide OneLine, RowText, Lines, Joined;
    forall i | 0 <= i < |rows| ensures OneLine(RowTexts(rows)[i]) {
      RowOneLine(rows[i]);
    }
    LinesOfJoined(RowTexts(rows));
  }
}
