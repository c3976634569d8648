/** The profile files that the network helper writes, reads back and removes. */
module WifiProfiles {
  import opened Wrappers
  import opened EscapedText

  const PREFIX := "lumistripe-wifi-"
  const SUFFIX := ".nmconnection"

  datatype Settings = Settings(
    id: string, uuid: string, interface: string, ssid: string, password: string,
    keyManagement: Option<string>, autoconnect: bool)

  // ---------------------------------------------------------------------------------------------
  // Writing
  // ---------------------------------------------------------------------------------------------

  function Header(name: string): string {
    "[" + name + "]"
  }

  function Pair(key: string, value: string): string {
    key + "=" + value
  }

  function NetworkLines(s: Settings): seq<string> {
    [Header("connection")]
    + [Pair("id", KeyfileEscape(s.id)), Pair("uuid", s.uuid), Pair("type", "wifi")]
    + [Pair("interface-name", s.interface)]
    + [Pair("autoconnect", if s.autoconnect then "true" else "false"), Pair("autoconnect-priority", "20"), ""]
    + [Header("802-11-wireless")]
    + [Pair("mode", "infrastructure")]
    + [Pair("ssid", KeyfileEscape(s.ssid))]
    + [Pair("hidden", "false"), ""]
  }

  function SecurityLines(s: Settings): seq<string> {
    if s.keyManagement.None? then []
    else
      [Header("802-11-wireless-security")]
      + [Pair("key-mgmt", s.keyManagement.value), Pair("psk", KeyfileEscape(s.password)), Pair("psk-flags", "0"), ""]
  }

  const ADDRESS_LINES := [Header("ipv4")] + [Pair("method", "auto"), ""] + [Header("ipv6")]
    + [Pair("method", "auto"), ""]

  function ProfileLines(s: Settings): seq<string> {
    NetworkLines(s) + SecurityLines(s) + ADDRESS_LINES
  }

  /** The contents that `write_profile` puts together. */
  method ProfileContents(s: Settings) returns (contents: string)
    ensures contents == Joined(ProfileLines(s))
  {
    hide Joined, NetworkLines;
    contents := Joined(NetworkLines(s));
    if s.keyManagement.Some? {
      contents := contents + Joined(SecurityLines(s));
      JoinedParts(NetworkLines(s), SecurityLines(s));
    } else {
      assert NetworkLines(s) + [] == NetworkLines(s);
    }
    contents := contents + Joined(ADDRESS_LINES);
    JoinedParts(NetworkLines(s) + SecurityLines(s), ADDRESS_LINES);
  }

  // ---------------------------------------------------------------------------------------------
  // Reading
  // ---------------------------------------------------------------------------------------------

  /** The section being read and the two values of interest so far. */
  datatype Reading = Reading(section: string, interface: Option<string>, ssid: Option<string>)

  const START := Reading("", None, None)

  function EqualsAt(line: string): (n: nat)
    ensures n <= |line|
  {
    if line == [] || line[0] == '=' then 0 else 1 + EqualsAt(line[1..])
  }

  function Put(r: Reading, key: string, value: string): Reading {
    if r.section == "connection" && key == "interface-name" then r.(interface := Some(ValueFrom(value, false)))
    else if r.section == "802-11-wireless" && key == "ssid" then r.(ssid := Some(ValueFrom(value, false)))
    else r
  }

  function ReadLine(r: Reading, line: string): Reading {
    if |line| >= 2 && line[0] == '[' && line[|line| - 1] == ']' then r.(section := line[1..|line| - 1])
    else
      var n := EqualsAt(line);
      if n == |line| then r else Put(r, line[..n], line[n + 1..])
  }

  function ReadLines(r: Reading, lines: seq<string>): Reading
    decreases |lines|
  {
    if lines == [] then r else ReadLines(ReadLine(r, lines[0]), lines[1..])
  }

  predicate Matches(contents: string, interface: string, ssid: string) {
    var r := ReadLines(START, Lines(contents));
    r.interface == Some(interface) && r.ssid == Some(ssid)
  }

  /** `profile_matches_network`, once the file has been read. */
  method ProfileMatches(contents: string, interface: string, ssid: string) returns (matches: bool)
    ensures matches == Matches(contents, interface, ssid)
  {
    var lines := Lines(contents);
    var section := "";
    var profileInterface: Option<string>, profileSsid: Option<string> := None, None;
    for i := 0 to |lines|
      invariant ReadLines(Reading(section, profileInterface, profileSsid), lines[i..]) == ReadLines(START, lines)
    {
      var line := lines[i];
      assert lines[i..][1..] == lines[i + 1..];
      if |line| >= 2 && line[0] == '[' && line[|line| - 1] == ']' {
        section := line[1..|line| - 1];
        continue;
      }
      var n := EqualsAt(line);
      if n == |line| {
        continue;
      }
      var key, value := line[..n], line[n + 1..];
      if section == "connection" && key == "interface-name" {
        profileInterface := Some(ValueFrom(value, false));
      } else if section == "802-11-wireless" && key == "ssid" {
        profileSsid := Some(ValueFrom(value, false));
      }
    }
    return profileInterface == Some(interface) && profileSsid == Some(ssid);
  }

  // ---------------------------------------------------------------------------------------------
  // The value of a key in a section
  // ---------------------------------------------------------------------------------------------

  /** The section being read, and the last value so far of one key in one section, as it is written. */
  datatype Search = Search(section: string, found: Option<string>)

  function LookLine(r: Search, line: string, section: string, key: string): Search {
    if |line| >= 2 && line[0] == '[' && line[|line| - 1] == ']' then r.(section := line[1..|line| - 1])
    else
      var n := EqualsAt(line);
      if n < |line| && r.section == section && line[..n] == key then r.(found := Some(line[n + 1..])) else r
  }

  function LookLines(r: Search, lines: seq<string>, section: string, key: string): Search
    decreases |lines|
  {
    if lines == [] then r else LookLines(LookLine(r, lines[0], section, key), lines[1..], section, key)
  }

  /** The text behind the last `key=` of a section. */
  function ValueOf(contents: string, section: string, key: string): Option<string> {
    LookLines(Search("", None), Lines(contents), section, key).found
  }

  predicate HasSection(contents: string, name: string) {
    "[" + name + "]" in Lines(contents)
  }

  function Decoded(value: Option<string>): Option<string> {
    match value
    case None => None
    case Some(text) => Some(ValueFrom(text, false))
  }

  lemma {:induction false} ReadIsLook(r: Reading, lines: seq<string>, a: Search, b: Search)
    requires a.section == b.section == r.section && r.interface == Decoded(a.found) && r.ssid == Decoded(b.found)
    ensures var end := ReadLines(r, lines);
            && end.interface == Decoded(LookLines(a, lines, "connection", "interface-name").found)
            && end.ssid == Decoded(LookLines(b, lines, "802-11-wireless", "ssid").found)
    decreases |lines|
  {
    hide EqualsAt, ValueFrom;
    if lines != [] {
      var line := lines[0];
      ReadIsLook(ReadLine(r, line), lines[1..], LookLine(a, line, "connection", "interface-name"),
                 LookLine(b, line, "802-11-wireless", "ssid"));
    }
  }

  /** Whether a profile matches is a matter of two of its values, decoded. */
  lemma MatchesIff(contents: string, interface: string, ssid: string)
    ensures Matches(contents, interface, ssid) <==>
              && Decoded(ValueOf(contents, "connection", "interface-name")) == Some(interface)
              && Decoded(ValueOf(contents, "802-11-wireless", "ssid")) == Some(ssid)
  {
    hide ValueFrom, Lines;
    ReadIsLook(START, Lines(contents), Search("", None), Search("", None));
  }

  // ---------------------------------------------------------------------------------------------
  // Sections with keys and values
  // ---------------------------------------------------------------------------------------------

  datatype Section = Section(name: string, pairs: seq<(string, string)>)

  function PairLines(pairs: seq<(string, string)>): (lines: seq<string>)
    ensures |lines| == |pairs| && forall i :: 0 <= i < |pairs| ==> lines[i] == Pair(pairs[i].0, pairs[i].1)
  {
    if pairs == [] then [] else [Pair(pairs[0].0, pairs[0].1)] + PairLines(pairs[1..])
  }

  function SectionLines(s: Section): seq<string> {
    [Header(s.name)] + PairLines(s.pairs) + [""]
  }

  function AllLines(sections: seq<Section>): seq<string> {
    if sections == [] then [] else SectionLines(sections[0]) + AllLines(sections[1..])
  }

  predicate PlainKey(key: string) {
    key != [] && key[0] != '[' && '=' !in key
  }

  predicate PlainKeys(pairs: seq<(string, string)>) {
    forall i :: 0 <= i < |pairs| ==> PlainKey(pairs[i].0)
  }

  ghost predicate DifferentKeys(pairs: seq<(string, string)>) {
    forall i, j :: 0 <= i < j < |pairs| ==> pairs[i].0 != pairs[j].0
  }

  ghost predicate Tidy(sections: seq<Section>) {
    && (forall i :: 0 <= i < |sections| ==> PlainKeys(sections[i].pairs) && DifferentKeys(sections[i].pairs))
    && (forall i, j :: 0 <= i < j < |sections| ==> sections[i].name != sections[j].name)
  }

  lemma {:induction false} LookJoined(r: Search, a: seq<string>, b: seq<string>, section: string, key: string)
    ensures LookLines(r, a + b, section, key) == LookLines(LookLines(r, a, section, key), b, section, key)
    decreases |a|
  {
    if a == [] {
      assert a + b == b;
    } else {
      LookJoined(LookLine(r, a[0], section, key), a[1..], b, section, key);
      assert (a + b)[1..] == a[1..] + b;
    }
  }

  lemma {:induction false} EqualsAtIs(key: string, value: string)
    requires '=' !in key
    ensures EqualsAt(key + "=" + value) == |key|
  {
    if key == [] {
      assert (key + "=" + value)[0] == '=';
    } else {
      assert (key + "=" + value)[1..] == key[1..] + "=" + value;
      EqualsAtIs(key[1..], value);
    }
  }

  lemma LookPair(r: Search, name: string, value: string, section: string, key: string)
    requires PlainKey(name)
    ensures LookLine(r, Pair(name, value), section, key) ==
            if r.section == section && name == key then r.(found := Some(value)) else r
  {
    EqualsAtIs(name, value);
    var line := Pair(name, value);
    assert line[0] == name[0] && line[..|name|] == name && line[|name| + 1..] == value;
  }

  lemma LookHeader(r: Search, name: string, section: string, key: string)
    ensures LookLines(r, [Header(name)], section, key) == r.(section := name)
    ensures LookLines(r, [""], section, key) == r
  {
    assert Header(name)[1..|Header(name)| - 1] == name;
    assert [Header(name)][1..] == [] && [""][1..] == [];
  }

  lemma {:induction false} LookPairs(r: Search, pairs: seq<(string, string)>, section: string, key: string)
    requires PlainKeys(pairs) && DifferentKeys(pairs)
    ensures var end := LookLines(r, PairLines(pairs), section, key);
            && end.section == r.section
            && (forall i :: 0 <= i < |pairs| && r.section == section && pairs[i].0 == key ==>
                  end.found == Some(pairs[i].1))
            && (r.section != section || (forall i :: 0 <= i < |pairs| ==> pairs[i].0 != key) ==> end == r)
    decreases |pairs|
  {
    hide LookLine, Pair, PlainKey;
    if pairs != [] {
      LookPair(r, pairs[0].0, pairs[0].1, section, key);
      var next := LookLine(r, Pair(pairs[0].0, pairs[0].1), section, key);
      LookPairs(next, pairs[1..], section, key);
      assert PairLines(pairs)[1..] == PairLines(pairs[1..]);
    }
  }

  lemma LookSection(r: Search, s: Section, section: string, key: string)
    requires PlainKeys(s.pairs) && DifferentKeys(s.pairs)
    ensures var end := LookLines(r, SectionLines(s), section, key);
            && end.section == s.name
            && (forall i :: 0 <= i < |s.pairs| && s.name == section && s.pairs[i].0 == key ==>
                  end.found == Some(s.pairs[i].1))
            && (s.name != section || (forall i :: 0 <= i < |s.pairs| ==> s.pairs[i].0 != key) ==>
                  end.found == r.found)
  {
    hide LookLines, PairLines, PlainKeys, DifferentKeys, Header;
    var head := r.(section := s.name);
    LookHeader(r, s.name, section, key);
    LookPairs(head, s.pairs, section, key);
    var after := LookLines(head, PairLines(s.pairs), section, key);
    LookHeader(after, s.name, section, key);
    LookJoined(r, [Header(s.name)], PairLines(s.pairs), section, key);
    LookJoined(r, [Header(s.name)] + PairLines(s.pairs), [""], section, key);
  }

  lemma {:induction false} LookElsewhere(r: Search, sections: seq<Section>, section: string, key: string)
    requires Tidy(sections) && forall i :: 0 <= i < |sections| ==> sections[i].name != section
    ensures LookLines(r, AllLines(sections), section, key).found == r.found
    decreases |sections|
  {
    hide LookLines, SectionLines, PlainKeys, DifferentKeys;
    if sections == [] {
      LookNothing(r, section, key);
    } else {
      LookSection(r, sections[0], section, key);
      var next := LookLines(r, SectionLines(sections[0]), section, key);
      LookElsewhere(next, sections[1..], section, key);
      LookJoined(r, SectionLines(sections[0]), AllLines(sections[1..]), section, key);
    }
  }

  lemma LookNothing(r: Search, section: string, key: string)
    ensures LookLines(r, [], section, key) == r
  {
  }

  /** Every value of tidy sections is found under its section and key. */
  lemma {:induction false} LookFinds(r: Search, sections: seq<Section>, i: nat, j: nat)
    requires Tidy(sections) && i < |sections| && j < |sections[i].pairs|
    ensures var (key, value) := sections[i].pairs[j];
            LookLines(r, AllLines(sections), sections[i].name, key).found == Some(value)
    decreases |sections|
  {
    hide LookLines, SectionLines, PlainKeys, DifferentKeys;
    var section, key := sections[i].name, sections[i].pairs[j].0;
    LookSection(r, sections[0], section, key);
    var next := LookLines(r, SectionLines(sections[0]), section, key);
    LookJoined(r, SectionLines(sections[0]), AllLines(sections[1..]), section, key);
    if i == 0 {
      LookElsewhere(next, sections[1..], section, key);
    } else {
      LookFinds(next, sections[1..], i - 1, j);
    }
  }

  // ---------------------------------------------------------------------------------------------
  // A written profile as sections
  // ---------------------------------------------------------------------------------------------

  function Flag(on: bool): string {
    if on then "true" else "false"
  }

  function ConnectionSection(s: Settings): Section {
    Section("connection", [("id", KeyfileEscape(s.id)), ("uuid", s.uuid), ("type", "wifi"),
                           ("interface-name", s.interface), ("autoconnect", Flag(s.autoconnect)),
                           ("autoconnect-priority", "20")])
  }

  function WirelessSection(s: Settings): Section {
    Section("802-11-wireless", [("mode", "infrastructure"), ("ssid", KeyfileEscape(s.ssid)), ("hidden", "false")])
  }

  function SecuritySection(management: string, password: string): Section {
    Section("802-11-wireless-security",
            [("key-mgmt", management), ("psk", KeyfileEscape(password)), ("psk-flags", "0")])
  }

  const FOUR := Section("ipv4", [("method", "auto")])
  const SIX := Section("ipv6", [("method", "auto")])

  function ProfileSections(s: Settings): seq<Section> {
    if s.keyManagement.None? then [ConnectionSection(s), WirelessSection(s), FOUR, SIX]
    else [ConnectionSection(s), WirelessSection(s), SecuritySection(s.keyManagement.value, s.password), FOUR, SIX]
  }

  lemma ConnectionLines(s: Settings)
    ensures SectionLines(ConnectionSection(s)) ==
            [Header("connection"), Pair("id", KeyfileEscape(s.id)), Pair("uuid", s.uuid), Pair("type", "wifi"),
             Pair("interface-name", s.interface), Pair("autoconnect", Flag(s.autoconnect)),
             Pair("autoconnect-priority", "20"), ""]
  {
    hide Pair, Header, KeyfileEscape, Flag;
    var pairs := ConnectionSection(s).pairs;
    assert |PairLines(pairs)| == 6;
  }

  lemma WirelessLines(s: Settings)
    ensures SectionLines(WirelessSection(s)) ==
            [Header("802-11-wireless"), Pair("mode", "infrastructure"), Pair("ssid", KeyfileEscape(s.ssid)),
             Pair("hidden", "false"), ""]
  {
    hide Pair, Header, KeyfileEscape;
    assert |PairLines(WirelessSection(s).pairs)| == 3;
  }

  lemma OtherLines(management: string, password: string)
    ensures SectionLines(SecuritySection(management, password)) ==
            [Header("802-11-wireless-security"), Pair("key-mgmt", management), Pair("psk", KeyfileEscape(password)),
             Pair("psk-flags", "0"), ""]
    ensures SectionLines(FOUR) == [Header("ipv4"), Pair("method", "auto"), ""]
    ensures SectionLines(SIX) == [Header("ipv6"), Pair("method", "auto"), ""]
  {
    hide Pair, Header, KeyfileEscape;
    assert |PairLines(SecuritySection(management, password).pairs)| == 3;
    assert |PairLines(FOUR.pairs)| == 1 && |PairLines(SIX.pairs)| == 1;
  }

  lemma AllLinesOf(first: Section, rest: seq<Section>)
    ensures AllLines([first] + rest) == SectionLines(first) + AllLines(rest)
    ensures AllLines([]) == []
  {
    assert ([first] + rest)[1..] == rest;
  }

  lemma AddressLines()
    ensures AllLines([FOUR, SIX]) == ADDRESS_LINES
  {
    hide Pair, Header, SectionLines;
    OtherLines("", "");
    AllLinesOf(FOUR, [SIX]);
    AllLinesOf(SIX, []);
    assert [FOUR] + [SIX] == [FOUR, SIX] && [SIX] + [] == [SIX];
  }

  /** The lines of a written profile are its sections. */
  lemma ProfileIsSections(s: Settings)
    ensures ProfileLines(s) == AllLines(ProfileSections(s))
  {
    hide Pair, Header, KeyfileEscape, SectionLines, AllLines;
    AddressLines();
    ConnectionLines(s);
    WirelessLines(s);
    var rest := [FOUR, SIX];
    if s.keyManagement.Some? {
      var security := SecuritySection(s.keyManagement.value, s.password);
      OtherLines(s.keyManagement.value, s.password);
      AllLinesOf(security, rest);
      rest := [security] + rest;
    }
    assert AllLines(rest) == SecurityLines(s) + ADDRESS_LINES;
    AllLinesOf(WirelessSection(s), rest);
    AllLinesOf(ConnectionSection(s), [WirelessSection(s)] + rest);
    assert ProfileSections(s) == [ConnectionSection(s)] + ([WirelessSection(s)] + rest);
    NetworkIsSections(s);
    hide NetworkLines, SecurityLines;
    var a, b, c := SectionLines(ConnectionSection(s)), SectionLines(WirelessSection(s)), AllLines(rest);
    assert a + (b + c) == a + b + c;
    assert NetworkLines(s) + (SecurityLines(s) + ADDRESS_LINES) == NetworkLines(s) + SecurityLines(s) + ADDRESS_LINES;
  }

  lemma NetworkIsSections(s: Settings)
    ensures NetworkLines(s) == SectionLines(ConnectionSection(s)) + SectionLines(WirelessSection(s))
  {
    hide Pair, Header, KeyfileEscape, SectionLines;
    ConnectionLines(s);
    WirelessLines(s);
  }

  lemma ProfileTidy(s: Settings)
    ensures Tidy(ProfileSections(s))
  {
    hide KeyfileEscape, Flag;
    ConnectionTidy(s);
    OthersTidy(s);
    hide PlainKeys, DifferentKeys;
    NamesDiffer();
  }

  lemma NamesDiffer()
    ensures |"connection"| == 10 && |"802-11-wireless"| == 15 && |"802-11-wireless-security"| == 24
    ensures "ipv4" != "ipv6" && |"ipv4"| == |"ipv6"| == 4
  {
    assert "ipv4"[3] != "ipv6"[3];
  }

  lemma ConnectionTidy(s: Settings)
    ensures PlainKeys(ConnectionSection(s).pairs) && DifferentKeys(ConnectionSection(s).pairs)
  {
    hide KeyfileEscape, Flag;
    assert "uuid"[0] != "type"[0];
  }

  lemma OthersTidy(s: Settings)
    ensures PlainKeys(WirelessSection(s).pairs) && DifferentKeys(WirelessSection(s).pairs)
    ensures s.keyManagement.Some? ==>
              var security := SecuritySection(s.keyManagement.value, s.password);
              PlainKeys(security.pairs) && DifferentKeys(security.pairs)
    ensures PlainKeys(FOUR.pairs) && DifferentKeys(FOUR.pairs) && PlainKeys(SIX.pairs) && DifferentKeys(SIX.pairs)
  {
    hide KeyfileEscape;
    assert "mode"[0] != "ssid"[0];
  }

  // ---------------------------------------------------------------------------------------------
  // What a written profile says
  // ---------------------------------------------------------------------------------------------

  ghost predicate AllOneLine(lines: seq<string>) {
    forall i :: 0 <= i < |lines| ==> OneLine(lines[i])
  }

  ghost predicate OnLines(s: Section) {
    && OneLine(s.name)
    && forall i :: 0 <= i < |s.pairs| ==> OneLine(s.pairs[i].0) && OneLine(s.pairs[i].1)
  }

  lemma SectionOneLine(s: Section)
    requires OnLines(s)
    ensures AllOneLine(SectionLines(s))
  {
    var lines := PairLines(s.pairs);
    forall i | 0 <= i < |lines| ensures OneLine(lines[i]) {
      PairOneLine(s.pairs[i].0, s.pairs[i].1);
    }
  }

  lemma PairOneLine(key: string, value: string)
    requires OneLine(key) && OneLine(value)
    ensures OneLine(Pair(key, value))
  {
  }

  lemma {:induction false} AllLinesOneLine(sections: seq<Section>)
    requires forall i :: 0 <= i < |sections| ==> OnLines(sections[i])
    ensures AllOneLine(AllLines(sections))
  {
    hide OnLines, SectionLines, OneLine;
    if sections != [] {
      SectionOneLine(sections[0]);
      AllLinesOneLine(sections[1..]);
    }
  }

  /**
   What a profile needs to be written line by line. The texts that can hold anything are escaped; an adapter's name,
   which is checked to have letters, digits and `_`, `.`, `:` and `-` only, is not, but is decoded like the others.
   */
  predicate Writable(s: Settings) {
    && OneLine(s.interface) && BACKSLASH !in s.interface && OneLine(s.uuid)
    && (s.keyManagement.Some? ==> OneLine(s.keyManagement.value))
  }

  lemma {:induction false} NothingEscaped(text: string)
    requires BACKSLASH !in text
    ensures ValueFrom(text, false) == text
  {
    if text != [] {
      NothingEscaped(text[1..]);
    }
  }

  lemma ConnectionOnLines(s: Settings)
    requires Writable(s)
    ensures OnLines(ConnectionSection(s))
  {
    hide KeyfileEscape;
    DecodeInvertsEscape(s.id);
    LiteralsOneLine();
    hide OneLine;
  }

  lemma LiteralsOneLine()
    ensures OneLine("connection") && OneLine("id") && OneLine("uuid") && OneLine("type") && OneLine("wifi")
    ensures OneLine("interface-name") && OneLine("autoconnect") && OneLine("true") && OneLine("false") && OneLine("20")
    ensures OneLine("autoconnect-priority")
  {
    assert forall i :: 0 <= i < 20 ==> '-' <= "autoconnect-priority"[i] <= 'z';
  }

  lemma OthersOnLines(s: Settings)
    requires Writable(s)
    ensures OnLines(WirelessSection(s)) && OnLines(FOUR) && OnLines(SIX)
    ensures s.keyManagement.Some? ==> OnLines(SecuritySection(s.keyManagement.value, s.password))
  {
    hide KeyfileEscape;
    DecodeInvertsEscape(s.ssid);
    DecodeInvertsEscape(s.password);
    OtherLiteralsOneLine();
    SecurityLiteralsOneLine();
    hide OneLine;
  }

  lemma OtherLiteralsOneLine()
    ensures OneLine("802-11-wireless") && OneLine("mode") && OneLine("infrastructure") && OneLine("ssid")
    ensures OneLine("hidden") && OneLine("false") && OneLine("ipv4") && OneLine("ipv6")
    ensures OneLine("method") && OneLine("auto")
  {
  }

  lemma SecurityLiteralsOneLine()
    ensures OneLine("802-11-wireless-security") && OneLine("key-mgmt") && OneLine("psk")
    ensures OneLine("psk-flags") && OneLine("0")
  {
  }

  lemma WrittenLines(s: Settings)
    requires Writable(s)
    ensures Lines(Joined(ProfileLines(s))) == AllLines(ProfileSections(s))
  {
    hide Lines, Joined, AllLines, Writable, OnLines, OneLine, ProfileLines;
    ProfileIsSections(s);
    ConnectionOnLines(s);
    OthersOnLines(s);
    AllLinesOneLine(ProfileSections(s));
    LinesOfJoined(ProfileLines(s));
  }

  /** The value of a pair stands in the text under its section and key. */
  lemma WrittenValue(s: Settings, i: nat, j: nat)
    requires Writable(s) && i < |ProfileSections(s)| && j < |ProfileSections(s)[i].pairs|
    ensures var (key, value) := ProfileSections(s)[i].pairs[j];
            ValueOf(Joined(ProfileLines(s)), ProfileSections(s)[i].name, key) == Some(value)
  {
    hide Lines, Joined, AllLines, LookLines, Writable, Tidy, ProfileSections;
    WrittenLines(s);
    ProfileTidy(s);
    LookFinds(Search("", None), ProfileSections(s), i, j);
  }

  /** A written profile says all that its settings say, whatever the name, the password and the ssid contain. */
  lemma WrittenConnection(s: Settings)
    requires Writable(s)
    ensures var text := Joined(ProfileLines(s));
            && Decoded(ValueOf(text, "connection", "id")) == Some(s.id)
            && ValueOf(text, "connection", "uuid") == Some(s.uuid)
            && ValueOf(text, "connection", "type") == Some("wifi")
            && ValueOf(text, "connection", "interface-name") == Some(s.interface)
            && ValueOf(text, "connection", "autoconnect") == Some(if s.autoconnect then "true" else "false")
            && ValueOf(text, "connection", "autoconnect-priority") == Some("20")
  {
    hide ValueOf, Joined, ProfileLines, Writable, KeyfileEscape, ValueFrom;
    DecodeInvertsEscape(s.id);
    WrittenValue(s, 0, 0);
    WrittenValue(s, 0, 1);
    WrittenValue(s, 0, 2);
    WrittenValue(s, 0, 3);
    WrittenValue(s, 0, 4);
    WrittenValue(s, 0, 5);
  }

  lemma WrittenWireless(s: Settings)
    requires Writable(s)
    ensures var text := Joined(ProfileLines(s));
            && ValueOf(text, "802-11-wireless", "mode") == Some("infrastructure")
            && Decoded(ValueOf(text, "802-11-wireless", "ssid")) == Some(s.ssid)
            && ValueOf(text, "802-11-wireless", "hidden") == Some("false")
            && ValueOf(text, "ipv4", "method") == Some("auto") && ValueOf(text, "ipv6", "method") == Some("auto")
  {
    hide ValueOf, Joined, ProfileLines, Writable, KeyfileEscape, ValueFrom;
    DecodeInvertsEscape(s.ssid);
    WrittenValue(s, 1, 0);
    WrittenValue(s, 1, 1);
    WrittenValue(s, 1, 2);
    WrittenValue(s, |ProfileSections(s)| - 2, 0);
    WrittenValue(s, |ProfileSections(s)| - 1, 0);
  }

  /** A protected network has its key management and its password in a section of their own; an open one has none. */
  lemma WrittenSecurity(s: Settings)
    requires Writable(s)
    ensures var text := Joined(ProfileLines(s));
            && (HasSection(text, "802-11-wireless-security") <==> s.keyManagement.Some?)
            && ValueOf(text, "802-11-wireless-security", "key-mgmt") == s.keyManagement
            && Decoded(ValueOf(text, "802-11-wireless-security", "psk")) ==
               (if s.keyManagement.Some? then Some(s.password) else None)
            && ValueOf(text, "802-11-wireless-security", "psk-flags") ==
               (if s.keyManagement.Some? then Some("0") else None)
  {
    hide Joined, ProfileLines, Writable, KeyfileEscape, ValueFrom, Lines, LookLines, AllLines;
    WrittenLines(s);
    SecurityHeader(s);
    if s.keyManagement.Some? {
      hide ValueOf;
      DecodeInvertsEscape(s.password);
      WrittenValue(s, 2, 0);
      WrittenValue(s, 2, 1);
      WrittenValue(s, 2, 2);
    } else {
      ProfileTidy(s);
      NamesDiffer();
      hide Tidy;
      var section := "802-11-wireless-security";
      LookElsewhere(Search("", None), ProfileSections(s), section, "key-mgmt");
      LookElsewhere(Search("", None), ProfileSections(s), section, "psk");
      LookElsewhere(Search("", None), ProfileSections(s), section, "psk-flags");
    }
  }

  lemma HeaderInSection(s: Section, name: string)
    requires PlainKeys(s.pairs)
    ensures Header(name) in SectionLines(s) <==> s.name == name
  {
    var lines, header := PairLines(s.pairs), Header(name);
    forall i | 0 <= i < |lines| ensures lines[i] != header {
      assert PlainKey(s.pairs[i].0) && lines[i][0] == s.pairs[i].0[0] && header[0] == '[';
    }
    assert Header(s.name)[1..|Header(s.name)| - 1] == s.name && header[1..|header| - 1] == name;
    assert SectionLines(s)[0] == Header(s.name);
  }

  lemma {:induction false} HeaderIn(sections: seq<Section>, name: string)
    requires forall i :: 0 <= i < |sections| ==> PlainKeys(sections[i].pairs)
    ensures Header(name) in AllLines(sections) <==> exists i :: 0 <= i < |sections| && sections[i].name == name
  {
    hide Header, SectionLines, PlainKeys;
    if sections != [] {
      HeaderInSection(sections[0], name);
      HeaderIn(sections[1..], name);
    }
  }

  lemma SecurityHeader(s: Settings)
    ensures Header("802-11-wireless-security") in AllLines(ProfileSections(s)) <==> s.keyManagement.Some?
  {
    hide Header, KeyfileEscape, AllLines, PlainKeys, DifferentKeys;
    ProfileTidy(s);
    NamesDiffer();
    HeaderIn(ProfileSections(s), "802-11-wireless-security");
    if s.keyManagement.Some? {
      assert ProfileSections(s)[2].name == "802-11-wireless-security";
    }
  }

  /**
    A written profile matches exactly its own adapter and its own network, whatever the name, the password and the
    network's name contain.
    */
  lemma WrittenProfileMatches(s: Settings, interface: string, ssid: string)
    requires Writable(s)
    ensures Matches(Joined(ProfileLines(s)), interface, ssid) <==> interface == s.interface && ssid == s.ssid
  {
    hide ValueOf, Joined, ProfileLines, OneLine, ValueFrom, Matches;
    WrittenConnection(s);
    WrittenWireless(s);
    NothingEscaped(s.interface);
    MatchesIff(Joined(ProfileLines(s)), interface, ssid);
  }
}
