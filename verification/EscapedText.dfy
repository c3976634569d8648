/** Lines, nmcli's terse rows, and keyfile values. */
module EscapedText {
  import opened Sequences

  const BACKSLASH := '\\'

  /** What a letter after a backslash stands for. */
  function Unescaped(c: char): char {
    match c
    case 'n' => '\n'
    case 'r' => '\r'
    case 't' => '\t'
    case other => other
  }

  // ---------------------------------------------------------------------------------------------
  // Lines
  // ---------------------------------------------------------------------------------------------

  function TrimReturn(line: string): string {
    if line != [] && line[|line| - 1] == '\r' then line[..|line| - 1] else line
  }

  function LineEnd(text: string): (n: nat)
    ensures n <= |text|
  {
    if text == [] || text[0] == '\n' then 0 else 1 + LineEnd(text[1..])
  }

  /** `str::lines`. */
  function Lines(text: string): seq<string>
    decreases |text|
  {
    if text == [] then []
    else
      var n := LineEnd(text);
      if n == |text| then [text] else [TrimReturn(text[..n])] + Lines(text[n + 1..])
  }

  function Joined(lines: seq<string>): string {
    if lines == [] then [] else lines[0] + "\n" + Joined(lines[1..])
  }

  /** A text that survives being written as a line. */
  predicate OneLine(text: string) {
    forall i :: 0 <= i < |text| ==> text[i] != '\n' && text[i] != '\r'
  }

  lemma {:induction false} LineEndIs(line: string, rest: string)
    requires OneLine(line)
    ensures LineEnd(line + "\n" + rest) == |line|
  {
    if line != [] {
      LineEndIs(line[1..], rest);
      assert (line + "\n" + rest)[1..] == line[1..] + "\n" + rest;
    } else {
      assert (line + "\n" + rest)[0] == '\n';
    }
  }

  lemma {:induction false} LinesOfJoined(lines: seq<string>)
    requires forall i :: 0 <= i < |lines| ==> OneLine(lines[i])
    ensures Lines(Joined(lines)) == lines
  {
    if lines != [] {
      var rest := Joined(lines[1..]);
      LineEndIs(lines[0], rest);
      LinesOfJoined(lines[1..]);
      var text := lines[0] + "\n" + rest;
      assert text[..|lines[0]|] == lines[0] && text[|lines[0]| + 1..] == rest;
    }
  }

  lemma {:induction false} JoinedParts(a: seq<string>, b: seq<string>)
    ensures Joined(a + b) == Joined(a) + Joined(b)
  {
    if a == [] {
      assert a + b == b;
    } else {
      JoinedParts(a[1..], b);
      assert (a + b)[1..] == a[1..] + b;
      Regroup(a[0] + "\n", Joined(a[1..]), Joined(b));
    }
  }

  // ---------------------------------------------------------------------------------------------
  // Terse rows
  // ---------------------------------------------------------------------------------------------

  /** The fields of the rest of a row, after what was read of the current field. */
  function RowFields(line: string, current: string, escaped: bool): seq<string>
    decreases |line|
  {
    if line == [] then [if escaped then current + [BACKSLASH] else current]
    else if escaped then RowFields(line[1..], current + [Unescaped(line[0])], false)
    else if line[0] == BACKSLASH then RowFields(line[1..], current, true)
    else if line[0] == ':' then [current] + RowFields(line[1..], [], false)
    else RowFields(line[1..], current + [line[0]], false)
  }

  /** `split_nmcli_row`. */
  method SplitRow(line: string) returns (fields: seq<string>)
    ensures fields == RowFields(line, [], false)
  {
    fields := [];
    var current, escaped := "", false;
    for i := 0 to |line|
      invariant fields + RowFields(line[i..], current, escaped) == RowFields(line, [], false)
    {
      var character := line[i];
      assert line[i..][1..] == line[i + 1..];
      if escaped {
        current := current + [Unescaped(character)];
        escaped := false;
      } else if character == BACKSLASH {
        escaped := true;
      } else if character == ':' {
        fields := fields + [current];
        current := "";
      } else {
        current := current + [character];
      }
    }
    if escaped {
      current := current + [BACKSLASH];
    }
    fields := fields + [current];
  }

  /** How nmcli writes a field of an escaped terse row. */
  function RowEscape(field: string): string {
    if field == [] then []
    else
      var first := if field[0] == ':' || field[0] == BACKSLASH then [BACKSLASH, field[0]] else [field[0]];
      first + RowEscape(field[1..])
  }

  function JoinRow(fields: seq<string>): string
    requires fields != []
  {
    if |fields| == 1 then RowEscape(fields[0]) else RowEscape(fields[0]) + ":" + JoinRow(fields[1..])
  }

  lemma CharacterSkipped(mark: char, c: char, more: string, current: string)
    requires mark == BACKSLASH && (c == ':' || c == BACKSLASH)
    ensures RowFields([mark, c] + more, current, false) == RowFields(more, current + [c], false)
  {
    assert ([mark, c] + more)[1..] == [c] + more && ([c] + more)[1..] == more;
  }

  lemma {:induction false} FieldRead(field: string, rest: string, current: string)
    ensures RowFields(RowEscape(field) + rest, current, false) == RowFields(rest, current + field, false)
    decreases |field|
  {
    if field == [] {
      assert RowEscape(field) + rest == rest && current + field == current;
    } else {
      var c, more := field[0], RowEscape(field[1..]) + rest;
      FieldRead(field[1..], rest, current + [c]);
      assert current + field == current + [c] + field[1..];
      if c == ':' || c == BACKSLASH {
        Regroup([BACKSLASH, c], RowEscape(field[1..]), rest);
        CharacterSkipped(BACKSLASH, c, more, current);
      } else {
        Regroup([c], RowEscape(field[1..]), rest);
        assert ([c] + more)[1..] == more;
      }
    }
  }

  /** Splitting a row gives back the fields it was written from, whatever they contain. */
  lemma {:induction false} SplitInvertsJoin(fields: seq<string>)
    requires fields != []
    ensures RowFields(JoinRow(fields), [], false) == fields
  {
    var first := fields[0];
    assert [] + first == first;
    if |fields| == 1 {
      FieldRead(first, [], []);
      assert RowEscape(first) + [] == RowEscape(first);
    } else {
      var rest := JoinRow(fields[1..]);
      FieldRead(first, ":" + rest, []);
      assert RowEscape(first) + (":" + rest) == JoinRow(fields);
      assert (":" + rest)[1..] == rest;
      SplitInvertsJoin(fields[1..]);
    }
  }

  // ---------------------------------------------------------------------------------------------
  // Keyfile values
  // ---------------------------------------------------------------------------------------------

  /** `str::replace` of one character. */
  function Replace(text: string, c: char, with: string): string {
    if text == [] then [] else (if text[0] == c then with else [text[0]]) + Replace(text[1..], c, with)
  }

  /** `keyfile_escape`: four replacements, one after the other. */
  function KeyfileEscape(value: string): string {
    Replace(Replace(Replace(Replace(value, BACKSLASH, "\\\\"), '\t', "\\t"), '\r', "\\r"), '\n', "\\n")
  }

  function ValueFrom(text: string, escaped: bool): string
    decreases |text|
  {
    if text == [] then (if escaped then [BACKSLASH] else [])
    else if escaped then [Unescaped(text[0])] + ValueFrom(text[1..], false)
    else if text[0] == BACKSLASH then ValueFrom(text[1..], true)
    else [text[0]] + ValueFrom(text[1..], false)
  }

  /** `decode_keyfile_value`. */
  method DecodeKeyfileValue(value: string) returns (decoded: string)
    ensures decoded == ValueFrom(value, false)
  {
    decoded := [];
    var escaped := false;
    for i := 0 to |value|
      invariant decoded + ValueFrom(value[i..], escaped) == ValueFrom(value, false)
    {
      var character := value[i];
      assert value[i..][1..] == value[i + 1..];
      Regroup(decoded, [if escaped then Unescaped(character) else character], ValueFrom(value[i + 1..], false));
      if escaped {
        decoded := decoded + [Unescaped(character)];
        escaped := false;
      } else if character == BACKSLASH {
        escaped := true;
      } else {
        decoded := decoded + [character];
      }
    }
    if escaped {
      decoded := decoded + [BACKSLASH];
    }
  }

  /** What the four replacements make of one character. */
  function EscapedChar(c: char): string {
    match c
    case '\\' => "\\\\"
    case '\t' => "\\t"
    case '\r' => "\\r"
    case '\n' => "\\n"
    case other => [other]
  }

  lemma {:induction false} ReplaceJoined(a: string, b: string, c: char, with: string)
    ensures Replace(a + b, c, with) == Replace(a, c, with) + Replace(b, c, with)
  {
    if a == [] {
      assert a + b == b;
    } else {
      ReplaceJoined(a[1..], b, c, with);
      assert (a + b)[1..] == a[1..] + b;
      Regroup(if a[0] == c then with else [a[0]], Replace(a[1..], c, with), Replace(b, c, with));
    }
  }

  lemma {:induction false} ReplaceAbsent(text: string, c: char, with: string)
    requires c !in text
    ensures Replace(text, c, with) == text
  {
    if text != [] {
      ReplaceAbsent(text[1..], c, with);
    }
  }

  /** The replacements do not disturb each other: each character is escaped on its own. */
  lemma EscapeOneByOne(c: char, rest: string)
    ensures KeyfileEscape([c] + rest) == EscapedChar(c) + KeyfileEscape(rest)
  {
    var one := Replace([c], BACKSLASH, "\\\\");
    var two := Replace(one, '\t', "\\t");
    var three := Replace(two, '\r', "\\r");
    ReplaceJoined([c], rest, BACKSLASH, "\\\\");
    var rest1 := Replace(rest, BACKSLASH, "\\\\");
    ReplaceJoined(one, rest1, '\t', "\\t");
    var rest2 := Replace(rest1, '\t', "\\t");
    ReplaceJoined(two, rest2, '\r', "\\r");
    ReplaceJoined(three, Replace(rest2, '\r', "\\r"), '\n', "\\n");
    OneCharacter(c);
  }

  lemma OneCharacter(c: char)
    ensures KeyfileEscape([c]) == EscapedChar(c)
  {
    var one := Replace([c], BACKSLASH, "\\\\");
    assert [c][1..] == [] && Replace([], BACKSLASH, "\\\\") == [];
    assert one == (if c == BACKSLASH then "\\\\" else [c]);
    if c == BACKSLASH {
      ReplaceAbsent(one, '\t', "\\t");
      ReplaceAbsent(one, '\r', "\\r");
      ReplaceAbsent(one, '\n', "\\n");
    } else if c == '\t' {
      assert Replace(one, '\t', "\\t") == "\\t";
      ReplaceAbsent("\\t", '\r', "\\r");
      ReplaceAbsent("\\t", '\n', "\\n");
    } else if c == '\r' {
      ReplaceAbsent(one, '\t', "\\t");
      assert Replace(one, '\r', "\\r") == "\\r";
      ReplaceAbsent("\\r", '\n', "\\n");
    } else {
      ReplaceAbsent(one, '\t', "\\t");
      ReplaceAbsent(one, '\r', "\\r");
      assert Replace(one, '\n', "\\n") == EscapedChar(c);
    }
  }

  /** Decoding inverts escaping on every string, and an escaped value is a single line. */
  lemma {:induction false} DecodeInvertsEscape(value: string)
    ensures ValueFrom(KeyfileEscape(value), false) == value && OneLine(KeyfileEscape(value))
  {
    if value != [] {
      var c, rest := value[0], KeyfileEscape(value[1..]);
      DecodeInvertsEscape(value[1..]);
      assert value == [c] + value[1..];
      EscapeOneByOne(c, value[1..]);
      CharacterRead(c, rest);
    }
  }

  lemma CharacterRead(c: char, rest: string)
    ensures ValueFrom(EscapedChar(c) + rest, false) == [c] + ValueFrom(rest, false) && OneLine(EscapedChar(c))
  {
    var text := EscapedChar(c) + rest;
    if |EscapedChar(c)| == 2 {
      assert text == [BACKSLASH] + ([EscapedChar(c)[1]] + rest);
      assert text[1..] == [EscapedChar(c)[1]] + rest && text[1..][1..] == rest;
    } else {
      assert text[1..] == rest;
    }
  }

  // ---------------------------------------------------------------------------------------------
  // What any text says, escaped by whomever
  // ---------------------------------------------------------------------------------------------

  /** A character, a backslash with a character behind it, or a separator. */
  datatype Token = Plain(c: char) | Escape(c: char) | Colon

  function Spelt(token: Token): string {
    match token
    case Plain(c) => [c]
    case Escape(c) => ['\\', c]
    case Colon => [':']
  }

  function Spelling(tokens: seq<Token>): string {
    if tokens == [] then [] else Spelt(tokens[0]) + Spelling(tokens[1..])
  }

  /** A backslash that ends a text stands for itself. */
  function Ending(open: bool): string {
    if open then ['\\'] else []
  }

  /** The character that a token stands for. */
  function Meant(token: Token): char
    requires !token.Colon?
  {
    if token.Escape? && token.c == 'n' then '\n'
    else if token.Escape? && token.c == 'r' then '\r'
    else if token.Escape? && token.c == 't' then '\t'
    else token.c
  }

  predicate OfValue(tokens: seq<Token>) {
    forall i :: 0 <= i < |tokens| ==> !tokens[i].Colon? && (tokens[i].Plain? ==> tokens[i].c != '\\')
  }

  predicate OfRow(tokens: seq<Token>) {
    forall i :: 0 <= i < |tokens| && tokens[i].Plain? ==> tokens[i].c != '\\' && tokens[i].c != ':'
  }

  function Said(tokens: seq<Token>): (text: string)
    requires OfValue(tokens)
    ensures |text| == |tokens| && forall i :: 0 <= i < |tokens| ==> text[i] == Meant(tokens[i])
  {
    if tokens == [] then [] else [Meant(tokens[0])] + Said(tokens[1..])
  }

  /** The fields between the separators, the first one after what was read of it, the last one with the open ending. */
  function SaidFields(current: string, tokens: seq<Token>, open: bool): seq<string>
    decreases |tokens|
  {
    if tokens == [] then [current + Ending(open)]
    else if tokens[0].Colon? then [current] + SaidFields([], tokens[1..], open)
    else SaidFields(current + [Meant(tokens[0])], tokens[1..], open)
  }

  lemma SpellingStep(tokens: seq<Token>, open: bool)
    requires tokens != []
    ensures var text, rest := Spelling(tokens) + Ending(open), Spelling(tokens[1..]) + Ending(open);
            match tokens[0]
            case Plain(c) => text == [c] + rest
            case Escape(c) => text == ['\\'] + ([c] + rest)
            case Colon => text == [':'] + rest
  {
    hide Ending;
    var front, rest := Spelling(tokens[1..]), Ending(open);
    assert Spelling(tokens) + rest == Spelt(tokens[0]) + front + rest;
    hide Spelling;
    Regroup(Spelt(tokens[0]), front, rest);
    if tokens[0].Escape? {
      assert ['\\', tokens[0].c] == ['\\'] + [tokens[0].c];
      Regroup(['\\'], [tokens[0].c], front + rest);
    }
  }

  /** A keyfile value decodes to what its tokens stand for. */
  lemma {:induction false} ValueIsSaid(tokens: seq<Token>, open: bool)
    requires OfValue(tokens)
    ensures ValueFrom(Spelling(tokens) + Ending(open), false) == Said(tokens) + Ending(open)
    decreases |tokens|
  {
    if tokens == [] {
      assert Spelling(tokens) + Ending(open) == Ending(open) == Said(tokens) + Ending(open);
      OpenEnd(open);
    } else {
      ValueIsSaid(tokens[1..], open);
      SpellingStep(tokens, open);
      hide Spelling;
      var rest := Spelling(tokens[1..]) + Ending(open);
      TokenRead(tokens[0], rest);
      Regroup([Meant(tokens[0])], Said(tokens[1..]), Ending(open));
    }
  }

  lemma OpenEnd(open: bool)
    ensures ValueFrom(Ending(open), false) == Ending(open)
    ensures forall current :: RowFields(Ending(open), current, false) == [current + Ending(open)]
  {
    forall current ensures RowFields(Ending(open), current, false) == [current + Ending(open)] {
      assert Ending(true)[1..] == [];
      assert !open ==> current + Ending(open) == current;
    }
  }

  lemma TokenRead(token: Token, rest: string)
    requires !token.Colon? && (token.Plain? ==> token.c != '\\')
    ensures var text := if token.Plain? then [token.c] + rest else ['\\'] + ([token.c] + rest);
            ValueFrom(text, false) == [Meant(token)] + ValueFrom(rest, false)
  {
    var text := if token.Plain? then [token.c] + rest else ['\\'] + ([token.c] + rest);
    if token.Plain? {
      assert text[1..] == rest;
    } else {
      assert text[1..] == [token.c] + rest && text[1..][1..] == rest;
    }
  }

  lemma RowTokenRead(current: string, token: Token, rest: string)
    requires !token.Colon? && (token.Plain? ==> token.c != '\\' && token.c != ':')
    ensures var text := if token.Plain? then [token.c] + rest else ['\\'] + ([token.c] + rest);
            RowFields(text, current, false) == RowFields(rest, current + [Meant(token)], false)
  {
    var text := if token.Plain? then [token.c] + rest else ['\\'] + ([token.c] + rest);
    if token.Plain? {
      assert text[1..] == rest;
    } else {
      assert text[1..] == [token.c] + rest && text[1..][1..] == rest;
    }
  }

  /** A row splits at its separators and nowhere else, into what its tokens stand for. */
  lemma {:induction false} RowIsSaid(current: string, tokens: seq<Token>, open: bool)
    requires OfRow(tokens)
    ensures RowFields(Spelling(tokens) + Ending(open), current, false) == SaidFields(current, tokens, open)
    decreases |tokens|
  {
    if tokens == [] {
      assert Spelling(tokens) + Ending(open) == Ending(open);
      OpenEnd(open);
    } else {
      SpellingStep(tokens, open);
      hide Spelling;
      var text, rest := Spelling(tokens) + Ending(open), Spelling(tokens[1..]) + Ending(open);
      if tokens[0].Colon? {
        RowIsSaid([], tokens[1..], open);
        assert text[1..] == rest;
      } else {
        RowIsSaid(current + [Meant(tokens[0])], tokens[1..], open);
        RowTokenRead(current, tokens[0], rest);
      }
    }
  }

  /** Every text is the spelling of tokens, with an open ending or without. */
  lemma {:induction false} EveryText(text: string, row: bool) returns (tokens: seq<Token>, open: bool)
    ensures text == Spelling(tokens) + Ending(open) && (if row then OfRow(tokens) else OfValue(tokens))
    decreases |text|
  {
    if text == [] || text == ['\\'] {
      tokens, open := [], text != [];
    } else if text[0] == '\\' {
      tokens, open := EveryText(text[2..], row);
      tokens := [Escape(text[1])] + tokens;
      EscapeFirst(tokens, text, open);
    } else {
      tokens, open := EveryText(text[1..], row);
      tokens := [if row && text[0] == ':' then Colon else Plain(text[0])] + tokens;
      CharacterFirst(tokens, text, open);
    }
  }

  lemma EscapeFirst(tokens: seq<Token>, text: string, open: bool)
    requires |text| >= 2 && text[0] == '\\' && tokens != [] && tokens[0] == Escape(text[1])
    requires text[2..] == Spelling(tokens[1..]) + Ending(open)
    ensures text == Spelling(tokens) + Ending(open)
  {
    hide Spelling, Ending;
    SpellingStep(tokens, open);
    TwoFirst(text);
  }

  lemma TwoFirst(text: string)
    requires |text| >= 2
    ensures text == [text[0]] + ([text[1]] + text[2..])
  {
  }

  lemma CharacterFirst(tokens: seq<Token>, text: string, open: bool)
    requires text != [] && tokens != []
    requires tokens[0] == Plain(text[0]) || (tokens[0] == Colon && text[0] == ':')
    requires text[1..] == Spelling(tokens[1..]) + Ending(open)
    ensures text == Spelling(tokens) + Ending(open)
  {
    hide Spelling, Ending;
    SpellingStep(tokens, open);
    assert text == [text[0]] + text[1..];
  }

  // ---------------------------------------------------------------------------------------------
  // Lines that end in a carriage return and a line feed
  // ---------------------------------------------------------------------------------------------

  function JoinedWithReturns(lines: seq<string>): string {
    if lines == [] then [] else lines[0] + "\r\n" + JoinedWithReturns(lines[1..])
  }

  /** A carriage return before the line feed is no part of the line. */
  lemma {:induction false} LinesOfReturns(lines: seq<string>)
    requires forall i :: 0 <= i < |lines| ==> OneLine(lines[i])
    ensures Lines(JoinedWithReturns(lines)) == lines
  {
    if lines != [] {
      var rest := JoinedWithReturns(lines[1..]);
      ReturnEnds(lines[0], rest);
      LinesOfReturns(lines[1..]);
      var line := lines[0] + ['\r'];
      var text := lines[0] + "\r\n" + rest;
      assert text[..|line|] == line && text[|line| + 1..] == rest && line[..|line| - 1] == lines[0];
    }
  }

  lemma {:induction false} ReturnEnds(line: string, rest: string)
    requires OneLine(line)
    ensures LineEnd(line + "\r\n" + rest) == |line| + 1
  {
    var text := line + "\r\n" + rest;
    if line == [] {
      assert text[0] == '\r' && text[1..][0] == '\n';
    } else {
      ReturnEnds(line[1..], rest);
      assert text[1..] == line[1..] + "\r\n" + rest;
    }
  }
}
