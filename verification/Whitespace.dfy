/** Text split at whitespace. */
module Whitespace {

  /** The characters with the Unicode property White_Space. */
  predicate IsWhitespace(c: char) {
    var n := c as int;
    || 9 <= n <= 13 || n == 32 || n == 0x85 || n == 0xA0 || n == 0x1680 || 0x2000 <= n <= 0x200A
    || n == 0x2028 || n == 0x2029 || n == 0x202F || n == 0x205F || n == 0x3000
  }

  predicate Unbroken(text: string) {
    forall c <- text :: !IsWhitespace(c)
  }

  function LeadingWord(text: string): (word: string)
    ensures |word| <= |text| && Unbroken(word)
  {
    if text == [] || IsWhitespace(text[0]) then [] else [text[0]] + LeadingWord(text[1..])
  }

  /** `split_whitespace`. */
  function Words(text: string): seq<string> {
    if text == [] then []
    else if IsWhitespace(text[0]) then Words(text[1..])
    else
      var word := LeadingWord(text);
      [word] + Words(text[|word|..])
  }

  lemma {:induction false} LeadingWordIs(text: string)
    ensures LeadingWord(text) == text[..|LeadingWord(text)|]
    ensures |LeadingWord(text)| < |text| ==> IsWhitespace(text[|LeadingWord(text)|])
    ensures LeadingWord(text) == text <==> Unbroken(text)
  {
    if text != [] && !IsWhitespace(text[0]) {
      LeadingWordIs(text[1..]);
    }
  }

  /** The first word of a text: only whitespace stands before it, and whitespace or nothing behind it. */
  ghost predicate BeginsWith(text: string, lead: string, word: string, rest: string) {
    && text == lead + word + rest && (forall c <- lead :: IsWhitespace(c)) && word != "" && Unbroken(word)
    && (rest == "" || IsWhitespace(rest[0]))
  }

  lemma {:induction false} FirstWordFound(text: string, lead: string, word: string, rest: string)
    requires BeginsWith(text, lead, word, rest)
    ensures Words(text) != [] && Words(text)[0] == word
    decreases |lead|
  {
    if lead == [] {
      assert text == word + rest;
      WordThenBreak(word, rest);
    } else {
      assert text[0] == lead[0] && lead[0] in lead && text[1..] == lead[1..] + word + rest;
      FirstWordFound(text[1..], lead[1..], word, rest);
    }
  }

  lemma {:induction false} FirstWordStands(text: string) returns (lead: string, rest: string)
    requires Words(text) != []
    ensures BeginsWith(text, lead, Words(text)[0], rest)
    decreases |text|
  {
    if IsWhitespace(text[0]) {
      lead, rest := FirstWordStands(text[1..]);
      assert text == [text[0]] + lead + Words(text)[0] + rest;
      lead := [text[0]] + lead;
    } else {
      LeadingWordIs(text);
      lead, rest := "", text[|LeadingWord(text)|..];
    }
  }

  /** A word in front of a break stands alone. */
  lemma {:induction false} WordThenBreak(word: string, rest: string)
    requires Unbroken(word) && (rest == [] || IsWhitespace(rest[0]))
    ensures LeadingWord(word + rest) == word
    ensures word != [] ==> Words(word + rest) == [word] + Words(rest)
  {
    if word == [] {
      assert word + rest == rest;
    } else {
      assert (word + rest)[1..] == word[1..] + rest;
      WordThenBreak(word[1..], rest);
      assert (word + rest)[|word|..] == rest;
    }
  }
}
