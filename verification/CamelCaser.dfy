/** The sentence splitter: every sentence that ends in punctuation, in camel case. */
module CamelCaser {

  predicate IsSpace(c: char) {
    c == ' ' || '\t' <= c <= '\r'
  }

  predicate IsLower(c: char) {
    'a' <= c <= 'z'
  }

  predicate IsUpper(c: char) {
    'A' <= c <= 'Z'
  }

  predicate IsAlpha(c: char) {
    IsLower(c) || IsUpper(c)
  }

  predicate IsPunct(c: char) {
    '!' <= c <= '/' || ':' <= c <= '@' || '[' <= c <= '`' || '{' <= c <= '~'
  }

  function ToUpper(c: char): char {
    if IsLower(c) then (c as int - 'a' as int + 'A' as int) as char else c
  }

  function ToLower(c: char): char {
    if IsUpper(c) then (c as int - 'A' as int + 'a' as int) as char else c
  }

  // The specification.

  /** The rest of a sentence. started: something was written; upper: a gap followed, and no letter since. */
  function Camel(s: string, upper: bool, started: bool): string {
    if s == "" then ""
    else if IsSpace(s[0]) then Camel(s[1..], upper || started, started)
    else if IsAlpha(s[0]) then [if upper then ToUpper(s[0]) else ToLower(s[0])] + Camel(s[1..], false, true)
    else [s[0]] + Camel(s[1..], upper, true)
  }

  /** Where the next punctuation character is, or the end. */
  function NextPunct(s: string, i: nat): (k: nat)
    requires i <= |s|
    ensures i <= k <= |s| && (k < |s| ==> IsPunct(s[k])) && forall j | i <= j < k :: !IsPunct(s[j])
    decreases |s| - i
  {
    if i == |s| || IsPunct(s[i]) then i else NextPunct(s, i + 1)
  }

  /** One output for each punctuation character from i on; an unterminated tail is dropped. */
  function Sentences(s: string, i: nat): seq<string>
    requires i <= |s|
    decreases |s| - i
  {
    var k := NextPunct(s, i);
    if k == |s| then [] else [Camel(s[i..k], false, false)] + Sentences(s, k + 1)
  }

  function PunctCount(s: string): nat {
    if s == "" then 0 else PunctCount(s[..|s| - 1]) + if IsPunct(s[|s| - 1]) then 1 else 0
  }

  lemma {:induction false} NoPunct(s: string, i: nat, k: nat)
    requires i <= k <= |s| && forall j | i <= j < k :: !IsPunct(s[j])
    ensures PunctCount(s[..k]) == PunctCount(s[..i])
    decreases k
  {
    if i < k {
      assert s[..k][..k - 1] == s[..k - 1];
      NoPunct(s, i, k - 1);
    }
  }

  lemma {:induction false} OneSentencePerPunct(s: string, i: nat)
    requires i <= |s|
    ensures PunctCount(s) == PunctCount(s[..i]) + |Sentences(s, i)|
    decreases |s| - i
  {
    var k := NextPunct(s, i);
    NoPunct(s, i, k);
    if k == |s| {
      assert s[..k] == s;
    } else {
      assert s[..k + 1][..k] == s[..k];
      OneSentencePerPunct(s, k + 1);
    }
  }

  // What camel case means for words of letters.

  predicate IsWord(w: string) {
    w != "" && forall i | 0 <= i < |w| :: IsAlpha(w[i])
  }

  function Lowered(w: string): string {
    seq(|w|, i requires 0 <= i < |w| => ToLower(w[i]))
  }

  function Capitalized(w: string): string {
    if w == "" then "" else [ToUpper(w[0])] + Lowered(w[1..])
  }

  function Spaced(words: seq<string>): string {
    if words == [] then "" else " " + words[0] + Spaced(words[1..])
  }

  function AllCapitalized(words: seq<string>): string {
    if words == [] then "" else Capitalized(words[0]) + AllCapitalized(words[1..])
  }

  lemma CamelSpace(rest: string, upper: bool, started: bool)
    ensures Camel([' '] + rest, upper, started) == Camel(rest, upper || started, started)
  {
    assert ([' '] + rest)[1..] == rest;
  }

  lemma CamelLetter(c: char, rest: string, upper: bool, started: bool)
    requires IsAlpha(c)
    ensures Camel([c] + rest, upper, started) == [if upper then ToUpper(c) else ToLower(c)] + Camel(rest, false, true)
  {
    assert ([c] + rest)[1..] == rest;
  }

  lemma Associate<T>(a: seq<T>, b: seq<T>, c: seq<T>)
    ensures a + (b + c) == (a + b) + c
  {
  }

  lemma LoweredSplit(w: string)
    requires w != ""
    ensures Lowered(w) == [ToLower(w[0])] + Lowered(w[1..]) && w == [w[0]] + w[1..]
  {
  }

  lemma {:induction false} CamelLetters(w: string, rest: string)
    requires forall i | 0 <= i < |w| :: IsAlpha(w[i])
    ensures Camel(w + rest, false, true) == Lowered(w) + Camel(rest, false, true)
    decreases |w|
  {
    hide Camel;
    if w == "" {
      assert w + rest == rest && Lowered(w) + Camel(rest, false, true) == Camel(rest, false, true);
    } else {
      LoweredSplit(w);
      Associate([w[0]], w[1..], rest);
      CamelLetter(w[0], w[1..] + rest, false, true);
      CamelLetters(w[1..], rest);
      Associate([ToLower(w[0])], Lowered(w[1..]), Camel(rest, false, true));
    }
  }

  /** One word after a gap, or at the start. */
  lemma CamelWord(w: string, rest: string, upper: bool, started: bool)
    requires IsWord(w)
    ensures Camel(w + rest, upper, started) == (if upper then Capitalized(w) else Lowered(w)) + Camel(rest, false, true)
  {
    hide Camel;
    LoweredSplit(w);
    Associate([w[0]], w[1..], rest);
    CamelLetter(w[0], w[1..] + rest, upper, started);
    CamelLetters(w[1..], rest);
    Associate([if upper then ToUpper(w[0]) else ToLower(w[0])], Lowered(w[1..]), Camel(rest, false, true));
  }

  lemma {:induction false} CamelWords(words: seq<string>)
    requires forall i | 0 <= i < |words| :: IsWord(words[i])
    ensures Camel(Spaced(words), false, true) == AllCapitalized(words)
  {
    if words != [] {
      CamelWords(words[1..]);
      hide Camel, Capitalized, IsWord;
      var w, rest := words[0], Spaced(words[1..]);
      Associate([' '], w, rest);
      CamelSpace(w + rest, false, true);
      CamelWord(w, rest, true, true);
    }
  }

  /** Words separated by spaces become the first word in lower case and the others capitalised. */
  lemma CamelCase(first: string, words: seq<string>)
    requires IsWord(first) && forall i | 0 <= i < |words| :: IsWord(words[i])
    ensures Camel(Spaced([first] + words), false, false) == Lowered(first) + AllCapitalized(words)
  {
    hide Camel;
    assert ([first] + words)[1..] == words;
    Associate([' '], first, Spaced(words));
    CamelSpace(first + Spaced(words), false, false);
    CamelWord(first, Spaced(words), false, false);
    CamelWords(words);
  }

  // The program.

  datatype Pointer = Null | Text(text: string)

  /** Runs of whitespace count once. */
  method SkipGap(s: string, start: nat, ghost end: nat, ghost started: bool) returns (i: nat)
    requires start < end <= |s| && (end < |s| ==> IsPunct(s[end])) && IsSpace(s[start])
    ensures start < i <= end && Camel(s[i..end], started, started) == Camel(s[start..end], started, started)
  {
    i := start;
    while i < |s| && IsSpace(s[i])
      invariant start <= i <= end && (i == start || Camel(s[i..end], started, started) == Camel(s[start..end], started, started))
    {
      assert s[i..end][1..] == s[i + 1..end];
      i := i + 1;
    }
  }

  /** Writes one character, and doubles the buffer when that fills it. */
  method Append(word: array<char>, spot: nat, c: char) returns (grown: array<char>)
    requires spot < word.Length
    modifies word
    ensures spot + 1 < grown.Length && grown[..spot + 1] == old(word[..spot]) + [c]
    ensures grown == word || fresh(grown)
  {
    word[spot] := c;
    grown := word;
    if spot + 1 == word.Length {
      grown := new char[2 * word.Length];
      forall i | 0 <= i < word.Length {
        grown[i] := word[i];
      }
    }
  }

  /** The inner loop: one word buffer, up to the next punctuation. */
  method BuildWord(s: string, start: nat) returns (word: array<char>, spot: nat, i: nat)
    requires start <= |s|
    ensures fresh(word) && spot < word.Length && i == NextPunct(s, start)
    ensures word[..spot] == Camel(s[start..i], false, false) && word[spot] == '\0'
  {
    hide Camel;
    word := new char[10](_ => '\0');
    spot, i := 0, start;
    var upper, started := false, false;
    ghost var end := NextPunct(s, start);
    while i < |s| && !IsPunct(s[i])
      invariant start <= i <= end && spot < word.Length && fresh(word) && (upper ==> started)
      invariant Camel(s[start..end], false, false) == word[..spot] + Camel(s[i..end], upper, started)
      decreases |s| - i
    {
      ghost var written := word[..spot];
      CamelStep(s, i, end, upper, started);
      if IsSpace(s[i]) {
        if started {
          upper := true;
        }
        i := SkipGap(s, i, end, started);
      } else {
        var c := s[i];
        if IsAlpha(s[i]) {
          c := if upper then ToUpper(s[i]) else ToLower(s[i]);
          upper := false;
        }
        started := true;
        word := Append(word, spot, c);
        spot := spot + 1;
        i := i + 1;
        Associate(written, [c], Camel(s[i..end], upper, started));
      }
    }
    CamelOfNothing(s, i, upper, started);
    word[spot] := '\0';
  }

  lemma CamelOfNothing(s: string, i: nat, upper: bool, started: bool)
    requires i <= |s|
    ensures Camel(s[i..i], upper, started) == ""
  {
  }

  /** Camel at the character at place i, which is before the end of the sentence. */
  lemma CamelStep(s: string, i: nat, end: nat, upper: bool, started: bool)
    requires i <= end <= |s| && (end < |s| ==> IsPunct(s[end])) && i < |s| && !IsPunct(s[i]) && (upper ==> started)
    ensures i < end
    ensures Camel(s[i..end], upper, started) ==
        if IsSpace(s[i]) then Camel(s[i..end], started, started)
        else if IsAlpha(s[i]) then [if upper then ToUpper(s[i]) else ToLower(s[i])] + Camel(s[i + 1..end], false, true)
        else [s[i]] + Camel(s[i + 1..end], upper, true)
  {
    assert s[i..end][1..] == s[i + 1..end];
  }

  function Pointers(texts: seq<string>): seq<Pointer> {
    seq(|texts|, i requires 0 <= i < |texts| => Text(texts[i]))
  }

  /** Stores one output, and doubles the table when that fills it. */
  method Store(camel: array<Pointer>, spot: nat, text: string) returns (grown: array<Pointer>)
    requires spot < camel.Length
    modifies camel
    ensures spot + 1 < grown.Length && grown[..spot + 1] == old(camel[..spot]) + [Text(text)]
    ensures grown == camel || fresh(grown)
  {
    camel[spot] := Text(text);
    grown := camel;
    if spot + 1 == camel.Length {
      grown := new Pointer[2 * camel.Length];
      forall i | 0 <= i < camel.Length {
        grown[i] := camel[i];
      }
    }
  }

  /** Sentences found up to i, with the tail that reached the end of the string as one more. */
  ghost predicate Progress(s: string, i: nat, texts: seq<string>)
    requires s != ""
  {
    if i <= |s| then Sentences(s, 0) == texts + Sentences(s, i) && (i == |s| ==> IsPunct(s[|s| - 1]))
    else texts != [] && Sentences(s, 0) == texts[..|texts| - 1] && !IsPunct(s[|s| - 1])
  }

  lemma NextSentence(s: string, i: nat)
    requires i <= |s|
    ensures var k := NextPunct(s, i);
      Sentences(s, i) == if k == |s| then [] else [Camel(s[i..k], false, false)] + Sentences(s, k + 1)
  {
  }

  lemma MoreToCome(s: string, k: nat, texts: seq<string>, text: string)
    requires k < |s| && IsPunct(s[k]) && Sentences(s, 0) == texts + ([text] + Sentences(s, k + 1))
    ensures Progress(s, k + 1, texts + [text])
  {
    hide Sentences;
    Associate(texts, [text], Sentences(s, k + 1));
  }

  lemma TailReached(s: string, texts: seq<string>, text: string)
    requires s != "" && !IsPunct(s[|s| - 1]) && Sentences(s, 0) == texts
    ensures Progress(s, |s| + 1, texts + [text])
  {
    hide Sentences;
    assert (texts + [text])[..|texts|] == texts;
  }

  lemma OneMore(s: string, i: nat, texts: seq<string>)
    requires i < |s| && Sentences(s, 0) == texts + Sentences(s, i)
    ensures var k := NextPunct(s, i); Progress(s, k + 1, texts + [Camel(s[i..k], false, false)])
  {
    NextSentence(s, i);
    hide Camel, Sentences, Progress, IsPunct;
    var k := NextPunct(s, i);
    var text := Camel(s[i..k], false, false);
    if k < |s| {
      MoreToCome(s, k, texts, text);
    } else {
      assert texts + [] == texts;
      TailReached(s, texts, text);
    }
  }

  lemma ProgressSoFar(s: string, i: nat, texts: seq<string>)
    requires s != "" && i <= |s| && (if i == 0 then texts == [] else Progress(s, i, texts))
    ensures Sentences(s, 0) == texts + Sentences(s, i)
  {
  }

  /** camel_caser: a table of the outputs, ended by null. The empty string makes it read before its start. */
  method CamelCaser(s: string) returns (camel: array<Pointer>)
    requires s != ""
    ensures |Sentences(s, 0)| == PunctCount(s) < camel.Length
    ensures camel[..PunctCount(s)] == Pointers(Sentences(s, 0)) && camel[PunctCount(s)] == Null
  {
    hide Camel, Sentences, Progress;
    camel := new Pointer[10];
    var spot, i := 0, 0;
    ghost var texts := [];
    while i < |s|
      invariant 0 <= i && spot < camel.Length && fresh(camel) && |texts| == spot
      invariant camel[..spot] == Pointers(texts)
      invariant if i == 0 then texts == [] else Progress(s, i, texts)
      decreases |s| + 1 - i
    {
      ProgressSoFar(s, i, texts);
      OneMore(s, i, texts);
      var word, length, k := BuildWord(s, i);
      camel := Store(camel, spot, word[..length]);
      texts := texts + [word[..length]];
      spot := spot + 1;
      i := k + 1;
    }
    camel[spot] := Null;
    spot := spot + 1;
    AtEnd(s, i, texts);
    if !IsPunct(s[|s| - 1]) {
      camel[spot - 2] := Null;
    }
  }

  lemma AtEnd(s: string, i: nat, texts: seq<string>)
    requires s != "" && i >= |s| && Progress(s, i, texts)
    ensures IsPunct(s[|s| - 1]) ==> Sentences(s, 0) == texts
    ensures !IsPunct(s[|s| - 1]) ==> texts != [] && Sentences(s, 0) == texts[..|texts| - 1]
    ensures |Sentences(s, 0)| == PunctCount(s)
  {
    OneSentencePerPunct(s, 0);
    if i == |s| {
      assert Sentences(s, |s|) == [] && texts + [] == texts;
    }
  }
}
