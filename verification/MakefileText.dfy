/** The text helpers of the makefile parser: whitespace, quotes, comments and tokens. */
module MakefileText {

  predicate IsSpace(c: char) {
    c in {' ', '\t', '\n', '\r', '\U{000B}', '\U{000C}'}
  }

  predicate IsAlnum(c: char) {
    'a' <= c <= 'z' || 'A' <= c <= 'Z' || '0' <= c <= '9'
  }

  predicate IsMakefileTarget(line: string) {
    line != "" && (IsAlnum(line[0]) || line[0] == '.' || line[0] == '/')
  }

  // Whitespace.

  function Skipped(s: string): string {
    if s != "" && IsSpace(s[0]) then Skipped(s[1..]) else s
  }

  function StrippedBack(s: string): string {
    if s != "" && IsSpace(s[|s| - 1]) then StrippedBack(s[..|s| - 1]) else s
  }

  function FirstWord(s: string): string {
    if s == "" || IsSpace(s[0]) then "" else [s[0]] + FirstWord(s[1..])
  }

  method SkipWhitespace(s: string) returns (r: string)
    ensures r == Skipped(s)
  {
    var i := 0;
    while i < |s|
      invariant 0 <= i <= |s| && Skipped(s[i..]) == Skipped(s)
    {
      if !IsSpace(s[i]) {
        return s[i..];
      }
      i := i + 1;
    }
    return "";
  }

  method StripBackWhitespace(s: string) returns (r: string)
    ensures r == StrippedBack(s)
  {
    r := s;
    while r != "" && IsSpace(r[|r| - 1])
      invariant StrippedBack(r) == StrippedBack(s)
      decreases |r|
    {
      r := r[..|r| - 1];
    }
  }

  method TerminateWhitespace(s: string) returns (r: string)
    ensures r == FirstWord(s)
  {
    var i := 0;
    while i < |s| && !IsSpace(s[i])
      invariant 0 <= i <= |s| && FirstWord(s) == s[..i] + FirstWord(s[i..])
    {
      assert s[i..][1..] == s[i + 1..];
      i := i + 1;
    }
    r := s[..i];
  }

  // Comments.

  datatype Scan = Scan(quoted: bool, escaped: bool)

  /** One character of a single pass over the line. */
  function Advance(q: Scan, c: char): Scan {
    if q.escaped then Scan(q.quoted, false)
    else if c == '\\' then Scan(q.quoted, true)
    else if c == '"' then Scan(!q.quoted, false)
    else q
  }

  function ScanTo(s: string, i: nat): Scan
    requires i <= |s|
  {
    if i == 0 then Scan(false, false) else Advance(ScanTo(s, i - 1), s[i - 1])
  }

  /** Where a single pass that has come to i first meets a # outside quotes, or the end. */
  function CommentFrom(s: string, i: nat, q: Scan): nat
    requires i <= |s|
    decreases |s| - i
  {
    if i == |s| || (s[i] == '#' && !q.quoted) then i else CommentFrom(s, i + 1, Advance(q, s[i]))
  }

  function Uncommented(s: string): string {
    var k := CommentFrom(s, 0, Scan(false, false));
    if k <= |s| then s[..k] else s
  }

  lemma {:induction false} CommentIsFirst(s: string, i: nat)
    requires i <= |s|
    ensures var k := CommentFrom(s, i, ScanTo(s, i));
      && i <= k <= |s| && (k < |s| ==> s[k] == '#' && !ScanTo(s, k).quoted)
      && forall j | i <= j < k && s[j] == '#' :: ScanTo(s, j).quoted
    decreases |s| - i
  {
    if i < |s| && !(s[i] == '#' && !ScanTo(s, i).quoted) {
      CommentIsFirst(s, i + 1);
    }
  }

  /** The first place outside quotes is where the single pass stops. */
  lemma {:induction false} FirstIsComment(s: string, i: nat, k: nat)
    requires i <= k <= |s| && (k < |s| ==> s[k] == '#' && !ScanTo(s, k).quoted)
    requires forall j | i <= j < k && s[j] == '#' :: ScanTo(s, j).quoted
    ensures CommentFrom(s, i, ScanTo(s, i)) == k
    decreases k - i
  {
    if i < k {
      FirstIsComment(s, i + 1, k);
    }
  }

  /** in_quotes: counts quotes from the start each time, stepping over escaped characters. */
  method InQuotes(s: string, ptr: nat) returns (inQuotes: bool)
    requires ptr <= |s|
    ensures inQuotes == ScanTo(s, ptr).quoted
  {
    inQuotes := false;
    var p := 0;
    while p < ptr
      invariant 0 <= p <= ptr + 1
      invariant if p <= ptr then ScanTo(s, p) == Scan(inQuotes, false) else ScanTo(s, ptr) == Scan(inQuotes, true)
    {
      if s[p] == '\\' {
        p := p + 1;
      } else if s[p] == '"' {
        inQuotes := !inQuotes;
      }
      p := p + 1;
    }
  }

  /** strip_back_comments: the repeated rescans cut exactly where one pass would. */
  method StripBackComments(s: string) returns (r: string)
    ensures r == Uncommented(s)
  {
    var at := 0;
    while at < |s|
      invariant 0 <= at <= |s| && forall j | 0 <= j < at && s[j] == '#' :: ScanTo(s, j).quoted
    {
      if s[at] == '#' {
        var quoted := InQuotes(s, at);
        if !quoted {
          FirstIsComment(s, 0, at);
          return s[..at];
        }
      }
      at := at + 1;
    }
    FirstIsComment(s, 0, |s|);
    return s;
  }

  lemma WithoutHash(s: string)
    requires '#' !in s
    ensures Uncommented(s) == s
  {
    FirstIsComment(s, 0, |s|);
  }

  // Tokens.

  function Tokens(s: string): seq<string>
    decreases |s|
  {
    if s == "" then []
    else if s[0] == ' ' then Tokens(s[1..])
    else
      var k := TokenEnd(s, 0);
      [s[..k]] + Tokens(s[k..])
  }

  /** The first space from i on, or the end. */
  function TokenEnd(s: string, i: nat): (k: nat)
    requires i <= |s|
    ensures i <= k <= |s| && (k < |s| ==> s[k] == ' ') && forall j | i <= j < k :: s[j] != ' '
    decreases |s| - i
  {
    if i == |s| || s[i] == ' ' then i else TokenEnd(s, i + 1)
  }

  /** split_line_on_spaces, with strtok called once per token. */
  method SplitLineOnSpaces(s: string) returns (tokens: seq<string>)
    ensures tokens == Tokens(s)
  {
    tokens := [];
    var i := 0;
    while i < |s|
      invariant 0 <= i <= |s| && Tokens(s) == tokens + Tokens(s[i..])
    {
      if s[i] == ' ' {
        assert s[i..][1..] == s[i + 1..];
        i := i + 1;
      } else {
        var k := i;
        while k < |s| && s[k] != ' '
          invariant i <= k <= |s| && forall j | i <= j < k :: s[j] != ' '
        {
          k := k + 1;
        }
        TokenEndIs(s[i..], k - i);
        assert s[i..][k - i..] == s[k..] && s[i..][..k - i] == s[i..k];
        tokens := tokens + [s[i..k]];
        i := k;
      }
    }
  }

  lemma TokenEndIs(s: string, k: nat)
    requires k <= |s| && (k < |s| ==> s[k] == ' ') && forall j | 0 <= j < k :: s[j] != ' '
    ensures TokenEnd(s, 0) == k
  {
  }

  /** Words joined, each after one space. */
  function Joined(words: seq<string>): string {
    if words == [] then "" else " " + words[0] + Joined(words[1..])
  }

  predicate IsWord(w: string) {
    w != "" && forall i | 0 <= i < |w| :: !IsSpace(w[i])
  }

  lemma {:induction false} TokensOfJoined(words: seq<string>)
    requires forall i | 0 <= i < |words| :: IsWord(words[i])
    ensures Tokens(Joined(words)) == words
  {
    if words != [] {
      var w, rest := words[0], Joined(words[1..]);
      var s := Joined(words);
      assert s[1..] == w + rest;
      assert forall j | 0 <= j < |w| :: (w + rest)[j] == w[j];
      assert rest != "" ==> rest[0] == ' ';
      TokenEndIs(w + rest, |w|);
      assert (w + rest)[..|w|] == w && (w + rest)[|w|..] == rest;
      TokensOfJoined(words[1..]);
    }
  }

  lemma {:induction false} SkippedWord(s: string)
    requires s != "" && !IsSpace(s[0])
    ensures Skipped(s) == s && Skipped("\t" + s) == s
  {
    assert ("\t" + s)[1..] == s;
  }

  lemma {:induction false} FirstWordOf(w: string, rest: string)
    requires IsWord(w)
    requires rest == "" || IsSpace(rest[0])
    ensures FirstWord(w + rest) == w
  {
    assert (w + rest)[1..] == w[1..] + rest;
    if |w| > 1 {
      FirstWordOf(w[1..], rest);
    } else {
      assert w[1..] + rest == rest;
    }
  }

  lemma {:induction false} StrippedLine(s: string)
    requires s != "" && !IsSpace(s[|s| - 1])
    ensures StrippedBack(s) == s && StrippedBack(s + "\n") == s && StrippedBack(s + "\r\n") == s
  {
    assert (s + "\n")[..|s|] == s;
    assert (s + "\r\n")[..|s| + 1] == s + "\r" && (s + "\r")[..|s|] == s;
    assert StrippedBack(s + "\r") == s;
  }
}
