/** The header tokenizer of the NetPBM reader, `netpbm_get_token` (vc.c:93-123),
    over the input still unread, as a character sequence whose end is end of
    file. It skips white space and `#` comments, then copies one token into a
    buffer of `len` characters. */
module NetpbmToken {

  /** `isspace` in the C locale: space, tab, line feed, vertical tab, form feed,
      carriage return. */
  predicate IsSpace(c: char) {
    c == ' ' || c == '\t' || c == '\n' || c == '\r' || c as int == 11 || c as int == 12
  }

  /** A character that can belong to a token. */
  predicate TokenChar(c: char) {
    !IsSpace(c) && c != '#'
  }

  /** `s` ends with `r`. */
  predicate Suffix(r: seq<char>, s: seq<char>) {
    |r| <= |s| && s[|s| - |r|..] == r
  }

  /** The index of the first line feed in `s` at or after `i`, or `|s|` if none. */
  function LineEnd(s: seq<char>, i: nat): (k: nat)
    requires i <= |s|
    ensures i <= k <= |s|
    ensures forall j :: i <= j < k ==> s[j] != '\n'
    ensures k < |s| ==> s[k] == '\n'
    decreases |s| - i
  {
    if i == |s| || s[i] == '\n' then i else LineEnd(s, i + 1)
  }

  /** The outer loop (lines 98-106): skips white space, and a comment up to and
      including its line feed; the result starts at the first token character,
      or is empty when end of file came first. */
  function SkipJunk(s: seq<char>): (r: seq<char>)
    ensures Suffix(r, s)
    ensures r == [] || TokenChar(r[0])
    decreases |s|
  {
    if |s| == 0 then []
    else if IsSpace(s[0]) then SkipJunk(s[1..])
    else if s[0] == '#' then
      var k := LineEnd(s, 1);
      if k == |s| then [] else SkipJunk(s[k + 1..])
    else s
  }

  /** The copy loop (lines 110-117) after `n` characters were copied, with `s`
      still unread: it stops at end of file, at white space (consumed), at `#`
      (pushed back), or once `cap` characters are copied (the character just
      read is then lost). Returns the further characters and the input left. */
  function CopyRest(s: seq<char>, n: int, cap: int): (res: (seq<char>, seq<char>))
    ensures forall i :: 0 <= i < |res.0| ==> TokenChar(res.0[i])
    ensures |res.0| <= if cap - n > 0 then cap - n else 0
    ensures Suffix(res.1, s) && |res.0| + |res.1| <= |s|
    decreases |s|
  {
    if |s| == 0 then ([], [])
    else if IsSpace(s[0]) then ([], s[1..])
    else if s[0] == '#' then ([], s)
    else if n >= cap then ([], s[1..])
    else
      var (more, rest) := CopyRest(s[1..], n + 1, cap);
      ([s[0]] + more, rest)
  }

  /** `netpbm_get_token` with a buffer of `len` characters: the token and the
      input left unread. */
  function GetToken(input: seq<char>, len: int): (res: (seq<char>, seq<char>))
    ensures forall i :: 0 <= i < |res.0| ==> TokenChar(res.0[i])
    ensures |res.0| <= if len - 1 > 1 then len - 1 else 1
    ensures Suffix(res.1, input)
    ensures res.0 == [] ==> res.1 == []
  {
    var s := SkipJunk(input);
    if s == [] then ([], [])
    else
      var (more, rest) := CopyRest(s[1..], 1, len - 1);
      ([s[0]] + more, rest)
  }

  /** White space before a token is skipped. */
  lemma {:induction false} SkipSpaces(ws: seq<char>, s: seq<char>)
    requires forall i :: 0 <= i < |ws| ==> IsSpace(ws[i])
    ensures SkipJunk(ws + s) == SkipJunk(s)
    decreases |ws|
  {
    if |ws| > 0 {
      assert (ws + s)[0] == ws[0];
      assert (ws + s)[1..] == ws[1..] + s;
      SkipSpaces(ws[1..], s);
    } else {
      assert ws + s == s;
    }
  }

  /** A comment line before a token is skipped with its line feed. */
  lemma SkipComment(comment: seq<char>, s: seq<char>)
    requires forall i :: 0 <= i < |comment| ==> comment[i] != '\n'
    ensures SkipJunk(['#'] + comment + ['\n'] + s) == SkipJunk(s)
  {
    var t := ['#'] + comment + ['\n'] + s;
    var k := LineEnd(t, 1);
    assert t[|comment| + 1] == '\n';
    assert k == |comment| + 1;
    assert t[k + 1..] == s;
  }

  /** Copying a run of token characters up to a terminator. */
  lemma {:induction false} CopyWord(tok: seq<char>, n: int, cap: int, c: char, rest: seq<char>)
    requires forall i :: 0 <= i < |tok| ==> TokenChar(tok[i])
    requires n + |tok| <= cap && !TokenChar(c)
    ensures CopyRest(tok + [c] + rest, n, cap) == (tok, if c == '#' then [c] + rest else rest)
    decreases |tok|
  {
    if |tok| > 0 {
      var s := tok + [c] + rest;
      assert s[0] == tok[0] && TokenChar(s[0]);
      assert s[1..] == tok[1..] + [c] + rest;
      CopyWord(tok[1..], n + 1, cap, c, rest);
      assert [tok[0]] + tok[1..] == tok;
    } else {
      assert tok + [c] + rest == [c] + rest;
    }
  }

  /** Leading white space does not change the token or the input left. */
  lemma TokenAfterSpaces(ws: seq<char>, s: seq<char>, len: int)
    requires forall i :: 0 <= i < |ws| ==> IsSpace(ws[i])
    ensures GetToken(ws + s, len) == GetToken(s, len)
  {
    SkipSpaces(ws, s);
  }

  /** A token at the very start of the input. */
  lemma TokenAtStart(tok: seq<char>, c: char, rest: seq<char>, len: int)
    requires |tok| > 0 && forall i :: 0 <= i < |tok| ==> TokenChar(tok[i])
    requires |tok| <= len - 1 && !TokenChar(c)
    ensures GetToken(tok + [c] + rest, len) == (tok, if c == '#' then [c] + rest else rest)
  {
    var s := tok + [c] + rest;
    assert s[0] == tok[0] && TokenChar(s[0]);
    assert SkipJunk(s) == s;
    assert s[1..] == tok[1..] + [c] + rest;
    CopyWord(tok[1..], 1, len - 1, c, rest);
    assert [s[0]] + tok[1..] == tok;
  }

  /** A token that fits the buffer is returned whole after any leading white
      space; a white space terminator is consumed and a `#` is left unread. */
  lemma TokenRoundTrip(ws: seq<char>, tok: seq<char>, c: char, rest: seq<char>, len: int)
    requires forall i :: 0 <= i < |ws| ==> IsSpace(ws[i])
    requires |tok| > 0 && forall i :: 0 <= i < |tok| ==> TokenChar(tok[i])
    requires |tok| <= len - 1 && !TokenChar(c)
    ensures GetToken(ws + tok + [c] + rest, len) == (tok, if c == '#' then [c] + rest else rest)
  {
    var s := tok + [c] + rest;
    assert ws + tok + [c] + rest == ws + s;
    TokenAfterSpaces(ws, s, len);
    TokenAtStart(tok, c, rest, len);
  }

  /** A word longer than the buffer allows is cut to `len - 1` characters, and
      the character after the cut is read and lost. */
  lemma TruncatedToken(word: seq<char>, rest: seq<char>, len: int)
    requires len >= 2 && |word| >= len
    requires forall i :: 0 <= i < |word| ==> TokenChar(word[i])
    ensures GetToken(word + rest, len) == (word[..len - 1], word[len..] + rest)
  {
    var s := word + rest;
    assert SkipJunk(s) == s;
    CopyLong(word[1..], 1, len - 1, rest);
    assert s[1..] == word[1..] + rest;
    assert [word[0]] + word[1..][..len - 2] == word[..len - 1];
    assert word[1..][len - 1..] == word[len..];
  }

  lemma {:induction false} CopyLong(word: seq<char>, n: int, cap: int, rest: seq<char>)
    requires 1 <= n <= cap && |word| > cap - n
    requires forall i :: 0 <= i < |word| ==> TokenChar(word[i])
    ensures CopyRest(word + rest, n, cap) == (word[..cap - n], word[cap - n + 1..] + rest)
    decreases cap - n
  {
    if n < cap {
      assert (word + rest)[1..] == word[1..] + rest;
      CopyLong(word[1..], n + 1, cap, rest);
      assert [word[0]] + word[1..][..cap - n - 1] == word[..cap - n];
      assert word[1..][cap - n..] == word[cap - n + 1..];
    } else {
      assert (word + rest)[1..] == word[1..] + rest;
    }
  }

  /** At end of file, or when only white space remains, the token is empty. */
  lemma EmptyAtEnd(ws: seq<char>, len: int)
    requires forall i :: 0 <= i < |ws| ==> IsSpace(ws[i])
    ensures GetToken(ws, len) == ([], [])
  {
    SkipSpaces(ws, []);
    assert ws + [] == ws;
  }

  /** A comment that end of file cuts off before its line feed also leaves the
      token empty (line 105 leaves the outer loop). */
  lemma EmptyAfterComment(ws: seq<char>, comment: seq<char>, len: int)
    requires forall i :: 0 <= i < |ws| ==> IsSpace(ws[i])
    requires forall i :: 0 <= i < |comment| ==> comment[i] != '\n'
    ensures GetToken(ws + ['#'] + comment, len) == ([], [])
  {
    var c := ['#'] + comment;
    assert ws + ['#'] + comment == ws + c;
    SkipSpaces(ws, c);
    assert forall j :: 1 <= j < |c| ==> c[j] == comment[j - 1];
    assert LineEnd(c, 1) == |c|;
  }
}
