/** The lexer of compiler/src: maximal runs of non-whitespace bytes, and the position counters. */
module LexerSpec {
  import opened Bytes

  type Text = seq<byte>

  const NEWLINE: byte := 10

  /** The byte whose `char` value is that of end-of-file: it can be neither peeked nor got. */
  const EOF_BYTE: byte := 255

  predicate IsWhitespace(c: byte) {
    c == 32 || c == 9 || c == NEWLINE || c == 13
  }

  /** The four whitespace characters of the source, the newline, and what a `char` of -1 is as a byte. */
  lemma WhitespaceCharacters(c: byte)
    ensures IsWhitespace(c) <==> c as char in " \t\n\r"
    ensures NEWLINE == '\n' as int && EOF_BYTE == -1 % 256
  {
    assert " \t\n\r"[0] == ' ' && " \t\n\r"[1] == '\t' && " \t\n\r"[2] == '\n' && " \t\n\r"[3] == '\r';
  }

  /** How many bytes of whitespace the text starts with. */
  function WhitespaceLen(text: Text): (n: nat)
    ensures n <= |text| && (n < |text| ==> !IsWhitespace(text[n]))
    ensures forall i :: 0 <= i < n ==> IsWhitespace(text[i])
  {
    if text == [] || !IsWhitespace(text[0]) then 0 else 1 + WhitespaceLen(text[1..])
  }

  /** How many bytes of token the text starts with: up to whitespace, the end, or the unreadable byte. */
  function TokenLen(text: Text): (n: nat)
    ensures n <= |text| && (n < |text| ==> IsWhitespace(text[n]) || text[n] == EOF_BYTE)
    ensures forall i :: 0 <= i < n ==> !IsWhitespace(text[i]) && text[i] != EOF_BYTE
  {
    if text == [] || IsWhitespace(text[0]) || text[0] == EOF_BYTE then 0 else 1 + TokenLen(text[1..])
  }

  /** The tokens of a readable text, as the has-next, get-next loop yields them. */
  function Tokens(text: Text): (ts: seq<Text>)
    requires EOF_BYTE !in text
    decreases |text|
  {
    var rest := text[WhitespaceLen(text)..];
    if rest == [] then []
    else
      assert TokenLen(rest) > 0;
      [rest[..TokenLen(rest)]] + Tokens(rest[TokenLen(rest)..])
  }

  // ---------------------------------------------------------------- round trip

  ghost predicate IsToken(t: Text) {
    t != [] && forall i :: 0 <= i < |t| ==> !IsWhitespace(t[i]) && t[i] != EOF_BYTE
  }

  ghost predicate IsGap(g: Text) {
    forall i :: 0 <= i < |g| ==> IsWhitespace(g[i])
  }

  /** Tokens with whitespace around them: gaps[i] stands before tokens[i], the last gap at the end. */
  function Join(tokens: seq<Text>, gaps: seq<Text>): Text
    requires |gaps| == |tokens| + 1
    decreases |tokens|
  {
    if tokens == [] then gaps[0] else gaps[0] + tokens[0] + Join(tokens[1..], gaps[1..])
  }

  lemma {:induction false} WhitespaceLenOfGap(g: Text, rest: Text)
    requires IsGap(g) && (rest != [] ==> !IsWhitespace(rest[0]))
    ensures WhitespaceLen(g + rest) == |g|
    decreases |g|
  {
    if g == [] {
      assert g + rest == rest;
    } else {
      assert (g + rest)[1..] == g[1..] + rest;
      WhitespaceLenOfGap(g[1..], rest);
    }
  }

  lemma {:induction false} TokenLenOfToken(t: Text, rest: Text)
    requires IsToken(t) && (rest != [] ==> IsWhitespace(rest[0]))
    ensures TokenLen(t + rest) == |t|
    decreases |t|
  {
    assert (t + rest)[1..] == t[1..] + rest;
    if |t| == 1 {
      assert t[1..] + rest == rest;
    } else {
      TokenLenOfToken(t[1..], rest);
    }
  }

  /** However a text is put together from tokens and whitespace that keeps them apart, lexing gives
      those tokens back. */
  lemma {:induction false} LexOfJoin(text: Text, tokens: seq<Text>, gaps: seq<Text>)
    requires Decomposes(text, tokens, gaps)
    ensures EOF_BYTE !in text && Tokens(text) == tokens
    decreases |tokens|
  {
    if tokens == [] {
      assert gaps[0] + [] == gaps[0];
      WhitespaceLenOfGap(gaps[0], []);
    } else {
      var tail := Join(tokens[1..], gaps[1..]);
      assert forall i :: 0 < i < |tokens[1..]| ==> gaps[1..][i] == gaps[i + 1];
      LexOfJoin(tail, tokens[1..], gaps[1..]);
      JoinStartsWithGap(tokens[1..], gaps[1..]);
      JoinedHead(gaps[0], tokens[0], tail);
      assert tokens == [tokens[0]] + tokens[1..];
    }
  }

  /** The whitespace before each token, and at the end. */
  function Gaps(text: Text): (gs: seq<Text>)
    requires EOF_BYTE !in text
    ensures |gs| == |Tokens(text)| + 1
    decreases |text|
  {
    var n := WhitespaceLen(text);
    var rest := text[n..];
    if rest == [] then [text]
    else
      assert TokenLen(rest) > 0;
      [text[..n]] + Gaps(rest[TokenLen(rest)..])
  }

  /** The text is these tokens, in order, with these gaps around them; only the first and the last gap
      may be empty. So the tokens are its maximal runs of non-whitespace. */
  ghost predicate Decomposes(text: Text, tokens: seq<Text>, gaps: seq<Text>) {
    && |gaps| == |tokens| + 1
    && (forall i :: 0 <= i < |tokens| ==> IsToken(tokens[i]))
    && (forall i :: 0 <= i < |gaps| ==> IsGap(gaps[i]))
    && (forall i :: 0 < i < |tokens| ==> gaps[i] != [])
    && Join(tokens, gaps) == text
  }

  lemma DecomposesCons(gap: Text, token: Text, after: Text, tokens: seq<Text>, gaps: seq<Text>)
    requires Decomposes(after, tokens, gaps) && IsGap(gap) && IsToken(token)
    requires after != [] ==> IsWhitespace(after[0])
    ensures Decomposes(gap + token + after, [token] + tokens, [gap] + gaps)
  {
    var ts, gs := [token] + tokens, [gap] + gaps;
    assert ts[1..] == tokens && gs[1..] == gaps;
    if tokens != [] && gaps[0] == [] {
      assert false;
    }
    forall i | 0 < i < |ts|
      ensures gs[i] != []
    {
      assert gs[i] == gaps[i - 1];
    }
  }

  lemma SplitText(text: Text, n: nat, m: nat)
    requires n + m <= |text|
    ensures text[..n] + text[n..][..m] + text[n..][m..] == text
  {
  }

  /** What comes first: whitespace, then a token, then whitespace or the end. */
  lemma HeadToken(text: Text)
    requires EOF_BYTE !in text && text[WhitespaceLen(text)..] != []
    ensures var n := WhitespaceLen(text);
            var m := TokenLen(text[n..]);
            && IsGap(text[..n]) && IsToken(text[n..][..m])
            && (text[n..][m..] != [] ==> IsWhitespace(text[n..][m..][0]))
  {
  }

  /** Lexing takes a text apart into its maximal runs of non-whitespace, in order, and nothing is lost.
      With LexOfJoin: the tokens are the only ones the text decomposes into. */
  lemma {:induction false} LexDecomposes(text: Text)
    requires EOF_BYTE !in text
    ensures Decomposes(text, Tokens(text), Gaps(text))
    decreases |text|
  {
    var n := WhitespaceLen(text);
    var rest := text[n..];
    if rest == [] {
      assert text[..n] == text;
    } else {
      var m := TokenLen(rest);
      var after := rest[m..];
      LexDecomposes(after);
      HeadToken(text);
      DecomposesCons(text[..n], rest[..m], after, Tokens(after), Gaps(after));
      SplitText(text, n, m);
    }
  }

  lemma JoinStartsWithGap(tokens: seq<Text>, gaps: seq<Text>)
    requires |gaps| == |tokens| + 1 && (tokens != [] ==> gaps[0] != [])
    requires IsGap(gaps[0])
    ensures Join(tokens, gaps) != [] ==> IsWhitespace(Join(tokens, gaps)[0])
  {
  }

  lemma JoinedHead(gap: Text, token: Text, tail: Text)
    requires IsGap(gap) && IsToken(token) && EOF_BYTE !in tail && (tail != [] ==> IsWhitespace(tail[0]))
    ensures EOF_BYTE !in gap + token + tail
    ensures Tokens(gap + token + tail) == [token] + Tokens(tail)
  {
    var text := gap + token + tail;
    var rest := token + tail;
    assert text == gap + rest;
    WhitespaceLenOfGap(gap, rest);
    TokenLenOfToken(token, tail);
    assert text[|gap|..] == rest && rest[..|token|] == token && rest[|token|..] == tail;
  }
}

module Lexers {
  import opened Bytes
  import opened LexerSpec

  class CharStream {
    const input: Text
    var pos: nat
    var curLine: nat
    var curPos: nat

    /** The counters agree with the bytes consumed; a byte that could not be got is not counted. */
    ghost predicate Valid()
      reads this
    {
      && pos <= |input|
      && curPos + multiset(input[..pos])[EOF_BYTE] == pos && curLine == multiset(input[..pos])[NEWLINE]
    }

    ghost function Rest(): Text
      requires pos <= |input|
      reads this
    {
      input[pos..]
    }

    constructor (input: Text)
      ensures Valid() && this.input == input && Rest() == input
    {
      this.input, pos, curLine, curPos := input, 0, 0, 0;
    }

    method IsEndOfStream() returns (end: bool)
      requires Valid()
      ensures end == (Rest() == [])
    {
      end := pos == |input|;
    }

    method PeekNextChar() returns (c: Option<byte>)
      requires Valid()
      ensures c == if Rest() == [] || Rest()[0] == EOF_BYTE then None else Some(Rest()[0])
    {
      if pos == |input| || input[pos] == EOF_BYTE {
        return None;
      }
      return Some(input[pos]);
    }

    /** Consume a byte and count it; an unreadable one is consumed but answers nothing. */
    method GetNextChar() returns (c: Option<byte>)
      requires Valid()
      modifies this
      ensures Valid()
      ensures old(Rest()) == [] ==> c == None && Rest() == []
      ensures old(Rest()) != [] ==>
                && Rest() == old(Rest())[1..] && pos == old(pos) + 1
                && c == if old(Rest())[0] == EOF_BYTE then None else Some(old(Rest())[0])
      ensures curPos == old(curPos) + if c.Some? then 1 else 0
      ensures curLine == old(curLine) + if c == Some(NEWLINE) then 1 else 0
    {
      if pos == |input| {
        return None;
      }
      var b := input[pos];
      pos := pos + 1;
      assert input[..pos] == input[..pos - 1] + [b];
      if b == EOF_BYTE {
        return None;
      }
      if b == NEWLINE {
        curLine := curLine + 1;
      }
      curPos := curPos + 1;
      return Some(b);
    }
  }

  /** What the lexer does when it takes the value of an empty optional. */
  datatype LexError = BadOptionalAccess

  class Lexer {
    const stream: CharStream

    constructor (input: Text)
      ensures fresh(stream) && stream.Valid() && stream.Rest() == input && stream.input == input
    {
      stream := new CharStream(input);
    }

    /** Leaves the stream at the first byte that is not whitespace; fails when that byte cannot be
        peeked. */
    method SkipWhitespace() returns (r: Result<(), LexError>)
      requires stream.Valid()
      modifies stream
      ensures stream.Valid()
      ensures stream.Rest() == old(stream.Rest())[WhitespaceLen(old(stream.Rest()))..]
      ensures r.Err? <==> stream.Rest() != [] && stream.Rest()[0] == EOF_BYTE
    {
      while true
        invariant stream.Valid()
        invariant WhitespaceLen(old(stream.Rest())) == |old(stream.Rest())| - |stream.Rest()| + WhitespaceLen(stream.Rest())
        invariant |stream.Rest()| <= |old(stream.Rest())|
        invariant stream.Rest() == old(stream.Rest())[|old(stream.Rest())| - |stream.Rest()|..]
        decreases |stream.Rest()|
      {
        var end := stream.IsEndOfStream();
        if end {
          return Ok(());
        }
        var c := stream.PeekNextChar();
        if c.None? {
          return Err(BadOptionalAccess);
        }
        if !IsWhitespace(c.value) {
          return Ok(());
        }
        var skipped := stream.GetNextChar();
      }
    }

    method HasNextToken() returns (r: Result<bool, LexError>)
      requires stream.Valid()
      modifies stream
      ensures stream.Valid()
      ensures stream.Rest() == old(stream.Rest())[WhitespaceLen(old(stream.Rest()))..]
      ensures r.Err? <==> stream.Rest() != [] && stream.Rest()[0] == EOF_BYTE
      ensures r.Ok? ==> r.value == (stream.Rest() != [])
    {
      var skipped := SkipWhitespace();
      if skipped.Err? {
        return Err(skipped.error);
      }
      var end := stream.IsEndOfStream();
      return Ok(!end);
    }

    method GetNextToken() returns (r: Result<Text, LexError>)
      requires stream.Valid()
      modifies stream
      ensures stream.Valid()
      ensures var text := old(stream.Rest())[WhitespaceLen(old(stream.Rest()))..];
              && (r.Ok? ==> r.value == text[..TokenLen(text)] && stream.Rest() == text[TokenLen(text)..])
              && (r.Err? <==> TokenLen(text) < |text| && text[TokenLen(text)] == EOF_BYTE)
    {
      var skipped := SkipWhitespace();
      if skipped.Err? {
        return Err(skipped.error);
      }
      r := ReadToken();
    }

    /** Consume bytes up to whitespace, the end, or a byte that cannot be peeked. */
    method ReadToken() returns (r: Result<Text, LexError>)
      requires stream.Valid()
      modifies stream
      ensures stream.Valid()
      ensures var text := old(stream.Rest());
              && (r.Ok? ==> r.value == text[..TokenLen(text)] && stream.Rest() == text[TokenLen(text)..])
              && (r.Err? <==> TokenLen(text) < |text| && text[TokenLen(text)] == EOF_BYTE)
    {
      ghost var text := stream.Rest();
      var token: Text := [];
      while true
        invariant stream.Valid() && |token| <= |text|
        invariant token == text[..|token|] && stream.Rest() == text[|token|..]
        invariant TokenLen(text) == |token| + TokenLen(text[|token|..])
        decreases |text| - |token|
      {
        var end := stream.IsEndOfStream();
        if end {
          return Ok(token);
        }
        var c := stream.PeekNextChar();
        if c.None? {
          return Err(BadOptionalAccess);
        }
        if IsWhitespace(c.value) {
          return Ok(token);
        }
        OneMoreByte(text, |token|);
        var got := stream.GetNextChar();
        token := token + [got.value];
      }
    }

    /** One turn of the has-next, get-next loop. */
    method NextToken() returns (r: Result<Option<Text>, LexError>)
      requires stream.Valid()
      modifies stream
      ensures stream.Valid()
      ensures r.Err? ==> EOF_BYTE in old(stream.Rest())
      ensures r == Ok(None) ==> stream.Rest() == [] && EOF_BYTE !in old(stream.Rest()) && Tokens(old(stream.Rest())) == []
      ensures r.Ok? && r.value.Some? ==>
                && |stream.Rest()| < |old(stream.Rest())|
                && (EOF_BYTE in old(stream.Rest()) <==> EOF_BYTE in stream.Rest())
                && (EOF_BYTE !in stream.Rest() ==> Tokens(old(stream.Rest())) == [r.value.value] + Tokens(stream.Rest()))
    {
      SkipKeepsTokens(stream.Rest());
      var more := HasNextToken();
      if more.Err? {
        return Err(more.error);
      }
      if !more.value {
        return Ok(None);
      }
      TokenThenRest(stream.Rest());
      var token := GetNextToken();
      if token.Err? {
        return Err(token.error);
      }
      return Ok(Some(token.value));
    }

    /** The loop itself: it ends, yields the tokens of the text, and fails exactly on a text with an
        unreadable byte. On success the whole input has been consumed, and every newline and every
        readable byte of it counted. */
    method LexAll() returns (r: Result<seq<Text>, LexError>)
      requires stream.Valid()
      modifies stream
      ensures stream.Valid()
      ensures r.Err? <==> EOF_BYTE in old(stream.Rest())
      ensures r.Ok? ==> r.value == Tokens(old(stream.Rest())) && stream.Rest() == []
      ensures r.Ok? ==>
                && stream.curPos + multiset(stream.input)[EOF_BYTE] == |stream.input|
                && stream.curLine == multiset(stream.input)[NEWLINE]
    {
      ghost var text := stream.Rest();
      var tokens: seq<Text> := [];
      while true
        invariant stream.Valid()
        invariant LexedSoFar(text, tokens, stream.Rest())
        decreases |stream.Rest()|
      {
        ghost var before := stream.Rest();
        var next := NextToken();
        if next.Err? {
          return Err(next.error);
        }
        if next.value.None? {
          assert stream.input[..stream.pos] == stream.input;
          return Ok(tokens);
        }
        LexedOneMore(text, tokens, before, next.value.value, stream.Rest());
        tokens := tokens + [next.value.value];
      }
    }
  }

  /** The tokens taken so far and those still to come are the tokens of the text. */
  ghost predicate LexedSoFar(text: Text, tokens: seq<Text>, rest: Text) {
    && (EOF_BYTE in text <==> EOF_BYTE in rest)
    && (EOF_BYTE !in text ==> Tokens(text) == tokens + Tokens(rest))
  }

  lemma LexedOneMore(text: Text, tokens: seq<Text>, rest: Text, token: Text, after: Text)
    requires LexedSoFar(text, tokens, rest) && (EOF_BYTE in rest <==> EOF_BYTE in after)
    requires EOF_BYTE !in after ==> Tokens(rest) == [token] + Tokens(after)
    ensures LexedSoFar(text, tokens + [token], after)
  {
    if EOF_BYTE !in text {
      assert tokens + ([token] + Tokens(after)) == tokens + [token] + Tokens(after);
    }
  }

  lemma OneMoreByte(text: Text, k: nat)
    requires k < |text| && !IsWhitespace(text[k]) && text[k] != EOF_BYTE
    ensures TokenLen(text[k..]) == 1 + TokenLen(text[k + 1..])
    ensures text[k..][0] == text[k] && text[k..][1..] == text[k + 1..] && text[..k] + [text[k]] == text[..k + 1]
  {
    assert text[k..][1..] == text[k + 1..];
  }

  /** Skipping whitespace loses no token and no unreadable byte. */
  lemma SkipKeepsTokens(text: Text)
    ensures var rest := text[WhitespaceLen(text)..];
            && (EOF_BYTE in text <==> EOF_BYTE in rest)
            && (EOF_BYTE !in text ==> Tokens(rest) == Tokens(text))
  {
    var n := WhitespaceLen(text);
    var rest := text[n..];
    assert text == text[..n] + rest;
    assert WhitespaceLen(rest) == 0 && rest[0..] == rest;
  }

  lemma EofAfterToken(text: Text)
    ensures EOF_BYTE in text <==> EOF_BYTE in text[TokenLen(text)..]
  {
    var n := TokenLen(text);
    assert text == text[..n] + text[n..];
  }

  /** Taking a token off a text that starts with one. */
  lemma TokenThenRest(text: Text)
    requires text != [] && !IsWhitespace(text[0])
    ensures text[WhitespaceLen(text)..] == text
    ensures TokenLen(text) < |text| && text[TokenLen(text)] == EOF_BYTE ==> EOF_BYTE in text
    ensures !(TokenLen(text) < |text| && text[TokenLen(text)] == EOF_BYTE) ==>
              && TokenLen(text) > 0
              && (EOF_BYTE in text <==> EOF_BYTE in text[TokenLen(text)..])
              && (EOF_BYTE !in text ==> Tokens(text) == [text[..TokenLen(text)]] + Tokens(text[TokenLen(text)..]))
  {
    EofAfterToken(text);
    assert WhitespaceLen(text) == 0 && text[0..] == text;
  }
}
