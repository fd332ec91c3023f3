/** Utils::String (include/libdbc/utils/utils.hpp): trim and split.
    split reads the string through a string stream with
    std::getline(stream, token, delim) and appends every token it gets to
    the caller's container, here a sequence passed in and handed back. */
module UtilsString {
  import opened Stream
  import opened Utils

  /** The tokens successive getline calls deliver once the stream is at
      `pos`: the text up to the next delimiter, then the tokens after it;
      nothing once the end is reached, so a final delimiter ends no token. */
  function TokensFrom(s: seq<char>, pos: nat, delim: char): (ts: seq<seq<char>>)
    requires pos <= |s|
    ensures ts == [] <==> pos == |s|
    ensures |ts| <= |s| - pos
    decreases |s| - pos
  {
    if pos == |s| then []
    else
      var k := DelimIndex(s, pos, delim);
      if k == |s| then [s[pos..]] else [s[pos..k]] + TokensFrom(s, k + 1, delim)
  }

  /** One step of TokensFrom when a delimiter follows `pos`. */
  lemma TokensFromStep(s: seq<char>, pos: nat, delim: char)
    requires pos < |s| && DelimIndex(s, pos, delim) < |s|
    ensures TokensFrom(s, pos, delim) ==
      [s[pos..DelimIndex(s, pos, delim)]] + TokensFrom(s, DelimIndex(s, pos, delim) + 1, delim)
  {
  }

  /** The tokens String::split appends for `s`: none exactly for the empty
      string, and never more than it has characters. */
  function Tokens(s: seq<char>, delim: char): (ts: seq<seq<char>>)
    ensures ts == [] <==> s == []
    ensures |ts| <= |s|
  {
    TokensFrom(s, 0, delim)
  }

  /** The tokens put back together with one delimiter between neighbours. */
  function Join(tokens: seq<seq<char>>, delim: char): seq<char>
    decreases |tokens|
  {
    if tokens == [] then []
    else if |tokens| == 1 then tokens[0]
    else tokens[0] + [delim] + Join(tokens[1..], delim)
  }

  /** No token contains the delimiter. */
  lemma {:induction false} TokensHaveNoDelim(s: seq<char>, pos: nat, delim: char)
    requires pos <= |s|
    ensures forall t :: t in TokensFrom(s, pos, delim) ==> delim !in t
    decreases |s| - pos
  {
    if pos < |s| {
      var k := DelimIndex(s, pos, delim);
      var token := s[pos..k];
      assert delim !in token by {
        forall i | 0 <= i < |token| ensures token[i] != delim {
          assert token[i] == s[pos + i];
        }
      }
      if k < |s| {
        TokensHaveNoDelim(s, k + 1, delim);
        assert TokensFrom(s, pos, delim) == [token] + TokensFrom(s, k + 1, delim);
      } else {
        assert s[pos..] == token;
      }
    }
  }

  lemma SliceJoin(s: seq<char>, i: nat, j: nat, l: nat)
    requires i <= j <= l <= |s|
    ensures s[i..j] + s[j..l] == s[i..l]
  {
  }

  lemma JoinCons(first: seq<char>, rest: seq<seq<char>>, delim: char)
    requires rest != []
    ensures Join([first] + rest, delim) == first + [delim] + Join(rest, delim)
  {
    assert ([first] + rest)[1..] == rest;
  }

  /** One more token in front of a join: a token ending at the delimiter
      at `k`, followed by tokens that join to s[k + 1..e], joins to s[pos..e]. */
  lemma JoinStep(s: seq<char>, pos: nat, k: nat, e: nat, rest: seq<seq<char>>, delim: char)
    requires pos <= k < e <= |s| && s[k] == delim
    requires rest != [] && Join(rest, delim) == s[k + 1..e]
    ensures Join([s[pos..k]] + rest, delim) == s[pos..e]
  {
    calc {
      Join([s[pos..k]] + rest, delim);
      { JoinCons(s[pos..k], rest, delim); }
      s[pos..k] + [delim] + s[k + 1..e];
      { assert [delim] == s[k..k + 1]; }
      s[pos..k] + s[k..k + 1] + s[k + 1..e];
      { SliceJoin(s, pos, k, k + 1); SliceJoin(s, pos, k + 1, e); }
      s[pos..e];
    }
  }

  /** The last token: when no delimiter follows `pos` except perhaps the
      final character, the tokens from `pos` join to the rest of the
      string less that final delimiter. */
  lemma JoinLastToken(s: seq<char>, pos: nat, delim: char)
    requires pos < |s| && |s| <= DelimIndex(s, pos, delim) + 1
    ensures var e := if s[|s| - 1] == delim then |s| - 1 else |s|;
      Join(TokensFrom(s, pos, delim), delim) == s[pos..e]
  {
    var k := DelimIndex(s, pos, delim);
    if k == |s| {
      calc {
        Join(TokensFrom(s, pos, delim), delim);
        Join([s[pos..]], delim);
        s[pos..|s|];
      }
    } else {
      calc {
        Join(TokensFrom(s, pos, delim), delim);
        { TokensFromStep(s, pos, delim); }
        Join([s[pos..k]] + TokensFrom(s, k + 1, delim), delim);
        { assert TokensFrom(s, k + 1, delim) == []; }
        Join([s[pos..k]], delim);
        s[pos..k];
      }
    }
  }

  /** Joining the tokens read from `pos` gives back the rest of the string,
      less one trailing delimiter when it ends with one. */
  lemma {:induction false} JoinTokensFrom(s: seq<char>, pos: nat, delim: char)
    requires pos < |s|
    ensures var e := if s[|s| - 1] == delim then |s| - 1 else |s|;
      Join(TokensFrom(s, pos, delim), delim) == s[pos..e]
    decreases |s| - pos
  {
    var k := DelimIndex(s, pos, delim);
    if k + 1 < |s| {
      var e := if s[|s| - 1] == delim then |s| - 1 else |s|;
      JoinTokensFrom(s, k + 1, delim);
      TokensFromStep(s, pos, delim);
      JoinStep(s, pos, k, e, TokensFrom(s, k + 1, delim), delim);
    } else {
      JoinLastToken(s, pos, delim);
    }
  }

  /** split's tokens joined with the delimiter give back the string, less
      one trailing delimiter; the empty string has no tokens. */
  lemma JoinTokens(s: seq<char>, delim: char)
    ensures s == [] ==> Tokens(s, delim) == []
    ensures s != [] && s[|s| - 1] == delim ==> Join(Tokens(s, delim), delim) + [delim] == s
    ensures s != [] && s[|s| - 1] != delim ==> Join(Tokens(s, delim), delim) == s
  {
    if s != [] {
      JoinTokensFrom(s, 0, delim);
      assert s[0..|s| - 1] + [s[|s| - 1]] == s;
    }
  }

  /** A string that continues at `pos` with a delimiter-free `first`, a
      delimiter and `others` has its next delimiter right after `first`. */
  lemma DelimAfterFirst(s: seq<char>, pos: nat, first: seq<char>, others: seq<char>, delim: char)
    requires pos <= |s| && s[pos..] == first + [delim] + others
    requires delim !in first
    ensures pos + |first| < |s|
    ensures DelimIndex(s, pos, delim) == pos + |first|
    ensures s[pos..pos + |first|] == first
    ensures s[pos + |first| + 1..] == others
  {
    var tail := s[pos..];
    var end := pos + |first|;
    forall i | pos <= i < end ensures s[i] != delim {
      assert s[i] == tail[i - pos] == first[i - pos];
    }
    assert s[end] == tail[|first|];
    DelimIndexUnique(s, pos, delim, end);
    assert s[pos..end] == tail[..|first|];
    assert s[end + 1..] == tail[|first| + 1..];
  }

  /** The token read at `pos` is `first` when `first` and a delimiter
      come next; the tokens after it follow. */
  lemma TokensFromCons(s: seq<char>, pos: nat, first: seq<char>, rest: seq<seq<char>>, delim: char)
    requires pos + |first| < |s|
    requires DelimIndex(s, pos, delim) == pos + |first|
    requires s[pos..pos + |first|] == first
    requires TokensFrom(s, pos + |first| + 1, delim) == rest
    ensures TokensFrom(s, pos, delim) == [first] + rest
  {
    TokensFromStep(s, pos, delim);
  }

  /** Reading from `pos`, where the rest of the string is the join of
      `tokens`, delivers exactly `tokens`. */
  lemma {:induction false} TokensFromJoin(s: seq<char>, pos: nat, tokens: seq<seq<char>>, delim: char)
    requires pos <= |s| && s[pos..] == Join(tokens, delim)
    requires tokens != [] && tokens[|tokens| - 1] != []
    requires forall n :: 0 <= n < |tokens| ==> delim !in tokens[n]
    ensures TokensFrom(s, pos, delim) == tokens
    decreases |tokens|
  {
    var first := tokens[0];
    if |tokens| == 1 {
      var tail := s[pos..];
      assert tail == first;
      forall i | pos <= i < |s| ensures s[i] != delim {
        assert s[i] == tail[i - pos];
      }
      DelimIndexUnique(s, pos, delim, |s|);
      calc {
        TokensFrom(s, pos, delim);
        [tail];
        { assert tokens == [first]; }
        tokens;
      }
    } else {
      var rest := tokens[1..];
      var next := pos + |first| + 1;
      DelimAfterFirst(s, pos, first, Join(rest, delim), delim);
      assert rest[|rest| - 1] == tokens[|tokens| - 1];
      TokensFromJoin(s, next, rest, delim);
      TokensFromCons(s, pos, first, rest, delim);
      assert tokens == [first] + rest;
    }
  }

  /** The other way round: tokens free of the delimiter, whose last one is
      not empty, are what splitting their join yields. */
  lemma TokensOfJoin(tokens: seq<seq<char>>, delim: char)
    requires tokens != [] && tokens[|tokens| - 1] != []
    requires forall t :: t in tokens ==> delim !in t
    ensures Tokens(Join(tokens, delim), delim) == tokens
  {
    var s := Join(tokens, delim);
    assert s[0..] == s;
    assert forall n :: 0 <= n < |tokens| ==> tokens[n] in tokens;
    TokensFromJoin(s, 0, tokens, delim);
  }

  /** The tokens of "a,,b" and of ",a," split at ','. */
  lemma TokensExamples()
    ensures Tokens("a,,b", ',') == ["a", "", "b"]
    ensures Tokens(",a,", ',') == ["", "a"]
  {
    var s := "a,,b";
    DelimIndexUnique(s, 0, ',', 1);
    DelimIndexUnique(s, 2, ',', 2);
    DelimIndexUnique(s, 3, ',', 4);
    assert s[0..1] == "a" && s[2..2] == "" && s[3..] == "b";
    var t := ",a,";
    DelimIndexUnique(t, 0, ',', 0);
    DelimIndexUnique(t, 1, ',', 2);
    assert t[0..0] == "" && t[1..2] == "a";
  }

  /** String::trim(line) is Utils::trim(line). */
  method Trim(line: seq<char>) returns (trimmed: seq<char>)
    ensures trimmed == Trimmed(line, Whitespace)
  {
    trimmed := Utils.Trim(line);
  }

  /** String::split: the tokens of `str` are appended to `cont`, whose
      existing elements stay as they are. The delimiter defaults to a
      space. */
  method Split(str: seq<char>, cont: seq<seq<char>>, delim: char := ' ') returns (result: seq<seq<char>>)
    ensures result == cont + Tokens(str, delim)
    ensures result[..|cont|] == cont
    ensures str == [] ==> result == cont
  {
    var stream := new InputStream(str);
    var token: seq<char> := [];
    result := cont;
    while true
      invariant stream.Valid() && stream.data == str
      invariant result + TokensFrom(str, stream.pos, delim) == cont + Tokens(str, delim)
      invariant !stream.fail
      decreases |str| - stream.pos
    {
      ghost var before := stream.pos;
      token := stream.GetLine(token, delim);
      if stream.fail {
        break;
      }
      if DelimIndex(str, before, delim) == |str| {
        assert token == str[before..];
      }
      assert TokensFrom(str, before, delim) == [token] + TokensFrom(str, stream.pos, delim);
      result := result + [token];
    }
  }

  /** Without a delimiter, split cuts at spaces: "a b" appended to ["x"]
      gives ["x", "a", "b"]. */
  method SplitExample() returns (result: seq<seq<char>>)
    ensures result == ["x", "a", "b"]
  {
    result := Split("a b", ["x"]);
    var s := "a b";
    DelimIndexUnique(s, 0, ' ', 1);
    DelimIndexUnique(s, 2, ' ', 3);
    assert s[0..1] == "a" && s[2..] == "b";
  }
}
