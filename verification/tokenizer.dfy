/**
  `apr_strtok` with the separator set CR/LF, as the request parser calls it.
  Each call skips a run of separators, hands out the next non-empty run of
  other characters, and leaves its `last` pointer one character past the
  separator that ended the token (or at the end of the string).
 */
module Tokenizer {
  import opened Wrappers
  import opened CStrings

  predicate IsSep(c: char)
  {
    c == '\r' || c == '\n'
  }

  predicate SepFree(s: string)
  {
    forall i :: 0 <= i < |s| ==> !IsSep(s[i])
  }

  predicate AllSeps(s: string)
  {
    forall i :: 0 <= i < |s| ==> IsSep(s[i])
  }

  /** One token: the line handed out, and the text `last` points at afterwards. */
  datatype Token = Token(line: string, rest: string)

  /** Drops the leading run of separators. */
  function SkipSeps(s: string): (r: string)
    ensures |r| <= |s| && r == s[|s| - |r|..]
    ensures forall i :: 0 <= i < |s| - |r| ==> IsSep(s[i])
    ensures r == [] || !IsSep(r[0])
  {
    if |s| > 0 && IsSep(s[0]) then SkipSeps(s[1..]) else s
  }

  /** Index of the first separator in `s`, or `|s|`. */
  function SepIndex(s: string): (k: nat)
    ensures k <= |s|
    ensures forall i :: 0 <= i < k ==> !IsSep(s[i])
    ensures k < |s| ==> IsSep(s[k])
  {
    if |s| == 0 || IsSep(s[0]) then 0 else 1 + SepIndex(s[1..])
  }

  /** There is only one place where the separator scan can stop. */
  lemma SepIndexUnique(s: string, k: nat)
    requires k <= |s|
    requires forall i :: 0 <= i < k ==> !IsSep(s[i])
    requires k < |s| ==> IsSep(s[k])
    ensures SepIndex(s) == k
  {
  }

  /**
    `t` is what one `apr_strtok` call returns on `s` when the token starts at
    offset `n`: `s` is `n` separators, then the line, then either the end of
    `s` (and `rest` is empty) or one separator followed by `rest`.
   */
  predicate TokenAt(s: string, n: int, t: Token)
  {
    && 0 <= n
    && n + |t.line| <= |s|
    && AllSeps(s[..n])
    && s[n..n + |t.line|] == t.line
    && ((n + |t.line| == |s| && t.rest == [])
        || (n + |t.line| < |s| && IsSep(s[n + |t.line|]) && t.rest == s[n + |t.line| + 1..]))
  }

  /** The token at the start of `q`, which does not start with a separator. */
  function TokenAtStart(q: string): Option<Token>
  {
    if q == [] then
      None
    else
      var k := SepIndex(q);
      Some(Token(q[..k], if k < |q| then q[k + 1..] else []))
  }

  /** One `apr_strtok(…, "\r\n", &last)` call on the text `last` points at; None for NULL. */
  function NextToken(s: string): (r: Option<Token>)
    ensures r.Some? ==> r.value.line != [] && SepFree(r.value.line)
    ensures r.Some? ==> |r.value.rest| < |s|
  {
    var q := SkipSeps(s);
    assert q != [] ==> s[|s| - |q|] == q[0];
    TokenAtStart(q)
  }

  /** `apr_strtok` returns NULL exactly when only separators remain. */
  lemma NextTokenNull(s: string)
    ensures NextToken(s).None? <==> AllSeps(s)
  {
    var q := SkipSeps(s);
    if q != [] {
      assert s[|s| - |q|] == q[0];
    }
  }

  /**
    The token is the first non-empty run of non-separators, and `rest` starts
    one character past the separator that ends it.
   */
  lemma NextTokenDelimits(s: string)
    requires NextToken(s).Some?
    ensures exists n :: TokenAt(s, n, NextToken(s).value)
  {
    var q := SkipSeps(s);
    var n := |s| - |q|;
    assert AllSeps(s[..n]) by {
      assert forall i :: 0 <= i < n ==> s[..n][i] == s[i];
    }
    TokenAtOffset(s, n);
  }

  /** After `n` separators, the token at the start of the remaining text sits at offset `n`. */
  lemma TokenAtOffset(s: string, n: nat)
    requires n < |s| && AllSeps(s[..n])
    ensures TokenAt(s, n, TokenAtStart(s[n..]).value)
  {
    var q := s[n..];
    var k := SepIndex(q);
    assert s[n..n + k] == q[..k];
    if k < |q| {
      assert s[n + k] == q[k];
      assert q[k + 1..] == s[n + k + 1..];
    }
  }

  /** What every line handed out satisfies: non-empty and free of CR and LF. */
  predicate IsLine(l: string)
  {
    l != [] && SepFree(l)
  }

  /** Every token `apr_strtok` hands out for `s`, in order, until it returns NULL. */
  function Tokens(s: string): (ts: seq<Token>)
    ensures forall i :: 0 <= i < |ts| ==> IsLine(ts[i].line)
    decreases |s|
  {
    match NextToken(s)
    case None => []
    case Some(t) =>
      var more := Tokens(t.rest);
      assert IsLine(t.line);
      [t] + more
  }

  /** The lines of a token sequence. */
  function Lines(ts: seq<Token>): (ls: seq<string>)
    ensures |ls| == |ts|
    ensures forall i :: 0 <= i < |ts| ==> ls[i] == ts[i].line
  {
    if ts == [] then [] else [ts[0].line] + Lines(ts[1..])
  }

  /** Reference definition: `s` cut at every separator, empty pieces kept. */
  function SplitAtSeps(s: string): (ps: seq<string>)
    ensures |ps| > 0
    decreases |s|
  {
    var k := SepIndex(s);
    if k == |s| then [s] else [s[..k]] + SplitAtSeps(s[k + 1..])
  }

  /** The non-empty strings of `ps`, in order. */
  function NonEmpty(ps: seq<string>): (r: seq<string>)
    ensures forall i :: 0 <= i < |r| ==> r[i] != []
  {
    if ps == [] then []
    else if ps[0] == [] then NonEmpty(ps[1..])
    else [ps[0]] + NonEmpty(ps[1..])
  }

  lemma {:induction false} NonEmptyAppend(a: seq<string>, b: seq<string>)
    ensures NonEmpty(a + b) == NonEmpty(a) + NonEmpty(b)
  {
    if a == [] {
      assert a + b == b;
    } else {
      assert (a + b)[1..] == a[1..] + b;
      NonEmptyAppend(a[1..], b);
    }
  }

  /** A leading separator does not change what the tokenizer hands out. */
  lemma {:induction false} TokensSkipSep(s: string)
    requires |s| > 0 && IsSep(s[0])
    ensures Tokens(s) == Tokens(s[1..])
  {
    assert SkipSeps(s) == SkipSeps(s[1..]);
  }

  /** A non-empty separator-free line followed by a separator is the next token. */
  lemma NextTokenOfLine(l: string, sep: char, tail: string)
    requires l != [] && SepFree(l) && IsSep(sep)
    ensures NextToken(l + [sep] + tail) == Some(Token(l, tail))
  {
    var s := l + [sep] + tail;
    assert SkipSeps(s) == s;
    SepIndexUnique(s, |l|);
    assert s[..|l|] == l;
    assert s[|l| + 1..] == tail;
  }

  /**
    The tokenizer hands out exactly the non-empty pieces between separators:
    runs of separators are skipped and no empty token is ever returned.
   */
  lemma {:induction false} TokensArePieces(s: string)
    ensures Lines(Tokens(s)) == NonEmpty(SplitAtSeps(s))
    decreases |s|
  {
    if s == [] {
    } else if IsSep(s[0]) {
      TokensSkipSep(s);
      TokensArePieces(s[1..]);
      assert SplitAtSeps(s) == [[]] + SplitAtSeps(s[1..]);
    } else {
      var k := SepIndex(s);
      assert SkipSeps(s) == s;
      if k < |s| {
        TokensArePieces(s[k + 1..]);
        assert Tokens(s) == [Token(s[..k], s[k + 1..])] + Tokens(s[k + 1..]);
        assert SplitAtSeps(s) == [s[..k]] + SplitAtSeps(s[k + 1..]);
        assert s[..k] != [];
      } else {
        assert s[..k] == s;
        assert Tokens(s) == [Token(s, [])] + Tokens([]);
      }
    }
  }

  /** Each line followed by CR LF, as a client writes them. */
  function JoinLines(ls: seq<string>): string
  {
    if ls == [] then [] else ls[0] + "\r\n" + JoinLines(ls[1..])
  }

  /** A CR LF pair in front changes nothing. */
  lemma TokensSkipCrLf(tail: string)
    ensures Tokens("\r\n" + tail) == Tokens(tail)
  {
    var nl := "\n" + tail;
    assert nl[1..] == tail;
    TokensSkipSep(nl);
    assert ("\r" + nl)[1..] == nl;
    TokensSkipSep("\r" + nl);
    assert "\r\n" + tail == "\r" + nl;
  }

  /** A line ended by CR LF is handed out, and tokenizing goes on after the pair. */
  lemma TokensOfLine(l: string, tail: string)
    requires IsLine(l)
    ensures Lines(Tokens(l + "\r\n" + tail)) == [l] + Lines(Tokens(tail))
  {
    var nl := "\n" + tail;
    assert l + "\r\n" + tail == l + ['\r'] + nl;
    NextTokenOfLine(l, '\r', nl);
    assert nl[1..] == tail;
    TokensSkipSep(nl);
  }

  /**
    Round trip: tokenizing CRLF-terminated lines gives back the lines,
    except that empty ones (blank lines) vanish.
   */
  lemma {:induction false} TokenizeJoinLines(ls: seq<string>)
    requires forall i :: 0 <= i < |ls| ==> SepFree(ls[i])
    ensures Lines(Tokens(JoinLines(ls))) == NonEmpty(ls)
  {
    if ls != [] {
      var tail := JoinLines(ls[1..]);
      TokenizeJoinLines(ls[1..]);
      if ls[0] == [] {
        assert JoinLines(ls) == "\r\n" + tail;
        TokensSkipCrLf(tail);
      } else {
        TokensOfLine(ls[0], tail);
      }
    }
  }

  /** Tokens never have empty lines, so keeping the non-empty ones keeps them all. */
  lemma {:induction false} LinesAllNonEmpty(ts: seq<Token>)
    requires forall i :: 0 <= i < |ts| ==> IsLine(ts[i].line)
    ensures NonEmpty(Lines(ts)) == Lines(ts)
    decreases |ts|
  {
    if ts != [] {
      assert IsLine(ts[0].line);
      LinesAllNonEmpty(ts[1..]);
      assert Lines(ts)[1..] == Lines(ts[1..]);
    }
  }
}
