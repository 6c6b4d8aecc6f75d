/**
  The C library string primitives the parser relies on, over `string`
  (a NUL-free `seq<char>` stands for a NUL-terminated C string).
 */
module CStrings {
  import opened Wrappers

  /** `p` is a prefix of `s`. */
  predicate StartsWith(s: string, p: string)
  {
    |p| <= |s| && s[..|p|] == p
  }

  /** `k` is where `strcspn(s, c)` stops: the first `c` in `s`, or `|s|` when there is none. */
  predicate SpanEnd(s: string, c: char, k: int)
  {
    && 0 <= k <= |s|
    && (k < |s| ==> s[k] == c)
    && forall i :: 0 <= i < k ==> s[i] != c
  }

  /** `strcspn` with a one-character reject set. */
  function Cspn(s: string, c: char): (k: nat)
    ensures SpanEnd(s, c, k)
  {
    if |s| == 0 || s[0] == c then 0 else 1 + Cspn(s[1..], c)
  }

  /** There is only one place where `strcspn` can stop. */
  lemma SpanEndUnique(s: string, c: char, k: int)
    requires SpanEnd(s, c, k)
    ensures k == Cspn(s, c)
  {
  }

  /** After a prefix free of `c` and then `c` itself, `strcspn` stops at that `c`. */
  lemma SpanEndAfterPrefix(s: string, p: string, c: char)
    requires StartsWith(s, p + [c]) && c !in p
    ensures SpanEnd(s, c, |p|)
  {
    var q := p + [c];
    assert forall i :: 0 <= i <= |p| ==> s[i] == s[..|q|][i] == q[i];
  }

  /** `strcspn(s, c) < strlen(s)` exactly when `c` occurs in `s`. */
  lemma CspnFindsOccurrence(s: string, c: char)
    ensures Cspn(s, c) < |s| <==> c in s
  {
    var k := Cspn(s, c);
    if c in s {
      var i :| 0 <= i < |s| && s[i] == c;
      assert k <= i;
    }
  }

  /** `strstr(s, t) != NULL`: `t` occurs in `s` (the empty `t` occurs in every `s`). */
  predicate Contains(s: string, t: string)
  {
    exists i :: 0 <= i <= |s| && StartsWith(s[i..], t)
  }

  /** `strstr`: the offset of the first occurrence of `t` in `s`, or None for NULL. */
  function Strstr(s: string, t: string): (r: Option<nat>)
    ensures r.Some? ==> r.value <= |s| && StartsWith(s[r.value..], t)
    ensures r.Some? ==> forall j :: 0 <= j < r.value ==> !StartsWith(s[j..], t)
    ensures r.None? <==> !Contains(s, t)
    decreases |s|
  {
    if StartsWith(s, t) then
      assert s[0..] == s;
      Some(0)
    else if |s| == 0 then
      None
    else
      match Strstr(s[1..], t)
      case None =>
        assert forall j :: 1 <= j <= |s| ==> s[j..] == s[1..][j - 1..];
        None
      case Some(i) =>
        assert forall j :: 1 <= j <= |s| ==> s[j..] == s[1..][j - 1..];
        Some(i + 1)
  }

  /** `strstr(s, t) == s`: the first occurrence is at the very start, i.e. `s` starts with `t`. */
  lemma StrstrAtStart(s: string, t: string)
    ensures Strstr(s, t) == Some(0) <==> StartsWith(s, t)
  {
    assert s[0..] == s;
  }

  /** `strstr(s, "c")`: a one-character needle is found exactly when the character occurs. */
  lemma ContainsChar(s: string, c: char)
    ensures Contains(s, [c]) <==> c in s
  {
    if c in s {
      var i :| 0 <= i < |s| && s[i] == c;
      assert StartsWith(s[i..], [c]);
    }
    if Contains(s, [c]) {
      var i :| 0 <= i <= |s| && StartsWith(s[i..], [c]);
      assert s[i] == c;
    }
  }

  /** Any string contains itself embedded in a longer one. */
  lemma ContainsInfix(x: string, t: string, y: string)
    ensures Contains(x + t + y, t)
  {
    var s := x + t + y;
    assert s[|x|..][..|t|] == t;
  }

  /** The C string held in a buffer: everything before its first NUL. */
  function CString(buf: string): (s: string)
    ensures StartsWith(buf, s)
    ensures '\0' !in s
    ensures |s| < |buf| ==> buf[|s|] == '\0'
  {
    var k := Cspn(buf, '\0');
    assert forall i :: 0 <= i < k ==> buf[..k][i] == buf[i];
    buf[..k]
  }

  /** A buffer without a NUL is read whole. */
  lemma CStringWhole(buf: string)
    requires '\0' !in buf
    ensures CString(buf) == buf
  {
  }
}
