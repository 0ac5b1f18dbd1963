/** Start lines (section 3.1 of RFC 7230): two tokens, each ended by a blank, and a text ended by
    CRLF.  Requests and responses take them apart by the same searches. */
module StartLines {
  import opened Text

  /** The whole start line, line break included, is in the buffer. */
  predicate StartLineIn(u: string) {
    var sp := Find(u, ' ');
    sp != NPOS &&
    var u1 := u[sp + 1..];
    var sp1 := Find(u1, ' ');
    sp1 != NPOS && FindCrlf(u1[sp1 + 1..]) != NPOS
  }

  /** A buffer that starts with a whole start line, taken to pieces. */
  function StartText(first: string, second: string, third: string, rest: string): string {
    first + [' '] + (second + [' '] + (third + CRLF + rest))
  }

  lemma FindInStartText(first: string, second: string, third: string, rest: string)
    returns (u1: string, u2: string)
    requires ' ' !in first && ' ' !in second && CrlfFree(third)
    ensures var u := StartText(first, second, third, rest);
            && StartLineIn(u)
            && Find(u, ' ') == |first| && Prefix(u, |first|) == first && u[|first| + 1..] == u1
            && Find(u1, ' ') == |second| && Prefix(u1, |second|) == second && u1[|second| + 1..] == u2
            && FindCrlf(u2) == |third| && Prefix(u2, |third|) == third && u2[|third| + 2..] == rest
            && |first| + 1 <= |u| && |second| + 1 <= |u1| && |third| + 2 <= |u2|
  {
    hide Find, FindCrlf, CrlfFree;
    u2 := third + CRLF + rest;
    u1 := second + [' '] + u2;
    var u := first + [' '] + u1;
    FindEndsToken(first, ' ', u1);
    assert u[|first| + 1..] == u1;
    FindEndsToken(second, ' ', u2);
    assert u1[|second| + 1..] == u2;
    FindCrlfEndsLine(third, rest);
    assert u2[|third| + 2..] == rest;
  }

  lemma TokenSplits(u: string, c: char) returns (token: string, rest: string)
    requires Find(u, c) != NPOS
    ensures c !in token && u == token + [c] + rest && rest == u[Find(u, c) + 1..]
  {
    hide Find;
    token, rest := u[..Find(u, c)], u[Find(u, c) + 1..];
  }

  lemma LineSplits(u: string) returns (line: string, rest: string)
    requires FindCrlf(u) != NPOS
    ensures CrlfFree(line) && u == line + CRLF + rest && line == u[..FindCrlf(u)]
  {
    hide FindCrlf;
    var i := FindCrlf(u);
    line, rest := u[..i], u[i + 2..];
    forall k | 0 <= k < i ensures !CrlfAt(line, k) {
      assert !CrlfAt(u, k);
    }
  }

  lemma StartLinePieces(u: string) returns (first: string, second: string, third: string, rest: string)
    requires StartLineIn(u)
    ensures ' ' !in first && ' ' !in second && CrlfFree(third)
    ensures u == StartText(first, second, third, rest)
  {
    hide Find, FindCrlf, CrlfFree;
    var u1, u2;
    first, u1 := TokenSplits(u, ' ');
    second, u2 := TokenSplits(u1, ' ');
    third, rest := LineSplits(u2);
  }

  lemma StartLineExtends(u: string, v: string)
    requires StartLineIn(u)
    ensures StartLineIn(u + v)
  {
    hide StartLineIn, CrlfFree, Find, FindCrlf, StartText;
    var first, second, third, rest := StartLinePieces(u);
    var u1, u2 := FindInStartText(first, second, third, rest + v);
    StartTextExtends(first, second, third, rest, v);
  }

  lemma StartTextExtends(first: string, second: string, third: string, rest: string, v: string)
    ensures StartText(first, second, third, rest) + v == StartText(first, second, third, rest + v)
  {
    assert third + CRLF + rest + v == third + CRLF + (rest + v);
    assert second + [' '] + (third + CRLF + rest) + v == second + [' '] + (third + CRLF + rest + v);
  }

  lemma StartLineStays(before: string, fs: seq<string>)
    requires fs != []
    ensures StartLineIn(before + fs[0]) ==> StartLineIn(before + Concat(fs))
  {
    hide StartLineIn, Concat;
    if StartLineIn(before + fs[0]) {
      FirstFragmentLeads(fs);
      var v := Concat(fs)[|fs[0]|..];
      assert before + Concat(fs) == before + fs[0] + v;
      StartLineExtends(before + fs[0], v);
    }
  }

  lemma FirstFragmentLeads(fs: seq<string>)
    requires fs != []
    ensures fs[0] <= Concat(fs) && Concat(fs[..1]) == fs[0]
  {
    ConcatPrefix(fs, 1);
    assert fs[..1] == [fs[0]] && [fs[0]][..0] == [];
    assert Concat(fs[..1]) == fs[0];
  }

  predicate IsSuffix(t: string, s: string) {
    |t| <= |s| && t == s[|s| - |t|..]
  }

  lemma SubstrIsSuffix(s: string, pos: nat)
    requires Substr(s, pos).Success?
    ensures IsSuffix(Substr(s, pos).value, s)
  {
  }

  lemma SuffixOfSuffix(a: string, b: string, c: string)
    requires IsSuffix(a, b) && IsSuffix(b, c)
    ensures IsSuffix(a, c)
  {
    assert a == c[|c| - |b|..][|b| - |a|..] == c[|c| - |a|..];
  }
}
