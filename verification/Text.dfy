/** The std::string operations the parsers are built from.

    A position is an `int` and `NPOS` is -1.  The program adds 1, 2 or 4 to the unsigned position
    that a search returns; on the unsigned `npos` that addition wraps round to 0, 1 or 3, which is
    exactly what adding to -1 gives. */
module Text {
  import opened Outcomes

  const NPOS: int := -1
  const CRLF: string := "\r\n"

  predicate CrlfAt(s: string, i: int) {
    0 <= i < |s| - 1 && s[i] == '\r' && s[i + 1] == '\n'
  }

  predicate CrlfFree(s: string) {
    forall i | 0 <= i < |s| :: !CrlfAt(s, i)
  }

  /** A line break by code: carriage return, line feed. */
  lemma CrlfCodes(s: string, i: int)
    ensures |CRLF| == 2 && CRLF[0] as int == 13 && CRLF[1] as int == 10
    ensures CrlfAt(s, i) <==> 0 <= i && i + 1 < |s| && s[i] as int == 13 && s[i + 1] as int == 10
  {
  }

  /** s.find(c) for a one-character pattern. */
  function Find(s: string, c: char): (i: int)
    ensures NPOS <= i < |s|
    ensures i != NPOS ==> s[i] == c && c !in s[..i]
    ensures i == NPOS ==> c !in s
  {
    if s == "" then NPOS
    else if s[0] == c then 0
    else
      var k := Find(s[1..], c);
      assert s == [s[0]] + s[1..];
      if k == NPOS then NPOS else assert s[..k + 1] == [s[0]] + s[1..][..k]; k + 1
  }

  /** s.find("\r\n"). */
  function FindCrlf(s: string): (i: int)
    ensures NPOS <= i
    ensures i != NPOS ==> CrlfAt(s, i) && forall j | 0 <= j < i :: !CrlfAt(s, j)
    ensures i == NPOS ==> CrlfFree(s)
  {
    if |s| < 2 then NPOS
    else if CrlfAt(s, 0) then 0
    else
      var k := FindCrlf(s[1..]);
      assert forall j | 1 <= j < |s| :: CrlfAt(s, j) == CrlfAt(s[1..], j - 1);
      if k == NPOS then NPOS else k + 1
  }

  /** s.substr(0, n), where n may be npos. */
  function Prefix(s: string, n: int): (p: string)
    ensures p <= s
  {
    if 0 <= n <= |s| then s[..n] else s
  }

  /** s.substr(pos), which throws when pos lies past the end. */
  function Substr(s: string, pos: nat): (r: Result<string>)
    ensures r.Failure? ==> r.error == OutOfRange
  {
    if pos <= |s| then Success(s[pos..]) else Failure(OutOfRange)
  }

  lemma SubstrIs(s: string, pos: nat)
    ensures Substr(s, pos) == if pos <= |s| then Success(s[pos..]) else Failure(OutOfRange)
  {
  }

  /** s.substr(pos) where the position cannot lie past the end, as one past a blank that was found,
      or 0 when none was. */
  function From(s: string, pos: nat): (r: string)
    requires pos <= |s|
    ensures Substr(s, pos) == Success(r)
  {
    s[pos..]
  }

  /** isspace of the "C" locale. */
  predicate IsSpace(c: char) {
    c == ' ' || c == '\t' || c == '\n' || c == '\r' || c == 11 as char || c == 12 as char
  }

  /** White space of the "C" locale, by code: tab, line feed, vertical tab, form feed, carriage
      return, blank. */
  lemma SpaceCodes(c: char)
    ensures IsSpace(c) <==> c as int in {9, 10, 11, 12, 13, 32}
  {
  }

  function FirstNonSpace(s: string, i: nat): (e: nat)
    requires i <= |s|
    ensures i <= e <= |s| && forall k | i <= k < e :: IsSpace(s[k])
    ensures e < |s| ==> !IsSpace(s[e])
    decreases |s| - i
  {
    if i < |s| && IsSpace(s[i]) then FirstNonSpace(s, i + 1) else i
  }

  function LastNonSpace(s: string, i: nat): (e: nat)
    requires i <= |s|
    ensures e <= i && forall k | e <= k < i :: IsSpace(s[k])
    ensures e > 0 ==> !IsSpace(s[e - 1])
  {
    if i > 0 && IsSpace(s[i - 1]) then LastNonSpace(s, i - 1) else i
  }

  function LTrim(s: string): string {
    s[FirstNonSpace(s, 0)..]
  }

  function RTrim(s: string): string {
    s[..LastNonSpace(s, |s|)]
  }

  function Trim(s: string): string {
    LTrim(RTrim(s))
  }

  /** Neither end is white space, so trimming changes nothing. */
  predicate Trimmed(s: string) {
    s == "" || (!IsSpace(s[0]) && !IsSpace(s[|s| - 1]))
  }

  lemma TrimFixed(s: string)
    requires Trimmed(s)
    ensures Trim(s) == s
  {
  }

  lemma LTrimFixed(s: string)
    requires s == "" || !IsSpace(s[0])
    ensures LTrim(s) == s
  {
  }

  /** Trimming keeps a contiguous piece, which has no white space at its ends. */
  lemma TrimIsTrimmedPiece(s: string) returns (i: nat, j: nat)
    ensures i <= j <= |s| && Trim(s) == s[i..j]
    ensures Trimmed(Trim(s))
    ensures forall k | 0 <= k < i || j <= k < |s| :: IsSpace(s[k])
  {
    var r := RTrim(s);
    i, j := FirstNonSpace(r, 0), |r|;
    forall k | 0 <= k < i ensures IsSpace(s[k]) {
      assert IsSpace(r[k]);
    }
  }

  lemma PieceIsCrlfFree(s: string, i: nat, j: nat)
    requires CrlfFree(s) && i <= j <= |s|
    ensures CrlfFree(s[i..j])
  {
    forall k | 0 <= k < j - i ensures !CrlfAt(s[i..j], k) {
      assert !CrlfAt(s, i + k);
    }
  }

  /** What stands before the first line break, or everything when there is none, has none. */
  lemma PrefixBeforeBreak(u: string)
    ensures CrlfFree(Prefix(u, FindCrlf(u)))
  {
    var i := FindCrlf(u);
    if i != NPOS {
      forall k | 0 <= k < i ensures !CrlfAt(u[..i], k) {
        assert !CrlfAt(u, k);
      }
    }
  }

  /** The first line break of `line CRLF rest` is the one that ends the line, even if the line
      itself ends in a bare CR. */
  lemma FindCrlfEndsLine(line: string, rest: string)
    requires CrlfFree(line)
    ensures FindCrlf(line + CRLF + rest) == |line|
  {
    var s := line + CRLF + rest;
    assert CrlfAt(s, |line|);
    forall j | 0 <= j < |line| ensures !CrlfAt(s, j) {
      assert !CrlfAt(line, j);
    }
  }

  /** A search that succeeded on a prefix finds the same place in any extension. */
  lemma FindCrlfExtends(s: string, t: string)
    requires FindCrlf(s) != NPOS
    ensures FindCrlf(s + t) == FindCrlf(s)
  {
    var i := FindCrlf(s);
    assert CrlfAt(s + t, i);
    forall j | 0 <= j < i ensures !CrlfAt(s + t, j) {
      assert !CrlfAt(s, j);
    }
  }

  lemma FindEndsToken(token: string, c: char, rest: string)
    requires c !in token
    ensures Find(token + [c] + rest, c) == |token|
  {
    var s := token + [c] + rest;
    assert s[|token|] == c && s[..|token|] == token;
  }

  /** All the fragments, end to end. */
  function Concat(fs: seq<string>): string {
    if fs == [] then "" else Concat(fs[..|fs| - 1]) + fs[|fs| - 1]
  }

  lemma ConcatPrefix(fs: seq<string>, i: nat)
    requires i <= |fs|
    ensures |Concat(fs[..i])| <= |Concat(fs)|
    ensures Concat(fs)[..|Concat(fs[..i])|] == Concat(fs[..i])
    ensures i < |fs| && fs[|fs| - 1] != "" ==> |Concat(fs[..i])| < |Concat(fs)|
  {
    if i < |fs| {
      var init := fs[..|fs| - 1];
      assert init[..i] == fs[..i];
      ConcatPrefix(init, i);
    } else {
      assert fs[..i] == fs;
    }
  }

  lemma {:induction false} ConcatCons(fs: seq<string>)
    requires fs != []
    ensures Concat(fs) == fs[0] + Concat(fs[1..])
  {
    if |fs| == 1 {
      assert fs[..0] == [] && fs[1..] == [];
    } else {
      var init := fs[..|fs| - 1];
      ConcatCons(init);
      assert fs[1..][..|fs| - 2] == init[1..];
      assert fs[0] + Concat(init[1..]) + fs[|fs| - 1] == fs[0] + (Concat(init[1..]) + fs[|fs| - 1]);
    }
  }
}
