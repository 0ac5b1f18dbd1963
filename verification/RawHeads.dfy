/** Start lines and header blocks as bytes: which of them cannot be read. */
module RawHeads {
  import opened Outcomes
  import opened Text
  import opened Numbers
  import opened Headers

  // ---------------------------------------------------------------- start lines

  function Blanks(u: string): nat {
    if u == "" then 0 else (if u[0] == ' ' then 1 else 0) + Blanks(u[1..])
  }

  /** Nothing stands behind the second blank, or behind the last of fewer. */
  predicate TitleMissing(u: string) {
    u == "" || (u[|u| - 1] == ' ' && Blanks(u) <= 2)
  }

  /** Behind the first blank; everything if there is none. */
  function BehindBlank(u: string): string {
    u[Find(u, ' ') + 1..]
  }

  /** Up to the first blank; everything if there is none. */
  function UpToBlank(u: string): (token: string)
    ensures ' ' !in token && (if ' ' in u then token + " " <= u else token == u)
  {
    Prefix(u, Find(u, ' '))
  }

  /** What a start line leaves: what follows its line break, or, where there is none, all but one
      byte of what follows its second blank. */
  function BehindTitle(u: string): string {
    var u2 := BehindBlank(BehindBlank(u));
    if u2 == "" then "" else u2[FindCrlf(u2) + 2..]
  }

  lemma {:induction false} BlanksSplit(u: string)
    ensures Find(u, ' ') == NPOS ==> Blanks(u) == 0
    ensures Find(u, ' ') != NPOS ==> Blanks(u) == 1 + Blanks(BehindBlank(u))
  {
    if u != "" {
      FindStep(u);
      hide Find;
      BlanksSplit(u[1..]);
    }
  }

  lemma FindStep(u: string)
    requires u != ""
    ensures var k := Find(u[1..], ' ');
            if u[0] == ' ' then Find(u, ' ') == 0
            else Find(u, ' ') == (if k == NPOS then NPOS else k + 1)
                 && (k != NPOS ==> BehindBlank(u) == BehindBlank(u[1..]))
  {
    var k := Find(u[1..], ' ');
    if u[0] != ' ' && k != NPOS {
      assert u[1..][k + 1..] == u[k + 2..];
    }
  }

  lemma LastBlank(u: string)
    requires u != ""
    ensures Find(u, ' ') == NPOS ==> u[|u| - 1] != ' '
    ensures BehindBlank(u) == "" ==> u[|u| - 1] == ' '
    ensures BehindBlank(u) != "" ==> u[|u| - 1] == BehindBlank(u)[|BehindBlank(u)| - 1]
  {
    hide Find;
  }

  lemma NothingBehindBlanks(u: string)
    ensures TitleMissing(u) <==> BehindBlank(BehindBlank(u)) == ""
  {
    hide Find, Blanks, BehindBlank;
    BlanksSplit(u);
    NoBlankIsAll(u);
    var u1 := BehindBlank(u);
    BlanksSplit(u1);
    NoBlankIsAll(u1);
    BlanksSplit("");
    NoBlankIsAll("");
    BlanksSplit(BehindBlank(u1));
    if u != "" {
      LastBlank(u);
      if u1 != "" {
        LastBlank(u1);
        if BehindBlank(u1) != "" {
          LastBlank(BehindBlank(u1));
        }
      }
    }
  }

  lemma NoBlankIsAll(u: string)
    ensures Find(u, ' ') == NPOS ==> BehindBlank(u) == u
    ensures u == "" ==> Find(u, ' ') == NPOS
  {
    hide Find;
  }

  lemma BreakInside(u: string)
    ensures FindCrlf(u) + 2 <= |u| <==> u != ""
  {
  }

  // ---------------------------------------------------------------- header lines

  /** A name and a colon and nothing else: a field with an empty value. */
  predicate EmptyField(line: string) {
    line != "" && line[|line| - 1] == ':' && ':' !in line[..|line| - 1]
  }

  lemma SplitFails(line: string)
    requires line != ""
    ensures SplitLine(line).Failure? <==> EmptyField(line)
  {
    hide Find;
    if EmptyField(line) {
      var name := line[..|line| - 1];
      assert line == name + [':'] + "";
      FindEndsToken(name, ':', "");
    }
  }

  ghost predicate HasEmptyField(ls: seq<string>) {
    exists l :: l in ls && EmptyField(l)
  }

  lemma HasEmptyFieldCons(line: string, ls: seq<string>)
    ensures HasEmptyField([line] + ls) <==> EmptyField(line) || HasEmptyField(ls)
  {
    hide EmptyField;
    if EmptyField(line) {
      assert line in [line] + ls;
    }
    if l :| l in ls && EmptyField(l) {
      assert l in [line] + ls;
    }
  }

  /** The header phase throws exactly when one of the lines it meets has an empty value. */
  lemma {:induction false} HeaderPhaseFails(u: string, h: HeaderMap, p: Policy)
    ensures HeaderPhase(u, h, p).Failure? <==> HasEmptyField(RawLines(u))
    decreases |u|
  {
    hide FindCrlf, SplitLine, EmptyField, HasEmptyField;
    var next := FindCrlf(u);
    if next == 0 || next == NPOS {
      NoLineNoField();
    } else {
      var line, rest := u[..next], u[next + 2..];
      SplitFails(line);
      HasEmptyFieldCons(line, RawLines(rest));
      if SplitLine(line).Success? {
        HeaderPhaseFails(rest, AddLine(h, line, p).value, p);
      }
    }
  }

  lemma NoLineNoField()
    ensures !HasEmptyField([])
  {
  }

  /** The empty line that ends the block stands behind the raw lines. */
  predicate BlockOver(u: string) {
    Lines(RawLines(u)) + CRLF <= u
  }

  lemma DoneIsOver(u: string, h: HeaderMap, p: Policy)
    requires HeaderPhase(u, h, p).Success?
    ensures HeaderPhase(u, h, p).value.done <==> BlockOver(u)
  {
    hide HeaderPhase, RawLines, Lines, Fold, LineOk;
    HeaderPhaseConserves(u, h, p);
    var head, front := HeaderPhase(u, h, p).value, Lines(RawLines(u));
    if head.done {
      assert u == front + CRLF + head.unparsed;
    } else {
      UndoneHasNoBreak(u, h, p);
      assert u == front + head.unparsed;
      NoBreakNoLine(front, head.unparsed);
    }
  }

  lemma NoBreakNoLine(front: string, rest: string)
    requires CrlfFree(rest)
    ensures !(front + CRLF <= front + rest)
  {
    if |rest| >= 2 {
      assert !CrlfAt(rest, 0);
      assert (front + rest)[|front|] == rest[0] && (front + rest)[|front| + 1] == rest[1];
      assert (front + CRLF)[|front|] == '\r' && (front + CRLF)[|front| + 1] == '\n';
    }
  }

  // ---------------------------------------------------------------- what the lines say

  /** The line that decides what `name` means gives it this value. */
  ghost predicate Says(ls: seq<string>, p: Policy, name: string, value: string) {
    exists i ::
      && 0 <= i < |ls| && Decides(ls, i, p) && NameOf(ls[i]) == name
      && SplitLine(ls[i]).Success? && LineValue(ls[i], p) == value
  }

  lemma {:induction false} DecidingLine(ls: seq<string>, name: string, p: Policy) returns (i: nat)
    requires Mentions(ls, name)
    ensures Decides(ls, i, p) && NameOf(ls[i]) == name
  {
    hide NameOf, Mentions;
    MentionsOne(ls, name);
    MentionsSnoc(ls, name);
    var last := |ls| - 1;
    var init := ls[..last];
    if p.KeepLastRaw? && NameOf(ls[last]) == name {
      i := last;
    } else if Mentions(init, name) {
      i := DecidingLine(init, name, p);
      assert forall j | 0 <= j < last :: ls[j] == init[j];
    } else {
      i := last;
      NoMention(init, name);
      assert forall j | 0 <= j < last :: ls[j] == init[j];
    }
  }

  lemma MentionsOne(ls: seq<string>, name: string)
    requires Mentions(ls, name)
    ensures ls != []
  {
  }

  lemma NoMention(ls: seq<string>, name: string)
    requires !Mentions(ls, name)
    ensures forall j | 0 <= j < |ls| :: NameOf(ls[j]) != name
  {
  }

  /** The folded map is what the lines say. */
  lemma SaysExactly(ls: seq<string>, p: Policy, h: HeaderMap, name: string, value: string)
    requires Fold(map[], ls, p) == Success(h)
    ensures Says(ls, p, name, value) <==> name in h && h[name] == value
  {
    hide Fold, SplitLine, NameOf, LineValue, Decides, Mentions;
    if i :| && 0 <= i < |ls| && Decides(ls, i, p) && NameOf(ls[i]) == name
            && SplitLine(ls[i]).Success? && LineValue(ls[i], p) == value {
      RepeatedNames(ls, p, h, i);
    }
    if name in h {
      NamesOfFold(ls, p, h, name);
      var i := DecidingLine(ls, name, p);
      RepeatedNames(ls, p, h, i);
      DecidesInside(ls, i, p);
    }
  }

  lemma DecidesInside(ls: seq<string>, i: nat, p: Policy)
    requires Decides(ls, i, p)
    ensures i < |ls|
  {
  }

  /** The declared length is not a number that fits. */
  ghost predicate BadLength(ls: seq<string>, p: Policy) {
    exists value :: Says(ls, p, CONTENT_LENGTH, value) && Stoi(value).Failure?
  }

  lemma BadLengthExactly(ls: seq<string>, p: Policy, h: HeaderMap)
    requires Fold(map[], ls, p) == Success(h)
    ensures BadLength(ls, p) <==> CONTENT_LENGTH in h && Stoi(h[CONTENT_LENGTH]).Failure?
  {
    hide Fold, Says, Stoi;
    if value :| Says(ls, p, CONTENT_LENGTH, value) && Stoi(value).Failure? {
      SaysExactly(ls, p, h, CONTENT_LENGTH, value);
    }
    if CONTENT_LENGTH in h {
      SaysExactly(ls, p, h, CONTENT_LENGTH, h[CONTENT_LENGTH]);
    }
  }

  /** A head that is not survived: a field with an empty value, or a header block that is over and
      declares a length that is not a number. */
  ghost predicate BadHead(s: string, p: Policy) {
    HasEmptyField(RawLines(s)) || (BlockOver(s) && BadLength(RawLines(s), p))
  }

  lemma BadHeadExactly(s: string, p: Policy)
    ensures var h := HeaderPhase(s, map[], p);
            BadHead(s, p) <==> h.Failure? || (h.value.done && CONTENT_LENGTH in h.value.headers
                                              && Stoi(h.value.headers[CONTENT_LENGTH]).Failure?)
  {
    hide HeaderPhase, RawLines, BlockOver, BadLength, HasEmptyField, Stoi, Fold, Lines, LineOk;
    HeaderPhaseFails(s, map[], p);
    var h := HeaderPhase(s, map[], p);
    if h.Success? {
      HeaderPhaseConserves(s, map[], p);
      DoneIsOver(s, map[], p);
      BadLengthExactly(RawLines(s), p, h.value.headers);
    }
  }

  // ---------------------------------------------------------------- the head of a run

  /** What follows the start line, which is read from the first fragment. */
  function HeadBytes(fs: seq<string>): string
    requires fs != []
  {
    BehindTitle(fs[0]) + Concat(fs[1..])
  }

  lemma HeadBytesSnoc(fs: seq<string>)
    requires |fs| > 1
    ensures HeadBytes(fs) == HeadBytes(fs[..|fs| - 1]) + fs[|fs| - 1]
  {
    hide BehindTitle;
    var init := fs[..|fs| - 1];
    assert fs[1..][..|fs| - 2] == init[1..];
    assert HeadBytes(fs) == BehindTitle(fs[0]) + (Concat(init[1..]) + fs[|fs| - 1]);
  }

  lemma HeadBytesOne(fs: seq<string>)
    requires |fs| == 1
    ensures HeadBytes(fs) == BehindTitle(fs[0])
  {
    hide BehindTitle;
    assert fs[1..] == [];
  }

  lemma FieldIsLine(line: string)
    requires line != "" && CrlfFree(line[..|line| - 1]) && line[|line| - 1] == ':'
    ensures line in RawLines(line + CRLF)
  {
    forall i | 0 <= i < |line| ensures !CrlfAt(line, i) {
      if i < |line| - 2 {
        assert !CrlfAt(line[..|line| - 1], i);
      }
    }
    FindCrlfEndsLine(line, "");
    assert line + CRLF + "" == line + CRLF;
    assert (line + CRLF)[..|line|] == line;
  }
}
