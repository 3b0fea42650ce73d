/** The loops of scripts/kconfig/confdata.c that write a string value and read it back, the latter inside the
    line buffer. */
module ConfLoopsModule {
  import opened Common
  import opened ConfStringModule

  /** `strcspn` for quotes and backslashes, from place `i` on. */
  method SpanPlain(s: string, i: nat) returns (l: nat)
    requires i <= |s|
    ensures i + l <= |s| && (i + l < |s| ==> IsSpecial(s[i + l]))
    ensures forall j :: i <= j < i + l ==> !IsSpecial(s[j])
  {
    l := 0;
    while i + l < |s| && !IsSpecial(s[i + l])
      invariant i + l <= |s|
      invariant forall j :: i <= j < i + l ==> !IsSpecial(s[j])
    {
      l := l + 1;
    }
  }

  /** The writer: stretches of plain characters at once, special ones one by one. */
  method WriteAssignment(name: string, s: string) returns (out: string)
    ensures out == Assignment(name, s) + "\n"
  {
    var text := WriteEscaped(s);
    out := PREFIX + name + "=\"" + text + "\"" + "\n";
  }

  method WriteEscaped(s: string) returns (out: string)
    ensures out == Escape(s)
  {
    out := "";
    var i, first := 0, true;
    while first || i < |s|
      invariant i <= |s| && out == Escape(s[..i])
      decreases |s| - i, first
    {
      first := false;
      var l := SpanPlain(s, i);
      EscapeGrows(s, i, i + l);
      PlainStays(s[i..i + l]);
      out := out + s[i..i + l];
      var j;
      j, out := WriteSpecials(s, i + l, out);
      EscapeGrows(s, i + l, j);
      i := j;
    }
    assert s[..|s|] == s;
  }

  /** The inner loop. */
  method WriteSpecials(s: string, i: nat, out: string) returns (j: nat, r: string)
    requires i <= |s|
    ensures i <= j <= |s| && (j < |s| ==> !IsSpecial(s[j]))
    ensures r == out + Escape(s[i..j]) && (i < |s| && IsSpecial(s[i]) ==> i < j)
  {
    j, r := i, out;
    assert s[i..i] == "";
    while j < |s| && IsSpecial(s[j])
      invariant i <= j <= |s| && r == out + Escape(s[i..j])
    {
      EscapeAppends(s[i..j], [s[j]]);
      assert s[i..j + 1] == s[i..j] + [s[j]] && Escape([s[j]]) == ['\\', s[j]];
      r := r + ['\\', s[j]];
      j := j + 1;
    }
  }

  /** The C string at place `i` of a buffer. */
  function CString(b: seq<char>, i: nat): string
    decreases |b| - i
  {
    if i >= |b| || b[i] == NUL then "" else [b[i]] + CString(b, i + 1)
  }

  /** Some NUL ends the string at place `i`. */
  predicate IsTerminated(b: seq<char>, i: nat) {
    exists k :: i <= k < |b| && b[k] == NUL
  }

  predicate NoNul(b: seq<char>, i: nat, k: nat)
    requires k <= |b|
  {
    forall j :: i <= j < k ==> b[j] != NUL
  }

  lemma {:induction false} CStringSplits(b: seq<char>, i: nat, k: nat)
    requires i <= k <= |b| && NoNul(b, i, k)
    ensures CString(b, i) == b[i..k] + CString(b, k)
    decreases k - i
  {
    if i < k {
      CStringSplits(b, i + 1, k);
      assert b[i..k] == [b[i]] + b[i + 1..k];
      assert [b[i]] + (b[i + 1..k] + CString(b, k)) == ([b[i]] + b[i + 1..k]) + CString(b, k);
    }
  }

  lemma CStringIs(b: seq<char>, i: nat, k: nat)
    requires i <= k < |b| && b[k] == NUL && NoNul(b, i, k)
    ensures CString(b, i) == b[i..k]
  {
    CStringSplits(b, i, k);
  }

  /** `strpbrk` for quotes and backslashes: the place of the first, or of the NUL. */
  method NextSpecial(buf: array<char>, i: nat) returns (q: nat)
    requires IsTerminated(buf[..], i)
    ensures i <= q < buf.Length && (buf[q] == NUL || IsSpecial(buf[q]))
    ensures NoNul(buf[..], i, q) && IsTerminated(buf[..], q)
    ensures Unescape(CString(buf[..], i)) == Prefixed(buf[i..q], Unescape(CString(buf[..], q)))
  {
    ghost var end :| i <= end < buf.Length && buf[..][end] == NUL;
    q := i;
    while buf[q] != NUL && !IsSpecial(buf[q])
      invariant i <= q <= end
      invariant forall j :: i <= j < q ==> buf[j] != NUL && !IsSpecial(buf[j])
      decreases end - q
    {
      q := q + 1;
    }
    CStringSplits(buf[..], i, q);
    assert buf[..][i..q] == buf[i..q];
    UnescapePlain(buf[i..q], CString(buf[..], q));
  }

  /** `memmove(p2, p2 + 1, strlen(p2))`. */
  method MoveLeft(buf: array<char>, q: nat)
    requires IsTerminated(buf[..], q) && q < buf.Length && buf[q] != NUL
    modifies buf
    ensures buf[..q] == old(buf[..q]) && IsTerminated(buf[..], q + 1)
    ensures HasMoved(CString(old(buf[..]), q), buf[..], q)
  {
    ghost var b := buf[..];
    ghost var end :| q <= end < |b| && b[end] == NUL;
    var e := q;
    while buf[e] != NUL
      invariant q <= e <= end && NoNul(b, q, e)
      decreases end - e
    {
      e := e + 1;
    }
    var i := q;
    while i < e
      invariant q <= i <= e
      invariant forall j :: q <= j < i ==> buf[j] == b[j + 1]
      invariant forall j :: 0 <= j < buf.Length && !(q <= j < i) ==> buf[j] == b[j]
    {
      buf[i] := buf[i + 1];
      i := i + 1;
    }
    Moved(b, buf[..], q, e);
    assert buf[..][e] == NUL;
  }

  /** What the move leaves at places `q` and `q + 1` of the string `c` that was at `q`. */
  ghost predicate HasMoved(c: string, b: seq<char>, q: nat) {
    c != "" && q < |b| && b[q] == Second(c) && CString(b, q + 1) == AfterTwo(c)
  }

  function Second(c: string): char {
    if |c| <= 1 then NUL else c[1]
  }

  function AfterTwo(c: string): string {
    if |c| <= 1 then "" else c[2..]
  }

  lemma Moved(b0: seq<char>, b1: seq<char>, q: nat, e: nat)
    requires q < e < |b0| == |b1| && b0[e] == NUL && NoNul(b0, q, e)
    requires b1[e] == NUL && forall j :: q <= j < e ==> b1[j] == b0[j + 1]
    ensures HasMoved(CString(b0, q), b1, q)
  {
    CStringIs(b0, q, e);
    if e > q + 1 {
      CStringIs(b1, q + 1, e - 1);
      assert b1[q + 1..e - 1] == b0[q..e][2..];
    }
  }

  /** The reader's loop: the text at `p` is replaced by what it stands for; `ok` is false when it has no
      closing quote. */
  method UnescapeInPlace(buf: array<char>, p: nat) returns (ok: bool)
    requires IsTerminated(buf[..], p)
    modifies buf
    ensures p <= buf.Length && buf[..p] == old(buf[..p])
    ensures match Unescape(CString(old(buf[..]), p))
            case None => !ok
            case Some(s) => ok && CString(buf[..], p) == s
  {
    ghost var goal := Unescape(CString(buf[..], p));
    var q := NextSpecial(buf, p);
    while buf[q] == '\\'
      invariant p <= q < buf.Length && (buf[q] == NUL || IsSpecial(buf[q])) && IsTerminated(buf[..], q)
      invariant goal == Prefixed(buf[p..q], Unescape(CString(buf[..], q)))
      invariant buf[q] != NUL ==> NoNul(buf[..], p, q)
      invariant buf[..p] == old(buf[..p])
      decreases buf.Length - q
    {
      q := DropBackslash(buf, p, q, goal);
    }
    ok := buf[q] == '\"';
    if ok {
      buf[q] := NUL;
      CStringIs(buf[..], p, q);
      assert buf[..][p..q] == buf[p..q];
    }
  }

  /** One round: the character after the backslash takes its place and is passed over. */
  method DropBackslash(buf: array<char>, p: nat, q: nat, ghost goal: Option<string>) returns (next: nat)
    requires p <= q < buf.Length && buf[q] == '\\' && IsTerminated(buf[..], q) && NoNul(buf[..], p, q)
    requires goal == Prefixed(buf[p..q], Unescape(CString(buf[..], q)))
    modifies buf
    ensures q < next < buf.Length && (buf[next] == NUL || IsSpecial(buf[next])) && IsTerminated(buf[..], next)
    ensures goal == Prefixed(buf[p..next], Unescape(CString(buf[..], next)))
    ensures buf[next] != NUL ==> NoNul(buf[..], p, next)
    ensures buf[..q] == old(buf[..q])
  {
    ghost var x, c := buf[p..q], CString(buf[..], q);
    MoveLeft(buf, q);
    next := NextSpecial(buf, q + 1);
    assert buf[p..next] == x + ([buf[q]] + buf[q + 1..next]);
    StepKeeps(x, c, buf[q + 1..next], Unescape(CString(buf[..], next)), goal);
  }

  /** What a round does to the string: `x` is done, `c` is the string at the backslash, `y` plain text. */
  lemma StepKeeps(x: string, c: string, y: string, u: Option<string>, goal: Option<string>)
    requires c != "" && c[0] == '\\' && goal == Prefixed(x, Unescape(c)) && Unescape(AfterTwo(c)) == Prefixed(y, u)
    ensures goal == Prefixed(x + ([Second(c)] + y), u)
  {
    PrefixedTwice([Second(c)], y, u);
    PrefixedTwice(x, [Second(c)] + y, u);
  }

  /** `k` is the place of `c`, or of the NUL before any `c`. */
  predicate IsAt(b: seq<char>, i: nat, k: nat, c: char) {
    i <= k < |b| && (b[k] == NUL || b[k] == c) && forall j :: i <= j < k ==> b[j] != NUL && b[j] != c
  }

  /** `strchr`, but for its result when there is no `c`. */
  method FindChar(buf: array<char>, i: nat, c: char) returns (k: nat)
    requires IsTerminated(buf[..], i)
    ensures IsAt(buf[..], i, k, c)
  {
    ghost var end :| i <= end < buf.Length && buf[..][end] == NUL;
    k := i;
    while buf[k] != NUL && buf[k] != c
      invariant i <= k <= end
      invariant forall j :: i <= j < k ==> buf[j] != NUL && buf[j] != c
      decreases end - k
    {
      k := k + 1;
    }
  }

  lemma IsFound(b: seq<char>, i: nat, k: nat, c: char)
    requires IsAt(b, i, k, c)
    ensures CString(b, i) == b[i..k] + CString(b, k) && Find(CString(b, i), c) == k - i
  {
    CStringSplits(b, i, k);
    var s := CString(b, i);
    assert s[..k - i] == b[i..k];
    FindIs(s, c, k - i);
  }

  lemma {:induction false} CStringIsSlice(b: seq<char>, i: nat)
    requires i <= |b|
    ensures i + |CString(b, i)| <= |b| && CString(b, i) == b[i..i + |CString(b, i)|] && NUL !in CString(b, i)
    decreases |b| - i
  {
    if i < |b| && b[i] != NUL {
      CStringIsSlice(b, i + 1);
    }
  }

  /** `memcmp` with the prefix, which has no NUL. */
  lemma ComparesPrefix(b: seq<char>)
    requires |b| >= |PREFIX|
    ensures b[..|PREFIX|] == PREFIX <==> PREFIX <= CString(b, 0)
    ensures b[..|PREFIX|] == PREFIX ==> CString(b, 0) == PREFIX + CString(b, |PREFIX|)
  {
    if b[..|PREFIX|] == PREFIX {
      assert forall j :: 0 <= j < |PREFIX| ==> b[j] == b[..|PREFIX|][j] == PREFIX[j];
      CStringSplits(b, 0, |PREFIX|);
    }
    CStringIsSlice(b, 0);
  }

  /** The line in a buffer whose first `=` after the prefix, or final NUL, is at `e`. */
  lemma LineInBuffer(b: seq<char>, e: nat)
    requires |b| >= |PREFIX| && b[..|PREFIX|] == PREFIX && IsAt(b, |PREFIX|, e, '=')
    ensures b[e] == NUL ==> ReadLine(CString(b, 0)) == NoAssignment
    ensures b[e] == '=' ==> var v := CString(b, e + 1);
                            ReadLine(CString(b, 0)) == ReadValue(b[|PREFIX|..e], v[..Find(v, '\n')])
  {
    ComparesPrefix(b);
    IsFound(b, |PREFIX|, e, '=');
    var name := b[|PREFIX|..e];
    assert '=' !in name;
    if b[e] == NUL {
      ReadsNoAssignment(name);
      assert name + "" == name;
    } else {
      ReadsAssignment(name, CString(b, e + 1));
    }
  }

  lemma ReadsNoAssignment(rest: string)
    requires '=' !in rest
    ensures ReadLine(PREFIX + rest) == NoAssignment
  {
    assert (PREFIX + rest)[|PREFIX|..] == rest;
  }

  lemma ReadsAssignment(name: string, v: string)
    requires '=' !in name
    ensures ReadLine(PREFIX + (name + (['='] + v))) == ReadValue(name, v[..Find(v, '\n')])
  {
    assert PREFIX + (name + (['='] + v)) == PREFIX + name + "=" + v;
    ReadsNameAndValue(name, v);
  }

  /** The reader on one line in the buffer. */
  method ReadLineInPlace(buf: array<char>) returns (o: Outcome)
    requires IsTerminated(buf[..], 0) && buf.Length >= |PREFIX|
    modifies buf
    ensures o == ReadLine(CString(old(buf[..]), 0))
  {
    ComparesPrefix(buf[..]);
    if buf[..|PREFIX|] != PREFIX {
      return OtherLine;
    }
    StillTerminated(buf[..]);
    var e := FindChar(buf, |PREFIX|, '=');
    LineInBuffer(buf[..], e);
    if buf[e] == NUL {
      return NoAssignment;
    }
    o := ReadAssignment(buf, e);
  }

  lemma StillTerminated(b: seq<char>)
    requires IsTerminated(b, 0) && |b| >= |PREFIX| && b[..|PREFIX|] == PREFIX
    ensures IsTerminated(b, |PREFIX|)
  {
    assert forall j :: 0 <= j < |PREFIX| ==> b[j] == b[..|PREFIX|][j] == PREFIX[j] != NUL;
  }

  /** The name ends where the `=` was. */
  method ReadAssignment(buf: array<char>, e: nat) returns (o: Outcome)
    requires IsTerminated(buf[..], |PREFIX|) && |PREFIX| <= e && IsAt(buf[..], |PREFIX|, e, '=') && buf[e] == '='
    modifies buf
    ensures var v := CString(old(buf[..]), e + 1); o == ReadValue(old(buf[|PREFIX|..e]), v[..Find(v, '\n')])
  {
    ghost var b := buf[..];
    assert b[|PREFIX|..e] == buf[|PREFIX|..e];
    buf[e] := NUL;
    SameTail(b, buf[..], e + 1);
    CStringIs(buf[..], |PREFIX|, e);
    assert buf[..][|PREFIX|..e] == b[|PREFIX|..e];
    o := ReadValueInPlace(buf, e + 1, CString(buf[..], |PREFIX|));
  }

  lemma {:induction false} SameTail(b: seq<char>, c: seq<char>, i: nat)
    requires |b| == |c| && forall j :: i <= j < |b| ==> b[j] == c[j]
    ensures CString(b, i) == CString(c, i)
    decreases |b| - i
  {
    if i < |b| {
      SameTail(b, c, i + 1);
    }
  }

  /** The value at `p`, which ends at a newline if there is one. */
  method ReadValueInPlace(buf: array<char>, p: nat, name: string) returns (o: Outcome)
    requires IsTerminated(buf[..], p)
    modifies buf
    ensures var v := CString(old(buf[..]), p); o == ReadValue(name, v[..Find(v, '\n')])
  {
    var n := FindChar(buf, p, '\n');
    IsFound(buf[..], p, n, '\n');
    ghost var v := buf[..][p..n];
    buf[n] := NUL;
    CStringIs(buf[..], p, n);
    assert buf[..][p..n] == v;
    o := ReadQuoted(buf, p, name);
  }

  method ReadQuoted(buf: array<char>, p: nat, name: string) returns (o: Outcome)
    requires IsTerminated(buf[..], p)
    modifies buf
    ensures o == ReadValue(name, CString(old(buf[..]), p))
  {
    if buf[p] != '\"' {
      return NoString(name);
    }
    var ok := UnescapeInPlace(buf, p + 1);
    o := if ok then Value(name, CString(buf[..], p + 1)) else Unclosed(name);
  }

  /** `fgets`: up to a newline, as far as the buffer goes, and a NUL. */
  method Gets(file: string, buf: array<char>) returns (k: nat)
    requires buf.Length > 0
    modifies buf
    ensures k < buf.Length && buf[..k] == Fgets(file, buf.Length) && buf[k] == NUL
  {
    k := 0;
    while k < |file| && k < buf.Length - 1 && (k == 0 || file[k - 1] != '\n')
      invariant k <= |file| && k <= buf.Length - 1 && k <= Find(file, '\n') + 1
      invariant buf[..k] == file[..k]
    {
      buf[k] := file[k];
      k := k + 1;
    }
    buf[k] := NUL;
  }

  /** The whole way: written to a file, read into the line buffer, and taken apart there. The string comes back
      if and only if it has no newline and its line fits. */
  method WriteThenRead(name: string, s: string, rest: string, buf: array<char>) returns (o: Outcome)
    requires buf.Length >= |PREFIX|
    requires '=' !in name && '\n' !in name && NUL !in name && NUL !in s
    modifies buf
    ensures o == Value(name, s) <==> '\n' !in s && |Assignment(name, s)| < buf.Length
  {
    var line := WriteAssignment(name, s);
    var k := Gets(line + rest, buf);
    ReadsOwnLine(name, s, rest, buf.Length);
    ReadsBackExactlyWhen(name, s, rest, buf.Length);
    assert forall j :: 0 <= j < k ==> buf[..][j] == buf[..k][j];
    CStringIs(buf[..], 0, k);
    assert buf[..][0..k] == buf[..k];
    assert buf[..][k] == NUL;
    o := ReadLineInPlace(buf);
  }
}
