/** String values in a configuration file (scripts/kconfig/confdata.c): the writer escapes quotes and
    backslashes, and the reader removes the escapes inside its line buffer. */
module ConfStringModule {
  import opened Common

  const NUL: char := '\0'
  const PREFIX := "CONFIG_"

  predicate IsSpecial(c: char) {
    c == '\"' || c == '\\'
  }

  function Escape(s: string): string {
    if s == "" then "" else EscapeChar(s[0]) + Escape(s[1..])
  }

  function EscapeChar(c: char): string {
    if IsSpecial(c) then ['\\', c] else [c]
  }

  /** What the reader makes of the text after the opening quote; nothing if no closing quote follows. */
  function Unescape(t: string): Option<string> {
    if t == "" then None
    else if t[0] == '\"' then Some("")
    else if t[0] == '\\' then if |t| == 1 then None else Prefixed([t[1]], Unescape(t[2..]))
    else Prefixed([t[0]], Unescape(t[1..]))
  }

  function Prefixed(p: string, r: Option<string>): Option<string> {
    if r.None? then None else Some(p + r.value)
  }

  /** The first place of `c`, or the length. */
  function Find(s: string, c: char): (k: nat)
    ensures k <= |s| && (k < |s| ==> s[k] == c) && forall i :: 0 <= i < k ==> s[i] != c
  {
    if s == "" || s[0] == c then 0 else 1 + Find(s[1..], c)
  }

  // ----- values -----

  lemma {:induction false} EscapeAppends(a: string, b: string)
    ensures Escape(a + b) == Escape(a) + Escape(b)
  {
    if a == "" {
      assert a + b == b;
    } else {
      EscapeAppends(a[1..], b);
      assert (a + b)[1..] == a[1..] + b && (a + b)[0] == a[0];
      calc {
        Escape(a + b);
        EscapeChar(a[0]) + Escape(a[1..] + b);
        EscapeChar(a[0]) + (Escape(a[1..]) + Escape(b));
        (EscapeChar(a[0]) + Escape(a[1..])) + Escape(b);
      }
    }
  }

  /** `u` is `s` with a backslash before every quote and backslash, and perhaps before other characters. */
  predicate Spells(u: string, s: string) {
    if u == "" then s == ""
    else if u[0] == '\\' then |u| > 1 && s != "" && u[1] == s[0] && Spells(u[2..], s[1..])
    else u[0] != '\"' && s != "" && u[0] == s[0] && Spells(u[1..], s[1..])
  }

  /** The writer chooses the shortest such text, and no other is as short. */
  lemma {:induction false} EscapeIsShortest(u: string, s: string)
    requires Spells(u, s)
    ensures |Escape(s)| <= |u| && (|u| == |Escape(s)| ==> u == Escape(s))
  {
    if u != "" {
      var k := if u[0] == '\\' then 2 else 1;
      EscapeIsShortest(u[k..], s[1..]);
      assert u == u[..k] + u[k..];
      assert |EscapeChar(s[0])| <= k && (|EscapeChar(s[0])| == k ==> EscapeChar(s[0]) == u[..k]);
      assert Escape(s) == EscapeChar(s[0]) + Escape(s[1..]);
    }
  }

  lemma {:induction false} EscapeSpells(s: string)
    ensures Spells(Escape(s), s)
  {
    if s != "" {
      EscapeSpells(s[1..]);
      assert Escape(s)[|EscapeChar(s[0])|..] == Escape(s[1..]);
    }
  }

  lemma {:induction false} UnescapeSpelled(u: string, s: string, rest: string)
    requires Spells(u, s)
    ensures Unescape(u + "\"" + rest) == Some(s)
  {
    var t := u + "\"" + rest;
    if u == "" {
      assert t[0] == '\"';
    } else {
      var k := if u[0] == '\\' then 2 else 1;
      assert t[k..] == u[k..] + "\"" + rest && t[0] == u[0] && t[k - 1] == u[k - 1];
      UnescapeSpelled(u[k..], s[1..], rest);
      assert Unescape(t) == Prefixed([s[0]], Unescape(t[k..])) && [s[0]] + s[1..] == s;
    }
  }

  /** Where the text that spells `s` ends: at a quote. */
  lemma {:induction false} SpelledUpTo(t: string, s: string) returns (k: nat)
    requires Unescape(t) == Some(s)
    ensures k < |t| && t[k] == '\"' && Spells(t[..k], s)
  {
    if t[0] == '\"' {
      k := 0;
    } else {
      var n := if t[0] == '\\' then 2 else 1;
      k := SpelledUpTo(t[n..], s[1..]);
      k := k + n;
      assert t[..k][n..] == t[n..][..k - n];
    }
  }

  /** The text spells `s` up to a quote at place `k`. */
  predicate ClosesAt(t: string, k: nat, s: string) {
    k < |t| && t[k] == '\"' && Spells(t[..k], s)
  }

  lemma ClosedTextIsRead(t: string, k: nat, s: string)
    requires ClosesAt(t, k, s)
    ensures Unescape(t) == Some(s)
  {
    var u, rest := t[..k], t[k + 1..];
    assert t == u + "\"" + rest;
    UnescapeSpelled(u, s, rest);
  }

  /** The reader accepts exactly the texts that spell a string and then close the quote. */
  lemma UnescapeExactlyWhen(t: string, s: string)
    ensures Unescape(t) == Some(s) <==> exists k :: ClosesAt(t, k, s)
  {
    if Unescape(t) == Some(s) {
      var k := SpelledUpTo(t, s);
      assert ClosesAt(t, k, s);
    }
    if k :| ClosesAt(t, k, s) {
      ClosedTextIsRead(t, k, s);
    }
  }

  /** Reading what was written gives back the string, whatever follows the closing quote. */
  lemma {:induction false} UnescapeInverts(s: string, rest: string)
    ensures Unescape(Escape(s) + "\"" + rest) == Some(s)
  {
    var t := Escape(s) + "\"" + rest;
    if s != "" {
      UnescapeInverts(s[1..], rest);
      var u := Escape(s[1..]) + "\"" + rest;
      if IsSpecial(s[0]) {
        assert t[0] == '\\' && t[1] == s[0] && t[2..] == u;
      } else {
        assert t[0] == s[0] && t[1..] == u;
      }
      assert s == [s[0]] + s[1..];
    }
  }

  /** No part of what was written before the closing quote is taken for a whole string. */
  lemma {:induction false} CutEscapeIsOpen(s: string, k: nat)
    requires k <= |Escape(s)|
    ensures Unescape(Escape(s)[..k]) == None
  {
    var t := Escape(s)[..k];
    if t != "" {
      if !IsSpecial(s[0]) {
        CutEscapeIsOpen(s[1..], k - 1);
        assert t[1..] == Escape(s[1..])[..k - 1];
      } else if k > 1 {
        CutEscapeIsOpen(s[1..], k - 2);
        assert t[2..] == Escape(s[1..])[..k - 2];
      }
    }
  }

  lemma {:induction false} PlainStays(s: string)
    requires forall j :: 0 <= j < |s| ==> !IsSpecial(s[j])
    ensures Escape(s) == s
  {
    if s != "" {
      PlainStays(s[1..]);
      assert s == [s[0]] + s[1..];
    }
  }

  lemma EscapeGrows(s: string, i: nat, j: nat)
    requires i <= j <= |s|
    ensures Escape(s[..j]) == Escape(s[..i]) + Escape(s[i..j])
  {
    EscapeAppends(s[..i], s[i..j]);
    assert s[..j] == s[..i] + s[i..j];
  }

  lemma PrefixedTwice(p: string, q: string, r: Option<string>)
    ensures Prefixed(p, Prefixed(q, r)) == Prefixed(p + q, r)
  {
    if r.Some? {
      assert p + (q + r.value) == (p + q) + r.value;
    }
  }

  lemma {:induction false} UnescapePlain(p: string, t: string)
    requires forall j :: 0 <= j < |p| ==> !IsSpecial(p[j])
    ensures Unescape(p + t) == Prefixed(p, Unescape(t))
  {
    if p == "" {
      assert p + t == t;
      var u := Unescape(t);
      assert u.Some? ==> p + u.value == u.value;
    } else {
      UnescapePlain(p[1..], t);
      assert (p + t)[0] == p[0] && (p + t)[1..] == p[1..] + t;
      assert !IsSpecial(p[0]);
      assert Unescape(p + t) == Prefixed([p[0]], Unescape(p[1..] + t));
      PrefixedTwice([p[0]], p[1..], Unescape(t));
      assert [p[0]] + p[1..] == p;
    }
  }

  // ----- lines -----

  /** The reader on one line of the file when the symbol it names is a string symbol. */
  datatype Outcome =
    | OtherLine
    | NoAssignment
    | NoString(name: string)
    | Unclosed(name: string)
    | Value(name: string, value: string)

  function ReadLine(line: string): Outcome {
    if !(PREFIX <= line) then OtherLine
    else
      var rest := line[|PREFIX|..];
      var e := Find(rest, '=');
      if e == |rest| then NoAssignment
      else
        var v := rest[e + 1..];
        ReadValue(rest[..e], v[..Find(v, '\n')])
  }

  function ReadValue(name: string, v: string): Outcome {
    if v == "" || v[0] != '\"' then NoString(name)
    else
      match Unescape(v[1..])
      case None => Unclosed(name)
      case Some(x) => Value(name, x)
  }

  /** The line of a string symbol without its newline. */
  function Assignment(name: string, s: string): string {
    PREFIX + name + "=\"" + Escape(s) + "\""
  }

  /** `fgets` with a buffer of `size` characters: a line with its newline, if it fits with a final NUL. */
  function Fgets(file: string, size: nat): string
    requires size > 0
  {
    var k := Find(file, '\n') + 1;
    file[..Min(Min(k, |file|), size - 1)]
  }

  function Min(a: nat, b: nat): nat {
    if a < b then a else b
  }

  /** Escaping adds backslashes only. */
  lemma {:induction false} CharStays(s: string, c: char)
    requires c != '\\'
    ensures c in Escape(s) <==> c in s
  {
    if s != "" {
      CharStays(s[1..], c);
      assert s == [s[0]] + s[1..];
    }
  }

  lemma FindIs(s: string, c: char, k: nat)
    requires k <= |s| && c !in s[..k] && (k == |s| || s[k] == c)
    ensures Find(s, c) == k
  {
    forall i | 0 <= i < k ensures s[i] != c {
      assert s[i] == s[..k][i];
    }
  }

  lemma ReadsNameAndValue(name: string, v: string)
    requires '=' !in name
    ensures ReadLine(PREFIX + name + "=" + v) == ReadValue(name, v[..Find(v, '\n')])
  {
    var line := PREFIX + name + "=" + v;
    var rest := line[|PREFIX|..];
    assert line[..|PREFIX|] == PREFIX;
    assert rest == name + "=" + v;
    FindIs(rest, '=', |name|) by {
      assert rest[..|name|] == name;
    }
    assert rest[..|name|] == name && rest[|name| + 1..] == v;
  }

  lemma AssignmentParts(name: string, s: string, tail: string)
    ensures Assignment(name, s) + tail == PREFIX + name + "=" + ("\"" + Escape(s) + "\"" + tail)
  {
  }

  lemma CutAfterFirst(a: string, b: string, k: nat)
    requires |a| <= k <= |a + b|
    ensures (a + b)[..k] == a + b[..k - |a|]
  {
  }

  lemma CutWithinFirst(a: string, b: string, k: nat)
    requires k <= |a|
    ensures (a + b)[..k] == a[..k]
  {
  }

  lemma ReadsWholeValue(name: string, s: string)
    ensures ReadValue(name, "\"" + Escape(s) + "\"") == Value(name, s)
  {
    assert ("\"" + Escape(s) + "\"")[1..] == Escape(s) + "\"" + "";
    UnescapeInverts(s, "");
  }

  /** A value without newline is cut where the line ends. */
  lemma ValueEnds(v: string, tail: string)
    requires '\n' !in v && (tail == "" || tail[0] == '\n')
    ensures (v + tail)[..Find(v + tail, '\n')] == v
  {
    CutWithinFirst(v, tail, |v|);
    FindIs(v + tail, '\n', |v|);
  }

  lemma ReadsWholeLine(name: string, s: string, tail: string)
    requires '=' !in name && '\n' !in s && (tail == "" || tail[0] == '\n')
    ensures ReadLine(Assignment(name, s) + tail) == Value(name, s)
  {
    var v := "\"" + Escape(s) + "\"";
    AssignmentParts(name, s, tail);
    ReadsNameAndValue(name, v + tail);
    CharStays(s, '\n');
    ValueEnds(v, tail);
    ReadsWholeValue(name, s);
  }

  /** A line that stops inside the value. */
  lemma ReadsNoCutText(name: string, s: string, m: nat)
    requires '=' !in name && m <= |Escape(s)| + 1
    ensures !ReadLine(PREFIX + name + "=" + ("\"" + Escape(s))[..m]).Value?
  {
    var v := ("\"" + Escape(s))[..m];
    ReadsNameAndValue(name, v);
    ReadsNoCutValue(name, s, Find(v, '\n'));
    assert v[..Find(v, '\n')] == ("\"" + Escape(s))[..Find(v, '\n')];
  }

  /** A line that stops inside the name. */
  lemma ReadsNoCutName(name: string, m: nat)
    requires '=' !in name && m <= |name|
    ensures !ReadLine(PREFIX + name[..m]).Value?
  {
    var line := PREFIX + name[..m];
    assert line[|PREFIX|..] == name[..m];
    FindIs(name[..m], '=', m);
  }

  /** A line that stops before the closing quote gives no value at all. */
  lemma ReadsNoCutLine(name: string, s: string, k: nat)
    requires '=' !in name && k < |Assignment(name, s)|
    ensures !ReadLine(Assignment(name, s)[..k]).Value?
  {
    var head, text := PREFIX + name + "=", "\"" + Escape(s);
    AssignmentParts(name, s, "");
    assert Assignment(name, s) == head + (text + "\"");
    if |head| <= k {
      CutAfterFirst(head, text + "\"", k);
      CutWithinFirst(text, "\"", k - |head|);
      ReadsNoCutText(name, s, k - |head|);
    } else {
      CutWithinFirst(head, text + "\"", k);
      CutWithinFirst(PREFIX + name, "=", k);
      if |PREFIX| <= k {
        CutAfterFirst(PREFIX, name, k);
        ReadsNoCutName(name, k - |PREFIX|);
      }
    }
  }

  lemma ReadsNoCutValue(name: string, s: string, m: nat)
    requires m <= |Escape(s)| + 1
    ensures !ReadValue(name, ("\"" + Escape(s))[..m]).Value?
  {
    var v := ("\"" + Escape(s))[..m];
    if m > 0 {
      assert v[1..] == Escape(s)[..m - 1];
      CutEscapeIsOpen(s, m - 1);
    }
  }

  /** The first newline of the file: the one that ends the line, unless the string has one. */
  lemma LineEnds(name: string, s: string, rest: string)
    requires '\n' !in name
    ensures var k := Find(Assignment(name, s) + "\n" + rest, '\n');
            if '\n' in s then k < |Assignment(name, s)| - 1 else k == |Assignment(name, s)|
  {
    var a := Assignment(name, s);
    var file := a + "\n" + rest;
    CharStays(s, '\n');
    if '\n' !in s {
      assert file[..|a|] == a;
      FindIs(file, '\n', |a|);
    } else {
      var i :| 0 <= i < |Escape(s)| && Escape(s)[i] == '\n';
      var before := PREFIX + name + "=\"";
      assert file == before + (Escape(s) + ("\"" + ("\n" + rest)));
      assert file[|before| + i] == '\n';
    }
  }

  /** What fgets reads: the beginning of the file, up to and including the first newline if it fits, and no more
      than leaves room for the NUL. */
  lemma FgetsReads(file: string, size: nat)
    requires size > 0
    ensures var r := Fgets(file, size);
            && r <= file && |r| < size && (forall i :: 0 <= i < |r| - 1 ==> r[i] != '\n')
            && (|r| == size - 1 || r == file || (r != "" && r[|r| - 1] == '\n'))
  {
  }

  /** A line that gives the symbol `name` the value `s`. */
  ghost predicate Assigns(line: string, name: string, s: string) {
    exists u, rest :: IsLineOf(line, name, u, rest) && Spells(u, s)
  }

  predicate IsLineOf(line: string, name: string, u: string, rest: string) {
    '=' !in name && '\n' !in u && line == PREFIX + name + "=" + ("\"" + (u + "\"" + rest))
  }

  lemma AssigningLineIsRead(line: string, name: string, u: string, rest: string, s: string)
    requires IsLineOf(line, name, u, rest) && Spells(u, s)
    ensures ReadLine(line) == Value(name, s)
  {
    var v := "\"" + (u + "\"" + rest);
    ReadsNameAndValue(name, v);
    var n := Find(v, '\n');
    QuoteIsBeforeNewline(u, rest);
    assert v[..n][1..] == u + "\"" + rest[..n - |u| - 2];
    UnescapeSpelled(u, s, rest[..n - |u| - 2]);
  }

  lemma QuoteIsBeforeNewline(u: string, rest: string)
    requires '\n' !in u
    ensures Find("\"" + (u + "\"" + rest), '\n') >= |u| + 2
  {
    var v := "\"" + (u + "\"" + rest);
    assert v[..|u| + 2] == "\"" + u + "\"";
    assert forall i :: 0 <= i < |u| + 2 ==> v[i] == ("\"" + u + "\"")[i];
  }

  /** The parts of a line from which a value is taken. */
  lemma LineParts(line: string, name: string, s: string) returns (v: string)
    requires ReadLine(line) == Value(name, s)
    ensures '=' !in name && line == PREFIX + name + "=" + v && ReadValue(name, v[..Find(v, '\n')]) == Value(name, s)
  {
    var rest := line[|PREFIX|..];
    var e := Find(rest, '=');
    v := rest[e + 1..];
    SplitAt(rest, e);
    SameLine(line, rest[..e], v);
    assert ReadLine(line) == ReadValue(rest[..e], v[..Find(v, '\n')]);
  }

  lemma SplitAt(t: string, e: nat)
    requires e < |t| && t[e] == '='
    ensures t == t[..e] + "=" + t[e + 1..]
  {
  }

  lemma SameLine(line: string, name: string, v: string)
    requires PREFIX <= line && line[|PREFIX|..] == name + "=" + v
    ensures line == PREFIX + name + "=" + v
  {
    assert line == PREFIX + line[|PREFIX|..];
    assert PREFIX + (name + "=" + v) == PREFIX + name + "=" + v;
  }

  /** The parts of a value that is a string. */
  lemma ValueParts(name: string, v: string, s: string) returns (u: string, rest: string)
    requires ReadValue(name, v) == Value(name, s)
    ensures v == "\"" + (u + "\"" + rest) && Spells(u, s)
  {
    var t := v[1..];
    var k := SpelledUpTo(t, s);
    u, rest := t[..k], t[k + 1..];
    assert t == u + "\"" + rest && v == "\"" + t;
  }

  lemma ReadLineAssigns(line: string, name: string, s: string)
    requires ReadLine(line) == Value(name, s)
    ensures Assigns(line, name, s)
  {
    var v := LineParts(line, name, s);
    var n := Find(v, '\n');
    var u, rest := ValueParts(name, v[..n], s);
    AllBefore(v, n, u, rest);
    assert v == v[..n] + v[n..];
    SameText(u, rest, v[n..]);
    assert IsLineOf(line, name, u, rest + v[n..]);
  }

  lemma AllBefore(v: string, n: nat, u: string, rest: string)
    requires n <= |v| && v[..n] == "\"" + (u + "\"" + rest) && '\n' !in v[..n]
    ensures '\n' !in u
  {
    assert forall i :: 0 <= i < |u| ==> u[i] == v[..n][i + 1];
  }

  lemma SameText(u: string, rest: string, more: string)
    ensures ("\"" + (u + "\"" + rest)) + more == "\"" + (u + "\"" + (rest + more))
  {
  }

  /** The reader takes a value from exactly these lines; whatever follows the closing quote is ignored. */
  lemma ReadLineExactlyWhen(line: string, name: string, s: string)
    ensures ReadLine(line) == Value(name, s) <==> Assigns(line, name, s)
    ensures ReadLine(line) == OtherLine <==> !(PREFIX <= line)
    ensures ReadLine(line) == NoAssignment <==> PREFIX <= line && '=' !in line[|PREFIX|..]
  {
    if ReadLine(line) == Value(name, s) {
      ReadLineAssigns(line, name, s);
    }
    if Assigns(line, name, s) {
      var u, rest :| IsLineOf(line, name, u, rest) && Spells(u, s);
      AssigningLineIsRead(line, name, u, rest, s);
    }
  }

  /** A string written to a file is read back exactly when it has no newline and its line fits the buffer. */
  lemma ReadsBackExactlyWhen(name: string, s: string, rest: string, size: nat)
    requires '=' !in name && '\n' !in name && size > 0
    ensures ReadLine(Fgets(Assignment(name, s) + "\n" + rest, size)) == Value(name, s)
            <==> '\n' !in s && |Assignment(name, s)| < size
  {
    var a := Assignment(name, s);
    var file := a + "\n" + rest;
    var k := |Fgets(file, size)|;
    LineEnds(name, s, rest);
    if k < |a| {
      assert Fgets(file, size) == a[..k];
      ReadsNoCutLine(name, s, k);
    } else {
      assert Fgets(file, size) == a + file[|a|..k];
      ReadsWholeLine(name, s, file[|a|..k]);
    }
  }

  /** What is read from the file is part of the line that was written, and has no NUL. */
  lemma ReadsOwnLine(name: string, s: string, rest: string, size: nat)
    requires size > 0 && NUL !in name && NUL !in s
    ensures NUL !in Fgets(Assignment(name, s) + "\n" + rest, size)
  {
    var line := Assignment(name, s) + "\n";
    var file := line + rest;
    assert file[|line| - 1] == '\n';
    CharStays(s, NUL);
    assert NUL !in line;
    var got := Fgets(file, size);
    forall i | 0 <= i < |got| ensures got[i] != NUL {
      assert got[i] == file[i] == line[i];
    }
  }
}
