/** String values in the configuration file: how they are written and read back. */
module ConfStrings {
  import opened Options

  /** The size of the buffer lines are read into. */
  const LINE_SIZE: nat := 1024
  const NUL: char := '\0'

  predicate Special(ch: char) {
    ch == '"' || ch == '\\'
  }

  // ---------- writing ----------

  /** Every quote and every backslash gets a backslash in front. */
  function Escape(s: string): string {
    if s == "" then "" else (if Special(s[0]) then ['\\', s[0]] else [s[0]]) + Escape(s[1..])
  }

  lemma {:induction false} EscapeAppend(a: string, b: string)
    ensures Escape(a + b) == Escape(a) + Escape(b)
  {
    if a == "" {
      assert a + b == b;
    } else {
      assert (a + b)[1..] == a[1..] + b;
      EscapeAppend(a[1..], b);
    }
  }

  lemma {:induction false} EscapePlain(s: string)
    requires forall k :: 0 <= k < |s| ==> !Special(s[k])
    ensures Escape(s) == s
  {
    if s != "" {
      EscapePlain(s[1..]);
    }
  }

  /** The loop that writes a string value: stretches without special characters as they are, the others escaped. */
  method WriteString(str: string) returns (out: string)
    ensures out == Escape(str)
  {
    out := "";
    var i := 0;
    while true
      invariant 0 <= i <= |str| && out == Escape(str[..i])
      decreases |str| - i
    {
      var j := i;
      while j < |str| && !Special(str[j])
        invariant i <= j <= |str| && forall k :: i <= k < j ==> !Special(str[k])
      {
        j := j + 1;
      }
      assert str[..j] == str[..i] + str[i..j];
      EscapeAppend(str[..i], str[i..j]);
      EscapePlain(str[i..j]);
      if j > i {
        out := out + str[i..j];
      }
      i := j;
      while i < |str| && Special(str[i])
        invariant j <= i <= |str| && out == Escape(str[..i])
        invariant j < |str| ==> j < i || Special(str[i])
      {
        assert str[..i + 1] == str[..i] + [str[i]];
        EscapeAppend(str[..i], [str[i]]);
        out := out + ['\\', str[i]];
        i := i + 1;
      }
      if i == |str| {
        break;
      }
    }
    assert str[..i] == str;
  }

  /** The line written for a string value. */
  function LineOf(name: string, value: string): string {
    name + "=\"" + Escape(value) + "\"\n"
  }

  // ---------- reading ----------

  /** What the characters after the opening quote stand for; nothing if there is no closing quote. */
  function Unescape(s: string): Option<string> {
    if s == "" then None
    else if s[0] == '"' then Some("")
    else if s[0] == '\\' then (if |s| == 1 then None else Prefix([s[1]], Unescape(s[2..])))
    else Prefix([s[0]], Unescape(s[1..]))
  }

  function Prefix(a: string, b: Option<string>): Option<string> {
    if b.None? then None else Some(a + b.value)
  }

  /** The string that starts at p in a buffer. */
  function StringAt(s: seq<char>, p: nat): (r: string)
    ensures |r| <= |s| - p || r == ""
    decreases |s| - p
  {
    if p < |s| && s[p] != NUL then [s[p]] + StringAt(s, p + 1) else ""
  }

  /** There is an end of the string that starts at p. */
  ghost predicate Terminated(s: seq<char>, p: nat) {
    p + |StringAt(s, p)| < |s|
  }

  lemma {:induction false} StringIs(s: seq<char>, p: nat, n: nat)
    requires p + n < |s| && s[p + n] == NUL && forall k :: p <= k < p + n ==> s[k] != NUL
    ensures StringAt(s, p) == s[p..p + n]
    decreases n
  {
    if n > 0 {
      StringIs(s, p + 1, n - 1);
    }
  }

  lemma {:induction false} StringParts(s: seq<char>, p: nat)
    requires Terminated(s, p)
    ensures var n := |StringAt(s, p)|;
            && StringAt(s, p) == s[p..p + n] && s[p + n] == NUL && forall k :: p <= k < p + n ==> s[k] != NUL
    decreases |s| - p
  {
    if s[p] != NUL {
      StringParts(s, p + 1);
    }
  }

  lemma {:induction false} UnescapePlain(a: string, b: string)
    requires forall k :: 0 <= k < |a| ==> !Special(a[k])
    ensures Unescape(a + b) == Prefix(a, Unescape(b))
  {
    if a == "" {
      assert a + b == b;
      if Unescape(b).Some? { assert a + Unescape(b).value == Unescape(b).value; }
    } else {
      assert (a + b)[1..] == a[1..] + b;
      UnescapePlain(a[1..], b);
      if Unescape(b).Some? { assert [a[0]] + (a[1..] + Unescape(b).value) == a + Unescape(b).value; }
    }
  }

  /** strpbrk(p, "\"\\"): the first special character of the string at p. */
  method FindSpecial(line: array<char>, p: nat) returns (q: Option<nat>)
    requires Terminated(line[..], p)
    ensures var n := |StringAt(line[..], p)|;
            if q.None? then forall k :: p <= k < p + n ==> !Special(line[k])
            else p <= q.value < p + n && Special(line[q.value]) && forall k :: p <= k < q.value ==> !Special(line[k])
  {
    StringParts(line[..], p);
    var i := p;
    while line[i] != NUL
      invariant p <= i <= p + |StringAt(line[..], p)|
      invariant forall k :: p <= k < i ==> !Special(line[k])
      decreases line.Length - i
    {
      if Special(line[i]) {
        return Some(i);
      }
      i := i + 1;
    }
    q := None;
  }

  /** memmove(p, p + 1, strlen(p)): removes the character at p. */
  method RemoveAt(line: array<char>, p: nat, ghost n: nat)
    requires p + n < line.Length && 1 <= n && line[p + n] == NUL && forall k :: p <= k < p + n ==> line[k] != NUL
    modifies line
    ensures forall k :: 0 <= k < line.Length && !(p <= k < p + n) ==> line[k] == old(line[k])
    ensures forall k :: p <= k < p + n ==> line[k] == old(line[..])[k + 1]
  {
    var i := p;
    while line[i] != NUL
      invariant p <= i <= p + n
      invariant forall k :: 0 <= k < line.Length && !(p <= k < i) ==> line[k] == old(line[k])
      invariant forall k :: p <= k < i ==> line[k] == old(line[..])[k + 1]
      decreases p + n - i
    {
      line[i] := line[i + 1];
      i := i + 1;
    }
  }

  /**
   * The loop that removes the backslashes from the string at p0 and cuts it at the closing quote, if there is one.
   */
  method UnescapeInPlace(line: array<char>, p0: nat) returns (found: bool)
    requires Terminated(line[..], p0)
    modifies line
    ensures found <==> Unescape(old(StringAt(line[..], p0))).Some?
    ensures found ==> Terminated(line[..], p0) && Some(StringAt(line[..], p0)) == Unescape(old(StringAt(line[..], p0)))
    ensures forall k :: 0 <= k < p0 ==> line[k] == old(line[k])
  {
    var p2 := p0;
    ghost var r := Unescape(StringAt(line[..], p0));
    DecodingStart(line[..], p0);
    while true
      invariant Decoding(line[..], p0, p2, r)
      invariant forall k :: 0 <= k < p0 ==> line[k] == old(line[k])
      decreases line.Length - p2
    {
      ghost var s := line[..];
      var q := FindSpecial(line, p2);
      if q.None? {
        DecodingEnds(s, p0, p2, r);
        return false;
      }
      DecodingSkips(s, p0, p2, q.value, r);
      p2 := q.value;
      if line[p2] == '"' {
        DecodingCuts(s, p0, p2, r);
        line[p2] := NUL;
        assert line[..] == s[p2 := NUL];
        return true;
      }
      ghost var n := |StringAt(s, p2)|;
      StringParts(s, p2);
      RemoveAt(line, p2, n);
      DecodingRemoves(s, line[..], p0, p2, n, r);
      p2 := p2 + 1;
    }
  }

  /** The string at p0 up to p is decoded, and with what the rest stands for makes up r. */
  ghost predicate Decoding(s: seq<char>, p0: nat, p: nat, r: Option<string>) {
    && p0 <= p && Terminated(s, p) && r == Prefix(s[p0..p], Unescape(StringAt(s, p)))
    && (r.Some? ==> forall k :: p0 <= k < p ==> s[k] != NUL)
  }

  lemma DecodingStart(s: seq<char>, p: nat)
    requires Terminated(s, p)
    ensures Decoding(s, p, p, Unescape(StringAt(s, p)))
  {
    assert s[p..p] == "";
    PrefixNone(Unescape(StringAt(s, p)));
  }

  /** Without special characters there is no closing quote. */
  lemma DecodingEnds(s: seq<char>, p0: nat, p: nat, r: Option<string>)
    requires Decoding(s, p0, p, r) && forall k :: p <= k < p + |StringAt(s, p)| ==> !Special(s[k])
    ensures r.None?
  {
    StringParts(s, p);
    var n := |StringAt(s, p)|;
    UnescapePlain(s[p..p + n], "");
    assert s[p..p + n] + "" == s[p..p + n];
  }

  /** Going on to the next special character. */
  lemma DecodingSkips(s: seq<char>, p0: nat, p: nat, q: nat, r: Option<string>)
    requires Decoding(s, p0, p, r) && p <= q < p + |StringAt(s, p)| && forall k :: p <= k < q ==> !Special(s[k])
    ensures Decoding(s, p0, q, r) && StringAt(s, q) != "" && StringAt(s, q)[0] == s[q]
  {
    StringParts(s, p);
    var n := |StringAt(s, p)|;
    StringIs(s, q, p + n - q);
    UnescapePlain(s[p..q], s[q..p + n]);
    assert s[p..p + n] == s[p..q] + s[q..p + n];
    PrefixTwice(s[p0..p], s[p..q], Unescape(s[q..p + n]));
    assert s[p0..q] == s[p0..p] + s[p..q];
  }

  lemma CutString(s: seq<char>, p0: nat, p: nat)
    requires p0 <= p < |s| && forall k :: p0 <= k < p ==> s[k] != NUL
    ensures Terminated(s[p := NUL], p0) && StringAt(s[p := NUL], p0) == s[p0..p]
  {
    var t := s[p := NUL];
    assert t[p0..p] == s[p0..p];
    StringIs(t, p0, p - p0);
  }

  /** Cutting the string at the closing quote. */
  lemma DecodingCuts(s: seq<char>, p0: nat, p: nat, r: Option<string>)
    requires Decoding(s, p0, p, r) && StringAt(s, p) != "" && s[p] == '"'
    ensures Terminated(s[p := NUL], p0) && r == Some(StringAt(s[p := NUL], p0))
  {
    PrefixEmpty(s[p0..p]);
    CutString(s, p0, p);
  }

  /** Removing a backslash and going on behind the character that followed it. */
  lemma DecodingRemoves(s: seq<char>, t: seq<char>, p0: nat, p: nat, n: nat, r: Option<string>)
    requires Decoding(s, p0, p, r) && n == |StringAt(s, p)| && n >= 1 && s[p] == '\\' && |t| == |s|
    requires forall k :: 0 <= k < |s| && !(p <= k < p + n) ==> t[k] == s[k]
    requires forall k :: p <= k < p + n ==> t[k] == s[k + 1]
    ensures Decoding(t, p0, p + 1, r)
  {
    StringParts(s, p);
    if n == 1 {
      StringIs(t, p + 1, 0);
    } else {
      StringIs(t, p + 1, n - 2);
      assert t[p + 1..p + n - 1] == s[p + 2..p + n];
      assert s[p..p + n][2..] == s[p + 2..p + n];
      PrefixTwice(s[p0..p], [s[p + 1]], Unescape(s[p + 2..p + n]));
      assert t[p0..p + 1] == s[p0..p] + [s[p + 1]];
    }
  }

  lemma PrefixNone(r: Option<string>)
    ensures Prefix("", r) == r
  {
    if r.Some? { assert "" + r.value == r.value; }
  }

  lemma PrefixEmpty(a: string)
    ensures Prefix(a, Some("")) == Some(a)
  {
    assert a + "" == a;
  }

  lemma PrefixTwice(a: string, b: string, r: Option<string>)
    ensures Prefix(a, Prefix(b, r)) == Prefix(a + b, r)
  {
    if r.Some? { assert a + (b + r.value) == a + b + r.value; }
  }

  // ---------- lines ----------

  /** What reading a line does to string symbols. */
  datatype Outcome = Ignored | Invalid | Assigned(name: string, value: string)

  /** The part of s in front of the first ch, or all of s. */
  function Upto(s: string, ch: char): (r: string)
    ensures |r| <= |s| && r == s[..|r|] && ch !in r && (|r| < |s| ==> s[|r|] == ch)
  {
    if s == "" || s[0] == ch then "" else [s[0]] + Upto(s[1..], ch)
  }

  /** The outcome for a line, when what precedes the equals sign names a string symbol. */
  function LineOutcome(s: string): Outcome {
    if s == "" || !('A' <= s[0] <= 'Z') then Ignored
    else
      var name := Upto(s, '=');
      if name == s then Ignored else Assignment(name, s[|name| + 1..])
  }

  /** The outcome for what follows the equals sign. */
  function Assignment(name: string, s: string): Outcome {
    var value := Upto(s, '\n');
    if value == "" || value[0] != '"' then Ignored
    else
      match Unescape(value[1..])
      case None => Invalid
      case Some(v) => Assigned(name, v)
  }

  /** fgets: what one call reads of the text. */
  function Chunk(text: string): (r: string)
    ensures |r| <= |text| && r == text[..|r|] && (text != "" ==> r != "")
  {
    var n := |Upto(text, '\n')|;
    if n < LINE_SIZE - 1 && n < |text| then text[..n + 1]
    else if n <= LINE_SIZE - 1 then text[..n]
    else text[..LINE_SIZE - 1]
  }

  lemma {:induction false} UptoSplit(a: string, b: string, ch: char)
    requires ch !in a
    ensures Upto(a + [ch] + b, ch) == a
  {
    if a == "" {
      assert a + [ch] + b == [ch] + b;
    } else {
      assert (a + [ch] + b)[1..] == a[1..] + [ch] + b;
      UptoSplit(a[1..], b, ch);
    }
  }

  lemma {:induction false} UptoAll(a: string, ch: char)
    requires ch !in a
    ensures Upto(a, ch) == a
  {
    if a != "" { UptoAll(a[1..], ch); }
  }

  /** A value written and closed by a quote is read back, whatever follows. */
  lemma {:induction false} UnescapeEscape(v: string, tail: string)
    requires tail != "" && tail[0] == '"'
    ensures Unescape(Escape(v) + tail) == Some(v)
  {
    var e := Escape(v) + tail;
    if v == "" {
      assert e == tail;
    } else {
      UnescapeEscape(v[1..], tail);
      var n := if Special(v[0]) then 2 else 1;
      assert e[n..] == Escape(v[1..]) + tail;
      assert v == [v[0]] + v[1..];
    }
  }

  /** Any first part of an escaped value has no closing quote. */
  lemma {:induction false} EscapeOpen(v: string, n: nat)
    requires n <= |Escape(v)|
    ensures Unescape(Escape(v)[..n]).None?
    decreases v
  {
    var e := Escape(v);
    if v != "" && n > 0 {
      if Special(v[0]) {
        if n >= 2 {
          EscapeOpen(v[1..], n - 2);
          assert e[..n][2..] == Escape(v[1..])[..n - 2];
        }
      } else {
        EscapeOpen(v[1..], n - 1);
        assert e[..n][1..] == Escape(v[1..])[..n - 1];
      }
    }
  }

  lemma {:induction false} EscapeNewline(v: string)
    ensures '\n' in Escape(v) <==> '\n' in v
  {
    if v != "" {
      EscapeNewline(v[1..]);
      assert v == [v[0]] + v[1..];
    }
  }

  /** strchr: where the string at p first has the character ch, which is not NUL. */
  method FindChar(line: array<char>, p: nat, ch: char) returns (q: Option<nat>)
    requires Terminated(line[..], p) && ch != NUL
    ensures var s := StringAt(line[..], p);
            if q.None? then ch !in s else p <= q.value < p + |s| && q.value - p == |Upto(s, ch)|
  {
    StringParts(line[..], p);
    ghost var s := StringAt(line[..], p);
    var i := p;
    while line[i] != NUL
      invariant p <= i <= p + |s| && ch !in s[..i - p]
      decreases line.Length - i
    {
      if line[i] == ch {
        UptoSplit(s[..i - p], s[i - p + 1..], ch);
        assert s == s[..i - p] + [ch] + s[i - p + 1..];
        return Some(i);
      }
      assert s[..i + 1 - p] == s[..i - p] + [s[i - p]];
      i := i + 1;
    }
    assert s[..i - p] == s;
    q := None;
  }

  /** Writing an end into a string splits it. */
  lemma CutAt(s: seq<char>, p: nat, q: nat)
    requires Terminated(s, p) && p <= q < p + |StringAt(s, p)|
    ensures var t := s[q := NUL];
            && Terminated(t, p) && StringAt(t, p) == StringAt(s, p)[..q - p]
            && Terminated(t, q + 1) && StringAt(t, q + 1) == StringAt(s, p)[q + 1 - p..]
  {
    StringParts(s, p);
    var n := |StringAt(s, p)|;
    CutString(s, p, q);
    var t := s[q := NUL];
    StringIs(t, q + 1, p + n - (q + 1));
    assert t[q + 1..p + n] == s[p..p + n][q + 1 - p..];
  }

  /** Cuts the string at p at its first newline, if it has one. */
  method CutNewline(line: array<char>, p: nat)
    requires Terminated(line[..], p)
    modifies line
    ensures Terminated(line[..], p) && StringAt(line[..], p) == Upto(old(StringAt(line[..], p)), '\n')
    ensures forall k :: 0 <= k < p ==> line[k] == old(line[k])
  {
    var p2 := FindChar(line, p, '\n');
    if p2.Some? {
      CutAt(line[..], p, p2.value);
      ghost var s := line[..];
      line[p2.value] := NUL;
      assert line[..] == s[p2.value := NUL];
    } else {
      UptoAll(StringAt(line[..], p), '\n');
    }
  }

  /** The part of conf_read that handles what follows the equals sign. */
  method ReadValue(line: array<char>, name: string, p0: nat) returns (o: Outcome)
    requires Terminated(line[..], p0)
    modifies line
    ensures o == Assignment(name, old(StringAt(line[..], p0)))
  {
    var p := p0;
    CutNewline(line, p);
    StringParts(line[..], p);
    if line[p] != '"' {
      return Ignored;
    }
    ghost var value := StringAt(line[..], p);
    p := p + 1;
    StringIs(line[..], p, |value| - 1);
    assert StringAt(line[..], p) == value[1..];
    var found := UnescapeInPlace(line, p);
    o := if found then Assigned(name, StringAt(line[..], p)) else Invalid;
  }

  /** The part of conf_read that handles a line for a string symbol. */
  method ReadLine(line: array<char>) returns (o: Outcome)
    requires Terminated(line[..], 0)
    modifies line
    ensures o == LineOutcome(old(StringAt(line[..], 0)))
  {
    ghost var s := StringAt(line[..], 0);
    StringParts(line[..], 0);
    if !('A' <= line[0] <= 'Z') {
      return Ignored;
    }
    var eq := FindChar(line, 0, '=');
    if eq.None? {
      UptoAll(s, '=');
      return Ignored;
    }
    var p := eq.value;
    ghost var l0 := line[..];
    CutAt(l0, 0, p);
    line[p] := NUL;
    assert line[..] == l0[p := NUL];
    var name := StringAt(line[..], 0);
    o := ReadValue(line, name, p + 1);
  }

  lemma {:induction false} UptoAfter(a: string, b: string, ch: char)
    requires ch !in a
    ensures Upto(a + b, ch) == a + Upto(b, ch)
  {
    if a == "" {
      assert a + b == b;
    } else {
      assert (a + b)[1..] == a[1..] + b;
      UptoAfter(a[1..], b, ch);
    }
  }

  lemma {:induction false} UptoStop(a: string, b: string, ch: char)
    ensures Upto(a + [ch] + b, ch) == Upto(a, ch)
  {
    if a == "" {
      assert a + [ch] + b == [ch] + b;
    } else {
      assert (a + [ch] + b)[1..] == a[1..] + [ch] + b;
      UptoStop(a[1..], b, ch);
    }
  }

  /** The first line of a text, without the newline, as far as it fits the buffer. */
  function Content(text: string): string {
    var u := Upto(text, '\n');
    if |u| < LINE_SIZE then u else u[..LINE_SIZE - 1]
  }

  lemma ChunkContent(text: string)
    ensures Chunk(text) == Content(text) || Chunk(text) == Content(text) + "\n"
  {
    var u := Upto(text, '\n');
    if |u| < LINE_SIZE - 1 && |u| < |text| {
      assert text[..|u| + 1] == text[..|u|] + [text[|u|]];
    }
  }

  /** A line consisting of a name, an equals sign and something else, with or without a newline. */
  lemma OutcomeOf(name: string, value: string, newline: string)
    requires name != "" && '=' !in name && 'A' <= name[0] <= 'Z' && '\n' !in value && (newline == "" || newline == "\n")
    ensures LineOutcome(name + "=" + value + newline) ==
            if value == "" || value[0] != '"' then Ignored
            else match Unescape(value[1..]) case None => Invalid case Some(v) => Assigned(name, v)
  {
    var s := name + "=" + value + newline;
    assert s == name + ['='] + (value + newline);
    UptoSplit(name, value + newline, '=');
    assert s[|name| + 1..] == value + newline;
    if newline == "" {
      assert value + newline == value;
      UptoAll(value, '\n');
    } else {
      assert value + newline == value + ['\n'] + "";
      UptoSplit(value, "", '\n');
    }
  }

  lemma OutcomeNone(s: string, newline: string)
    requires '=' !in s && (newline == "" || newline == "\n")
    ensures LineOutcome(s + newline) == Ignored
  {
    UptoAll(s + newline, '=');
  }

  lemma LineContent(name: string, v: string, rest: string)
    requires '\n' !in name
    ensures Upto(LineOf(name, v) + rest, '\n') == name + "=\"" + Upto(Escape(v) + "\"", '\n')
  {
    var head, tail := name + "=\"", Escape(v) + "\"";
    assert LineOf(name, v) + rest == head + (tail + ['\n'] + rest);
    UptoAfter(head, tail + ['\n'] + rest, '\n');
    UptoStop(tail, rest, '\n');
  }

  predicate Readable(name: string) {
    name != "" && 'A' <= name[0] <= 'Z' && |name| + 2 < LINE_SIZE
  }

  predicate FitsLine(name: string, v: string) {
    '\n' !in v && |name| + |Escape(v)| + 3 < LINE_SIZE
  }

  /**
   * What reading the line written for a string value comes to. The value itself is read back exactly if the name
   * begins with a capital letter, the value has no newline and the line fits the buffer.
   */
  lemma RoundTrip(name: string, v: string, rest: string)
    requires name != "" && '=' !in name && '\n' !in name
    ensures LineOutcome(Chunk(LineOf(name, v) + rest)) ==
            if !Readable(name) then Ignored else if !FitsLine(name, v) then Invalid else Assigned(name, v)
  {
    var text := LineOf(name, v) + rest;
    var u := Upto(Escape(v) + "\"", '\n');
    LineContent(name, v, rest);
    ChunkContent(text);
    var newline := if Chunk(text) == Content(text) then "" else "\n";
    assert Chunk(text) == Content(text) + newline;
    ContentOutcome(name, v, u, newline);
  }

  lemma ContentOutcome(name: string, v: string, u: string, newline: string)
    requires name != "" && '=' !in name && '\n' !in name && (newline == "" || newline == "\n")
    requires u == Upto(Escape(v) + "\"", '\n')
    ensures var c := name + "=\"" + u;
            LineOutcome((if |c| < LINE_SIZE then c else c[..LINE_SIZE - 1]) + newline) ==
            if !Readable(name) then Ignored else if !FitsLine(name, v) then Invalid else Assigned(name, v)
  {
    var all := name + "=\"" + u;
    var c := if |all| < LINE_SIZE then all else all[..LINE_SIZE - 1];
    assert c == all[..|c|] && all[..|name|] == name;
    if !('A' <= name[0] <= 'Z') {
      assert (c + newline)[0] == name[0];
    } else if |c| <= |name| {
      assert c == name[..|c|];
      OutcomeNone(c, newline);
    } else {
      var n := |c| - |name| - 1;
      var value := ("\"" + u)[..n];
      assert all == name + "=" + ("\"" + u);
      assert c == name + "=" + value;
      OutcomeOf(name, value, newline);
      if value != "" { ValueOutcome(name, v, u, value); }
    }
  }

  lemma ValueOutcome(name: string, v: string, u: string, value: string)
    requires u == Upto(Escape(v) + "\"", '\n') && value != "" && |name| + 2 < LINE_SIZE
    requires value == if |name| + 2 + |u| < LINE_SIZE then "\"" + u else ("\"" + u)[..LINE_SIZE - |name| - 2]
    ensures value[0] == '"' && Unescape(value[1..]) == if FitsLine(name, v) then Some(v) else None
  {
    var e := Escape(v);
    EscapeNewline(v);
    if '\n' !in v { UptoAll(e + "\"", '\n'); }
    if FitsLine(name, v) {
      assert value[1..] == e + "\"";
      UnescapeEscape(v, "\"");
    } else {
      var n := |value| - 1;
      assert value[1..] == u[..n] == (e + "\"")[..n];
      if |u| > |e| {
        assert u == e + "\"";
        forall k | 0 <= k < |e| ensures e[k] != '\n' {
          assert u[k] == e[k];
        }
      }
      assert n <= |e|;
      assert value[1..] == e[..n];
      EscapeOpen(v, n);
    }
  }

  // ---------- whole files ----------

  datatype Entry = Entry(name: string, value: string)

  function FileOf(es: seq<Entry>): string {
    if es == [] then "" else LineOf(es[0].name, es[0].value) + FileOf(es[1..])
  }

  /** The string values assigned by a file, in order; nothing if reading it fails. */
  function ReadFile(text: string): Option<seq<Entry>>
    decreases |text|
  {
    if text == "" then Some([])
    else
      var c := Chunk(text);
      var rest := text[|c|..];
      match LineOutcome(c)
      case Invalid => None
      case Ignored => ReadFile(rest)
      case Assigned(n, v) => var r := ReadFile(rest); if r.None? then None else Some([Entry(n, v)] + r.value)
  }

  /** Reading goes on behind the line, or, if the line just fits the buffer, at its newline, which is then skipped. */
  lemma ChunkLine(name: string, v: string, rest: string)
    requires '\n' !in name && FitsLine(name, v)
    ensures var text, c := LineOf(name, v) + rest, Chunk(LineOf(name, v) + rest);
            text[|c|..] == rest || text[|c|..] == "\n" + rest
  {
    var text := LineOf(name, v) + rest;
    var n := |name| + |Escape(v)| + 3;
    LineContent(name, v, rest);
    EscapeNewline(v);
    UptoAll(Escape(v) + "\"", '\n');
    assert |Upto(text, '\n')| == n;
    assert text[n..] == "\n" + rest && text[n + 1..] == rest;
  }

  lemma NewlineSkipped(rest: string)
    ensures ReadFile("\n" + rest) == ReadFile(rest)
  {
    var text := "\n" + rest;
    assert Upto(text, '\n') == "";
    assert Chunk(text) == "\n" && text[1..] == rest;
  }

  /** The names are those of symbols that can be read. */
  ghost predicate AllReadable(es: seq<Entry>) {
    forall k :: 0 <= k < |es| ==> Readable(es[k].name) && '=' !in es[k].name && '\n' !in es[k].name
  }

  ghost predicate AllFit(es: seq<Entry>) {
    forall k :: 0 <= k < |es| ==> FitsLine(es[k].name, es[k].value)
  }

  /** The first line of a file written for values. */
  lemma FirstLine(e: Entry, rest: string)
    requires Readable(e.name) && '=' !in e.name && '\n' !in e.name
    ensures ReadFile(LineOf(e.name, e.value) + rest) ==
            if FitsLine(e.name, e.value) && ReadFile(rest).Some? then Some([e] + ReadFile(rest).value) else None
  {
    RoundTrip(e.name, e.value, rest);
    if FitsLine(e.name, e.value) {
      ChunkLine(e.name, e.value, rest);
      NewlineSkipped(rest);
    }
  }

  lemma AllFitFirst(es: seq<Entry>)
    requires es != []
    ensures AllFit(es) <==> FitsLine(es[0].name, es[0].value) && AllFit(es[1..])
  {
  }

  /** A file of values is read back whole and in order if they all fit; otherwise reading it fails. */
  lemma {:induction false} FileRoundTrip(es: seq<Entry>)
    requires AllReadable(es)
    ensures ReadFile(FileOf(es)) == if AllFit(es) then Some(es) else None
  {
    if es != [] {
      var e, rest := es[0], FileOf(es[1..]);
      FileRoundTrip(es[1..]);
      FirstLine(e, rest);
      AllFitFirst(es);
      assert FileOf(es) == LineOf(e.name, e.value) + rest;
      assert es == [e] + es[1..];
    }
  }

  // ---------- from the writer to the reader ----------

  /** fgets: puts the next chunk of a text into the buffer and ends it; returns how much was read. */
  method ReadChunk(line: array<char>, text: string) returns (n: nat)
    requires line.Length == LINE_SIZE
    modifies line
    ensures n == |Chunk(text)|
    ensures NUL !in Chunk(text) ==> Terminated(line[..], 0) && StringAt(line[..], 0) == Chunk(text)
  {
    n := 0;
    while n < LINE_SIZE - 1 && n < |text| && (n == 0 || text[n - 1] != '\n')
      invariant n < LINE_SIZE && n <= |text| && line[..n] == text[..n]
      invariant forall k :: 0 <= k < n - 1 ==> text[k] != '\n'
    {
      line[n] := text[n];
      n := n + 1;
    }
    ChunkIs(text, n);
    line[n] := NUL;
    if NUL !in Chunk(text) {
      assert line[..n] == text[..n] == Chunk(text);
      forall k | 0 <= k < n ensures line[k] != NUL {
        assert line[k] == line[..n][k] && Chunk(text)[k] in Chunk(text);
      }
      StringIs(line[..], 0, n);
      assert line[..][0..n] == line[..n];
    }
  }

  /** Without a newline among the first m characters the first line is at least as long. */
  lemma {:induction false} UptoLength(text: string, m: nat)
    requires m <= |text| && forall k :: 0 <= k < m ==> text[k] != '\n'
    ensures |Upto(text, '\n')| >= m
    ensures m == |text| || text[m] == '\n' ==> |Upto(text, '\n')| == m
  {
    if m > 0 {
      UptoLength(text[1..], m - 1);
    }
  }

  /** What fgets stops at. */
  lemma ChunkIs(text: string, n: nat)
    requires n < LINE_SIZE && n <= |text| && forall k :: 0 <= k < n - 1 ==> text[k] != '\n'
    requires n == LINE_SIZE - 1 || n == |text| || (n > 0 && text[n - 1] == '\n')
    ensures Chunk(text) == text[..n]
  {
    UptoLength(text, if n > 0 && text[n - 1] == '\n' then n - 1 else n);
  }

  /**
   * Writes a value as conf_write does, reads the line into the buffer as conf_read does, and handles it. What follows
   * in the file makes no difference.
   */
  method WriteAndRead(name: string, v: string, rest: string) returns (o: Outcome)
    requires name != "" && '=' !in name && '\n' !in name && NUL !in name && NUL !in v
    ensures o == if !Readable(name) then Ignored else if !FitsLine(name, v) then Invalid else Assigned(name, v)
  {
    var escaped := WriteString(v);
    var line := new char[LINE_SIZE];
    LineWithoutNul(name, v, rest);
    var n := ReadChunk(line, name + "=\"" + escaped + "\"\n" + rest);
    o := ReadLine(line);
    RoundTrip(name, v, rest);
  }

  lemma {:induction false} EscapeWithoutNul(v: string)
    requires NUL !in v
    ensures NUL !in Escape(v)
  {
    if v != "" {
      EscapeWithoutNul(v[1..]);
    }
  }

  /** The chunk that is read of a line ends with the line. */
  lemma LineWithoutNul(name: string, v: string, rest: string)
    requires '\n' !in name && NUL !in name && NUL !in v
    ensures NUL !in LineOf(name, v) && NUL !in Chunk(LineOf(name, v) + rest)
  {
    EscapeWithoutNul(v);
    var text, line := LineOf(name, v) + rest, LineOf(name, v);
    UptoStop(line[..|line| - 1], rest, '\n');
    assert line == line[..|line| - 1] + ['\n'];
    assert |Chunk(text)| <= |line|;
    assert Chunk(text) == line[..|Chunk(text)|];
  }

  /** The string values of a file, written one after another. */
  method WriteAll(es: seq<Entry>) returns (text: string)
    ensures text == FileOf(es)
  {
    text := "";
    for i := 0 to |es|
      invariant text == FileOf(es[..i])
    {
      var escaped := WriteString(es[i].value);
      FileOfAppend(es[..i], es[i]);
      assert es[..i + 1] == es[..i] + [es[i]];
      text := text + (es[i].name + "=\"" + escaped + "\"\n");
    }
    assert es[..|es|] == es;
  }

  lemma {:induction false} FileOfAppend(es: seq<Entry>, e: Entry)
    ensures FileOf(es + [e]) == FileOf(es) + LineOf(e.name, e.value)
  {
    if es == [] {
      assert es + [e] == [e];
    } else {
      assert (es + [e])[1..] == es[1..] + [e];
      FileOfAppend(es[1..], e);
    }
  }

  function Before(es: seq<Entry>, r: Option<seq<Entry>>): Option<seq<Entry>> {
    if r.None? then None else Some(es + r.value)
  }

  lemma BeforeNothing(es: seq<Entry>, r: Option<seq<Entry>>)
    ensures Before([], r) == r && Before(es, Some([])) == Some(es)
  {
    assert es + [] == es;
    if r.Some? { assert [] + r.value == r.value; }
  }

  /** The values read with the outcome of one more line. */
  function Extended(es: seq<Entry>, o: Outcome): seq<Entry> {
    if o.Assigned? then es + [Entry(o.name, o.value)] else es
  }

  lemma BeforeExtended(es: seq<Entry>, o: Outcome, r: Option<seq<Entry>>)
    ensures Before(es, Before(Extended([], o), r)) == Before(Extended(es, o), r)
  {
    BeforeNothing(es, r);
    if o.Assigned? && r.Some? {
      var e := [Entry(o.name, o.value)];
      assert [] + e == e && es + (e + r.value) == es + e + r.value;
    }
  }

  /** What the next line contributes. */
  lemma ReadStep(es: seq<Entry>, text: string, n: nat, o: Outcome)
    requires text != "" && n == |Chunk(text)| && o == LineOutcome(Chunk(text))
    ensures Before(es, ReadFile(text)) == if o.Invalid? then None else Before(Extended(es, o), ReadFile(text[n..]))
  {
    var r := ReadFile(text[n..]);
    BeforeNothing(es, r);
    BeforeExtended(es, o, r);
    assert ReadFile(text) == if o.Invalid? then None else Before(Extended([], o), r) by {
      assert o.Assigned? ==> Extended([], o) == [Entry(o.name, o.value)];
    }
  }

  /** Reads the next line of what is left of a file and handles it. */
  method ReadNext(line: array<char>, text: string) returns (n: nat, o: Outcome)
    requires line.Length == LINE_SIZE && text != "" && NUL !in text
    modifies line
    ensures 0 < n == |Chunk(text)| <= |text| && o == LineOutcome(Chunk(text))
  {
    n := ReadChunk(line, text);
    o := ReadLine(line);
  }

  /** The loop of conf_read over the lines of a file of string values, with one buffer for all of them. */
  method ReadAll(text: string) returns (r: Option<seq<Entry>>)
    requires NUL !in text
    ensures r == ReadFile(text)
  {
    var line := new char[LINE_SIZE];
    var es, rest := [], text;
    BeforeNothing([], ReadFile(text));
    while rest != ""
      invariant NUL !in rest && Before(es, ReadFile(rest)) == ReadFile(text)
      decreases |rest|
    {
      var n, o := ReadNext(line, rest);
      ReadStep(es, rest, n, o);
      if o.Invalid? {
        return None;
      }
      es, rest := Extended(es, o), rest[n..];
    }
    BeforeNothing(es, None);
    r := Some(es);
  }

  /** A configuration whose values fit, and only such a one, is read back as it was written. */
  method SaveAndLoad(es: seq<Entry>) returns (r: Option<seq<Entry>>)
    requires AllReadable(es)
    requires forall k :: 0 <= k < |es| ==> NUL !in es[k].name && NUL !in es[k].value
    ensures r == if AllFit(es) then Some(es) else None
  {
    var text := WriteAll(es);
    FileWithoutNul(es);
    FileRoundTrip(es);
    r := ReadAll(text);
  }

  lemma {:induction false} FileWithoutNul(es: seq<Entry>)
    requires forall k :: 0 <= k < |es| ==> '\n' !in es[k].name && NUL !in es[k].name && NUL !in es[k].value
    ensures NUL !in FileOf(es)
  {
    if es != [] {
      LineWithoutNul(es[0].name, es[0].value, "");
      FileWithoutNul(es[1..]);
    }
  }
}
