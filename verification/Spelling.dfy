/** The spelling of string values in the configuration file, character by character. */
module Spelling {
  import opened Options
  import opened ConfStrings

  /** A character of a value, with a backslash in front or not. */
  datatype Piece = Piece(ch: char, escaped: bool) {
    function Text(): string {
      if escaped then ['\\', ch] else [ch]
    }
  }

  function Text(ps: seq<Piece>): string {
    if ps == [] then "" else ps[0].Text() + Text(ps[1..])
  }

  function Value(ps: seq<Piece>): string {
    seq(|ps|, i requires 0 <= i < |ps| => ps[i].ch)
  }

  /** Any character may be escaped; quotes and backslashes must be. */
  predicate Proper(ps: seq<Piece>) {
    forall i :: 0 <= i < |ps| && (ps[i].ch == '"' || ps[i].ch == '\\') ==> ps[i].escaped
  }

  /** s spells the value of the pieces and closes it. */
  ghost predicate Spells(s: string, ps: seq<Piece>) {
    Proper(ps) && Text(ps) + "\"" <= s
  }

  /** What the writer writes. */
  function Pieces(v: string): seq<Piece> {
    seq(|v|, i requires 0 <= i < |v| => Piece(v[i], v[i] == '"' || v[i] == '\\'))
  }

  /** The writer escapes the quotes and backslashes of a value and nothing else. */
  lemma {:induction false} EscapeSpells(v: string)
    ensures Escape(v) == Text(Pieces(v)) && Proper(Pieces(v)) && Value(Pieces(v)) == v
  {
    if v == "" {
      assert Pieces(v) == [];
    } else {
      EscapeSpells(v[1..]);
      assert Pieces(v)[1..] == Pieces(v[1..]);
      assert Pieces(v)[0] == Piece(v[0], v[0] == '"' || v[0] == '\\');
    }
  }

  lemma {:induction false} SpelledReads(ps: seq<Piece>, rest: string)
    requires Proper(ps)
    ensures Unescape(Text(ps) + "\"" + rest) == Some(Value(ps))
  {
    var s := Text(ps) + "\"" + rest;
    if ps == [] {
      assert s[0] == '"' && Value(ps) == "";
    } else {
      var p, more := ps[0], Text(ps[1..]) + "\"" + rest;
      SpelledReads(ps[1..], rest);
      assert s == p.Text() + more;
      PieceReads(p, more);
      assert Value(ps) == [p.ch] + Value(ps[1..]);
    }
  }

  lemma PieceReads(p: Piece, more: string)
    requires p.escaped || (p.ch != '"' && p.ch != '\\')
    ensures Unescape(p.Text() + more) == Prefix([p.ch], Unescape(more))
  {
    var s := p.Text() + more;
    if p.escaped {
      assert s[0] == '\\' && s[1] == p.ch && s[2..] == more;
    } else {
      assert s[0] == p.ch && s[1..] == more;
    }
  }

  /** The pieces that are read. */
  lemma {:induction false} ReadsSpelled(s: string) returns (ps: seq<Piece>)
    requires Unescape(s).Some?
    ensures Spells(s, ps) && Unescape(s) == Some(Value(ps))
    decreases |s|
  {
    if s[0] == '"' {
      ps := [];
      assert Value(ps) == "" && Text(ps) + "\"" == s[..1];
    } else {
      var p := if s[0] == '\\' then Piece(s[1], true) else Piece(s[0], false);
      var n := |p.Text()|;
      var more := ReadsSpelled(s[n..]);
      ps := [p] + more;
      PieceFirst(p, more, s);
    }
  }

  lemma PieceFirst(p: Piece, more: seq<Piece>, s: string)
    requires Proper([p]) && p.Text() <= s && Spells(s[|p.Text()|..], more)
    ensures Spells(s, [p] + more) && Value([p] + more) == [p.ch] + Value(more)
  {
    var ps, rest := [p] + more, s[|p.Text()|..];
    assert ps[1..] == more && ps[0] == p;
    assert Text(ps) == p.Text() + Text(more);
    assert s == p.Text() + rest;
    forall i | 0 <= i < |ps| && (ps[i].ch == '"' || ps[i].ch == '\\') ensures ps[i].escaped {
      if i > 0 { assert more[i - 1] == ps[i]; } else { assert [p][0] == p; }
    }
  }

  /** The value read is v exactly if v is what is spelled. */
  lemma UnescapeExact(s: string, v: string)
    ensures Unescape(s) == Some(v) <==> exists ps :: Spells(s, ps) && Value(ps) == v
  {
    if Unescape(s) == Some(v) {
      var ps := ReadsSpelled(s);
    }
    forall ps | Spells(s, ps) && Value(ps) == v ensures Unescape(s) == Some(v) {
      var t := Text(ps) + "\"";
      assert s == t + s[|t|..];
      SpelledReads(ps, s[|t|..]);
    }
  }

  /** The line that is written for a value, and the conditions on which it is read back. */
  lemma LineExact(name: string, v: string)
    ensures LineOf(name, v) == name + "=\"" + Text(Pieces(v)) + "\"\n"
    ensures Readable(name) <==> name != "" && 'A' <= name[0] <= 'Z' && |name| + 2 < 1024
    ensures FitsLine(name, v) <==> '\n' !in v && |name| + |Text(Pieces(v))| + 3 < 1024
  {
    EscapeSpells(v);
  }
}
