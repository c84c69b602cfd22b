/**
 * The two JavaScript string built-ins the dashboard's CSV parser relies on:
 * `String.prototype.trim` and `String.prototype.split` with a one-character
 * separator.
 */
module JsStrings {

  /** The characters `trim` removes: ECMAScript WhiteSpace and LineTerminator. */
  predicate IsJsSpace(c: char) {
    || c == '\t' || c == '\n' || c == '\U{000B}' || c == '\U{000C}' || c == '\r'
    || c == ' ' || c == '\U{00A0}' || c == '\U{1680}'
    || ('\U{2000}' <= c <= '\U{200A}')
    || c == '\U{2028}' || c == '\U{2029}' || c == '\U{202F}' || c == '\U{205F}'
    || c == '\U{3000}' || c == '\U{FEFF}'
  }

  predicate AllSpace(s: string) {
    forall i :: 0 <= i < |s| ==> IsJsSpace(s[i])
  }

  /** `trim`: white space removed from both ends, one character at a time. */
  function Trim(s: string): string
  {
    if s != [] && IsJsSpace(s[0]) then Trim(s[1..])
    else if s != [] && IsJsSpace(s[|s| - 1]) then Trim(s[..|s| - 1])
    else s
  }

  lemma AllSpaceConcat(a: string, b: string)
    requires AllSpace(a) && AllSpace(b)
    ensures AllSpace(a + b)
  {
    forall i | 0 <= i < |a + b| ensures IsJsSpace((a + b)[i]) {
      if i < |a| {
        assert (a + b)[i] == a[i];
      } else {
        assert (a + b)[i] == b[i - |a|];
      }
    }
  }

  /** The trimmed string neither starts nor ends with white space. */
  lemma {:induction false} TrimEnds(s: string)
    ensures Trim(s) == [] || (!IsJsSpace(Trim(s)[0]) && !IsJsSpace(Trim(s)[|Trim(s)| - 1]))
  {
    if s != [] && IsJsSpace(s[0]) {
      TrimEnds(s[1..]);
    } else if s != [] && IsJsSpace(s[|s| - 1]) {
      TrimEnds(s[..|s| - 1]);
    }
  }

  /** A white-space character in front of `p + t + q` joins the white-space prefix `p`. */
  lemma PrependSpace(c: char, p: string, t: string, q: string)
    requires IsJsSpace(c) && AllSpace(p)
    ensures [c] + (p + t + q) == ([c] + p) + t + q
    ensures AllSpace([c] + p)
  {
    AllSpaceConcat([c], p);
  }

  /** A white-space character after `p + t + q` joins the white-space suffix `q`. */
  lemma AppendSpace(c: char, p: string, t: string, q: string)
    requires IsJsSpace(c) && AllSpace(q)
    ensures (p + t + q) + [c] == p + t + (q + [c])
    ensures AllSpace(q + [c])
  {
    AllSpaceConcat(q, [c]);
  }

  /** The trimmed string is what lies between a white-space prefix and a white-space suffix. */
  lemma {:induction false} TrimSplits(s: string) returns (pre: string, post: string)
    ensures s == pre + Trim(s) + post
    ensures AllSpace(pre) && AllSpace(post)
  {
    if s != [] && IsJsSpace(s[0]) {
      var rest := s[1..];
      var p, q := TrimSplits(rest);
      assert s == [s[0]] + rest;
      PrependSpace(s[0], p, Trim(rest), q);
      pre, post := [s[0]] + p, q;
    } else if s != [] && IsJsSpace(s[|s| - 1]) {
      var rest := s[..|s| - 1];
      var p, q := TrimSplits(rest);
      assert s == rest + [s[|s| - 1]];
      AppendSpace(s[|s| - 1], p, Trim(rest), q);
      pre, post := p, q + [s[|s| - 1]];
    } else {
      pre, post := [], [];
      assert s == [] + s + [];
    }
  }

  /**
   * Reference characterisation of `trim`: white space around a core that
   * neither starts nor ends with white space is removed, and the core is kept.
   */
  lemma {:induction false} TrimPadded(pre: string, core: string, post: string)
    requires AllSpace(pre) && AllSpace(post)
    requires core == [] || (!IsJsSpace(core[0]) && !IsJsSpace(core[|core| - 1]))
    ensures Trim(pre + core + post) == core
    decreases |pre| + |post|
  {
    var s := pre + core + post;
    if pre != [] {
      assert s[0] == pre[0];
      assert s[1..] == pre[1..] + core + post;
      TrimPadded(pre[1..], core, post);
    } else if core == [] && post != [] {
      assert s == post && s[0] == post[0];
      assert s[1..] == [] + [] + post[1..];
      TrimPadded([], [], post[1..]);
    } else if post != [] {
      assert s == core + post && s[0] == core[0];
      assert s[|s| - 1] == post[|post| - 1];
      assert s[..|s| - 1] == [] + core + post[..|post| - 1];
      TrimPadded([], core, post[..|post| - 1]);
    } else {
      assert s == core;
    }
  }

  /** Trimming twice is trimming once. */
  lemma TrimIdempotent(s: string)
    ensures Trim(Trim(s)) == Trim(s)
  {
    TrimEnds(s);
    var t := Trim(s);
    assert [] + t + [] == t;
    TrimPadded([], t, []);
  }

  /** `s.split(sep)`: the pieces between occurrences of `sep`, at least one. */
  function Split(s: string, sep: char): (pieces: seq<string>)
    ensures |pieces| >= 1
  {
    if s == [] then [[]]
    else
      var rest := Split(s[1..], sep);
      if s[0] == sep then [[]] + rest else [[s[0]] + rest[0]] + rest[1..]
  }

  /** No piece contains the separator. */
  lemma {:induction false} SplitPiecesSeparatorFree(s: string, sep: char)
    ensures forall i :: 0 <= i < |Split(s, sep)| ==> sep !in Split(s, sep)[i]
  {
    if s != [] {
      SplitPiecesSeparatorFree(s[1..], sep);
      var rest := Split(s[1..], sep);
      if s[0] != sep {
        assert sep !in [s[0]] + rest[0];
      }
    }
  }

  /** `pieces.join(sep)`. */
  function Join(pieces: seq<string>, sep: char): string
    requires |pieces| >= 1
  {
    if |pieces| == 1 then pieces[0] else pieces[0] + [sep] + Join(pieces[1..], sep)
  }

  /** Joining after an empty first piece puts a separator in front. */
  lemma JoinEmptyHead(rest: seq<string>, sep: char)
    requires |rest| >= 1
    ensures Join([[]] + rest, sep) == [sep] + Join(rest, sep)
  {
    assert ([[]] + rest)[1..] == rest;
  }

  /** Joining after a character is put in front of the first piece puts that character in front. */
  lemma JoinConsHead(c: char, rest: seq<string>, sep: char)
    requires |rest| >= 1
    ensures Join([[c] + rest[0]] + rest[1..], sep) == [c] + Join(rest, sep)
  {
    var pieces := [[c] + rest[0]] + rest[1..];
    if |rest| > 1 {
      assert pieces[1..] == rest[1..];
      assert Join(pieces, sep) == ([c] + rest[0]) + [sep] + Join(rest[1..], sep);
    }
  }

  /** Joining the pieces of a split gives back the original string. */
  lemma {:induction false} SplitJoin(s: string, sep: char)
    ensures Join(Split(s, sep), sep) == s
  {
    if s != [] {
      SplitJoin(s[1..], sep);
      var rest := Split(s[1..], sep);
      assert s == [s[0]] + s[1..];
      if s[0] == sep {
        JoinEmptyHead(rest, sep);
      } else {
        JoinConsHead(s[0], rest, sep);
      }
    }
  }

  lemma {:induction false} SplitPrefix(p: string, t: string, sep: char)
    requires sep !in p
    ensures Split(p + t, sep) == [p + Split(t, sep)[0]] + Split(t, sep)[1..]
  {
    if p == [] {
      assert p + t == t;
      assert p + Split(t, sep)[0] == Split(t, sep)[0];
      assert Split(t, sep) == [Split(t, sep)[0]] + Split(t, sep)[1..];
    } else {
      assert (p + t)[1..] == p[1..] + t;
      SplitPrefix(p[1..], t, sep);
      assert [p[0]] + (p[1..] + Split(t, sep)[0]) == p + Split(t, sep)[0];
    }
  }

  /** Splitting a join of separator-free pieces gives back the pieces. */
  lemma {:induction false} JoinSplit(pieces: seq<string>, sep: char)
    requires |pieces| >= 1
    requires forall p :: p in pieces ==> sep !in p
    ensures Split(Join(pieces, sep), sep) == pieces
  {
    var p0 := pieces[0];
    assert p0 in pieces;
    if |pieces| == 1 {
      assert p0 + [] == p0;
      SplitPrefix(p0, [], sep);
    } else {
      var rest := pieces[1..];
      assert forall p :: p in rest ==> p in pieces;
      JoinSplit(rest, sep);
      var j := Join(rest, sep);
      assert p0 + [sep] + j == p0 + ([sep] + j);
      SplitPrefix(p0, [sep] + j, sep);
      assert ([sep] + j)[1..] == j;
      assert Split([sep] + j, sep) == [[]] + rest;
      assert p0 + [] == p0;
    }
  }
}
