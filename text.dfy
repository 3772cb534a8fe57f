/**
 * The two JavaScript string built-ins the exclude list is read with:
 * `String.prototype.split` with a one-character separator and
 * `String.prototype.trim`.
 */
module Text {

  /**
   * The code points `trim` removes: ECMAScript's WhiteSpace (tab, vertical tab,
   * form feed, space, no-break space, byte-order mark and the Unicode space
   * separators) and LineTerminator (line feed, carriage return, line and
   * paragraph separators).
   */
  const WhitespaceCodes: set<int> :=
    {0x09, 0x0A, 0x0B, 0x0C, 0x0D, 0x20, 0xA0, 0x1680,
     0x2000, 0x2001, 0x2002, 0x2003, 0x2004, 0x2005, 0x2006, 0x2007, 0x2008, 0x2009, 0x200A,
     0x2028, 0x2029, 0x202F, 0x205F, 0x3000, 0xFEFF}

  predicate IsWhitespace(c: char) {
    c as int in WhitespaceCodes
  }

  predicate AllWhitespace(s: string) {
    forall k :: 0 <= k < |s| ==> IsWhitespace(s[k])
  }

  /** Neither end of `s` is whitespace (vacuously true of the empty string). */
  predicate Trimmed(s: string) {
    s == [] || (!IsWhitespace(s[0]) && !IsWhitespace(s[|s| - 1]))
  }

  // ---------------------------------------------------------------------------
  // split
  // ---------------------------------------------------------------------------

  /**
   * `s.split(sep)`: the pieces between consecutive separators. There is one
   * piece more than there are separators, so `"".split(",")` is `[""]` and
   * `"a,,b".split(",")` is `["a", "", "b"]`.
   */
  function Split(s: string, sep: char): (pieces: seq<string>)
    ensures |pieces| == multiset(s)[sep] + 1
    ensures forall i :: 0 <= i < |pieces| ==> sep !in pieces[i]
    decreases |s|
  {
    if s == [] then [""]
    else
      var rest := Split(s[1..], sep);
      assert s == [s[0]] + s[1..];
      if s[0] == sep then [""] + rest
      else [[s[0]] + rest[0]] + rest[1..]
  }

  /** The pieces written back out with `sep` between neighbours: `pieces.join(sep)`. */
  function Join(pieces: seq<string>, sep: char): string
    decreases |pieces|
  {
    if |pieces| == 0 then ""
    else if |pieces| == 1 then pieces[0]
    else pieces[0] + [sep] + Join(pieces[1..], sep)
  }

  /** Joining the pieces of a split gives back the original string. */
  lemma {:induction false} JoinSplit(s: string, sep: char)
    ensures Join(Split(s, sep), sep) == s
    decreases |s|
  {
    if s != [] {
      var c, u := s[0], s[1..];
      assert s == [c] + u;
      JoinSplit(u, sep);
      if c == sep {
        SplitConsSeparator(u, sep);
        JoinAfterEmpty(Split(u, sep), sep);
      } else {
        SplitCons(c, u, sep);
        JoinGluedHead(c, Split(u, sep), sep);
      }
    }
  }

  /** One step of `Split`: a leading separator closes an empty first piece. */
  lemma SplitConsSeparator(s: string, sep: char)
    ensures Split([sep] + s, sep) == [""] + Split(s, sep)
  {
    assert ([sep] + s)[1..] == s;
  }

  /** An empty first piece contributes only its separator to the join. */
  lemma JoinAfterEmpty(rest: seq<string>, sep: char)
    requires |rest| >= 1
    ensures Join([""] + rest, sep) == [sep] + Join(rest, sep)
  {
    assert ([""] + rest)[1..] == rest;
    assert "" + [sep] == [sep];
  }

  /** Gluing a character onto the first piece puts it in front of the join. */
  lemma JoinGluedHead(c: char, rest: seq<string>, sep: char)
    requires |rest| >= 1
    ensures Join([[c] + rest[0]] + rest[1..], sep) == [c] + Join(rest, sep)
  {
    var ps := [[c] + rest[0]] + rest[1..];
    assert ps[0] == [c] + rest[0];
    if |rest| > 1 {
      assert ps[1..] == rest[1..];
      calc {
        Join(ps, sep);
        ps[0] + [sep] + Join(ps[1..], sep);
        [c] + rest[0] + [sep] + Join(rest[1..], sep);
        [c] + (rest[0] + [sep] + Join(rest[1..], sep));
        [c] + Join(rest, sep);
      }
    }
  }

  /** One step of `Split`: a leading non-separator joins the first piece. */
  lemma SplitCons(c: char, s: string, sep: char)
    requires c != sep
    ensures Split([c] + s, sep) == [[c] + Split(s, sep)[0]] + Split(s, sep)[1..]
  {
    assert ([c] + s)[1..] == s;
  }

  /** Gluing `c` onto the first of the pieces `[u + w] + rest`. */
  lemma GlueOntoFirst(c: char, u: string, w: string, pieces: seq<string>, rest: seq<string>)
    requires pieces == [u + w] + rest
    ensures [[c] + pieces[0]] + pieces[1..] == [[c] + u + w] + rest
  {
    assert pieces[0] == u + w && pieces[1..] == rest;
    assert [c] + (u + w) == [c] + u + w;
  }

  /** Splitting a string that starts with a separator-free prefix `p` glues `p` onto the first piece. */
  lemma {:induction false} SplitAfterPlainPrefix(p: string, t: string, sep: char)
    requires sep !in p
    ensures Split(p + t, sep) == [p + Split(t, sep)[0]] + Split(t, sep)[1..]
    decreases |p|
  {
    if p == [] {
      var st := Split(t, sep);
      assert p + t == t;
      assert p + st[0] == st[0];
      assert st == [st[0]] + st[1..];
    } else {
      var c, u := p[0], p[1..];
      assert p == [c] + u;
      assert p + t == [c] + (u + t);
      SplitAfterPlainPrefix(u, t, sep);
      SplitCons(c, u + t, sep);
      GlueOntoFirst(c, u, Split(t, sep)[0], Split(u + t, sep), Split(t, sep)[1..]);
    }
  }

  /** Splitting joined separator-free pieces gives back exactly those pieces, in order. */
  lemma {:induction false} SplitJoin(pieces: seq<string>, sep: char)
    requires |pieces| >= 1
    requires forall i :: 0 <= i < |pieces| ==> sep !in pieces[i]
    ensures Split(Join(pieces, sep), sep) == pieces
    decreases |pieces|
  {
    var p := pieces[0];
    if |pieces| == 1 {
      SplitAfterPlainPrefix(p, "", sep);
      assert p + "" == p;
    } else {
      var u := Join(pieces[1..], sep);
      SplitJoin(pieces[1..], sep);
      assert Split([sep] + u, sep) == [""] + Split(u, sep);
      SplitAfterPlainPrefix(p, [sep] + u, sep);
      assert p + [sep] + u == p + ([sep] + u);
      assert p + "" == p;
    }
  }

  // ---------------------------------------------------------------------------
  // trim
  // ---------------------------------------------------------------------------

  /** The number of whitespace characters `s` starts with. */
  function LeadingWhitespace(s: string): (n: nat)
    ensures n <= |s| && AllWhitespace(s[..n])
    ensures n < |s| ==> !IsWhitespace(s[n])
    decreases |s|
  {
    if s != [] && IsWhitespace(s[0]) then
      var m := LeadingWhitespace(s[1..]);
      assert s[..1 + m] == [s[0]] + s[1..][..m];
      1 + m
    else 0
  }

  /** The number of whitespace characters `s` ends with. */
  function TrailingWhitespace(s: string): (n: nat)
    ensures n <= |s| && AllWhitespace(s[|s| - n..])
    ensures n < |s| ==> !IsWhitespace(s[|s| - n - 1])
    decreases |s|
  {
    if s != [] && IsWhitespace(s[|s| - 1]) then
      var t := s[..|s| - 1];
      var m := TrailingWhitespace(t);
      assert s[|s| - (1 + m)..] == t[|t| - m..] + [s[|s| - 1]];
      1 + m
    else 0
  }

  /** `r` is the stretch of `s` at `i` with only whitespace on either side of it. */
  predicate StretchAt(s: string, r: string, i: int) {
    0 <= i <= |s| - |r| && r == s[i..i + |r|] && AllWhitespace(s[..i]) && AllWhitespace(s[i + |r|..])
  }

  /**
   * `s.trim()`: the stretch of `s` that neither begins nor ends with
   * whitespace, once the whitespace on both sides is dropped.
   */
  function Trim(s: string): (r: string)
    ensures Trimmed(r)
    ensures exists i :: StretchAt(s, r, i)
  {
    var i := LeadingWhitespace(s);
    var j := TrailingWhitespace(s[i..]);
    TrimCuts(s, i, j);
    s[i..|s| - j]
  }

  /** Cutting the leading whitespace, then the trailing whitespace of the rest, leaves a trimmed stretch. */
  lemma TrimCuts(s: string, i: nat, j: nat)
    requires i <= |s| && AllWhitespace(s[..i]) && (i < |s| ==> !IsWhitespace(s[i]))
    requires j <= |s| - i && AllWhitespace(s[i..][|s| - i - j..])
    requires j < |s| - i ==> !IsWhitespace(s[i..][|s| - i - j - 1])
    ensures Trimmed(s[i..|s| - j]) && StretchAt(s, s[i..|s| - j], i)
  {
    var r := s[i..|s| - j];
    assert s[i..][|s| - i - j..] == s[i + |r|..];
    if r != [] {
      assert r[0] == s[i];
      assert r[|r| - 1] == s[i..][|s| - i - j - 1];
    }
  }

  /** Leading whitespace in front of a stretch that starts with a non-space is exactly what is cut at the start. */
  lemma {:induction false} LeadingWhitespaceUnique(lead: string, rest: string)
    requires AllWhitespace(lead)
    requires rest == [] || !IsWhitespace(rest[0])
    ensures LeadingWhitespace(lead + rest) == |lead|
    decreases |lead|
  {
    if lead == [] {
      assert lead + rest == rest;
    } else {
      assert (lead + rest)[0] == lead[0];
      assert (lead + rest)[1..] == lead[1..] + rest;
      LeadingWhitespaceUnique(lead[1..], rest);
    }
  }

  /** Trailing whitespace behind a stretch that ends with a non-space is exactly what is cut at the end. */
  lemma {:induction false} TrailingWhitespaceUnique(rest: string, trail: string)
    requires AllWhitespace(trail)
    requires rest == [] || !IsWhitespace(rest[|rest| - 1])
    ensures TrailingWhitespace(rest + trail) == |trail|
    decreases |trail|
  {
    if trail == [] {
      assert rest + trail == rest;
    } else {
      var s := rest + trail;
      assert s[|s| - 1] == trail[|trail| - 1];
      assert s[..|s| - 1] == rest + trail[..|trail| - 1];
      TrailingWhitespaceUnique(rest, trail[..|trail| - 1]);
    }
  }

  /** Whatever a string looks like once trimmed, that is the only way to trim it. */
  lemma TrimUnique(lead: string, middle: string, trail: string)
    requires AllWhitespace(lead) && AllWhitespace(trail) && Trimmed(middle)
    ensures Trim(lead + middle + trail) == middle
  {
    var s := lead + middle + trail;
    if middle == [] {
      assert s == (lead + trail) + "";
      LeadingWhitespaceUnique(lead + trail, "");
      assert s[|s|..] == "";
    } else {
      assert s == lead + (middle + trail);
      LeadingWhitespaceUnique(lead, middle + trail);
      var i := |lead|;
      assert s[i..] == middle + trail;
      TrailingWhitespaceUnique(middle, trail);
      assert s[i..|s| - |trail|] == middle;
    }
  }

  /** A string that is already trimmed is left alone by `trim`. */
  lemma TrimmedFixed(m: string)
    requires Trimmed(m)
    ensures Trim(m) == m
  {
    assert LeadingWhitespace(m) == 0;
    assert m[0..] == m;
    assert TrailingWhitespace(m) == 0;
  }

  /** Trimming twice is trimming once. */
  lemma TrimIdempotent(s: string)
    ensures Trim(Trim(s)) == Trim(s)
  {
    TrimmedFixed(Trim(s));
  }
}
