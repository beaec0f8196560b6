/** The tokenizer of the run-plan compiler: `getVectorFromString`.

    The loop keeps three indices into the line: `c` (next character), `i` (start of the current
    element) and `j` (one past its last character that is not white space).  What it computes is
    stated by two functions that do not mention them: cut the line at the delimiters (Split) and
    trim each piece (Trim). */
module Tokenizer {

  /** The line cut at every character of `d`; one piece more than there are cuts. */
  function Split(s: string, d: set<char>): (r: seq<string>)
    ensures |r| > 0
  {
    if s == "" then [""]
    else
      var r, ch := Split(s[..|s| - 1], d), s[|s| - 1];
      if ch in d then r + [""] else Extend(r, [ch])
  }

  /** `p` added to the last piece. */
  function Extend(r: seq<string>, p: string): seq<string>
    requires |r| > 0
  {
    r[..|r| - 1] + [r[|r| - 1] + p]
  }

  /** The characters of `s` that belong to `d`, in order. */
  function Cuts(s: string, d: set<char>): (r: seq<char>)
  {
    if s == "" then []
    else
      var r, ch := Cuts(s[..|s| - 1], d), s[|s| - 1];
      if ch in d then r + [ch] else r
  }

  /** The pieces glued together again with the cuts between them. */
  function Glue(pieces: seq<string>, cuts: seq<char>): string
    requires |pieces| == |cuts| + 1
  {
    if cuts == [] then pieces[0]
    else Glue(pieces[..|cuts|], cuts[..|cuts| - 1]) + [cuts[|cuts| - 1]] + pieces[|cuts|]
  }

  predicate FreeOf(s: string, d: set<char>) {
    forall k | 0 <= k < |s| :: s[k] !in d
  }

  function TrimLeft(s: string, white: set<char>): string {
    if s != "" && s[0] in white then TrimLeft(s[1..], white) else s
  }

  function TrimRight(s: string, white: set<char>): string {
    if s != "" && s[|s| - 1] in white then TrimRight(s[..|s| - 1], white) else s
  }

  function Trim(s: string, white: set<char>): string {
    TrimRight(TrimLeft(s, white), white)
  }

  function TrimAll(pieces: seq<string>, white: set<char>): (r: seq<string>)
    ensures |r| == |pieces|
  {
    if pieces == [] then []
    else TrimAll(pieces[..|pieces| - 1], white) + [Trim(pieces[|pieces| - 1], white)]
  }

  // ----- What Split, Cuts and Trim mean -----

  lemma {:induction false} SplitCountsCuts(s: string, d: set<char>)
    ensures |Split(s, d)| == |Cuts(s, d)| + 1
  {
    if s != "" { SplitCountsCuts(s[..|s| - 1], d); }
  }

  /** Cutting loses nothing: gluing gives the line back, no piece contains a delimiter and every cut
      is one. */
  lemma {:induction false} SplitGlues(s: string, d: set<char>)
    ensures |Split(s, d)| == |Cuts(s, d)| + 1
    ensures Glue(Split(s, d), Cuts(s, d)) == s
    ensures forall k | 0 <= k < |Split(s, d)| :: FreeOf(Split(s, d)[k], d)
    ensures forall k | 0 <= k < |Cuts(s, d)| :: Cuts(s, d)[k] in d
  {
    if s != "" {
      var t, ch := s[..|s| - 1], s[|s| - 1];
      SplitGlues(t, d);
      var r, cs := Split(t, d), Cuts(t, d);
      assert s == t + [ch];
      if ch in d {
        GlueCut(r, cs, ch);
        hide Glue;
      } else {
        GlueExtended(r, cs, [ch]);
        hide Glue;
      }
    }
  }

  lemma GlueCut(r: seq<string>, cs: seq<char>, ch: char)
    requires |r| == |cs| + 1
    ensures Glue(r + [""], cs + [ch]) == Glue(r, cs) + [ch]
  {
    assert (cs + [ch])[..|cs|] == cs && (r + [""])[..|r|] == r;
    assert Glue(r, cs) + [ch] + "" == Glue(r, cs) + [ch];
  }

  lemma GlueExtended(r: seq<string>, cs: seq<char>, p: string)
    requires |r| == |cs| + 1
    ensures Glue(Extend(r, p), cs) == Glue(r, cs) + p
  {
    var r' := Extend(r, p);
    assert r'[..|cs|] == r[..|cs|];
    if cs != [] {
      var g := Glue(r[..|cs|], cs[..|cs| - 1]) + [cs[|cs| - 1]];
      assert Glue(r', cs) == g + (r[|cs|] + p) == (g + r[|cs|]) + p;
    }
  }

  /** ... and the cut is the only one: delimiter-free pieces glued with delimiters are found again. */
  lemma {:induction false} GlueSplits(pieces: seq<string>, cuts: seq<char>, d: set<char>)
    requires |pieces| == |cuts| + 1
    requires forall k | 0 <= k < |pieces| :: FreeOf(pieces[k], d)
    requires forall k | 0 <= k < |cuts| :: cuts[k] in d
    ensures Split(Glue(pieces, cuts), d) == pieces
    ensures Cuts(Glue(pieces, cuts), d) == cuts
  {
    var last := |cuts|;
    if cuts == [] {
      SplitAppend("", pieces[0], d);
      assert "" + pieces[0] == pieces[0] && pieces == [pieces[0]];
      assert Split("", d) == [""] && Extend([""], pieces[0]) == [pieces[0]];
    } else {
      GlueSplits(pieces[..last], cuts[..last - 1], d);
      var g := Glue(pieces[..last], cuts[..last - 1]);
      assert Glue(pieces, cuts) == g + [cuts[last - 1]] + pieces[last];
      assert pieces == pieces[..last] + [pieces[last]];
      assert cuts == cuts[..last - 1] + [cuts[last - 1]];
      hide Split, Cuts, Glue;
      OneMorePiece(g, cuts[last - 1], pieces[last], d);
    }
  }

  lemma OneMorePiece(g: string, ch: char, piece: string, d: set<char>)
    requires ch in d && FreeOf(piece, d)
    ensures Split(g + [ch] + piece, d) == Split(g, d) + [piece]
    ensures Cuts(g + [ch] + piece, d) == Cuts(g, d) + [ch]
  {
    SplitSnoc(g, ch, d);
    SplitAppend(g + [ch], piece, d);
    assert "" + piece == piece;
  }

  lemma {:induction false} SplitAppend(s: string, p: string, d: set<char>)
    requires FreeOf(p, d)
    ensures Split(s + p, d) == Extend(Split(s, d), p)
    ensures Cuts(s + p, d) == Cuts(s, d)
    decreases |p|
  {
    if p == "" {
      assert s + p == s;
      var r := Split(s, d);
      assert r[|r| - 1] + p == r[|r| - 1];
    } else {
      var ch, q := p[0], p[1..];
      assert s + p == s + [ch] + q;
      SplitAppend(s + [ch], q, d);
      SplitSnoc(s, ch, d);
      ExtendTwice(Split(s, d), [ch], q);
      assert [ch] + q == p;
    }
  }

  lemma SplitSnoc(s: string, ch: char, d: set<char>)
    ensures Split(s + [ch], d) == if ch in d then Split(s, d) + [""] else Extend(Split(s, d), [ch])
    ensures Cuts(s + [ch], d) == if ch in d then Cuts(s, d) + [ch] else Cuts(s, d)
  {
    assert (s + [ch])[..|s|] == s;
  }

  lemma ExtendTwice(r: seq<string>, p: string, q: string)
    requires |r| > 0
    ensures Extend(Extend(r, p), q) == Extend(r, p + q)
  {
    assert r[|r| - 1] + p + q == r[|r| - 1] + (p + q);
  }

  /** Trimming removes white space at both ends only: what is left is an infix whose surroundings are
      white and whose own ends are not. */
  lemma {:induction false} TrimIsInfix(s: string, white: set<char>) returns (left: string, right: string)
    ensures s == left + Trim(s, white) + right
    ensures forall k | 0 <= k < |left| :: left[k] in white
    ensures forall k | 0 <= k < |right| :: right[k] in white
    ensures var t := Trim(s, white); t != "" ==> t[0] !in white && t[|t| - 1] !in white
  {
    left := TrimLeftRemoves(s, white);
    right := TrimRightRemoves(TrimLeft(s, white), white);
    assert s == left + (Trim(s, white) + right) == left + Trim(s, white) + right;
  }

  lemma {:induction false} TrimLeftRemoves(s: string, white: set<char>) returns (left: string)
    ensures s == left + TrimLeft(s, white)
    ensures forall k | 0 <= k < |left| :: left[k] in white
    ensures var t := TrimLeft(s, white); t != "" ==> t[0] !in white
  {
    left := "";
    if s != "" && s[0] in white {
      var rest := TrimLeftRemoves(s[1..], white);
      left := [s[0]] + rest;
    }
  }

  lemma {:induction false} TrimRightRemoves(s: string, white: set<char>) returns (right: string)
    ensures s == TrimRight(s, white) + right
    ensures forall k | 0 <= k < |right| :: right[k] in white
    ensures var t := TrimRight(s, white); t != "" ==> t[|t| - 1] !in white && t[0] == s[0]
  {
    right := "";
    if s != "" && s[|s| - 1] in white {
      var rest := TrimRightRemoves(s[..|s| - 1], white);
      right := rest + [s[|s| - 1]];
    }
  }

  // ----- Trim, one character at a time (used by the loop) -----

  lemma {:induction false} TrimOfWhite(s: string, white: set<char>)
    requires forall k | 0 <= k < |s| :: s[k] in white
    ensures TrimLeft(s, white) == "" && Trim(s, white) == ""
  {
    if s != "" { TrimOfWhite(s[1..], white); }
  }

  lemma {:induction false} TrimLeftAppend(s: string, ch: char, white: set<char>)
    ensures TrimLeft(s, white) != "" || ch !in white ==>
              TrimLeft(s + [ch], white) == TrimLeft(s, white) + [ch]
    ensures TrimLeft(s, white) == "" ==> forall k | 0 <= k < |s| :: s[k] in white
  {
    if s == "" {
      assert s + [ch] == [ch] && [ch][1..] == "";
    } else if s[0] in white {
      TrimLeftAppend(s[1..], ch, white);
      assert (s + [ch])[1..] == s[1..] + [ch];
    }
  }

  /** The loop's view of the piece read so far: its leading white space is p[..n], and trimmed it is p[n..m]. */
  predicate Scanned(p: string, white: set<char>, n: nat, m: nat) {
    && n <= m <= |p|
    && TrimLeft(p, white) == p[n..]
    && Trim(p, white) == p[n..m]
    && (n == m ==> n == |p|)
  }

  lemma ScanStep(p: string, ch: char, white: set<char>, n: nat, m: nat)
    requires Scanned(p, white, n, m)
    ensures n <= m <= |p| && (n == m ==> n == |p|) && Trim(p, white) == p[n..m]
    ensures ch in white && n == m ==> Scanned(p + [ch], white, n + 1, m + 1)
    ensures ch in white && n != m ==> Scanned(p + [ch], white, n, m)
    ensures ch !in white ==> Scanned(p + [ch], white, n, |p| + 1)
  {
    var q := p + [ch];
    TrimLeftAppend(p, ch, white);
    if ch in white && n == m {
      TrimOfWhite(q, white);
      assert q[n + 1..] == "";
    } else {
      assert q[n..] == p[n..] + [ch];
      assert q[n..][..|p| - n] == p[n..];
      assert q[n..m] == p[n..m];
    }
  }

  // ----- The loop -----

  /** What the loop knows after reading `text`: `pieces` are closed, `piece` is open. */
  ghost predicate Reached(text: string, delimiter: set<char>, white: set<char>, pieces: seq<string>, piece: string,
                          list: seq<string>, delimiters: seq<char>, last: char)
  {
    && Split(text, delimiter - white) == pieces + [piece]
    && list == TrimAll(pieces, white)
    && |delimiters| == (if list == [] then 0 else |list| - 1)
    && (delimiter !! white ==> Cuts(text, delimiter) == delimiters + LastCut(list, last))
  }

  /** The delimiter that closed the last element waits until the next element is stored. */
  function LastCut(list: seq<string>, last: char): seq<char> {
    if list == [] then [] else [last]
  }

  /** A character that closes no piece: white space, or part of an element. */
  lemma ReachedInside(text: string, ch: char, delimiter: set<char>, white: set<char>, pieces: seq<string>,
                      piece: string, list: seq<string>, delimiters: seq<char>, last: char, last': char)
    requires Reached(text, delimiter, white, pieces, piece, list, delimiters, last)
    requires ch in white || ch !in delimiter
    requires ch in delimiter || last' == last
    ensures Reached(text + [ch], delimiter, white, pieces, piece + [ch], list, delimiters, last')
  {
    SplitSnoc(text, ch, delimiter - white);
    SplitSnoc(text, ch, delimiter);
    assert Extend(pieces + [piece], [ch]) == pieces + [piece + [ch]];
  }

  /** A delimiter closes the piece. */
  lemma ReachedCut(text: string, ch: char, delimiter: set<char>, white: set<char>, pieces: seq<string>, piece: string,
                   list: seq<string>, delimiters: seq<char>, last: char)
    requires Reached(text, delimiter, white, pieces, piece, list, delimiters, last)
    requires ch !in white && ch in delimiter
    ensures Reached(text + [ch], delimiter, white, pieces + [piece], "",
                    list + [Trim(piece, white)], delimiters + LastCut(list, last), ch)
  {
    SplitSnoc(text, ch, delimiter - white);
    SplitSnoc(text, ch, delimiter);
    assert (pieces + [piece])[..|pieces|] == pieces;
  }

  lemma SliceSnoc(s: string, a: nat, c: nat)
    requires a <= c < |s|
    ensures s[a..c + 1] == s[a..c] + [s[c]] && s[..c + 1] == s[..c] + [s[c]]
  {
  }

  lemma SliceOfSlice(s: string, a: nat, c: nat, i: nat, j: nat)
    requires a <= i <= j <= c <= |s|
    ensures s[a..c][i - a..j - a] == s[i..j]
  {
    var t := s[a..c];
    forall k | 0 <= k < j - i ensures t[i - a..j - a][k] == s[i..j][k] {
      assert t[i - a..j - a][k] == t[i - a + k] == s[i + k];
    }
  }

  /** getVectorFromString: the elements of `s`, and the delimiters between them.

      A character that is both white space and delimiter counts as white space when the line is cut
      but is still remembered as the last delimiter; no caller passes such a set, and the delimiter
      list is stated for disjoint sets. */
  method GetVectorFromString(s: string, delimiter: set<char>, whitespace: set<char>)
    returns (list: seq<string>, delimiters: seq<char>)
    ensures list == TrimAll(Split(s, delimiter - whitespace), whitespace)
    ensures delimiter !! whitespace ==> delimiters == Cuts(s, delimiter)
    // so the final comparison of the two sizes can never throw
    ensures |list| == |delimiters| + 1
  {
    hide Reached, Scanned, Trim, Split, TrimAll, Cuts;
    var i, j, c := 0, 0, 0;
    var lastDelimiter := '\0';
    ReachedStart(delimiter, whitespace, lastDelimiter);
    list, delimiters := [], [];
    ghost var start, pieces, piece, text := 0, [], "", "";
    while c < |s|
      invariant 0 <= start <= i <= j <= c <= |s| && text == s[..c] && piece == s[start..c]
      invariant Scanned(piece, whitespace, i - start, j - start)
      invariant Reached(text, delimiter, whitespace, pieces, piece, list, delimiters, lastDelimiter)
    {
      var ch := s[c];
      SliceSnoc(s, start, c);
      ScanStep(piece, ch, whitespace, i - start, j - start);
      var isDelimiter := ch in delimiter;
      text := text + [ch];
      if ch in whitespace && i == j {
        ReachedInside(s[..c], ch, delimiter, whitespace, pieces, piece, list, delimiters, lastDelimiter,
                      if isDelimiter then ch else lastDelimiter);
        piece := piece + [ch];
        i, j := i + 1, j + 1;
      } else if ch in whitespace && i != j {
        ReachedInside(s[..c], ch, delimiter, whitespace, pieces, piece, list, delimiters, lastDelimiter,
                      if isDelimiter then ch else lastDelimiter);
        piece := piece + [ch];
        // trailing white space, perhaps: i and j stay
      } else if isDelimiter {
        ReachedCut(s[..c], ch, delimiter, whitespace, pieces, piece, list, delimiters, lastDelimiter);
        SliceOfSlice(s, start, c, i, j);
        pieces, piece, start := pieces + [piece], "", c + 1;
        if |list| > 0 { delimiters := delimiters + [lastDelimiter]; }
        list := list + [s[i..j]];
        i, j := c + 1, c + 1;
      } else {
        ReachedInside(s[..c], ch, delimiter, whitespace, pieces, piece, list, delimiters, lastDelimiter, lastDelimiter);
        piece := piece + [ch];
        j := c + 1;
      }
      if isDelimiter { lastDelimiter := ch; }
      c := c + 1;
    }
    SliceOfSlice(s, start, c, i, j);
    assert text == s;
    ReachedEnd(text, delimiter, whitespace, pieces, piece, list, delimiters, lastDelimiter, i - start, j - start);
    if |list| > 0 { delimiters := delimiters + [lastDelimiter]; }
    list := list + [s[i..j]];
  }

  lemma ReachedStart(delimiter: set<char>, white: set<char>, last: char)
    ensures Scanned("", white, 0, 0)
    ensures Reached("", delimiter, white, [], "", [], [], last)
  {
  }

  /** The end of the line closes the last piece. */
  lemma ReachedEnd(text: string, delimiter: set<char>, white: set<char>, pieces: seq<string>, piece: string,
                   list: seq<string>, delimiters: seq<char>, last: char, n: nat, m: nat)
    requires Reached(text, delimiter, white, pieces, piece, list, delimiters, last)
    requires Scanned(piece, white, n, m)
    ensures n <= m <= |piece|
    ensures list + [piece[n..m]] == TrimAll(Split(text, delimiter - white), white)
    ensures delimiter !! white ==> Cuts(text, delimiter) == delimiters + LastCut(list, last)
    ensures |delimiters| == if list == [] then 0 else |list| - 1
  {
    assert (pieces + [piece])[..|pieces|] == pieces;
  }
}
