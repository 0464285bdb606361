/** String operations of JavaScript's `String.prototype` that the modelled code
    uses, written out over `seq<char>`: `trim`, `includes`, `startsWith`,
    `split`/`join` with a string separator, ASCII `toLowerCase`, and number
    formatting for non-negative integers. */
module Text {

  /** ECMAScript WhiteSpace and LineTerminator code points: what the regular
      expression class `\s` matches and what `trim` removes. */
  predicate IsSpace(c: char)
  {
    || c == '\t' || c == '\n' || c == '\U{B}' || c == '\U{C}' || c == '\r' || c == ' '
    || c == '\U{A0}' || c == '\U{1680}' || ('\U{2000}' <= c <= '\U{200A}')
    || c == '\U{2028}' || c == '\U{2029}' || c == '\U{202F}' || c == '\U{205F}'
    || c == '\U{3000}' || c == '\U{FEFF}'
  }

  /** The regular expression class `\w` without the `u` flag. */
  predicate IsWordChar(c: char)
  {
    ('a' <= c <= 'z') || ('A' <= c <= 'Z') || ('0' <= c <= '9') || c == '_'
  }

  predicate AllSpace(s: string)
  {
    forall i :: 0 <= i < |s| ==> IsSpace(s[i])
  }

  /** Neither end of `s` is whitespace: what `trim` always produces. */
  predicate IsTrimmed(s: string)
  {
    s == [] || (!IsSpace(s[0]) && !IsSpace(s[|s| - 1]))
  }

  /** The end of the run of whitespace in `s` that starts at `i`. */
  function SpaceRunEnd(s: string, i: nat): (j: nat)
    requires i <= |s|
    ensures i <= j <= |s|
    ensures j < |s| ==> !IsSpace(s[j])
    decreases |s| - i
  {
    if i < |s| && IsSpace(s[i]) then SpaceRunEnd(s, i + 1) else i
  }

  /** The start of the run of whitespace in `s` that ends at `j`. */
  function SpaceRunStart(s: string, j: nat): (i: nat)
    requires j <= |s|
    ensures i <= j
    ensures i > 0 ==> !IsSpace(s[i - 1])
    decreases j
  {
    if j > 0 && IsSpace(s[j - 1]) then SpaceRunStart(s, j - 1) else j
  }

  /** Removes leading whitespace. */
  function TrimStart(s: string): (r: string)
    ensures |r| <= |s| && r == s[|s| - |r|..]
    ensures r == [] || !IsSpace(r[0])
  {
    s[SpaceRunEnd(s, 0)..]
  }

  /** Removes trailing whitespace. */
  function TrimEnd(s: string): (r: string)
    ensures |r| <= |s| && r == s[..|r|]
    ensures r == [] || !IsSpace(r[|r| - 1])
  {
    s[..SpaceRunStart(s, |s|)]
  }

  /** The run found by `SpaceRunEnd` is whitespace. */
  lemma {:induction false} SpaceRunEndIsSpace(s: string, i: nat)
    requires i <= |s|
    ensures AllSpace(s[i..SpaceRunEnd(s, i)])
    decreases |s| - i
  {
    if i < |s| && IsSpace(s[i]) {
      SpaceRunEndIsSpace(s, i + 1);
      assert s[i..SpaceRunEnd(s, i)] == [s[i]] + s[i + 1..SpaceRunEnd(s, i + 1)];
    }
  }

  /** The run found by `SpaceRunStart` is whitespace. */
  lemma {:induction false} SpaceRunStartIsSpace(s: string, j: nat)
    requires j <= |s|
    ensures AllSpace(s[SpaceRunStart(s, j)..j])
    decreases j
  {
    if j > 0 && IsSpace(s[j - 1]) {
      SpaceRunStartIsSpace(s, j - 1);
      assert s[SpaceRunStart(s, j)..j] == s[SpaceRunStart(s, j - 1)..j - 1] + [s[j - 1]];
    }
  }

  /** What `TrimStart` removes is whitespace. */
  lemma TrimStartRemovesSpace(s: string)
    ensures AllSpace(s[..|s| - |TrimStart(s)|])
  {
    SpaceRunEndIsSpace(s, 0);
    assert s[..|s| - |TrimStart(s)|] == s[0..SpaceRunEnd(s, 0)];
  }

  /** What `TrimEnd` removes is whitespace. */
  lemma TrimEndRemovesSpace(s: string)
    ensures AllSpace(s[|TrimEnd(s)|..])
  {
    SpaceRunStartIsSpace(s, |s|);
    assert s[|TrimEnd(s)|..] == s[SpaceRunStart(s, |s|)..|s|];
  }

  /** `s.trim()`. */
  function Trim(s: string): (r: string)
  {
    TrimEnd(TrimStart(s))
  }

  /** `trim` leaves text that starts and ends with a non-space character. */
  lemma TrimIsTrimmed(s: string)
    ensures IsTrimmed(Trim(s))
  {
    PrefixEndsTrimmed(TrimStart(s), TrimEnd(TrimStart(s)));
  }

  /** After the leading whitespace that `trim` removes comes the trimmed text. */
  lemma TrimInside(s: string)
    ensures var i := |s| - |TrimStart(s)|;
      i + |Trim(s)| <= |s| && s[i..i + |Trim(s)|] == Trim(s)
  {
    CutShape(s, TrimStart(s), TrimEnd(TrimStart(s)));
  }

  /** After the trimmed text, `trim` removes only whitespace. */
  lemma TrimEndsInSpace(s: string)
    ensures var i := |s| - |TrimStart(s)|;
      i + |Trim(s)| <= |s| && AllSpace(s[i + |Trim(s)|..])
  {
    TrimEndRemovesSpace(TrimStart(s));
    CutSuffix(s, TrimStart(s), TrimEnd(TrimStart(s)));
  }

  /** A suffix `t` of `s` with a prefix `r` of `t`: `r` sits in `s` right after
      what the first cut removed ... */
  lemma CutShape(s: string, t: string, r: string)
    requires |t| <= |s| && t == s[|s| - |t|..] && |r| <= |t| && r == t[..|r|]
    ensures s[|s| - |t|..|s| - |t| + |r|] == r
  {
  }

  /** ... and is followed by what the second cut removed. */
  lemma CutSuffix(s: string, t: string, r: string)
    requires |t| <= |s| && t == s[|s| - |t|..] && |r| <= |t| && AllSpace(t[|r|..])
    ensures AllSpace(s[|s| - |t| + |r|..])
  {
    assert s[|s| - |t| + |r|..] == t[|r|..];
  }

  lemma PrefixEndsTrimmed(t: string, r: string)
    requires |r| <= |t| && r == t[..|r|]
    requires t == [] || !IsSpace(t[0])
    requires r == [] || !IsSpace(r[|r| - 1])
    ensures IsTrimmed(r)
  {
    if r != [] {
      assert r[0] == t[0];
    }
  }

  lemma TrimOfTrimmed(s: string)
    requires IsTrimmed(s)
    ensures Trim(s) == s
  {
    assert TrimStart(s) == s[0..];
    assert TrimEnd(s) == s[..|s|];
  }

  /** A whitespace prefix does not change where the run starting after it ends. */
  lemma {:induction false} SpaceRunEndShift(w: string, s: string, i: nat)
    requires i <= |s|
    ensures SpaceRunEnd(w + s, |w| + i) == |w| + SpaceRunEnd(s, i)
    decreases |s| - i
  {
    if i < |s| {
      assert (w + s)[|w| + i] == s[i];
      if IsSpace(s[i]) {
        SpaceRunEndShift(w, s, i + 1);
      }
    }
  }

  /** A leading whitespace run is skipped as a whole. */
  lemma {:induction false} SpaceRunEndSkips(w: string, s: string, k: nat)
    requires k <= |w| && AllSpace(w)
    ensures SpaceRunEnd(w + s, k) == SpaceRunEnd(w + s, |w|)
    decreases |w| - k
  {
    if k < |w| {
      assert (w + s)[k] == w[k];
      SpaceRunEndSkips(w, s, k + 1);
    }
  }

  lemma TrimStartSpacePrefix(w: string, s: string)
    requires AllSpace(w)
    ensures TrimStart(w + s) == TrimStart(s)
  {
    SpaceRunEndSkips(w, s, 0);
    SpaceRunEndShift(w, s, 0);
    assert (w + s)[|w| + SpaceRunEnd(s, 0)..] == s[SpaceRunEnd(s, 0)..];
  }

  /** A whitespace suffix does not change where the run ending before it starts. */
  lemma {:induction false} SpaceRunStartShift(s: string, w: string, j: nat)
    requires j <= |s|
    ensures SpaceRunStart(s + w, j) == SpaceRunStart(s, j)
    decreases j
  {
    if j > 0 {
      assert (s + w)[j - 1] == s[j - 1];
      if IsSpace(s[j - 1]) {
        SpaceRunStartShift(s, w, j - 1);
      }
    }
  }

  /** A trailing whitespace run is skipped as a whole. */
  lemma {:induction false} SpaceRunStartSkips(s: string, w: string, k: nat)
    requires k <= |w| && AllSpace(w)
    ensures SpaceRunStart(s + w, |s| + k) == SpaceRunStart(s + w, |s|)
    decreases k
  {
    if k > 0 {
      assert (s + w)[|s| + k - 1] == w[k - 1];
      SpaceRunStartSkips(s, w, k - 1);
    }
  }

  lemma TrimEndSpaceSuffix(s: string, w: string)
    requires AllSpace(w)
    ensures TrimEnd(s + w) == TrimEnd(s)
  {
    SpaceRunStartSkips(s, w, |w|);
    SpaceRunStartShift(s, w, |s|);
    assert (s + w)[..SpaceRunStart(s, |s|)] == s[..SpaceRunStart(s, |s|)];
  }

  lemma TrimEndKeepsNonSpaceStart(s: string)
    requires s != [] && !IsSpace(s[0])
    ensures TrimStart(TrimEnd(s)) == TrimEnd(s)
  {
    var t := TrimEnd(s);
    if t != [] {
      assert t[0] == s[0];
    }
    assert t[0..] == t;
  }

  /** `s.startsWith(p)`. */
  predicate StartsWith(s: string, p: string)
  {
    |p| <= |s| && s[..|p|] == p
  }

  /** `s.includes(p)`. */
  predicate Contains(s: string, p: string)
    decreases |s|
  {
    StartsWith(s, p) || (s != [] && Contains(s[1..], p))
  }

  lemma {:induction false} ContainsAt(s: string, p: string, i: nat)
    requires i + |p| <= |s| && s[i..i + |p|] == p
    ensures Contains(s, p)
  {
    if i > 0 {
      assert s[1..][i - 1..i - 1 + |p|] == s[i..i + |p|];
      ContainsAt(s[1..], p, i - 1);
    }
  }

  lemma {:induction false} ContainsWitness(s: string, p: string) returns (i: nat)
    requires Contains(s, p)
    ensures i + |p| <= |s| && s[i..i + |p|] == p
    decreases |s|
  {
    if StartsWith(s, p) {
      i := 0;
    } else {
      var j := ContainsWitness(s[1..], p);
      i := j + 1;
      assert s[i..i + |p|] == s[1..][j..j + |p|];
    }
  }

  lemma ContainsInfix(a: string, p: string, b: string)
    ensures Contains(a + p + b, p)
  {
    ContainsAt(a + p + b, p, |a|);
  }

  /** `xs.join(sep)`. */
  function Join(xs: seq<string>, sep: string): (r: string)
    decreases |xs|
  {
    if |xs| == 0 then ""
    else if |xs| == 1 then xs[0]
    else xs[0] + sep + Join(xs[1..], sep)
  }

  lemma JoinCons(x: string, xs: seq<string>, sep: string)
    requires xs != []
    ensures Join([x] + xs, sep) == x + sep + Join(xs, sep)
  {
    assert ([x] + xs)[1..] == xs;
  }

  lemma {:induction false} JoinAppend(xs: seq<string>, x: string, sep: string)
    requires xs != []
    ensures Join(xs + [x], sep) == Join(xs, sep) + sep + x
    decreases |xs|
  {
    if |xs| == 1 {
      assert xs + [x] == [xs[0], x];
    } else {
      assert (xs + [x])[1..] == xs[1..] + [x];
      JoinAppend(xs[1..], x, sep);
    }
  }

  lemma JoinHeadExtend(a: string, b: string, t: seq<string>, sep: string)
    ensures Join([a + b] + t, sep) == a + Join([b] + t, sep)
  {
    if t != [] {
      JoinCons(a + b, t, sep);
      JoinCons(b, t, sep);
    }
  }

  /** Every element of the list can be found in the joined text. */
  lemma {:induction false} JoinContainsElement(xs: seq<string>, sep: string, k: nat)
    requires k < |xs|
    ensures Contains(Join(xs, sep), xs[k])
    decreases |xs|
  {
    if |xs| == 1 {
      ContainsAt(xs[0], xs[0], 0);
    } else if k == 0 {
      ContainsAt(Join(xs, sep), xs[0], 0);
    } else {
      JoinContainsElement(xs[1..], sep, k - 1);
      var j := ContainsWitness(Join(xs[1..], sep), xs[k]);
      var off := |xs[0] + sep|;
      assert Join(xs, sep)[off + j..off + j + |xs[k]|] == Join(xs[1..], sep)[j..j + |xs[k]|];
      ContainsAt(Join(xs, sep), xs[k], off + j);
    }
  }

  /** `s.split(sep)` for a non-empty separator: the pieces between the leftmost
      non-overlapping occurrences of `sep`. */
  function SplitOn(s: string, sep: string): (r: seq<string>)
    requires |sep| > 0
    ensures |r| >= 1
    decreases |s|
  {
    if s == [] then [""]
    else if StartsWith(s, sep) then [""] + SplitOn(s[|sep|..], sep)
    else
      var rest := SplitOn(s[1..], sep);
      [[s[0]] + rest[0]] + rest[1..]
  }

  /** `s.split(pat).join(rep)` written as a scan: every leftmost non-overlapping
      occurrence of `pat` is replaced by `rep`. */
  function Replace(s: string, pat: string, rep: string): (r: string)
    requires |pat| > 0
    decreases |s|
  {
    if s == [] then []
    else if StartsWith(s, pat) then rep + Replace(s[|pat|..], pat, rep)
    else [s[0]] + Replace(s[1..], pat, rep)
  }

  /** Splitting and joining with the same separator gives back the text. */
  lemma {:induction false} JoinSplit(s: string, sep: string)
    requires |sep| > 0
    ensures Join(SplitOn(s, sep), sep) == s
    decreases |s|
  {
    if s == [] {
    } else if StartsWith(s, sep) {
      JoinSplit(s[|sep|..], sep);
      JoinSplitAtSep(s, sep);
    } else {
      JoinSplit(s[1..], sep);
      JoinSplitAtChar(s, sep);
    }
  }

  lemma JoinSplitAtSep(s: string, sep: string)
    requires |sep| > 0 && s != [] && StartsWith(s, sep)
    requires Join(SplitOn(s[|sep|..], sep), sep) == s[|sep|..]
    ensures Join(SplitOn(s, sep), sep) == s
  {
    SplitOnAtSep(s, sep);
    JoinEmptyHead(SplitOn(s[|sep|..], sep), sep);
    StartsWithSplit(s, sep);
  }

  lemma SplitOnAtSep(s: string, sep: string)
    requires |sep| > 0 && s != [] && StartsWith(s, sep)
    ensures SplitOn(s, sep) == [""] + SplitOn(s[|sep|..], sep)
  {
  }

  lemma JoinEmptyHead(xs: seq<string>, sep: string)
    requires xs != []
    ensures Join([""] + xs, sep) == sep + Join(xs, sep)
  {
    JoinCons("", xs, sep);
    assert "" + sep == sep;
  }

  lemma StartsWithSplit(s: string, p: string)
    requires StartsWith(s, p)
    ensures s == p + s[|p|..]
  {
    assert s == s[..|p|] + s[|p|..];
  }

  lemma JoinSplitAtChar(s: string, sep: string)
    requires |sep| > 0 && s != [] && !StartsWith(s, sep)
    requires Join(SplitOn(s[1..], sep), sep) == s[1..]
    ensures Join(SplitOn(s, sep), sep) == s
  {
    var rest := SplitOn(s[1..], sep);
    JoinHeadExtend([s[0]], rest[0], rest[1..], sep);
    assert [rest[0]] + rest[1..] == rest;
    assert s == [s[0]] + s[1..];
  }

  /** `split` followed by `join` is the scan `Replace`. */
  lemma {:induction false} SplitJoinIsReplace(s: string, pat: string, rep: string)
    requires |pat| > 0
    ensures Join(SplitOn(s, pat), rep) == Replace(s, pat, rep)
    decreases |s|
  {
    if s == [] {
    } else if StartsWith(s, pat) {
      SplitJoinIsReplace(s[|pat|..], pat, rep);
      SplitJoinReplaceAtPat(s, pat, rep);
    } else {
      SplitJoinIsReplace(s[1..], pat, rep);
      SplitJoinReplaceAtChar(s, pat, rep);
    }
  }

  lemma SplitJoinReplaceAtPat(s: string, pat: string, rep: string)
    requires |pat| > 0 && s != [] && StartsWith(s, pat)
    requires Join(SplitOn(s[|pat|..], pat), rep) == Replace(s[|pat|..], pat, rep)
    ensures Join(SplitOn(s, pat), rep) == Replace(s, pat, rep)
  {
    var tail := SplitOn(s[|pat|..], pat);
    assert SplitOn(s, pat) == [""] + tail;
    assert Replace(s, pat, rep) == rep + Replace(s[|pat|..], pat, rep);
    JoinCons("", tail, rep);
  }

  lemma SplitJoinReplaceAtChar(s: string, pat: string, rep: string)
    requires |pat| > 0 && s != [] && !StartsWith(s, pat)
    requires Join(SplitOn(s[1..], pat), rep) == Replace(s[1..], pat, rep)
    ensures Join(SplitOn(s, pat), rep) == Replace(s, pat, rep)
  {
    var rest := SplitOn(s[1..], pat);
    JoinHeadExtend([s[0]], rest[0], rest[1..], rep);
    assert [rest[0]] + rest[1..] == rest;
  }

  /** No piece of a split contains the separator character. */
  lemma {:induction false} SplitPiecesAvoidSeparator(s: string, c: char)
    ensures forall k :: 0 <= k < |SplitOn(s, [c])| ==> c !in SplitOn(s, [c])[k]
    decreases |s|
  {
    if s != [] {
      SplitPiecesAvoidSeparator(s[|[c]|..], c);
      SplitPiecesAvoidSeparator(s[1..], c);
    }
  }

  /** A character missing from the text is missing from every piece of its split. */
  lemma {:induction false} SplitPiecesAvoid(s: string, sep: string, c: char)
    requires |sep| > 0 && c !in s
    ensures forall k :: 0 <= k < |SplitOn(s, sep)| ==> c !in SplitOn(s, sep)[k]
    decreases |s|
  {
    if s != [] {
      if StartsWith(s, sep) {
        SplitPiecesAvoid(s[|sep|..], sep, c);
      } else {
        assert c !in s[1..];
        SplitPiecesAvoid(s[1..], sep, c);
      }
    }
  }

  /** Text without the separator's first character is a single piece. */
  lemma {:induction false} SplitSinglePiece(x: string, sep: string)
    requires |sep| > 0 && sep[0] !in x
    ensures SplitOn(x, sep) == [x]
    decreases |x|
  {
    if x != [] {
      assert !StartsWith(x, sep);
      assert sep[0] !in x[1..];
      SplitSinglePiece(x[1..], sep);
      assert [x[0]] + x[1..] == x;
    }
  }

  lemma SplitAtLeadingSep(sep: string, rest: string)
    requires |sep| > 0
    ensures SplitOn(sep + rest, sep) == [""] + SplitOn(rest, sep)
  {
    assert (sep + rest)[..|sep|] == sep;
    assert (sep + rest)[|sep|..] == rest;
  }

  /** A piece without the separator's first character, then the separator:
      the split yields the piece, then the split of the rest. */
  lemma {:induction false} SplitAfterPiece(x: string, sep: string, rest: string)
    requires |sep| > 0 && sep[0] !in x
    ensures SplitOn(x + sep + rest, sep) == [x] + SplitOn(rest, sep)
    decreases |x|
  {
    var s := x + sep + rest;
    if x == [] {
      assert s == sep + rest;
      SplitAtLeadingSep(sep, rest);
    } else {
      assert s[0] == x[0];
      assert !StartsWith(s, sep);
      assert s[1..] == x[1..] + sep + rest;
      assert sep[0] !in x[1..];
      SplitAfterPiece(x[1..], sep, rest);
      assert [x[0]] + x[1..] == x;
    }
  }

  /** Pieces that avoid the separator's first character come back out of their
      join. */
  lemma {:induction false} SplitJoinAvoiding(xs: seq<string>, sep: string)
    requires |sep| > 0 && xs != []
    requires forall k :: 0 <= k < |xs| ==> sep[0] !in xs[k]
    ensures SplitOn(Join(xs, sep), sep) == xs
    decreases |xs|
  {
    if |xs| == 1 {
      SplitSinglePiece(xs[0], sep);
    } else {
      SplitJoinAvoiding(xs[1..], sep);
      SplitAfterPiece(xs[0], sep, Join(xs[1..], sep));
      assert [xs[0]] + xs[1..] == xs;
    }
  }

  /** A character found in neither the pieces nor the separator is not in the
      joined text. */
  lemma {:induction false} JoinAvoids(xs: seq<string>, sep: string, c: char)
    requires c !in sep
    requires forall k :: 0 <= k < |xs| ==> c !in xs[k]
    ensures c !in Join(xs, sep)
    decreases |xs|
  {
    if |xs| > 1 {
      JoinAvoids(xs[1..], sep, c);
    }
  }

  /** `s.toLowerCase()` on ASCII letters; other characters are unchanged. */
  function LowerChar(c: char): char
  {
    if 'A' <= c <= 'Z' then (c as int + 32) as char else c
  }

  function Lower(s: string): (r: string)
    ensures |r| == |s|
    ensures forall i :: 0 <= i < |s| ==> r[i] == LowerChar(s[i])
  {
    if s == [] then [] else [LowerChar(s[0])] + Lower(s[1..])
  }

  function DigitChar(d: nat): char
    requires d < 10
  {
    ('0' as int + d) as char
  }

  /** `String(n)` for a non-negative integer: its decimal digits. */
  function NatToString(n: nat): (r: string)
    ensures |r| >= 1
    ensures forall i :: 0 <= i < |r| ==> '0' <= r[i] <= '9'
  {
    if n < 10 then [DigitChar(n)] else NatToString(n / 10) + [DigitChar(n % 10)]
  }

  /** The blank line that separates SDL sections. */
  const BlockSep: string := "\n\n"

  /** A section that can be recovered by splitting on blank lines. */
  predicate IsBlock(x: string)
  {
    !Contains(x, BlockSep) && (x == [] || x[|x| - 1] != '\n')
  }

  lemma {:induction false} SplitWithoutSeparator(x: string)
    requires !Contains(x, BlockSep)
    ensures SplitOn(x, BlockSep) == [x]
    decreases |x|
  {
    if x != [] {
      assert !StartsWith(x, BlockSep);
      SplitWithoutSeparator(x[1..]);
      assert [x[0]] + x[1..] == x;
    }
  }

  lemma {:induction false} SplitAtFirstBlockSep(x: string, rest: string)
    requires IsBlock(x)
    ensures SplitOn(x + BlockSep + rest, BlockSep) == [x] + SplitOn(rest, BlockSep)
    decreases |x|
  {
    var s := x + BlockSep + rest;
    if x == [] {
      assert s == BlockSep + rest;
      assert s[|BlockSep|..] == rest;
    } else {
      assert !StartsWith(x, BlockSep);
      if |x| >= 2 {
        assert s[..2] == x[..2];
      } else {
        assert s[0] == x[0] != '\n';
      }
      assert !StartsWith(s, BlockSep);
      var x' := x[1..];
      assert !Contains(x', BlockSep);
      assert IsBlock(x');
      assert s[1..] == x' + BlockSep + rest;
      SplitAtFirstBlockSep(x', rest);
      assert [x[0]] + x' == x;
    }
  }

  /** Joining sections with a blank line and splitting on blank lines again gives
      back the sections, provided none holds a blank line or ends in a newline. */
  lemma {:induction false} SplitJoinBlocks(xs: seq<string>)
    requires xs != []
    requires forall k :: 0 <= k < |xs| ==> IsBlock(xs[k])
    ensures SplitOn(Join(xs, BlockSep), BlockSep) == xs
    decreases |xs|
  {
    if |xs| == 1 {
      SplitWithoutSeparator(xs[0]);
    } else {
      SplitJoinBlocks(xs[1..]);
      SplitAtFirstBlockSep(xs[0], Join(xs[1..], BlockSep));
      assert [xs[0]] + xs[1..] == xs;
    }
  }

  lemma TrimmedIsBlock(x: string)
    requires IsTrimmed(x) && !Contains(x, BlockSep)
    ensures IsBlock(x)
  {
  }
}
