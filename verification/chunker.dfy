/** The text chunker of the translator (`split_into_sentences`, temp.py).

    The input is stripped, cut after every sentence-ending mark (dropping the
    whitespace that follows the mark), the non-empty pieces are packed greedily
    into chunks of at most `maxChars` characters, and a chunk that is still too
    long is cut into `maxChars`-sized slices. A character is one code point, as
    Python's `len` counts them.
 */
module Chunker {

  /** The bound every translation entry point passes as `max_chars`. */
  const DefaultMaxChars: nat := 300

  /** The sentence-ending marks of the split pattern: 。！？ and ASCII ! ? . */
  predicate IsSentenceEnd(c: char) {
    c == '\U{3002}' || c == '\U{FF01}' || c == '\U{FF1F}' || c == '!' || c == '?' || c == '.'
  }

  /** Python's whitespace (`str.isspace`, which is also what `\s` matches in a str pattern). */
  predicate IsSpace(c: char) {
    ('\t' <= c <= '\r') || ('\U{1C}' <= c <= ' ') || c == '\U{85}' || c == '\U{A0}'
    || c == '\U{1680}' || ('\U{2000}' <= c <= '\U{200A}') || c == '\U{2028}' || c == '\U{2029}'
    || c == '\U{202F}' || c == '\U{205F}' || c == '\U{3000}'
  }

  function Min(a: int, b: int): int { if a <= b then a else b }

  // ---------------------------------------------------------------------------
  // Concatenation

  /** The concatenation of a sequence of sequences, in order (`"".join` for strings). */
  function Concat<T>(ss: seq<seq<T>>): seq<T>
  {
    if ss == [] then [] else ss[0] + Concat(ss[1..])
  }

  lemma {:induction false} ConcatAppend<T>(a: seq<seq<T>>, b: seq<seq<T>>)
    ensures Concat(a + b) == Concat(a) + Concat(b)
  {
    if a == [] {
      assert a + b == b;
    } else {
      assert (a + b)[1..] == a[1..] + b;
      ConcatAppend(a[1..], b);
    }
  }

  lemma ConcatSingle<T>(x: seq<T>)
    ensures Concat([x]) == x
  {
    assert [x][1..] == [];
  }

  /** The characters of `s` that are not whitespace, in order. */
  function NonSpace(s: string): string
  {
    if s == [] then [] else (if IsSpace(s[0]) then [] else [s[0]]) + NonSpace(s[1..])
  }

  lemma {:induction false} NonSpaceAppend(a: string, b: string)
    ensures NonSpace(a + b) == NonSpace(a) + NonSpace(b)
  {
    if a == [] {
      assert a + b == b;
    } else {
      assert (a + b)[0] == a[0];
      assert (a + b)[1..] == a[1..] + b;
      NonSpaceAppend(a[1..], b);
    }
  }

  // ---------------------------------------------------------------------------
  // str.strip()

  /** `s.lstrip()`: the suffix of `s` left after its leading whitespace. */
  function TrimStart(s: string): (r: string)
    ensures |r| <= |s| && r == s[|s| - |r|..]
    ensures forall i :: 0 <= i < |s| - |r| ==> IsSpace(s[i])
    ensures r == [] || !IsSpace(r[0])
  {
    if s != [] && IsSpace(s[0]) then
      var r := TrimStart(s[1..]);
      assert forall i :: 1 <= i < |s| - |r| ==> s[i] == s[1..][i - 1];
      r
    else s
  }

  /** `s.rstrip()`: the prefix of `s` left after its trailing whitespace. */
  function TrimEnd(s: string): (r: string)
    ensures |r| <= |s| && r == s[..|r|]
    ensures forall i :: |r| <= i < |s| ==> IsSpace(s[i])
    ensures r == [] || !IsSpace(r[|r| - 1])
  {
    if s != [] && IsSpace(s[|s| - 1]) then
      var r := TrimEnd(s[..|s| - 1]);
      assert forall i :: |r| <= i < |s| - 1 ==> s[i] == s[..|s| - 1][i];
      r
    else s
  }

  /** `s.strip()`: empty exactly when `s` is all whitespace; otherwise it neither
      starts nor ends with whitespace. */
  function Strip(s: string): (r: string)
    ensures r == [] <==> forall i :: 0 <= i < |s| ==> IsSpace(s[i])
    ensures r != [] ==> !IsSpace(r[0]) && !IsSpace(r[|r| - 1])
  {
    var t := TrimStart(s);
    var r := TrimEnd(t);
    // an all-whitespace `t` would have been trimmed away by TrimStart
    assert r == [] ==> t == [];
    assert r != [] ==> r[0] == t[0];
    r
  }

  lemma {:induction false} TrimStartKeepsNonSpace(s: string)
    ensures NonSpace(TrimStart(s)) == NonSpace(s)
  {
    if s != [] && IsSpace(s[0]) {
      TrimStartKeepsNonSpace(s[1..]);
    }
  }

  lemma {:induction false} TrimEndKeepsNonSpace(s: string)
    ensures NonSpace(TrimEnd(s)) == NonSpace(s)
  {
    if s != [] && IsSpace(s[|s| - 1]) {
      var last := [s[|s| - 1]];
      assert s == s[..|s| - 1] + last;
      NonSpaceAppend(s[..|s| - 1], last);
      assert NonSpace(last) == [] by { assert last[1..] == []; }
      TrimEndKeepsNonSpace(s[..|s| - 1]);
    }
  }

  /** Stripping loses no character that is not whitespace. */
  lemma StripKeepsNonSpace(s: string)
    ensures NonSpace(Strip(s)) == NonSpace(s)
  {
    TrimStartKeepsNonSpace(s);
    TrimEndKeepsNonSpace(TrimStart(s));
  }

  // ---------------------------------------------------------------------------
  // re.split(r'(?<=[。！？!?\.])\s*', s)

  /** The pieces the regular-expression split returns: `s` is cut right after
      every sentence-ending mark, and the whitespace run that directly follows a
      mark is dropped. After a final mark the last piece is empty. */
  function Pieces(s: string): (r: seq<string>)
    ensures |r| >= 1
    ensures s != [] ==> r[0] != [] && r[0][0] == s[0]
    decreases |s|
  {
    if s == [] then [[]]
    else if IsSentenceEnd(s[0]) then [[s[0]]] + Pieces(TrimStart(s[1..]))
    else
      var rest := Pieces(s[1..]);
      [[s[0]] + rest[0]] + rest[1..]
  }

  /** Where the split cuts: every piece but the last ends with a sentence end,
      no piece holds a sentence end anywhere else, and a piece after a cut never
      starts with whitespace. */
  ghost predicate CutAtSentenceEnds(r: seq<string>)
  {
    && (forall i :: 0 <= i < |r| - 1 ==> r[i] != [] && IsSentenceEnd(r[i][|r[i]| - 1]))
    && (forall i, j :: 0 <= i < |r| && 0 <= j < |r[i]| && (i == |r| - 1 || j < |r[i]| - 1)
          ==> !IsSentenceEnd(r[i][j]))
    && (forall i :: 0 < i < |r| && r[i] != [] ==> !IsSpace(r[i][0]))
  }

  lemma {:induction false} PiecesShape(s: string)
    ensures CutAtSentenceEnds(Pieces(s))
    decreases |s|
  {
    var r := Pieces(s);
    if s == [] {
    } else if IsSentenceEnd(s[0]) {
      var t := TrimStart(s[1..]);
      var p := Pieces(t);
      PiecesShape(t);
      assert r == [[s[0]]] + p;
      forall i | 0 < i < |r| ensures r[i] == p[i - 1] { }
      forall i, j | 0 <= i < |r| && 0 <= j < |r[i]| && (i == |r| - 1 || j < |r[i]| - 1)
        ensures !IsSentenceEnd(r[i][j])
      {
        if i > 0 { assert r[i][j] == p[i - 1][j]; }
      }
    } else {
      var rest := Pieces(s[1..]);
      PiecesShape(s[1..]);
      assert r == [[s[0]] + rest[0]] + rest[1..];
      forall i | 0 < i < |r| ensures r[i] == rest[i] { }
      forall i, j | 0 <= i < |r| && 0 <= j < |r[i]| && (i == |r| - 1 || j < |r[i]| - 1)
        ensures !IsSentenceEnd(r[i][j])
      {
        if i > 0 {
          assert r[i][j] == rest[i][j];
        } else if j > 0 {
          assert r[0][j] == rest[0][j - 1];
        }
      }
    }
  }

  /** `s` with every whitespace run that directly follows a sentence end removed;
      `afterEnd` says whether the character before `s` was a sentence end or a
      whitespace character that is being dropped. */
  function Squeeze(s: string, afterEnd: bool): (r: string)
    ensures |r| <= |s|
  {
    if s == [] then []
    else if afterEnd && IsSpace(s[0]) then Squeeze(s[1..], true)
    else [s[0]] + Squeeze(s[1..], IsSentenceEnd(s[0]))
  }

  lemma {:induction false} SqueezeAfterEnd(s: string)
    ensures Squeeze(s, true) == Squeeze(TrimStart(s), false)
  {
    if s != [] && IsSpace(s[0]) {
      SqueezeAfterEnd(s[1..]);
    }
  }

  /** The split loses, duplicates and reorders nothing: the pieces put back
      together are the text without the whitespace that follows sentence ends. */
  lemma {:induction false} PiecesConcat(s: string)
    ensures Concat(Pieces(s)) == Squeeze(s, false)
    decreases |s|
  {
    if s == [] {
      ConcatSingle<char>([]);
    } else if IsSentenceEnd(s[0]) {
      var p := Pieces(TrimStart(s[1..]));
      assert ([[s[0]]] + p)[1..] == p;
      PiecesConcat(TrimStart(s[1..]));
      SqueezeAfterEnd(s[1..]);
    } else {
      var rest := Pieces(s[1..]);
      var r := [[s[0]] + rest[0]] + rest[1..];
      assert r[1..] == rest[1..];
      PiecesConcat(s[1..]);
    }
  }

  /** A text without sentence ends is a single piece. */
  lemma {:induction false} PiecesWithoutEnds(s: string)
    requires forall i :: 0 <= i < |s| ==> !IsSentenceEnd(s[i])
    ensures Pieces(s) == [s]
  {
    if s != [] {
      assert forall i :: 0 <= i < |s| - 1 ==> s[1..][i] == s[i + 1];
      PiecesWithoutEnds(s[1..]);
      assert [s[0]] + s[1..] == s;
    }
  }

  /** Squeezing keeps every character that is not whitespace. */
  lemma {:induction false} SqueezeKeepsNonSpace(s: string, afterEnd: bool)
    ensures NonSpace(Squeeze(s, afterEnd)) == NonSpace(s)
  {
    if s != [] {
      SqueezeKeepsNonSpace(s[1..], if afterEnd && IsSpace(s[0]) then true else IsSentenceEnd(s[0]));
      if !(afterEnd && IsSpace(s[0])) {
        var t := [s[0]] + Squeeze(s[1..], IsSentenceEnd(s[0]));
        assert t[0] == s[0] && t[1..] == Squeeze(s[1..], IsSentenceEnd(s[0]));
      }
    }
  }

  /** A text with no whitespace right after a sentence end is left unchanged. */
  lemma {:induction false} SqueezeUnchanged(s: string, afterEnd: bool)
    requires forall i :: 0 <= i < |s| - 1 && IsSentenceEnd(s[i]) ==> !IsSpace(s[i + 1])
    requires afterEnd && s != [] ==> !IsSpace(s[0])
    ensures Squeeze(s, afterEnd) == s
  {
    if s != [] {
      assert forall i :: 0 <= i < |s| - 2 && IsSentenceEnd(s[1..][i]) ==> !IsSpace(s[1..][i + 1]) by {
        assert forall i :: 0 <= i < |s| - 1 ==> s[1..][i] == s[i + 1];
      }
      SqueezeUnchanged(s[1..], IsSentenceEnd(s[0]));
    }
  }

  // ---------------------------------------------------------------------------
  // `if not s: continue` (temp.py:46-47)

  /** The pieces that are not empty, in order. */
  function NonEmpty(ps: seq<string>): (r: seq<string>)
    ensures forall i :: 0 <= i < |r| ==> r[i] != []
  {
    if ps == [] then [] else (if ps[0] == [] then [] else [ps[0]]) + NonEmpty(ps[1..])
  }

  /** One piece is kept whole exactly when it is not empty. */
  lemma NonEmptySingle(p: string)
    ensures NonEmpty([p]) == (if p == [] then [] else [p])
  {
  }

  /** Skipping distributes over concatenation: together with `NonEmptySingle`
      this makes `NonEmpty` the filter that keeps every non-empty piece whole,
      in order, and drops the empty ones. */
  lemma {:induction false} NonEmptyAppend(a: seq<string>, b: seq<string>)
    ensures NonEmpty(a + b) == NonEmpty(a) + NonEmpty(b)
  {
    if a == [] {
      assert a + b == b;
    } else {
      assert (a + b)[0] == a[0];
      assert (a + b)[1..] == a[1..] + b;
      NonEmptyAppend(a[1..], b);
    }
  }

  lemma {:induction false} NonEmptyConcat(ps: seq<string>)
    ensures Concat(NonEmpty(ps)) == Concat(ps)
  {
    if ps != [] {
      NonEmptyConcat(ps[1..]);
      ConcatAppend(if ps[0] == [] then [] else [ps[0]], NonEmpty(ps[1..]));
      if ps[0] != [] {
        ConcatSingle(ps[0]);
      }
    }
  }

  // ---------------------------------------------------------------------------
  // Greedy packing (temp.py:43-55)

  /** The packing loop as a function of the pieces still to come and of the
      pieces `cur` in the buffer that has not been closed yet. The result lists
      the chunks as groups of pieces. */
  function PackFrom(ps: seq<string>, cur: seq<string>, m: nat): seq<seq<string>>
  {
    if ps == [] then (if cur == [] then [] else [cur])
    else if |Concat(cur)| + |ps[0]| <= m then PackFrom(ps[1..], cur + [ps[0]], m)
    else (if cur == [] then [] else [cur]) + PackFrom(ps[1..], [ps[0]], m)
  }

  function Pack(ps: seq<string>, m: nat): seq<seq<string>>
  {
    PackFrom(ps, [], m)
  }

  /** The chunk strings of a packing. */
  function Joined(gs: seq<seq<string>>): (r: seq<string>)
  {
    seq(|gs|, i requires 0 <= i < |gs| => Concat(gs[i]))
  }

  /** What it means to pack `ps` greedily: the groups cut `ps` into consecutive
      non-empty runs; a group holds more than one piece only if it fits in `m`;
      and a group is closed only because its successor's first piece would not
      have fitted. */
  ghost predicate IsGreedyPacking(gs: seq<seq<string>>, ps: seq<string>, m: nat)
  {
    && Concat(gs) == ps
    && (forall i :: 0 <= i < |gs| ==> gs[i] != [])
    && (forall i :: 0 <= i < |gs| ==> |gs[i]| == 1 || |Concat(gs[i])| <= m)
    && (forall i :: 0 <= i < |gs| - 1 ==> |Concat(gs[i])| + |gs[i + 1][0]| > m)
  }

  lemma {:induction false} ConcatPrefixLength(h: seq<string>, k: nat)
    requires k <= |h|
    ensures |Concat(h[..k])| <= |Concat(h)|
  {
    assert h == h[..k] + h[k..];
    ConcatAppend(h[..k], h[k..]);
  }

  /** Closing a buffer `cur` in front of a greedy packing of `ps` keeps the
      packing greedy when the first piece of `ps` would not have fitted. */
  lemma GreedyCons(cur: seq<string>, rest: seq<seq<string>>, ps: seq<string>, m: nat)
    requires IsGreedyPacking(rest, ps, m)
    requires cur != [] && (|cur| == 1 || |Concat(cur)| <= m)
    requires ps != [] && |Concat(cur)| + |ps[0]| > m
    ensures IsGreedyPacking([cur] + rest, cur + ps, m)
  {
    var gs := [cur] + rest;
    assert gs[1..] == rest;
    assert rest != [];
    GreedyPackingTail(rest, ps, m);
    assert rest[0][0] == ps[0];
    forall i | 0 <= i < |gs| - 1 ensures |Concat(gs[i])| + |gs[i + 1][0]| > m {
      if i > 0 { assert gs[i] == rest[i - 1] && gs[i + 1] == rest[i]; }
    }
    forall i | 0 <= i < |gs| ensures gs[i] != [] && (|gs[i]| == 1 || |Concat(gs[i])| <= m) {
      if i > 0 { assert gs[i] == rest[i - 1]; }
    }
  }

  lemma {:induction false} PackFromGreedy(ps: seq<string>, cur: seq<string>, m: nat)
    requires forall i :: 0 <= i < |ps| ==> ps[i] != []
    requires cur == [] || |cur| == 1 || |Concat(cur)| <= m
    ensures IsGreedyPacking(PackFrom(ps, cur, m), cur + ps, m)
  {
    if ps == [] {
      assert cur + ps == cur;
      if cur != [] { ConcatSingle(cur); }
    } else if |Concat(cur)| + |ps[0]| <= m {
      ConcatAppend(cur, [ps[0]]);
      ConcatSingle(ps[0]);
      PackFromGreedy(ps[1..], cur + [ps[0]], m);
      assert cur + [ps[0]] + ps[1..] == cur + ps;
    } else {
      PackFromGreedy(ps[1..], [ps[0]], m);
      assert [ps[0]] + ps[1..] == ps;
      if cur != [] {
        GreedyCons(cur, PackFrom(ps[1..], [ps[0]], m), ps, m);
      } else {
        assert PackFrom(ps, cur, m) == PackFrom(ps[1..], [ps[0]], m);
        assert cur + ps == ps;
      }
    }
  }

  /** The packing loop packs greedily. In particular a chunk longer than `m`
      is a single piece. */
  lemma PackIsGreedy(ps: seq<string>, m: nat)
    requires forall i :: 0 <= i < |ps| ==> ps[i] != []
    ensures IsGreedyPacking(Pack(ps, m), ps, m)
  {
    PackFromGreedy(ps, [], m);
    assert [] + ps == ps;
  }

  lemma GreedyPackingTail(gs: seq<seq<string>>, ps: seq<string>, m: nat)
    requires IsGreedyPacking(gs, ps, m) && gs != []
    ensures |gs[0]| <= |ps| && ps[..|gs[0]|] == gs[0]
    ensures IsGreedyPacking(gs[1..], ps[|gs[0]|..], m)
  {
    assert Concat(gs) == gs[0] + Concat(gs[1..]);
    forall i | 0 <= i < |gs| - 2 ensures |Concat(gs[1..][i])| + |gs[1..][i + 1][0]| > m {
      assert gs[1..][i] == gs[i + 1] && gs[1..][i + 1] == gs[i + 2];
    }
  }

  /** A greedy packing of non-empty pieces has no empty chunk. */
  lemma {:induction false} GreedyChunksNonEmpty(gs: seq<seq<string>>, ps: seq<string>, m: nat)
    requires IsGreedyPacking(gs, ps, m)
    requires forall i :: 0 <= i < |ps| ==> ps[i] != []
    ensures forall i :: 0 <= i < |gs| ==> Concat(gs[i]) != []
    decreases |gs|
  {
    if gs != [] {
      GreedyPackingTail(gs, ps, m);
      assert gs[0][0] == ps[0];
      GreedyChunksNonEmpty(gs[1..], ps[|gs[0]|..], m);
      forall i | 0 <= i < |gs| ensures Concat(gs[i]) != [] {
        if i == 0 {
          assert Concat(gs[0]) == gs[0][0] + Concat(gs[0][1..]);
        } else {
          assert gs[i] == gs[1..][i - 1];
        }
      }
    }
  }

  /** There is only one greedy packing of a sequence of pieces, so the greedy
      properties determine the packing loop's result. */
  lemma {:induction false} GreedyPackingUnique(gs: seq<seq<string>>, hs: seq<seq<string>>, ps: seq<string>, m: nat)
    requires IsGreedyPacking(gs, ps, m) && IsGreedyPacking(hs, ps, m)
    ensures gs == hs
    decreases |ps|
  {
    if gs != [] && hs != [] {
      GreedyPackingTail(gs, ps, m);
      GreedyPackingTail(hs, ps, m);
      FirstGroupsAgree(gs, hs, ps, m);
      FirstGroupsAgree(hs, gs, ps, m);
      assert gs[0] == hs[0];
      GreedyPackingUnique(gs[1..], hs[1..], ps[|gs[0]|..], m);
      assert gs == [gs[0]] + gs[1..] && hs == [hs[0]] + hs[1..];
    }
  }

  /** The first group of a greedy packing is at least as long as any other's. */
  lemma FirstGroupsAgree(gs: seq<seq<string>>, hs: seq<seq<string>>, ps: seq<string>, m: nat)
    requires IsGreedyPacking(gs, ps, m) && IsGreedyPacking(hs, ps, m)
    requires gs != [] && hs != []
    ensures |gs[0]| >= |hs[0]|
  {
    GreedyPackingTail(gs, ps, m);
    GreedyPackingTail(hs, ps, m);
    var g, h := gs[0], hs[0];
    if |g| < |h| {
      // `h` holds `g` and the piece after it, so `h` has two pieces or more and fits
      var rest := gs[1..];
      assert Concat(rest) == rest[0] + Concat(rest[1..]);
      assert gs[1][0] == ps[|g|] == h[|g|];
      assert h[..|g| + 1] == g + [h[|g|]];
      ConcatAppend(g, [h[|g|]]);
      ConcatSingle(h[|g|]);
      ConcatPrefixLength(h, |g| + 1);
      assert false;
    }
  }

  // ---------------------------------------------------------------------------
  // Forced slicing of over-long chunks (temp.py:57-64)

  /** The slices `c[i:i+m]` for `i` in `range(start, len(c), m)`. */
  function SlicesFrom(c: string, start: nat, m: nat): seq<string>
    requires m >= 1
    decreases |c| - start
  {
    if start >= |c| then [] else [c[start..Min(start + m, |c|)]] + SlicesFrom(c, start + m, m)
  }

  /** What happens to one chunk: kept when it fits, cut into slices otherwise. */
  function CutToFit(c: string, m: nat): seq<string>
    requires m >= 1
  {
    if |c| <= m then [c] else SlicesFrom(c, 0, m)
  }

  /** The final list: the chunks with every over-long one replaced by its slices. */
  function CutAll(cs: seq<string>, m: nat): seq<string>
    requires m >= 1
  {
    if cs == [] then [] else CutAll(cs[..|cs| - 1], m) + CutToFit(cs[|cs| - 1], m)
  }

  /** The slices of `c` from `start` on are non-empty, exactly `m` long except
      possibly the last, which is no longer, and together spell `c[start..]`. */
  lemma {:induction false} SlicesFromShape(c: string, start: nat, m: nat)
    requires m >= 1 && start <= |c|
    ensures Concat(SlicesFrom(c, start, m)) == c[start..]
    ensures forall i :: 0 <= i < |SlicesFrom(c, start, m)| ==> 0 < |SlicesFrom(c, start, m)[i]| <= m
    ensures forall i :: 0 <= i < |SlicesFrom(c, start, m)| - 1 ==> |SlicesFrom(c, start, m)[i]| == m
    decreases |c| - start
  {
    var r := SlicesFrom(c, start, m);
    if start < |c| {
      var next := Min(start + m, |c|);
      SlicesFromShape(c, next, m);
      var rest := SlicesFrom(c, next, m);
      if start + m < |c| {
        assert SlicesFrom(c, start + m, m) == rest;
      } else {
        assert rest == [];
        assert SlicesFrom(c, start + m, m) == [];
      }
      assert r == [c[start..next]] + rest;
      assert r[1..] == rest;
      assert forall i :: 1 <= i < |r| ==> r[i] == rest[i - 1];
      assert c[start..] == c[start..next] + c[next..];
    }
  }

  /** Forced slicing keeps every character and order, and every slice fits. */
  lemma CutToFitShape(c: string, m: nat)
    requires m >= 1 && c != []
    ensures Concat(CutToFit(c, m)) == c
    ensures forall i :: 0 <= i < |CutToFit(c, m)| ==> 0 < |CutToFit(c, m)[i]| <= m
    ensures forall i :: 0 <= i < |CutToFit(c, m)| - 1 ==> |CutToFit(c, m)[i]| == m
    ensures |c| <= m ==> CutToFit(c, m) == [c]
  {
    if |c| <= m {
      ConcatSingle(c);
    } else {
      SlicesFromShape(c, 0, m);
    }
  }

  lemma {:induction false} CutAllShape(cs: seq<string>, m: nat)
    requires m >= 1
    requires forall i :: 0 <= i < |cs| ==> cs[i] != []
    ensures Concat(CutAll(cs, m)) == Concat(cs)
    ensures forall i :: 0 <= i < |CutAll(cs, m)| ==> 0 < |CutAll(cs, m)[i]| <= m
  {
    if cs != [] {
      var init, last := cs[..|cs| - 1], cs[|cs| - 1];
      CutAllShape(init, m);
      CutToFitShape(last, m);
      ConcatAppend(CutAll(init, m), CutToFit(last, m));
      assert cs == init + [last];
      ConcatAppend(init, [last]);
      ConcatSingle(last);
      var a, b := CutAll(init, m), CutToFit(last, m);
      assert forall i :: |a| <= i < |a| + |b| ==> (a + b)[i] == b[i - |a|];
    }
  }

  // ---------------------------------------------------------------------------
  // The chunker

  /** The result of `split_into_sentences(text, m)`. */
  function Chunks(text: string, m: nat): seq<string>
    requires m >= 1
  {
    CutAll(Joined(Pack(NonEmpty(Pieces(Strip(text))), m)), m)
  }

  lemma {:induction false} JoinedConcat(gs: seq<seq<string>>)
    ensures Concat(Joined(gs)) == Concat(Concat(gs))
  {
    if gs != [] {
      assert Joined(gs) == [Concat(gs[0])] + Joined(gs[1..]);
      JoinedConcat(gs[1..]);
      ConcatAppend(gs[0], Concat(gs[1..]));
    }
  }

  /** Every chunk is non-empty and at most `m` characters long; put back
      together they are the stripped text without the whitespace that follows
      sentence ends, so no character that is not whitespace is lost. */
  lemma ChunksShape(text: string, m: nat)
    requires m >= 1
    ensures forall i :: 0 <= i < |Chunks(text, m)| ==> 0 < |Chunks(text, m)[i]| <= m
    ensures Concat(Chunks(text, m)) == Squeeze(Strip(text), false)
    ensures NonSpace(Concat(Chunks(text, m))) == NonSpace(text)
  {
    var ps := NonEmpty(Pieces(Strip(text)));
    var gs := Pack(ps, m);
    PackIsGreedy(ps, m);
    GreedyChunksNonEmpty(gs, ps, m);
    CutAllShape(Joined(gs), m);
    JoinedConcat(gs);
    NonEmptyConcat(Pieces(Strip(text)));
    PiecesConcat(Strip(text));
    SqueezeKeepsNonSpace(Strip(text), false);
    StripKeepsNonSpace(text);
  }

  /** Empty or whitespace-only input, and only that, gives no chunk. */
  lemma ChunksEmptyIff(text: string, m: nat)
    requires m >= 1
    ensures Chunks(text, m) == [] <==> forall i :: 0 <= i < |text| ==> IsSpace(text[i])
  {
    ChunksShape(text, m);
  }

  /** When the stripped text, without the whitespace after its sentence ends,
      fits in `m`, it comes back as the one chunk. */
  lemma ChunksFit(text: string, m: nat)
    requires m >= 1
    requires Squeeze(Strip(text), false) != [] && |Squeeze(Strip(text), false)| <= m
    ensures Chunks(text, m) == [Squeeze(Strip(text), false)]
  {
    var t := Squeeze(Strip(text), false);
    var ps := NonEmpty(Pieces(Strip(text)));
    assert Concat(ps) == t by {
      NonEmptyConcat(Pieces(Strip(text)));
      PiecesConcat(Strip(text));
    }
    assert Pack(ps, m) == [ps] by {
      PackIsGreedy(ps, m);
      ConcatSingle(ps);
      assert IsGreedyPacking([ps], ps, m);
      GreedyPackingUnique(Pack(ps, m), [ps], ps, m);
    }
    assert Joined([ps]) == [t];
    CutAllFits(t, m);
  }

  lemma CutAllFits(c: string, m: nat)
    requires 1 <= m && |c| <= m
    ensures CutAll([c], m) == [c]
  {
    assert [c][..0] == [];
  }

  /** A stripped text that fits in `m` and has no whitespace right after a
      sentence end is returned unchanged as the one chunk. */
  lemma ChunksFitUnchanged(text: string, m: nat)
    requires m >= 1
    requires 0 < |Strip(text)| <= m
    requires forall i :: 0 <= i < |Strip(text)| - 1 && IsSentenceEnd(Strip(text)[i]) ==> !IsSpace(Strip(text)[i + 1])
    ensures Chunks(text, m) == [Strip(text)]
  {
    SqueezeUnchanged(Strip(text), false);
    ChunksFit(text, m);
  }

  /** The first example: "你好。今天天气怎么样？" with the default bound is one chunk. */
  lemma TwoSentencesExample()
    ensures Chunks("你好。今天天气怎么样？", DefaultMaxChars) == ["你好。今天天气怎么样？"]
  {
    var text := "你好。今天天气怎么样？";
    assert !IsSpace(text[0]) && !IsSpace(text[|text| - 1]);
    assert Strip(text) == text;
    ChunksFitUnchanged(text, DefaultMaxChars);
  }

  /** Packing glues pieces together without the whitespace that followed a
      sentence end, so a chunk need not be a substring of the text. */
  lemma SpaceAfterEndDropped()
    ensures Chunks("Hi. Bye.", DefaultMaxChars) == ["Hi.Bye."]
  {
    var text := "Hi. Bye.";
    assert Strip(text) == text by {
      assert !IsSpace(text[0]) && !IsSpace(text[|text| - 1]);
    }
    HiByeSqueezed();
    ChunksFit(text, DefaultMaxChars);
  }

  lemma HiByeSqueezed()
    ensures Squeeze("Hi. Bye.", false) == "Hi.Bye."
  {
    assert Squeeze(" Bye.", true) == "Bye." by {
      SqueezeUnchanged("Bye.", false);
    }
    assert Squeeze(". Bye.", false) == ". Bye."[..1] + Squeeze(" Bye.", true);
    assert Squeeze("i. Bye.", false) == "i" + Squeeze(". Bye.", false);
  }

  /** The second example: 310 unpunctuated characters with the default bound
      give one slice of 300 characters and one of 10. */
  lemma LongSentenceExample(c: char)
    requires !IsSpace(c) && !IsSentenceEnd(c)
    ensures var text := seq(310, _ => c);
            Chunks(text, DefaultMaxChars) == [text[..300], text[300..]]
  {
    var text := seq(310, _ => c);
    var m := DefaultMaxChars;
    assert Strip(text) == text by {
      assert text[0] == c && text[|text| - 1] == c;
    }
    PiecesWithoutEnds(text);
    var one: seq<string> := [text];
    assert NonEmpty(one) == one by {
      assert one[1..] == [];
    }
    assert Pack(one, m) == [one] by {
      var nothing: seq<string> := [];
      assert Concat(nothing) == [];
      assert one[1..] == nothing;
      assert PackFrom(one, nothing, m) == PackFrom(nothing, one, m);
    }
    assert Joined([one]) == one by {
      ConcatSingle(text);
    }
    assert CutAll(one, m) == SlicesFrom(text, 0, m) by {
      assert one[..0] == [];
    }
    assert SlicesFrom(text, m, m) == [text[300..]];
  }

  // ---------------------------------------------------------------------------
  // split_into_sentences

  /** `split_into_sentences(text, max_chars)`: split the stripped text at
      sentence ends, pack the pieces greedily, then slice over-long chunks. */
  method SplitIntoSentences(text: string, maxChars: nat) returns (result: seq<string>)
    requires maxChars >= 1
    ensures result == Chunks(text, maxChars)
    ensures forall i :: 0 <= i < |result| ==> 0 < |result[i]| <= maxChars
    ensures Concat(result) == Squeeze(Strip(text), false)
  {
    var sentences := Pieces(Strip(text));
    var chunks := PackSentences(sentences, maxChars);
    result := SliceOverlong(chunks, maxChars);
    ChunksShape(text, maxChars);
  }

  /** The pieces from `k` on, after skipping, are piece `k` if it is not
      empty followed by the pieces from `k + 1` on. */
  lemma NonEmptyStep(ps: seq<string>, k: nat)
    requires k < |ps|
    ensures NonEmpty(ps[k..]) == (if ps[k] == [] then [] else [ps[k]]) + NonEmpty(ps[k + 1..])
  {
    assert ps[k..] == [ps[k]] + ps[k + 1..];
    NonEmptyAppend([ps[k]], ps[k + 1..]);
    NonEmptySingle(ps[k]);
  }

  /** One step of the packing loop at piece `k`: an empty piece is skipped, a
      piece that fits joins the buffer, and any other piece closes the buffer
      (when it holds something) and starts a new one. */
  lemma PackFromStep(ps: seq<string>, k: nat, cur: seq<string>, m: nat)
    requires k < |ps|
    ensures ps[k] == [] ==>
      PackFrom(NonEmpty(ps[k..]), cur, m) == PackFrom(NonEmpty(ps[k + 1..]), cur, m)
    ensures ps[k] != [] && |Concat(cur)| + |ps[k]| <= m ==>
      PackFrom(NonEmpty(ps[k..]), cur, m) == PackFrom(NonEmpty(ps[k + 1..]), cur + [ps[k]], m)
    ensures ps[k] != [] && |Concat(cur)| + |ps[k]| > m ==>
      PackFrom(NonEmpty(ps[k..]), cur, m)
      == (if cur == [] then [] else [cur]) + PackFrom(NonEmpty(ps[k + 1..]), [ps[k]], m)
  {
    var later := NonEmpty(ps[k + 1..]);
    NonEmptyStep(ps, k);
    if ps[k] != [] {
      assert NonEmpty(ps[k..]) == [ps[k]] + later;
      assert ([ps[k]] + later)[1..] == later;
    } else {
      assert NonEmpty(ps[k..]) == later;
    }
  }

  lemma JoinedSnoc(gs: seq<seq<string>>, g: seq<string>)
    ensures Joined(gs + [g]) == Joined(gs) + [Concat(g)]
  {
  }

  /** The packing loop (temp.py:43-55): a string buffer `current` takes the
      next non-empty piece while the sum of lengths stays within `maxChars`,
      otherwise it is closed as a chunk and restarted with that piece. */
  method PackSentences(sentences: seq<string>, maxChars: nat) returns (chunks: seq<string>)
    ensures chunks == Joined(Pack(NonEmpty(sentences), maxChars))
  {
    chunks := [];
    var current: string := "";
    ghost var groups: seq<seq<string>> := [];
    ghost var cur: seq<string> := [];
    for k := 0 to |sentences|
      invariant current == Concat(cur)
      invariant (current == []) == (cur == [])
      invariant chunks == Joined(groups)
      invariant groups + PackFrom(NonEmpty(sentences[k..]), cur, maxChars)
                == Pack(NonEmpty(sentences), maxChars)
    {
      var s := sentences[k];
      PackFromStep(sentences, k, cur, maxChars);
      if s == [] {
        continue;
      }
      if |current| + |s| <= maxChars {
        ConcatAppend(cur, [s]);
        ConcatSingle(s);
        current := current + s;
        cur := cur + [s];
      } else {
        ghost var closed: seq<seq<string>> := if cur == [] then [] else [cur];
        ghost var rest := PackFrom(NonEmpty(sentences[k + 1..]), [s], maxChars);
        assert groups + closed + rest == groups + (closed + rest);
        if current != [] {
          JoinedSnoc(groups, cur);
          chunks := chunks + [current];
          groups := groups + [cur];
        }
        ConcatSingle(s);
        current := s;
        cur := [s];
      }
    }
    if current != [] {
      JoinedSnoc(groups, cur);
      chunks := chunks + [current];
      groups := groups + [cur];
    }
    assert sentences == sentences[0..];
  }

  /** The fallback loop (temp.py:57-64): a chunk that fits is kept, a longer
      one is replaced by its slices `c[i:i+maxChars]`. */
  method SliceOverlong(chunks: seq<string>, maxChars: nat) returns (final: seq<string>)
    requires maxChars >= 1
    ensures final == CutAll(chunks, maxChars)
  {
    final := [];
    for j := 0 to |chunks|
      invariant final == CutAll(chunks[..j], maxChars)
    {
      var c := chunks[j];
      assert chunks[..j + 1][..j] == chunks[..j];
      if |c| <= maxChars {
        final := final + [c];
      } else {
        var i := 0;
        while i < |c|
          invariant final + SlicesFrom(c, i, maxChars) == CutAll(chunks[..j], maxChars) + SlicesFrom(c, 0, maxChars)
          decreases |c| - i
        {
          final := final + [c[i..Min(i + maxChars, |c|)]];
          i := i + maxChars;
        }
      }
    }
    assert chunks[..|chunks|] == chunks;
  }
}
