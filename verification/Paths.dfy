/** Slash-separated paths: splitting, rendering and the parent/last-segment helpers. */
module Paths {
  import opened Bytes

  predicate GoodSeg(s: Str) { s != [] && SLASH !in s }

  predicate GoodSegs(segs: seq<Str>) { forall s :: s in segs ==> GoodSeg(s) }

  /** Index of the first slash, or the length if there is none. */
  function FirstSlash(p: Str): (i: nat)
    ensures i <= |p|
    ensures SLASH !in p[..i]
    ensures i < |p| ==> p[i] == SLASH
  {
    if p == [] || p[0] == SLASH then 0 else 1 + FirstSlash(p[1..])
  }

  /** The non-empty pieces between slashes (`split('/')` then `filter`). */
  function Segments(p: Str): seq<Str>
    decreases |p|
  {
    var i := FirstSlash(p);
    if i == |p| then Piece(p) else Piece(p[..i]) + Segments(p[i + 1..])
  }

  function Piece(s: Str): seq<Str> { if s == [] then [] else [s] }

  lemma {:induction false} SegmentsAreGood(p: Str)
    ensures GoodSegs(Segments(p))
    decreases |p|
  {
    var i := FirstSlash(p);
    assert SLASH !in p[..i];
    if i < |p| {
      SegmentsAreGood(p[i + 1..]);
    } else {
      assert p[..i] == p;
    }
  }

  /** `/a/b/c`, with a leading slash for every segment. */
  function Flat(segs: seq<Str>): Str {
    if segs == [] then [] else [SLASH] + segs[0] + Flat(segs[1..])
  }

  /** The path with exactly these segments; `/` for none. */
  function Render(segs: seq<Str>): (p: Str)
    ensures p != [] && p[0] == SLASH
  {
    if segs == [] then [SLASH] else Flat(segs)
  }

  function Normalize(p: Str): Str { Render(Segments(p)) }

  /** `trim_end_matches('/')`. */
  function TrimEnd(p: Str): (r: Str)
    ensures r <= p
    ensures r == [] || r[|r| - 1] != SLASH
    decreases |p|
  {
    if p != [] && p[|p| - 1] == SLASH then TrimEnd(p[..|p| - 1]) else p
  }

  /** The start of what follows the last slash; 0 if there is no slash (`rfind`). */
  function AfterLastSlash(p: Str): (i: nat)
    ensures i <= |p|
    ensures SLASH !in p[i..]
    ensures i > 0 ==> p[i - 1] == SLASH
  {
    if p == [] then 0
    else if p[|p| - 1] == SLASH then |p|
    else
      var i := AfterLastSlash(p[..|p| - 1]);
      assert p[i..] == p[..|p| - 1][i..] + [p[|p| - 1]];
      i
  }

  function ParentPath(p: Str): Str {
    BeforeSlash(TrimEnd(p), AfterLastSlash(TrimEnd(p)))
  }

  function BeforeSlash(t: Str, i: nat): Str
    requires i <= |t|
  {
    if i <= 1 then [SLASH] else t[..i - 1]
  }

  function LastSegment(p: Str): Str {
    var t := TrimEnd(p);
    t[AfterLastSlash(t)..]
  }

  // ---------------------------------------------------------------- splitting

  lemma {:induction false} FirstSlashIs(p: Str, i: nat)
    requires i <= |p| && SLASH !in p[..i] && (i < |p| ==> p[i] == SLASH)
    ensures FirstSlash(p) == i
  {
    if i > 0 {
      assert p[0] in p[..i];
      assert p[1..][..i - 1] == p[..i][1..];
      FirstSlashIs(p[1..], i - 1);
    }
  }

  lemma FirstSlashOf(s: Str, rest: Str)
    requires SLASH !in s
    ensures FirstSlash(s + [SLASH] + rest) == |s|
    ensures FirstSlash(s) == |s|
  {
    var p := s + [SLASH] + rest;
    assert p[..|s|] == s && s[..|s|] == s;
    FirstSlashIs(p, |s|);
    FirstSlashIs(s, |s|);
  }

  lemma SegmentsStep(head: Str, rest: Str)
    requires SLASH !in head
    ensures Segments(head + [SLASH] + rest) == Piece(head) + Segments(rest)
  {
    var p := head + [SLASH] + rest;
    FirstSlashOf(head, rest);
    assert p[..|head|] == head && p[|head| + 1..] == rest;
  }

  lemma SegmentsOfSegment(s: Str)
    requires SLASH !in s
    ensures Segments(s) == Piece(s)
  {
    FirstSlashOf(s, []);
  }

  /** Splitting at a slash splits the segments. */
  lemma {:induction false} SegmentsAtSlash(a: Str, b: Str)
    ensures Segments(a + [SLASH] + b) == Segments(a) + Segments(b)
    decreases |a|
  {
    var i := FirstSlash(a);
    if i == |a| {
      assert a[..i] == a;
      SegmentsStep(a, b);
      SegmentsOfSegment(a);
    } else {
      var head, rest := a[..i], a[i + 1..];
      Regroup(head, rest, b);
      assert a == head + [SLASH] + rest;
      calc {
        Segments(a + [SLASH] + b);
        Segments(head + [SLASH] + (rest + [SLASH] + b));
        { SegmentsStep(head, rest + [SLASH] + b); }
        Piece(head) + Segments(rest + [SLASH] + b);
        { SegmentsAtSlash(rest, b); }
        Piece(head) + (Segments(rest) + Segments(b));
        Piece(head) + Segments(rest) + Segments(b);
        { SegmentsStep(head, rest); }
        Segments(a) + Segments(b);
      }
    }
  }

  lemma Regroup(a: Str, b: Str, c: Str)
    ensures a + [SLASH] + b + [SLASH] + c == a + [SLASH] + (b + [SLASH] + c)
  {
  }

  lemma SegmentsBehindSlash(p: Str)
    ensures Segments([SLASH] + p) == Segments(p)
  {
    assert [SLASH] + p == [] + [SLASH] + p;
    SegmentsAtSlash([], p);
    assert Segments([]) == [];
  }

  /** Rendering and splitting are inverse on segment lists. */
  lemma {:induction false} SegmentsOfFlat(segs: seq<Str>)
    requires GoodSegs(segs)
    ensures Segments(Flat(segs)) == segs
  {
    if segs == [] {
      SegmentsOfSegment([]);
    } else {
      assert GoodSeg(segs[0]);
      SegmentsOfFlat(segs[1..]);
      SegmentsOfFlatStep(segs[0], Flat(segs[1..]));
    }
  }

  lemma SegmentsOfFlatStep(s: Str, rest: Str)
    requires GoodSeg(s) && (rest == [] || rest[0] == SLASH)
    ensures Segments([SLASH] + s + rest) == [s] + Segments(rest)
  {
    assert [SLASH] + s + rest == [SLASH] + (s + rest);
    SegmentsBehindSlash(s + rest);
    SegmentsOfSegment(s);
    if rest == [] {
      assert s + rest == s;
      SegmentsOfSegment([]);
    } else {
      assert rest == [SLASH] + rest[1..];
      assert s + rest == s + [SLASH] + rest[1..];
      SegmentsAtSlash(s, rest[1..]);
      SegmentsBehindSlash(rest[1..]);
    }
  }

  lemma SegmentsOfRender(segs: seq<Str>)
    requires GoodSegs(segs)
    ensures Segments(Render(segs)) == segs
  {
    SegmentsOfFlat(segs);
    if segs == [] {
      assert [SLASH] == [] + [SLASH] + [];
      SegmentsAtSlash([], []);
    }
  }

  /** Two segment lists with the same rendering are the same. */
  lemma RenderInjective(a: seq<Str>, b: seq<Str>)
    requires GoodSegs(a) && GoodSegs(b) && Render(a) == Render(b)
    ensures a == b
  {
    SegmentsOfRender(a);
    SegmentsOfRender(b);
  }

  lemma {:induction false} FlatConcat(a: seq<Str>, b: seq<Str>)
    ensures Flat(a + b) == Flat(a) + Flat(b)
  {
    if a == [] {
      assert a + b == b;
    } else {
      assert (a + b)[1..] == a[1..] + b;
      FlatConcat(a[1..], b);
    }
  }

  lemma {:induction false} SegmentsOfTrimmed(p: Str)
    ensures Segments(TrimEnd(p)) == Segments(p)
    decreases |p|
  {
    if p != [] && p[|p| - 1] == SLASH {
      var q := p[..|p| - 1];
      assert p == q + [SLASH] + [];
      SegmentsAtSlash(q, []);
      SegmentsOfTrimmed(q);
    }
  }

  lemma {:induction false} AfterLastSlashIs(p: Str, i: nat)
    requires i <= |p| && SLASH !in p[i..] && (i > 0 ==> p[i - 1] == SLASH)
    ensures AfterLastSlash(p) == i
  {
    if i < |p| {
      var q := p[..|p| - 1];
      assert p[|p| - 1] in p[i..];
      assert q[i..] == p[i..][..|p| - 1 - i];
      AfterLastSlashIs(q, i);
    }
  }

  /** For every path the two helpers split its segment list into the last one and the rest;
      a path without segments has an empty last segment and parent `/`. */
  lemma HelpersSplitSegments(p: Str)
    ensures Segments(p) == [] ==> LastSegment(p) == [] && Segments(ParentPath(p)) == []
    ensures Segments(p) != [] ==>
              && LastSegment(p) == Segments(p)[|Segments(p)| - 1]
              && Segments(ParentPath(p)) == Segments(p)[..|Segments(p)| - 1]
  {
    ParentSegments(p);
    SegmentsOfTrimmed(p);
    SplitAtLast(TrimEnd(p));
  }

  function InitSegments(t: Str): seq<Str> {
    var i := AfterLastSlash(t);
    if i <= 1 then [] else Segments(t[..i - 1])
  }

  lemma ParentSegments(p: Str)
    ensures Segments(ParentPath(p)) == InitSegments(TrimEnd(p))
  {
    SegmentsOfRender([]);
    InitIsBeforeSlash(TrimEnd(p), AfterLastSlash(TrimEnd(p)));
  }

  lemma InitIsBeforeSlash(t: Str, i: nat)
    requires i == AfterLastSlash(t) && Segments([SLASH]) == []
    ensures Segments(BeforeSlash(t, i)) == InitSegments(t)
  {
    hide Segments, AfterLastSlash, TrimEnd;
  }

  lemma SplitAtSlash(t: Str, i: nat)
    requires 0 < i <= |t| && t[i - 1] == SLASH && SLASH !in t[i..]
    ensures Segments(t) == Segments(t[..i - 1]) + Piece(t[i..])
  {
    assert t == t[..i - 1] + [SLASH] + t[i..];
    SegmentsAtSlash(t[..i - 1], t[i..]);
    SegmentsOfSegment(t[i..]);
  }

  lemma SplitAtLast(t: Str)
    requires t == [] || t[|t| - 1] != SLASH
    ensures t == [] <==> Segments(t) == []
    ensures t != [] ==> Segments(t) == InitSegments(t) + [t[AfterLastSlash(t)..]]
  {
    var i := AfterLastSlash(t);
    if i == 0 {
      assert t[i..] == t;
      SegmentsOfSegment(t);
    } else {
      SplitAtSlash(t, i);
      assert Piece(t[i..]) == [t[i..]];
      if i == 1 {
        assert t[..0] == [];
        SegmentsOfSegment([]);
      }
    }
  }

  /** The helpers on a rendered path. */
  lemma HelpersOnRender(segs: seq<Str>)
    requires GoodSegs(segs) && segs != []
    ensures LastSegment(Render(segs)) == segs[|segs| - 1]
    ensures ParentPath(Render(segs)) == Render(segs[..|segs| - 1])
  {
    var init, last := segs[..|segs| - 1], segs[|segs| - 1];
    assert segs == init + [last];
    assert GoodSeg(last);
    FlatConcat(init, [last]);
    assert Flat([last]) == [SLASH] + last;
    var p, i := Render(segs), |Flat(init)| + 1;
    assert p == Flat(init) + [SLASH] + last;
    assert p[i..] == last && p[..i - 1] == Flat(init);
    assert p[|p| - 1] in last;
    assert TrimEnd(p) == p;
    AfterLastSlashIs(p, i);
  }
}
