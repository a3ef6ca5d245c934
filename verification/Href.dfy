/** Percent-encoding, path sanitising, and the hrefs of a listing: whatever is listed can be
    requested. */
module Href {
  import opened Bytes
  import opened Paths
  import opened Namespace
  import opened Resolution
  import opened Records
  import opened Snapshot
  import opened SnapshotLookup

  const PERCENT: byte := 37
  const DOT: byte := 46

  /** Letters, digits, `-`, `_`, `.`, `~` and the separator stay as they are. */
  predicate Plain(b: byte) {
    65 <= b <= 90 || 97 <= b <= 122 || 48 <= b <= 57 || b == 45 || b == 95 || b == DOT || b == 126 || b == SLASH
  }

  function HexDigit(n: nat): byte
    requires n < 16
  {
    if n < 10 then (48 + n) as byte else (55 + n) as byte
  }

  /** The value of a hexadecimal digit of either case. */
  function HexValue(b: byte): (v: Option<nat>)
    ensures v.Some? ==> v.value < 16
  {
    if 48 <= b <= 57 then Some(b as int - 48)
    else if 65 <= b <= 70 then Some(b as int - 55)
    else if 97 <= b <= 102 then Some(b as int - 87)
    else None
  }

  function EncodeByte(b: byte): Str {
    if Plain(b) then [b] else [PERCENT, HexDigit(b as int / 16), HexDigit(b as int % 16)]
  }

  function Encoded(s: Str): Str {
    if s == [] then [] else EncodeByte(s[0]) + Encoded(s[1..])
  }

  /** The bytes behind the escapes; `None` for a malformed one. */
  function DecodedFrom(s: Str, i: nat): Option<Str>
    requires i <= |s|
    decreases |s| - i
  {
    if i == |s| then Some([])
    else if s[i] == PERCENT then
      if i + 3 > |s| || HexValue(s[i + 1]) == None || HexValue(s[i + 2]) == None then None
      else
        var rest := DecodedFrom(s, i + 3);
        if rest == None then None
        else Some([(HexValue(s[i + 1]).value * 16 + HexValue(s[i + 2]).value) as byte] + rest.value)
    else
      var rest := DecodedFrom(s, i + 1);
      if rest == None then None else Some([s[i]] + rest.value)
  }

  function PctDecoded(s: Str): Option<Str> {
    var bytes := DecodedFrom(s, 0);
    if bytes.Some? && Utf8(bytes.value) then bytes else None
  }

  method PctEncode(path: Str) returns (out: Str)
    ensures out == Encoded(path)
  {
    out := [];
    assert path[0..] == path;
    for i := 0 to |path|
      invariant Encoded(path) == out + Encoded(path[i..])
    {
      assert path[i..][0] == path[i] && path[i..][1..] == path[i + 1..];
      out := out + EncodeByte(path[i]);
    }
  }

  /** `out` in front of what the rest decodes to. */
  function Before(out: Str, rest: Option<Str>): Option<Str> {
    if rest == None then None else Some(out + rest.value)
  }

  lemma BeforeMore(out: Str, b: byte, rest: Option<Str>)
    ensures Before(out + [b], rest) == Before(out, Before([b], rest))
  {
    if rest.Some? { assert out + [b] + rest.value == out + ([b] + rest.value); }
  }

  method PctDecode(input: Str) returns (r: Option<Str>)
    ensures r == PctDecoded(input)
  {
    var out: Str := [];
    var i := 0;
    assert DecodedFrom(input, 0).Some? ==> [] + DecodedFrom(input, 0).value == DecodedFrom(input, 0).value;
    while i < |input|
      invariant i <= |input| && DecodedFrom(input, 0) == Before(out, DecodedFrom(input, i))
    {
      if input[i] == PERCENT {
        if i + 3 > |input| {
          return None;
        }
        var hi, lo := HexValue(input[i + 1]), HexValue(input[i + 2]);
        if hi == None || lo == None {
          return None;
        }
        var b := (hi.value * 16 + lo.value) as byte;
        BeforeMore(out, b, DecodedFrom(input, i + 3));
        out := out + [b];
        i := i + 3;
      } else {
        BeforeMore(out, input[i], DecodedFrom(input, i + 1));
        out := out + [input[i]];
        i := i + 1;
      }
    }
    assert out + [] == out;
    return if Utf8(out) then Some(out) else None;
  }

  // ---------------------------------------------------------------- round trip

  lemma HexRoundTrip(n: nat)
    requires n < 16
    ensures HexValue(HexDigit(n)) == Some(n)
  {
  }

  /** Decoding from a position looks only at what follows. */
  lemma {:induction false} DecodedSuffix(pre: Str, s: Str, i: nat)
    requires i <= |s|
    ensures DecodedFrom(pre + s, |pre| + i) == DecodedFrom(s, i)
    decreases |s| - i
  {
    if i < |s| {
      if s[i] == PERCENT {
        if i + 3 <= |s| { DecodedSuffix(pre, s, i + 3); }
      } else {
        DecodedSuffix(pre, s, i + 1);
      }
    }
  }

  lemma DecodedStep(b: byte, rest: Str)
    ensures DecodedFrom(EncodeByte(b) + rest, 0) == Before([b], DecodedFrom(rest, 0))
  {
    var e := EncodeByte(b);
    DecodedSuffix(e, rest, 0);
    HexRoundTrip(b as int / 16);
    HexRoundTrip(b as int % 16);
    assert b as int / 16 * 16 + b as int % 16 == b as int;
  }

  lemma NothingDecodes()
    ensures DecodedFrom([], 0) == Some([])
  {
  }

  lemma {:induction false} EncodedDecodes(s: Str)
    ensures DecodedFrom(Encoded(s), 0) == Some(s)
  {
    hide DecodedFrom, EncodeByte;
    if s == [] {
      NothingDecodes();
    } else {
      EncodedDecodes(s[1..]);
      DecodedStep(s[0], Encoded(s[1..]));
      assert [s[0]] + s[1..] == s;
    }
  }

  /** Decoding undoes encoding, for every string. */
  lemma PctRoundTrip(s: Str)
    requires Utf8(s)
    ensures PctDecoded(Encoded(s)) == Some(s)
  {
    EncodedDecodes(s);
  }

  lemma {:induction false} EncodedConcat(a: Str, b: Str)
    ensures Encoded(a + b) == Encoded(a) + Encoded(b)
  {
    if a == [] {
      assert a + b == b;
    } else {
      assert (a + b)[1..] == a[1..] + b;
      EncodedConcat(a[1..], b);
    }
  }

  // ---------------------------------------------------------------- what decodes

  /** `v` is the value of this hexadecimal digit, of either case. */
  predicate HexDigitIs(b: byte, v: int) {
    || (48 <= b <= 57 && v == b as int - 48)
    || (65 <= b <= 70 && v == b as int - 55)
    || (97 <= b <= 102 && v == b as int - 87)
  }

  /** `out` is what `s` stands for: every `%` begins an escape of two hexadecimal digits for the byte
      they spell, and every other byte stands for itself. */
  ghost predicate StandsFor(s: Str, out: Str)
    decreases |s|
  {
    if s == [] then out == []
    else if s[0] == 37 then
      && |s| >= 3 && out != [] && StandsFor(s[3..], out[1..])
      && exists hi, lo :: HexDigitIs(s[1], hi) && HexDigitIs(s[2], lo) && out[0] as int == 16 * hi + lo
    else out != [] && out[0] == s[0] && StandsFor(s[1..], out[1..])
  }

  /** On any input: decoding succeeds exactly if the input stands for a valid string, and gives that
      string. */
  lemma PctDecodesIff(s: Str, out: Str)
    ensures PctDecoded(s) == Some(out) <==> StandsFor(s, out) && Utf8(out)
  {
    DecodesIff(s, 0, out);
    assert s[0..] == s;
  }

  lemma {:induction false} DecodesIff(s: Str, i: nat, out: Str)
    requires i <= |s|
    ensures DecodedFrom(s, i) == Some(out) <==> StandsFor(s[i..], out)
    decreases |s| - i
  {
    if i < |s| {
      var t := s[i..];
      assert t[0] == s[i] && t[1..] == s[i + 1..];
      if out != [] { assert out == [out[0]] + out[1..]; }
      if s[i] == PERCENT {
        if i + 3 <= |s| {
          assert t[1] == s[i + 1] && t[2] == s[i + 2] && t[3..] == s[i + 3..];
          HexIs(s[i + 1]);
          HexIs(s[i + 2]);
          if out != [] { DecodesIff(s, i + 3, out[1..]); }
        }
      } else if out != [] {
        DecodesIff(s, i + 1, out[1..]);
      }
    }
  }

  lemma HexIs(b: byte)
    ensures forall v :: HexDigitIs(b, v) <==> v >= 0 && HexValue(b) == Some(v)
  {
  }

  // ---------------------------------------------------------------- what an encoded path may hold

  /** The unreserved characters of section 2.3 of RFC 3986, and the slash. */
  predicate UnreservedOrSlash(b: int) {
    65 <= b <= 90 || 97 <= b <= 122 || 48 <= b <= 57 || b == 45 || b == 46 || b == 95 || b == 126 || b == 47
  }

  predicate UpperHex(b: byte) { 48 <= b <= 57 || 65 <= b <= 70 }

  function UpperHexValue(b: byte): int { if b <= 57 then b as int - 48 else b as int - 55 }

  /** Unreserved characters and slashes, and `%` with two upper-case hexadecimal digits for any other
      byte. */
  predicate UriPath(s: Str) {
    s == [] ||
    if s[0] == 37 then
      && |s| >= 3 && UpperHex(s[1]) && UpperHex(s[2])
      && !UnreservedOrSlash(16 * UpperHexValue(s[1]) + UpperHexValue(s[2])) && UriPath(s[3..])
    else UnreservedOrSlash(s[0] as int) && UriPath(s[1..])
  }

  predicate NeedsNoEscape(s: Str) { forall i :: 0 <= i < |s| ==> UnreservedOrSlash(s[i] as int) }

  /** An encoded string is such a path: whatever is neither unreserved nor a slash is escaped, and
      nothing else is. */
  lemma {:induction false} EncodedIsUriPath(s: Str)
    ensures UriPath(Encoded(s)) && |Encoded(s)| >= |s|
    ensures Encoded(s) == s <==> NeedsNoEscape(s)
  {
    hide EncodeByte, NeedsNoEscape;
    if s == [] {
      NothingToEscape();
    } else {
      EncodedIsUriPath(s[1..]);
      EscapedByte(s[0]);
      NeedsNoEscapeCons(s);
      var e, rest := EncodeByte(s[0]), Encoded(s[1..]);
      assert (e + rest)[|e|..] == rest;
      assert [s[0]] + s[1..] == s;
    }
  }

  lemma NothingToEscape()
    ensures NeedsNoEscape([])
  {
  }

  lemma NeedsNoEscapeCons(s: Str)
    requires s != []
    ensures NeedsNoEscape(s) <==> UnreservedOrSlash(s[0] as int) && NeedsNoEscape(s[1..])
  {
    if NeedsNoEscape(s[1..]) {
      forall i | 0 < i < |s| ensures UnreservedOrSlash(s[i] as int) { assert s[1..][i - 1] == s[i]; }
    }
  }

  lemma EscapedByte(b: byte)
    ensures UnreservedOrSlash(b as int) ==> EncodeByte(b) == [b]
    ensures !UnreservedOrSlash(b as int) ==>
              var e := EncodeByte(b);
              && |e| == 3 && e[0] == 37 && UpperHex(e[1]) && UpperHex(e[2])
              && 16 * UpperHexValue(e[1]) + UpperHexValue(e[2]) == b as int
  {
  }

  // ---------------------------------------------------------------- sanitising

  predicate Control(b: byte) { b < 0x20 || b == 0x7f }

  const CONTROL_ERROR := "control characters are not allowed in paths"
  const DOTS_ERROR := "'..' segments are not allowed in paths"
  const ESCAPE_ERROR := "malformed percent-encoding in path"

  /** The segments without `.`; an error if one is `..`. */
  function KeptSegments(segs: seq<Str>): Result<seq<Str>> {
    if segs == [] then Success([])
    else if segs[0] == [DOT, DOT] then Failure(DOTS_ERROR)
    else
      var rest :- KeptSegments(segs[1..]);
      Success((if segs[0] == [DOT] then [] else [segs[0]]) + rest)
  }

  function Sanitized(raw: Str): Result<Str> {
    var decoded := PctDecoded(raw);
    if decoded == None then Failure(ESCAPE_ERROR)
    else if exists b :: b in decoded.value && Control(b) then Failure(CONTROL_ERROR)
    else
      var segs :- KeptSegments(Segments(decoded.value));
      Success(Render(segs))
  }

  method SanitizePath(raw: Str) returns (r: Result<Str>)
    ensures r == Sanitized(raw)
  {
    var decoded := PctDecode(raw);
    if decoded == None {
      return Failure(ESCAPE_ERROR);
    }
    for i := 0 to |decoded.value|
      invariant forall b :: b in decoded.value[..i] ==> !Control(b)
    {
      if Control(decoded.value[i]) {
        assert decoded.value[i] in decoded.value;
        return Failure(CONTROL_ERROR);
      }
      assert decoded.value[..i + 1] == decoded.value[..i] + [decoded.value[i]];
    }
    assert decoded.value[..|decoded.value|] == decoded.value;
    var pieces := Segments(decoded.value);
    var kept: seq<Str> := [];
    assert pieces[0..] == pieces;
    PrependNone(KeptSegments(pieces));
    for i := 0 to |pieces|
      invariant KeptSegments(pieces) == Prepend(kept, KeptSegments(pieces[i..]))
    {
      assert pieces[i..][0] == pieces[i] && pieces[i..][1..] == pieces[i + 1..];
      if pieces[i] == [DOT, DOT] {
        return Failure(DOTS_ERROR);
      }
      var piece := if pieces[i] == [DOT] then [] else [pieces[i]];
      PrependTwice(kept, piece, KeptSegments(pieces[i + 1..]));
      kept := kept + piece;
    }
    assert kept + [] == kept;
    return Success(Render(kept));
  }

  // ---------------------------------------------------------------- clean paths

  /** A segment a sanitised path can have. */
  ghost predicate CleanSeg(s: Str) {
    GoodSeg(s) && Utf8(s) && s != [DOT] && s != [DOT, DOT] && forall b :: b in s ==> !Control(b)
  }

  ghost predicate Clean(segs: seq<Str>) { forall s :: s in segs ==> CleanSeg(s) }

  lemma AsciiNotInside(s: Str, i: nat)
    requires 0 < i < |s| && s[i] < 0x80
    ensures i >= ScalarLen(s)
  {
  }

  /** A string of scalar values may be cut before any ASCII byte. */
  lemma {:induction false} Utf8Cut(s: Str, i: nat)
    requires Utf8(s) && i < |s| && s[i] < 0x80
    ensures Utf8(s[..i]) && Utf8(s[i..])
    decreases |s|
  {
    hide ScalarLen;
    if i > 0 {
      var n := ScalarLen(s);
      AsciiNotInside(s, i);
      if i == n {
        ScalarAlone(s);
      } else {
        Utf8Cut(s[n..], i - n);
        assert s[n..][i - n..] == s[i..];
        ScalarAlone(s);
        assert s[..i] == s[..n] + s[n..][..i - n];
        Utf8Concat(s[..n], s[n..][..i - n]);
      }
    }
  }

  lemma ScalarAlone(s: Str)
    requires ScalarLen(s) > 0
    ensures Utf8(s[..ScalarLen(s)])
  {
    var a := s[..ScalarLen(s)];
    assert ScalarLen(a) == |a|;
    assert a[|a|..] == [];
  }

  lemma {:induction false} SegmentsUtf8(p: Str)
    requires Utf8(p)
    ensures forall s :: s in Segments(p) ==> Utf8(s)
    decreases |p|
  {
    var i := FirstSlash(p);
    if i < |p| {
      Utf8Cut(p, i);
      assert ScalarLen(p[i..]) == 1;
      assert p[i..][1..] == p[i + 1..];
      SegmentsUtf8(p[i + 1..]);
    }
  }

  lemma {:induction false} SegmentsBytes(p: Str, s: Str, b: byte)
    requires s in Segments(p) && b in s
    ensures b in p
    decreases |p|
  {
    var i := FirstSlash(p);
    if i < |p| {
      if s in Segments(p[i + 1..]) {
        SegmentsBytes(p[i + 1..], s, b);
      } else {
        assert s == p[..i];
      }
    } else {
      assert s == p;
    }
  }

  lemma {:induction false} KeptAre(segs: seq<Str>)
    requires KeptSegments(segs).Success?
    ensures forall s :: s in KeptSegments(segs).value ==> s in segs && s != [DOT] && s != [DOT, DOT]
  {
    if segs != [] {
      KeptAre(segs[1..]);
      assert forall s :: s in segs[1..] ==> s in segs;
    }
  }

  lemma {:induction false} KeptAll(segs: seq<Str>)
    requires forall s :: s in segs ==> s != [DOT] && s != [DOT, DOT]
    ensures KeptSegments(segs) == Success(segs)
  {
    if segs != [] {
      assert segs[0] in segs && forall s :: s in segs[1..] ==> s in segs;
      KeptAll(segs[1..]);
      assert [segs[0]] + segs[1..] == segs;
    }
  }

  /** A path that passes is in normal form with clean segments. */
  lemma SanitizedIsClean(raw: Str) returns (segs: seq<Str>)
    requires Sanitized(raw).Success?
    ensures Clean(segs) && Sanitized(raw) == Success(Render(segs))
  {
    hide Utf8, Segments;
    var d := PctDecoded(raw).value;
    segs := KeptSegments(Segments(d)).value;
    KeptAre(Segments(d));
    SegmentsAreGood(d);
    SegmentsUtf8(d);
    forall s, b | s in segs && b in s ensures !Control(b) { SegmentsBytes(d, s, b); }
  }

  /** The segments other than `.`. */
  function WithoutDots(segs: seq<Str>): seq<Str> {
    if segs == [] then [] else (if segs[0] == [46] then [] else [segs[0]]) + WithoutDots(segs[1..])
  }

  /** On any input: a request path passes exactly if it decodes, no byte of it is a control character
      and no segment is `..`; what is left are its segments without `.`, in normal form. */
  lemma SanitizesIff(raw: Str, p: Str)
    ensures Sanitized(raw) == Success(p) <==>
            var d := PctDecoded(raw);
            && d.Some? && (forall b :: b in d.value ==> 32 <= b && b != 127) && [46, 46] !in Segments(d.value)
            && p == Render(WithoutDots(Segments(d.value)))
  {
    hide PctDecoded, Segments, Render;
    var d := PctDecoded(raw);
    if d.Some? { KeptIff(Segments(d.value)); }
  }

  lemma {:induction false} KeptIff(segs: seq<Str>)
    ensures KeptSegments(segs).Success? <==> [46, 46] !in segs
    ensures KeptSegments(segs).Success? ==> KeptSegments(segs).value == WithoutDots(segs)
  {
    if segs != [] {
      KeptIff(segs[1..]);
      assert segs == [segs[0]] + segs[1..];
    }
  }

  lemma {:induction false} FlatBytes(segs: seq<Str>, b: byte)
    requires b in Flat(segs)
    ensures b == SLASH || exists s :: s in segs && b in s
  {
    if segs != [] {
      if b in Flat(segs[1..]) && b != SLASH { FlatBytes(segs[1..], b); }
      assert b in [SLASH] || b in segs[0] || b in Flat(segs[1..]);
      assert segs[0] in segs;
    }
  }

  lemma CleanPathUtf8(segs: seq<Str>)
    requires Clean(segs)
    ensures Utf8(Render(segs))
  {
    FlatUtf8(segs);
    Utf8Ascii(SLASH);
  }

  /** A percent-encoded clean path, with or without a trailing slash, is sanitised to itself. */
  lemma CleanPathSanitizes(segs: seq<Str>)
    requires Clean(segs)
    ensures Sanitized(Encoded(Render(segs))) == Success(Render(segs))
    ensures Sanitized(Encoded(Render(segs)) + [SLASH]) == Success(Render(segs))
  {
    hide Encoded, PctDecoded, Utf8, Segments;
    var p := Render(segs);
    CleanPathUtf8(segs);
    Utf8Ascii(SLASH);
    Utf8Concat(p, [SLASH]);
    PctRoundTrip(p);
    PctRoundTrip(p + [SLASH]);
    EncodedSlash(p);
    forall b | b in p ensures !Control(b) {
      if b != SLASH { FlatBytes(segs, b); }
    }
    SegmentsOfRender(segs);
    TrailingSlash(p);
    KeptAll(segs);
  }

  lemma TrailingSlash(p: Str)
    ensures Segments(p + [SLASH]) == Segments(p)
  {
    SegmentsAtSlash(p, []);
    SegmentsOfSegment([]);
    assert p + [SLASH] + [] == p + [SLASH];
  }

  lemma EncodedSlash(p: Str)
    ensures Encoded(p + [SLASH]) == Encoded(p) + [SLASH]
  {
    EncodedConcat(p, [SLASH]);
    assert Encoded([SLASH]) == [SLASH];
  }

  // ---------------------------------------------------------------- listings

  predicate OnlySlashes(path: Str) { TrimEnd(path) == [] }

  /** The href of the listed resource itself. */
  function SelfHref(path: Str): Str { if OnlySlashes(path) then [SLASH] else Normalize(path) }

  /** The href of a child of the listed directory. */
  function ChildHref(path: Str, name: Str): Str {
    if OnlySlashes(path) then [SLASH] + name else TrimEnd(path) + [SLASH] + name
  }

  /** The href as it stands in the response: encoded, with a trailing slash for directories. */
  function ResponseHref(href: Str, isDir: bool): Str {
    var e := Encoded(href);
    if isDir && (e == [] || e[|e| - 1] != SLASH) then e + [SLASH] else e
  }

  lemma ChildHrefIsPath(segs: seq<Str>, name: Str)
    requires GoodSegs(segs) && GoodSeg(name)
    ensures ChildHref(Render(segs), name) == Render(segs + [name])
  {
    FlatConcat(segs, [name]);
    assert Flat([name]) == [SLASH] + name;
    if segs == [] {
      assert TrimEnd([SLASH]) == TrimEnd([]) == [];
      assert [] + [name] == [name];
    } else {
      RenderEnd(segs);
      assert TrimEnd(Render(segs)) == Render(segs);
    }
  }

  lemma RenderEnd(segs: seq<Str>)
    requires GoodSegs(segs) && segs != []
    ensures var p := Render(segs); p[|p| - 1] != SLASH
  {
    var init, last := segs[..|segs| - 1], segs[|segs| - 1];
    assert segs == init + [last];
    assert GoodSeg(last);
    FlatConcat(init, [last]);
    assert Flat([last]) == [SLASH] + last;
    var p := Render(segs);
    assert p == Flat(init) + [SLASH] + last;
    assert p[|p| - 1] == last[|last| - 1];
    assert last[|last| - 1] in last;
  }

  /** The href a listing gives for a child, sanitised as a request path, is that child's path. */
  lemma ListedHrefSanitizes(segs: seq<Str>, name: Str, isDir: bool)
    requires Clean(segs) && CleanSeg(name)
    ensures Sanitized(ResponseHref(ChildHref(Render(segs), name), isDir)) == Success(Render(segs + [name]))
  {
    hide Encoded, Sanitized, Render, ChildHref, Utf8;
    ChildHrefIsPath(segs, name);
    CleanPathSanitizes(segs + [name]);
  }

  /** Encoding makes no trailing slash and drops none. */
  lemma EncodedEnd(p: Str)
    requires p != []
    ensures var e := Encoded(p); e != [] && (e[|e| - 1] == SLASH <==> p[|p| - 1] == SLASH)
  {
    var init, b := p[..|p| - 1], p[|p| - 1];
    assert p == init + [b];
    EncodedConcat(init, [b]);
    assert Encoded([b]) == EncodeByte(b) by { assert [b][1..] == []; assert EncodeByte(b) + [] == EncodeByte(b); }
  }

  /** The response's href of a path: it ends in a slash for a directory and in none for a file. */
  lemma HrefShowsKind(segs: seq<Str>, isDir: bool)
    requires Clean(segs) && segs != []
    ensures var h := ResponseHref(Render(segs), isDir);
            && h != [] && (h[|h| - 1] == 47 <==> isDir)
            && PctDecoded(h) == Some(Render(segs) + (if isDir then [47] else []))
  {
    hide PctDecoded, Utf8, Encoded, Render;
    var p := Render(segs);
    CleanPathUtf8(segs);
    Utf8Ascii(SLASH);
    Utf8Concat(p, [SLASH]);
    PctRoundTrip(p);
    PctRoundTrip(p + [SLASH]);
    EncodedSlash(p);
    EncodedEnd(p);
    RenderEnd(segs);
    assert p + [] == p;
  }

  /** Of any path string the href of the resource is the normal form, and a trailing slash of the
      directory makes no difference to the hrefs of its children. */
  lemma HrefsOfAnyPath(p: Str, name: Str)
    ensures SelfHref(p) == Render(Segments(p))
    ensures ChildHref(p + [SLASH], name) == ChildHref(p, name)
  {
    SegmentsOfTrimmed(p);
    if TrimEnd(p) == [] { SegmentsOfSegment([]); }
    assert (p + [SLASH])[..|p|] == p;
    assert TrimEnd(p + [SLASH]) == TrimEnd(p);
  }

  lemma SelfHrefIsPath(segs: seq<Str>)
    requires Clean(segs)
    ensures SelfHref(Render(segs)) == Render(segs)
  {
    hide Utf8, Segments;
    SegmentsOfRender(segs);
    HrefsOfAnyPath(Render(segs), []);
  }

  /** The hrefs of a listing: of the resource itself and of a child, each decodes to its path, with one
      more slash exactly for a directory; of the root it is the slash alone. */
  lemma ListedHrefsShowKind(segs: seq<Str>, name: Str, isDir: bool)
    requires Clean(segs) && CleanSeg(name)
    ensures var h := ResponseHref(ChildHref(Render(segs), name), isDir);
            && h != [] && (h[|h| - 1] == 47 <==> isDir)
            && PctDecoded(h) == Some(Render(segs + [name]) + (if isDir then [47] else []))
    ensures segs != [] ==>
              var h := ResponseHref(SelfHref(Render(segs)), isDir);
              && h != [] && (h[|h| - 1] == 47 <==> isDir)
              && PctDecoded(h) == Some(Render(segs) + (if isDir then [47] else []))
    ensures segs == [] ==> ResponseHref(SelfHref(Render(segs)), isDir) == [47]
  {
    hide PctDecoded, Utf8, Encoded, Segments, ChildHref, SelfHref, ResponseHref;
    ChildHrefIsPath(segs, name);
    HrefShowsKind(segs + [name], isDir);
    SelfHrefIsPath(segs);
    if segs == [] { RootHref(isDir); } else { HrefShowsKind(segs, isDir); }
  }

  lemma RootHref(isDir: bool)
    ensures ResponseHref([SLASH], isDir) == [47]
  {
    assert Encoded([SLASH]) == [SLASH];
  }

  /** The href a listing gives for the resource itself, sanitised as a request path, is the path
      that was asked for. */
  lemma SelfHrefSanitizes(segs: seq<Str>, isDir: bool)
    requires Clean(segs)
    ensures Sanitized(ResponseHref(SelfHref(Render(segs)), isDir)) == Success(Render(segs))
  {
    hide Encoded, Sanitized, Utf8, SelfHref;
    CleanPathSanitizes(segs);
    SelfHrefIsPath(segs);
  }

  /** The first entry of a listing is found again: for a request path that passes, the href of what
      the lookup found is sanitised to that very path. */
  lemma ListedSelfIsFound(file: Option<Str>, raw: Str)
    requires Sanitized(raw).Success?
    requires var hit := LookupFile(file, Sanitized(raw).value); hit.Success? && hit.value.Some?
    ensures var path := Sanitized(raw).value;
            var hit := LookupFile(file, path);
            var again := Sanitized(ResponseHref(SelfHref(path), hit.value.value.info.isDir));
            again == Success(path) && LookupFile(file, again.value) == hit
  {
    hide Sanitized, LookupFile, ResponseHref, SelfHref, Render;
    var segs := SanitizedIsClean(raw);
    SelfHrefSanitizes(segs, LookupFile(file, Sanitized(raw).value).value.value.info.isDir);
  }

  /** Listing closure: for a request path that passes, every child of the directory it finds
      is listed under an href that, requested in turn, finds that same child. */
  lemma ListedChildIsFound(t: Tree, dirs: seq<Dir>, meta: Str, raw: Str, c: ChildInfo)
    requires WellFormed(t) && GoodNames(t) && IsDirList(t, dirs) && Fits(t, dirs, meta)
    requires Sanitized(raw).Success?
    requires var path := Sanitized(raw).value;
             var hit := LookupFile(Some(FileBytes(t, dirs, meta)), path);
             hit.Success? && hit.value.Some? && hit.value.value.DirHit? && c in hit.value.value.children && CleanSeg(c.name)
    ensures var path := Sanitized(raw).value;
            var again := Sanitized(ResponseHref(ChildHref(path, c.name), c.isDir));
            && again.Success?
            && var hit := LookupFile(Some(FileBytes(t, dirs, meta)), again.value);
               hit.Success? && hit.value.Some? && hit.value.value.info == c && (hit.value.value.DirHit? ==> c.isDir)
  {
    hide Sanitized, LookupFile, FileBytes, Fits, IsDirList, WellFormed, GoodNames, Answer, ResponseHref, ChildHref, CleanSeg, Render;
    var segs := SanitizedIsClean(raw);
    LookupAnswers(t, dirs, meta, Render(segs));
    ListedHrefSanitizes(segs, c.name, c.isDir);
    LookupAnswers(t, dirs, meta, Render(segs + [c.name]));
    ChildAnswers(t, segs, c);
  }

  lemma ChildAnswers(t: Tree, segs: seq<Str>, c: ChildInfo)
    requires WellFormed(t) && Clean(segs) && CleanSeg(c.name)
    requires var a := Answer(t, Render(segs)); a.Some? && a.value.DirHit? && c in a.value.children
    ensures var a := Answer(t, Render(segs + [c.name])); a.Some? && a.value.info == c && (a.value.DirHit? ==> c.isDir)
  {
    hide Segments, Render, LastSegment, ChildList, HasRow, SoleRoot, Utf8;
    SegmentsOfRender(segs);
    SegmentsOfRender(segs + [c.name]);
    var id := Resolve(t, segs).value;
    ChildIsPlaced(t, id, c);
    ChildNamedIs(t, id, c.name, c.id);
    ResolveSnoc(t, segs, c.name);
    HelpersOnRender(segs + [c.name]);
    assert (segs + [c.name])[..|segs|] == segs;
    NotRootRow(t, c.id);
  }

  lemma NotRootRow(t: Tree, id: Id)
    requires SoleRoot(t) && id in t.nodes && t.nodes[id].parent.Some?
    ensures HasRow(t, id) ==> t.nodes[id].meta.isDir
  {
  }
}
