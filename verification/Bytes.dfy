/** Byte strings: the byte-lexicographic order Rust uses for `String`, UTF-8 validity,
    and the little-endian integers of the snapshot format. */
module Bytes {

  newtype byte = x: int | 0 <= x < 256

  /** A Rust string, seen as its bytes. */
  type Str = seq<byte>

  const SLASH: byte := 47

  const U32_SPAN: int := 0x1_0000_0000
  const U64_SPAN: int := 0x1_0000_0000_0000_0000

  type u64 = x: int | 0 <= x < 0x1_0000_0000_0000_0000

  datatype Option<+T> = None | Some(value: T)

  datatype Result<+T> = Success(value: T) | Failure(error: string) {
    predicate IsFailure() { Failure? }
    function PropagateFailure<U>(): (r: Result<U>)
      requires Failure?
    {
      Failure(error)
    }
    function Extract(): T
      requires Success?
    {
      value
    }
  }

  // ---------------------------------------------------------------- order

  /** Strict byte-lexicographic order; a proper prefix comes first. */
  predicate Less(a: Str, b: Str) {
    if b == [] then false
    else if a == [] then true
    else a[0] < b[0] || (a[0] == b[0] && Less(a[1..], b[1..]))
  }

  lemma {:induction false} LessIrreflexive(a: Str)
    ensures !Less(a, a)
  {
    if a != [] { LessIrreflexive(a[1..]); }
  }

  lemma {:induction false} LessTransitive(a: Str, b: Str, c: Str)
    requires Less(a, b) && Less(b, c)
    ensures Less(a, c)
  {
    if a != [] && b != [] && a[0] == b[0] && b[0] == c[0] {
      LessTransitive(a[1..], b[1..], c[1..]);
    }
  }

  lemma {:induction false} LessConnected(a: Str, b: Str)
    requires a != b
    ensures Less(a, b) || Less(b, a)
  {
    if a != [] && b != [] && a[0] == b[0] {
      assert a == [a[0]] + a[1..] && b == [b[0]] + b[1..];
      LessConnected(a[1..], b[1..]);
    }
  }

  lemma LessAsymmetric(a: Str, b: Str)
    requires Less(a, b)
    ensures !Less(b, a) && a != b
  {
    LessIrreflexive(a);
    if Less(b, a) { LessTransitive(a, b, a); }
  }

  /** A proper prefix is smaller. */
  lemma {:induction false} PrefixIsLess(a: Str, s: Str)
    requires s != []
    ensures Less(a, a + s)
  {
    if a != [] {
      assert (a + s)[1..] == a[1..] + s;
      PrefixIsLess(a[1..], s);
    }
  }

  /** The two part at `i`, where the first has the smaller byte. */
  predicate PartsBelow(a: Str, b: Str, i: nat) { i < |a| && i < |b| && a[..i] == b[..i] && a[i] < b[i] }

  /** The order by its first difference: a proper prefix, or the smaller byte where the two part. */
  lemma LessIffFirstDifference(a: Str, b: Str)
    ensures Less(a, b) <==> a < b || exists i: nat :: PartsBelow(a, b, i)
  {
    if Less(a, b) { FirstDifference(a, b); }
    if a < b {
      assert b == a + b[|a|..];
      PrefixIsLess(a, b[|a|..]);
    }
    forall i: nat | PartsBelow(a, b, i) ensures Less(a, b) { PartsBelowIsLess(a, b, i); }
  }

  lemma {:induction false} FirstDifference(a: Str, b: Str)
    requires Less(a, b)
    ensures a < b || exists i: nat :: PartsBelow(a, b, i)
  {
    if a != [] {
      if a[0] < b[0] {
        assert PartsBelow(a, b, 0);
      } else {
        FirstDifference(a[1..], b[1..]);
        assert a == [a[0]] + a[1..] && b == [b[0]] + b[1..];
        if i: nat :| PartsBelow(a[1..], b[1..], i) {
          assert a[..i + 1] == [a[0]] + a[1..][..i] && b[..i + 1] == [b[0]] + b[1..][..i];
          assert PartsBelow(a, b, i + 1);
        }
      }
    }
  }

  lemma {:induction false} PartsBelowIsLess(a: Str, b: Str, i: nat)
    requires PartsBelow(a, b, i)
    ensures Less(a, b)
    decreases i
  {
    if i > 0 {
      assert a[0] == a[..i][0] == b[..i][0] == b[0];
      assert a[1..][..i - 1] == a[..i][1..] && b[1..][..i - 1] == b[..i][1..];
      PartsBelowIsLess(a[1..], b[1..], i - 1);
    }
  }

  // ---------------------------------------------------------------- UTF-8

  predicate Continuation(b: byte) { 0x80 <= b < 0xC0 }

  /** Length of the well-formed scalar value at the front of `s`, or 0 if there is none
      (table 3-7 of the Unicode standard, as `str::from_utf8` checks it). */
  function ScalarLen(s: Str): (n: nat)
    ensures n <= |s|
  {
    if s == [] then 0
    else if s[0] < 0x80 then 1
    else if 0xC2 <= s[0] < 0xE0 then
      if |s| >= 2 && Continuation(s[1]) then 2 else 0
    else if 0xE0 <= s[0] < 0xF0 then
      if |s| >= 3 && Continuation(s[1]) && Continuation(s[2])
         && (s[0] == 0xE0 ==> s[1] >= 0xA0) && (s[0] == 0xED ==> s[1] < 0xA0) then 3 else 0
    else if 0xF0 <= s[0] < 0xF5 then
      if |s| >= 4 && Continuation(s[1]) && Continuation(s[2]) && Continuation(s[3])
         && (s[0] == 0xF0 ==> s[1] >= 0x90) && (s[0] == 0xF4 ==> s[1] < 0x90) then 4 else 0
    else 0
  }

  predicate Utf8(s: Str)
    decreases |s|
  {
    s == [] || (ScalarLen(s) > 0 && Utf8(s[ScalarLen(s)..]))
  }

  lemma {:induction false} Utf8Concat(a: Str, b: Str)
    requires Utf8(a) && Utf8(b)
    ensures Utf8(a + b)
    decreases |a|
  {
    if a == [] {
      assert a + b == b;
    } else {
      var n := ScalarLen(a);
      assert ScalarLen(a + b) == n;
      assert (a + b)[n..] == a[n..] + b;
      Utf8Concat(a[n..], b);
    }
  }

  lemma Utf8Nil()
    ensures Utf8([])
  {
  }

  lemma Utf8Ascii(b: byte)
    requires b < 0x80
    ensures Utf8([b])
  {
    assert ScalarLen([b]) == 1;
    assert [b][1..] == [];
  }

  /** A Unicode scalar value: any code point but a surrogate. */
  predicate Scalar(cp: int) { 0 <= cp < 0xD800 || 0xE000 <= cp < 0x11_0000 }

  predicate Scalars(cps: seq<int>) { forall cp :: cp in cps ==> Scalar(cp) }

  /** Its bytes (section 3 of RFC 3629). */
  function Utf8Of(cp: int): Str
    requires Scalar(cp)
  {
    if cp < 0x80 then [cp as byte]
    else if cp < 0x800 then [(0xC0 + cp / 64) as byte, (0x80 + cp % 64) as byte]
    else if cp < 0x1_0000 then [(0xE0 + cp / 4096) as byte, (0x80 + cp / 64 % 64) as byte, (0x80 + cp % 64) as byte]
    else [(0xF0 + cp / 26_2144) as byte, (0x80 + cp / 4096 % 64) as byte, (0x80 + cp / 64 % 64) as byte, (0x80 + cp % 64) as byte]
  }

  function Utf8All(cps: seq<int>): Str
    requires Scalars(cps)
  {
    if cps == [] then [] else Utf8Of(cps[0]) + Utf8All(cps[1..])
  }

  lemma ScalarIsRead(cp: int, rest: Str)
    requires Scalar(cp)
    ensures ScalarLen(Utf8Of(cp) + rest) == |Utf8Of(cp)|
  {
  }

  /** The scalar value at the front. */
  lemma FrontIsScalar(s: Str) returns (cp: int)
    requires ScalarLen(s) > 0
    ensures Scalar(cp) && s[..ScalarLen(s)] == Utf8Of(cp)
  {
    var n := ScalarLen(s);
    if n == 1 {
      cp := s[0] as int;
    } else if n == 2 {
      cp := ScalarOfTwo(s[..2]);
    } else if n == 3 {
      cp := ScalarOfThree(s[..3]);
    } else {
      cp := ScalarOfFour(s[..4]);
    }
  }

  lemma ScalarOfTwo(b: Str) returns (cp: int)
    requires |b| == 2 && ScalarLen(b) == 2
    ensures Scalar(cp) && b == Utf8Of(cp)
  {
    cp := (b[0] as int - 0xC0) * 64 + (b[1] as int - 0x80);
  }

  lemma ScalarOfThree(b: Str) returns (cp: int)
    requires |b| == 3 && ScalarLen(b) == 3
    ensures Scalar(cp) && b == Utf8Of(cp)
  {
    var x, y, z := b[0] as int - 0xE0, b[1] as int - 0x80, b[2] as int - 0x80;
    cp := x * 4096 + y * 64 + z;
    SixBits(x * 64 + y, z);
    SixBits(x, y);
    assert cp / 4096 == x && cp / 64 == x * 64 + y;
  }

  lemma ScalarOfFour(b: Str) returns (cp: int)
    requires |b| == 4 && ScalarLen(b) == 4
    ensures Scalar(cp) && b == Utf8Of(cp)
  {
    var w, x, y, z := b[0] as int - 0xF0, b[1] as int - 0x80, b[2] as int - 0x80, b[3] as int - 0x80;
    cp := w * 26_2144 + x * 4096 + y * 64 + z;
    SixBits(w * 4096 + x * 64 + y, z);
    SixBits(w * 64 + x, y);
    SixBits(w, x);
    assert cp / 64 == w * 4096 + x * 64 + y && cp / 4096 == w * 64 + x && cp / 26_2144 == w;
  }

  lemma SixBits(high: int, low: int)
    requires 0 <= low < 64
    ensures (high * 64 + low) / 64 == high && (high * 64 + low) % 64 == low
  {
  }

  /** A string is valid exactly if it is the encoding of a sequence of scalar values. */
  lemma {:induction false} Utf8IffScalars(s: Str)
    ensures Utf8(s) <==> exists cps :: Scalars(cps) && s == Utf8All(cps)
    decreases |s|
  {
    hide ScalarLen, Utf8Of, Scalar;
    if s == [] {
      assert Scalars([]) && Utf8All([]) == s;
    } else {
      if Utf8(s) {
        var n := ScalarLen(s);
        var cp := FrontIsScalar(s);
        Utf8IffScalars(s[n..]);
        var cps :| Scalars(cps) && s[n..] == Utf8All(cps);
        assert ([cp] + cps)[1..] == cps && s == s[..n] + s[n..];
        assert Scalars([cp] + cps) && Utf8All([cp] + cps) == s;
      }
      forall cps | Scalars(cps) && s == Utf8All(cps) ensures Utf8(s) { ScalarsAreValid(s, cps); }
    }
  }

  lemma {:induction false} ScalarsAreValid(s: Str, cps: seq<int>)
    requires Scalars(cps) && s == Utf8All(cps)
    ensures Utf8(s)
    decreases |cps|
  {
    hide ScalarLen, Scalar, Utf8Of;
    if cps != [] {
      var head, rest := Utf8Of(cps[0]), Utf8All(cps[1..]);
      ScalarIsRead(cps[0], rest);
      NotEmpty(cps[0]);
      assert s[|head|..] == rest;
      ScalarsAreValid(rest, cps[1..]);
    }
  }

  lemma NotEmpty(cp: int)
    requires Scalar(cp)
    ensures Utf8Of(cp) != []
  {
  }

  // ---------------------------------------------------------------- little endian

  /** The low `8 * k` bits of `n`, least significant byte first (`to_le_bytes` after an
      `as` cast, which drops the higher bits). */
  function LeBytes(n: nat, k: nat): (s: Str)
    ensures |s| == k
  {
    if k == 0 then [] else [(n % 256) as byte] + LeBytes(n / 256, k - 1)
  }

  function FromLe(s: Str): (n: nat)
  {
    if s == [] then 0 else s[0] as int + 256 * FromLe(s[1..])
  }

  /** The value of bytes, the least significant first: four of them, and any more behind those. */
  lemma LittleEndian(s: Str)
    requires |s| >= 4
    ensures FromLe(s) == s[0] as int + 0x100 * s[1] as int + 0x1_0000 * s[2] as int + 0x100_0000 * s[3] as int
                         + 0x1_0000_0000 * FromLe(s[4..])
    ensures FromLe([]) == 0
  {
    FromLeStep(s, 0);
    FromLeStep(s, 1);
    FromLeStep(s, 2);
    FromLeStep(s, 3);
    assert s[0..] == s;
  }

  lemma FromLeStep(s: Str, i: nat)
    requires i < |s|
    ensures FromLe(s[i..]) == s[i] as int + 256 * FromLe(s[i + 1..])
  {
    assert s[i..][1..] == s[i + 1..];
  }

  function Span(k: nat): (n: nat)
    ensures n > 0
  {
    if k == 0 then 1 else 256 * Span(k - 1)
  }

  lemma {:induction false} FromLeBound(s: Str)
    ensures FromLe(s) < Span(|s|)
  {
    if s != [] { FromLeBound(s[1..]); }
  }

  lemma {:induction false} LeRoundTrip(n: nat, k: nat)
    requires n < Span(k)
    ensures FromLe(LeBytes(n, k)) == n
  {
    if k > 0 {
      assert n / 256 < Span(k - 1);
      LeRoundTrip(n / 256, k - 1);
      assert LeBytes(n, k)[1..] == LeBytes(n / 256, k - 1);
    }
  }

  lemma {:induction false} LeRoundTripBack(s: Str)
    ensures LeBytes(FromLe(s), |s|) == s
  {
    if s != [] {
      LeRoundTripBack(s[1..]);
      assert FromLe(s) / 256 == FromLe(s[1..]);
      assert s == [s[0]] + s[1..];
    }
  }

  lemma Spans()
    ensures Span(4) == U32_SPAN && Span(8) == U64_SPAN
  {
    assert Span(4) == 256 * (256 * (256 * (256 * Span(0))));
    assert Span(8) == 256 * (256 * (256 * (256 * Span(4))));
  }
}
