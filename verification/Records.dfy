/** The binary records of the snapshot file: length-prefixed strings, child records and
    directory rows. Parsing accepts exactly what writing produces. */
module Records {
  import opened Bytes

  datatype ChildInfo = ChildInfo(name: Str, isDir: bool, size: u64, mtime: u64, etag: Str, id: Str)
  datatype DirRow = DirRow(path: Str, blockOff: nat, blockLen: nat, id: Str, size: u64, mtime: u64, etag: Str)

  // ---------------------------------------------------------------- writing

  function StrBytes(s: Str): Str { LeBytes(|s|, 4) + s }

  function FlagByte(isDir: bool): Str { if isDir then [1] else [0] }

  function ChildTail(c: ChildInfo): Str {
    LeBytes(c.size, 8) + (LeBytes(c.mtime, 8) + (StrBytes(c.etag) + StrBytes(c.id)))
  }

  function ChildBytes(c: ChildInfo): Str {
    StrBytes(c.name) + (FlagByte(c.isDir) + ChildTail(c))
  }

  function RowBytes(r: DirRow): Str {
    StrBytes(r.path) + (LeBytes(r.blockOff, 8) + (LeBytes(r.blockLen, 4) + (StrBytes(r.id)
      + (LeBytes(r.size, 8) + (LeBytes(r.mtime, 8) + StrBytes(r.etag))))))
  }

  function BlockBytes(cs: seq<ChildInfo>): Str {
    if cs == [] then [] else ChildBytes(cs[0]) + BlockBytes(cs[1..])
  }

  function TableBytes(rows: seq<DirRow>): Str {
    if rows == [] then [] else RowBytes(rows[0]) + TableBytes(rows[1..])
  }

  predicate StrOk(s: Str) { Utf8(s) && |s| < U32_SPAN }

  predicate ChildOk(c: ChildInfo) { StrOk(c.name) && StrOk(c.etag) && StrOk(c.id) }

  predicate RowOk(r: DirRow) {
    StrOk(r.path) && StrOk(r.id) && StrOk(r.etag) && r.blockOff < U64_SPAN && r.blockLen < U32_SPAN
  }

  // ---------------------------------------------------------------- reading

  function ReadInt(data: Str, pos: nat, k: nat): (n: nat)
    requires pos + k <= |data|
    ensures n < Span(k)
  {
    FromLeBound(data[pos..pos + k]);
    FromLe(data[pos..pos + k])
  }

  function ReadU64(data: Str, pos: nat): u64
    requires pos + 8 <= |data|
  {
    Spans();
    ReadInt(data, pos, 8)
  }

  function ReadStr(data: Str, pos: nat): (r: Result<(Str, nat)>)
    ensures r.Success? ==> pos + 4 <= r.value.1 <= |data|
  {
    if pos + 4 > |data| then Failure("truncated string length")
    else
      var end := pos + 4 + ReadInt(data, pos, 4);
      if end > |data| then Failure("truncated string")
      else if !Utf8(data[pos + 4..end]) then Failure("non-utf8 string")
      else Success((data[pos + 4..end], end))
  }

  function ReadChild(data: Str, pos: nat): (r: Result<(ChildInfo, nat)>)
    ensures r.Success? ==> pos < r.value.1 <= |data|
  {
    var (name, p) :- ReadStr(data, pos);
    if p >= |data| then Failure("truncated child flags")
    else if p + 1 + 16 > |data| then Failure("truncated child numbers")
    else
      var (etag, p') :- ReadStr(data, p + 17);
      var (id, end) :- ReadStr(data, p');
      Success((ChildInfo(name, data[p] != 0, ReadU64(data, p + 1), ReadU64(data, p + 9), etag, id), end))
  }

  function ReadRow(data: Str, pos: nat): (r: Result<(DirRow, nat)>)
    ensures r.Success? ==> pos < r.value.1 <= |data|
  {
    var (path, p) :- ReadStr(data, pos);
    if p + 12 > |data| then Failure("truncated dir row")
    else
      var (id, q) :- ReadStr(data, p + 12);
      if q + 16 > |data| then Failure("truncated dir row meta")
      else
        var (etag, end) :- ReadStr(data, q + 16);
        Success((DirRow(path, ReadInt(data, p, 8), ReadInt(data, p + 8, 4), id,
                        ReadU64(data, q), ReadU64(data, q + 8), etag), end))
  }

  function ParseChildren(data: Str, pos: nat): Result<seq<ChildInfo>>
    decreases |data| - pos
  {
    if pos >= |data| then Success([])
    else
      var (c, p) :- ReadChild(data, pos);
      var rest :- ParseChildren(data, p);
      Success([c] + rest)
  }

  function ParseRows(data: Str, pos: nat, count: nat): Result<seq<DirRow>>
    decreases count
  {
    if count == 0 then Success([])
    else
      var (r, p) :- ReadRow(data, pos);
      var rest :- ParseRows(data, p, count - 1);
      Success([r] + rest)
  }

  /** `data[off..off + len]` if that range exists, parsed as child records. */
  function ParseBlock(bytes: Str, off: nat, len: nat): Result<seq<ChildInfo>> {
    if off + len > |bytes| then Failure("child block out of range")
    else ParseChildren(bytes[off..off + len], 0)
  }

  // ---------------------------------------------------------------- bytes at a position

  /** `b` stands in `data` at `pos`. */
  predicate At(data: Str, pos: nat, b: Str) {
    pos + |b| <= |data| && data[pos..pos + |b|] == b
  }

  lemma AtConcat(data: Str, pos: nat, a: Str, b: Str)
    ensures At(data, pos, a + b) <==> At(data, pos, a) && At(data, pos + |a|, b)
  {
    if pos + |a + b| <= |data| {
      var whole := data[pos..pos + |a + b|];
      assert whole == data[pos..pos + |a|] + data[pos + |a|..pos + |a| + |b|];
      assert whole[..|a|] == data[pos..pos + |a|] && whole[|a|..] == data[pos + |a|..pos + |a| + |b|];
      assert (a + b)[..|a|] == a && (a + b)[|a|..] == b;
    }
  }

  lemma AtInt(data: Str, pos: nat, n: nat, k: nat)
    requires n < Span(k)
    ensures At(data, pos, LeBytes(n, k)) <==> pos + k <= |data| && ReadInt(data, pos, k) == n
  {
    LeRoundTrip(n, k);
    if pos + k <= |data| { LeRoundTripBack(data[pos..pos + k]); }
  }

  lemma AtU64(data: Str, pos: nat, n: u64)
    ensures At(data, pos, LeBytes(n, 8)) <==> pos + 8 <= |data| && ReadU64(data, pos) == n
  {
    Spans();
    AtInt(data, pos, n, 8);
  }

  /** A string is read exactly where its bytes stand. */
  lemma ReadStrIffWritten(data: Str, pos: nat, s: Str, end: nat)
    ensures ReadStr(data, pos) == Success((s, end)) <==>
            StrOk(s) && At(data, pos, StrBytes(s)) && end == pos + |StrBytes(s)|
  {
    Spans();
    AtConcat(data, pos, LeBytes(|s|, 4), s);
    if |s| < U32_SPAN { AtInt(data, pos, |s|, 4); }
  }

  lemma AtFlag(data: Str, pos: nat, b: bool)
    ensures At(data, pos, FlagByte(b)) <==> pos < |data| && data[pos] == (if b then 1 else 0)
  {
    if pos < |data| { assert data[pos..pos + 1] == [data[pos]]; }
  }

  lemma AtChildTail(data: Str, pos: nat, c: ChildInfo)
    ensures At(data, pos, ChildTail(c)) <==>
            && At(data, pos, LeBytes(c.size, 8)) && At(data, pos + 8, LeBytes(c.mtime, 8))
            && At(data, pos + 16, StrBytes(c.etag)) && At(data, pos + 16 + |StrBytes(c.etag)|, StrBytes(c.id))
  {
    var ids := StrBytes(c.etag) + StrBytes(c.id);
    AtConcat(data, pos, LeBytes(c.size, 8), LeBytes(c.mtime, 8) + ids);
    AtConcat(data, pos + 8, LeBytes(c.mtime, 8), ids);
    AtConcat(data, pos + 16, StrBytes(c.etag), StrBytes(c.id));
  }

  /** The bytes of a child record whose flag byte is any value that says the same. */
  ghost predicate AtLooseChild(data: Str, pos: nat, c: ChildInfo) {
    var p := pos + |StrBytes(c.name)|;
    && At(data, pos, StrBytes(c.name))
    && p < |data| && (data[p] != 0 <==> c.isDir)
    && At(data, p + 1, ChildTail(c))
  }

  lemma ChildLen(c: ChildInfo)
    ensures |ChildBytes(c)| == |StrBytes(c.name)| + 17 + |StrBytes(c.etag)| + |StrBytes(c.id)|
  {
  }

  lemma RowLen(r: DirRow)
    ensures |RowBytes(r)| == |StrBytes(r.path)| + 28 + |StrBytes(r.id)| + |StrBytes(r.etag)|
  {
  }

  /** A record that was read stands there, up to the value of a set flag. */
  lemma ReadChildIsWritten(data: Str, pos: nat, c: ChildInfo, end: nat)
    requires ReadChild(data, pos) == Success((c, end))
    ensures ChildOk(c) && AtLooseChild(data, pos, c) && end == pos + |ChildBytes(c)|
  {
    hide At, StrBytes, LeBytes, ReadStr, ReadInt, FromLe, Utf8, RowBytes, ChildTail;
    ChildLen(c);
    var p := ReadStr(data, pos).value.1;
    var q := ReadStr(data, p + 17).value.1;
    ReadStrIffWritten(data, pos, c.name, p);
    ReadStrIffWritten(data, p + 17, c.etag, q);
    ReadStrIffWritten(data, q, c.id, end);
    AtU64(data, p + 1, c.size);
    AtU64(data, p + 9, c.mtime);
    AtChildTail(data, p + 1, c);
  }

  /** A record that stands there is read, whatever value a set flag has. */
  lemma WrittenChildIsRead(data: Str, pos: nat, c: ChildInfo)
    requires ChildOk(c) && AtLooseChild(data, pos, c)
    ensures ReadChild(data, pos) == Success((c, pos + |ChildBytes(c)|))
  {
    hide At, StrBytes, LeBytes, ReadStr, ReadInt, FromLe, Utf8, RowBytes, ChildTail;
    ChildLen(c);
    var p := pos + |StrBytes(c.name)|;
    var q := p + 17 + |StrBytes(c.etag)|;
    AtChildTail(data, p + 1, c);
    AtU64(data, p + 1, c.size);
    AtU64(data, p + 9, c.mtime);
    ReadStrIffWritten(data, pos, c.name, p);
    ReadStrIffWritten(data, p + 17, c.etag, q);
    ReadStrIffWritten(data, q, c.id, q + |StrBytes(c.id)|);
  }

  lemma AtChildIsLoose(data: Str, pos: nat, c: ChildInfo)
    requires At(data, pos, ChildBytes(c))
    ensures AtLooseChild(data, pos, c)
  {
    var p := pos + |StrBytes(c.name)|;
    AtConcat(data, pos, StrBytes(c.name), FlagByte(c.isDir) + ChildTail(c));
    AtConcat(data, p, FlagByte(c.isDir), ChildTail(c));
    AtFlag(data, p, c.isDir);
  }

  lemma AtRow(data: Str, pos: nat, r: DirRow)
    ensures var p := pos + |StrBytes(r.path)|;
            var q := p + 12 + |StrBytes(r.id)|;
            At(data, pos, RowBytes(r)) <==>
            && At(data, pos, StrBytes(r.path))
            && At(data, p, LeBytes(r.blockOff, 8)) && At(data, p + 8, LeBytes(r.blockLen, 4))
            && At(data, p + 12, StrBytes(r.id))
            && At(data, q, LeBytes(r.size, 8)) && At(data, q + 8, LeBytes(r.mtime, 8))
            && At(data, q + 16, StrBytes(r.etag))
  {
    hide At, StrBytes, LeBytes;
    var p := pos + |StrBytes(r.path)|;
    var q := p + 12 + |StrBytes(r.id)|;
    var d := LeBytes(r.mtime, 8) + StrBytes(r.etag);
    var c := LeBytes(r.size, 8) + d;
    var b := StrBytes(r.id) + c;
    var a := LeBytes(r.blockLen, 4) + b;
    AtConcat(data, pos, StrBytes(r.path), LeBytes(r.blockOff, 8) + a);
    AtConcat(data, p, LeBytes(r.blockOff, 8), a);
    AtConcat(data, p + 8, LeBytes(r.blockLen, 4), b);
    AtConcat(data, p + 12, StrBytes(r.id), c);
    AtConcat(data, q, LeBytes(r.size, 8), d);
    AtConcat(data, q + 8, LeBytes(r.mtime, 8), StrBytes(r.etag));
  }

  lemma ReadRowIsWritten(data: Str, pos: nat, r: DirRow, end: nat)
    requires ReadRow(data, pos) == Success((r, end))
    ensures RowOk(r) && At(data, pos, RowBytes(r)) && end == pos + |RowBytes(r)|
  {
    hide At, StrBytes, LeBytes, ReadStr, ReadInt, FromLe, Utf8, RowBytes, ChildTail;
    RowLen(r);
    Spans();
    var p := ReadStr(data, pos).value.1;
    var q := ReadStr(data, p + 12).value.1;
    ReadStrIffWritten(data, pos, r.path, p);
    ReadStrIffWritten(data, p + 12, r.id, q);
    ReadStrIffWritten(data, q + 16, r.etag, end);
    AtInt(data, p, r.blockOff, 8);
    AtInt(data, p + 8, r.blockLen, 4);
    AtU64(data, q, r.size);
    AtU64(data, q + 8, r.mtime);
    AtRow(data, pos, r);
  }

  lemma WrittenRowIsRead(data: Str, pos: nat, r: DirRow)
    requires RowOk(r) && At(data, pos, RowBytes(r))
    ensures ReadRow(data, pos) == Success((r, pos + |RowBytes(r)|))
  {
    hide At, StrBytes, LeBytes, ReadStr, ReadInt, FromLe, Utf8, RowBytes, ChildTail;
    RowLen(r);
    Spans();
    var p := pos + |StrBytes(r.path)|;
    var q := p + 12 + |StrBytes(r.id)|;
    AtRow(data, pos, r);
    ReadStrIffWritten(data, pos, r.path, p);
    ReadStrIffWritten(data, p + 12, r.id, q);
    ReadStrIffWritten(data, q + 16, r.etag, q + 16 + |StrBytes(r.etag)|);
    AtInt(data, p, r.blockOff, 8);
    AtInt(data, p + 8, r.blockLen, 4);
    AtU64(data, q, r.size);
    AtU64(data, q + 8, r.mtime);
  }

  // ---------------------------------------------------------------- the layout, byte by byte

  /** `n` stands in these bytes, least significant first. */
  predicate Stands(s: Str, from: nat, to: nat, n: nat) { from <= to <= |s| && FromLe(s[from..to]) == n }

  predicate StandsStr(s: Str, from: nat, text: Str) { from + |text| <= |s| && s[from..from + |text|] == text }

  /** A child record: name, flag, size, time, tag and id, each string behind its length in four bytes,
      each number in eight. */
  lemma ChildLayout(c: ChildInfo)
    requires ChildOk(c)
    ensures var b, n, e := ChildBytes(c), 4 + |c.name|, 25 + |c.name| + |c.etag|;
            && |b| == e + 4 + |c.id|
            && Stands(b, 0, 4, |c.name|) && StandsStr(b, 4, c.name) && b[n] == (if c.isDir then 1 else 0)
            && Stands(b, n + 1, n + 9, c.size) && Stands(b, n + 9, n + 17, c.mtime)
            && Stands(b, n + 17, n + 21, |c.etag|) && StandsStr(b, n + 21, c.etag)
            && Stands(b, e, e + 4, |c.id|) && StandsStr(b, e + 4, c.id)
  {
    hide At, ChildTail, LeBytes, FromLe, Utf8;
    var b := ChildBytes(c);
    AtWhole(b);
    AtChildIsLoose(b, 0, c);
    AtConcat(b, 0, StrBytes(c.name), FlagByte(c.isDir) + ChildTail(c));
    AtConcat(b, 4 + |c.name|, FlagByte(c.isDir), ChildTail(c));
    AtFlag(b, 4 + |c.name|, c.isDir);
    AtChildTail(b, 5 + |c.name|, c);
    StrStands(b, 0, c.name);
    IntStands(b, 5 + |c.name|, c.size);
    IntStands(b, 13 + |c.name|, c.mtime);
    StrStands(b, 21 + |c.name|, c.etag);
    StrStands(b, 25 + |c.name| + |c.etag|, c.id);
    ChildLen(c);
  }

  /** A directory row: path, offset and length of its block, id, size, time and tag. */
  lemma RowLayout(r: DirRow)
    requires RowOk(r)
    ensures var b, n, e := RowBytes(r), 4 + |r.path|, 20 + |r.path| + |r.id|;
            && |b| == e + 20 + |r.etag|
            && Stands(b, 0, 4, |r.path|) && StandsStr(b, 4, r.path)
            && Stands(b, n, n + 8, r.blockOff) && Stands(b, n + 8, n + 12, r.blockLen)
            && Stands(b, n + 12, n + 16, |r.id|) && StandsStr(b, n + 16, r.id)
            && Stands(b, e, e + 8, r.size) && Stands(b, e + 8, e + 16, r.mtime)
            && Stands(b, e + 16, e + 20, |r.etag|) && StandsStr(b, e + 20, r.etag)
  {
    hide At, RowBytes, LeBytes, FromLe, Utf8;
    var b := RowBytes(r);
    RowLen(r);
    AtWhole(b);
    AtRow(b, 0, r);
    StrStands(b, 0, r.path);
    IntStands(b, 4 + |r.path|, r.blockOff);
    ShortStands(b, 12 + |r.path|, r.blockLen);
    StrStands(b, 16 + |r.path|, r.id);
    IntStands(b, 20 + |r.path| + |r.id|, r.size);
    IntStands(b, 28 + |r.path| + |r.id|, r.mtime);
    StrStands(b, 36 + |r.path| + |r.id|, r.etag);
  }

  lemma AtWhole(b: Str)
    ensures At(b, 0, b)
  {
    assert b[0..0 + |b|] == b;
  }

  lemma StrStands(b: Str, pos: nat, s: Str)
    requires StrOk(s) && At(b, pos, StrBytes(s))
    ensures Stands(b, pos, pos + 4, |s|) && StandsStr(b, pos + 4, s)
  {
    hide LeBytes, FromLe;
    AtConcat(b, pos, LeBytes(|s|, 4), s);
    ShortStands(b, pos, |s|);
  }

  lemma ShortStands(b: Str, pos: nat, n: nat)
    requires n < U32_SPAN && At(b, pos, LeBytes(n, 4))
    ensures Stands(b, pos, pos + 4, n)
  {
    hide FromLe, LeBytes;
    Spans();
    AtInt(b, pos, n, 4);
  }

  lemma IntStands(b: Str, pos: nat, n: nat)
    requires n < U64_SPAN && At(b, pos, LeBytes(n, 8))
    ensures Stands(b, pos, pos + 8, n)
  {
    hide FromLe, LeBytes;
    Spans();
    AtInt(b, pos, n, 8);
  }

  // ---------------------------------------------------------------- whole tables and blocks

  predicate RowsOk(rows: seq<DirRow>) { forall r :: r in rows ==> RowOk(r) }

  predicate ChildrenOk(cs: seq<ChildInfo>) { forall c :: c in cs ==> ChildOk(c) }

  /** A table of `count` rows is accepted exactly when the bytes of those rows stand there:
      accepted rows serialise to the bytes they were read from. */
  lemma {:induction false} ParseRowsIffWritten(data: Str, pos: nat, count: nat, rows: seq<DirRow>)
    ensures ParseRows(data, pos, count) == Success(rows) <==>
            |rows| == count && RowsOk(rows) && (count == 0 || At(data, pos, TableBytes(rows)))
    decreases count
  {
    hide At, RowBytes, ReadRow, RowOk;
    if count > 0 {
      if ParseRows(data, pos, count) == Success(rows) {
        var (r, p) := ReadRow(data, pos).value;
        ReadRowIsWritten(data, pos, r, p);
        ParseRowsIffWritten(data, p, count - 1, rows[1..]);
        assert rows == [r] + rows[1..];
        JoinRows(data, pos, rows);
      }
      if |rows| == count && RowsOk(rows) && At(data, pos, TableBytes(rows)) {
        AtConcat(data, pos, RowBytes(rows[0]), TableBytes(rows[1..]));
        WrittenRowIsRead(data, pos, rows[0]);
        ParseRowsIffWritten(data, pos + |RowBytes(rows[0])|, count - 1, rows[1..]);
        assert rows == [rows[0]] + rows[1..];
      }
    }
  }

  lemma JoinRows(data: Str, pos: nat, rows: seq<DirRow>)
    requires rows != [] && At(data, pos, RowBytes(rows[0]))
    requires |rows| == 1 || At(data, pos + |RowBytes(rows[0])|, TableBytes(rows[1..]))
    ensures At(data, pos, TableBytes(rows))
  {
    if |rows| == 1 { assert TableBytes(rows[1..]) == []; }
    AtConcat(data, pos, RowBytes(rows[0]), TableBytes(rows[1..]));
  }

  /** From `pos` to its end `data` holds the records `cs`, up to the values of set flags. */
  ghost predicate HoldsChildren(data: Str, pos: nat, cs: seq<ChildInfo>)
    decreases |cs|
  {
    if cs == [] then pos == |data|
    else AtLooseChild(data, pos, cs[0]) && HoldsChildren(data, pos + |ChildBytes(cs[0])|, cs[1..])
  }

  /** A block is accepted exactly when it holds the records to its last byte. */
  lemma {:induction false} ParseChildrenIffHeld(data: Str, pos: nat, cs: seq<ChildInfo>)
    requires pos <= |data|
    ensures ParseChildren(data, pos) == Success(cs) <==> ChildrenOk(cs) && HoldsChildren(data, pos, cs)
    decreases |data| - pos
  {
    hide AtLooseChild, ChildBytes, ReadChild, ChildOk;
    if pos < |data| {
      if ParseChildren(data, pos) == Success(cs) {
        var (c, end) := ReadChild(data, pos).value;
        ReadChildIsWritten(data, pos, c, end);
        assert cs == [c] + cs[1..];
        ParseChildrenIffHeld(data, end, cs[1..]);
      }
      if ChildrenOk(cs) && HoldsChildren(data, pos, cs) && cs != [] {
        WrittenChildIsRead(data, pos, cs[0]);
        ParseChildrenIffHeld(data, pos + |ChildBytes(cs[0])|, cs[1..]);
        assert cs == [cs[0]] + cs[1..];
      }
    } else if cs != [] && AtLooseChild(data, pos, cs[0]) {
      LooseChildLen(data, pos, cs[0]);
    }
  }

  lemma LooseChildLen(data: Str, pos: nat, c: ChildInfo)
    requires AtLooseChild(data, pos, c)
    ensures pos < pos + |ChildBytes(c)| <= |data|
  {
    ChildLen(c);
  }

  /** The byte read stands for the byte written: the same, or a set flag other than 1. */
  predicate SameByte(read: byte, written: byte) {
    read == written || (read != 0 && written == 1)
  }

  lemma LooseChildBytes(data: Str, pos: nat, c: ChildInfo)
    requires AtLooseChild(data, pos, c)
    ensures pos + |ChildBytes(c)| <= |data|
    ensures forall i :: 0 <= i < |ChildBytes(c)| ==> SameByte(data[pos + i], ChildBytes(c)[i])
  {
    hide StrBytes, ChildTail;
    ChildLen(c);
    ChildTailLen(c);
    var p := |StrBytes(c.name)|;
    forall i | 0 <= i < |ChildBytes(c)| ensures SameByte(data[pos + i], ChildBytes(c)[i]) {
      if i < p {
        assert ChildBytes(c)[i] == StrBytes(c.name)[i] == data[pos..pos + p][i];
      } else if i > p {
        assert ChildBytes(c)[i] == ChildTail(c)[i - p - 1] == data[pos + p + 1..pos + p + 1 + |ChildTail(c)|][i - p - 1];
      }
    }
  }

  lemma ChildTailLen(c: ChildInfo)
    ensures |ChildTail(c)| == 16 + |StrBytes(c.etag)| + |StrBytes(c.id)|
  {
  }

  /** An accepted block is consumed completely and serialises to its own bytes, a set flag
      other than 1 becoming 1. */
  lemma {:induction false} AcceptedBlockSerialises(data: Str, pos: nat, cs: seq<ChildInfo>)
    requires pos <= |data| && HoldsChildren(data, pos, cs)
    ensures |BlockBytes(cs)| == |data| - pos
    ensures forall i :: 0 <= i < |BlockBytes(cs)| ==> SameByte(data[pos + i], BlockBytes(cs)[i])
    decreases |cs|
  {
    hide AtLooseChild, ChildBytes, SameByte;
    if cs != [] {
      LooseChildBytes(data, pos, cs[0]);
      var n := |ChildBytes(cs[0])|;
      AcceptedBlockSerialises(data, pos + n, cs[1..]);
      forall i | 0 <= i < |BlockBytes(cs)| ensures SameByte(data[pos + i], BlockBytes(cs)[i]) {
        if i >= n { assert data[pos + i] == data[pos + n + (i - n)]; }
      }
    }
  }

  lemma {:induction false} WrittenChildrenAreHeld(data: Str, pos: nat, cs: seq<ChildInfo>)
    requires At(data, pos, BlockBytes(cs)) && pos + |BlockBytes(cs)| == |data|
    ensures HoldsChildren(data, pos, cs)
    decreases |cs|
  {
    hide At, ChildBytes, AtLooseChild;
    if cs != [] {
      AtConcat(data, pos, ChildBytes(cs[0]), BlockBytes(cs[1..]));
      AtChildIsLoose(data, pos, cs[0]);
      WrittenChildrenAreHeld(data, pos + |ChildBytes(cs[0])|, cs[1..]);
    }
  }

  /** A block parses to the records whose bytes stand at its offset. */
  lemma ParseWrittenBlock(bytes: Str, off: nat, cs: seq<ChildInfo>)
    requires ChildrenOk(cs) && At(bytes, off, BlockBytes(cs))
    ensures ParseBlock(bytes, off, |BlockBytes(cs)|) == Success(cs)
  {
    var data := bytes[off..off + |BlockBytes(cs)|];
    assert data[0..0 + |data|] == data;
    WrittenChildrenAreHeld(data, 0, cs);
    ParseChildrenIffHeld(data, 0, cs);
  }

  // ---------------------------------------------------------------- the loops

  /** The records read so far in front of what the rest parses to. */
  function Prepend<T>(done: seq<T>, rest: Result<seq<T>>): Result<seq<T>> {
    if rest.Failure? then rest else Success(done + rest.value)
  }

  lemma PrependNone<T>(rest: Result<seq<T>>)
    ensures Prepend([], rest) == rest
  {
    if rest.Success? { assert [] + rest.value == rest.value; }
  }

  lemma PrependTwice<T>(a: seq<T>, b: seq<T>, rest: Result<seq<T>>)
    ensures Prepend(a, Prepend(b, rest)) == Prepend(a + b, rest)
  {
    if rest.Success? { assert a + (b + rest.value) == a + b + rest.value; }
  }

  /** Reads records until the block is used up. */
  method ParseChildBlock(bytes: Str, off: nat, len: nat) returns (r: Result<seq<ChildInfo>>)
    ensures r == ParseBlock(bytes, off, len)
  {
    if off + len > |bytes| {
      return Failure("child block out of range");
    }
    var data := bytes[off..off + len];
    var pos := 0;
    var out: seq<ChildInfo> := [];
    PrependNone(ParseChildren(data, 0));
    while pos < |data|
      invariant pos <= |data| && ParseChildren(data, 0) == Prepend(out, ParseChildren(data, pos))
    {
      hide ReadChild;
      var next := ReadChild(data, pos);
      if next.Failure? {
        return Failure(next.error);
      }
      PrependTwice(out, [next.value.0], ParseChildren(data, next.value.1));
      out := out + [next.value.0];
      pos := next.value.1;
    }
    assert out + [] == out;
    return Success(out);
  }

  /** Reads exactly `count` rows. */
  method ParseDirTable(data: Str, count: nat) returns (r: Result<seq<DirRow>>)
    ensures r == ParseRows(data, 0, count)
  {
    var pos := 0;
    var rows: seq<DirRow> := [];
    PrependNone(ParseRows(data, 0, count));
    for i := 0 to count
      invariant ParseRows(data, 0, count) == Prepend(rows, ParseRows(data, pos, count - i))
    {
      hide ReadRow;
      var next := ReadRow(data, pos);
      if next.Failure? {
        return Failure(next.error);
      }
      PrependTwice(rows, [next.value.0], ParseRows(data, next.value.1, count - i - 1));
      rows := rows + [next.value.0];
      pos := next.value.1;
    }
    assert rows + [] == rows;
    return Success(rows);
  }
}
