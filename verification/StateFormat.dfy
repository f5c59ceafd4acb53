/** The snapshot of the parser: which bytes stand for which glyphs, and that
    reading them back gives the same glyphs. */
module StateFormat {
  import opened Canonical
  import opened LittleEndian

  // ---------- what is persisted ----------

  datatype Leaf =
    | Eof
    | Char(encodeMode: nat, val: nat, charLen: nat, id: nat, attrib: seq<Byte>)
    | Graph(reqWidth: nat, reqHeight: nat, fileName: seq<Byte>)

  datatype Cell = Cell(width: nat, xoff: nat, borderPos: seq<Byte>, borderSize: nat, borderHeight: nat,
                       glyphAttrib: seq<Byte>, lineAttrib: seq<Byte>, delayedToken: seq<Leaf>, glyphBuffer: seq<Leaf>)

  datatype Row = Row(xoff: nat, width: nat, height: nat, borderPos: seq<Byte>, borderSize: nat, dataCells: seq<Cell>)

  datatype Glyph =
    | Simple(leaf: Leaf)
    | Table(xoff: nat, width: nat, col: nat, row: nat, border: nat, height: nat, rowSplit: nat, rows: seq<Row>)

  datatype Snapshot = Snapshot(buffer: seq<Glyph>, glyphAttrib: seq<Byte>, lineAttrib: seq<Byte>)

  // The magic numbers are sums of character codes.
  const EOF_MAGIC: nat := 101 + 111 + 102
  const CHAR_MAGIC: nat := 99 + 104 + 97 + 114
  const GRAPH_MAGIC: nat := 103 + 114 + 97 + 112 + 104
  const TABLE_MAGIC: nat := 116 + 97 + 98 + 108 + 101
  const ROW_MAGIC: nat := 116 + 100 + 99
  const CELL_MAGIC: nat := 116 + 114
  const TERM: nat := 116 + 101 + 114 + 109
  const TABLE_END: nat := TERM + 116 + 97 + 98 + 108 + 101
  const ROW_END: nat := TERM + 116 + 97 + 98 + 108 + 101 + 114 + 111 + 119
  const CELL_END: nat := TERM + 116 + 100 + 99
  const DELAY_END: nat := TERM + 116 + 100 + 99 + 100 + 101 + 108 + 97 + 121
  const OFFSET_MAGIC: nat := 111 + 102 + 102 + 115 + 101 + 116

  // The sizes of the objects that are written as they lie in memory.
  const ATTRIB_GLYPH: nat := 8
  const ATTRIB_LINE: nat := 24
  const POSITION: nat := 8

  predicate Is32(v: nat) {
    v < 0x1_0000_0000
  }

  // A C string with the zero that ends it.
  predicate CString(s: seq<Byte>) {
    s != [] && s[|s| - 1] == 0 && Is32(|s|) && forall i :: 0 <= i < |s| - 1 ==> s[i] != 0
  }

  predicate ValidLeaf(l: Leaf) {
    match l
    case Eof => true
    case Char(e, v, c, i, a) => Is32(e) && Is32(v) && Is32(c) && Is32(i) && |a| == ATTRIB_GLYPH
    case Graph(w, h, name) => Is32(w) && Is32(h) && CString(name)
  }

  predicate ValidCell(c: Cell) {
    && Is32(c.width) && Is32(c.xoff) && |c.borderPos| == POSITION && Is32(c.borderSize) && Is32(c.borderHeight)
    && |c.glyphAttrib| == ATTRIB_GLYPH && |c.lineAttrib| == ATTRIB_LINE
    && (forall l :: l in c.delayedToken ==> ValidLeaf(l)) && (forall l :: l in c.glyphBuffer ==> ValidLeaf(l))
  }

  predicate ValidRow(r: Row) {
    && Is32(r.xoff) && Is32(r.width) && Is32(r.height) && |r.borderPos| == POSITION && Is32(r.borderSize)
    && forall c :: c in r.dataCells ==> ValidCell(c)
  }

  predicate ValidGlyph(g: Glyph) {
    match g
    case Simple(l) => ValidLeaf(l)
    case Table(x, w, c, r, b, h, s, rows) =>
      && Is32(x) && Is32(w) && Is32(c) && Is32(r) && Is32(b) && Is32(h) && Is32(s)
      && forall row :: row in rows ==> ValidRow(row)
  }

  predicate ValidSnapshot(d: Snapshot) {
    && |d.glyphAttrib| == ATTRIB_GLYPH && |d.lineAttrib| == ATTRIB_LINE
    && forall g :: g in d.buffer ==> ValidGlyph(g)
  }

  // ---------- writing, in front of what is written later ----------

  function Put(v: nat, rest: seq<Byte>): seq<Byte> {
    Bytes(v, 4) + rest
  }

  function PutRaw(raw: seq<Byte>, rest: seq<Byte>): seq<Byte> {
    raw + rest
  }

  function PutLeaf(l: Leaf, rest: seq<Byte>): seq<Byte> {
    match l
    case Eof => Put(EOF_MAGIC, rest)
    case Char(e, v, c, i, a) => Put(CHAR_MAGIC, Put(e, Put(v, Put(c, Put(i, PutRaw(a, rest))))))
    case Graph(w, h, name) => Put(GRAPH_MAGIC, Put(w, Put(h, Put(|name|, PutRaw(name, rest)))))
  }

  function PutAll<T>(put: (T, seq<Byte>) -> seq<Byte>, ts: seq<T>, rest: seq<Byte>): seq<Byte> {
    if ts == [] then rest else put(ts[0], PutAll(put, ts[1..], rest))
  }

  function PutCell(c: Cell, rest: seq<Byte>): seq<Byte> {
    Put(CELL_MAGIC, Put(c.width, Put(c.xoff, PutRaw(c.borderPos, Put(c.borderSize, Put(c.borderHeight,
      PutRaw(c.glyphAttrib, PutRaw(c.lineAttrib, PutTokens(c, rest)))))))))
  }

  function PutTokens(c: Cell, rest: seq<Byte>): seq<Byte> {
    PutAll(PutLeaf, c.delayedToken, Put(DELAY_END, PutAll(PutLeaf, c.glyphBuffer, Put(CELL_END, rest))))
  }

  function PutRow(r: Row, rest: seq<Byte>): seq<Byte> {
    Put(ROW_MAGIC, Put(r.xoff, Put(r.width, Put(r.height, PutRaw(r.borderPos, Put(r.borderSize,
      PutAll(PutCell, r.dataCells, Put(ROW_END, rest))))))))
  }

  function PutGlyph(g: Glyph, rest: seq<Byte>): seq<Byte> {
    match g
    case Simple(l) => PutLeaf(l, rest)
    case Table(x, w, c, r, b, h, s, rows) =>
      Put(TABLE_MAGIC, Put(x, Put(w, Put(c, Put(r, Put(b, Put(h, Put(s,
        PutAll(PutRow, rows, Put(TABLE_END, rest))))))))))
  }

  function PutSnapshot(d: Snapshot, rest: seq<Byte>): seq<Byte> {
    PutAll(PutGlyph, d.buffer, Put(OFFSET_MAGIC, PutRaw(d.glyphAttrib, PutRaw(d.lineAttrib, rest))))
  }

  // ---------- reading ----------

  // A value and what follows it; or the bytes run out; or the magic is not known.
  datatype Parsed<+T> = Got(value: T, rest: seq<Byte>) | Short | Unknown

  function Take(s: seq<Byte>): nat
    requires |s| >= 4
  {
    Value(s[..4])
  }

  function GetLeaf(magic: nat, s: seq<Byte>): Parsed<Leaf> {
    if magic == EOF_MAGIC then Got(Eof, s)
    else if magic == CHAR_MAGIC then
      if |s| < 16 + ATTRIB_GLYPH then Short
      else
        var s1 := s[4..];
        var s2 := s1[4..];
        var s3 := s2[4..];
        var s4 := s3[4..];
        Got(Char(Take(s), Take(s1), Take(s2), Take(s3), s4[..ATTRIB_GLYPH]), s4[ATTRIB_GLYPH..])
    else if magic == GRAPH_MAGIC then
      if |s| < 12 then Short
      else
        var s1 := s[4..];
        var s2 := s1[4..];
        var s3 := s2[4..];
        var len := Take(s2);
        if |s3| < len then Short else Got(Graph(Take(s), Take(s1), s3[..len]), s3[len..])
    else Unknown
  }

  // Objects up to a terminator; what has no known magic is passed over.
  function GetAll<T>(get: (nat, seq<Byte>) -> Parsed<T>, term: nat, s: seq<Byte>): Parsed<seq<T>>
    decreases |s|
  {
    if |s| < 4 then Short
    else if Take(s) == term then Got([], s[4..])
    else
      match get(Take(s), s[4..])
      case Unknown => GetAll(get, term, s[4..])
      case Short => Short
      case Got(t, rest) =>
        if |rest| >= |s| then Short
        else
          match GetAll(get, term, rest)
          case Got(ts, rest') => Got([t] + ts, rest')
          case Short => Short
          case Unknown => Unknown
  }

  function GetTokens(c: Cell, s: seq<Byte>): Parsed<Cell> {
    match GetAll(GetLeaf, DELAY_END, s)
    case Short => Short
    case Unknown => Short
    case Got(delayed, s') =>
      match GetAll(GetLeaf, CELL_END, s')
      case Short => Short
      case Unknown => Short
      case Got(glyphs, rest) => Got(c.(delayedToken := delayed, glyphBuffer := glyphs), rest)
  }

  function GetCell(magic: nat, s: seq<Byte>): Parsed<Cell> {
    if magic != CELL_MAGIC then Unknown
    else if |s| < 16 + POSITION + ATTRIB_GLYPH + ATTRIB_LINE then Short
    else
      var s1 := s[4..];
      var s2 := s1[4..];
      var s3 := s2[POSITION..];
      var s4 := s3[4..];
      var s5 := s4[4..];
      var s6 := s5[ATTRIB_GLYPH..];
      var s7 := s6[ATTRIB_LINE..];
      GetTokens(Cell(Take(s), Take(s1), s2[..POSITION], Take(s3), Take(s4), s5[..ATTRIB_GLYPH], s6[..ATTRIB_LINE],
                     [], []), s7)
  }

  function GetRow(magic: nat, s: seq<Byte>): Parsed<Row> {
    if magic != ROW_MAGIC then Unknown
    else if |s| < 16 + POSITION then Short
    else
      var s1 := s[4..];
      var s2 := s1[4..];
      var s3 := s2[4..];
      var s4 := s3[POSITION..];
      var s5 := s4[4..];
      match GetAll(GetCell, ROW_END, s5)
      case Got(cells, rest) => Got(Row(Take(s), Take(s1), Take(s2), s3[..POSITION], Take(s4), cells), rest)
      case Short => Short
      case Unknown => Short
  }

  function GetTable(s: seq<Byte>): Parsed<Glyph> {
    if |s| < 28 then Short
    else
      var s1 := s[4..];
      var s2 := s1[4..];
      var s3 := s2[4..];
      var s4 := s3[4..];
      var s5 := s4[4..];
      var s6 := s5[4..];
      var s7 := s6[4..];
      match GetAll(GetRow, TABLE_END, s7)
      case Got(rows, rest) =>
        Got(Table(Take(s), Take(s1), Take(s2), Take(s3), Take(s4), Take(s5), Take(s6), rows), rest)
      case Short => Short
      case Unknown => Short
  }

  function GetGlyph(magic: nat, s: seq<Byte>): Parsed<Glyph> {
    if magic == TABLE_MAGIC then GetTable(s)
    else
      match GetLeaf(magic, s)
      case Got(l, rest) => Got(Simple(l), rest)
      case Short => Short
      case Unknown => Unknown
  }

  function GetSnapshot(s: seq<Byte>): Parsed<Snapshot> {
    match GetAll(GetGlyph, OFFSET_MAGIC, s)
    case Short => Short
    case Unknown => Short
    case Got(glyphs, s') =>
      if |s'| < ATTRIB_GLYPH + ATTRIB_LINE then Short
      else
        var s1 := s'[ATTRIB_GLYPH..];
        Got(Snapshot(glyphs, s'[..ATTRIB_GLYPH], s1[..ATTRIB_LINE]), s1[ATTRIB_LINE..])
  }

  // ---------- reading back what was written ----------

  lemma TakePut(v: nat, rest: seq<Byte>)
    requires Is32(v)
    ensures |Put(v, rest)| == 4 + |rest| && Take(Put(v, rest)) == v && Put(v, rest)[4..] == rest
  {
    Value32(v);
    assert Put(v, rest)[..4] == Bytes(v, 4);
  }

  lemma TakeRaw(raw: seq<Byte>, rest: seq<Byte>)
    ensures |PutRaw(raw, rest)| == |raw| + |rest|
    ensures PutRaw(raw, rest)[..|raw|] == raw && PutRaw(raw, rest)[|raw|..] == rest
  {
  }

  // Behind its magic, which is no terminator, the object is read back.
  ghost predicate ReadsBack<T(!new)>(get: (nat, seq<Byte>) -> Parsed<T>, put: (T, seq<Byte>) -> seq<Byte>, term: nat,
                                    t: T, rest: seq<Byte>) {
    var s := put(t, rest);
    |s| >= 4 + |rest| && Take(s) != term && get(Take(s), s[4..]) == Got(t, rest)
  }

  lemma {:induction false} AllReadBack<T(!new)>(get: (nat, seq<Byte>) -> Parsed<T>, put: (T, seq<Byte>) -> seq<Byte>,
                                               term: nat, ts: seq<T>, rest: seq<Byte>)
    requires Is32(term)
    requires forall t, r :: t in ts ==> ReadsBack(get, put, term, t, r)
    ensures GetAll(get, term, PutAll(put, ts, Put(term, rest))) == Got(ts, rest)
    decreases |ts|
  {
    if ts == [] {
      TakePut(term, rest);
    } else {
      var later := PutAll(put, ts[1..], Put(term, rest));
      assert ReadsBack(get, put, term, ts[0], later);
      AllReadBack(get, put, term, ts[1..], rest);
      assert [ts[0]] + ts[1..] == ts;
    }
  }

  lemma LeafReadsBack(l: Leaf, term: nat, rest: seq<Byte>)
    requires ValidLeaf(l) && term != EOF_MAGIC && term != CHAR_MAGIC && term != GRAPH_MAGIC
    ensures ReadsBack(GetLeaf, PutLeaf, term, l, rest)
  {
    hide Take, Put, PutRaw;
    match l
    case Eof =>
      TakePut(EOF_MAGIC, rest);
    case Char(e, v, c, i, a) =>
      TakeRaw(a, rest);
      var s4 := PutRaw(a, rest);
      TakePut(i, s4);
      var s3 := Put(i, s4);
      TakePut(c, s3);
      var s2 := Put(c, s3);
      TakePut(v, s2);
      var s1 := Put(v, s2);
      TakePut(e, s1);
      TakePut(CHAR_MAGIC, Put(e, s1));
    case Graph(w, h, name) =>
      TakeRaw(name, rest);
      var s3 := PutRaw(name, rest);
      TakePut(|name|, s3);
      var s2 := Put(|name|, s3);
      TakePut(h, s2);
      var s1 := Put(h, s2);
      TakePut(w, s1);
      TakePut(GRAPH_MAGIC, Put(w, s1));
  }

  lemma LeavesReadBack(ls: seq<Leaf>, term: nat, rest: seq<Byte>)
    requires Is32(term) && term != EOF_MAGIC && term != CHAR_MAGIC && term != GRAPH_MAGIC
    requires forall l :: l in ls ==> ValidLeaf(l)
    ensures GetAll(GetLeaf, term, PutAll(PutLeaf, ls, Put(term, rest))) == Got(ls, rest)
  {
    hide ReadsBack, ValidLeaf;
    forall l, r | l in ls
      ensures ReadsBack(GetLeaf, PutLeaf, term, l, r)
    {
      LeafReadsBack(l, term, r);
    }
    AllReadBack(GetLeaf, PutLeaf, term, ls, rest);
  }

  lemma TokensReadBack(c: Cell, rest: seq<Byte>)
    requires ValidCell(c)
    ensures GetTokens(c.(delayedToken := [], glyphBuffer := []), PutTokens(c, rest)) == Got(c, rest)
  {
    hide GetAll, PutAll;
    LeavesReadBack(c.delayedToken, DELAY_END, PutAll(PutLeaf, c.glyphBuffer, Put(CELL_END, rest)));
    LeavesReadBack(c.glyphBuffer, CELL_END, rest);
  }

  lemma CellReadsBack(c: Cell, rest: seq<Byte>)
    requires ValidCell(c)
    ensures ReadsBack(GetCell, PutCell, ROW_END, c, rest)
  {
    hide Take, Put, PutRaw, PutTokens, GetTokens;
    TokensReadBack(c, rest);
    var s7 := PutTokens(c, rest);
    TokensLonger(c, rest);
    TakeRaw(c.lineAttrib, s7);
    var s6 := PutRaw(c.lineAttrib, s7);
    TakeRaw(c.glyphAttrib, s6);
    var s5 := PutRaw(c.glyphAttrib, s6);
    TakePut(c.borderHeight, s5);
    var s4 := Put(c.borderHeight, s5);
    TakePut(c.borderSize, s4);
    var s3 := Put(c.borderSize, s4);
    TakeRaw(c.borderPos, s3);
    var s2 := PutRaw(c.borderPos, s3);
    TakePut(c.xoff, s2);
    var s1 := Put(c.xoff, s2);
    TakePut(c.width, s1);
    TakePut(CELL_MAGIC, Put(c.width, s1));
  }

  lemma PutLonger(v: nat, rest: seq<Byte>)
    ensures |Put(v, rest)| == 4 + |rest|
  {
  }

  lemma LeafLonger(l: Leaf, rest: seq<Byte>)
    ensures |PutLeaf(l, rest)| >= |rest|
  {
  }

  lemma {:induction false} AllLonger<T(!new)>(put: (T, seq<Byte>) -> seq<Byte>, ts: seq<T>, rest: seq<Byte>)
    requires forall t, r :: t in ts ==> |put(t, r)| >= |r|
    ensures |PutAll(put, ts, rest)| >= |rest|
    decreases |ts|
  {
    if ts != [] {
      AllLonger(put, ts[1..], rest);
    }
  }

  lemma TokensLonger(c: Cell, rest: seq<Byte>)
    ensures |PutTokens(c, rest)| >= |rest|
  {
    hide PutAll, Put, PutLeaf;
    forall l, r
      ensures |PutLeaf(l, r)| >= |r|
    {
      LeafLonger(l, r);
    }
    var s := Put(CELL_END, rest);
    AllLonger(PutLeaf, c.glyphBuffer, s);
    var s' := PutAll(PutLeaf, c.glyphBuffer, s);
    AllLonger(PutLeaf, c.delayedToken, Put(DELAY_END, s'));
    PutLonger(CELL_END, rest);
    PutLonger(DELAY_END, s');
  }

  lemma RowReadsBack(r: Row, rest: seq<Byte>)
    requires ValidRow(r)
    ensures ReadsBack(GetRow, PutRow, TABLE_END, r, rest)
  {
    hide Take, Put, PutRaw, GetAll, PutAll, ValidCell;
    CellsReadBack(r.dataCells, rest);
    var s5 := PutAll(PutCell, r.dataCells, Put(ROW_END, rest));
    TakePut(r.borderSize, s5);
    var s4 := Put(r.borderSize, s5);
    TakeRaw(r.borderPos, s4);
    var s3 := PutRaw(r.borderPos, s4);
    TakePut(r.height, s3);
    var s2 := Put(r.height, s3);
    TakePut(r.width, s2);
    var s1 := Put(r.width, s2);
    TakePut(r.xoff, s1);
    TakePut(ROW_MAGIC, Put(r.xoff, s1));
  }

  lemma CellsReadBack(cs: seq<Cell>, rest: seq<Byte>)
    requires forall c :: c in cs ==> ValidCell(c)
    ensures GetAll(GetCell, ROW_END, PutAll(PutCell, cs, Put(ROW_END, rest))) == Got(cs, rest)
    ensures |PutAll(PutCell, cs, Put(ROW_END, rest))| >= |rest|
  {
    hide ReadsBack, ValidCell, PutCell;
    forall c, r | c in cs
      ensures ReadsBack(GetCell, PutCell, ROW_END, c, r) && |PutCell(c, r)| >= |r|
    {
      CellReadsBack(c, r);
      Longer(GetCell, PutCell, ROW_END, c, r);
    }
    AllReadBack(GetCell, PutCell, ROW_END, cs, rest);
    AllLonger(PutCell, cs, Put(ROW_END, rest));
    PutLonger(ROW_END, rest);
  }

  lemma Longer<T(!new)>(get: (nat, seq<Byte>) -> Parsed<T>, put: (T, seq<Byte>) -> seq<Byte>, term: nat,
                        t: T, rest: seq<Byte>)
    requires ReadsBack(get, put, term, t, rest)
    ensures |put(t, rest)| >= |rest|
  {
  }

  lemma RowsReadBack(rs: seq<Row>, rest: seq<Byte>)
    requires forall r :: r in rs ==> ValidRow(r)
    ensures GetAll(GetRow, TABLE_END, PutAll(PutRow, rs, Put(TABLE_END, rest))) == Got(rs, rest)
    ensures |PutAll(PutRow, rs, Put(TABLE_END, rest))| >= |rest|
  {
    hide ReadsBack, ValidRow, PutRow;
    forall row, r | row in rs
      ensures ReadsBack(GetRow, PutRow, TABLE_END, row, r) && |PutRow(row, r)| >= |r|
    {
      RowReadsBack(row, r);
      Longer(GetRow, PutRow, TABLE_END, row, r);
    }
    AllReadBack(GetRow, PutRow, TABLE_END, rs, rest);
    AllLonger(PutRow, rs, Put(TABLE_END, rest));
    PutLonger(TABLE_END, rest);
  }

  lemma TableReadsBack(g: Glyph, rest: seq<Byte>)
    requires g.Table? && ValidGlyph(g)
    ensures ReadsBack(GetGlyph, PutGlyph, OFFSET_MAGIC, g, rest)
  {
    hide Take, Put, PutRaw, GetAll, PutAll, ValidRow;
    RowsReadBack(g.rows, rest);
    var s7 := PutAll(PutRow, g.rows, Put(TABLE_END, rest));
    TakePut(g.rowSplit, s7);
    var s6 := Put(g.rowSplit, s7);
    TakePut(g.height, s6);
    var s5 := Put(g.height, s6);
    TakePut(g.border, s5);
    var s4 := Put(g.border, s5);
    TakePut(g.row, s4);
    var s3 := Put(g.row, s4);
    TakePut(g.col, s3);
    var s2 := Put(g.col, s3);
    TakePut(g.width, s2);
    var s1 := Put(g.width, s2);
    TakePut(g.xoff, s1);
    TakePut(TABLE_MAGIC, Put(g.xoff, s1));
  }

  lemma GlyphReadsBack(g: Glyph, rest: seq<Byte>)
    requires ValidGlyph(g)
    ensures ReadsBack(GetGlyph, PutGlyph, OFFSET_MAGIC, g, rest)
  {
    hide Take, Put, PutRaw, GetAll, PutAll;
    match g
    case Table(_, _, _, _, _, _, _, _) => TableReadsBack(g, rest);
    case Simple(l) =>
      LeafReadsBack(l, OFFSET_MAGIC, rest);
      LeafMagic(l, rest);
  }

  lemma LeafMagic(l: Leaf, rest: seq<Byte>)
    ensures |PutLeaf(l, rest)| >= 4 && Take(PutLeaf(l, rest)) != TABLE_MAGIC
  {
    hide Take, Put, PutRaw;
    match l
    case Eof => TakePut(EOF_MAGIC, rest);
    case Char(e, v, c, i, a) => TakePut(CHAR_MAGIC, Put(e, Put(v, Put(c, Put(i, PutRaw(a, rest))))));
    case Graph(w, h, name) => TakePut(GRAPH_MAGIC, Put(w, Put(h, Put(|name|, PutRaw(name, rest)))));
  }

  /** Whatever is in the buffer - tables with any rows and cells, pictures, single
      characters - reading the bytes of a snapshot gives it back, field by field. */
  lemma SnapshotReadsBack(d: Snapshot, rest: seq<Byte>)
    requires ValidSnapshot(d)
    ensures GetSnapshot(PutSnapshot(d, rest)) == Got(d, rest)
  {
    hide ReadsBack, ValidGlyph, GetAll, PutAll, PutRaw, Put;
    forall g, r | g in d.buffer
      ensures ReadsBack(GetGlyph, PutGlyph, OFFSET_MAGIC, g, r)
    {
      GlyphReadsBack(g, r);
    }
    var s1 := PutRaw(d.lineAttrib, rest);
    var s := PutRaw(d.glyphAttrib, s1);
    TakeRaw(d.lineAttrib, rest);
    TakeRaw(d.glyphAttrib, s1);
    AllReadBack(GetGlyph, PutGlyph, OFFSET_MAGIC, d.buffer, s);
  }

  // ---------- the bytes ----------

  /** The magic numbers. */
  lemma MagicsAre()
    ensures EOF_MAGIC == 314 && CHAR_MAGIC == 414 && GRAPH_MAGIC == 530 && TABLE_MAGIC == 520
    ensures ROW_MAGIC == 315 && CELL_MAGIC == 230 && OFFSET_MAGIC == 647
    ensures TABLE_END == 960 && ROW_END == 1304 && CELL_END == 755 && DELAY_END == 1282
  {
  }

  // The number of four bytes at a place.
  predicate NumberAt(s: seq<Byte>, at: nat, v: nat) {
    at + 4 <= |s| && Value(s[at..at + 4]) == v
  }

  predicate RawAt(s: seq<Byte>, at: nat, raw: seq<Byte>) {
    at + |raw| <= |s| && s[at..at + |raw|] == raw
  }

  lemma NumberPut(v: nat, rest: seq<Byte>)
    requires Is32(v)
    ensures |Put(v, rest)| == 4 + |rest| && NumberAt(Put(v, rest), 0, v) && Put(v, rest)[4..] == rest
  {
    TakePut(v, rest);
    assert Put(v, rest)[0..4] == Put(v, rest)[..4];
  }

  lemma Behind(s: seq<Byte>, rest: seq<Byte>, n: nat)
    requires n <= |s| && s[n..] == rest
    ensures forall at: nat, v :: NumberAt(rest, at, v) ==> NumberAt(s, n + at, v)
    ensures forall at: nat, raw :: RawAt(rest, at, raw) ==> RawAt(s, n + at, raw)
    ensures forall at: nat :: at <= |rest| ==> s[n + at..] == rest[at..]
  {
    forall at: nat, v | NumberAt(rest, at, v)
      ensures NumberAt(s, n + at, v)
    {
      assert s[n + at..n + at + 4] == rest[at..at + 4];
    }
    forall at: nat, raw | RawAt(rest, at, raw)
      ensures RawAt(s, n + at, raw)
    {
      assert s[n + at..n + at + |raw|] == rest[at..at + |raw|];
    }
  }

  // What is put in front moves the others on.
  lemma PutsOne(v: nat, rest: seq<Byte>)
    requires Is32(v)
    ensures var s := Put(v, rest);
      && |s| == 4 + |rest| && NumberAt(s, 0, v)
      && (forall at: nat, w {:trigger NumberAt(rest, at, w)} :: NumberAt(rest, at, w) ==> NumberAt(s, 4 + at, w))
      && (forall at: nat, raw {:trigger RawAt(rest, at, raw)} :: RawAt(rest, at, raw) ==> RawAt(s, 4 + at, raw))
      && (forall at: nat {:trigger rest[at..]} :: at <= |rest| ==> s[4 + at..] == rest[at..])
  {
    NumberPut(v, rest);
    Behind(Put(v, rest), rest, 4);
  }

  lemma PutsRaw(raw: seq<Byte>, rest: seq<Byte>)
    ensures var s, n := PutRaw(raw, rest), |raw|;
      && |s| == n + |rest| && RawAt(s, 0, raw)
      && (forall at: nat, w {:trigger NumberAt(rest, at, w)} :: NumberAt(rest, at, w) ==> NumberAt(s, n + at, w))
      && (forall at: nat, r {:trigger RawAt(rest, at, r)} :: RawAt(rest, at, r) ==> RawAt(s, n + at, r))
      && (forall at: nat {:trigger rest[at..]} :: at <= |rest| ==> s[n + at..] == rest[at..])
  {
    TakeRaw(raw, rest);
    Behind(PutRaw(raw, rest), rest, |raw|);
  }

  /** A character: its number, four fields and the attributes. */
  lemma CharBytes(l: Leaf, rest: seq<Byte>)
    requires ValidLeaf(l) && l.Char?
    ensures var s := PutLeaf(l, rest);
      && NumberAt(s, 0, 414) && NumberAt(s, 4, l.encodeMode) && NumberAt(s, 8, l.val)
      && NumberAt(s, 12, l.charLen) && NumberAt(s, 16, l.id) && RawAt(s, 20, l.attrib)
      && |s| == 28 + |rest| && s[28..] == rest
  {
    hide Put, NumberAt, RawAt;
    var s5 := PutRaw(l.attrib, rest);
    var s4 := Put(l.id, s5);
    var s3 := Put(l.charLen, s4);
    var s2 := Put(l.val, s3);
    var s1 := Put(l.encodeMode, s2);
    PutsOne(414, s1);
    PutsOne(l.encodeMode, s2);
    PutsOne(l.val, s3);
    PutsOne(l.charLen, s4);
    PutsOne(l.id, s5);
    PutsRaw(l.attrib, rest);
  }

  /** A picture: its number, width and height, and its file name with its length. */
  lemma GraphBytes(l: Leaf, rest: seq<Byte>)
    requires ValidLeaf(l) && l.Graph?
    ensures var s, n := PutLeaf(l, rest), |l.fileName|;
      && NumberAt(s, 0, 530) && NumberAt(s, 4, l.reqWidth) && NumberAt(s, 8, l.reqHeight)
      && NumberAt(s, 12, n) && RawAt(s, 16, l.fileName) && |s| == 16 + n + |rest| && s[16 + n..] == rest
  {
    hide Put, NumberAt, RawAt;
    var s4 := PutRaw(l.fileName, rest);
    var s3 := Put(|l.fileName|, s4);
    var s2 := Put(l.reqHeight, s3);
    var s1 := Put(l.reqWidth, s2);
    PutsOne(530, s1);
    PutsOne(l.reqWidth, s2);
    PutsOne(l.reqHeight, s3);
    PutsOne(|l.fileName|, s4);
    PutsRaw(l.fileName, rest);
  }

  lemma EofBytes(rest: seq<Byte>)
    ensures var s := PutLeaf(Eof, rest); NumberAt(s, 0, 314) && |s| == 4 + |rest| && s[4..] == rest
  {
    PutsOne(314, rest);
  }

  /** Objects are put one behind the other. */
  lemma {:induction false} PutInOrder<T>(put: (T, seq<Byte>) -> seq<Byte>, a: seq<T>, b: seq<T>, rest: seq<Byte>)
    ensures PutAll(put, a + b, rest) == PutAll(put, a, PutAll(put, b, rest))
    ensures forall t :: a == [t] ==> PutAll(put, a, rest) == put(t, rest)
    ensures a == [] ==> PutAll(put, a, rest) == rest
    decreases |a|
  {
    if a == [] {
      assert a + b == b;
    } else {
      assert (a + b)[1..] == a[1..] + b;
      PutInOrder(put, a[1..], b, rest);
    }
  }

  /** A cell: its number, seven fields, the delayed glyphs up to a number, and the
      current ones up to another. */
  lemma CellBytes(c: Cell, rest: seq<Byte>)
    requires ValidCell(c)
    ensures var s := PutCell(c, rest);
      && NumberAt(s, 0, 230) && NumberAt(s, 4, c.width) && NumberAt(s, 8, c.xoff) && RawAt(s, 12, c.borderPos)
      && NumberAt(s, 20, c.borderSize) && NumberAt(s, 24, c.borderHeight) && RawAt(s, 28, c.glyphAttrib)
      && RawAt(s, 36, c.lineAttrib) && |s| >= 60
      && s[60..] ==
           PutAll(PutLeaf, c.delayedToken, Bytes(1282, 4) + PutAll(PutLeaf, c.glyphBuffer, Bytes(755, 4) + rest))
  {
    CellTokens(c, rest);
    hide Put, PutTokens, NumberAt, RawAt;
    var s7 := PutTokens(c, rest);
    var s6 := PutRaw(c.lineAttrib, s7);
    var s5 := PutRaw(c.glyphAttrib, s6);
    var s4 := Put(c.borderHeight, s5);
    var s3 := Put(c.borderSize, s4);
    var s2 := PutRaw(c.borderPos, s3);
    var s1 := Put(c.xoff, s2);
    var s0 := Put(c.width, s1);
    PutsOne(230, s0);
    PutsOne(c.width, s1);
    PutsOne(c.xoff, s2);
    PutsRaw(c.borderPos, s3);
    PutsOne(c.borderSize, s4);
    PutsOne(c.borderHeight, s5);
    PutsRaw(c.glyphAttrib, s6);
    PutsRaw(c.lineAttrib, s7);
  }

  lemma CellTokens(c: Cell, rest: seq<Byte>)
    ensures PutTokens(c, rest) ==
      PutAll(PutLeaf, c.delayedToken, Bytes(1282, 4) + PutAll(PutLeaf, c.glyphBuffer, Bytes(755, 4) + rest))
  {
  }

  /** A row: its number, five fields and the cells up to a number. */
  lemma RowBytes(r: Row, rest: seq<Byte>)
    requires ValidRow(r)
    ensures var s := PutRow(r, rest);
      && NumberAt(s, 0, 315) && NumberAt(s, 4, r.xoff) && NumberAt(s, 8, r.width) && NumberAt(s, 12, r.height)
      && RawAt(s, 16, r.borderPos) && NumberAt(s, 24, r.borderSize) && |s| >= 28
      && s[28..] == PutAll(PutCell, r.dataCells, Bytes(1304, 4) + rest)
  {
    assert Put(ROW_END, rest) == Bytes(1304, 4) + rest;
    hide Put, PutCell, NumberAt, RawAt;
    var s5 := PutAll(PutCell, r.dataCells, Put(ROW_END, rest));
    var s4 := Put(r.borderSize, s5);
    var s3 := PutRaw(r.borderPos, s4);
    var s2 := Put(r.height, s3);
    var s1 := Put(r.width, s2);
    var s0 := Put(r.xoff, s1);
    PutsOne(315, s0);
    PutsOne(r.xoff, s1);
    PutsOne(r.width, s2);
    PutsOne(r.height, s3);
    PutsRaw(r.borderPos, s4);
    PutsOne(r.borderSize, s5);
  }

  /** A table: its number, seven fields and the rows up to a number. */
  lemma TableBytes(g: Glyph, rest: seq<Byte>)
    requires ValidGlyph(g) && g.Table?
    ensures var s := PutGlyph(g, rest);
      && NumberAt(s, 0, 520) && NumberAt(s, 4, g.xoff) && NumberAt(s, 8, g.width) && NumberAt(s, 12, g.col)
      && NumberAt(s, 16, g.row) && NumberAt(s, 20, g.border) && NumberAt(s, 24, g.height)
      && NumberAt(s, 28, g.rowSplit) && |s| >= 32 && s[32..] == PutAll(PutRow, g.rows, Bytes(960, 4) + rest)
  {
    assert Put(TABLE_END, rest) == Bytes(960, 4) + rest;
    hide Put, PutRow, NumberAt, RawAt;
    var s6 := PutAll(PutRow, g.rows, Put(TABLE_END, rest));
    var s5 := Put(g.rowSplit, s6);
    var s4 := Put(g.height, s5);
    var s3 := Put(g.border, s4);
    var s2 := Put(g.row, s3);
    var s1 := Put(g.col, s2);
    var s0 := Put(g.width, s1);
    var s := Put(g.xoff, s0);
    PutsOne(520, s);
    PutsOne(g.xoff, s0);
    PutsOne(g.width, s1);
    PutsOne(g.col, s2);
    PutsOne(g.row, s3);
    PutsOne(g.border, s4);
    PutsOne(g.height, s5);
    PutsOne(g.rowSplit, s6);
  }

  /** A snapshot: the glyphs up to a number, and the attributes of glyphs and of lines. */
  lemma SnapshotBytes(d: Snapshot)
    ensures PutSnapshot(d, []) == PutAll(PutGlyph, d.buffer, Bytes(647, 4) + d.glyphAttrib + d.lineAttrib)
    ensures forall l, rest :: PutGlyph(Simple(l), rest) == PutLeaf(l, rest)
  {
    assert PutRaw(d.glyphAttrib, PutRaw(d.lineAttrib, [])) == d.glyphAttrib + d.lineAttrib;
    assert Put(647, d.glyphAttrib + d.lineAttrib) == Bytes(647, 4) + d.glyphAttrib + d.lineAttrib;
  }
}
