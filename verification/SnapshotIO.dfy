/** Writing the glyphs of a snapshot to a stream and reading them from one. */
module SnapshotIO {
  import opened Canonical
  import opened LittleEndian
  import opened StateFormat

  // ---------- the streams ----------

  class Out {
    var bytes: seq<Byte>

    constructor ()
      ensures bytes == []
    {
      bytes := [];
    }

    // The contracts speak of the rest that is written later.
    method Write(v: nat, ghost rest: seq<Byte>)
      modifies this
      ensures bytes + rest == old(bytes) + Put(v, rest)
    {
      bytes := bytes + Bytes(v, 4);
    }

    method WriteRaw(raw: seq<Byte>, ghost rest: seq<Byte>)
      modifies this
      ensures bytes + rest == old(bytes) + PutRaw(raw, rest)
    {
      bytes := bytes + raw;
    }
  }

  class In {
    var rest: seq<Byte>

    constructor (bytes: seq<Byte>)
      ensures rest == bytes
    {
      rest := bytes;
    }

    method Read() returns (v: nat)
      requires |rest| >= 4
      modifies this
      ensures v == Take(old(rest)) && rest == old(rest)[4..]
    {
      v := Take(rest);
      rest := rest[4..];
    }

    method ReadRaw(n: nat) returns (raw: seq<Byte>)
      requires |rest| >= n
      modifies this
      ensures raw == old(rest)[..n] && rest == old(rest)[n..]
    {
      raw := rest[..n];
      rest := rest[n..];
    }
  }

  // ---------- writing ----------

  // Eof, Char and Graph: the fields one after the other.
  method SerializeLeaf(l: Leaf, ofs: Out, ghost rest: seq<Byte>)
    modifies ofs
    ensures ofs.bytes + rest == old(ofs.bytes) + PutLeaf(l, rest)
  {
    hide Put, PutRaw;
    match l
    case Eof =>
      ofs.Write(EOF_MAGIC, rest);
    case Char(encodeMode, val, charLen, id, attrib) =>
      ghost var r4 := PutRaw(attrib, rest);
      ghost var r3 := Put(id, r4);
      ghost var r2 := Put(charLen, r3);
      ghost var r1 := Put(val, r2);
      ofs.Write(CHAR_MAGIC, Put(encodeMode, r1));
      ofs.Write(encodeMode, r1);
      ofs.Write(val, r2);
      ofs.Write(charLen, r3);
      ofs.Write(id, r4);
      ofs.WriteRaw(attrib, rest);
    case Graph(reqWidth, reqHeight, fileName) =>
      ghost var r3 := PutRaw(fileName, rest);
      ghost var r2 := Put(|fileName|, r3);
      ghost var r1 := Put(reqHeight, r2);
      ofs.Write(GRAPH_MAGIC, Put(reqWidth, r1));
      ofs.Write(reqWidth, r1);
      ofs.Write(reqHeight, r2);
      ofs.Write(|fileName|, r3);
      ofs.WriteRaw(fileName, rest);
  }

  method SerializeLeaves(ls: seq<Leaf>, ofs: Out, ghost rest: seq<Byte>)
    modifies ofs
    ensures ofs.bytes + rest == old(ofs.bytes) + PutAll(PutLeaf, ls, rest)
  {
    hide PutLeaf;
    assert ls[0..] == ls;
    for i := 0 to |ls|
      invariant ofs.bytes + PutAll(PutLeaf, ls[i..], rest) == old(ofs.bytes) + PutAll(PutLeaf, ls, rest)
    {
      assert ls[i..][1..] == ls[i + 1..];
      SerializeLeaf(ls[i], ofs, PutAll(PutLeaf, ls[i + 1..], rest));
    }
  }

  method SerializeCell(c: Cell, ofs: Out, ghost rest: seq<Byte>)
    modifies ofs
    ensures ofs.bytes + rest == old(ofs.bytes) + PutCell(c, rest)
  {
    hide Put, PutRaw, PutAll;
    ghost var r9 := Put(CELL_END, rest);
    ghost var r8 := PutAll(PutLeaf, c.glyphBuffer, r9);
    ghost var r7 := Put(DELAY_END, r8);
    ghost var r6 := PutTokens(c, rest);
    ghost var r5 := PutRaw(c.lineAttrib, r6);
    ghost var r4 := PutRaw(c.glyphAttrib, r5);
    ghost var r3 := Put(c.borderHeight, r4);
    ghost var r2 := Put(c.borderSize, r3);
    ghost var r1 := PutRaw(c.borderPos, r2);
    ghost var r0 := Put(c.xoff, r1);
    ofs.Write(CELL_MAGIC, Put(c.width, r0));
    ofs.Write(c.width, r0);
    ofs.Write(c.xoff, r1);
    ofs.WriteRaw(c.borderPos, r2);
    ofs.Write(c.borderSize, r3);
    ofs.Write(c.borderHeight, r4);
    ofs.WriteRaw(c.glyphAttrib, r5);
    ofs.WriteRaw(c.lineAttrib, r6);
    SerializeLeaves(c.delayedToken, ofs, r7);
    ofs.Write(DELAY_END, r8);
    SerializeLeaves(c.glyphBuffer, ofs, r9);
    ofs.Write(CELL_END, rest);
  }

  method SerializeCells(cs: seq<Cell>, ofs: Out, ghost rest: seq<Byte>)
    modifies ofs
    ensures ofs.bytes + rest == old(ofs.bytes) + PutAll(PutCell, cs, rest)
  {
    hide PutCell;
    assert cs[0..] == cs;
    for i := 0 to |cs|
      invariant ofs.bytes + PutAll(PutCell, cs[i..], rest) == old(ofs.bytes) + PutAll(PutCell, cs, rest)
    {
      assert cs[i..][1..] == cs[i + 1..];
      SerializeCell(cs[i], ofs, PutAll(PutCell, cs[i + 1..], rest));
    }
  }

  method SerializeRow(r: Row, ofs: Out, ghost rest: seq<Byte>)
    modifies ofs
    ensures ofs.bytes + rest == old(ofs.bytes) + PutRow(r, rest)
  {
    hide Put, PutRaw, PutAll;
    ghost var r6 := Put(ROW_END, rest);
    ghost var r5 := PutAll(PutCell, r.dataCells, r6);
    ghost var r4 := Put(r.borderSize, r5);
    ghost var r3 := PutRaw(r.borderPos, r4);
    ghost var r2 := Put(r.height, r3);
    ghost var r1 := Put(r.width, r2);
    ofs.Write(ROW_MAGIC, Put(r.xoff, r1));
    ofs.Write(r.xoff, r1);
    ofs.Write(r.width, r2);
    ofs.Write(r.height, r3);
    ofs.WriteRaw(r.borderPos, r4);
    ofs.Write(r.borderSize, r5);
    SerializeCells(r.dataCells, ofs, r6);
    ofs.Write(ROW_END, rest);
  }

  method SerializeTable(t: Glyph, ofs: Out, ghost rest: seq<Byte>)
    requires t.Table?
    modifies ofs
    ensures ofs.bytes + rest == old(ofs.bytes) + PutGlyph(t, rest)
  {
    hide Put, PutRow;
    ghost var r9 := Put(TABLE_END, rest);
    ghost var r8 := PutAll(PutRow, t.rows, r9);
    ghost var r7 := Put(t.rowSplit, r8);
    ghost var r6 := Put(t.height, r7);
    ghost var r5 := Put(t.border, r6);
    ghost var r4 := Put(t.row, r5);
    ghost var r3 := Put(t.col, r4);
    ghost var r2 := Put(t.width, r3);
    ofs.Write(TABLE_MAGIC, Put(t.xoff, r2));
    ofs.Write(t.xoff, r2);
    ofs.Write(t.width, r3);
    ofs.Write(t.col, r4);
    ofs.Write(t.row, r5);
    ofs.Write(t.border, r6);
    ofs.Write(t.height, r7);
    ofs.Write(t.rowSplit, r8);
    assert t.rows[0..] == t.rows;
    for i := 0 to |t.rows|
      invariant ofs.bytes + PutAll(PutRow, t.rows[i..], r9) == old(ofs.bytes) + PutGlyph(t, rest)
    {
      assert t.rows[i..][1..] == t.rows[i + 1..];
      SerializeRow(t.rows[i], ofs, PutAll(PutRow, t.rows[i + 1..], r9));
    }
    ofs.Write(TABLE_END, rest);
  }

  method SerializeGlyph(g: Glyph, ofs: Out, ghost rest: seq<Byte>)
    modifies ofs
    ensures ofs.bytes + rest == old(ofs.bytes) + PutGlyph(g, rest)
  {
    match g
    case Simple(l) => SerializeLeaf(l, ofs, rest);
    case Table(_, _, _, _, _, _, _, _) => SerializeTable(g, ofs, rest);
  }

  // ---------- reading ----------

  method DeserializeLeaf(magic: nat, ifs: In) returns (l: Leaf)
    requires GetLeaf(magic, ifs.rest).Got?
    modifies ifs
    ensures GetLeaf(magic, old(ifs.rest)) == Got(l, ifs.rest)
  {
    hide Take;
    if magic == EOF_MAGIC {
      l := Eof;
    } else if magic == CHAR_MAGIC {
      var encodeMode := ifs.Read();
      var val := ifs.Read();
      var charLen := ifs.Read();
      var id := ifs.Read();
      var attrib := ifs.ReadRaw(ATTRIB_GLYPH);
      l := Char(encodeMode, val, charLen, id, attrib);
    } else {
      var reqWidth := ifs.Read();
      var reqHeight := ifs.Read();
      var len := ifs.Read();
      var fileName := ifs.ReadRaw(len);
      l := Graph(reqWidth, reqHeight, fileName);
    }
  }

  // ---------- the loop over objects with a terminator ----------

  // Objects read so far, in front of those still to be read.
  ghost predicate Onward<T>(get: (nat, seq<Byte>) -> Parsed<T>, term: nat, s: seq<Byte>, ts: seq<T>, rest: seq<Byte>) {
    && GetAll(get, term, rest).Got?
    && GetAll(get, term, s) == Got(ts + GetAll(get, term, rest).value, GetAll(get, term, rest).rest)
  }

  lemma Begin<T>(get: (nat, seq<Byte>) -> Parsed<T>, term: nat, s: seq<Byte>)
    requires GetAll(get, term, s).Got?
    ensures Onward(get, term, s, [], s)
  {
    assert [] + GetAll(get, term, s).value == GetAll(get, term, s).value;
  }

  // What one step of the loop can find.
  lemma Next<T>(get: (nat, seq<Byte>) -> Parsed<T>, term: nat, s: seq<Byte>, ts: seq<T>, rest: seq<Byte>)
    requires Onward(get, term, s, ts, rest)
    ensures |rest| >= 4
    ensures Take(rest) == term ==> GetAll(get, term, s) == Got(ts, rest[4..])
    ensures Take(rest) != term ==>
      match get(Take(rest), rest[4..])
      case Got(t, rest') => |rest'| < |rest| && Onward(get, term, s, ts + [t], rest')
      case Unknown => Onward(get, term, s, ts, rest[4..])
      case Short => false
  {
    if Take(rest) == term {
      assert ts + [] == ts;
    } else {
      match get(Take(rest), rest[4..])
      case Got(t, rest') =>
        Shift(ts, t, GetAll(get, term, rest').value);
      case Unknown =>
      case Short =>
    }
  }

  lemma Shift<T>(a: seq<T>, t: T, b: seq<T>)
    ensures a + ([t] + b) == (a + [t]) + b
  {
  }

  method DeserializeLeaves(term: nat, ifs: In) returns (ts: seq<Leaf>)
    requires GetAll(GetLeaf, term, ifs.rest).Got?
    modifies ifs
    ensures GetAll(GetLeaf, term, old(ifs.rest)) == Got(ts, ifs.rest)
  {
    hide Take, GetLeaf, GetAll, Onward;
    ts := [];
    Begin(GetLeaf, term, ifs.rest);
    var finished := false;
    while !finished
      invariant !finished ==> Onward(GetLeaf, term, old(ifs.rest), ts, ifs.rest)
      invariant finished ==> GetAll(GetLeaf, term, old(ifs.rest)) == Got(ts, ifs.rest)
      decreases !finished, |ifs.rest|
    {
      Next(GetLeaf, term, old(ifs.rest), ts, ifs.rest);
      var magic := ifs.Read();
      LeafMagics(magic, ifs.rest);
      if magic == term {
        finished := true;
      } else if magic == EOF_MAGIC || magic == CHAR_MAGIC || magic == GRAPH_MAGIC {
        var t := DeserializeLeaf(magic, ifs);
        ts := ts + [t];
      }
    }
  }

  lemma LeafMagics(magic: nat, s: seq<Byte>)
    ensures GetLeaf(magic, s).Unknown? <==> magic != EOF_MAGIC && magic != CHAR_MAGIC && magic != GRAPH_MAGIC
  {
  }

  // Behind the magic of a cell.
  method DeserializeCell(ifs: In) returns (c: Cell)
    requires GetCell(CELL_MAGIC, ifs.rest).Got?
    modifies ifs
    ensures GetCell(CELL_MAGIC, old(ifs.rest)) == Got(c, ifs.rest)
  {
    hide Take, GetAll;
    var width := ifs.Read();
    var xoff := ifs.Read();
    var borderPos := ifs.ReadRaw(POSITION);
    var borderSize := ifs.Read();
    var borderHeight := ifs.Read();
    var glyphAttrib := ifs.ReadRaw(ATTRIB_GLYPH);
    var lineAttrib := ifs.ReadRaw(ATTRIB_LINE);
    var delayedToken := DeserializeLeaves(DELAY_END, ifs);
    var glyphBuffer := DeserializeLeaves(CELL_END, ifs);
    c := Cell(width, xoff, borderPos, borderSize, borderHeight, glyphAttrib, lineAttrib, delayedToken, glyphBuffer);
  }

  method DeserializeCells(ifs: In) returns (ts: seq<Cell>)
    requires GetAll(GetCell, ROW_END, ifs.rest).Got?
    modifies ifs
    ensures GetAll(GetCell, ROW_END, old(ifs.rest)) == Got(ts, ifs.rest)
  {
    hide Take, GetCell, GetAll, Onward;
    ts := [];
    Begin(GetCell, ROW_END, ifs.rest);
    var finished := false;
    while !finished
      invariant !finished ==> Onward(GetCell, ROW_END, old(ifs.rest), ts, ifs.rest)
      invariant finished ==> GetAll(GetCell, ROW_END, old(ifs.rest)) == Got(ts, ifs.rest)
      decreases !finished, |ifs.rest|
    {
      Next(GetCell, ROW_END, old(ifs.rest), ts, ifs.rest);
      var magic := ifs.Read();
      CellMagic(magic, ifs.rest);
      if magic == ROW_END {
        finished := true;
      } else if magic == CELL_MAGIC {
        var t := DeserializeCell(ifs);
        ts := ts + [t];
      }
    }
  }

  lemma CellMagic(magic: nat, s: seq<Byte>)
    ensures GetCell(magic, s).Unknown? <==> magic != CELL_MAGIC
  {
    hide Take, GetAll;
  }

  method DeserializeRow(ifs: In) returns (r: Row)
    requires GetRow(ROW_MAGIC, ifs.rest).Got?
    modifies ifs
    ensures GetRow(ROW_MAGIC, old(ifs.rest)) == Got(r, ifs.rest)
  {
    hide Take, GetAll;
    var xoff := ifs.Read();
    var width := ifs.Read();
    var height := ifs.Read();
    var borderPos := ifs.ReadRaw(POSITION);
    var borderSize := ifs.Read();
    var dataCells := DeserializeCells(ifs);
    r := Row(xoff, width, height, borderPos, borderSize, dataCells);
  }

  method DeserializeRows(ifs: In) returns (ts: seq<Row>)
    requires GetAll(GetRow, TABLE_END, ifs.rest).Got?
    modifies ifs
    ensures GetAll(GetRow, TABLE_END, old(ifs.rest)) == Got(ts, ifs.rest)
  {
    hide Take, GetRow, GetAll, Onward;
    ts := [];
    Begin(GetRow, TABLE_END, ifs.rest);
    var finished := false;
    while !finished
      invariant !finished ==> Onward(GetRow, TABLE_END, old(ifs.rest), ts, ifs.rest)
      invariant finished ==> GetAll(GetRow, TABLE_END, old(ifs.rest)) == Got(ts, ifs.rest)
      decreases !finished, |ifs.rest|
    {
      Next(GetRow, TABLE_END, old(ifs.rest), ts, ifs.rest);
      var magic := ifs.Read();
      RowMagic(magic, ifs.rest);
      if magic == TABLE_END {
        finished := true;
      } else if magic == ROW_MAGIC {
        var t := DeserializeRow(ifs);
        ts := ts + [t];
      }
    }
  }

  lemma RowMagic(magic: nat, s: seq<Byte>)
    ensures GetRow(magic, s).Unknown? <==> magic != ROW_MAGIC
  {
    hide Take, GetAll;
  }

  method DeserializeTable(ifs: In) returns (t: Glyph)
    requires GetTable(ifs.rest).Got?
    modifies ifs
    ensures GetTable(old(ifs.rest)) == Got(t, ifs.rest)
  {
    hide Take, GetAll;
    var xoff := ifs.Read();
    var width := ifs.Read();
    var col := ifs.Read();
    var row := ifs.Read();
    var border := ifs.Read();
    var height := ifs.Read();
    var rowSplit := ifs.Read();
    var rows := DeserializeRows(ifs);
    t := Table(xoff, width, col, row, border, height, rowSplit, rows);
  }

  method DeserializeGlyph(magic: nat, ifs: In) returns (g: Glyph)
    requires GetGlyph(magic, ifs.rest).Got?
    modifies ifs
    ensures GetGlyph(magic, old(ifs.rest)) == Got(g, ifs.rest)
  {
    hide Take, GetAll, GetLeaf, GetTable;
    if magic == TABLE_MAGIC {
      g := DeserializeTable(ifs);
    } else {
      var l := DeserializeLeaf(magic, ifs);
      g := Simple(l);
    }
  }

  method DeserializeGlyphs(ifs: In) returns (ts: seq<Glyph>)
    requires GetAll(GetGlyph, OFFSET_MAGIC, ifs.rest).Got?
    modifies ifs
    ensures GetAll(GetGlyph, OFFSET_MAGIC, old(ifs.rest)) == Got(ts, ifs.rest)
  {
    hide Take, GetGlyph, GetAll, Onward;
    ts := [];
    Begin(GetGlyph, OFFSET_MAGIC, ifs.rest);
    var finished := false;
    while !finished
      invariant !finished ==> Onward(GetGlyph, OFFSET_MAGIC, old(ifs.rest), ts, ifs.rest)
      invariant finished ==> GetAll(GetGlyph, OFFSET_MAGIC, old(ifs.rest)) == Got(ts, ifs.rest)
      decreases !finished, |ifs.rest|
    {
      Next(GetGlyph, OFFSET_MAGIC, old(ifs.rest), ts, ifs.rest);
      var magic := ifs.Read();
      GlyphMagics(magic, ifs.rest);
      if magic == OFFSET_MAGIC {
        finished := true;
      } else if magic == EOF_MAGIC || magic == CHAR_MAGIC || magic == GRAPH_MAGIC || magic == TABLE_MAGIC {
        var t := DeserializeGlyph(magic, ifs);
        ts := ts + [t];
      }
    }
  }

  lemma GlyphMagics(magic: nat, s: seq<Byte>)
    ensures GetGlyph(magic, s).Unknown? <==>
      magic != EOF_MAGIC && magic != CHAR_MAGIC && magic != GRAPH_MAGIC && magic != TABLE_MAGIC
  {
    hide Take, GetAll, GetLeaf;
    LeafMagics(magic, s);
  }
}
