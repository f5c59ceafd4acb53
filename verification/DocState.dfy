/** Storing, completing and recovering the state of the parser in a file. */
module DocState {
  import opened Canonical
  import opened LittleEndian
  import opened StateFormat
  import opened SnapshotIO

  const INCOMPLETE: nat := 0
  const COMPLETE: nat := 0xFFFF_FFFF

  class File {
    var bytes: seq<Byte>

    constructor ()
    {
      bytes := [];
    }
  }

  // What precedes the glyphs: the completion flag and the two offsets.
  function Header(flag: nat, offset: nat, termOff: nat): (h: seq<Byte>)
    ensures |h| == 20
  {
    Bytes(flag, 4) + Bytes(offset, 8) + Bytes(termOff, 8)
  }

  // Whether the flag says that the file was completed.
  predicate Completed(bytes: seq<Byte>) {
    |bytes| >= 4 && Take(bytes) == COMPLETE
  }

  lemma HeaderParts(flag: nat, offset: nat, termOff: nat, body: seq<Byte>)
    ensures var s := Header(flag, offset, termOff) + body;
      s[..4] == Bytes(flag, 4) && s[4..12] == Bytes(offset, 8) && s[12..20] == Bytes(termOff, 8) && s[20..] == body
  {
  }

  /** A snapshot that was stored and not completed is refused, one that was
      completed is not. */
  lemma CompletedIff(flag: nat, offset: nat, termOff: nat, body: seq<Byte>)
    requires Is32(flag)
    ensures Completed(Header(flag, offset, termOff) + body) <==> flag == COMPLETE
  {
    HeaderParts(flag, offset, termOff, body);
    Value32(flag);
  }

  /** The flag of a stored state is four bytes 0, that of a completed one four bytes FF;
      the offsets follow in eight bytes each, low-order byte first. */
  lemma HeaderIs(offset: nat, termOff: nat, body: seq<Byte>)
    requires offset < 0x1_0000_0000_0000_0000 && termOff < 0x1_0000_0000_0000_0000
    ensures var s := Header(INCOMPLETE, offset, termOff) + body;
      s[..4] == [0, 0, 0, 0] && Value(s[4..12]) == offset && Value(s[12..20]) == termOff && s[20..] == body
    ensures var s := Header(COMPLETE, offset, termOff) + body;
      s[..4] == [0xFF, 0xFF, 0xFF, 0xFF] && Value(s[4..12]) == offset && Value(s[12..20]) == termOff && s[20..] == body
  {
    hide Bytes, Value, Header;
    HeaderParts(INCOMPLETE, offset, termOff, body);
    HeaderParts(COMPLETE, offset, termOff, body);
    BytesOf(INCOMPLETE, 0, 0, 0, 0);
    BytesOf(COMPLETE, 0xFF, 0xFF, 0xFF, 0xFF);
    Value64(offset);
    Value64(termOff);
  }

  class State {
    var buffer: seq<Glyph>
    var offset: nat
    var termOff: nat
    var glyphAttrib: seq<Byte>
    var lineAttrib: seq<Byte>

    ghost function Persisted(): Snapshot
      reads this
    {
      Snapshot(buffer, glyphAttrib, lineAttrib)
    }

    ghost predicate Valid()
      reads this
    {
      ValidSnapshot(Persisted()) && offset < 0x1_0000_0000_0000_0000 && termOff < 0x1_0000_0000_0000_0000
    }

    constructor ()
      ensures buffer == [] && offset == 0 && termOff == 0 && fresh(this)
      ensures |glyphAttrib| == ATTRIB_GLYPH && |lineAttrib| == ATTRIB_LINE
    {
      buffer, offset, termOff := [], 0, 0;
      glyphAttrib, lineAttrib := seq(ATTRIB_GLYPH, (i: nat) => 0), seq(ATTRIB_LINE, (i: nat) => 0);
    }

    method Serialize(ofs: Out)
      modifies ofs
      ensures ofs.bytes == old(ofs.bytes) + PutSnapshot(Persisted(), [])
    {
      hide Put, PutRaw, PutGlyph;
      ghost var r2 := PutRaw(lineAttrib, []);
      ghost var r1 := PutRaw(glyphAttrib, r2);
      ghost var r0 := Put(OFFSET_MAGIC, r1);
      assert buffer[0..] == buffer;
      for i := 0 to |buffer|
        invariant ofs.bytes + PutAll(PutGlyph, buffer[i..], r0) == old(ofs.bytes) + PutAll(PutGlyph, buffer, r0)
      {
        assert buffer[i..][1..] == buffer[i + 1..];
        SerializeGlyph(buffer[i], ofs, PutAll(PutGlyph, buffer[i + 1..], r0));
      }
      ofs.Write(OFFSET_MAGIC, r1);
      ofs.WriteRaw(glyphAttrib, r2);
      ofs.WriteRaw(lineAttrib, []);
      assert ofs.bytes + [] == ofs.bytes;
    }

    /** StoreState: a file that is not complete yet. */
    method StoreState(file: File)
      modifies file
      ensures file.bytes == Header(INCOMPLETE, offset, termOff) + PutSnapshot(Persisted(), [])
    {
      hide PutSnapshot, Put;
      var ofs := new Out();
      var flag, first, second := Bytes(INCOMPLETE, 4), Bytes(offset, 8), Bytes(termOff, 8);
      ofs.WriteRaw(flag, []);
      assert ofs.bytes + [] == ofs.bytes && ofs.bytes == flag;
      ofs.WriteRaw(first, []);
      assert ofs.bytes + [] == ofs.bytes && ofs.bytes == flag + first;
      ofs.WriteRaw(second, []);
      assert ofs.bytes + [] == ofs.bytes && ofs.bytes == flag + first + second;
      Serialize(ofs);
      file.bytes := ofs.bytes;
    }

    /** AppendState: the place holder and then the flag are overwritten. */
    method AppendState(file: File)
      requires |file.bytes| >= 20
      modifies file
      ensures |file.bytes| == |old(file.bytes)| && file.bytes[20..] == old(file.bytes[20..])
      ensures file.bytes[..20] == Bytes(COMPLETE, 4) + old(file.bytes[4..12]) + Bytes(termOff, 8)
    {
      file.bytes := file.bytes[..12] + Bytes(termOff, 8) + file.bytes[20..];
      file.bytes := Bytes(COMPLETE, 4) + file.bytes[4..];
    }

    /** RecoverState: false, and nothing is touched, unless the file is complete;
        the recovered glyphs are added to the buffer. */
    method RecoverState(file: File) returns (ok: bool)
      requires Completed(file.bytes) ==> |file.bytes| >= 20 && GetSnapshot(file.bytes[20..]).Got?
      modifies this
      ensures ok <==> Completed(file.bytes)
      ensures !ok ==> unchanged(this)
      ensures ok ==>
        var d := GetSnapshot(file.bytes[20..]).value;
        && offset == Value(file.bytes[4..12]) && termOff == Value(file.bytes[12..20])
        && Persisted() == Snapshot(old(buffer) + d.buffer, d.glyphAttrib, d.lineAttrib)
    {
      hide Take, GetAll;
      var ifs := new In(file.bytes);
      if |file.bytes| < 4 {
        return false;
      }
      var fComplete := ifs.Read();
      if fComplete != COMPLETE {
        return false;
      }
      var raw := ifs.ReadRaw(8);
      offset := Value(raw);
      assert raw == file.bytes[4..12];
      raw := ifs.ReadRaw(8);
      termOff := Value(raw);
      assert raw == file.bytes[12..20];
      assert ifs.rest == file.bytes[20..];
      var glyphs := DeserializeGlyphs(ifs);
      buffer := buffer + glyphs;
      glyphAttrib := ifs.ReadRaw(ATTRIB_GLYPH);
      lineAttrib := ifs.ReadRaw(ATTRIB_LINE);
      return true;
    }
  }

  /** Store, complete, recover: an empty state ends up with every persisted field of
      the stored one, the offset given on completion included; before completion
      the recovery is refused. */
  method RoundTrip(s: State, file: File, termOff: nat) returns (early: bool, t: State, ok: bool)
    requires s.Valid() && termOff < 0x1_0000_0000_0000_0000
    modifies file, s`termOff
    ensures !early && ok && fresh(t)
    ensures t.Persisted() == s.Persisted() && t.offset == s.offset && t.termOff == termOff
  {
    hide PutSnapshot, ValidSnapshot, GetSnapshot;
    ghost var d := s.Persisted();
    ghost var body := PutSnapshot(d, []);
    t := new State();
    s.StoreState(file);
    CompletedIff(INCOMPLETE, s.offset, s.termOff, body);
    HeaderParts(INCOMPLETE, s.offset, s.termOff, body);
    early := t.RecoverState(file);
    s.termOff := termOff;
    s.AppendState(file);
    assert file.bytes == file.bytes[..20] + file.bytes[20..];
    assert file.bytes == Header(COMPLETE, s.offset, termOff) + body;
    CompletedIff(COMPLETE, s.offset, termOff, body);
    HeaderParts(COMPLETE, s.offset, termOff, body);
    SnapshotReadsBack(d, []);
    Value64(s.offset);
    Value64(termOff);
    ok := t.RecoverState(file);
    assert [] + d.buffer == d.buffer;
  }
}
