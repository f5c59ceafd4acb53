/** The input of the parser: a file, and a stack of characters pushed back. */
module DocStream {
  import opened Canonical
  import opened Wrappers

  // How the file ends.
  predicate EndOf(file: seq<Byte>, s: seq<Byte>) {
    |s| <= |file| && s == file[|file| - |s|..]
  }

  class Stream {
    const file: seq<Byte>
    var fileOff: nat
    // The top of the stack comes first.
    var chBuf: seq<Byte>

    constructor (file: seq<Byte>)
      ensures this.file == file && Valid() && Ahead() == file
    {
      this.file, fileOff, chBuf := file, 0, [];
    }

    ghost predicate Valid()
      reads this
    {
      fileOff <= |file|
    }

    // The logical stream: what was pushed back, then the rest of the file.
    ghost function Ahead(): seq<Byte>
      requires Valid()
      reads this
    {
      chBuf + file[fileOff..]
    }

    /** operator >>: None at the end of the file, where the source throws. */
    method Get() returns (r: Option<Byte>)
      requires Valid()
      modifies this
      ensures Valid()
      ensures r == if old(Ahead()) == [] then None else Some(old(Ahead())[0])
      ensures Ahead() == if old(Ahead()) == [] then [] else old(Ahead())[1..]
    {
      if chBuf != [] {
        r := Some(chBuf[0]);
        chBuf := chBuf[1..];
      } else if fileOff < |file| {
        r := Some(file[fileOff]);
        fileOff := fileOff + 1;
      } else {
        r := None;
      }
    }

    /** operator << for one character. */
    method Unget(ch: Byte)
      requires Valid()
      modifies `chBuf
      ensures Ahead() == [ch] + old(Ahead())
    {
      chBuf := [ch] + chBuf;
    }

    /** operator << for a string: its last character goes first. */
    method UngetAll(str: seq<Byte>)
      requires Valid()
      modifies `chBuf
      ensures Ahead() == str + old(Ahead())
    {
      var length := |str|;
      assert str[length..] == [];
      while length > 0
        invariant 0 <= length <= |str|
        invariant Ahead() == str[length..] + old(Ahead())
      {
        length := length - 1;
        assert str[length..] == [str[length]] + str[length + 1..];
        Unget(str[length]);
      }
    }

    // GetCurOffset.
    function CurOffset(): int
      reads this
    {
      fileOff - |chBuf|
    }

    // SetOffset, where the file has such an offset.
    method SetOffset(off: nat)
      requires off <= |file|
      modifies this
      ensures Valid() && fileOff == off && chBuf == [] && Ahead() == file[off..]
    {
      chBuf := [];
      fileOff := off;
    }

    // What lies ahead is what the file holds there.
    ghost predicate Genuine()
      requires Valid()
      reads this
    {
      EndOf(file, Ahead())
    }

    /** Setting the offset to the current one leaves the stream as it is exactly when
        the characters pushed back are those that were read last. */
    lemma OffsetRoundTrip()
      requires Valid() && CurOffset() >= 0
      ensures Ahead() == file[CurOffset()..] <==> chBuf == file[CurOffset()..fileOff]
      ensures Genuine() <==> Ahead() == file[CurOffset()..]
    {
      var off := CurOffset();
      assert |Ahead()| == |file| - off;
      assert file[off..] == file[off..fileOff] + file[fileOff..];
      if Ahead() == file[off..] {
        assert chBuf == Ahead()[..|chBuf|] && file[off..fileOff] == file[off..][..|chBuf|];
      }
    }

    /** Going back to the current offset, as the caller sees it. */
    method Resynchronize() returns (ghost same: bool)
      requires Valid() && CurOffset() >= 0
      modifies this
      ensures Valid() && Genuine() && CurOffset() == old(CurOffset())
      ensures Ahead() == old(Ahead()) <==> old(Genuine())
    {
      OffsetRoundTrip();
      same := Genuine();
      SetOffset(CurOffset());
    }
  }
}
