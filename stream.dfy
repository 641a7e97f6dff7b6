/**
 * The seekable byte stream the reader owns: an immutable content, a cursor
 * and PHP's end-of-file flag. `fgetc` fails without moving at the end and sets
 * the flag; `fseek` clears it. For a plain file, `feof` is true exactly when
 * the last read since the last seek hit the end.
 */
module Streams {
  import opened Bytes
  import opened Wrappers

  class Stream {
    const data: Bytes
    var pos: nat
    var eof: bool

    /** `fopen`: the cursor at the first byte, nothing read yet. */
    constructor (content: Bytes)
      ensures data == content && pos == 0 && !eof
    {
      data := content;
      pos := 0;
      eof := false;
    }

    /** `fgetc`: the byte at the cursor, which then advances; nothing at the end. */
    method Getc() returns (c: Option<Byte>)
      modifies this
      ensures old(pos) < |data| ==> c == Some(data[old(pos)]) && pos == old(pos) + 1 && !eof
      ensures old(pos) >= |data| ==> c == None && pos == old(pos) && eof
    {
      if pos < |data| {
        c := Some(data[pos]);
        pos := pos + 1;
        eof := false;
      } else {
        c := None;
        eof := true;
      }
    }

    /** `fseek($f, $offset)`: the cursor may be placed past the end. */
    method Seek(offset: nat)
      modifies this
      ensures pos == offset && !eof
    {
      pos := offset;
      eof := false;
    }

    /** `fseek($f, -1, SEEK_CUR)`: steps back one byte; fails without effect at the start. */
    method SeekBack()
      modifies this
      ensures old(pos) > 0 ==> pos == old(pos) - 1 && !eof
      ensures old(pos) == 0 ==> pos == old(pos) && eof == old(eof)
    {
      if pos > 0 {
        pos := pos - 1;
        eof := false;
      }
    }

    /** `feof`. */
    function Feof(): bool
      reads this
    {
      eof
    }
  }
}
