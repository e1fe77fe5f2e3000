/**
 * The two ends of the codec's I/O, as the crate's own tests and examples use
 * them: a byte slice read through Rust's `impl Read for &[u8]`, and a
 * `Vec<u8>` written through `impl Write for Vec<u8>`. Neither reports an
 * error, is interrupted or returns less than it can.
 */
module Io {
  import opened Bits

  /** The `io::ErrorKind`s the codec reports. */
  datatype ErrorKind = UnexpectedEof | InvalidData | InvalidInput

  function Min(a: int, b: int): int {
    if a < b then a else b
  }

  /** A `&[u8]` used as a reader: the bytes not read yet. */
  class SliceReader {
    var rest: seq<byte>

    constructor (data: seq<byte>)
      ensures rest == data
    {
      rest := data;
    }

    /**
     * `read(&mut buf[from..to])`: copies as many bytes as both the window
     * and the slice hold to the front of the window, and advances past them.
     */
    method Read(buf: array<byte>, from: nat, to: nat) returns (n: nat)
      requires from <= to <= buf.Length
      modifies this, buf
      ensures n == Min(to - from, |old(rest)|)
      ensures rest == old(rest)[n..]
      ensures buf[..from] == old(buf[..from])
      ensures buf[from..from + n] == old(rest)[..n]
      ensures buf[from + n..] == old(buf[from + n..])
    {
      n := Min(to - from, |rest|);
      forall i | 0 <= i < n {
        buf[from + i] := rest[i];
      }
      assert buf[from..from + n] == rest[..n];
      rest := rest[n..];
    }
  }

  /** A `Vec<u8>` used as a writer: the bytes written so far. */
  class VecWriter {
    var bytes: seq<byte>

    constructor ()
      ensures bytes == []
    {
      bytes := [];
    }

    /** `write_all`: appends every byte of `s`. */
    method WriteAll(s: seq<byte>)
      modifies this
      ensures bytes == old(bytes) + s
    {
      bytes := bytes + s;
    }
  }
}
