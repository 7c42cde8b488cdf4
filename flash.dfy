/** The decoder's flash reads (`flash::read_bytes`): the flash is a byte
    image indexed by address, read through the controller sixteen bytes at
    a time. A read of a 16-byte line that lies outside the image fails. */
module Flash {
  import opened Bytes

  /** The controller's 128-bit read at addr succeeds when the whole line
      lies inside the image. */
  predicate Readable(mem: seq<byte>, addr: nat)
  {
    addr + 16 <= |mem|
  }

  /** `read_bytes(flash, frm, dst, len)`, as the new contents of dst: a
      destination shorter than len is left as it is (LowSpace); otherwise
      the len / 16 whole lines from frm are copied over the front of dst,
      stopping at the first line that cannot be read (ReadFailed). The
      remainder len % 16 is never copied. */
  function ReadBytes(mem: seq<byte>, frm: nat, dst: seq<byte>, len: nat): (r: seq<byte>)
    ensures |r| == |dst|
    ensures |dst| < len ==> r == dst
  {
    if |dst| < len then dst else CopyLines(mem, frm, dst, 0, len / 16)
  }

  /** Lines i .. n-1 of the copy loop. */
  function CopyLines(mem: seq<byte>, frm: nat, dst: seq<byte>, i: nat, n: nat): (r: seq<byte>)
    requires 16 * n <= |dst|
    ensures |r| == |dst|
    decreases n - i
  {
    if i >= n || !Readable(mem, frm + 16 * i) then dst
    else CopyLines(mem, frm, dst[..16 * i] + mem[frm + 16 * i .. frm + 16 * i + 16] + dst[16 * i + 16..], i + 1, n)
  }

  /** When every line is readable, the first 16 * (len / 16) bytes of dst
      become the flash bytes from frm and the rest of dst is kept. */
  lemma {:induction false} ReadBytesReadable(mem: seq<byte>, frm: nat, dst: seq<byte>, len: nat)
    requires len <= |dst| && frm + 16 * (len / 16) <= |mem|
    ensures ReadBytes(mem, frm, dst, len)
      == mem[frm .. frm + 16 * (len / 16)] + dst[16 * (len / 16)..]
  {
    CopyLinesReadable(mem, frm, dst, 0, len / 16);
  }

  lemma {:induction false} CopyLinesReadable(mem: seq<byte>, frm: nat, dst: seq<byte>, i: nat, n: nat)
    requires i <= n && 16 * n <= |dst| && frm + 16 * n <= |mem|
    ensures CopyLines(mem, frm, dst, i, n)
      == dst[..16 * i] + mem[frm + 16 * i .. frm + 16 * n] + dst[16 * n..]
    decreases n - i
  {
    if i < n {
      var line := mem[frm + 16 * i .. frm + 16 * i + 16];
      var next := dst[..16 * i] + line + dst[16 * i + 16..];
      CopyLinesReadable(mem, frm, next, i + 1, n);
      assert next[..16 * (i + 1)] == dst[..16 * i] + line;
      assert next[16 * n..] == dst[16 * n..];
      assert mem[frm + 16 * i .. frm + 16 * n] == line + mem[frm + 16 * (i + 1) .. frm + 16 * n];
    }
  }

  /** A read that starts past the end of the image copies nothing. */
  lemma {:induction false} ReadBytesUnreadable(mem: seq<byte>, frm: nat, dst: seq<byte>, len: nat)
    requires frm >= |mem|
    ensures ReadBytes(mem, frm, dst, len) == dst
  {
  }
}
