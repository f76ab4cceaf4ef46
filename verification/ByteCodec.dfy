/** Little-endian storage of integers, as `ptr::write_unaligned` and `ptr::read_unaligned` do on the host. */
module ByteCodec {
  import opened BatchResults

  function Pow256(n: nat): (p: nat)
    ensures p >= 1
  {
    if n == 0 then 1 else 256 * Pow256(n - 1)
  }

  function LittleEndian(v: nat, width: nat): (bytes: seq<Byte>)
    ensures |bytes| == width
  {
    if width == 0 then [] else [v % 256] + LittleEndian(v / 256, width - 1)
  }

  function FromLittleEndian(bytes: seq<Byte>): (u: nat)
    ensures u < Pow256(|bytes|)
  {
    if bytes == [] then 0 else bytes[0] + 256 * FromLittleEndian(bytes[1..])
  }

  /** Two's complement: the unsigned image of a signed value, and back. */
  function ToUnsigned(v: int, width: nat): int {
    if v < 0 then v + Pow256(width) else v
  }

  function ToSigned(u: nat, width: nat): int {
    if 2 * u >= Pow256(width) then u - Pow256(width) else u
  }

  lemma {:induction false} UnsignedRoundTrip(v: nat, width: nat)
    requires v < Pow256(width)
    ensures FromLittleEndian(LittleEndian(v, width)) == v
  {
    if width > 0 {
      var bytes := LittleEndian(v, width);
      assert bytes[1..] == LittleEndian(v / 256, width - 1);
      UnsignedRoundTrip(v / 256, width - 1);
    }
  }

  lemma LowByte(low: Byte, rest: nat)
    ensures (low + 256 * rest) % 256 == low && (low + 256 * rest) / 256 == rest
  {
  }

  lemma {:induction false} BytesRoundTrip(bytes: seq<Byte>)
    ensures LittleEndian(FromLittleEndian(bytes), |bytes|) == bytes
  {
    if bytes != [] {
      var rest := FromLittleEndian(bytes[1..]);
      BytesRoundTrip(bytes[1..]);
      LowByte(bytes[0], rest);
      assert LittleEndian(bytes[0] + 256 * rest, |bytes|) == [bytes[0]] + LittleEndian(rest, |bytes| - 1);
    }
  }

  /** A signed value in range of its width survives being stored and loaded. */
  lemma SignedRoundTrip(v: int, width: nat)
    requires width > 0 && 0 <= 2 * v + Pow256(width) < 2 * Pow256(width)
    ensures 0 <= ToUnsigned(v, width) < Pow256(width)
    ensures ToSigned(FromLittleEndian(LittleEndian(ToUnsigned(v, width), width)), width) == v
  {
    UnsignedRoundTrip(ToUnsigned(v, width), width);
  }

  lemma PowersOf256()
    ensures Pow256(1) == 0x100 && Pow256(2) == 0x1_0000 && Pow256(4) == 0x1_0000_0000
    ensures Pow256(8) == 0x1_0000_0000_0000_0000
  {
    assert Pow256(3) == 0x100_0000 && Pow256(5) == 0x100_0000_0000;
    assert Pow256(6) == 0x1_0000_0000_0000 && Pow256(7) == 0x100_0000_0000_0000;
  }

  function Zeros(n: nat): (z: seq<Byte>)
    ensures |z| == n && forall k :: 0 <= k < n ==> z[k] == 0
  {
    seq(n, (k: nat) => 0)
  }

  /** `bytes` written over `s` at position `pos`. */
  function Splice(s: seq<Byte>, pos: nat, bytes: seq<Byte>): (t: seq<Byte>)
    requires pos + |bytes| <= |s|
    ensures |t| == |s|
    ensures forall k :: 0 <= k < |s| ==> t[k] == if pos <= k < pos + |bytes| then bytes[k - pos] else s[k]
  {
    s[..pos] + bytes + s[pos + |bytes|..]
  }

  /** One store of `bytes` at `pos`. */
  method WriteUnaligned(buf: array<Byte>, pos: nat, bytes: seq<Byte>)
    requires pos + |bytes| <= buf.Length
    modifies buf
    ensures buf[..] == Splice(old(buf[..]), pos, bytes)
  {
    forall k | 0 <= k < |bytes| {
      buf[pos + k] := bytes[k];
    }
  }

  // ---- Rows of equal size ---------------------------------------------------------------

  function Join(rows: seq<seq<Byte>>): seq<Byte> {
    if rows == [] then [] else Join(rows[..|rows| - 1]) + rows[|rows| - 1]
  }

  lemma Distribute(a: nat, b: nat, c: nat)
    ensures (a + b) * c == a * c + b * c && a * c >= 0 && b * c >= 0
  {
  }

  lemma {:induction false} RowBounds(i: nat, n: nat, stride: nat)
    requires i < n
    ensures 0 <= i * stride <= i * stride + stride == (i + 1) * stride <= n * stride
  {
    Distribute(i, 1, stride);
    Distribute(i + 1, n - i - 1, stride);
  }

  lemma SliceOfFront(front: seq<Byte>, back: seq<Byte>, lo: nat, hi: nat)
    requires lo <= hi <= |front|
    ensures (front + back)[lo..hi] == front[lo..hi]
  {
  }

  /** Row `i` of joined rows of `stride` bytes lies at `[i * stride, (i + 1) * stride)`. */
  lemma {:induction false} JoinRow(rows: seq<seq<Byte>>, stride: nat, i: nat)
    requires forall k :: 0 <= k < |rows| ==> |rows[k]| == stride
    requires i < |rows|
    ensures |Join(rows)| == |rows| * stride
    ensures 0 <= i * stride <= i * stride + stride <= |rows| * stride
    ensures Join(rows)[i * stride..i * stride + stride] == rows[i]
  {
    var n, start := |rows| - 1, i * stride;
    var front := Join(rows[..n]);
    JoinLength(rows, stride);
    RowBounds(i, |rows|, stride);
    if i < n {
      JoinRow(rows[..n], stride, i);
      SliceOfFront(front, rows[n], start, start + stride);
    } else {
      JoinLength(rows[..n], stride);
      assert |front| == start;
    }
  }

  lemma {:induction false} JoinLength(rows: seq<seq<Byte>>, stride: nat)
    requires forall k :: 0 <= k < |rows| ==> |rows[k]| == stride
    ensures |Join(rows)| == |rows| * stride
  {
    if rows != [] {
      var n := |rows| - 1;
      JoinLength(rows[..n], stride);
      RowBounds(n, n + 1, stride);
    }
  }
}
