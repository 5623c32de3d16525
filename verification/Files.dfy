/** Files as the kernel sees them (rekernel/file.d), through fread, fwrite and fseek: bytes with a read position, and
    a stream written to, which accepts so many bytes and then fails. */
module Files {
  import opened Base

  type Byte = x: int | 0 <= x < 256

  class VFile {
    const data: seq<Byte>
    var pos: nat
    var written: seq<Byte>
    var room: nat

    constructor (data: seq<Byte>, room: nat)
      ensures this.data == data && pos == 0 && written == [] && this.room == room
    {
      this.data, pos, written, this.room := data, 0, [], room;
    }

    /** The bytes from the position up to the end of the file. */
    ghost function Left(): (n: nat)
      reads this
      ensures n > 0 ==> pos + n == |data|
      ensures n == 0 ==> pos >= |data|
    {
      if pos < |data| then |data| - pos else 0
    }

    /** Reads n bytes, or what is left of the file, into buf at index at. */
    method Read(buf: array<Byte>, at: nat, n: nat) returns (k: nat)
      requires at + n <= buf.Length
      modifies this`pos, buf
      ensures k == Min(n, old(Left()))
      ensures pos == old(pos) + k
      ensures k > 0 ==> pos <= |data|
      ensures forall i :: 0 <= i < buf.Length ==>
                buf[i] == if at <= i < at + k then data[old(pos) + (i - at)] else old(buf[i])
    {
      var left := if pos < |data| then |data| - pos else 0;
      k := Min(n, left);
      forall i | 0 <= i < k {
        buf[at + i] := data[pos + i];
      }
      pos := pos + k;
    }

    /** Writes n bytes of buf from index at on, or as many as the stream accepts, to its end. */
    method Write(buf: array<Byte>, at: nat, n: nat) returns (k: nat)
      requires at + n <= buf.Length
      modifies this`written, this`room
      ensures k == Min(n, old(room)) && room == old(room) - k && written == old(written) + buf[at..at + k]
    {
      k := Min(n, room);
      written := written + buf[at..at + k];
      room := room - k;
    }

    /** lseek with SEEK_CUR and offset 0 */
    method Tell() returns (r: nat)
      ensures r == pos
    {
      r := pos;
    }

    /** lseek with SEEK_SET: a negative offset is refused and leaves the position alone. */
    method SeekSet(off: int) returns (r: int)
      modifies this`pos
      ensures if off < 0 then r < 0 && pos == old(pos) else r == off && pos == off
    {
      if off < 0 {
        return -1;
      }
      pos := off;
      r := off;
    }
  }

  /** What a file-backed mapping must hold: the file from an offset on, up to length or end of file, then zeros. */
  function Image(data: seq<Byte>, from: nat, length: nat, j: nat): Byte {
    if j < length && from + j < |data| then data[from + j] else 0
  }

  method Memcpy(dst: array<Byte>, at: nat, src: array<Byte>, n: nat)
    requires dst != src && at + n <= dst.Length && n <= src.Length
    modifies dst
    ensures forall p :: 0 <= p < dst.Length ==> dst[p] == if at <= p < at + n then src[p - at] else old(dst[p])
  {
    forall j | 0 <= j < n {
      dst[at + j] := src[j];
    }
  }

  /** The copy loop of map_vma_no_overlap: page-sized reads, each copied to its place. */
  method CopyLoop(file: VFile, ram: array<Byte>, ka: nat, size: nat, length: nat)
    requires length <= size && ka + size <= ram.Length
    requires forall p :: ka <= p < ka + size ==> ram[p] == 0
    modifies file`pos, ram
    ensures forall p :: 0 <= p < ram.Length ==>
              ram[p] == if ka <= p < ka + size then Image(file.data, old(file.pos), length, p - ka) else old(ram[p])
  {
    ghost var from := file.pos;
    var buf := new Byte[PAGESIZE](_ => 0);
    var total, remaining := 0, length;
    var n := file.Read(buf, 0, Min(PAGESIZE, remaining));
    while n > 0
      invariant 0 <= total <= length && 0 <= n <= remaining && total + remaining == length && n <= PAGESIZE
      invariant file.pos == from + total + n && (n > 0 ==> file.pos <= |file.data|)
      invariant forall j :: 0 <= j < n ==> buf[j] == file.data[from + total + j]
      invariant n == 0 ==> remaining == 0 || from + total >= |file.data|
      invariant total > 0 ==> from + total <= |file.data|
      invariant forall p :: 0 <= p < ram.Length ==>
                  ram[p] == if ka <= p < ka + total then file.data[from + (p - ka)]
                            else if ka <= p < ka + size then 0 else old(ram[p])
      decreases remaining
    {
      Memcpy(ram, ka + total, buf, n);
      total := total + n;
      remaining := remaining - n;
      n := file.Read(buf, 0, Min(PAGESIZE, remaining));
    }
    forall p | ka <= p < ka + size
      ensures ram[p] == Image(file.data, from, length, p - ka)
    {
      if p - ka < total {
        assert ram[p] == file.data[from + (p - ka)];
      } else {
        assert ram[p] == 0;
        assert p - ka >= length || from + (p - ka) >= |file.data|;
      }
    }
  }

  /** The file part of map_vma_no_overlap: ram[ka..ka + size], which holds zeros, gets the file from offset on, and
      the position of the file is put back.  A refused seek leaves the reads at the current position. */
  method CopyFile(file: VFile, ram: array<Byte>, ka: nat, size: nat, length: nat, offset: int)
    requires length <= size && ka + size <= ram.Length
    requires forall p :: ka <= p < ka + size ==> ram[p] == 0
    modifies file`pos, ram
    ensures file.pos == old(file.pos)
    ensures var from := if offset < 0 then old(file.pos) else offset;
            forall p :: 0 <= p < ram.Length ==>
              ram[p] == if ka <= p < ka + size then Image(file.data, from, length, p - ka) else old(ram[p])
  {
    var orig := file.Tell();
    var _ := file.SeekSet(offset);
    CopyLoop(file, ram, ka, size, length);
    var _ := file.SeekSet(orig);
  }
}
