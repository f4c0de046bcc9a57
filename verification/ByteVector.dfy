/** The std::vector<uint8_t> that the encoders grow in place. */
module ByteVectors {
  import opened ByteSwap

  class ByteVector {
    var bytes: seq<byte>

    constructor ()
      ensures bytes == []
    {
      bytes := [];
    }

    method Resize(n: nat)
      requires |bytes| <= n
      modifies this
      ensures bytes == old(bytes) + seq(n - |old(bytes)|, _ => 0)
    {
      bytes := bytes + seq(n - |bytes|, _ => 0);
    }

    /** writeU32BE / writeU32LE through data() + pos. */
    method WriteWord(pos: nat, v: u32, o: ByteOrder)
      requires pos + 4 <= |bytes|
      modifies this
      ensures bytes == old(bytes)[..pos] + WordBytes(v, o) + old(bytes)[pos + 4..]
    {
      if o.BigEndian? {
        bytes := bytes[pos := v / 0x100_0000][pos + 1 := v / 0x1_0000 % 0x100];
        bytes := bytes[pos + 2 := v / 0x100 % 0x100][pos + 3 := v % 0x100];
      } else {
        bytes := bytes[pos := v % 0x100][pos + 1 := v / 0x100 % 0x100];
        bytes := bytes[pos + 2 := v / 0x1_0000 % 0x100][pos + 3 := v / 0x100_0000];
      }
    }

    method AppendWord(v: u32, o: ByteOrder)
      modifies this
      ensures bytes == old(bytes) + WordBytes(v, o)
    {
      var pos := |bytes|;
      Resize(pos + 4);
      WriteWord(pos, v, o);
    }

    method AppendDWord(v: u64, o: ByteOrder)
      modifies this
      ensures bytes == old(bytes) + DWordBytes(v, o)
    {
      var pos := |bytes|;
      Resize(pos + 8);
      if o.BigEndian? {
        WriteWord(pos, v / 0x1_0000_0000, o);
        WriteWord(pos + 4, v % 0x1_0000_0000, o);
      } else {
        WriteWord(pos, v % 0x1_0000_0000, o);
        WriteWord(pos + 4, v / 0x1_0000_0000, o);
      }
    }

    /** out.insert(out.end(), ...) */
    method Append(s: seq<byte>)
      modifies this
      ensures bytes == old(bytes) + s
    {
      bytes := bytes + s;
    }
  }
}
