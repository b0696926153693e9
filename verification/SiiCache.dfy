/** The EEPROM cache of the master (ec_main.c, `ecx_siigetbyte`): one buffer for whichever slave was
    read last, and a bitmap of the bytes that are in it. */
module SiiCache {
  import opened EcTypes

  const EC_MAXEEPBITMAP: nat := 128
  const EC_MAXEEPBUF: nat := 4096

  /** The EEPROM of a slave, which answers a read with four or eight bytes. */
  datatype Eeprom = Eeprom(bytes: seq<byte>, eep_8byte: bool)

  ghost predicate Readable(d: Eeprom) {
    |d.bytes| >= EC_MAXEEPBUF
  }

  /** What a read without any cache gives; addresses behind the buffer give 0xff. */
  function ByteAt(bytes: seq<byte>, address: nat): byte
    requires |bytes| >= EC_MAXEEPBUF
  {
    if address < EC_MAXEEPBUF then bytes[address] else 0xff
  }

  /** First byte of the word that holds the address, and the number of bytes read from there. */
  function Base(address: nat): nat {
    address / 2 * 2
  }

  function FetchSize(d: Eeprom): nat {
    if d.eep_8byte then 8 else 4
  }

  /** Reading the address does not run over the end of the buffer. */
  predicate Fetchable(d: Eeprom, address: nat) {
    address >= EC_MAXEEPBUF || Base(address) + FetchSize(d) <= EC_MAXEEPBUF
  }

  predicate Fetched(d: Eeprom, address: nat, i: nat) {
    Base(address) <= i < Base(address) + FetchSize(d)
  }

  class Cache {
    const esibuf: array<byte>
    const esimap: array2<bool>
    var esislave: nat

    /** Nothing is cached. */
    constructor ()
      ensures Shaped() && fresh(esibuf) && fresh(esimap)
      ensures forall devices :: Agrees(devices)
    {
      esibuf := new byte[EC_MAXEEPBUF](i => 0);
      esimap := new bool[EC_MAXEEPBITMAP, 32]((w, b) => false);
      esislave := 0;
    }

    ghost predicate Shaped() {
      esibuf.Length == EC_MAXEEPBUF && esimap.Length0 == EC_MAXEEPBITMAP && esimap.Length1 == 32
    }

    /** The bitmap says that byte `i` is in the buffer. */
    predicate Cached(i: nat)
      requires Shaped() && i < EC_MAXEEPBUF
      reads esimap
    {
      esimap[i / 32, i % 32]
    }

    /** Every byte in the buffer is that of the current slave's EEPROM. */
    ghost predicate Agrees(devices: seq<Eeprom>)
      requires Shaped()
      reads this, esibuf, esimap
    {
      forall i :: 0 <= i < EC_MAXEEPBUF && Cached(i) ==>
        esislave < |devices| && i < |devices[esislave].bytes| && esibuf[i] == devices[esislave].bytes[i]
    }

    /** Forgets everything if another slave is read. */
    method SelectSlave(slave: nat)
      requires Shaped()
      modifies this`esislave, esimap
      ensures esislave == slave
      ensures forall i :: 0 <= i < EC_MAXEEPBUF ==> (Cached(i) <==> slave == old(esislave) && old(Cached(i)))
    {
      if slave != esislave {
        forall w, b | 0 <= w < EC_MAXEEPBITMAP && 0 <= b < 32 {
          esimap[w, b] := false;
        }
        esislave := slave;
      }
    }

    /** Marks `cnt` bytes from byte address `start` on, going from bit to bit and word to word. */
    method SetBits(start: nat, cnt: nat)
      requires Shaped() && start + cnt <= EC_MAXEEPBUF
      modifies esimap
      ensures forall i :: 0 <= i < EC_MAXEEPBUF ==> (Cached(i) <==> old(Cached(i)) || start <= i < start + cnt)
    {
      var mapw: nat, mapb: nat := start / 32, start % 32;
      for lp := 0 to cnt
        invariant 32 * mapw + mapb == start + lp && mapb < 32
        invariant forall i :: 0 <= i < EC_MAXEEPBUF ==> (Cached(i) <==> old(Cached(i)) || start <= i < start + lp)
      {
        SetBit(mapw, mapb, start + lp);
        mapb := mapb + 1;
        if mapb > 31 {
          mapb := 0;
          mapw := mapw + 1;
        }
      }
    }

    method SetBit(mapw: nat, mapb: nat, ghost k: nat)
      requires Shaped() && mapw < EC_MAXEEPBITMAP && mapb < 32 && k == 32 * mapw + mapb
      modifies esimap
      ensures forall i :: 0 <= i < EC_MAXEEPBUF ==> (Cached(i) <==> old(Cached(i)) || i == k)
    {
      esimap[mapw, mapb] := true;
      assert forall i :: 0 <= i < EC_MAXEEPBUF && i / 32 == mapw && i % 32 == mapb ==> i == k;
    }

    /** Reads four or eight bytes from the slave into the buffer. */
    method Fill(d: Eeprom, address: nat)
      requires Shaped() && address < EC_MAXEEPBUF && Readable(d) && Fetchable(d, address)
      modifies esibuf, esimap
      ensures forall i :: 0 <= i < EC_MAXEEPBUF ==> (Cached(i) <==> old(Cached(i)) || Fetched(d, address, i))
      ensures forall i :: 0 <= i < EC_MAXEEPBUF ==>
        esibuf[i] == if Fetched(d, address, i) then d.bytes[i] else old(esibuf[i])
    {
      var start, cnt := Base(address), FetchSize(d);
      forall i | 0 <= i < cnt {
        esibuf[start + i] := d.bytes[start + i];
      }
      SetBits(start, cnt);
    }

    /** Reads a byte of a slave's EEPROM: whatever was read before, of this slave or of others, the
        result is that of a read without cache, and the cache goes on to agree with the slave. */
    method SiiGetByte(devices: seq<Eeprom>, slave: nat, address: nat) returns (retval: byte)
      requires Shaped() && Agrees(devices) && slave < |devices|
      requires Readable(devices[slave]) && Fetchable(devices[slave], address)
      modifies this`esislave, esibuf, esimap
      ensures Agrees(devices) && esislave == slave
      ensures retval == ByteAt(devices[slave].bytes, address)
      ensures address < EC_MAXEEPBUF ==> Cached(address)
    {
      retval := 0xff;
      SelectSlave(slave);
      if address < EC_MAXEEPBUF {
        if !Cached(address) {
          Fill(devices[slave], address);
        }
        retval := esibuf[address];
      }
    }

    /** Reads the little-endian word at a byte address. */
    method SiiGetWord(devices: seq<Eeprom>, slave: nat, address: nat) returns (w: uint16)
      requires Shaped() && Agrees(devices) && slave < |devices|
      requires Readable(devices[slave]) && Fetchable(devices[slave], address) && Fetchable(devices[slave], address + 1)
      modifies this`esislave, esibuf, esimap
      ensures Agrees(devices) && esislave == slave
      ensures w == WordAt(devices[slave].bytes, address)
    {
      var lo := SiiGetByte(devices, slave, address);
      var hi := SiiGetByte(devices, slave, address + 1);
      w := ((lo as int) + 0x100 * (hi as int)) as uint16;
    }
  }

  function WordAt(bytes: seq<byte>, address: nat): uint16
    requires |bytes| >= EC_MAXEEPBUF
  {
    ByteAt(bytes, address) as int + 0x100 * (ByteAt(bytes, address + 1) as int)
  }

  ghost predicate Answerable(devices: seq<Eeprom>, slave: nat, address: nat) {
    slave < |devices| && Readable(devices[slave]) && Fetchable(devices[slave], address)
  }

  /** Any sequence of reads, of any mix of slaves, gives what reads without cache would give. */
  method ReadAll(cache: Cache, devices: seq<Eeprom>, requests: seq<(nat, nat)>) returns (results: seq<byte>)
    requires cache.Shaped() && cache.Agrees(devices)
    requires forall k :: 0 <= k < |requests| ==> Answerable(devices, requests[k].0, requests[k].1)
    modifies cache, cache.esibuf, cache.esimap
    ensures |results| == |requests|
    ensures forall k :: 0 <= k < |requests| ==> Answerable(devices, requests[k].0, requests[k].1) &&
                                                results[k] == ByteAt(devices[requests[k].0].bytes, requests[k].1)
  {
    results := [];
    for k := 0 to |requests|
      invariant cache.Agrees(devices) && |results| == k
      invariant forall j :: 0 <= j < k ==> results[j] == ByteAt(devices[requests[j].0].bytes, requests[j].1)
    {
      var b := cache.SiiGetByte(devices, requests[k].0, requests[k].1);
      results := results + [b];
    }
  }
}
