/** Reading slave EEPROMs byte by byte through a cache (ecx_siigetbyte). */
module SiiCache {
  import opened Memory

  const EC_MAXEEPBITMAP := 128
  const EC_MAXEEPBUF := 4096
  const WORD_BITS := 32

  /** A word of the bitmap, as its bits. */
  type bitmap = s: seq<bool> | |s| == WORD_BITS witness seq(WORD_BITS, i => false)

  /** The cache of the master, for the EEPROM of one slave at a time. `rom` and `eep8` stand for the
      slaves: their EEPROMs, and whether they answer with 8 bytes instead of 4. */
  class Cache {
    const rom: (nat, nat) -> byte
    const eep8: nat -> bool
    const esibuf: array<byte>
    const esimap: array<bitmap>
    var esislave: nat

    constructor (rom: (nat, nat) -> byte, eep8: nat -> bool)
      ensures Valid() && fresh(esibuf) && fresh(esimap)
      ensures this.rom == rom && this.eep8 == eep8
    {
      this.rom, this.eep8 := rom, eep8;
      esibuf := new byte[EC_MAXEEPBUF](_ => 0);
      esimap := new bitmap[EC_MAXEEPBITMAP](_ => seq(WORD_BITS, i => false));
      esislave := 0;
    }

    /** A byte of the cache is marked. */
    predicate Marked(address: nat)
      requires esimap.Length == EC_MAXEEPBITMAP && address < EC_MAXEEPBUF
      reads this, esimap
    {
      esimap[address / WORD_BITS][address % WORD_BITS]
    }

    /** Every marked byte is that of the EEPROM of the current slave. */
    ghost predicate Valid()
      reads this, esimap, esibuf
    {
      && esibuf.Length == EC_MAXEEPBUF && esimap.Length == EC_MAXEEPBITMAP
      && forall a {:trigger esibuf[a]} {:trigger Marked(a)} :: 0 <= a < EC_MAXEEPBUF && Marked(a) ==>
           esibuf[a] == rom(esislave, a)
    }

    /** What reading the EEPROM directly yields, 0xff beyond what the cache covers. */
    function Direct(slave: nat, address: nat): byte {
      if address < EC_MAXEEPBUF then rom(slave, address) else 0xff
    }

    function Count(slave: nat): nat { if eep8(slave) then 8 else 4 }

    /** The answer of the slave fits the cache. */
    predicate Readable(slave: nat, address: nat) {
      address >= EC_MAXEEPBUF || address / 2 * 2 + Count(slave) <= EC_MAXEEPBUF
    }

    /** One byte, from the cache if it is there, else by asking the slave for the bytes around it. */
    method GetByte(slave: nat, address: nat) returns (retval: byte)
      requires Valid() && (Readable(slave, address) || (slave == esislave && Marked(address)))
      modifies this, esimap, esibuf
      ensures Valid() && esislave == slave
      ensures retval == Direct(slave, address)
      ensures address < EC_MAXEEPBUF ==> Marked(address)
      ensures forall a :: 0 <= a < EC_MAXEEPBUF && slave == old(esislave) && old(Marked(a)) ==> Marked(a)
    {
      retval := 0xff;
      if slave != esislave {
        Clear(slave);
      }
      if address < EC_MAXEEPBUF {
        if !Marked(address) {
          Fetch(slave, address / 2);
        }
        retval := esibuf[address];
      }
    }

    /** Forgets everything, for another slave. */
    method Clear(slave: nat)
      requires Valid()
      modifies this, esimap
      ensures Valid() && esislave == slave
    {
      var i := 0;
      while i < EC_MAXEEPBITMAP
        modifies esimap
        invariant 0 <= i <= EC_MAXEEPBITMAP
        invariant forall w :: 0 <= w < i ==> forall b :: 0 <= b < WORD_BITS ==> !esimap[w][b]
      {
        esimap[i] := seq(WORD_BITS, i => false);
        i := i + 1;
      }
      esislave := slave;
    }

    method SetBit(mapw: nat, mapb: nat)
      requires esimap.Length == EC_MAXEEPBITMAP && mapw < EC_MAXEEPBITMAP && mapb < WORD_BITS
      modifies esimap
      ensures forall a :: 0 <= a < EC_MAXEEPBUF ==> (Marked(a) <==> old(Marked(a)) || a == 32 * mapw + mapb)
    {
      esimap[mapw] := esimap[mapw][mapb := true];
    }

    /** Takes the slave's answer for one word address into the cache and marks its bytes. */
    method Fetch(slave: nat, eadr: nat)
      requires Valid() && slave == esislave && 2 * eadr + Count(slave) <= EC_MAXEEPBUF
      modifies esimap, esibuf
      ensures Valid()
      ensures forall a :: 0 <= a < EC_MAXEEPBUF ==>
                (Marked(a) <==> old(Marked(a)) || 2 * eadr <= a < 2 * eadr + Count(slave))
    {
      var cnt := Count(slave);
      var edat := seq<byte>(cnt, i requires 0 <= i < cnt => rom(slave, 2 * eadr + i));
      CopyIn(esibuf, 2 * eadr, edat);
      var mapw: nat, mapb: nat := eadr / 16, 2 * eadr - eadr / 16 * 32;
      var lp := 0;
      hide Marked;
      while lp < cnt
        modifies esimap
        invariant 0 <= lp <= cnt
        invariant mapb < WORD_BITS && 32 * mapw + mapb == 2 * eadr + lp
        invariant forall a :: 0 <= a < EC_MAXEEPBUF ==> (Marked(a) <==> old(Marked(a)) || 2 * eadr <= a < 2 * eadr + lp)
      {
        SetBit(mapw, mapb);
        mapb := mapb + 1;
        if mapb > 31 {
          mapb := 0;
          mapw := mapw + 1;
        }
        lp := lp + 1;
      }
    }
  }
}
