/** The decoder's bit buffer over the input stream: the fields m_bit_buf, m_bits_left,
    m_in_buf_left and m_tem_flag of jpeg_decoder and the members that change them. */
module BitReaders {
  import opened Arith
  import opened BitStream

  const IN_BUF_SIZE := 8192

  class BitReader {
    var unread: seq<byte>    // input not consumed yet, bytes pushed back included
    var inBufLeft: nat       // how many of them are in the input buffer
    var padFlag: nat         // which padding byte comes next, FF if 0 and D9 if 1
    var bitBuf: nat          // 32 bits
    var bitsLeft: int        // valid bits in bitBuf, minus 16

    ghost var octets: nat -> byte   // the whole stream this reader delivers, as octets
    ghost var source: Source        // the input it began with
    ghost var fetched: nat          // how many octets have been put into bitBuf

    /** The position in the stream of the next bit to deliver. */
    ghost function Position(): int
      reads this
    {
      8 * fetched - 16 - bitsLeft
    }

    ghost predicate InputOk()
      reads this
    {
      inBufLeft <= |unread| && padFlag <= 1 && bitBuf < 0x1_0000_0000
    }

    /** bitBuf holds the next 16 + bitsLeft bits at its top, and zeros below. */
    ghost predicate Buffered()
      reads this
    {
      && InputOk()
      && 0 <= bitsLeft <= 16
      && 0 <= Position()
      && bitBuf == Buffer(octets, Position(), 16 + bitsLeft)
    }

    /** The input that has not been put into bitBuf. */
    ghost function Rest(): Source
      reads this
    {
      Source(unread, padFlag)
    }

    /** What follows in the input is read as an entropy segment, without its stuffing. */
    ghost predicate FedOctets()
      reads this
    {
      Buffered() && Entropy(octets, fetched, unread, padFlag) && fetched % 2 == 0
    }

    /** All octets so far have come from the source. */
    ghost predicate InEntropySegment()
      reads this
    {
      FedOctets() && octets == EntropyStream(source.bytes, source.flag) && Rest() == AfterOctets(source, fetched)
    }

    /** What follows in the input is read byte by byte, as marker segments are. */
    ghost predicate FedBytes()
      reads this
    {
      Buffered() && Raw(octets, fetched, unread, padFlag) && fetched % 2 == 0
    }

    /** All bytes so far have come from the source. */
    ghost predicate InMarkers()
      reads this
    {
      FedBytes() && octets == RawStream(source.bytes, source.flag) && Rest() == AfterBytes(source, fetched)
    }

    lemma PositionIsNat()
      requires InEntropySegment()
      ensures 0 <= Position()
    {
    }

    constructor (input: seq<byte>)
      ensures InputOk() && unread == input && padFlag == 0
    {
      unread, inBufLeft, padFlag := input, 0, 0;
      bitBuf, bitsLeft := 0, 16;
      octets, source, fetched := _ => 0, Source(input, 0), 0;
    }

    /** The next byte of the input, or a padding byte. */
    method GetChar() returns (c: byte, padding: bool)
      requires InputOk()
      modifies this`unread, this`inBufLeft, this`padFlag
      ensures InputOk()
      ensures padding == (old(unread) == [])
      ensures !padding ==> c == old(unread)[0] && unread == old(unread)[1..] && padFlag == old(padFlag)
      ensures padding ==> c == Pad(old(padFlag), 0) && unread == [] && padFlag == 1 - old(padFlag)
      ensures Rest() == AfterByte(old(Rest()))
    {
      if inBufLeft == 0 {
        inBufLeft := if |unread| < IN_BUF_SIZE then |unread| else IN_BUF_SIZE;
        if inBufLeft == 0 {
          var t := padFlag;
          padFlag := 1 - padFlag;
          return if t == 1 then 0xD9 else 0xFF, true;
        }
      }
      c := unread[0];
      unread := unread[1..];
      inBufLeft := inBufLeft - 1;
      padding := false;
    }

    /** Puts a byte back in front of the input. */
    method StuffChar(q: byte)
      requires InputOk()
      modifies this`unread, this`inBufLeft
      ensures InputOk() && unread == [q] + old(unread)
    {
      unread := [q] + unread;
      inBufLeft := inBufLeft + 1;
    }

    /** The next octet of the entropy segment; never reads past a marker. */
    method GetOctet() returns (c: byte)
      requires InputOk()
      modifies this`unread, this`inBufLeft, this`padFlag
      ensures InputOk()
      ensures c == Octet(old(unread), old(padFlag), 0)
      ensures forall i: nat :: Octet(unread, padFlag, i) == Octet(old(unread), old(padFlag), i + 1)
      ensures Rest() == AfterOctet(old(Rest()))
    {
      ghost var was, flag := unread, padFlag;
      var padding;
      c, padding := GetChar();
      if c == 0xFF {
        if padding {
          return 0xFF;
        }
        c, padding := GetChar();
        if padding {
          StuffChar(0xFF);
          return 0xFF;
        }
        if c == 0 {
          forall i: nat {
            OctetStuffed(was, flag, i);
          }
          assert unread == was[2..];
          return 0xFF;
        } else {
          StuffChar(c);
          StuffChar(0xFF);
          assert unread == was;
          return 0xFF;
        }
      }
      if !padding {
        forall i: nat {
          OctetPlain(was, flag, i);
        }
      }
    }

    /** Puts the next two octets below the sixteen valid bits of bitBuf. */
    method FetchTwo(ghost pos: nat)
      requires InputOk() && pos + 16 == 8 * fetched
      requires Entropy(octets, fetched, unread, padFlag)
      requires bitBuf == Buffer(octets, pos, 16)
      modifies this
      ensures InputOk() && octets == old(octets) && source == old(source) && bitsLeft == old(bitsLeft)
      ensures fetched == old(fetched) + 2 && Rest() == AfterOctet(AfterOctet(old(Rest())))
      ensures Entropy(octets, fetched, unread, padFlag)
      ensures bitBuf == Buffer(octets, pos, 32)
    {
      hide Window, Pow2, Buffer, Octet, Entropy, Word;
      ghost var u, flag := unread, padFlag;
      BufferRefill(octets, pos, fetched);
      if inBufLeft < 2 || unread[0] == 0xFF || unread[1] == 0xFF {
        var c1 := GetOctet();
        EntropyStep(octets, fetched, u, flag, unread, padFlag);
        u, flag := unread, padFlag;
        var c2 := GetOctet();
        EntropyStep(octets, fetched + 1, u, flag, unread, padFlag);
        bitBuf := bitBuf + Word(c1, c2);
      } else {
        PlainOctet(octets, fetched, u, flag);
        PlainOctet(octets, fetched + 1, u[1..], flag);
        assert u[1..][1..] == u[2..];
        bitBuf := bitBuf + Word(unread[0], unread[1]);
        inBufLeft := inBufLeft - 2;
        unread := unread[2..];
      }
      BufferIs32Bits(octets, pos, 32);
      fetched := fetched + 2;
    }

    /** Refills the buffer, whose sixteen valid bits may be past their end already. */
    method RefillNoMarkers(ghost pos: nat)
      requires InputOk() && pos + 16 == 8 * fetched && -16 <= bitsLeft <= 0
      requires Entropy(octets, fetched, unread, padFlag)
      requires bitBuf == Buffer(octets, pos, 16)
      modifies this
      ensures InputOk() && octets == old(octets) && source == old(source) && bitsLeft == old(bitsLeft) + 16
      ensures fetched == old(fetched) + 2 && Rest() == AfterOctet(AfterOctet(old(Rest())))
      ensures Entropy(octets, fetched, unread, padFlag)
      ensures bitBuf == Buffer(octets, pos + -old(bitsLeft), 16 + bitsLeft)
    {
      hide Window, Pow2, Buffer, Entropy, AfterOctet;
      FetchTwo(pos);
      BufferShift(octets, pos, 32, -bitsLeft);
      BufferIs32Bits(octets, pos + -bitsLeft, 32 + bitsLeft);
      bitBuf := ShiftLeft(bitBuf, -bitsLeft);
      bitsLeft := bitsLeft + 16;
    }

    /** The next n bits of the stream, and the next two octets into the buffer if they are needed. */
    method TakeBits(n: nat) returns (r: nat)
      requires FedOctets() && n <= 16 + bitsLeft
      modifies this
      ensures FedOctets() && octets == old(octets) && source == old(source)
      ensures Rest() == if fetched == old(fetched) then old(Rest()) else AfterOctet(AfterOctet(old(Rest())))
      ensures fetched == old(fetched) + if n == 0 || n < old(bitsLeft) then 0 else 2
      ensures Position() == old(Position()) + n
      ensures r == Window(octets, old(Position()), n)
    {
      hide Window, Pow2, Buffer, Octet, EntropyStream, AfterOctet, AfterOctets, Entropy, ShiftLeft;
      if n == 0 {
        WindowNone(octets, Position());
        return 0;
      }
      ghost var pos, v := Position(), 16 + bitsLeft;
      BufferTop(octets, pos, v, n);
      r := bitBuf / Pow2(32 - n);
      bitsLeft := bitsLeft - n;
      if bitsLeft <= 0 {
        var m := n + bitsLeft;
        BufferShift(octets, pos, v, m);
        bitBuf := ShiftLeft(bitBuf, m);
        RefillNoMarkers(pos + m);
      } else {
        BufferShift(octets, pos, v, n);
        bitBuf := ShiftLeft(bitBuf, n);
      }
    }

    /** Delivers the next n bits. In an entropy segment they are the bits of the un-stuffed
        segment, and ones for ever after it if a marker ends it. */
    method GetBitsNoMarkers(n: nat) returns (r: nat)
      requires InEntropySegment() && n <= 16 + bitsLeft
      modifies this
      ensures InEntropySegment() && octets == old(octets) && source == old(source)
      ensures Position() == old(Position()) + n
      ensures r == Window(octets, old(Position()), n)
    {
      hide Window, Pow2, Buffer, Entropy, AfterOctet, AfterOctets;
      TwoOctets(source, fetched);
      r := TakeBits(n);
    }

    /** Starts the bit buffer at the current byte of the input, for entropy-coded data. */
    method PrimeNoMarkers()
      requires InputOk()
      modifies this
      ensures InEntropySegment() && Position() == 0
      ensures octets == EntropyStream(old(unread), old(padFlag)) && source == old(Rest()) && fetched == 4
    {
      hide Window, Pow2, Buffer, Octet, Entropy, Primed, AfterOctet;
      ghost var buf, rest, start := bitBuf, EntropyStream(unread, padFlag), Rest();
      octets, fetched := Primed(buf, rest), 4;
      bitsLeft := 16;
      PrimedBuffer(buf, rest);
      PrimedFollows(buf, unread, padFlag);
      var _ := TakeBits(16);
      var _ := TakeBits(16);
      DropPrimer(buf, rest, fetched, Position() - 32, 16 + bitsLeft, unread, padFlag);
      FourOctets(start);
      octets, source, fetched := rest, start, fetched - 4;
    }

    /** Puts the next two bytes of the input below the sixteen valid bits of bitBuf. */
    method FetchTwoRaw(ghost pos: nat)
      requires InputOk() && pos + 16 == 8 * fetched
      requires Raw(octets, fetched, unread, padFlag)
      requires bitBuf == Buffer(octets, pos, 16)
      modifies this
      ensures InputOk() && octets == old(octets) && source == old(source) && bitsLeft == old(bitsLeft)
      ensures fetched == old(fetched) + 2 && Rest() == AfterByte(AfterByte(old(Rest())))
      ensures Raw(octets, fetched, unread, padFlag)
      ensures bitBuf == Buffer(octets, pos, 32)
    {
      hide Window, Pow2, Buffer, Raw, Word;
      ghost var u, flag := unread, padFlag;
      BufferRefill(octets, pos, fetched);
      RawStep(octets, fetched, u, flag);
      var c1, _ := GetChar();
      RawStep(octets, fetched + 1, unread, padFlag);
      var c2, _ := GetChar();
      bitBuf := bitBuf - bitBuf % 0x1_0000 + Word(c1, c2);
      BufferIs32Bits(octets, pos, 32);
      fetched := fetched + 2;
    }

    /** Refills the buffer, whose sixteen valid bits may be past their end already. */
    method RefillRaw(ghost pos: nat)
      requires InputOk() && pos + 16 == 8 * fetched && -16 <= bitsLeft <= 0
      requires Raw(octets, fetched, unread, padFlag)
      requires bitBuf == Buffer(octets, pos, 16)
      modifies this
      ensures InputOk() && octets == old(octets) && source == old(source) && bitsLeft == old(bitsLeft) + 16
      ensures fetched == old(fetched) + 2 && Rest() == AfterByte(AfterByte(old(Rest())))
      ensures Raw(octets, fetched, unread, padFlag)
      ensures bitBuf == Buffer(octets, pos + -old(bitsLeft), 16 + bitsLeft)
    {
      hide Window, Pow2, Buffer, Raw, AfterByte;
      FetchTwoRaw(pos);
      BufferShift(octets, pos, 32, -bitsLeft);
      BufferIs32Bits(octets, pos + -bitsLeft, 32 + bitsLeft);
      bitBuf := ShiftLeft(bitBuf, -bitsLeft);
      bitsLeft := bitsLeft + 16;
    }

    /** The next n bits of the stream, and the next two octets into the buffer if they are needed. */
    method TakeRawBits(n: nat) returns (r: nat)
      requires FedBytes() && n <= 16 + bitsLeft
      modifies this
      ensures FedBytes() && octets == old(octets) && source == old(source)
      ensures Rest() == if fetched == old(fetched) then old(Rest()) else AfterByte(AfterByte(old(Rest())))
      ensures fetched == old(fetched) + if n == 0 || n < old(bitsLeft) then 0 else 2
      ensures Position() == old(Position()) + n
      ensures r == Window(octets, old(Position()), n)
    {
      hide Window, Pow2, Buffer, Raw, RawStream, AfterByte, AfterBytes, ShiftLeft;
      if n == 0 {
        WindowNone(octets, Position());
        return 0;
      }
      ghost var pos, v := Position(), 16 + bitsLeft;
      BufferTop(octets, pos, v, n);
      r := bitBuf / Pow2(32 - n);
      bitsLeft := bitsLeft - n;
      if bitsLeft <= 0 {
        var m := n + bitsLeft;
        BufferShift(octets, pos, v, m);
        bitBuf := ShiftLeft(bitBuf, m);
        RefillRaw(pos + m);
      } else {
        BufferShift(octets, pos, v, n);
        bitBuf := ShiftLeft(bitBuf, n);
      }
    }

    /** Delivers the next n bits of the input, which is not un-stuffed. */
    method GetBits(n: nat) returns (r: nat)
      requires InMarkers() && n <= 16 + bitsLeft
      modifies this
      ensures InMarkers() && octets == old(octets) && source == old(source)
      ensures Position() == old(Position()) + n
      ensures r == Window(octets, old(Position()), n)
    {
      hide Window, Pow2, Buffer, Raw, AfterByte, AfterBytes;
      TwoBytes(source, fetched);
      r := TakeRawBits(n);
    }

    /** Starts the bit buffer at the current byte of the input, for marker segments. */
    method PrimeMarkers()
      requires InputOk()
      modifies this
      ensures InMarkers() && Position() == 0
      ensures octets == RawStream(old(unread), old(padFlag)) && source == old(Rest())
    {
      hide Window, Pow2, Buffer, RawByte, Raw, Primed, AfterByte;
      ghost var buf, rest, start := bitBuf, RawStream(unread, padFlag), Rest();
      octets, fetched := Primed(buf, rest), 4;
      bitsLeft := 16;
      PrimedBuffer(buf, rest);
      PrimedFollows(buf, unread, padFlag);
      var _ := TakeRawBits(16);
      var _ := TakeRawBits(16);
      DropPrimer(buf, rest, fetched, Position() - 32, 16 + bitsLeft, unread, padFlag);
      FourBytes(start);
      octets, source, fetched := rest, start, fetched - 4;
    }

    /** The bytes of the bit buffer, when it holds whole ones. */
    lemma BytesInBuffer(k: nat)
      requires Buffered() && Position() == 8 * k
      ensures bitsLeft == 0 || bitsLeft == 8 || bitsLeft == 16
      ensures fetched == k + if bitsLeft == 0 then 2 else if bitsLeft == 8 then 3 else 4
      ensures bitBuf / 0x100_0000 % 256 == octets(k) && bitBuf / 0x1_0000 % 256 == octets(k + 1)
      ensures bitsLeft >= 8 ==> bitBuf / 256 % 256 == octets(k + 2)
      ensures bitsLeft == 16 ==> bitBuf % 256 == octets(k + 3)
    {
      hide Window, Pow2, Buffer;
      var v := 16 + bitsLeft;
      Pow2Large();
      Pow2Small();
      BufferByte(octets, k, v, 0);
      BufferByte(octets, k, v, 1);
      if bitsLeft >= 8 {
        BufferByte(octets, k, v, 2);
      }
      if bitsLeft == 16 {
        BufferByte(octets, k, v, 3);
      }
    }

    /** Puts the whole bytes of the bit buffer back in front of the input. */
    method StuffBuffer(ghost k: nat)
      requires Buffered() && Position() == 8 * k
      modifies this`unread, this`inBufLeft
      ensures InputOk() && k <= fetched
      ensures unread == Held(octets, k, fetched - k) + old(unread)
    {
      BytesInBuffer(k);
      HeldBytes(octets, k);
      var b0, b1, b2, b3 := bitBuf / 0x100_0000 % 256, bitBuf / 0x1_0000 % 256, bitBuf / 256 % 256, bitBuf % 256;
      Fronts(b0, b1, b2, b3, unread);
      hide Held, Buffer, Pow2, Window;
      if bitsLeft == 16 {
        StuffChar(b3);
      }
      if bitsLeft >= 8 {
        StuffChar(b2);
      }
      StuffChar(b1);
      StuffChar(b0);
    }

    /** Switches from marker segments to entropy-coded data at byte k: the whole bytes still in the
        bit buffer go back in front of the input, so decoding resumes exactly at the current byte. */
    method FixInBuffer(ghost k: nat)
      requires InMarkers() && Position() == 8 * k
      modifies this
      ensures InEntropySegment() && Position() == 0 && k <= old(fetched)
      ensures source == Source(Held(old(octets), k, old(fetched) - k) + old(unread), old(padFlag))
      ensures Raw(old(octets), k, source.bytes, source.flag)
      ensures old(fetched) <= |old(source).bytes| && old(source).flag <= 1 ==>
                source == Source(old(source).bytes[k..], old(source).flag)
    {
      HeldBack(k);
      hide *;
      StuffBuffer(k);
      PrimeNoMarkers();
    }

    /** What the input is once the bytes are back. */
    lemma HeldBack(k: nat)
      requires InMarkers() && Position() == 8 * k
      ensures Buffered() && InputOk() && k <= fetched
      ensures var rest := Held(octets, k, fetched - k) + unread;
              && Raw(octets, k, rest, padFlag)
              && (fetched <= |source.bytes| && source.flag <= 1 ==>
                    rest == source.bytes[k..] && padFlag == source.flag)
    {
      BytesInBuffer(k);
      hide Window, Pow2, Buffer, RawByte, Raw, Held, AfterBytes;
      PushBack(octets, k, fetched - k, unread, padFlag);
      if fetched <= |source.bytes| && source.flag <= 1 {
        BackInPlace(source, k, fetched - k);
      }
    }
  }
}
