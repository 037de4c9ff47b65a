/** The firmware image as a stream of small payloads: the sending loop with its reused buffer, and a receiver
    that puts the image together again. */
module FirmwarePackets {
  import opened Arithmetic
  import opened Bytes
  import opened Options

  const TRANSFER_SIZE := 64
  const HEADER_RANGE := 0x1_0000
  const PACKET_RANGE := 0x4000

  datatype TransferType = Initiate | Continue | End

  function TypeBits(t: TransferType): nat {
    match t
    case Initiate => 0
    case Continue => 1
    case End => 2
  }

  /** (packet << 2) | type in 16 bits. */
  function Header(t: TransferType, packet: nat): (h: nat)
    ensures h < HEADER_RANGE
  {
    (packet * 4 + TypeBits(t)) % HEADER_RANGE
  }

  /** The device's view: type in bits 1:0, packet number in bits 15:2. */
  function HeaderType(header: nat): nat { header % 4 }
  function HeaderNumber(header: nat): nat { header / 4 % PACKET_RANGE }

  /** A header carries its type, and the packet number modulo 2^14. */
  lemma HeaderDecodes(t: TransferType, packet: nat)
    ensures HeaderType(Header(t, packet)) == TypeBits(t)
    ensures HeaderNumber(Header(t, packet)) == packet % PACKET_RANGE
  {
    var q, r := packet / PACKET_RANGE, packet % PACKET_RANGE;
    DivModUnique(packet * 4 + TypeBits(t), q, r * 4 + TypeBits(t), HEADER_RANGE);
  }

  datatype Packet = Packet(header: nat, data: seq<Byte>)

  // ---------------------------------------------------------------------------------------------
  // The stream

  /** Number of packets. */
  function Count(size: nat): nat { (size + TRANSFER_SIZE - 1) / TRANSFER_SIZE }

  function TypeAt(size: nat, k: nat): TransferType {
    if k == 0 then Initiate
    else if (k + 1) * TRANSFER_SIZE < size then Continue
    else End
  }

  /** The buffer after packet k - 1 was built in it. */
  function Buffer(image: seq<Byte>, k: nat): (b: seq<Byte>)
    requires k <= Count(|image|)
    ensures |b| == TRANSFER_SIZE
  {
    if k == 0 then Zeros(TRANSFER_SIZE)
    else
      var from := (k - 1) * TRANSFER_SIZE;
      var chunk := if k * TRANSFER_SIZE <= |image| then image[from..k * TRANSFER_SIZE] else image[from..];
      chunk + Buffer(image, k - 1)[|chunk|..]
  }

  /** Packet k; a short last chunk leaves the tail of the packet before in the buffer. */
  function PacketAt(image: seq<Byte>, k: nat): Packet
    requires k < Count(|image|)
  {
    Packet(Header(TypeAt(|image|, k), k), Buffer(image, k + 1))
  }

  /** Packets k.. of the image. */
  function Stream(image: seq<Byte>, k: nat): (s: seq<Packet>)
    requires k <= Count(|image|)
    ensures |s| == Count(|image|) - k
    decreases Count(|image|) - k
  {
    if k == Count(|image|) then [] else [PacketAt(image, k)] + Stream(image, k + 1)
  }

  lemma {:induction false} StreamAt(image: seq<Byte>, k: nat, i: nat)
    requires k <= Count(|image|) && i < Count(|image|) - k
    ensures Stream(image, k)[i] == PacketAt(image, k + i)
    decreases i
  {
    if i > 0 { StreamAt(image, k + 1, i - 1); }
  }

  /** The header of the packet at this offset, and how much of the image goes into it. */
  method ChooseHeader(offset: nat, imageSize: nat, packetNumber: nat) returns (header: nat, size: nat)
    requires offset == packetNumber * TRANSFER_SIZE < imageSize && TRANSFER_SIZE <= imageSize
    ensures header == Header(TypeAt(imageSize, packetNumber), packetNumber)
    ensures size == if offset + TRANSFER_SIZE <= imageSize then TRANSFER_SIZE else imageSize - offset
  {
    hide Header;
    size := TRANSFER_SIZE;
    if offset == 0 {
      header := Header(Initiate, packetNumber);
    } else if offset + TRANSFER_SIZE < imageSize {
      header := Header(Continue, packetNumber);
    } else if offset + TRANSFER_SIZE == imageSize {
      header := Header(End, packetNumber);
    } else {
      size := imageSize - offset;
      header := Header(End, packetNumber);
    }
  }

  /** Builds packet k in the buffer that holds packet k - 1. */
  method FillPacket(payload: array<Byte>, image: seq<Byte>, k: nat, offset: nat) returns (header: nat, size: nat)
    requires payload.Length == TRANSFER_SIZE <= |image| && k < Count(|image|)
    requires offset == k * TRANSFER_SIZE < |image| && payload[..] == Buffer(image, k)
    modifies payload
    ensures PacketAt(image, k) == Packet(header, payload[..]) && payload[..] == Buffer(image, k + 1)
    ensures size == if offset + TRANSFER_SIZE <= |image| then TRANSFER_SIZE else |image| - offset
  {
    hide Header, Buffer, TypeAt;
    header, size := ChooseHeader(offset, |image|, k);
    BufferStep(image, k, offset, size);
    var next := Put(payload, 0, image[offset..offset + size]);
    assert payload[..] == payload[..size] + payload[size..];
  }

  /** Sends the image packet by packet until the driver fails one; sent are the packets it accepted. */
  method TransferImage(image: seq<Byte>, driver: nat -> bool) returns (ok: bool, sent: seq<Packet>)
    requires TRANSFER_SIZE <= |image| && |image| + TRANSFER_SIZE < 0x1_0000_0000
    ensures ok <==> forall k | 0 <= k < Count(|image|) :: driver(k)
    ensures |sent| <= Count(|image|) && sent == Stream(image, 0)[..|sent|]
    ensures !ok ==> |sent| < Count(|image|) && !driver(|sent|)
    ensures ok ==> sent == Stream(image, 0)
  {
    hide PacketAt, Buffer, Count, Stream;
    var payload := new Byte[TRANSFER_SIZE](_ => 0);
    assert payload[..] == Buffer(image, 0) by { BufferStarts(image); }
    var packetNumber, offset := 0, 0;
    ok, sent := true, [];
    NoneLeft(|image|, 0);
    while offset < |image|
      invariant |sent| <= Count(|image|) && packetNumber == |sent|
      invariant offset == if |sent| * TRANSFER_SIZE <= |image| then |sent| * TRANSFER_SIZE else |image|
      invariant payload[..] == Buffer(image, |sent|)
      invariant forall i | 0 <= i < |sent| :: sent[i] == PacketAt(image, i) && driver(i)
      decreases |image| - offset
    {
      NoneLeft(|image|, |sent|);
      var header, size := FillPacket(payload, image, packetNumber, offset);
      if !driver(packetNumber) {
        Sent(image, sent);
        return false, sent;
      }
      sent := sent + [Packet(header, payload[..])];
      offset := offset + size;
      packetNumber := packetNumber + 1;
      NoneLeft(|image|, |sent|);
    }
    NoneLeft(|image|, |sent|);
    Sent(image, sent);
    assert Stream(image, 0)[..|sent|] == Stream(image, 0);
  }

  /** Packets are left exactly while bytes are. */
  lemma NoneLeft(size: nat, k: nat)
    ensures k < Count(size) <==> k * TRANSFER_SIZE < size
  {
  }

  datatype UpdateResult = Updated | BadFirmware | TransferFailed

  const MIN_IMAGE := 128

  /** An image smaller than its header is refused before anything is sent. */
  method UpdateDeviceFirmware(image: seq<Byte>, driver: nat -> bool) returns (r: UpdateResult, sent: seq<Packet>)
    requires |image| + TRANSFER_SIZE < 0x1_0000_0000
    ensures r == BadFirmware <==> |image| < MIN_IMAGE
    ensures r == BadFirmware ==> sent == []
    ensures r == Updated ==> sent == Stream(image, 0)
    ensures r == TransferFailed ==> |sent| < Count(|image|) && sent == Stream(image, 0)[..|sent|] && !driver(|sent|)
  {
    if |image| < MIN_IMAGE {
      return BadFirmware, [];
    }
    var ok;
    ok, sent := TransferImage(image, driver);
    r := if ok then Updated else TransferFailed;
  }

  lemma BufferStarts(image: seq<Byte>)
    ensures Buffer(image, 0) == Zeros(TRANSFER_SIZE)
  {
  }

  /** Copying the next chunk over the buffer builds the next packet's data. */
  lemma BufferStep(image: seq<Byte>, k: nat, offset: nat, size: nat)
    requires k < Count(|image|) && offset == k * TRANSFER_SIZE < |image|
    requires size == if offset + TRANSFER_SIZE <= |image| then TRANSFER_SIZE else |image| - offset
    ensures Buffer(image, k + 1) == image[offset..offset + size] + Buffer(image, k)[size..]
  {
  }

  lemma Sent(image: seq<Byte>, sent: seq<Packet>)
    requires |sent| <= Count(|image|) && forall i | 0 <= i < |sent| :: sent[i] == PacketAt(image, i)
    ensures sent == Stream(image, 0)[..|sent|]
  {
    hide Stream, PacketAt, Count;
    var stream := Stream(image, 0);
    forall i | 0 <= i < |sent| ensures sent[i] == stream[i] { StreamAt(image, 0, i); }
  }

  // ---------------------------------------------------------------------------------------------
  // Receiving

  /** Puts packets together that continue after the first n: numbered on, CONTINUE up to one END. */
  function ReceiveRest(packets: seq<Packet>, n: nat): (r: Option<seq<Byte>>)
    decreases |packets|
  {
    if packets == [] || HeaderNumber(packets[0].header) != n then None
    else if HeaderType(packets[0].header) == TypeBits(End) then
      if |packets| == 1 then Some(packets[0].data) else None
    else if HeaderType(packets[0].header) != TypeBits(Continue) then None
    else
      var rest := ReceiveRest(packets[1..], n + 1);
      if rest.None? then None else Some(packets[0].data + rest.value)
  }

  /** A device that insists on one INITIATE numbered 0, then CONTINUEs, then one END, without gaps. */
  function Receive(packets: seq<Packet>): Option<seq<Byte>> {
    if packets == [] || HeaderNumber(packets[0].header) != 0 || HeaderType(packets[0].header) != TypeBits(Initiate) then None
    else
      var rest := ReceiveRest(packets[1..], 1);
      if rest.None? then None else Some(packets[0].data + rest.value)
  }

  /** From packet k on: received exactly if no number reaches 2^14, and then the data starts with the rest
      of the image. */
  lemma {:induction false} RestReceived(image: seq<Byte>, k: nat)
    requires 0 < k < Count(|image|)
    ensures ReceiveRest(Stream(image, k), k).Some? <==> Count(|image|) <= PACKET_RANGE
    ensures var r := ReceiveRest(Stream(image, k), k);
      r.Some? ==> |image| - k * TRANSFER_SIZE <= |r.value| && image[k * TRANSFER_SIZE..] == r.value[..|image| - k * TRANSFER_SIZE]
    decreases Count(|image|) - k
  {
    hide Stream, Count, Buffer, ReceiveRest;
    var n, from := Count(|image|), k * TRANSFER_SIZE;
    NoneLeft(|image|, k);
    NoneLeft(|image|, k + 1);
    BufferHolds(image, k);
    RestStep(image, k);
    if k + 1 < n {
      RestReceived(image, k + 1);
      var rest := ReceiveRest(Stream(image, k + 1), k + 1);
      if rest.Some? && k < PACKET_RANGE {
        Joined(image, from, from + TRANSFER_SIZE, Buffer(image, k + 1), rest.value);
      }
    }
  }

  /** What the receiver makes of packet k and those behind it. */
  lemma RestStep(image: seq<Byte>, k: nat)
    requires 0 < k < Count(|image|)
    ensures ReceiveRest(Stream(image, k), k) ==
            if k >= PACKET_RANGE then None
            else if k + 1 == Count(|image|) then Some(Buffer(image, k + 1))
            else
              var rest := ReceiveRest(Stream(image, k + 1), k + 1);
              if rest.None? then None else Some(Buffer(image, k + 1) + rest.value)
  {
    hide Header, HeaderType, HeaderNumber, Count, Buffer;
    HeaderDecodes(TypeAt(|image|, k), k);
    NoneLeft(|image|, k);
    NoneLeft(|image|, k + 1);
    assert Stream(image, k)[1..] == Stream(image, k + 1);
  }

  lemma Joined(image: seq<Byte>, from: nat, next: nat, data: seq<Byte>, rest: seq<Byte>)
    requires from <= next <= |image| && data == image[from..next]
    requires |image| - next <= |rest| && image[next..] == rest[..|image| - next]
    ensures |image| - from <= |data + rest| && image[from..] == (data + rest)[..|image| - from]
  {
    assert image[from..] == image[from..next] + image[next..];
    assert (data + rest)[..|image| - from] == data + rest[..|image| - next];
  }

  /** Packet k's data starts with its chunk of the image. */
  lemma BufferHolds(image: seq<Byte>, k: nat)
    requires k < Count(|image|)
    ensures var from := k * TRANSFER_SIZE; var end := if from + TRANSFER_SIZE <= |image| then from + TRANSFER_SIZE else |image|;
      from < end && Buffer(image, k + 1)[..end - from] == image[from..end]
  {
  }

  /** For an image of more than one packet the stream is accepted by the receiver exactly when the image has
      at most 64 * 2^14 bytes, and then the data, cut at the image's size, is the image. */
  lemma StreamReceived(image: seq<Byte>)
    requires |image| > TRANSFER_SIZE
    ensures Receive(Stream(image, 0)).Some? <==> |image| <= TRANSFER_SIZE * PACKET_RANGE
    ensures |image| <= TRANSFER_SIZE * PACKET_RANGE ==>
              var data := Receive(Stream(image, 0)).value; |image| <= |data| && data[..|image|] == image
  {
    hide Header, HeaderType, HeaderNumber, Buffer, ReceiveRest;
    HeaderDecodes(Initiate, 0);
    RestReceived(image, 1);
    BufferHolds(image, 0);
    assert Stream(image, 0)[1..] == Stream(image, 1);
    var rest, data := ReceiveRest(Stream(image, 1), 1), Buffer(image, 1);
    if rest.Some? {
      Joined(image, 0, TRANSFER_SIZE, data, rest.value);
    }
  }

  /** The stream's shape for every image the size check lets through and the packet numbers can count: the number in
      the upper 14 bits, and in the lower two 0 for INITIATE, 1 for CONTINUE, 2 for END. */
  lemma StreamShape(image: seq<Byte>, k: nat)
    requires 128 <= |image| <= TRANSFER_SIZE * PACKET_RANGE && k < Count(|image|)
    ensures var s, last := Stream(image, 0), Count(|image|) - 1;
      && s[k].header == k * 4 + (if k == 0 then 0 else if k == last then 2 else 1)
      && HeaderNumber(s[k].header) == k
      && HeaderType(s[k].header) == TypeBits(if k == 0 then Initiate else if k == last then End else Continue)
  {
    hide Buffer, Header, TypeAt, Count, Stream, HeaderNumber, HeaderType;
    StreamAt(image, 0, k);
    HeaderDecodes(TypeAt(|image|, k), k);
    NoneLeft(|image|, k);
    NoneLeft(|image|, k + 1);
    TypeIs(|image|, k);
    SmallHeader(|image|, k);
  }

  lemma TypeIs(size: nat, k: nat)
    ensures TypeAt(size, k) == if k == 0 then Initiate else if (k + 1) * 64 < size then Continue else End
  {
  }

  lemma SmallHeader(size: nat, k: nat)
    requires k < PACKET_RANGE
    ensures Header(TypeAt(size, k), k) == k * 4 + if k == 0 then 0 else if (k + 1) * 64 < size then 1 else 2
  {
  }

  /** Every packet carries 64 bytes. A last chunk that is shorter leaves behind it what the packet before had there:
      the image's bytes 64 places earlier. */
  lemma TailIsStale(image: seq<Byte>, k: nat, i: nat)
    requires k < Count(|image|) && i < 64
    ensures |Stream(image, 0)[k].data| == 64
    ensures k * 64 + i < |image| ==> Stream(image, 0)[k].data[i] == image[k * 64 + i]
    ensures k * 64 + i >= |image| && k > 0 ==> Stream(image, 0)[k].data[i] == image[(k - 1) * 64 + i]
    ensures k * 64 + i >= |image| && k == 0 ==> Stream(image, 0)[k].data[i] == 0
  {
    hide Header, Stream, Count, Buffer;
    StreamAt(image, 0, k);
    NoneLeft(|image|, k);
    BufferByte(image, k, i);
    BufferStarts(image);
    if k > 0 { BufferByte(image, k - 1, i); }
  }

  lemma BufferByte(image: seq<Byte>, k: nat, i: nat)
    requires k < Count(|image|) && i < 64
    ensures Buffer(image, k + 1)[i] == if k * 64 + i < |image| then image[k * 64 + i] else Buffer(image, k)[i]
  {
    var from := k * TRANSFER_SIZE;
    var size := if from + TRANSFER_SIZE <= |image| then TRANSFER_SIZE else |image| - from;
    NoneLeft(|image|, k);
    BufferStep(image, k, from, size);
  }
}
