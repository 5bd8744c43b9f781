/**
 Frames of the serial link: a bit-packed header of length and protocol type, the payload, and a check whose kind depends
 on the type; and what the receiver reads back out of the bytes between two marks.
 */
module Framing {
  import opened Wrappers
  import opened WordBits
  import opened Crc
  import opened Stuffing

  const MNGP_RESET: Byte := 0x03
  const MNGP_REBOOT: Byte := 0x04
  const MNGP_LAST: Byte := 0x07
  const SNIF_PRIME: Byte := 0x13
  const ATPL230: Byte := 0x22
  const PRIME_API: Byte := 0x30
  const INTERNAL: Byte := 0x3F
  const USER_DEFINED: Byte := 0xFE

  const BUFFER_SIZE: nat := 1000
  const MIN_OVERHEAD: nat := 5

  datatype Msg = Msg(ptype: Byte, payload: seq<Byte>)

  /** The check that protects a frame. */
  datatype Check = Cyclic32 | Cyclic16 | Sum

  function CheckSize(c: Check): nat {
    match c
    case Cyclic32 => 4
    case Cyclic16 => 2
    case Sum => 1
  }

  function CheckBytes(c: Check, head: seq<Byte>): (t: seq<Byte>)
    ensures |t| == CheckSize(c)
  {
    match c
    case Cyclic32 => BigEndian32(Crc32(head, 0))
    case Cyclic16 => BigEndian16(Crc16(head, 0))
    case Sum => [ByteSum(head, 0)]
  }

  /** The row of the protocol tables for a type, if it has one. */
  function ProtocolIndex(t: Byte): Option<nat> {
    if t <= MNGP_LAST then Some(0)
    else if t == SNIF_PRIME then Some(1)
    else if t == ATPL230 then Some(2)
    else if t == USER_DEFINED then Some(3)
    else if t == PRIME_API then Some(4)
    else if t == INTERNAL then Some(5)
    else None
  }

  /** The check the receiver expects for a type; it gives up on any other. */
  function RxCheck(t: Byte): Option<Check> {
    if t <= MNGP_LAST then Some(Cyclic32)
    else if t == SNIF_PRIME || t == ATPL230 || t == USER_DEFINED then Some(Cyclic16)
    else if t == PRIME_API then Some(Sum)
    else None
  }

  /** The check the transmitter appends; the byte sum is also its default. */
  function TxCheck(t: Byte): Check {
    if t <= MNGP_LAST then Cyclic32
    else if t == SNIF_PRIME || t == ATPL230 || t == USER_DEFINED then Cyclic16
    else Sum
  }

  // ---------- the header ----------

  function LenHigh(n: nat): Byte {
    ((n / 4) % 256) as bv8
  }

  function LenLow(n: nat): Byte {
    ((n % 4) as bv8) << 6
  }

  /** The eleventh bit of the length, in the place it has in the third byte. */
  function LenExtra(n: nat): Byte {
    if (n / 1024) % 2 == 1 then 0x80 else 0x00
  }

  function TypeBits(t: Byte): Byte {
    t & 0x3F
  }

  function CmdBits(c: Byte): Byte {
    c & 0x7F
  }

  function Len(hi: Byte, lo: Byte): nat {
    4 * (hi as nat) + (lo >> 6) as nat
  }

  function XLen(hi: Byte, lo: Byte, extra: Byte): nat {
    Len(hi, lo) + if extra & 0x80 != 0 then 1024 else 0
  }

  lemma NibbleOfNat(n: nat)
    requires n < 16
    ensures (n as bv8) as nat == n && n as bv8 < 16
  {
  }

  lemma TwoNibbles(h: bv8, l: bv8)
    requires h < 16 && l < 16
    ensures ((h << 4) + l) as nat == 16 * (h as nat) + l as nat
  {
  }

  lemma NatOfByte(x: bv8)
    ensures (x as nat) < 256 && (x as nat) as bv8 == x
  {
  }

  lemma ByteOfNat(n: nat)
    requires n < 256
    ensures (n as bv8) as nat == n
  {
    var h, l := (n / 16) as bv8, (n % 16) as bv8;
    NibbleOfNat(n / 16);
    NibbleOfNat(n % 16);
    TwoNibbles(h, l);
    NatOfByte((h << 4) + l);
  }

  lemma LowTwoBits(x: bv8, t: Byte)
    requires x < 4
    ensures ((x << 6) + (t & 0x3F)) >> 6 == x
    ensures ((x << 6) + (t & 0x3F)) & 0x3F == t & 0x3F
  {
  }

  lemma SmallByte(n: nat)
    requires n < 4
    ensures (n as bv8) < 4
  {
  }

  /** The packed length is read back modulo 1024, and the type modulo 64. */
  lemma HeaderRoundTrip(n: nat, t: Byte)
    ensures Len(LenHigh(n), LenLow(n) + TypeBits(t)) == n % 1024
    ensures TypeBits(LenLow(n) + TypeBits(t)) == TypeBits(t)
  {
    ByteOfNat((n / 4) % 256);
    ByteOfNat(n % 4);
    SmallByte(n % 4);
    LowTwoBits((n % 4) as bv8, t);
    LengthParts(n);
  }

  lemma LengthParts(n: nat)
    ensures 4 * ((n / 4) % 256) + n % 4 == n % 1024
  {
  }

  lemma ExtraBit(e: Byte, c: Byte)
    requires e == 0x80 || e == 0x00
    ensures (e + CmdBits(c)) & 0x80 == e
  {
  }

  /** With the extra bit lengths below 2048 are read back. */
  lemma ExtendedLengthRoundTrip(n: nat, t: Byte, c: Byte)
    requires n < 2048
    ensures XLen(LenHigh(n), LenLow(n) + TypeBits(t), LenExtra(n) + CmdBits(c)) == n
  {
    HeaderRoundTrip(n, t);
    ExtraBit(LenExtra(n), c);
    assert n == n % 1024 + if (n / 1024) % 2 == 1 then 1024 else 0;
  }

  // ---------- frames ----------

  /** The payload as it travels: for the PRIME API the top bit of its first byte carries the extra length bit. */
  function WirePayload(m: Msg): (p: seq<Byte>)
    requires m.payload != []
    ensures |p| == |m.payload|
  {
    if m.ptype == PRIME_API
    then [LenExtra(|m.payload|) + CmdBits(m.payload[0])] + m.payload[1..]
    else m.payload
  }

  function Header(m: Msg): (h: seq<Byte>)
    ensures |h| == 2
  {
    [LenHigh(|m.payload|), LenLow(|m.payload|) + TypeBits(m.ptype)]
  }

  function Head(m: Msg): (h: seq<Byte>)
    requires m.payload != []
    ensures |h| == |m.payload| + 2
  {
    Header(m) + WirePayload(m)
  }

  function Body(m: Msg): (b: seq<Byte>)
    requires m.payload != []
    ensures |b| == |m.payload| + 2 + CheckSize(TxCheck(m.ptype))
  {
    Head(m) + CheckBytes(TxCheck(m.ptype), Head(m))
  }

  function Frame(m: Msg): (f: seq<Byte>)
    requires m.payload != []
  {
    [MARK] + Stuff(Body(m)) + [MARK]
  }

  // ---------- what the receiver reads ----------

  /** What is at place i of memory; past what is given it is zero. */
  function At(mem: seq<Byte>, i: nat): Byte {
    if i < |mem| then mem[i] else 0
  }

  function Window(mem: seq<Byte>, n: nat): (w: seq<Byte>)
    ensures |w| == n
  {
    seq(n, i requires 0 <= i < n => At(mem, i))
  }

  function TypeAt(mem: seq<Byte>): Byte {
    TypeBits(At(mem, 1))
  }

  /** The length that three header bytes declare; only the PRIME API uses the extra bit. */
  function HeaderLen(hi: Byte, lo: Byte, extra: Byte): nat {
    if TypeBits(lo) == PRIME_API then XLen(hi, lo, extra) else Len(hi, lo)
  }

  function DeclaredLen(mem: seq<Byte>): nat {
    HeaderLen(At(mem, 0), At(mem, 1), At(mem, 2))
  }

  /** A length of zero is for reset and reboot only. */
  predicate LengthAllowed(len: nat, t: Byte) {
    len != 0 || t == MNGP_RESET || t == MNGP_REBOOT
  }

  /** Does the declared length agree with the number of bytes between the marks? */
  predicate LengthAgrees(mem: seq<Byte>, size: nat) {
    size >= 4 && RxCheck(TypeAt(mem)).Some? && DeclaredLen(mem) + CheckSize(RxCheck(TypeAt(mem)).value) + 2 == size
  }

  /** Does the check at the end of the size bytes agree with the declared part of them? */
  predicate CheckAgrees(mem: seq<Byte>, size: nat)
    requires size <= |mem|
  {
    && size >= 4
    && LengthAllowed(Len(At(mem, 0), At(mem, 1)), TypeAt(mem))
    && RxCheck(TypeAt(mem)).Some?
    && var c := RxCheck(TypeAt(mem)).value;
       mem[size - CheckSize(c)..size] == CheckBytes(c, Window(mem, DeclaredLen(mem) + 2))
  }

  /** What a handler is called with. */
  datatype Delivery = Delivery(handler: nat, data: seq<Byte>)

  /** The row whose handler gets a type's messages. Six bits cannot spell the user-defined type. */
  function HandlerOf(t: Byte): Option<nat> {
    if t <= MNGP_LAST then Some(0)
    else if t == SNIF_PRIME then Some(1)
    else if t == ATPL230 then Some(2)
    else if t == PRIME_API then Some(4)
    else None
  }

  /** A call that sets or removes the handler of a type's protocol. */
  datatype Callback = Callback(t: Byte, present: bool)

  function Register(registered: set<nat>, c: Callback): set<nat> {
    match ProtocolIndex(c.t)
    case None => registered
    case Some(row) => if c.present then registered + {row} else registered - {row}
  }

  /** The call that a message gives rise to, if its type has a handler: the management protocol gets its header too. */
  function Dispatch(mem: seq<Byte>, registered: set<nat>): seq<Delivery> {
    var t, len := TypeAt(mem), DeclaredLen(mem);
    if !LengthAllowed(len, t) || HandlerOf(t) == None || HandlerOf(t).value !in registered then []
    else [Delivery(HandlerOf(t).value, Window(mem, len + 2)[if t <= MNGP_LAST then 0 else 2..])]
  }
}
