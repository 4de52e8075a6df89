/** Machine integers, the error type shared by every layer, and the result
    wrappers the codec and the connection handlers return. */
module Base {

  const TWO_7: nat := 0x80
  const TWO_8: nat := 0x100
  const TWO_12: nat := 0x1000
  const TWO_16: nat := 0x1_0000
  const TWO_26: nat := 0x400_0000
  const TWO_31: nat := 0x8000_0000
  const TWO_32: nat := 0x1_0000_0000
  const TWO_38: nat := 0x40_0000_0000
  const TWO_63: nat := 0x8000_0000_0000_0000
  const TWO_64: nat := 0x1_0000_0000_0000_0000

  type byte = b: int | 0 <= b < 0x100
  type i32 = x: int | -0x8000_0000 <= x < 0x8000_0000
  type u32 = x: int | 0 <= x < 0x1_0000_0000
  type i64 = x: int | -0x8000_0000_0000_0000 <= x < 0x8000_0000_0000_0000
  type u64 = x: int | 0 <= x < 0x1_0000_0000_0000_0000

  /** A 128-bit player identifier (a `Uuid` wrapped in `ClientUuid`). */
  type Uuid = x: int | 0 <= x < 0x1_0000_0000_0000_0000_0000_0000_0000_0000

  /** `value as u32` for an i32: the same 32 bits read as unsigned. */
  function ToU32(v: i32): (u: u32)
    ensures v >= 0 ==> u == v
    ensures v < 0 ==> u == v + TWO_32
  {
    if v < 0 then v + TWO_32 else v
  }

  /** `transmute::<u32, i32>`: the same 32 bits read as two's complement. */
  function ToI32(u: u32): (v: i32)
    ensures ToU32(v) == u
  {
    if u >= TWO_31 then u - TWO_32 else u
  }

  /** `n as i32` for a non-negative `usize`: keeps the low 32 bits. */
  function WrapI32(n: nat): (v: i32)
    ensures n < TWO_31 ==> v == n
  {
    ToI32(n % TWO_32)
  }

  /** `v as usize` for an i32 on a 64-bit target: sign extension. */
  function UsizeOf(v: i32): (n: nat)
    ensures v >= 0 ==> n == v
    ensures v < 0 ==> n >= TWO_63
  {
    if v < 0 then v + TWO_64 else v
  }

  function ToU64(v: i64): (u: u64)
    ensures v >= 0 ==> u == v
  {
    if v < 0 then v + TWO_64 else v
  }

  function ToI64(u: u64): (v: i64)
    ensures ToU64(v) == u
  {
    if u >= TWO_63 then u - TWO_64 else u
  }

  datatype Option<T> = None | Some(value: T)

  /** The error kinds of `McError` across the iterations of the source.
      `Io` stands for every `McError::Io(_)`: end of input or a failed
      read or write. `OpenSsl` and `ChannelClosed` stand for failures of
      collaborators that are parameters of the model. */
  datatype Error =
    | Io
    | BadVarInt
    | BadPacketLength(length: nat)
    | BadNextState(state: i32)
    | BadString
    | UnexpectedPacket(expected: i32, actual: i32)
    | FullPacketNotRead(length: nat, read: nat)
    | BadPacketId(id: i32)
    | PleaseDisconnect
    | VerifyTokenMismatch
    | OpenSsl
    | ChannelClosed
    | NoSuchPlayer(player: Uuid)
    | IncorrectTeleportConfirm(pending: Option<i32>, confirmed: i32)

  datatype Result<+T> = Ok(value: T) | Err(error: Error) {
    predicate IsFailure() { Err? }
    function PropagateFailure<U>(): Result<U>
      requires Err?
    {
      Err(error)
    }
    function Extract(): T
      requires Ok?
    {
      value
    }
  }

  /** A value read from the front of an input, with the input left over. */
  datatype Parsed<+T> = Parsed(value: T, rest: seq<byte>)

  /** One framed, not yet typed, inbound packet. */
  datatype PacketBody = PacketBody(id: i32, body: seq<byte>)

  /** The bytes of an ASCII string literal, one per character (a
      character past 127 would be cut to 7 bits; the literals here have
      none). */
  function Ascii(s: string): (r: seq<byte>)
    ensures |r| == |s|
    ensures forall i :: 0 <= i < |s| ==> r[i] < 128
    ensures forall i :: 0 <= i < |s| && s[i] as int < 128 ==> r[i] == s[i] as int
  {
    seq(|s|, i requires 0 <= i < |s| => s[i] as int % 128)
  }

  function Zeros(n: nat): (r: seq<byte>)
    ensures |r| == n && forall i :: 0 <= i < n ==> r[i] == 0
  {
    seq(n, _ => 0)
  }

  /** Concatenation regroups; stated on its own so that a proof in a large
      context need not rediscover it element by element. */
  lemma Assoc<T>(a: seq<T>, b: seq<T>, c: seq<T>)
    ensures (a + b) + c == a + (b + c)
  {
  }

  /** Taking one more element appends it. */
  lemma TakeSnoc<T>(s: seq<T>, n: nat)
    requires n < |s|
    ensures s[..n + 1] == s[..n] + [s[n]]
  {
  }

  /** Dropping a prefix of the left operand of a concatenation. */
  lemma DropAppend<T>(a: seq<T>, b: seq<T>, n: nat)
    requires n <= |a|
    ensures (a + b)[n..] == a[n..] + b
  {
  }

  // Euclidean division facts the codecs' proofs share.

  lemma DivUnique(a: int, d: int, q: int, r: int)
    requires d > 0 && a == d * q + r && 0 <= r < d
    ensures a / d == q && a % d == r
  {
    var q', r' := a / d, a % d;
    assert a == d * q' + r';
    if q' > q {
      assert d * q' >= d * (q + 1) by { MulMono(d, q + 1, q'); }
    } else if q' < q {
      assert d * q >= d * (q' + 1) by { MulMono(d, q' + 1, q); }
    }
  }

  lemma MulMono(d: int, x: int, y: int)
    requires d > 0 && x <= y
    ensures d * x <= d * y
  {
    assert d * y - d * x == d * (y - x);
  }
}
