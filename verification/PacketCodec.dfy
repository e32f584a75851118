/**
  * The ADNL packet codec: length-prefixed, checksummed packets over a stream cipher.
  * AES-CTR is an exclusive-or with a key stream indexed by position, and SHA-256 a function
  * on byte strings; both are parameters.
  */
module PacketCodec {
  import opened Prelude
  import opened Bytes

  type KeyStream = nat -> Byte

  type Hash = seq<Byte> -> seq<Byte>

  datatype Packet = Packet(nonce: seq<Byte>, data: seq<Byte>, checksum: seq<Byte>)

  /** The fixed-size arrays of a packet. */
  predicate WellFormed(p: Packet) {
    |p.nonce| == 32 && |p.checksum| == 32
  }

  /** A packet as `Packet::new` builds it, short enough for a 32-bit length. */
  predicate Sendable(sha: Hash, p: Packet) {
    WellFormed(p) && p.checksum == sha(p.nonce + p.data) && |p.data| + 64 < U32
  }

  // ------------------------------------------------------------ the cipher

  /** `apply_keystream` from position `at` of the key stream on. */
  function Cipher(ks: KeyStream, at: nat, s: seq<Byte>): (c: seq<Byte>)
    ensures |c| == |s|
  {
    seq(|s|, i requires 0 <= i < |s| => Xor(s[i], ks(at + i)))
  }

  lemma {:induction false} CipherTwice(ks: KeyStream, at: nat, s: seq<Byte>)
    ensures Cipher(ks, at, Cipher(ks, at, s)) == s
  {
    forall i | 0 <= i < |s| ensures Cipher(ks, at, Cipher(ks, at, s))[i] == s[i] {
      XorTwice(s[i], ks(at + i));
    }
  }

  lemma {:induction false} CipherConcat(ks: KeyStream, at: nat, s: seq<Byte>, t: seq<Byte>)
    ensures Cipher(ks, at, s + t) == Cipher(ks, at, s) + Cipher(ks, at + |s|, t)
  {
  }

  lemma {:induction false} CipherSlice(ks: KeyStream, at: nat, s: seq<Byte>, k: nat)
    requires k <= |s|
    ensures Cipher(ks, at, s)[..k] == Cipher(ks, at, s[..k])
    ensures Cipher(ks, at, s)[k..] == Cipher(ks, at + k, s[k..])
  {
  }

  /** The encrypted bytes i..j of the wire `w`. */
  function Enc(ks: KeyStream, w: seq<Byte>, i: nat, j: nat): (c: seq<Byte>)
    requires i <= j <= |w|
    ensures |c| == j - i
  {
    Cipher(ks, i, w[i..j])
  }

  lemma {:induction false} EncSplit(ks: KeyStream, w: seq<Byte>, i: nat, j: nat, k: nat)
    requires i <= j <= k <= |w|
    ensures Enc(ks, w, i, k) == Enc(ks, w, i, j) + Enc(ks, w, j, k)
    ensures Enc(ks, w, i, k)[..j - i] == Enc(ks, w, i, j) && Enc(ks, w, i, k)[j - i..] == Enc(ks, w, j, k)
  {
    assert w[i..k] == w[i..j] + w[j..k];
    CipherConcat(ks, i, w[i..j], w[j..k]);
  }

  // ------------------------------------------------------------- the frame

  /** What a packet puts on the wire, before encryption. */
  function Frame(p: Packet): (f: seq<Byte>)
    ensures |f| == 4 + |p.nonce| + |p.data| + |p.checksum|
  {
    LeBytes(|p.data| + 64, 4) + p.nonce + p.data + p.checksum
  }

  function Wire(ps: seq<Packet>): seq<Byte> {
    if ps == [] then [] else Wire(ps[..|ps| - 1]) + Frame(ps[|ps| - 1])
  }

  /** What the decoder keeps between calls, besides the buffer. */
  datatype Receiving = Receiving(pos: nat, nextLen: Option<nat>)

  datatype Decoded = NeedMore | Got(packet: Packet) | TooSmall | BadChecksum

  datatype Step = Step(st: Receiving, src: seq<Byte>, result: Decoded)

  /** The length part of a decode call: the cipher position and the buffer behind it, with the length. */
  function TakeLength(ks: KeyStream, st: Receiving, src: seq<Byte>): Option<(nat, seq<Byte>, nat)> {
    match st.nextLen
    case Some(len) => Some((st.pos, src, len))
    case None =>
      if |src| < 4 then None
      else Some((st.pos + 4, src[4..], FromLe(Cipher(ks, st.pos, src[..4]))))
  }

  /** A complete packet body: a wrong checksum leaves it in the buffer, decrypted. */
  function OpenBody(ks: KeyStream, sha: Hash, pos: nat, rest: seq<Byte>, len: nat): Step
    requires 64 <= len <= |rest|
  {
    var plain := Cipher(ks, pos, rest[..len]);
    if sha(plain[..len - 32]) != plain[len - 32..] then
      Step(Receiving(pos + len, None), plain + rest[len..], BadChecksum)
    else
      Step(Receiving(pos + len, None), rest[len..], Got(Packet(plain[..32], plain[32..len - 32], plain[len - 32..])))
  }

  /** One decode call. */
  function DecodeStep(ks: KeyStream, sha: Hash, st: Receiving, src: seq<Byte>): Step {
    match TakeLength(ks, st, src)
    case None => Step(st, src, NeedMore)
    case Some((pos, rest, len)) =>
      if len < 64 then Step(Receiving(pos, None), rest, TooSmall)
      else if |rest| < len then Step(Receiving(pos, Some(len)), rest, NeedMore)
      else OpenBody(ks, sha, pos, rest, len)
  }

  /** The key stream from server to client. */
  function DownKey(basis: seq<Byte>, cipher: (seq<Byte>, seq<Byte>) -> KeyStream): KeyStream
    requires |basis| == 160
  {
    cipher(basis[0..32], basis[64..80])
  }

  /** The key stream from client to server. */
  function UpKey(basis: seq<Byte>, cipher: (seq<Byte>, seq<Byte>) -> KeyStream): KeyStream
    requires |basis| == 160
  {
    cipher(basis[32..64], basis[80..96])
  }

  /** A growable buffer. */
  class BytesMut {
    var data: seq<Byte>

    constructor ()
      ensures data == []
    {
      data := [];
    }

    method Put(s: seq<Byte>)
      modifies this
      ensures data == old(data) + s
    {
      data := data + s;
    }

    method SplitTo(n: nat) returns (s: seq<Byte>)
      requires n <= |data|
      modifies this
      ensures s == old(data[..n]) && data == old(data[n..])
    {
      s := data[..n];
      data := data[n..];
    }
  }

  class PacketCodec {
    const recvKey: KeyStream
    const sendKey: KeyStream
    const sha: Hash
    var recvPos: nat
    var sendPos: nat
    var nextLen: Option<nat>

    /** Both roles take their key streams from one 160-byte secret, with the directions exchanged. */
    constructor FromBytes(basis: seq<Byte>, cipher: (seq<Byte>, seq<Byte>) -> KeyStream, sha: Hash, client: bool)
      requires |basis| == 160
      ensures recvKey == if client then DownKey(basis, cipher) else UpKey(basis, cipher)
      ensures sendKey == if client then UpKey(basis, cipher) else DownKey(basis, cipher)
      ensures this.sha == sha && recvPos == 0 && sendPos == 0 && nextLen == None
    {
      var down, up := DownKey(basis, cipher), UpKey(basis, cipher);
      recvKey := if client then down else up;
      sendKey := if client then up else down;
      this.sha := sha;
      recvPos, sendPos, nextLen := 0, 0, None;
    }

    function State(): Receiving
      reads this
    {
      Receiving(recvPos, nextLen)
    }

    /** Appends the encrypted frame; what the buffer already held is not touched. */
    method Encode(packet: Packet, dst: BytesMut)
      modifies this`sendPos, dst
      ensures dst.data == old(dst.data) + Cipher(sendKey, old(sendPos), Frame(packet))
      ensures sendPos == old(sendPos) + |Frame(packet)|
    {
      var bufSize := |dst.data|;
      var len := |packet.data|;
      dst.Put(LeBytes(len + 64, 4));
      dst.Put(packet.nonce);
      dst.Put(packet.data);
      dst.Put(packet.checksum);
      assert dst.data == old(dst.data) + Frame(packet);
      assert dst.data[..bufSize] == old(dst.data) && dst.data[bufSize..] == Frame(packet);
      dst.data := dst.data[..bufSize] + Cipher(sendKey, sendPos, dst.data[bufSize..]);
      sendPos := sendPos + (|dst.data| - bufSize);
    }

    method Decode(src: BytesMut) returns (r: Decoded)
      modifies this`recvPos, this`nextLen, src
      ensures Step(State(), src.data, r) == DecodeStep(recvKey, sha, old(State()), old(src.data))
    {
      var length: nat;
      if nextLen.Some? {
        length := nextLen.value;
        nextLen := None;
      } else {
        if |src.data| < 4 {
          return NeedMore;
        }
        var bytes := src.SplitTo(4);
        bytes := Cipher(recvKey, recvPos, bytes);
        recvPos := recvPos + 4;
        length := FromLe(bytes);
      }
      if length < 64 {
        return TooSmall;
      }
      if |src.data| < length {
        nextLen := Some(length);
        return NeedMore;
      }
      r := DecodeBody(src, length);
    }

    /** The tail of a decode call, once the whole packet is in the buffer. */
    method DecodeBody(src: BytesMut, length: nat) returns (r: Decoded)
      requires 64 <= length <= |src.data| && nextLen.None?
      modifies this`recvPos, src
      ensures Step(State(), src.data, r) == OpenBody(recvKey, sha, old(recvPos), old(src.data), length)
    {
      var plain := Cipher(recvKey, recvPos, src.data[..length]);
      recvPos := recvPos + length;
      src.data := plain + src.data[length..];
      assert src.data[..length - 32] == plain[..length - 32] && src.data[length - 32..length] == plain[length - 32..];
      if sha(src.data[..length - 32]) != src.data[length - 32..length] {
        return BadChecksum;
      }
      var data := src.SplitTo(length);
      assert data == plain && src.data == old(src.data)[length..];
      assert data[length - 32..length] == plain[length - 32..];
      return Got(Packet(data[..32], data[32..length - 32], data[length - 32..length]));
    }
  }

  // ---------------------------------------------------- decoding a stream

  datatype Drained = Drained(st: Receiving, src: seq<Byte>, packets: seq<Packet>, failed: bool)

  /** Decoding until the buffer holds no further packet, as the framed reader does after each read. */
  function Drain(ks: KeyStream, sha: Hash, st: Receiving, src: seq<Byte>): Drained
    decreases |src|
  {
    var step := DecodeStep(ks, sha, st, src);
    match step.result
    case NeedMore => Drained(step.st, step.src, [], false)
    case Got(p) =>
      var rest := Drain(ks, sha, step.st, step.src);
      rest.(packets := [p] + rest.packets)
    case _ => Drained(step.st, step.src, [], true)
  }

  /** Reading the chunks that arrive one after the other. */
  function Receive(ks: KeyStream, sha: Hash, st: Receiving, src: seq<Byte>, chunks: seq<seq<Byte>>): Drained
    decreases |chunks|
  {
    if chunks == [] then Drained(st, src, [], false)
    else
      var first := Drain(ks, sha, st, src + chunks[0]);
      if first.failed then first
      else
        var rest := Receive(ks, sha, first.st, first.src, chunks[1..]);
        rest.(packets := first.packets + rest.packets)
  }

  function Concat(chunks: seq<seq<Byte>>): seq<Byte> {
    if chunks == [] then [] else chunks[0] + Concat(chunks[1..])
  }

  /** The framed reader on the codec object. */
  method DrainBuffer(codec: PacketCodec, src: BytesMut) returns (packets: seq<Packet>, failed: bool)
    modifies codec`recvPos, codec`nextLen, src
    ensures Drained(codec.State(), src.data, packets, failed) ==
              Drain(codec.recvKey, codec.sha, old(codec.State()), old(src.data))
  {
    packets, failed := [], false;
    ghost var all := Drain(codec.recvKey, codec.sha, codec.State(), src.data);
    var more := true;
    while more
      invariant more ==> !failed
      invariant more ==>
                  var d := Drain(codec.recvKey, codec.sha, codec.State(), src.data);
                  all == d.(packets := packets + d.packets)
      invariant !more ==> all == Drained(codec.State(), src.data, packets, failed)
      decreases more, |src.data|
    {
      ghost var d := Drain(codec.recvKey, codec.sha, codec.State(), src.data);
      var r := codec.Decode(src);
      match r {
        case NeedMore =>
          more := false;
          assert packets + [] == packets;
        case Got(p) =>
          ghost var d' := Drain(codec.recvKey, codec.sha, codec.State(), src.data);
          assert packets + ([p] + d'.packets) == packets + [p] + d'.packets;
          packets := packets + [p];
        case _ =>
          more, failed := false, true;
          assert packets + [] == packets;
      }
    }
  }

  // --------------------------------------- any fragmentation, same packets

  ghost predicate AllSendable(sha: Hash, ps: seq<Packet>) {
    forall i :: 0 <= i < |ps| ==> Sendable(sha, ps[i])
  }

  /** Where the k-th packet starts on the wire. */
  function Offset(ps: seq<Packet>, k: nat): nat
    requires k <= |ps|
  {
    |Wire(ps[..k])|
  }

  /** The wire of all packets has the k-th frame at its offset. */
  lemma {:induction false} WireAt(ps: seq<Packet>, k: nat)
    requires k < |ps|
    ensures Offset(ps, k + 1) == Offset(ps, k) + |Frame(ps[k])| <= |Wire(ps)|
    ensures Wire(ps)[Offset(ps, k)..Offset(ps, k + 1)] == Frame(ps[k])
  {
    var n := |ps| - 1;
    assert ps[..k + 1][..k] == ps[..k];
    if k == n {
      assert ps[..n + 1] == ps;
    } else {
      WireAt(ps[..n], k);
      assert ps[..n][..k] == ps[..k] && ps[..n][..k + 1] == ps[..k + 1];
    }
  }

  lemma {:induction false} WireEnd(ps: seq<Packet>)
    ensures Offset(ps, |ps|) == |Wire(ps)| && Offset(ps, 0) == 0
  {
    assert ps[..|ps|] == ps && ps[..0] == [];
  }

  /** The wire holds the frame of `p` at `off`. */
  ghost predicate FrameAt(sha: Hash, w: seq<Byte>, off: nat, p: Packet) {
    Sendable(sha, p) && off + |Frame(p)| <= |w| && w[off..off + |Frame(p)|] == Frame(p)
  }

  /** The parts of a packet body, as the decoder cuts it. */
  predicate BodyOf(p: Packet, body: seq<Byte>) {
    && |body| == |p.data| + 64
    && body[..|p.data| + 32] == p.nonce + p.data && body[|p.data| + 32..] == p.checksum
    && body[..32] == p.nonce && body[32..|p.data| + 32] == p.data
  }

  lemma {:induction false} FrameBody(p: Packet)
    requires WellFormed(p)
    ensures Frame(p)[..4] == LeBytes(|p.data| + 64, 4) && BodyOf(p, Frame(p)[4..])
  {
    var body := Frame(p)[4..];
    assert body == p.nonce + p.data + p.checksum;
    assert body[..|p.data| + 32] == p.nonce + p.data;
  }

  lemma {:induction false} FrameParts(sha: Hash, w: seq<Byte>, off: nat, p: Packet)
    requires FrameAt(sha, w, off, p)
    ensures |Frame(p)| == 4 + (|p.data| + 64)
    ensures FromLe(w[off..off + 4]) == |p.data| + 64
    ensures BodyOf(p, w[off + 4..off + |Frame(p)|])
  {
    hide LeBytes, FromLe, BodyOf;
    var f := Frame(p);
    FrameBody(p);
    LeRoundTrip(|p.data| + 64, 4);
    assert w[off..off + 4] == w[off..off + |f|][..4];
    assert w[off + 4..off + |f|] == w[off..off + |f|][4..];
  }

  /** The decoder in front of packet `p` at `off`, its length read or not. */
  function Before(off: nat, p: Packet, known: bool): Receiving {
    if known then Receiving(off + 4, Some(|p.data| + 64)) else Receiving(off, None)
  }

  lemma {:induction false} BodyOpens(ks: KeyStream, sha: Hash, w: seq<Byte>, off: nat, p: Packet, n: nat)
    requires FrameAt(sha, w, off, p) && off + |Frame(p)| <= n <= |w|
    ensures 64 <= |p.data| + 64 <= n - (off + 4)
    ensures OpenBody(ks, sha, off + 4, Enc(ks, w, off + 4, n), |p.data| + 64)
         == Step(Receiving(off + |Frame(p)|, None), Enc(ks, w, off + |Frame(p)|, n), Got(p))
  {
    var end := off + |Frame(p)|;
    FrameParts(sha, w, off, p);
    EncSplit(ks, w, off + 4, end, n);
    CipherTwice(ks, off + 4, w[off + 4..end]);
  }

  lemma {:induction false} LengthTaken(ks: KeyStream, sha: Hash, w: seq<Byte>, off: nat, p: Packet, n: nat)
    requires FrameAt(sha, w, off, p) && off + 4 <= n <= |w|
    ensures TakeLength(ks, Before(off, p, false), Enc(ks, w, off, n)) ==
              Some((off + 4, Enc(ks, w, off + 4, n), |p.data| + 64))
  {
    FrameParts(sha, w, off, p);
    EncSplit(ks, w, off, off + 4, n);
    CipherTwice(ks, off, w[off..off + 4]);
  }

  /**
    * One decode call with `n` bytes of the wire arrived: the packet comes out exactly when it has
    * arrived completely; its length is read as soon as its four bytes are there.
    */
  lemma {:induction false} StepAtPacket(ks: KeyStream, sha: Hash, w: seq<Byte>, off: nat, p: Packet, n: nat,
                                        known: bool)
    requires FrameAt(sha, w, off, p) && Before(off, p, known).pos <= n <= |w|
    ensures n >= off + |Frame(p)| ==>
              DecodeStep(ks, sha, Before(off, p, known), Enc(ks, w, Before(off, p, known).pos, n))
              == Step(Receiving(off + |Frame(p)|, None), Enc(ks, w, off + |Frame(p)|, n), Got(p))
    ensures n < off + |Frame(p)| ==>
              DecodeStep(ks, sha, Before(off, p, known), Enc(ks, w, Before(off, p, known).pos, n))
              == Step(Before(off, p, n >= off + 4), Enc(ks, w, Before(off, p, n >= off + 4).pos, n), NeedMore)
  {
    FrameParts(sha, w, off, p);
    if n >= off + 4 {
      LengthTaken(ks, sha, w, off, p, n);
    }
    if n >= off + |Frame(p)| {
      BodyOpens(ks, sha, w, off, p, n);
    }
  }

  /** How many packets the first `n` bytes contain completely, counting from the k-th on. */
  function Complete(ps: seq<Packet>, k: nat, n: nat): (c: nat)
    requires k <= |ps|
    ensures k <= c <= |ps|
    decreases |ps| - k
  {
    if k < |ps| && n >= Offset(ps, k + 1) then Complete(ps, k + 1, n) else k
  }

  /** The decoder in front of the k-th packet, or at the end of the stream. */
  function BeforeNth(ps: seq<Packet>, k: nat, known: bool): Receiving
    requires k <= |ps|
  {
    if k < |ps| then Before(Offset(ps, k), ps[k], known) else Receiving(Offset(ps, k), None)
  }

  /** The decoder's state when it has drained the first `n` bytes: nothing else matters. */
  function StateAt(ps: seq<Packet>, k: nat, n: nat): Receiving
    requires k <= |ps|
  {
    BeforeNth(ps, k, n >= Offset(ps, k) + 4)
  }

  lemma {:induction false} StateInRange(ps: seq<Packet>, k: nat, n: nat)
    requires k <= |ps| && Offset(ps, k) <= n <= |Wire(ps)|
    ensures StateAt(ps, k, n).pos <= n
  {
    if k == |ps| {
      WireEnd(ps);
    }
  }

  lemma {:induction false} CompleteInRange(ps: seq<Packet>, k: nat, n: nat)
    requires k <= |ps| && Offset(ps, k) <= n <= |Wire(ps)|
    ensures Offset(ps, Complete(ps, k, n)) <= n
    ensures StateAt(ps, Complete(ps, k, n), n).pos <= n
    decreases |ps| - k
  {
    if k < |ps| && n >= Offset(ps, k + 1) {
      CompleteInRange(ps, k + 1, n);
    } else {
      StateInRange(ps, k, n);
    }
  }

  /** What the buffer holds in state `st` when `n` bytes of the wire have arrived: they are still encrypted. */
  function Buffered(ks: KeyStream, w: seq<Byte>, st: Receiving, n: nat): seq<Byte> {
    if st.pos <= n <= |w| then Enc(ks, w, st.pos, n) else []
  }

  /** Everything there is to see once `n` bytes have been drained, the first `k` packets being out before. */
  function Outcome(ks: KeyStream, ps: seq<Packet>, k: nat, n: nat): Drained
    requires k <= |ps|
  {
    var c := Complete(ps, k, n);
    Drained(StateAt(ps, c, n), Buffered(ks, Wire(ps), StateAt(ps, c, n), n), ps[k..c], false)
  }

  lemma {:induction false} SliceJoin<T>(s: seq<T>, i: nat, j: nat, k: nat)
    requires i <= j <= k <= |s|
    ensures s[i..j] + s[j..k] == s[i..k]
    ensures i < j ==> s[i..k] == [s[i]] + s[i + 1..k]
  {
  }

  lemma {:induction false} DrainAtEnd(ks: KeyStream, sha: Hash, ps: seq<Packet>, n: nat)
    requires n == |Wire(ps)|
    ensures Drain(ks, sha, BeforeNth(ps, |ps|, false), Buffered(ks, Wire(ps), BeforeNth(ps, |ps|, false), n)) ==
              Outcome(ks, ps, |ps|, n)
  {
    WireEnd(ps);
  }

  lemma {:induction false} OutcomeStep(ks: KeyStream, ps: seq<Packet>, k: nat, n: nat)
    requires k < |ps|
    ensures n >= Offset(ps, k + 1) ==>
              Outcome(ks, ps, k, n) ==
                  Outcome(ks, ps, k + 1, n).(packets := [ps[k]] + Outcome(ks, ps, k + 1, n).packets)
    ensures n < Offset(ps, k + 1) ==>
              Outcome(ks, ps, k, n) ==
                  Drained(StateAt(ps, k, n), Buffered(ks, Wire(ps), StateAt(ps, k, n), n), [], false)
  {
    if n >= Offset(ps, k + 1) {
      SliceJoin(ps, k, k + 1, Complete(ps, k + 1, n));
    }
  }

  /** A decode call in front of the k-th packet. */
  lemma {:induction false} StepAtNth(ks: KeyStream, sha: Hash, ps: seq<Packet>, k: nat, n: nat, known: bool)
    requires AllSendable(sha, ps) && k < |ps| && BeforeNth(ps, k, known).pos <= n <= |Wire(ps)|
    ensures DecodeStep(ks, sha, BeforeNth(ps, k, known), Buffered(ks, Wire(ps), BeforeNth(ps, k, known), n))
         == if n >= Offset(ps, k + 1)
            then Step(BeforeNth(ps, k + 1, false), Buffered(ks, Wire(ps), BeforeNth(ps, k + 1, false), n), Got(ps[k]))
            else Step(StateAt(ps, k, n), Buffered(ks, Wire(ps), StateAt(ps, k, n), n), NeedMore)
  {
    WireAt(ps, k);
    StepAtPacket(ks, sha, Wire(ps), Offset(ps, k), ps[k], n, known);
  }

  /** Draining after `n` bytes, from in front of the k-th packet. */
  lemma {:induction false} DrainAt(ks: KeyStream, sha: Hash, ps: seq<Packet>, k: nat, n: nat, known: bool)
    requires AllSendable(sha, ps) && k <= |ps| && BeforeNth(ps, k, known).pos <= n <= |Wire(ps)|
    ensures Drain(ks, sha, BeforeNth(ps, k, known), Buffered(ks, Wire(ps), BeforeNth(ps, k, known), n)) ==
              Outcome(ks, ps, k, n)
    decreases |ps| - k
  {
    if k == |ps| {
      WireEnd(ps);
      DrainAtEnd(ks, sha, ps, n);
    } else {
      StepAtNth(ks, sha, ps, k, n, known);
      OutcomeStep(ks, ps, k, n);
      if n >= Offset(ps, k + 1) {
        DrainAt(ks, sha, ps, k + 1, n, false);
      }
    }
  }

  lemma {:induction false} CompleteFrom(ps: seq<Packet>, k: nat, n: nat, n': nat)
    requires k <= |ps| && n <= n'
    ensures Complete(ps, Complete(ps, k, n), n') == Complete(ps, k, n')
    decreases |ps| - k
  {
    if k < |ps| && n >= Offset(ps, k + 1) {
      CompleteFrom(ps, k + 1, n, n');
    }
  }

  lemma {:induction false} FirstChunk(ks: KeyStream, w: seq<Byte>, n: nat, n': nat, chunks: seq<seq<Byte>>)
    returns (m: nat)
    requires n <= n' <= |w| && chunks != [] && Concat(chunks) == Enc(ks, w, n, n')
    ensures n <= m <= n' && chunks[0] == Enc(ks, w, n, m) && Concat(chunks[1..]) == Enc(ks, w, m, n')
  {
    m := n + |chunks[0]|;
    assert |Concat(chunks)| == |chunks[0]| + |Concat(chunks[1..])|;
    EncSplit(ks, w, n, m, n');
    assert Concat(chunks)[..|chunks[0]|] == chunks[0] && Concat(chunks)[|chunks[0]|..] == Concat(chunks[1..]);
  }

  lemma {:induction false} ChunkJoins(ks: KeyStream, w: seq<Byte>, st: Receiving, n: nat, m: nat)
    requires st.pos <= n <= m <= |w|
    ensures Buffered(ks, w, st, n) + Enc(ks, w, n, m) == Buffered(ks, w, st, m)
  {
    EncSplit(ks, w, st.pos, n, m);
  }

  /** Receiving the encrypted bytes n..n' of the wire in any chunks, with the first `n` bytes drained. */
  lemma {:induction false} ReceiveAt(ks: KeyStream, sha: Hash, ps: seq<Packet>, k: nat, n: nat, n': nat,
                                     chunks: seq<seq<Byte>>)
    requires AllSendable(sha, ps) && k <= |ps| && k == Complete(ps, k, n) && StateAt(ps, k, n).pos <= n
    requires Offset(ps, k) <= n <= n' <= |Wire(ps)| && Concat(chunks) == Enc(ks, Wire(ps), n, n')
    ensures Receive(ks, sha, StateAt(ps, k, n), Buffered(ks, Wire(ps), StateAt(ps, k, n), n), chunks) ==
              Outcome(ks, ps, k, n')
    decreases |chunks|
  {
    if chunks == [] {
      assert n' == n && ps[k..k] == [];
    } else {
      var m := FirstChunk(ks, Wire(ps), n, n', chunks);
      ChunkJoins(ks, Wire(ps), StateAt(ps, k, n), n, m);
      DrainAt(ks, sha, ps, k, m, n >= Offset(ps, k) + 4);
      var k' := Complete(ps, k, m);
      CompleteInRange(ps, k, m);
      CompleteFrom(ps, k, m, m);
      ReceiveAt(ks, sha, ps, k', m, n', chunks[1..]);
      CompleteFrom(ps, k, m, n');
      SliceJoin(ps, k, k', Complete(ps, k, n'));
    }
  }

  const FRESH: Receiving := Receiving(0, None)

  lemma {:induction false} StartsFresh(ks: KeyStream, ps: seq<Packet>)
    ensures Complete(ps, 0, 0) == 0 && Offset(ps, 0) == 0
    ensures StateAt(ps, 0, 0) == FRESH && Buffered(ks, Wire(ps), FRESH, 0) == []
  {
    WireEnd(ps);
    if |ps| > 0 {
      WireAt(ps, 0);
    }
  }

  /**
    * Whatever part of the encrypted stream has arrived, and however it was cut into chunks, the
    * decoder has yielded exactly the packets wholly contained in it, in order, without failing,
    * and its state depends only on how many bytes have arrived.
    */
  lemma {:induction false} AnyFragmentation(ks: KeyStream, sha: Hash, ps: seq<Packet>, chunks: seq<seq<Byte>>)
    requires AllSendable(sha, ps) && Concat(chunks) <= Cipher(ks, 0, Wire(ps))
    ensures var c := Complete(ps, 0, |Concat(chunks)|);
            var d := Receive(ks, sha, FRESH, [], chunks);
            !d.failed && d.packets == ps[..c] && d.st == StateAt(ps, c, |Concat(chunks)|)
  {
    var n := |Concat(chunks)|;
    CipherSlice(ks, 0, Wire(ps), n);
    assert Wire(ps)[0..n] == Wire(ps)[..n];
    StartsFresh(ks, ps);
    ReceiveAt(ks, sha, ps, 0, 0, n, chunks);
  }

  lemma {:induction false} AllComplete(ps: seq<Packet>, k: nat)
    requires k <= |ps|
    ensures Complete(ps, k, |Wire(ps)|) == |ps|
    decreases |ps| - k
  {
    if k < |ps| {
      WireAt(ps, k);
      AllComplete(ps, k + 1);
    }
  }

  /** When everything has arrived, all packets are out and the decoder stands where the encoder stands. */
  lemma {:induction false} AllDelivered(ks: KeyStream, sha: Hash, ps: seq<Packet>, chunks: seq<seq<Byte>>)
    requires AllSendable(sha, ps) && Concat(chunks) == Cipher(ks, 0, Wire(ps))
    ensures Receive(ks, sha, FRESH, [], chunks) == Drained(Receiving(|Wire(ps)|, None), [], ps, false)
  {
    var n := |Wire(ps)|;
    assert Wire(ps)[0..n] == Wire(ps);
    WireEnd(ps);
    StartsFresh(ks, ps);
    AllComplete(ps, 0);
    ReceiveAt(ks, sha, ps, 0, 0, n, chunks);
    assert ps[0..|ps|] == ps && Enc(ks, Wire(ps), n, n) == [];
  }

  // --------------------------------------------------------------- sessions

  /** A further frame continues the cipher stream where the frames before it ended. */
  lemma {:induction false} EncodedStream(ks: KeyStream, at: nat, ps: seq<Packet>, p: Packet)
    ensures Cipher(ks, at, Wire(ps + [p])) == Cipher(ks, at, Wire(ps)) + Cipher(ks, at + |Wire(ps)|, Frame(p))
    ensures |Wire(ps + [p])| == |Wire(ps)| + |Frame(p)|
  {
    assert (ps + [p])[..|ps|] == ps;
    CipherConcat(ks, at, Wire(ps), Frame(p));
  }

  /** Successive encode calls put the cipher of the frames on the wire and move the sender by their length. */
  method EncodeAll(codec: PacketCodec, ps: seq<Packet>, dst: BytesMut)
    modifies codec`sendPos, dst
    ensures dst.data == old(dst.data) + Cipher(codec.sendKey, old(codec.sendPos), Wire(ps))
    ensures codec.sendPos == old(codec.sendPos) + |Wire(ps)|
  {
    ghost var was, at := dst.data, codec.sendPos;
    for i := 0 to |ps|
      invariant dst.data == was + Cipher(codec.sendKey, at, Wire(ps[..i])) && codec.sendPos == at + |Wire(ps[..i])|
    {
      assert ps[..i + 1] == ps[..i] + [ps[i]];
      EncodedStream(codec.sendKey, at, ps[..i], ps[i]);
      codec.Encode(ps[i], dst);
    }
    assert ps[..|ps|] == ps;
  }

  /** Chunks arrive one after the other, and the buffer is drained after each. */
  method ReceiveChunks(codec: PacketCodec, src: BytesMut, chunks: seq<seq<Byte>>)
    returns (packets: seq<Packet>, failed: bool)
    modifies codec`recvPos, codec`nextLen, src
    ensures Drained(codec.State(), src.data, packets, failed)
         == Receive(codec.recvKey, codec.sha, old(codec.State()), old(src.data), chunks)
  {
    packets, failed := [], false;
    ghost var all := Receive(codec.recvKey, codec.sha, codec.State(), src.data, chunks);
    var k := 0;
    while k < |chunks| && !failed
      invariant 0 <= k <= |chunks|
      invariant failed ==> all == Drained(codec.State(), src.data, packets, true)
      invariant !failed ==>
                  var d := Receive(codec.recvKey, codec.sha, codec.State(), src.data, chunks[k..]);
                  all == d.(packets := packets + d.packets)
      decreases |chunks| - k, !failed
    {
      assert chunks[k..][1..] == chunks[k + 1..];
      ghost var before := packets;
      src.Put(chunks[k]);
      var more: seq<Packet>;
      more, failed := DrainBuffer(codec, src);
      packets := packets + more;
      ghost var rest := Receive(codec.recvKey, codec.sha, codec.State(), src.data, chunks[k + 1..]);
      assert before + (more + rest.packets) == packets + rest.packets;
      k := k + 1;
    }
  }

  /**
    * A client and a server made from the same secret: whatever one side sends, in whatever chunks it
    * arrives, the other side yields exactly the packets sent, and both stand at the same position of
    * the same key stream.
    */
  method Session(basis: seq<Byte>, cipher: (seq<Byte>, seq<Byte>) -> KeyStream, sha: Hash, fromClient: bool,
                 ps: seq<Packet>, cut: seq<Byte> -> seq<seq<Byte>>)
    returns (sender: PacketCodec, receiver: PacketCodec, got: seq<Packet>, failed: bool)
    requires |basis| == 160 && AllSendable(sha, ps)
    requires forall s :: Concat(cut(s)) == s
    ensures sender.sendKey == receiver.recvKey && sender.recvKey == receiver.sendKey
    ensures !failed && got == ps
    ensures receiver.recvPos == sender.sendPos == |Wire(ps)| && receiver.nextLen == None
  {
    sender := new PacketCodec.FromBytes(basis, cipher, sha, fromClient);
    receiver := new PacketCodec.FromBytes(basis, cipher, sha, !fromClient);
    var dst := new BytesMut();
    EncodeAll(sender, ps, dst);
    ghost var wire := Cipher(sender.sendKey, 0, Wire(ps));
    assert dst.data == wire;
    var chunks := cut(dst.data);
    AllDelivered(receiver.recvKey, sha, ps, chunks);
    var src := new BytesMut();
    got, failed := ReceiveChunks(receiver, src, chunks);
  }

  /**
    * A single packet survives the trip exactly when its checksum is the digest of nonce and data
    * and its length fits the 32-bit prefix.
    */
  lemma {:induction false} PacketRoundTripIff(ks: KeyStream, sha: Hash, p: Packet)
    requires WellFormed(p)
    ensures DecodeStep(ks, sha, FRESH, Cipher(ks, 0, Frame(p))).result == Got(p) <==> Sendable(sha, p)
  {
    var f := Frame(p);
    assert f[0..|f|] == f && f[0..4] == f[..4] == LeBytes(|p.data| + 64, 4);
    if Sendable(sha, p) {
      StepAtPacket(ks, sha, f, 0, p, |f|, false);
    } else {
      CipherSlice(ks, 0, f, 4);
      CipherTwice(ks, 0, f[..4]);
      LeRoundTrip(|p.data| + 64, 4);
      WrongLengthOrDigest(ks, sha, p);
    }
  }

  lemma {:induction false} WrongLengthOrDigest(ks: KeyStream, sha: Hash, p: Packet)
    requires WellFormed(p) && !Sendable(sha, p)
    requires FromLe(Cipher(ks, 0, Cipher(ks, 0, Frame(p))[..4])) == (|p.data| + 64) % U32
    ensures DecodeStep(ks, sha, FRESH, Cipher(ks, 0, Frame(p))).result != Got(p)
  {
    var f := Frame(p);
    var src := Cipher(ks, 0, f);
    if |p.data| + 64 < U32 {
      var len := |p.data| + 64;
      CipherSlice(ks, 0, f, 4);
      CipherTwice(ks, 4, f[4..]);
      assert src[4..][..len] == src[4..];
      assert f[4..] == p.nonce + p.data + p.checksum;
      assert f[4..][..len - 32] == p.nonce + p.data && f[4..][len - 32..] == p.checksum;
    }
  }
}
