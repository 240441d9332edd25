/** The ring buffer of lib/kfifo.c, for one producer and one consumer that run in parallel: taking the measure of
    the buffer, copying, and moving the index are separate steps, which may interleave in any way.  What has been
    read is always a prefix of what has been written, though the indices wrap at 2^64 and copies fold at the end. */
module Kfifo {
  import opened Words

  type Byte = bv8

  // ----- where the bytes are -----

  lemma {:induction false} SlotAt(b: nat, i: nat, cap: nat)
    requires i < cap
    ensures Rem(b + i, cap) == if Rem(b, cap) + i < cap then Rem(b, cap) + i else Rem(b, cap) + i - cap
  {
    hide Div; hide Rem;
    DivRem(b, cap);
    if Rem(b, cap) + i < cap {
      DivRemIs(b + i, cap, Div(b, cap), Rem(b, cap) + i);
    } else {
      DivRemIs(b + i, cap, Div(b, cap) + 1, Rem(b, cap) + i - cap);
    }
  }

  /** A remainder of elements, in bytes. */
  lemma {:induction false} SlotScales(a: nat, size: nat, esize: nat)
    requires size > 0 && esize > 0
    ensures Bytes(size, esize) > 0 && Bytes(Rem(a, size), esize) == Rem(Bytes(a, esize), Bytes(size, esize))
    ensures Bytes(Rem(a, size), esize) < Bytes(size, esize)
  {
    hide Div; hide Rem;
    DivRem(a, size);
    var q, r := Div(a, size), Rem(a, size);
    assert a * esize == (q * size) * esize + r * esize;
    assert (q * size) * esize == q * (size * esize);
    Larger(esize, r + 1, size);
    assert (r + 1) * esize == r * esize + esize;
    DivRemIs(a * esize, size * esize, q, r * esize);
  }

  /** The indices wrap at a multiple of the size. */
  lemma {:induction false} SlotWraps(a: nat, k: nat)
    requires k <= 64
    ensures And(Wrap(a), Pow2(k) - 1) == Rem(a, Pow2(k))
  {
    hide Div; hide Rem; hide And; hide Pow2;
    LowBits(Wrap(a), k);
    DivRem(Wrap(a), Pow2(k));
    Pow32();
    PowSum(64 - k, k);
    var p, q := Pow2(k), Pow2(64 - k);
    var d := a / U64;
    assert a == d * (q * p) + Wrap(a);
    assert d * (q * p) == (d * q) * p;
    assert (d * q + Div(Wrap(a), p)) * p == (d * q) * p + Div(Wrap(a), p) * p;
    DivRemIs(a, p, d * q + Div(Wrap(a), p), Rem(Wrap(a), p));
  }

  /** The ring after bytes are copied to it from an offset on, folded at its end. */
  ghost function Poured(ring: seq<Byte>, off: nat, bytes: seq<Byte>): (r: seq<Byte>)
    requires |bytes| <= |ring| && off < |ring|
    ensures |r| == |ring|
  {
    seq(|ring|, p requires 0 <= p < |ring| =>
      if p + |ring| - off < |bytes| then bytes[p + |ring| - off]
      else if off <= p < off + |bytes| then bytes[p - off]
      else ring[p])
  }

  /** From position at of the stream on, the ring holds s. */
  ghost predicate Holds(ring: seq<Byte>, at: nat, s: seq<Byte>) {
    && ring != []
    && forall p: nat :: at <= p < at + |s| ==> Rem(p, |ring|) < |ring| && ring[Rem(p, |ring|)] == s[p - at]
  }

  lemma {:induction false} HoldsBoth(ring: seq<Byte>, at: nat, s: seq<Byte>, t: seq<Byte>)
    requires Holds(ring, at, s) && Holds(ring, at + |s|, t)
    ensures Holds(ring, at, s + t)
  {
    hide Rem;
  }

  lemma {:induction false} HoldsLess(ring: seq<Byte>, at: nat, s: seq<Byte>, n: nat)
    requires Holds(ring, at, s) && n <= |s|
    ensures Holds(ring, at + n, s[n..])
  {
    hide Rem;
  }

  lemma {:induction false} HoldsPoured(ring: seq<Byte>, at: nat, bytes: seq<Byte>)
    requires ring != [] && |bytes| <= |ring|
    ensures Rem(at, |ring|) < |ring| && Holds(Poured(ring, Rem(at, |ring|), bytes), at, bytes)
  {
    hide Rem;
    DivRem(at, |ring|);
    var r := Poured(ring, Rem(at, |ring|), bytes);
    forall p: nat | at <= p < at + |bytes| ensures Rem(p, |r|) < |r| && r[Rem(p, |r|)] == bytes[p - at] {
      DivRem(p, |ring|);
      SlotAt(at, p - at, |ring|);
    }
  }

  /** What is not read yet is not overwritten, as long as it fits the ring together with the new bytes. */
  lemma {:induction false} HoldsOn(ring: seq<Byte>, at: nat, s: seq<Byte>, bytes: seq<Byte>)
    requires Holds(ring, at, s) && |s| + |bytes| <= |ring|
    ensures Rem(at + |s|, |ring|) < |ring| && Holds(Poured(ring, Rem(at + |s|, |ring|), bytes), at, s)
  {
    hide Rem;
    DivRem(at + |s|, |ring|);
    var r := Poured(ring, Rem(at + |s|, |ring|), bytes);
    forall p: nat | at <= p < at + |s| ensures Rem(p, |r|) < |r| && r[Rem(p, |r|)] == s[p - at] {
      DivRem(p, |ring|);
      if at + |s| - p < |ring| {
        SlotAt(p, at + |s| - p, |ring|);
      }
    }
  }

  /** One more byte of a copy leaves the unread bytes and those copied before. */
  lemma {:induction false} OneByte(ring: seq<Byte>, at: nat, s: seq<Byte>, t: seq<Byte>, b: Byte)
    requires Holds(ring, at, s) && Holds(ring, at + |s|, t) && |s| + |t| < |ring|
    ensures var p := Rem(at + |s| + |t|, |ring|);
      p < |ring| && Holds(ring[p := b], at, s) && Holds(ring[p := b], at + |s|, t + [b])
  {
    hide Rem; hide Poured;
    var p := Rem(at + |s| + |t|, |ring|);
    HoldsBoth(ring, at, s, t);
    HoldsOn(ring, at, s + t, [b]);
    HoldsPoured(ring, at + |s| + |t|, [b]);
    PouredOne(ring, p, b);
    HoldsParts(ring[p := b], at, s, t);
    HoldsBoth(ring[p := b], at + |s|, t, [b]);
  }

  lemma {:induction false} PouredOne(ring: seq<Byte>, p: nat, b: Byte)
    requires p < |ring|
    ensures Poured(ring, p, [b]) == ring[p := b]
  {
  }

  lemma {:induction false} HoldsParts(ring: seq<Byte>, at: nat, s: seq<Byte>, t: seq<Byte>)
    requires Holds(ring, at, s + t)
    ensures Holds(ring, at, s) && Holds(ring, at + |s|, t)
  {
    hide Rem;
  }

  lemma {:induction false} HoldsAt(ring: seq<Byte>, at: nat, s: seq<Byte>, i: nat)
    requires Holds(ring, at, s) && i < |s|
    ensures Rem(at + i, |ring|) < |ring| && ring[Rem(at + i, |ring|)] == s[i]
  {
    hide Rem;
  }

  /** The bytes from an offset of the ring on, folded at its end. */
  ghost function Drawn(ring: seq<Byte>, off: nat, n: nat): (r: seq<Byte>)
    requires n <= |ring| && off < |ring|
    ensures |r| == n
  {
    seq(n, i requires 0 <= i < n => if off + i < |ring| then ring[off + i] else ring[off + i - |ring|])
  }

  lemma {:induction false} HoldsDrawn(ring: seq<Byte>, at: nat, s: seq<Byte>, n: nat)
    requires Holds(ring, at, s) && n <= |s| && n <= |ring|
    ensures Rem(at, |ring|) < |ring| && Drawn(ring, Rem(at, |ring|), n) == s[..n]
  {
    hide Rem;
    DivRem(at, |ring|);
    var r := Drawn(ring, Rem(at, |ring|), n);
    forall i | 0 <= i < n ensures r[i] == s[i] {
      SlotAt(at, i, |ring|);
      assert Rem(at + i, |ring|) < |ring|;
    }
  }

  method Memcpy(dst: array<Byte>, d: nat, src: array<Byte>, s: nat, n: nat)
    requires dst != src && d + n <= dst.Length && s + n <= src.Length
    modifies dst
    ensures dst[..] == old(dst[..])[..d] + src[s..s + n] + old(dst[..])[d + n..]
  {
    ghost var was := dst[..];
    var i := 0;
    while i < n
      invariant 0 <= i <= n
      invariant forall p :: d <= p < d + i ==> dst[p] == src[p - d + s]
      invariant forall p :: 0 <= p < d || d + i <= p < dst.Length ==> dst[p] == was[p]
    {
      dst[d + i] := src[s + i];
      i := i + 1;
    }
    assert dst[..] == was[..d] + src[s..s + n] + was[d + n..];
  }

  function Min(x: nat, y: nat): nat {
    if x < y then x else y
  }

  /** What each side is about to do. */
  datatype Producer = Idle | Reserved(n: nat) | Copying(n: nat, bytes: seq<Byte>, done: nat) | Copied(n: nat, bytes: seq<Byte>)
  datatype Consumer = Resting | Sized(n: nat) | Taking(n: nat, got: seq<Byte>) | Taken(n: nat, bytes: seq<Byte>)

  class Fifo {
    var inAt: nat
    var outAt: nat
    const mask: nat
    const esize: nat
    const data: array<Byte>

    /** All bytes ever written and read, and the same counted in elements; and where the two sides stand. */
    ghost var written: seq<Byte>
    ghost var read: seq<Byte>
    ghost var ins: nat
    ghost var outs: nat
    ghost var producer: Producer
    ghost var consumer: Consumer
    ghost const k: nat

    ghost predicate Shape()
    {
      && 1 <= k < 64 && mask == Pow2(k) - 1 && mask + 1 < U64 && esize > 0
      && Bytes(mask + 1, esize) == data.Length < U64
    }

    ghost predicate Counters()
      reads this
    {
      && inAt == Wrap(ins) && outAt == Wrap(outs) && outs <= ins <= outs + mask + 1
      && |written| == Bytes(ins, esize) && |read| == Bytes(outs, esize) && |read| <= |written|
      && read == written[..|read|]
    }

    /** The bytes written and not read are in the ring. */
    ghost predicate Kept()
      reads this, data
    {
      |read| <= |written| && Holds(data[..], |read|, written[|read|..])
    }

    ghost predicate ProducerOK()
      reads this, data
    {
      match producer
      case Idle => true
      case Reserved(n) => ins + n <= outs + mask + 1
      case Copying(n, bytes, done) =>
        && ins + n <= outs + mask + 1 && |bytes| == Bytes(n, esize) && done <= |bytes|
        && Holds(data[..], |written|, bytes[..done])
      case Copied(n, bytes) =>
        && ins + n <= outs + mask + 1 && |bytes| == Bytes(n, esize)
        && Holds(data[..], |written|, bytes)
    }

    ghost predicate ConsumerOK()
      reads this
    {
      match consumer
      case Resting => true
      case Sized(n) => outs + n <= ins
      case Taking(n, got) =>
        && outs + n <= ins && |got| <= Bytes(n, esize)
        && |read| + |got| <= |written| && got == written[|read|..|read| + |got|]
      case Taken(n, bytes) =>
        && outs + n <= ins && |bytes| == Bytes(n, esize)
        && |read| + |bytes| <= |written| && bytes == written[|read|..|read| + |bytes|]
    }

    ghost predicate Valid()
      reads this, data
    {
      Shape() && Counters() && Kept() && ProducerOK() && ConsumerOK()
    }

    // ----- copying; no product wraps, for the whole ring is smaller than 2^64 -----

    /** The scaling to bytes at the head of KFIFO_GENERIC_COPY. */
    method Scale(len0: nat, offset0: nat) returns (len: nat, offset: nat, size: nat)
      requires Shape() && len0 <= mask + 1
      ensures len == Bytes(len0, esize) <= size && offset == Bytes(Rem(offset0, mask + 1), esize) < size && size == data.Length
    {
      hide Rem; hide And; hide Pow2; hide Bytes; hide Holds;
      BytesOne(len0);
      BytesOne(Rem(offset0, mask + 1));
      BytesOne(mask + 1);
      size, offset, len := mask + 1, And(offset0, mask), len0;
      LowBits(offset0, k);
      Extent(offset0, len0, mask + 1, esize);
      if esize != 1 {
        offset := Bytes(offset, esize);
        size := Bytes(size, esize);
        len := Bytes(len, esize);
      }
    }

    /** kfifo_in_copy */
    method CopyIn(buff: array<Byte>, len0: nat, offset0: nat)
      requires Shape() && buff != data && len0 <= mask + 1 && Bytes(len0, esize) <= buff.Length
      modifies data
      ensures Bytes(Rem(offset0, mask + 1), esize) < data.Length && Bytes(len0, esize) <= data.Length
      ensures data[..] == Poured(old(data[..]), Bytes(Rem(offset0, mask + 1), esize), buff[..Bytes(len0, esize)])
    {
      hide Rem; hide Shape; hide Bytes; hide Poured;
      var len, offset, size := Scale(len0, offset0);
      PourBytes(buff, data, len, offset);
    }

    /** kfifo_out_copy */
    method CopyOut(buff: array<Byte>, len0: nat, offset0: nat)
      requires Shape() && buff != data && len0 <= mask + 1 && Bytes(len0, esize) <= buff.Length
      modifies buff
      ensures Bytes(Rem(offset0, mask + 1), esize) < data.Length && Bytes(len0, esize) <= data.Length
      ensures buff[..] == Drawn(data[..], Bytes(Rem(offset0, mask + 1), esize), Bytes(len0, esize)) + old(buff[..])[Bytes(len0, esize)..]
    {
      hide Rem; hide Shape; hide Bytes; hide Drawn;
      var len, offset, size := Scale(len0, offset0);
      DrawBytes(buff, data, len, offset);
    }

    // ----- the producer's steps -----

    /** kfifo_in_flat measures the room. */
    method InReserve(len: nat) returns (n: nat)
      requires Valid() && producer == Idle
      modifies this`producer
      ensures Valid() && n == Min(len, mask + 1 - (ins - outs)) && producer == Reserved(n)
    {
      hide Wrap; hide WrapSub; hide Rem; hide Bytes; hide Pow2;
      WrapDistance(ins, outs);
      n := Min(len, mask + 1 - WrapSub(inAt, outAt));
      producer := Reserved(n);
    }

    /** It copies. */
    method InCopy(buff: array<Byte>, n: nat)
      requires Valid() && producer == Reserved(n) && buff != data && Bytes(n, esize) <= buff.Length
      modifies this`producer, data
      ensures Valid() && producer == Copied(n, buff[..Bytes(n, esize)])
    {
      hide Wrap; hide Rem; hide Poured; hide Pow2; hide Bytes; hide Holds;
      ghost var ring, bytes := data[..], buff[..Bytes(n, esize)];
      Room(ins, outs, n, mask + 1, esize);
      OffsetIs(inAt, ins, k, esize);
      CopyIn(buff, n, inAt);
      producer := Copied(n, bytes);
      HoldsPoured(ring, |written|, bytes);
      HoldsOn(ring, |read|, written[|read|..], bytes);
    }

    // The same copy byte by byte, with the other side free to step in between.

    method InStart(buff: array<Byte>, n: nat)
      requires Valid() && producer == Reserved(n) && Bytes(n, esize) <= buff.Length
      modifies this`producer
      ensures Valid() && producer == Copying(n, buff[..Bytes(n, esize)], 0)
    {
      hide Wrap; hide Rem; hide Pow2; hide Bytes;
      producer := Copying(n, buff[..Bytes(n, esize)], 0);
    }

    method InByte(b: Byte, done: nat)
      requires Valid() && producer.Copying? && done == producer.done < |producer.bytes| && b == producer.bytes[done]
      modifies this`producer, data
      ensures Valid() && producer == Copying(old(producer).n, old(producer).bytes, done + 1)
    {
      hide Wrap; hide Rem; hide Poured; hide Pow2; hide Bytes; hide Holds;
      ghost var n, bytes := producer.n, producer.bytes;
      ghost var ring := data[..];
      Room(ins, outs, n, mask + 1, esize);
      var at := NextSlot(inAt, done, ins);
      OneByte(ring, |read|, written[|read|..], bytes[..done], b);
      data[at] := b;
      producer := Copying(n, bytes, done + 1);
      assert data[..] == ring[at := b];
      assert bytes[..done + 1] == bytes[..done] + [b];
    }

    method InDone()
      requires Valid() && producer.Copying? && producer.done == |producer.bytes|
      modifies this`producer
      ensures Valid() && producer == Copied(old(producer).n, old(producer).bytes)
    {
      hide Wrap; hide Rem; hide Pow2; hide Bytes; hide Holds;
      assert producer.bytes[..producer.done] == producer.bytes;
      producer := Copied(producer.n, producer.bytes);
    }

    /** Where byte number done of a copy from an index on lies. */
    method NextSlot(index: nat, done: nat, ghost count: nat) returns (at: nat)
      requires Shape() && index == Wrap(count) && done < data.Length
      ensures at < data.Length && at == Rem(Bytes(count, esize) + done, data.Length)
    {
      hide Wrap; hide Rem; hide Pow2; hide Bytes; hide And;
      LowBits(index, k);
      OffsetIs(index, count, k, esize);
      SlotScales(count, mask + 1, esize);
      SlotAt(Bytes(count, esize), done, data.Length);
      DivRem(Bytes(count, esize), data.Length);
      var offset := Bytes(And(index, mask), esize);
      at := if offset + done < data.Length then offset + done else offset + done - data.Length;
    }

    /** It moves the index behind what it copied. */
    method InPublish(n: nat)
      requires Valid() && producer.Copied? && producer.n == n
      modifies this`inAt, this`written, this`ins, this`producer
      ensures Valid() && producer == Idle && written == old(written) + old(producer.bytes) && ins == old(ins) + n
    {
      hide Wrap; hide Rem; hide Pow2; hide Bytes; hide Holds;
      ghost var bytes := producer.bytes;
      BytesSum(ins, n, esize);
      WrapSum(ins, n);
      ghost var before := written;
      HoldsBoth(data[..], |read|, written[|read|..], bytes);
      inAt := Wrap(inAt + n);
      ins := ins + n;
      written := written + bytes;
      producer := Idle;
      assert before[|read|..] + bytes == written[|read|..];
      SliceStays(before, bytes, 0, |read|);
      if consumer.Taken? {
        SliceStays(before, bytes, |read|, |read| + |consumer.bytes|);
      } else if consumer.Taking? {
        SliceStays(before, bytes, |read|, |read| + |consumer.got|);
      }
    }

    // ----- the consumer's steps -----

    /** kfifo_peek_flat measures what there is. */
    method OutReserve(len: nat) returns (n: nat)
      requires Valid() && consumer == Resting
      modifies this`consumer
      ensures Valid() && n == Min(len, ins - outs) && consumer == Sized(n)
    {
      hide Wrap; hide WrapSub; hide Rem; hide Bytes; hide Pow2;
      WrapDistance(ins, outs);
      n := Min(len, WrapSub(inAt, outAt));
      consumer := Sized(n);
    }

    /** It copies. */
    method OutCopy(buff: array<Byte>, n: nat)
      requires Valid() && consumer == Sized(n) && buff != data && Bytes(n, esize) <= buff.Length
      modifies this`consumer, buff
      ensures Valid() && consumer == Taken(n, buff[..Bytes(n, esize)])
      ensures buff[Bytes(n, esize)..] == old(buff[..])[Bytes(n, esize)..]
    {
      hide Wrap; hide Rem; hide Drawn; hide Pow2; hide Bytes; hide Holds;
      Room(outs, outs, n, mask + 1, esize);
      BytesSum(outs, n, esize);
      BytesMost(outs + n, ins, esize);
      OffsetIs(outAt, outs, k, esize);
      CopyOut(buff, n, outAt);
      HoldsDrawn(data[..], |read|, written[|read|..], Bytes(n, esize));
      consumer := Taken(n, buff[..Bytes(n, esize)]);
    }

    // The same copy byte by byte.

    method OutStart(n: nat)
      requires Valid() && consumer == Sized(n)
      modifies this`consumer
      ensures Valid() && consumer == Taking(n, [])
    {
      hide Wrap; hide Rem; hide Pow2; hide Bytes; hide Holds;
      consumer := Taking(n, []);
    }

    /** The byte read is the next one of what was written, whatever the producer is about. */
    method OutByte(done: nat) returns (b: Byte)
      requires Valid() && consumer.Taking? && done == |consumer.got| < Bytes(consumer.n, esize)
      modifies this`consumer
      ensures Valid() && consumer == Taking(old(consumer).n, old(consumer).got + [b])
      ensures |read| + |old(consumer).got| < |written| && b == written[|read| + |old(consumer).got|]
    {
      hide Wrap; hide Rem; hide Pow2; hide Bytes; hide Holds;
      ghost var n, got := consumer.n, consumer.got;
      Room(outs, outs, n, mask + 1, esize);
      BytesSum(outs, n, esize);
      BytesMost(outs + n, ins, esize);
      var at := NextSlot(outAt, done, outs);
      HoldsAt(data[..], |read|, written[|read|..], done);
      b := data[at];
      consumer := Taking(n, got + [b]);
      assert written[|read|..|read| + done + 1] == written[|read|..|read| + done] + [written[|read| + done]];
    }

    method OutDone()
      requires Valid() && consumer.Taking? && |consumer.got| == Bytes(consumer.n, esize)
      modifies this`consumer
      ensures Valid() && consumer == Taken(old(consumer).n, old(consumer).got)
    {
      hide Wrap; hide Rem; hide Pow2; hide Bytes; hide Holds;
      consumer := Taken(consumer.n, consumer.got);
    }

    /** kfifo_out_flat moves the index; what was copied counts as read now. */
    method OutRelease(n: nat)
      requires Valid() && consumer.Taken? && consumer.n == n
      modifies this`outAt, this`read, this`outs, this`consumer
      ensures Valid() && consumer == Resting && read == old(read) + old(consumer.bytes) && outs == old(outs) + n
    {
      hide Wrap; hide Rem; hide Pow2; hide Bytes; hide Holds;
      BytesSum(outs, n, esize);
      WrapSum(outs, n);
      outAt := Wrap(outAt + n);
      outs := outs + n;
      ghost var was := read;
      HoldsLess(data[..], |read|, written[|read|..], |consumer.bytes|);
      read := read + consumer.bytes;
      consumer := Resting;
      assert written[..|read|] == written[..|was|] + written[|was|..|read|];
      assert written[|was|..][|read| - |was|..] == written[|read|..];
    }

    /** A peek leaves the index alone. */
    method PeekEnd()
      requires Valid() && consumer.Taken?
      modifies this`consumer
      ensures Valid() && consumer == Resting
    {
      hide Wrap; hide Rem; hide Pow2; hide Bytes; hide Holds;
      consumer := Resting;
    }

    // ----- the calls, with the steps of one side in a row -----

    /** kfifo_dynamic_alloc for a size already rounded up to a power of two */
    constructor (k: nat, esize: nat)
      requires 1 <= k < 64 && esize > 0 && Bytes(Pow2(k), esize) < U64
      ensures Valid() && mask == Pow2(k) - 1 && this.esize == esize && fresh(data)
      ensures written == [] && read == [] && producer == Idle && consumer == Resting
    {
      PowGrows(k, 63);
      Pow32();
      this.k := k;
      mask := Pow2(k) - 1;
      this.esize := esize;
      data := new Byte[Bytes(Pow2(k), esize)](_ => 0);
      inAt, outAt := 0, 0;
      written, read, ins, outs, producer, consumer := [], [], 0, 0, Idle, Resting;
      new;
      SlotScales(0, mask + 1, esize);
    }

    method InFlat(buff: array<Byte>, len: nat) returns (n: nat)
      requires Valid() && producer == Idle && buff != data && Bytes(len, esize) <= buff.Length
      modifies this`inAt, this`written, this`ins, this`producer, data
      ensures Valid() && producer == Idle && n == Min(len, mask + 1 - (old(ins) - outs)) && n <= len
      ensures Bytes(n, esize) <= buff.Length && written == old(written) + buff[..Bytes(n, esize)]
      ensures ins == old(ins) + n
    {
      hide Bytes; hide Valid;
      n := InReserve(len);
      BytesMost(n, len, esize);
      InCopy(buff, n);
      InPublish(n);
    }

    method PeekFlat(buff: array<Byte>, len: nat) returns (n: nat)
      requires Valid() && consumer == Resting && buff != data && Bytes(len, esize) <= buff.Length
      modifies this`consumer, buff
      ensures Valid() && n == Min(len, ins - outs) && Bytes(n, esize) <= buff.Length
      ensures consumer == Taken(n, buff[..Bytes(n, esize)])
      ensures buff[Bytes(n, esize)..] == old(buff[..])[Bytes(n, esize)..]
    {
      hide Bytes; hide Valid;
      n := OutReserve(len);
      BytesMost(n, len, esize);
      OutCopy(buff, n);
    }

    method OutFlat(buff: array<Byte>, len: nat) returns (n: nat)
      requires Valid() && consumer == Resting && buff != data && Bytes(len, esize) <= buff.Length
      modifies this`outAt, this`read, this`outs, this`consumer, buff
      ensures Valid() && consumer == Resting && n == Min(len, ins - old(outs)) && n <= len
      ensures Bytes(n, esize) <= buff.Length && read == old(read) + buff[..Bytes(n, esize)] && read <= written
      ensures outs == old(outs) + n && buff[Bytes(n, esize)..] == old(buff[..])[Bytes(n, esize)..]
    {
      hide Bytes;
      n := PeekFlat(buff, len);
      BytesMost(n, len, esize);
      OutRelease(n);
    }
  }

  /** Elements counted in bytes. */
  function Bytes(n: nat, esize: nat): nat {
    n * esize
  }

  lemma {:induction false} BytesSum(x: nat, y: nat, esize: nat)
    ensures Bytes(x, esize) + Bytes(y, esize) == Bytes(x + y, esize)
  {
  }

  lemma {:induction false} BytesMost(x: nat, y: nat, esize: nat)
    requires x <= y
    ensures Bytes(x, esize) <= Bytes(y, esize)
  {
    Larger(esize, x, y);
  }

  lemma {:induction false} BytesOne(x: nat)
    ensures Bytes(x, 1) == x
  {
  }

  /** Where the copy starts, from the wrapped index. */
  lemma {:induction false} OffsetIs(at: nat, count: nat, k: nat, esize: nat)
    requires at == Wrap(count) && k <= 64 && esize > 0
    ensures Bytes(Pow2(k), esize) > 0
    ensures Bytes(Rem(at, Pow2(k)), esize) == Rem(Bytes(count, esize), Bytes(Pow2(k), esize))
  {
    hide Rem; hide Wrap; hide Pow2; hide Bytes; hide Holds; hide And;
    SlotWraps(count, k);
    LowBits(at, k);
    SlotScales(count, Pow2(k), esize);
  }

  lemma {:induction false} SliceStays(s: seq<Byte>, t: seq<Byte>, a: nat, b: nat)
    requires a <= b <= |s|
    ensures (s + t)[a..b] == s[a..b]
  {
  }

  /** Lengths in elements and in bytes. */
  lemma {:induction false} Room(ins: nat, outs: nat, n: nat, size: nat, esize: nat)
    requires outs <= ins && ins + n <= outs + size
    ensures Bytes(n, esize) <= Bytes(size, esize)
    ensures Bytes(ins, esize) + Bytes(n, esize) <= Bytes(outs, esize) + Bytes(size, esize)
  {
    hide Bytes;
    BytesMost(n, size, esize);
    BytesMost(ins + n, outs + size, esize);
    BytesSum(ins, n, esize);
    BytesSum(outs, size, esize);
  }

  /** The two copies of KFIFO_GENERIC_COPY, into the ring. */
  method PourBytes(buff: array<Byte>, ring: array<Byte>, len: nat, offset: nat)
    requires buff != ring && offset < ring.Length && len <= ring.Length && len <= buff.Length
    modifies ring
    ensures ring[..] == Poured(old(ring[..]), offset, buff[..len])
  {
    hide Poured;
    var llen := Min(len, ring.Length - offset);
    ghost var was, bytes := ring[..], buff[..len];
    Memcpy(ring, offset, buff, 0, llen);
    assert buff[0..0 + llen] == bytes[..llen];
    ghost var once := ring[..];
    Memcpy(ring, 0, buff, llen, len - llen);
    assert buff[llen..llen + (len - llen)] == bytes[llen..];
    assert ring[..] == bytes[llen..] + once[len - llen..];
    PouredTwice(was, offset, bytes, llen);
  }

  /** The same out of the ring. */
  method DrawBytes(buff: array<Byte>, ring: array<Byte>, len: nat, offset: nat)
    requires buff != ring && offset < ring.Length && len <= ring.Length && len <= buff.Length
    modifies buff
    ensures buff[..] == Drawn(ring[..], offset, len) + old(buff[..])[len..]
  {
    hide Drawn;
    var llen := Min(len, ring.Length - offset);
    ghost var was, from := buff[..], ring[..];
    Memcpy(buff, 0, ring, offset, llen);
    ghost var once := buff[..];
    assert once == from[offset..offset + llen] + was[llen..];
    Memcpy(buff, llen, ring, 0, len - llen);
    assert buff[..] == once[..llen] + from[..len - llen] + once[len..];
    DrawnTwice(from, offset, len, llen, was);
  }

  lemma {:induction false} Extent(offset: nat, len: nat, size: nat, esize: nat)
    requires len <= size && size > 0 && esize > 0
    ensures Bytes(Rem(offset, size), esize) < Bytes(size, esize) && Bytes(len, esize) <= Bytes(size, esize)
    ensures Rem(offset, size) < size
  {
    hide Rem; hide Bytes;
    SlotScales(offset, size, esize);
    DivRem(offset, size);
    BytesMost(len, size, esize);
  }

  lemma {:induction false} PouredTwice(ring: seq<Byte>, off: nat, bytes: seq<Byte>, llen: nat)
    requires off < |ring| && |bytes| <= |ring| && llen == Min(|bytes|, |ring| - off)
    ensures var once := ring[..off] + bytes[..llen] + ring[off + llen..];
            |once| == |ring| && bytes[llen..] + once[|bytes| - llen..] == Poured(ring, off, bytes)
  {
  }

  lemma {:induction false} DrawnTwice(ring: seq<Byte>, off: nat, n: nat, llen: nat, was: seq<Byte>)
    requires off < |ring| && n <= |ring| && n <= |was| && llen == Min(n, |ring| - off)
    ensures var once := ring[off..off + llen] + was[llen..];
            |once| == |was| && once[..llen] + ring[..n - llen] + once[n..] == Drawn(ring, off, n) + was[n..]
  {
  }
}
