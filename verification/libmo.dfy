/** The verifier and the lookup of lib/libmo.c on a GNU MO image.

    The hash function is a parameter.  So is the string comparison: what is found is what it calls equal. */
module Libmo {
  import opened LibmoProbe

  type Byte = x: int | 0 <= x < 256
  type Str = seq<Byte>

  const U32: nat := 0x1_0000_0000

  /** -EINVAL, -EOVERFLOW, -EBADMSG, -ENOMEM.  Wild stands for a read outside the image. */
  datatype Error = Invalid | Overflow | BadMessage | NoMemory | Wild
  datatype Res<T> = Ok(value: T) | Err(error: Error)

  /** What libmo_load fills in.  present: the data pointer is not NULL. */
  datatype Context = Context(
    present: bool, data: seq<Byte>, swab: bool,
    indexNum: nat, hashSize: nat, origOffset: nat, tranOffset: nat, hashOffset: nat)

  /** get_uint32 */
  function GetUint32(ctx: Context, offset: nat): (r: Res<nat>)
    ensures r.Err? ==> r.error == Overflow
  {
    if offset + 4 > |ctx.data| then Err(Overflow)
    else
      var a: nat, b: nat := ctx.data[offset], ctx.data[offset + 1];
      var c: nat, d: nat := ctx.data[offset + 2], ctx.data[offset + 3];
      Ok(if ctx.swab then d + 0x100 * c + 0x1_0000 * b + 0x100_0000 * a else a + 0x100 * b + 0x1_0000 * c + 0x100_0000 * d)
  }

  /** A string found in the image: where it starts, and the length its descriptor gives. */
  datatype Found = Found(start: nat, len: nat)

  /** get_string: a descriptor is the length and the offset of a string; their sum is taken in 32 bits. */
  function GetString(ctx: Context, offset: nat): Res<Found> {
    var off := GetUint32(ctx, offset + 4);
    if off.Err? then Err(off.error)
    else
      var len := GetUint32(ctx, offset);
      if len.Err? then Err(len.error)
      else if (off.value + len.value + 1) % U32 > |ctx.data| then Err(Overflow)
      else
        var last := (off.value + len.value) % U32;
        if last >= |ctx.data| then Err(Wild)
        else if ctx.data[last] != 0 then Err(BadMessage)
        else Ok(Found(off.value, len.value))
  }

  function Orig(ctx: Context, index: nat): Res<Found> {
    GetString(ctx, ctx.origOffset + 8 * index)
  }

  function Tran(ctx: Context, index: nat): Res<Found> {
    GetString(ctx, ctx.tranOffset + 8 * index)
  }

  /** Entry e of the hash table: 0, or a message number plus 1. */
  function Entry(ctx: Context, e: nat): Res<nat> {
    GetUint32(ctx, ctx.hashOffset + 4 * e)
  }

  /** The C string that starts at a position. */
  function CString(data: seq<Byte>, start: nat): Str
    decreases |data| - start
  {
    if start >= |data| || data[start] == 0 then [] else [data[start]] + CString(data, start + 1)
  }

  /** The message id number index, as strcmp and the hash function see it. */
  function Id(ctx: Context, index: nat): Str {
    var r := Orig(ctx, index);
    if r.Ok? then CString(ctx.data, r.value.start) else []
  }

  // ----- the 32-bit sum -----

  /** The descriptor at the offset does not wrap the 32-bit sum of offset and length. */
  ghost predicate NoWrapAt(ctx: Context, offset: nat) {
    var off, len := GetUint32(ctx, offset + 4), GetUint32(ctx, offset);
    off.Ok? && len.Ok? ==> off.value + len.value + 1 < U32
  }

  ghost predicate NoWrap(ctx: Context) {
    forall i: nat :: i < ctx.indexNum ==>
      NoWrapAt(ctx, ctx.origOffset + 8 * i) && NoWrapAt(ctx, ctx.tranOffset + 8 * i)
  }

  lemma {:induction false} StringEnds(data: seq<Byte>, start: nat, last: nat)
    requires start <= last < |data| && data[last] == 0
    ensures start + |CString(data, start)| <= last
    decreases last - start
  {
    if start < last && data[start] != 0 {
      StringEnds(data, start + 1, last);
    }
  }

  /** A string that is handed out lies inside the image, terminator included, unless the sum wrapped. */
  lemma {:induction false} StringInside(ctx: Context, offset: nat)
    requires NoWrapAt(ctx, offset)
    ensures GetString(ctx, offset) != Err(Wild)
    ensures var r := GetString(ctx, offset); r.Ok? ==>
      r.value.start + |CString(ctx.data, r.value.start)| <= r.value.start + r.value.len < |ctx.data|
      && ctx.data[r.value.start + r.value.len] == 0
  {
    hide GetUint32;
    var r := GetString(ctx, offset);
    if r.Ok? {
      StringEnds(ctx.data, r.value.start, r.value.start + r.value.len);
    }
  }

  /** In an image below 2^32 bytes, a string that is handed out lies inside it if and only if its descriptor does not
      wrap. */
  lemma {:induction false} InsideIffNoWrap(ctx: Context, offset: nat)
    requires |ctx.data| < U32 && GetString(ctx, offset).Ok?
    ensures var s := GetString(ctx, offset).value;
      NoWrapAt(ctx, offset) <==> s.start + s.len < |ctx.data| && ctx.data[s.start + s.len] == 0
  {
    hide GetUint32;
    WordBelow(ctx, offset);
    WordBelow(ctx, offset + 4);
  }

  lemma {:induction false} WordBelow(ctx: Context, offset: nat)
    ensures GetUint32(ctx, offset).Ok? ==> GetUint32(ctx, offset).value < U32
  {
  }

  /** The check itself reads outside exactly when offset, length and terminator add up to 2^32. */
  lemma {:induction false} WildIff(ctx: Context, offset: nat)
    requires |ctx.data| < U32
    ensures GetString(ctx, offset) == Err(Wild) <==>
      var off, len := GetUint32(ctx, offset + 4), GetUint32(ctx, offset);
      off.Ok? && len.Ok? && off.value + len.value + 1 == U32
  {
    hide GetUint32;
    WordBelow(ctx, offset);
    WordBelow(ctx, offset + 4);
  }

  /** A descriptor that wraps is accepted although its string starts far outside. */
  lemma {:induction false} WrappedAccepted()
    ensures var ctx := Context(true, [3, 0, 0, 0, 254, 255, 255, 255], false, 0, 0, 0, 0, 0);
      GetString(ctx, 0) == Ok(Found(4294967294, 3))
  {
  }

  // ----- the image the verifier accepts -----

  type Hash = Str -> nat
  type Compare = (Str, Str) -> int

  function Start(hash: Hash, id: Str, size: nat): nat
    requires size > 0
  {
    hash(id) % U32 % size
  }

  function Incr(hash: Hash, id: Str, size: nat): nat
    requires size > 2
  {
    hash(id) % U32 % (size - 2) + 1
  }

  /** Entry met after k steps of the probe for an id. */
  ghost function Met(ctx: Context, hash: Hash, id: Str, k: nat): Res<nat>
    requires ctx.hashSize > 2
  {
    Entry(ctx, Slot(Start(hash, id, ctx.hashSize), Incr(hash, id, ctx.hashSize), ctx.hashSize, k))
  }

  /** The probe for the id of a message comes to the message before it comes to an empty entry. */
  ghost predicate Reaches(ctx: Context, hash: Hash, index: nat)
    requires ctx.hashSize > 2
  {
    exists k: nat :: k < ctx.hashSize && ReachesAt(ctx, hash, index, k)
  }

  ghost predicate ReachesAt(ctx: Context, hash: Hash, index: nat, k: nat)
    requires ctx.hashSize > 2
  {
    && Met(ctx, hash, Id(ctx, index), k) == Ok(index + 1)
    && forall j: nat :: j < k ==> Met(ctx, hash, Id(ctx, index), j).Ok? && Met(ctx, hash, Id(ctx, index), j) != Ok(0)
  }

  ghost predicate IdsOK(ctx: Context, cmp: Compare) {
    && (forall i: nat :: i < ctx.indexNum ==> Orig(ctx, i).Ok?)
    && (forall i: nat, j: nat :: j == i + 1 && j < ctx.indexNum ==> cmp(Id(ctx, i), Id(ctx, j)) <= 0)
  }

  /** The hash table holds every message number exactly once, and nothing else but empty entries. */
  ghost predicate TableOK(ctx: Context) {
    && (forall e: nat :: e < ctx.hashSize ==> Entry(ctx, e).Ok? && Entry(ctx, e).value <= ctx.indexNum)
    && (forall e: nat, f: nat :: e < f < ctx.hashSize && Entry(ctx, e).Ok? && Entry(ctx, e) == Entry(ctx, f) ==>
          Entry(ctx, e) == Ok(0))
    && (forall i: nat :: i < ctx.indexNum ==> InTable(ctx, i, ctx.hashSize))
  }

  /** Message i is among the first n entries. */
  ghost predicate InTable(ctx: Context, i: nat, n: nat) {
    exists e: nat :: e < n && Entry(ctx, e) == Ok(i + 1)
  }

  ghost predicate Accepted(ctx: Context, hash: Hash, cmp: Compare)
    requires ctx.hashSize > 2
  {
    && ctx.present && IdsOK(ctx, cmp) && TableOK(ctx)
    && forall i: nat :: i < ctx.indexNum ==> Reaches(ctx, hash, i)
  }

  // ----- libmo_verify -----

  /** The messages are sorted, and their ids can be read. */
  method VerifyIds(ctx: Context, cmp: Compare) returns (r: Res<()>)
    requires NoWrap(ctx)
    ensures r.Ok? <==> IdsOK(ctx, cmp)
    ensures r != Err(Wild)
  {
    hide GetString; hide CString; hide NoWrapAt;
    var index: nat := 0;
    var prev: Str := [];
    while index < ctx.indexNum
      invariant index <= ctx.indexNum
      invariant forall i: nat :: i < index ==> Orig(ctx, i).Ok?
      invariant forall i: nat, j: nat :: j == i + 1 && j < index ==> cmp(Id(ctx, i), Id(ctx, j)) <= 0
      invariant index > 0 ==> prev == Id(ctx, index - 1)
    {
      StringInside(ctx, ctx.origOffset + 8 * index);
      var msgid := Orig(ctx, index);
      if msgid.Err? {
        return Err(msgid.error);
      }
      var id := CString(ctx.data, msgid.value.start);
      assert id == Id(ctx, index);
      if index > 0 && cmp(prev, id) > 0 {
        return Err(Invalid);
      }
      prev := id;
      index := index + 1;
    }
    return Ok(());
  }

  /** Number of marked messages, as bitmap_full counts them. */
  ghost predicate AllSet(bits: seq<bool>) {
    forall i :: 0 <= i < |bits| ==> bits[i]
  }

  method BitmapFull(bits: seq<bool>) returns (full: bool)
    ensures full <==> AllSet(bits)
  {
    var i := 0;
    while i < |bits|
      invariant 0 <= i <= |bits| && forall j :: 0 <= j < i ==> bits[j]
    {
      if !bits[i] {
        return false;
      }
      i := i + 1;
    }
    return true;
  }

  /** The entries that are not empty are the message numbers, each once. */
  method VerifyTable(ctx: Context) returns (r: Res<()>)
    ensures r.Ok? <==> TableOK(ctx)
    ensures r != Err(Wild)
  {
    hide GetUint32;
    var bitmap: seq<bool> := seq(ctx.indexNum, i => false);
    var index: nat := 0;
    while index < ctx.hashSize
      invariant index <= ctx.hashSize && |bitmap| == ctx.indexNum
      invariant forall e: nat :: e < index ==> Entry(ctx, e).Ok? && Entry(ctx, e).value <= ctx.indexNum
      invariant forall e: nat, f: nat :: e < f < index && Entry(ctx, e) == Entry(ctx, f) ==> Entry(ctx, e) == Ok(0)
      invariant forall i: nat :: i < ctx.indexNum ==> (bitmap[i] <==> InTable(ctx, i, index))
    {
      var entry := Entry(ctx, index);
      if entry.Err? {
        return Err(entry.error);
      }
      if entry.value != 0 {
        var i: nat := entry.value - 1;
        if i < ctx.indexNum && !bitmap[i] {
          bitmap := bitmap[i := true];
        } else {
          return Err(Invalid);
        }
      }
      index := index + 1;
    }
    var full := BitmapFull(bitmap);
    return if full then Ok(()) else Err(Invalid);
  }

  /** At step k the probe for message index comes to an end: at the message, an empty entry or an error. */
  ghost predicate ProbeEnds(ctx: Context, hash: Hash, index: nat, k: nat)
    requires ctx.hashSize > 2
  {
    var m := Met(ctx, hash, Id(ctx, index), k);
    m.Err? || m.value == 0 || m.value == index + 1
  }

  ghost predicate Terminates(ctx: Context, hash: Hash, index: nat)
    requires ctx.hashSize > 2
  {
    exists k: nat :: ProbeEnds(ctx, hash, index, k)
  }

  /** A table of prime size that holds the message lets its probe end. */
  lemma {:induction false} PrimeProbeEnds(ctx: Context, hash: Hash, index: nat) returns (k: nat)
    requires ctx.hashSize > 2 && Prime(ctx.hashSize) && InTable(ctx, index, ctx.hashSize)
    ensures ProbeEnds(ctx, hash, index, k)
  {
    hide Prime; hide Slot; hide Entry;
    var e: nat :| e < ctx.hashSize && Entry(ctx, e) == Ok(index + 1);
    k := AllMet(Start(hash, Id(ctx, index), ctx.hashSize), Incr(hash, Id(ctx, index), ctx.hashSize), ctx.hashSize, e);
  }

  /** What is met for the first time is met within hash_size steps. */
  lemma {:induction false} FirstEarly(ctx: Context, hash: Hash, id: Str, k: nat)
    requires ctx.hashSize > 2 && k >= ctx.hashSize
    ensures Met(ctx, hash, id, k - ctx.hashSize) == Met(ctx, hash, id, k)
  {
    hide Entry; hide Slot;
    Periodic(Start(hash, id, ctx.hashSize), Incr(hash, id, ctx.hashSize), ctx.hashSize, k - ctx.hashSize);
  }

  /** The probe of the verifier for one message, if it ends. */
  method VerifyProbe(ctx: Context, hash: Hash, index: nat) returns (r: Res<()>)
    requires ctx.hashSize > 2 && Orig(ctx, index).Ok? && Terminates(ctx, hash, index)
    ensures r.Ok? <==> Reaches(ctx, hash, index)
    ensures r != Err(Wild)
  {
    hide GetUint32; hide GetString; hide CString; hide Slot; hide Orig; hide Id;
    var size := ctx.hashSize;
    var msgid := Id(ctx, index);
    var entry := Start(hash, msgid, size);
    var incr := Incr(hash, msgid, size);
    ghost var start, k: nat := entry, 0;
    ghost var k0: nat :| ProbeEnds(ctx, hash, index, k0);
    FirstSlot(start, incr, size);
    while true
      invariant k <= k0 && entry == Slot(start, incr, size, k)
      invariant forall j: nat :: j < k ==>
        Met(ctx, hash, msgid, j).Ok? && Met(ctx, hash, msgid, j) != Ok(0) && Met(ctx, hash, msgid, j) != Ok(index + 1)
      decreases k0 - k
    {
      var value := Entry(ctx, entry);
      assert value == Met(ctx, hash, msgid, k);
      if value.Err? {
        return Err(value.error);
      }
      if value.value == 0 {
        return Err(Invalid);
      }
      if value.value - 1 == index {
        assert ReachesAt(ctx, hash, index, k);
        if k >= size {
          FirstEarly(ctx, hash, msgid, k);
        }
        return Ok(());
      }
      SlotStep(start, incr, size, k);
      entry := if entry >= size - incr then entry - (size - incr) else entry + incr;
      k := k + 1;
    }
  }

  lemma {:induction false} FirstSlot(start: nat, incr: nat, size: nat)
    requires start < size
    ensures Slot(start, incr, size, 0) == start
  {
  }

  /** The probes of the verifier end, once the ids and the table are in order. */
  ghost predicate AllEnd(ctx: Context, hash: Hash, cmp: Compare)
    requires ctx.hashSize > 2
  {
    IdsOK(ctx, cmp) && TableOK(ctx) ==> forall i: nat :: i < ctx.indexNum ==> Terminates(ctx, hash, i)
  }

  /** A prime table size is enough, whatever the table holds. */
  lemma {:induction false} PrimeAllEnd(ctx: Context, hash: Hash, cmp: Compare)
    requires ctx.hashSize > 2 && Prime(ctx.hashSize)
    ensures AllEnd(ctx, hash, cmp)
  {
    hide Prime; hide Entry; hide ProbeEnds; hide IdsOK; hide InTable;
    if TableOK(ctx) {
      forall i: nat | i < ctx.indexNum ensures Terminates(ctx, hash, i) {
        var k := PrimeProbeEnds(ctx, hash, i);
      }
    }
  }

  /** libmo_verify, if its probes end.  memory: whether the bitmap could be allocated.  A table of size 2 divides by
      zero. */
  method Verify(ctx: Context, hash: Hash, cmp: Compare, memory: bool) returns (r: Res<()>)
    requires NoWrap(ctx) && (ctx.hashSize > 1 ==> ctx.hashSize > 2 && AllEnd(ctx, hash, cmp))
    ensures r != Err(Wild)
    ensures ctx.hashSize == 0 ==> (r.Ok? <==> ctx.present && IdsOK(ctx, cmp))
    ensures ctx.hashSize == 1 ==> r.Err?
    ensures ctx.hashSize > 2 ==> (r.Ok? <==> memory && Accepted(ctx, hash, cmp))
  {
    hide IdsOK; hide NoWrap; hide Entry; hide Reaches; hide Terminates;
    if !ctx.present {
      return Err(Invalid);
    }
    r := VerifyIds(ctx, cmp);
    if r.Err? {
      return;
    }
    if ctx.hashSize != 0 {
      if ctx.hashSize < 2 {
        return Err(Invalid);
      }
      if !memory {
        return Err(NoMemory);
      }
      r := VerifyTable(ctx);
      if r.Err? {
        return;
      }
      var index: nat := 0;
      while index < ctx.indexNum
        invariant index <= ctx.indexNum && r.Ok?
        invariant forall i: nat :: i < index ==> Reaches(ctx, hash, i)
      {
        IdReadable(ctx, cmp, index);
        r := VerifyProbe(ctx, hash, index);
        if r.Err? {
          return;
        }
        index := index + 1;
      }
    }
  }

  lemma {:induction false} IdReadable(ctx: Context, cmp: Compare, index: nat)
    requires IdsOK(ctx, cmp) && index < ctx.indexNum
    ensures Orig(ctx, index).Ok?
  {
  }

  // ----- strcmp -----

  /** The repository's own strcmp, on C strings that are not both empty: it stops as soon as the first string ends,
      without looking whether the second one ends too. */
  method Strcmp(s1: seq<Byte>, s2: seq<Byte>) returns (cp: int)
    requires s1 != [] || s2 != []
    requires (forall i :: 0 <= i < |s1| ==> s1[i] != 0) && (forall i :: 0 <= i < |s2| ==> s2[i] != 0)
    ensures cp == 0 <==> s1 != [] && s1 <= s2
  {
    var t1, t2 := s1 + [0], s2 + [0];
    var i := 0;
    cp := t1[0] as int - t2[0] as int;
    while cp == 0 && t1[i + 1] != 0
      invariant 0 <= i <= |s2| && (if s1 == [] then i == 0 && cp != 0 else i < |s1|)
      invariant s1[..i] == s2[..i] && cp == t1[i] as int - t2[i] as int
      decreases |s1| - i
    {
      i := i + 1;
      cp := t1[i] as int - t2[i] as int;
    }
    if cp == 0 {
      assert s1 == s1[..i] + [s1[i]];
    }
  }

  // ----- libmo_lookup -----

  /** NULL, an error pointer, or a translation. */
  datatype Lookup = Missing | Failed(error: Error) | Got(str: Found)

  /** Some message has the id that is asked for, and the length too if one is given. */
  ghost predicate Stored(ctx: Context, orig: Str, origlen: nat) {
    exists i: nat :: i < ctx.indexNum && StoredAt(ctx, i, orig, origlen)
  }

  ghost predicate StoredAt(ctx: Context, i: nat, orig: Str, origlen: nat) {
    Orig(ctx, i).Ok? && (origlen == 0 || origlen == Orig(ctx, i).value.len) && Id(ctx, i) == orig
  }

  /** The lookup takes message i for what is asked for. */
  ghost predicate Hit(ctx: Context, cmp: Compare, i: nat, orig: Str, origlen: nat) {
    && i < ctx.indexNum && Orig(ctx, i).Ok?
    && (origlen == 0 || origlen == Orig(ctx, i).value.len) && cmp(orig, Id(ctx, i)) == 0
  }

  ghost function Translation(ctx: Context, i: nat): Lookup {
    var r := Tran(ctx, i);
    if r.Ok? then Got(r.value) else Failed(r.error)
  }

  ghost predicate HasEmpty(ctx: Context) {
    exists e: nat :: e < ctx.hashSize && Entry(ctx, e) == Ok(0)
  }

  /** The probe for the id comes to a message at step k and to no empty entry before. */
  ghost predicate Passes(ctx: Context, hash: Hash, orig: Str, k: nat)
    requires ctx.hashSize > 2
  {
    forall j: nat :: j < k ==> Met(ctx, hash, orig, j).Ok? && Met(ctx, hash, orig, j).value > 0
  }

  /** Step k is the first at which there is an empty entry or a message taken for the one asked for. */
  ghost predicate StopsAt(ctx: Context, hash: Hash, cmp: Compare, orig: Str, origlen: nat, k: nat)
    requires ctx.hashSize > 2
  {
    && Passes(ctx, hash, orig, k)
    && (forall j: nat :: j < k && Met(ctx, hash, orig, j).Ok? && Met(ctx, hash, orig, j).value > 0 ==>
          !Hit(ctx, cmp, Met(ctx, hash, orig, j).value - 1, orig, origlen))
    && Met(ctx, hash, orig, k).Ok?
    && (Met(ctx, hash, orig, k).value > 0 ==> Hit(ctx, cmp, Met(ctx, hash, orig, k).value - 1, orig, origlen))
  }

  /** What is returned when the probe stops at step k. */
  ghost function Outcome(ctx: Context, hash: Hash, orig: Str, k: nat): Lookup
    requires ctx.hashSize > 2 && Met(ctx, hash, orig, k).Ok?
  {
    var value := Met(ctx, hash, orig, k).value;
    if value == 0 then Missing else Translation(ctx, value - 1)
  }

  /** At step k there is an empty entry or a message taken for the one asked for. */
  ghost predicate LookupEnds(ctx: Context, hash: Hash, cmp: Compare, orig: Str, origlen: nat, k: nat)
    requires ctx.hashSize > 2
  {
    var m := Met(ctx, hash, orig, k);
    m.Ok? && (m.value == 0 || Hit(ctx, cmp, m.value - 1, orig, origlen))
  }

  /** The lookup of a stored id ends, if the comparison calls the id equal to itself; every lookup ends in a table of
      prime size with an empty entry. */
  lemma {:induction false} Ends(ctx: Context, hash: Hash, cmp: Compare, orig: Str, origlen: nat) returns (k: nat)
    requires ctx.hashSize > 2 && Accepted(ctx, hash, cmp)
    requires (Stored(ctx, orig, origlen) && cmp(orig, orig) == 0) || (Prime(ctx.hashSize) && HasEmpty(ctx))
    ensures LookupEnds(ctx, hash, cmp, orig, origlen, k)
  {
    hide Entry; hide Prime; hide Slot; hide Orig; hide Id;
    if Stored(ctx, orig, origlen) && cmp(orig, orig) == 0 {
      var i: nat :| i < ctx.indexNum && StoredAt(ctx, i, orig, origlen);
      assert Reaches(ctx, hash, i);
      k :| k < ctx.hashSize && ReachesAt(ctx, hash, i, k);
    } else {
      var e: nat :| e < ctx.hashSize && Entry(ctx, e) == Ok(0);
      k := AllMet(Start(hash, orig, ctx.hashSize), Incr(hash, orig, ctx.hashSize), ctx.hashSize, e);
    }
  }

  /** A stored id is not missed: no empty entry comes before it on its probe. */
  lemma {:induction false} StoredFound(ctx: Context, hash: Hash, cmp: Compare, orig: Str, origlen: nat, k: nat)
    requires ctx.hashSize > 2 && Accepted(ctx, hash, cmp) && StopsAt(ctx, hash, cmp, orig, origlen, k)
    requires Stored(ctx, orig, origlen) && cmp(orig, orig) == 0
    ensures Met(ctx, hash, orig, k) != Ok(0)
  {
    hide Entry; hide Slot; hide Orig; hide Id; hide Met;
    var i: nat :| i < ctx.indexNum && StoredAt(ctx, i, orig, origlen);
    assert Reaches(ctx, hash, i);
    var m: nat :| m < ctx.hashSize && ReachesAt(ctx, hash, i, m);
  }

  lemma {:induction false} StopsEarly(ctx: Context, hash: Hash, cmp: Compare, orig: Str, origlen: nat, k: nat)
    requires ctx.hashSize > 2 && StopsAt(ctx, hash, cmp, orig, origlen, k)
    ensures k < ctx.hashSize
  {
    hide Met; hide Hit;
    if k >= ctx.hashSize {
      FirstEarly(ctx, hash, orig, k);
    }
  }

  lemma {:induction false} EntryKnown(ctx: Context, hash: Hash, cmp: Compare, id: Str, k: nat)
    requires ctx.hashSize > 2 && Accepted(ctx, hash, cmp)
    ensures Met(ctx, hash, id, k).Ok? && Met(ctx, hash, id, k).value <= ctx.indexNum
    ensures Met(ctx, hash, id, k).value > 0 ==> Orig(ctx, Met(ctx, hash, id, k).value - 1).Ok?
  {
    hide Entry; hide Orig; hide Reaches;
    var e := Slot(Start(hash, id, ctx.hashSize), Incr(hash, id, ctx.hashSize), ctx.hashSize, k);
    assert e < ctx.hashSize;
  }

  /** libmo_lookup on an accepted image, if it ends: the first message on the probe that the comparison calls equal,
      before any empty entry. */
  method LookupId(ctx: Context, hash: Hash, cmp: Compare, orig: Str, origlen: nat) returns (r: Lookup, ghost k: nat)
    requires NoWrap(ctx) && ctx.hashSize > 2 && Accepted(ctx, hash, cmp)
    requires exists k: nat :: LookupEnds(ctx, hash, cmp, orig, origlen, k)
    ensures k < ctx.hashSize && StopsAt(ctx, hash, cmp, orig, origlen, k) && r == Outcome(ctx, hash, orig, k)
    ensures Stored(ctx, orig, origlen) && cmp(orig, orig) == 0 ==> r != Missing
    ensures Exact(ctx, cmp, orig) && r != Missing ==>
              exists i: nat :: i < ctx.indexNum && StoredAt(ctx, i, orig, origlen) && r == Translation(ctx, i)
    ensures r != Failed(Wild)
  {
    hide GetUint32; hide GetString; hide CString; hide Slot; hide Accepted; hide Stored; hide NoWrap;
    hide Exact; hide StoredAt;
    ghost var k0: nat :| LookupEnds(ctx, hash, cmp, orig, origlen, k0);
    var size := ctx.hashSize;
    var entry := Start(hash, orig, size);
    var incr := Incr(hash, orig, size);
    ghost var start := entry;
    k := 0;
    FirstSlot(start, incr, size);
    while true
      invariant 0 <= k <= k0 && entry == Slot(start, incr, size, k) && Passes(ctx, hash, orig, k)
      invariant forall j: nat :: j < k && Met(ctx, hash, orig, j).Ok? && Met(ctx, hash, orig, j).value > 0 ==>
                  !Hit(ctx, cmp, Met(ctx, hash, orig, j).value - 1, orig, origlen)
      decreases k0 - k
    {
      var value := Entry(ctx, entry);
      assert value == Met(ctx, hash, orig, k);
      EntryKnown(ctx, hash, cmp, orig, k);
      if value.Err? {
        assert false;
      }
      if value.value == 0 {
        StopsEarly(ctx, hash, cmp, orig, origlen, k);
        if Stored(ctx, orig, origlen) && cmp(orig, orig) == 0 {
          StoredFound(ctx, hash, cmp, orig, origlen, k);
        }
        return Missing, k;
      }
      var index: nat := value.value - 1;
      var msgid := Orig(ctx, index);
      if msgid.Err? {
        assert false;
      }
      if (origlen == 0 || origlen == msgid.value.len) && cmp(orig, CString(ctx.data, msgid.value.start)) == 0 {
        StopsEarly(ctx, hash, cmp, orig, origlen, k);
        TranInside(ctx, index);
        if Exact(ctx, cmp, orig) {
          ExactHit(ctx, cmp, index, orig, origlen);
        }
        var msgstr := Tran(ctx, index);
        return if msgstr.Ok? then Got(msgstr.value) else Failed(msgstr.error), k;
      }
      SlotStep(start, incr, size, k);
      entry := if entry >= size - incr then entry - (size - incr) else entry + incr;
      k := k + 1;
    }
  }

  /** The comparison calls no stored id equal to what is asked for unless it is. */
  ghost predicate Exact(ctx: Context, cmp: Compare, orig: Str) {
    forall i: nat :: i < ctx.indexNum && cmp(orig, Id(ctx, i)) == 0 ==> Id(ctx, i) == orig
  }

  lemma {:induction false} ExactHit(ctx: Context, cmp: Compare, i: nat, orig: Str, origlen: nat)
    requires Hit(ctx, cmp, i, orig, origlen) && Exact(ctx, cmp, orig)
    ensures StoredAt(ctx, i, orig, origlen)
  {
    hide Id;
  }

  lemma {:induction false} TranInside(ctx: Context, i: nat)
    requires NoWrap(ctx) && i < ctx.indexNum
    ensures Tran(ctx, i) != Err(Wild)
  {
    StringInside(ctx, ctx.tranOffset + 8 * i);
  }
}
