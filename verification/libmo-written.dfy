/** Images written out: words in the byte order the image has, strings behind their descriptors, and a table.  What is
    read is what was written. */
module LibmoWritten {
  import opened Libmo

  /** Byte b of a word. */
  function Octet(word: nat, b: nat): Byte {
    if b == 0 then word % 0x100 else Octet(word / 0x100, b - 1)
  }

  /** The four bytes at the offset are those of the word: the lowest first, or the highest first in an image of the
      other byte order. */
  ghost predicate HasWord(ctx: Context, offset: nat, w: nat) {
    && offset + 4 <= |ctx.data|
    && ctx.data[offset] == Octet(w, if ctx.swab then 3 else 0) && ctx.data[offset + 1] == Octet(w, if ctx.swab then 2 else 1)
    && ctx.data[offset + 2] == Octet(w, if ctx.swab then 1 else 2) && ctx.data[offset + 3] == Octet(w, if ctx.swab then 0 else 3)
  }

  lemma {:induction false} Octets(w: nat)
    requires w < U32
    ensures w == Octet(w, 0) + 0x100 * Octet(w, 1) + 0x1_0000 * Octet(w, 2) + 0x100_0000 * Octet(w, 3)
  {
    var w1 := w / 0x100;
    var w2 := w1 / 0x100;
    var w3 := w2 / 0x100;
    assert Octet(w, 1) == Octet(w1, 0) == w1 % 0x100;
    assert Octet(w, 2) == Octet(w1, 1) == Octet(w2, 0) == w2 % 0x100;
    assert Octet(w, 3) == Octet(w1, 2) == Octet(w2, 1) == Octet(w3, 0) == w3 % 0x100;
  }

  lemma {:induction false} OctetsOf(a: Byte, b: Byte, c: Byte, d: Byte)
    ensures var w: nat := a + 0x100 * b + 0x1_0000 * c + 0x100_0000 * d;
      w < U32 && Octet(w, 0) == a && Octet(w, 1) == b && Octet(w, 2) == c && Octet(w, 3) == d
  {
    var w: nat := a + 0x100 * b + 0x1_0000 * c + 0x100_0000 * d;
    var w1: nat := b + 0x100 * c + 0x1_0000 * d;
    var w2: nat := c + 0x100 * d;
    assert w / 0x100 == w1 && w1 / 0x100 == w2 && w2 / 0x100 == d;
    assert Octet(w, 1) == Octet(w1, 0) && Octet(w, 2) == Octet(w1, 1) == Octet(w2, 0);
    assert Octet(w, 3) == Octet(w1, 2) == Octet(w2, 1) == Octet(d, 0);
  }

  /** A word is read exactly where its bytes stand; elsewhere the image is too short. */
  lemma {:induction false} WordIff(ctx: Context, offset: nat, w: nat)
    ensures GetUint32(ctx, offset) == Ok(w) <==> w < U32 && HasWord(ctx, offset, w)
    ensures GetUint32(ctx, offset).Err? <==> offset + 4 > |ctx.data|
  {
    hide Octet;
    if offset + 4 <= |ctx.data| {
      var a, b := ctx.data[offset], ctx.data[offset + 1];
      var c, d := ctx.data[offset + 2], ctx.data[offset + 3];
      if ctx.swab {
        OctetsOf(d, c, b, a);
      } else {
        OctetsOf(a, b, c, d);
      }
      if w < U32 && HasWord(ctx, offset, w) {
        Octets(w);
      }
    }
  }

  lemma {:induction false} CStringIs(data: seq<Byte>, start: nat, s: Str)
    requires start + |s| < |data| && data[start..start + |s| + 1] == s + [0] && forall i :: 0 <= i < |s| ==> s[i] != 0
    ensures CString(data, start) == s
    decreases |s|
  {
    assert data[start] == (s + [0])[0];
    if s != [] {
      assert data[start + 1..start + 1 + |s| - 1 + 1] == data[start..start + |s| + 1][1..] == s[1..] + [0];
      CStringIs(data, start + 1, s[1..]);
      assert s == [s[0]] + s[1..];
    }
  }

  /** At the offset there is the descriptor of the string, length first, and the string lies where it says. */
  ghost predicate HasString(ctx: Context, offset: nat, start: nat, s: Str) {
    && HasWord(ctx, offset, |s|) && HasWord(ctx, offset + 4, start)
    && start + |s| < |ctx.data| && ctx.data[start..start + |s| + 1] == s + [0] && start + |s| + 1 < U32
    && forall i :: 0 <= i < |s| ==> s[i] != 0
  }

  lemma {:induction false} StringRead(ctx: Context, offset: nat, start: nat, s: Str)
    requires HasString(ctx, offset, start, s)
    ensures GetString(ctx, offset) == Ok(Found(start, |s|)) && CString(ctx.data, start) == s
  {
    hide GetUint32; hide CString; hide HasWord;
    WordIff(ctx, offset, |s|);
    WordIff(ctx, offset + 4, start);
    assert ctx.data[start + |s|] == ctx.data[start..start + |s| + 1][|s|] == 0;
    CStringIs(ctx.data, start, s);
  }

  /** The image holds these ids and translations in order, starting at these places, and this table. */
  ghost predicate Holds(ctx: Context, ids: seq<Str>, trans: seq<Str>, places: seq<nat>, table: seq<nat>) {
    && |ids| == |trans| == ctx.indexNum && |places| == 2 * |ids| && |table| == ctx.hashSize
    && (forall i: nat :: i < |ids| ==> HasString(ctx, ctx.origOffset + 8 * i, places[i], ids[i]))
    && (forall i: nat :: i < |ids| ==> HasString(ctx, ctx.tranOffset + 8 * i, places[|ids| + i], trans[i]))
    && (forall e: nat :: e < |table| ==> table[e] < U32 && HasWord(ctx, ctx.hashOffset + 4 * e, table[e]))
  }

  ghost predicate InOrder(ids: seq<Str>, cmp: Compare) {
    forall i: nat, j: nat :: j == i + 1 && j < |ids| ==> cmp(ids[i], ids[j]) <= 0
  }

  /** The table has every number from 1 on once, and zeros. */
  ghost predicate IsTable(table: seq<nat>, n: nat) {
    && (forall e: nat :: e < |table| ==> table[e] <= n)
    && (forall e: nat, f: nat :: e < f < |table| && table[e] == table[f] ==> table[e] == 0)
    && (forall i: nat :: i < n ==> Listed(table, i))
  }

  ghost predicate Listed(table: seq<nat>, i: nat) {
    i + 1 in table
  }

  /** Following the probe of each id, its message comes before any zero. */
  ghost predicate Findable(ids: seq<Str>, table: seq<nat>, hash: Hash)
    requires |table| > 2
  {
    forall i: nat :: i < |ids| ==> Finds(ids[i], i, table, hash)
  }

  ghost predicate Finds(id: Str, i: nat, table: seq<nat>, hash: Hash)
    requires |table| > 2
  {
    exists k: nat :: k < |table| && FindsAt(id, i, table, hash, k)
  }

  ghost predicate FindsAt(id: Str, i: nat, table: seq<nat>, hash: Hash, k: nat)
    requires |table| > 2
  {
    && table[Probe(id, table, hash, k)] == i + 1
    && forall j: nat :: j < k ==> table[Probe(id, table, hash, j)] != 0
  }

  /** Entry after k steps: from the hash on, by 1 and the hash modulo the size less 2. */
  ghost function Probe(id: Str, table: seq<nat>, hash: Hash, k: nat): (e: nat)
    requires |table| > 2
    ensures e < |table|
  {
    var h := hash(id) % U32;
    (h % |table| + k * (1 + h % (|table| - 2))) % |table|
  }

  lemma {:induction false} ReadsBack(ctx: Context, ids: seq<Str>, trans: seq<Str>, places: seq<nat>, table: seq<nat>)
    requires Holds(ctx, ids, trans, places, table)
    ensures forall i: nat :: i < |ids| ==> Orig(ctx, i) == Ok(Found(places[i], |ids[i]|)) && Id(ctx, i) == ids[i]
    ensures forall i: nat :: i < |ids| ==>
              Tran(ctx, i) == Ok(Found(places[|ids| + i], |trans[i]|)) && CString(ctx.data, places[|ids| + i]) == trans[i]
    ensures forall e: nat :: e < |table| ==> Entry(ctx, e) == Ok(table[e])
  {
    hide GetUint32; hide GetString; hide CString; hide HasString; hide HasWord;
    forall i: nat | i < |ids| ensures Orig(ctx, i) == Ok(Found(places[i], |ids[i]|)) && Id(ctx, i) == ids[i] {
      StringRead(ctx, ctx.origOffset + 8 * i, places[i], ids[i]);
    }
    forall i: nat | i < |ids|
      ensures Tran(ctx, i) == Ok(Found(places[|ids| + i], |trans[i]|)) && CString(ctx.data, places[|ids| + i]) == trans[i]
    {
      StringRead(ctx, ctx.tranOffset + 8 * i, places[|ids| + i], trans[i]);
    }
    forall e: nat | e < |table| ensures Entry(ctx, e) == Ok(table[e]) {
      WordIff(ctx, ctx.hashOffset + 4 * e, table[e]);
    }
  }

  /** Exactly the good tables and ids in order are accepted. */
  lemma {:induction false} AcceptedIff(ctx: Context, hash: Hash, cmp: Compare, ids: seq<Str>, trans: seq<Str>, places: seq<nat>, table: seq<nat>)
    requires ctx.present && |table| > 2 && Holds(ctx, ids, trans, places, table)
    ensures Accepted(ctx, hash, cmp) <==> InOrder(ids, cmp) && IsTable(table, |ids|) && Findable(ids, table, hash)
  {
    hide Orig; hide Tran; hide Entry; hide Id; hide CString; hide Holds;
    SameSizes(ctx, ids, trans, places, table);
    ReadsBack(ctx, ids, trans, places, table);
    TableIff(ctx, table, |ids|);
    forall i: nat | i < |ids| ensures Reaches(ctx, hash, i) <==> Finds(ids[i], i, table, hash) {
      forall k: nat | k < |table| ensures ReachesAt(ctx, hash, i, k) <==> FindsAt(ids[i], i, table, hash, k) {
        SameProbe(ctx, hash, ids[i], table, i, k);
      }
    }
  }

  lemma {:induction false} SameSizes(ctx: Context, ids: seq<Str>, trans: seq<Str>, places: seq<nat>, table: seq<nat>)
    requires Holds(ctx, ids, trans, places, table)
    ensures |ids| == |trans| == ctx.indexNum && |places| == 2 * |ids| && |table| == ctx.hashSize
  {
  }

  lemma {:induction false} TableIff(ctx: Context, table: seq<nat>, n: nat)
    requires |table| == ctx.hashSize && n == ctx.indexNum && forall e: nat :: e < |table| ==> Entry(ctx, e) == Ok(table[e])
    ensures TableOK(ctx) <==> IsTable(table, n)
  {
    hide Entry;
    forall i: nat | i < n ensures InTable(ctx, i, ctx.hashSize) <==> Listed(table, i) {
      if Listed(table, i) {
        var e :| 0 <= e < |table| && table[e] == i + 1;
        assert Entry(ctx, e) == Ok(i + 1);
      }
    }
    hide InTable; hide Listed;
    assert forall e: nat :: e < ctx.hashSize ==> table[e] >= 0 && Entry(ctx, e).Ok? && Entry(ctx, e).value == table[e];
    if TableOK(ctx) {
      forall e: nat, f: nat | e < f < |table| && table[e] == table[f] ensures table[e] == 0 {
        assert Entry(ctx, e) == Entry(ctx, f);
      }
      assert forall e: nat :: e < |table| ==> Entry(ctx, e).value <= n;
    }
  }

  lemma {:induction false} SameProbe(ctx: Context, hash: Hash, id: Str, table: seq<nat>, i: nat, k: nat)
    requires |table| == ctx.hashSize > 2 && i < ctx.indexNum && Id(ctx, i) == id
    requires forall e: nat :: e < |table| ==> Entry(ctx, e) == Ok(table[e])
    ensures ReachesAt(ctx, hash, i, k) <==> FindsAt(id, i, table, hash, k)
  {
    hide Entry; hide Id;
    forall j: nat ensures Met(ctx, hash, id, j) == Ok(table[Probe(id, table, hash, j)]) {
    }
  }

  lemma {:induction false} NoneWraps(ctx: Context, ids: seq<Str>, trans: seq<Str>, places: seq<nat>, table: seq<nat>)
    requires Holds(ctx, ids, trans, places, table)
    ensures NoWrap(ctx)
  {
    hide GetUint32; hide HasWord;
    forall i: nat | i < ctx.indexNum
      ensures NoWrapAt(ctx, ctx.origOffset + 8 * i) && NoWrapAt(ctx, ctx.tranOffset + 8 * i)
    {
      assert HasString(ctx, ctx.origOffset + 8 * i, places[i], ids[i]);
      assert HasString(ctx, ctx.tranOffset + 8 * i, places[|ids| + i], trans[i]);
      WordIff(ctx, ctx.origOffset + 8 * i, |ids[i]|);
      WordIff(ctx, ctx.origOffset + 8 * i + 4, places[i]);
      WordIff(ctx, ctx.tranOffset + 8 * i, |trans[i]|);
      WordIff(ctx, ctx.tranOffset + 8 * i + 4, places[|ids| + i]);
    }
  }

  /** libmo_lookup on an image that was written well: with a comparison that is exact on its ids, an id of the image gives
      a translation of that id, and another one gives nothing. */
  method LookupWritten(ctx: Context, hash: Hash, cmp: Compare, orig: Str, ghost ids: seq<Str>, ghost trans: seq<Str>,
                       ghost places: seq<nat>, ghost table: seq<nat>)
    returns (r: Lookup)
    requires ctx.present && |table| > 2 && Holds(ctx, ids, trans, places, table)
    requires InOrder(ids, cmp) && IsTable(table, |ids|) && Findable(ids, table, hash)
    requires forall i :: 0 <= i < |ids| ==> (cmp(orig, ids[i]) == 0 <==> ids[i] == orig)
    requires orig in ids || exists k: nat :: table[Probe(orig, table, hash, k)] == 0
    ensures orig in ids ==> r.Got? && exists i :: 0 <= i < |ids| && ids[i] == orig && CString(ctx.data, r.str.start) == trans[i]
                                                   && r.str.len == |trans[i]|
    ensures orig !in ids ==> r == Missing
  {
    hide Orig; hide Tran; hide Entry; hide Id; hide CString; hide Holds; hide Accepted; hide InOrder; hide IsTable; hide Findable;
    hide Translation; hide NoWrap;
    SameSizes(ctx, ids, trans, places, table);
    ReadsBack(ctx, ids, trans, places, table);
    NoneWraps(ctx, ids, trans, places, table);
    AcceptedIff(ctx, hash, cmp, ids, trans, places, table);
    ghost var k;
    if orig in ids {
      ghost var i :| 0 <= i < |ids| && ids[i] == orig;
      assert StoredAt(ctx, i, orig, 0);
      k := Ends(ctx, hash, cmp, orig, 0);
    } else {
      k :| table[Probe(orig, table, hash, k)] == 0;
      MetIs(ctx, hash, orig, table, k);
    }
    assert LookupEnds(ctx, hash, cmp, orig, 0, k);
    assert Exact(ctx, cmp, orig);
    r, k := LookupId(ctx, hash, cmp, orig, 0);
    forall i: nat | i < |ids| && r == Translation(ctx, i) ensures r == Got(Found(places[|ids| + i], |trans[i]|)) {
      Translated(ctx, i);
    }
  }

  lemma {:induction false} Translated(ctx: Context, i: nat)
    requires Tran(ctx, i).Ok?
    ensures Translation(ctx, i) == Got(Tran(ctx, i).value)
  {
  }

  lemma {:induction false} MetIs(ctx: Context, hash: Hash, id: Str, table: seq<nat>, k: nat)
    requires |table| == ctx.hashSize > 2 && forall e: nat :: e < |table| ==> Entry(ctx, e) == Ok(table[e])
    ensures Met(ctx, hash, id, k) == Ok(table[Probe(id, table, hash, k)])
  {
    hide Entry;
  }
}
