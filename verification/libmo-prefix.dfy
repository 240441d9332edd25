/** What libmo_lookup finds with the repository's own strcmp, which calls an id equal to each of its extensions. */
module LibmoPrefix {
  import opened LibmoProbe
  import opened Libmo
  import opened LibmoWritten
  import W = Words

  /** The verdict that Libmo.Strcmp proves of the comparison.  For two empty strings the code reads behind their
      terminators, and nothing is said. */
  ghost predicate OwnCompare(cmp: Compare) {
    && (forall s: Str, t: Str :: s != [] ==> (cmp(s, t) == 0 <==> s <= t))
    && (forall t: Str :: t != [] ==> cmp([], t) != 0)
  }

  /** The message met at step k, if any, has the id that is asked for. */
  ghost predicate RightAt(ctx: Context, hash: Hash, orig: Str, k: nat)
    requires ctx.hashSize > 2
  {
    var m := Met(ctx, hash, orig, k);
    m.Ok? && m.value > 0 && Id(ctx, m.value - 1) == orig
  }

  /** A message whose id extends what is asked for is met, before any that has that id and before an empty entry. */
  ghost predicate ExtensionFirst(ctx: Context, hash: Hash, orig: Str)
    requires ctx.hashSize > 2
  {
    exists m: nat :: ExtensionAt(ctx, hash, orig, m)
  }

  ghost predicate ExtensionAt(ctx: Context, hash: Hash, orig: Str, m: nat)
    requires ctx.hashSize > 2
  {
    && Passes(ctx, hash, orig, m + 1)
    && orig < Id(ctx, Met(ctx, hash, orig, m).value - 1)
    && forall j: nat :: j < m ==> !RightAt(ctx, hash, orig, j)
  }

  /** With no length given, and something found, it is the right message if and only if no extension is met first. */
  lemma {:induction false} RightUnlessExtended(ctx: Context, hash: Hash, cmp: Compare, orig: Str, k: nat)
    requires ctx.hashSize > 2 && Accepted(ctx, hash, cmp) && OwnCompare(cmp) && orig != []
    requires StopsAt(ctx, hash, cmp, orig, 0, k) && Met(ctx, hash, orig, k) != Ok(0)
    ensures RightAt(ctx, hash, orig, k) <==> !ExtensionFirst(ctx, hash, orig)
  {
    hide Met; hide Id; hide Orig; hide Accepted;
    if ExtensionFirst(ctx, hash, orig) {
      var m: nat :| ExtensionAt(ctx, hash, orig, m);
      EntryKnown(ctx, hash, cmp, orig, m);
    }
    if !RightAt(ctx, hash, orig, k) {
      forall j: nat | j < k ensures !RightAt(ctx, hash, orig, j) {
        EntryKnown(ctx, hash, cmp, orig, j);
      }
      assert ExtensionAt(ctx, hash, orig, k);
    }
  }

  /** What a caller can check of the image: no stored id properly extends the one asked for. */
  ghost predicate NoExtension(ctx: Context, orig: Str) {
    forall i: nat :: i < ctx.indexNum ==> !(orig < Id(ctx, i))
  }

  lemma {:induction false} NoExtensionExact(ctx: Context, cmp: Compare, orig: Str)
    requires OwnCompare(cmp)
    ensures orig != [] ==> (NoExtension(ctx, orig) <==> Exact(ctx, cmp, orig))
    ensures orig == [] ==> Exact(ctx, cmp, orig)
  {
    hide Id;
  }

  /** A caller that passes the length of the id is never given another message, extended or not. */
  lemma {:induction false} LengthMakesRight(ctx: Context, hash: Hash, cmp: Compare, orig: Str, k: nat)
    requires ctx.hashSize > 2 && OwnCompare(cmp) && NoWrap(ctx) && orig != []
    requires StopsAt(ctx, hash, cmp, orig, |orig|, k) && Met(ctx, hash, orig, k) != Ok(0)
    ensures RightAt(ctx, hash, orig, k)
  {
    hide Met; hide GetString; hide CString; hide Passes;
    var i := Met(ctx, hash, orig, k).value - 1;
    StringInside(ctx, ctx.origOffset + 8 * i);
  }

  /** The empty id, that of the header entry, is found if and only if the comparison of two empty strings, which reads
      behind their ends, comes out as equal; then what is found is a message with that id. */
  lemma {:induction false} EmptyQuery(ctx: Context, hash: Hash, cmp: Compare, k: nat)
    requires ctx.hashSize > 2 && Accepted(ctx, hash, cmp) && OwnCompare(cmp)
    requires StopsAt(ctx, hash, cmp, [], 0, k) && Stored(ctx, [], 0)
    ensures Met(ctx, hash, [], k) != Ok(0) <==> cmp([], []) == 0
    ensures Met(ctx, hash, [], k) != Ok(0) ==> RightAt(ctx, hash, [], k)
  {
    hide Met; hide Id; hide Orig;
    var i: nat :| i < ctx.indexNum && StoredAt(ctx, i, [], 0);
    assert Reaches(ctx, hash, i);
    var m: nat :| m < ctx.hashSize && ReachesAt(ctx, hash, i, m);
  }

  // ----- an image on which the wrong message is found -----

  // An image with the ids "ab" and "abc", the translations "x" and "y", and a table of three entries.

  /** Header, descriptors of ids and of translations, table. */
  function Words(): (r: seq<nat>)
    ensures |r| == 18
  {
    [0x950412de, 0, 2, 28, 44, 3, 60, 2, 72, 3, 75, 1, 79, 1, 81, 2, 1, 0]
  }

  function Text(): seq<Byte> {
    [97, 98, 0, 97, 98, 99, 0, 120, 0, 121, 0]
  }

  function Image(): seq<Byte> {
    seq(72, i requires 0 <= i < 72 => Octet(Words()[i / 4], i % 4)) + Text()
  }

  function Pair(): Context {
    Context(true, Image(), false, 2, 3, 28, 44, 60)
  }

  lemma {:induction false} WordAt(k: nat)
    requires k < 18
    ensures GetUint32(Pair(), 4 * k) == Ok(Words()[k])
  {
    hide Words; hide Octet; hide GetUint32;
    var w := Words()[k];
    var data := Image();
    forall b: nat | b < 4 ensures data[4 * k + b] == Octet(w, b) {
      assert (4 * k + b) / 4 == k && (4 * k + b) % 4 == b;
    }
    WordsBelow(k);
    WordIff(Pair(), 4 * k, w);
  }

  lemma {:induction false} WordsBelow(k: nat)
    requires k < 18
    ensures Words()[k] < Libmo.U32
  {
  }

  lemma {:induction false} PairWords()
    ensures GetUint32(Pair(), 28) == Ok(2) && GetUint32(Pair(), 32) == Ok(72)
    ensures GetUint32(Pair(), 36) == Ok(3) && GetUint32(Pair(), 40) == Ok(75)
    ensures GetUint32(Pair(), 44) == Ok(1) && GetUint32(Pair(), 48) == Ok(79)
    ensures GetUint32(Pair(), 52) == Ok(1) && GetUint32(Pair(), 56) == Ok(81)
    ensures GetUint32(Pair(), 60) == Ok(2) && GetUint32(Pair(), 64) == Ok(1) && GetUint32(Pair(), 68) == Ok(0)
  {
    hide GetUint32; hide Image;
    WordAt(7); WordAt(8); WordAt(9); WordAt(10); WordAt(11); WordAt(12);
    WordAt(13); WordAt(14); WordAt(15); WordAt(16); WordAt(17);
  }

  lemma {:induction false} PairText()
    ensures |Image()| == 83 && Image()[74] == 0 && Image()[78] == 0 && Image()[80] == 0 && Image()[82] == 0
    ensures Image()[72..75] == [97, 98, 0] && Image()[75..79] == [97, 98, 99, 0]
  {
    hide Words; hide Octet;
    var head := Image()[..72];
    assert forall j :: 0 <= j < 11 ==> Image()[72 + j] == Text()[j];
    assert Image()[72..75] == Text()[0..3] && Image()[75..79] == Text()[3..7];
  }

  lemma {:induction false} PairIds()
    ensures Orig(Pair(), 0) == Ok(Found(72, 2)) && Orig(Pair(), 1) == Ok(Found(75, 3))
    ensures Id(Pair(), 0) == [97, 98] && Id(Pair(), 1) == [97, 98, 99]
    ensures Entry(Pair(), 0) == Ok(2) && Entry(Pair(), 1) == Ok(1) && Entry(Pair(), 2) == Ok(0)
    ensures Translation(Pair(), 0) == Got(Found(79, 1)) && Translation(Pair(), 1) == Got(Found(81, 1))
    ensures NoWrap(Pair())
  {
    hide GetUint32; hide Image; hide CString;
    PairWords();
    PairText();
    assert [97, 98] + [0] == [97, 98, 0] && [97, 98, 99] + [0] == [97, 98, 99, 0];
    CStringIs(Image(), 72, [97, 98]);
    CStringIs(Image(), 75, [97, 98, 99]);
  }

  /** pjwhash on 64-bit words; characters are signed. */
  function Pjw(s: Str): nat {
    if s == [] then 0 else Stir(Pjw(s[..|s| - 1]), s[|s| - 1])
  }

  function Stir(hash: nat, c: Byte): nat {
    var sum := W.Wrap(hash * 16 + if c < 128 then c else c + (W.U64 - 256));
    var value := W.And(sum, 0xf000_0000);
    if value == 0 then sum else W.Xor(W.Xor(sum, value / 0x100_0000), value)
  }

  lemma {:induction false} StirSmall(hash: nat, c: Byte)
    requires c < 128 && hash * 16 + c < 0x1000_0000
    ensures Stir(hash, c) == hash * 16 + c
  {
    hide W.And;
    W.PowSum(14, 14);
    assert W.Pow2(14) == 0x4000;
    W.AndAbove(hash * 16 + c, 15, 28);
  }

  lemma {:induction false} PairHashes()
    ensures Pjw([97, 98]) == 1650 && Pjw([97, 98, 99]) == 26499
  {
    hide Stir;
    assert [97, 98, 99][..2] == [97, 98] && [97, 98][..1] == [97] && [97][..0] == [];
    StirSmall(0, 97);
    StirSmall(97, 98);
    StirSmall(1650, 99);
  }

  /** Both ids hash to entry 0 with increment 1.  The verifier accepts the image, and the lookup of "ab" gives the
      translation of "abc". */
  lemma {:induction false} WrongMessage(cmp: Compare)
    requires OwnCompare(cmp)
    ensures NoWrap(Pair()) && Prime(Pair().hashSize) && Accepted(Pair(), Pjw, cmp) && Stored(Pair(), [97, 98], 0)
    ensures StopsAt(Pair(), Pjw, cmp, [97, 98], 0, 0)
    ensures Outcome(Pair(), Pjw, [97, 98], 0) == Translation(Pair(), 1) != Translation(Pair(), 0)
    ensures Id(Pair(), 0) == [97, 98] != Id(Pair(), 1)
  {
    hide GetUint32; hide GetString; hide Orig; hide Tran; hide CString; hide Id; hide Translation; hide Entry; hide Image;
    hide Pjw;
    PairHashes();
    PairIds();
    var ctx := Pair();
    forall k: nat | k < 2 ensures Slot(0, 1, 3, k) == k {
    }
    assert Start(Pjw, [97, 98], 3) == 0 && Incr(Pjw, [97, 98], 3) == 1;
    assert Start(Pjw, [97, 98, 99], 3) == 0 && Incr(Pjw, [97, 98, 99], 3) == 1;
    assert ReachesAt(ctx, Pjw, 0, 1) && ReachesAt(ctx, Pjw, 1, 0);
    assert InTable(ctx, 0, 3) && InTable(ctx, 1, 3);
    assert StoredAt(ctx, 0, [97, 98], 0);
  }
}
