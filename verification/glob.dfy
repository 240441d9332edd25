/** Glob matching with one remembered star, lib/glob.c, against the plain reading of a pattern.

    A pattern is a list of tokens.  The matcher keeps a single point to go back to, the last star; the plain
    reading lets every star stand for any text.  The two agree, with one exception the source has: an inverted
    bracket lets the end of the text pass as a character, and the matcher then reads behind the text.  So does a
    range from a negative to a positive character. */
module Glob {

  /** A signed char.  A text is a C string without its terminator. */
  type Char = x: int | -128 <= x < 128
  type Text = seq<Char>

  datatype Range = Range(lo: Char, hi: Char)
  datatype Token = Any | Star | Lit(c: Char) | Class(inverted: bool, ranges: seq<Range>)

  /** Overrun: the next step would read behind the terminator of the text. */
  datatype Verdict = Yes | No | Overrun

  ghost predicate IsText(s: Text) {
    forall i :: 0 <= i < |s| ==> s[i] != 0
  }

  /** s[i] in C: the terminator may be read, nothing behind it. */
  function CharAt(s: Text, i: nat): Char
    requires i <= |s|
  {
    if i < |s| then s[i] else 0
  }

  // ----- what a pattern means -----

  /** The ranges of a bracket from position p on, and the position behind its end. */
  datatype Bracket = Bad | Good(ranges: seq<Range>, next: nat)

  ghost function Ranges(glob: Text, p: nat): (b: Bracket)
    requires p <= |glob|
    ensures b.Good? ==> p < b.next <= |glob|
    decreases |glob| - p
  {
    if p == |glob| then Bad
    else
      var wide := CharAt(glob, p + 1) == '-' as int && p + 1 < |glob| && CharAt(glob, p + 2) != ']' as int;
      if wide && p + 2 == |glob| then Bad
      else
        var r := Range(glob[p], if wide then glob[p + 2] else glob[p]);
        var next := if wide then p + 3 else p + 1;
        if next < |glob| && glob[next] == ']' as int then Good([r], next + 1)
        else
          var rest := Ranges(glob, next);
          if rest.Bad? then Bad else Good([r] + rest.ranges, rest.next)
  }

  ghost function BracketAt(glob: Text, p: nat): (b: Bracket)
    requires p <= |glob|
    ensures b.Good? ==> p < b.next <= |glob|
  {
    if CharAt(glob, p) == '!' as int && p < |glob| then Ranges(glob, p + 1) else Ranges(glob, p)
  }

  /** The tokens of a pattern from position p on.  A bracket that is not closed is an ordinary character; a
      backslash at the very end stands for nothing. */
  ghost function Tokens(glob: Text, p: nat): seq<Token>
    requires p <= |glob|
    decreases |glob| - p
  {
    if p == |glob| then []
    else if glob[p] == '?' as int then [Any] + Tokens(glob, p + 1)
    else if glob[p] == '*' as int then [Star] + Tokens(glob, p + 1)
    else if glob[p] == '\\' as int then (if p + 1 == |glob| then [] else [Lit(glob[p + 1])] + Tokens(glob, p + 2))
    else if glob[p] == '[' as int && BracketAt(glob, p + 1).Good? then
      var b := BracketAt(glob, p + 1);
      [Class(CharAt(glob, p + 1) == '!' as int, b.ranges)] + Tokens(glob, b.next)
    else [Lit(glob[p])] + Tokens(glob, p + 1)
  }

  ghost predicate InRanges(ranges: seq<Range>, c: Char) {
    exists i :: 0 <= i < |ranges| && ranges[i].lo <= c <= ranges[i].hi
  }

  /** A token other than a star stands for one character. */
  ghost predicate Accepts(t: Token, c: Char) {
    match t
    case Any => true
    case Star => false
    case Lit(l) => l == c
    case Class(inverted, ranges) => InRanges(ranges, c) != inverted
  }

  /** A star stands for any text: it may end here, or take one more character. */
  ghost predicate Matches(toks: seq<Token>, s: Text)
    decreases |toks| + |s|
  {
    if toks == [] then s == []
    else if toks[0].Star? then Matches(toks[1..], s) || (s != [] && Matches(toks, s[1..]))
    else s != [] && Accepts(toks[0], s[0]) && Matches(toks[1..], s[1..])
  }

  /** The tokens from q up to j match the text from position i on. */
  ghost predicate Rest(toks: seq<Token>, q: nat, j: nat, s: Text, i: nat)
    requires q <= j <= |toks| && i <= |s|
  {
    Matches(toks[q..j], s[i..])
  }

  lemma {:induction false} RestAll(toks: seq<Token>, j: nat, s: Text)
    requires j <= |toks|
    ensures Rest(toks, 0, j, s, 0) <==> Matches(toks[..j], s)
    ensures j == |toks| ==> toks[..j] == toks
  {
    assert s[0..] == s && toks[0..j] == toks[..j];
  }

  lemma {:induction false} RestNone(toks: seq<Token>, q: nat, s: Text, i: nat)
    requires q <= |toks| && i <= |s|
    ensures Rest(toks, q, q, s, i) <==> i == |s|
  {
  }

  lemma {:induction false} RestStep(toks: seq<Token>, q: nat, j: nat, s: Text, i: nat)
    requires q < j <= |toks| && i <= |s|
    ensures toks[q].Star? ==>
              (Rest(toks, q, j, s, i) <==> Rest(toks, q + 1, j, s, i) || (i < |s| && Rest(toks, q, j, s, i + 1)))
    ensures !toks[q].Star? ==>
              (Rest(toks, q, j, s, i) <==> i < |s| && Accepts(toks[q], s[i]) && Rest(toks, q + 1, j, s, i + 1))
  {
    assert toks[q..j][1..] == toks[q + 1..j] && toks[q..j][0] == toks[q];
    if i < |s| {
      assert s[i..][1..] == s[i + 1..] && s[i..][0] == s[i];
    }
  }

  /** The tokens match the text from position i or a later one on. */
  ghost predicate Later(toks: seq<Token>, q: nat, j: nat, s: Text, i: nat)
    requires q <= j <= |toks|
  {
    exists a: nat :: i <= a <= |s| && Rest(toks, q, j, s, a)
  }

  lemma {:induction false} LaterStep(toks: seq<Token>, q: nat, j: nat, s: Text, i: nat)
    requires q <= j <= |toks| && i <= |s|
    ensures Later(toks, q, j, s, i) <==> Rest(toks, q, j, s, i) || Later(toks, q, j, s, i + 1)
  {
    hide Rest;
    if Later(toks, q, j, s, i) && !Rest(toks, q, j, s, i) {
      var a: nat :| i <= a <= |s| && Rest(toks, q, j, s, a);
      assert i + 1 <= a;
    }
  }

  /** The plain reading of a star: what is behind it matches from here or from further on. */
  lemma {:induction false} StarLater(toks: seq<Token>, q: nat, j: nat, s: Text, i: nat)
    requires q < j <= |toks| && i <= |s| && toks[q].Star?
    ensures Rest(toks, q, j, s, i) <==> Later(toks, q + 1, j, s, i)
    decreases |s| - i
  {
    hide Rest; hide Later;
    RestStep(toks, q, j, s, i);
    LaterStep(toks, q + 1, j, s, i);
    if i < |s| {
      StarLater(toks, q, j, s, i + 1);
    } else {
      LaterNone(toks, q + 1, j, s, i + 1);
    }
  }

  lemma {:induction false} LaterNone(toks: seq<Token>, q: nat, j: nat, s: Text, i: nat)
    requires q <= j <= |toks| && i > |s|
    ensures !Later(toks, q, j, s, i)
  {
  }

  ghost predicate NoStar(toks: seq<Token>, q: nat, r: nat)
    requires q <= r <= |toks|
  {
    forall k :: q <= k < r ==> !toks[k].Star?
  }

  /** Tokens without a star take one character each. */
  lemma {:induction false} PlainLength(toks: seq<Token>, q: nat, r: nat, j: nat, s: Text, i: nat)
    requires q <= r <= j <= |toks| && i <= |s| && NoStar(toks, q, r) && Rest(toks, q, j, s, i)
    ensures i + (r - q) <= |s| && Rest(toks, r, j, s, i + (r - q))
    decreases r - q
  {
    hide Rest;
    if q < r {
      RestStep(toks, q, j, s, i);
      PlainLength(toks, q + 1, r, j, s, i + 1);
    }
  }

  // ----- the overrun -----

  /** The longest part of the pattern, from its start, that matches the whole text. */
  ghost predicate Longest(toks: seq<Token>, s: Text, q: nat) {
    q <= |toks| && Matches(toks[..q], s) && forall j :: q < j <= |toks| ==> !Matches(toks[..j], s)
  }

  /** A bracket that takes the terminator for one of its characters. */
  ghost predicate Devours(t: Token) {
    t.Class? && Accepts(t, 0)
  }

  /** That part is followed by a bracket that takes the terminator. */
  ghost predicate Runaway(toks: seq<Token>, s: Text) {
    exists q :: 0 <= q < |toks| && Longest(toks, s, q) && Devours(toks[q])
  }

  /** Brackets of ASCII characters take the terminator if and only if they are inverted. */
  lemma {:induction false} AsciiDevours(t: Token)
    requires t.Class? && forall i :: 0 <= i < |t.ranges| ==> t.ranges[i].lo > 0
    ensures Devours(t) <==> t.inverted
  {
  }

  /** Some character matches, unless none is needed. */
  ghost predicate Satisfiable(t: Token) {
    t.Star? || exists c: Char :: c != 0 && Accepts(t, c)
  }

  /** A bracket that takes the terminator comes after tokens that some text can match. */
  ghost predicate Unsafe(toks: seq<Token>) {
    exists j :: 0 <= j < |toks| && Devours(toks[j]) && forall i :: 0 <= i < j ==> Satisfiable(toks[i])
  }

  /** The text, with every star empty, ends right in front of such a bracket. */
  ghost predicate Doomed(toks: seq<Token>, s: Text) {
    toks != [] &&
    if toks[0].Star? then Doomed(toks[1..], s)
    else if s == [] then Devours(toks[0])
    else Accepts(toks[0], s[0]) && Doomed(toks[1..], s[1..])
  }

  /** Every unsafe pattern has a text that is doomed. */
  lemma {:induction false} UnsafeDoomed(toks: seq<Token>) returns (s: Text)
    requires Unsafe(toks)
    ensures IsText(s) && Doomed(toks, s)
  {
    var t := toks[0];
    if Devours(t) {
      s := [];
    } else {
      hide Accepts;
      var j :| 0 <= j < |toks| && Devours(toks[j]) && forall i :: 0 <= i < j ==> Satisfiable(toks[i]);
      assert j > 0 && toks[1..][j - 1] == toks[j];
      assert forall i :: 0 <= i < j - 1 ==> toks[1..][i] == toks[i + 1];
      s := UnsafeDoomed(toks[1..]);
      if !t.Star? {
        var c: Char :| c != 0 && Accepts(t, c);
        assert ([c] + s)[1..] == s;
        s := [c] + s;
      }
    }
  }

  // ----- the matcher -----

  lemma {:induction false} InMore(d: seq<Range>, r: Range, c: Char)
    ensures InRanges(d + [r], c) <==> InRanges(d, c) || r.lo <= c <= r.hi
  {
    if InRanges(d, c) {
      var i :| 0 <= i < |d| && d[i].lo <= c <= d[i].hi;
      assert (d + [r])[i] == d[i];
    }
    assert (d + [r])[|d|] == r;
  }

  lemma {:induction false} InNone(c: Char)
    ensures !InRanges([], c)
  {
  }

  /** One round of the loop over a bracket. */
  lemma {:induction false} NextRange(glob: Text, p0: nat, p: nat, d: seq<Range>)
    requires IsText(glob) && p0 <= p <= |glob|
    requires var b := Ranges(glob, p); Ranges(glob, p0) == if b.Bad? then Bad else Good(d + b.ranges, b.next)
    ensures p == |glob| ==> Ranges(glob, p0) == Bad
    ensures p < |glob| ==>
      var wide := CharAt(glob, p + 1) == '-' as int && CharAt(glob, p + 2) != ']' as int;
      var next := if wide then p + 3 else p + 1;
      if wide && p + 2 == |glob| then Ranges(glob, p0) == Bad
      else
        (var d' := d + [Range(glob[p], if wide then glob[p + 2] else glob[p])];
         next <= |glob| &&
         if CharAt(glob, next) == ']' as int then Ranges(glob, p0) == Good(d', next + 1)
         else
           (var b := Ranges(glob, next); Ranges(glob, p0) == if b.Bad? then Bad else Good(d' + b.ranges, b.next)))
  {
    if p < |glob| {
      var wide := CharAt(glob, p + 1) == '-' as int && CharAt(glob, p + 2) != ']' as int;
      if !(wide && p + 2 == |glob|) {
        var next := if wide then p + 3 else p + 1;
        var x := Range(glob[p], if wide then glob[p + 2] else glob[p]);
        assert forall t: seq<Range> :: d + ([x] + t) == (d + [x]) + t;
      }
    }
  }

  /** The loop over a bracket: whether it is closed, whether stch is in one of its ranges, and where it ends. */
  method ScanBracket(glob: Text, g: nat, stch: Char) returns (closed: bool, found: bool, next: nat)
    requires IsText(glob) && g <= |glob|
    ensures var b := BracketAt(glob, g);
      (closed <==> b.Good?) && (closed ==> next == b.next && (found <==> InRanges(b.ranges, stch)))
  {
    hide Ranges; hide InRanges;
    var inverted := CharAt(glob, g) == '!' as int;
    var class_ := if inverted then g + 1 else g;
    ghost var p0, d: seq<Range> := class_, [];
    InNone(stch);
    found := false;
    next := g;
    closed := false;
    var tcha := CharAt(glob, class_);
    class_ := class_ + 1;
    while true
      invariant 1 <= class_ <= |glob| + 1 && tcha == CharAt(glob, class_ - 1) && class_ - 1 >= p0
      invariant found == InRanges(d, stch)
      invariant var b := Ranges(glob, class_ - 1);
        Ranges(glob, p0) == if b.Bad? then Bad else Good(d + b.ranges, b.next)
      decreases |glob| + 1 - class_
    {
      var tchb := tcha;
      NextRange(glob, p0, class_ - 1, d);
      if tcha == 0 {
        return;
      }
      if CharAt(glob, class_) == '-' as int && CharAt(glob, class_ + 1) != ']' as int {
        tchb := CharAt(glob, class_ + 1);
        if tchb == 0 {
          return;
        }
        class_ := class_ + 2;
      }
      found := found || tcha <= stch <= tchb;
      InMore(d, Range(tcha, tchb), stch);
      d := d + [Range(tcha, tchb)];
      tcha := CharAt(glob, class_);
      class_ := class_ + 1;
      if tcha == ']' as int {
        closed, next := true, class_;
        return;
      }
    }
  }

  // ----- going back -----

  /** The tokens from qb up to q, none a star, have taken the characters from at up to i. */
  ghost predicate Walked(toks: seq<Token>, s: Text, qb: nat, at: nat, q: nat, i: nat) {
    && qb <= q <= |toks| && at <= i <= |s| && q - qb == i - at
    && forall k :: qb <= k < q ==> !toks[k].Star? && Accepts(toks[k], s[at + (k - qb)])
  }

  /** What is to be decided, for the pattern cut off anywhere behind qb: the last star is right before qb, and what is
      behind it is tried from position at on.  Without a star, qb and at are 0. */
  ghost predicate Open(toks: seq<Token>, s: Text, starred: bool, qb: nat, at: nat) {
    && qb <= |toks| && at <= |s|
    && (!starred ==> qb == 0 && at == 0)
    && (starred ==> forall j :: qb <= j <= |toks| ==> (Rest(toks, 0, j, s, 0) <==> Later(toks, qb, j, s, at)))
  }

  lemma {:induction false} WalkedRest(toks: seq<Token>, s: Text, qb: nat, at: nat, q: nat, i: nat, j: nat)
    requires Walked(toks, s, qb, at, q, i) && qb <= j <= |toks|
    ensures j >= q ==> (Rest(toks, qb, j, s, at) <==> Rest(toks, q, j, s, i))
    ensures j <= q ==> (Rest(toks, qb, j, s, at) <==> at + (j - qb) == |s|)
    decreases q - qb
  {
    hide Rest; hide Accepts;
    if qb == j {
      RestNone(toks, qb, s, at);
    } else if qb < q {
      RestStep(toks, qb, j, s, at);
      assert Accepts(toks[qb], s[at]);
      WalkedRest(toks, s, qb + 1, at + 1, q, i, j);
    }
  }

  lemma {:induction false} WalkOn(toks: seq<Token>, s: Text, qb: nat, at: nat, q: nat, i: nat)
    requires Walked(toks, s, qb, at, q, i) && q < |toks| && i < |s| && !toks[q].Star? && Accepts(toks[q], s[i])
    ensures Walked(toks, s, qb, at, q + 1, i + 1)
  {
    hide Accepts;
  }

  /** A new star makes the old one pointless: whatever a later start of the old one could reach, the new star
      reaches from here, because the tokens in between take a fixed number of characters. */
  lemma {:induction false} StarForget(toks: seq<Token>, s: Text, qb: nat, at: nat, q: nat, i: nat, j: nat)
    requires Walked(toks, s, qb, at, q, i) && q < j <= |toks| && toks[q].Star?
    ensures Later(toks, qb, j, s, at) <==> Later(toks, q + 1, j, s, i)
  {
    hide Rest; hide Accepts;
    WalkedRest(toks, s, qb, at, q, i, j);
    StarLater(toks, q, j, s, i);
    if Later(toks, qb, j, s, at) {
      var a: nat :| at <= a <= |s| && Rest(toks, qb, j, s, a);
      PlainLength(toks, qb, q, j, s, a);
      StarLater(toks, q, j, s, a + (q - qb));
    }
  }

  lemma {:induction false} NewStar(toks: seq<Token>, s: Text, starred: bool, qb: nat, at: nat, q: nat, i: nat)
    requires Open(toks, s, starred, qb, at) && Walked(toks, s, qb, at, q, i) && q < |toks| && toks[q].Star?
    ensures Open(toks, s, true, q + 1, i) && Walked(toks, s, q + 1, i, q + 1, i)
  {
    hide Rest; hide Accepts; hide Later;
    forall j | q < j <= |toks| ensures Rest(toks, 0, j, s, 0) <==> Later(toks, q + 1, j, s, i) {
      if starred {
        StarForget(toks, s, qb, at, q, i, j);
      } else {
        WalkedRest(toks, s, 0, 0, q, i, j);
        StarLater(toks, q, j, s, i);
      }
    }
  }

  /** The first token left cannot take the character at i; at the end of the text none but such a bracket would. */
  ghost predicate Refused(toks: seq<Token>, s: Text, q: nat, i: nat) {
    && q <= |toks| && i <= |s|
    && if q == |toks| then i < |s| else !toks[q].Star? && (i < |s| ==> !Accepts(toks[q], s[i]))
  }

  lemma {:induction false} RefusedRest(toks: seq<Token>, s: Text, q: nat, i: nat, j: nat)
    requires Refused(toks, s, q, i) && q <= j <= |toks|
    ensures q < j || i < |s| ==> !Rest(toks, q, j, s, i)
  {
    hide Rest; hide Accepts;
    if q < j {
      RestStep(toks, q, j, s, i);
    } else {
      RestNone(toks, q, s, i);
    }
  }

  /** The last star takes one more character. */
  lemma {:induction false} GoBack(toks: seq<Token>, s: Text, qb: nat, at: nat, q: nat, i: nat)
    requires Open(toks, s, true, qb, at) && Walked(toks, s, qb, at, q, i) && Refused(toks, s, q, i) && i < |s|
    ensures Open(toks, s, true, qb, at + 1) && Walked(toks, s, qb, at + 1, qb, at + 1)
  {
    hide Rest; hide Accepts; hide Later; hide Refused;
    forall j | qb <= j <= |toks| ensures Rest(toks, 0, j, s, 0) <==> Later(toks, qb, j, s, at + 1) {
      WalkedRest(toks, s, qb, at, q, i, j);
      LaterStep(toks, qb, j, s, at);
      if j >= q {
        RefusedRest(toks, s, q, i, j);
      }
    }
  }

  /** At the end of the text there is nothing to go back for: later starts leave too few characters.  So where the
      matcher stands is the longest part of the pattern that matches the whole text. */
  lemma {:induction false} AtEnd(toks: seq<Token>, s: Text, starred: bool, qb: nat, at: nat, q: nat)
    requires Open(toks, s, starred, qb, at) && Walked(toks, s, qb, at, q, |s|) && (q < |toks| ==> !toks[q].Star?)
    ensures Longest(toks, s, q)
  {
    hide Rest; hide Accepts; hide Later; hide Matches;
    forall j | q <= j <= |toks| ensures Matches(toks[..j], s) <==> j == q {
      RestAll(toks, j, s);
      WalkedRest(toks, s, qb, at, q, |s|, j);
      if j > q {
        RestStep(toks, q, j, s, |s|);
      }
      if starred {
        LaterStep(toks, qb, j, s, at);
        NoLater(toks, s, qb, at, q, j);
      }
    }
  }

  lemma {:induction false} NoLater(toks: seq<Token>, s: Text, qb: nat, at: nat, q: nat, j: nat)
    requires Walked(toks, s, qb, at, q, |s|) && q <= j <= |toks|
    ensures !Later(toks, qb, j, s, at + 1)
  {
    hide Rest; hide Accepts;
    if Later(toks, qb, j, s, at + 1) {
      var a: nat :| at + 1 <= a <= |s| && Rest(toks, qb, j, s, a);
      PlainLength(toks, qb, q, j, s, a);
    }
  }

  lemma {:induction false} StartSearch(toks: seq<Token>, s: Text)
    ensures Open(toks, s, false, 0, 0) && Walked(toks, s, 0, 0, 0, 0) && toks[0..] == toks
  {
  }

  lemma {:induction false} OnlyWay(toks: seq<Token>, s: Text, qb: nat, at: nat, q: nat, i: nat)
    requires Open(toks, s, false, qb, at) && Walked(toks, s, qb, at, q, i) && Refused(toks, s, q, i) && i < |s|
    ensures forall j :: 0 <= j <= |toks| ==> !Matches(toks[..j], s)
  {
    hide Matches;
    NoWay(toks, s, q, i);
  }

  /** Without a star there is nothing to go back to. */
  lemma {:induction false} NoWay(toks: seq<Token>, s: Text, q: nat, i: nat)
    requires Walked(toks, s, 0, 0, q, i) && Refused(toks, s, q, i) && i < |s|
    ensures forall j :: 0 <= j <= |toks| ==> !Matches(toks[..j], s)
  {
    hide Rest; hide Accepts; hide Matches; hide Refused;
    forall j | 0 <= j <= |toks| ensures !Matches(toks[..j], s) {
      RestAll(toks, j, s);
      WalkedRest(toks, s, 0, 0, q, i, j);
      if j >= q {
        RefusedRest(toks, s, q, i, j);
      }
    }
  }

  /** A star at the end of the pattern takes what is left. */
  lemma {:induction false} LastStar(toks: seq<Token>, s: Text, at: nat)
    requires Open(toks, s, true, |toks|, at)
    ensures Matches(toks, s)
  {
    hide Rest; hide Matches;
    RestAll(toks, |toks|, s);
    RestNone(toks, |toks|, s, |s|);
  }

  lemma {:induction false} WholeLongest(toks: seq<Token>, s: Text, q: nat)
    requires Longest(toks, s, q)
    ensures Matches(toks, s) <==> q == |toks|
    ensures Runaway(toks, s) <==> q < |toks| && Devours(toks[q])
  {
    hide Matches;
    assert toks[..|toks|] == toks;
  }

  lemma {:induction false} NoneLongest(toks: seq<Token>, s: Text)
    requires forall j :: 0 <= j <= |toks| ==> !Matches(toks[..j], s)
    ensures !Matches(toks, s) && !Runaway(toks, s)
  {
    assert toks[..|toks|] == toks;
  }

  lemma {:induction false} MatchedNoRunaway(toks: seq<Token>, s: Text)
    requires Matches(toks, s)
    ensures !Runaway(toks, s)
  {
    hide Matches;
    assert toks[..|toks|] == toks;
  }

  lemma {:induction false} TextAt(s: Text, i: nat)
    requires IsText(s) && i <= |s|
    ensures CharAt(s, i) == 0 <==> i == |s|
  {
  }

  /** What the matcher sees at position g is the first token that is left. */
  lemma {:induction false} TokenAt(glob: Text, g: nat)
    requires IsText(glob) && g <= |glob|
    ensures CharAt(glob, g) == 0 <==> g == |glob|
    ensures g < |glob| ==> (CharAt(glob, g + 1) == 0 <==> g + 1 == |glob|)
    ensures g < |glob| && g + 1 == |glob| ==> Tokens(glob, g + 1) == []
    ensures var t, c := Tokens(glob, g), CharAt(glob, g);
      && (c == 0 ==> t == [])
      && (c == '?' as int ==> t == [Any] + Tokens(glob, g + 1))
      && (c == '*' as int ==> t == [Star] + Tokens(glob, g + 1))
      && (c == '\\' as int ==> t == if g + 1 == |glob| then [] else [Lit(glob[g + 1])] + Tokens(glob, g + 2))
      && (g < |glob| && c == '[' as int && BracketAt(glob, g + 1).Good? ==>
            var b := BracketAt(glob, g + 1); t == [Class(CharAt(glob, g + 1) == '!' as int, b.ranges)] + Tokens(glob, b.next))
      && (g < |glob| && c == '[' as int && BracketAt(glob, g + 1).Bad? ==> t == [Lit(c)] + Tokens(glob, g + 1))
      && (c != 0 && c != '?' as int && c != '*' as int && c != '\\' as int && c != '[' as int ==> t == [Lit(c)] + Tokens(glob, g + 1))
  {
    hide BracketAt; hide Ranges;
  }

  /** The first token that is left. */
  lemma {:induction false} FirstLeft(toks: seq<Token>, q: nat, t: Token, rest: seq<Token>)
    requires q <= |toks| && toks[q..] == [t] + rest
    ensures q < |toks| && toks[q] == t && toks[q + 1..] == rest
  {
    assert q < |toks|;
    assert toks[q + 1..] == toks[q..][1..];
  }

  /** glob_match: yes exactly for the texts that match, and an overrun exactly for those of which the longest part
      of the pattern that matches them whole is followed by a bracket that takes the terminator. */
  method GlobMatch(glob: Text, str: Text) returns (v: Verdict)
    requires IsText(glob) && IsText(str)
    ensures v == Yes <==> Matches(Tokens(glob, 0), str)
    ensures v == Overrun <==> Runaway(Tokens(glob, 0), str)
  {
    hide Matches; hide Tokens; hide IsText; hide InRanges; hide BracketAt; hide Ranges; hide Walked; hide Open;
    hide Longest; hide Runaway;
    ghost var toks := Tokens(glob, 0);
    var g: nat, i: nat, starred, bglob: nat, bstring: nat := 0, 0, false, 0, 0;
    ghost var q: nat, qb: nat := 0, 0;
    StartSearch(toks, str);
    while true
      invariant g <= |glob| && i <= |str| && q <= |toks| && toks[q..] == Tokens(glob, g)
      invariant Open(toks, str, starred, qb, bstring) && Walked(toks, str, qb, bstring, q, i)
      invariant starred ==> bglob <= g && qb <= |toks| && toks[qb..] == Tokens(glob, bglob) && bstring <= i
      decreases if starred then |glob| - bglob else |glob| + 1, |str| - bstring, |glob| - g
    {
      var glch := CharAt(glob, g);
      var stch := CharAt(str, i);
      TokenAt(glob, g);
      TextAt(str, i);
      if glch == '?' as int {
        FirstLeft(toks, q, Any, Tokens(glob, g + 1));
        if stch == 0 {
          AtEnd(toks, str, starred, qb, bstring, q);
          WholeLongest(toks, str, q);
          return No;
        }
        WalkOn(toks, str, qb, bstring, q, i);
        g, i, q := g + 1, i + 1, q + 1;
      } else if glch == '*' as int {
        FirstLeft(toks, q, Star, Tokens(glob, g + 1));
        NewStar(toks, str, starred, qb, bstring, q, i);
        if CharAt(glob, g + 1) == 0 {
          assert q + 1 == |toks|;
          LastStar(toks, str, i);
          MatchedNoRunaway(toks, str);
          return Yes;
        }
        starred, bglob, bstring := true, g + 1, i;
        g, q := g + 1, q + 1;
        qb := q;
      } else {
        var same, next := false, g + 1;
        var closed, found, behind := false, false, g;
        if glch == '[' as int {
          closed, found, behind := ScanBracket(glob, g + 1, stch);
        }
        if closed {
          same, next := found != (CharAt(glob, g + 1) == '!' as int), behind;
          FirstLeft(toks, q, Class(CharAt(glob, g + 1) == '!' as int, BracketAt(glob, g + 1).ranges), Tokens(glob, behind));
        } else {
          if glch == '\\' as int {
            glch := CharAt(glob, g + 1);
            next := g + 2;
          }
          same := glch == stch;
          if glch != 0 {
            FirstLeft(toks, q, Lit(glch), Tokens(glob, next));
          }
          if same && glch == 0 {
            AtEnd(toks, str, starred, qb, bstring, q);
            WholeLongest(toks, str, q);
            return Yes;
          }
        }
        if i == |str| {
          AtEnd(toks, str, starred, qb, bstring, q);
          WholeLongest(toks, str, q);
          return if same then Overrun else No;
        }
        if same {
          WalkOn(toks, str, qb, bstring, q, i);
          g, i, q := next, i + 1, q + 1;
        } else {
          if !starred {
            OnlyWay(toks, str, qb, bstring, q, i);
            NoneLongest(toks, str);
            return No;
          }
          GoBack(toks, str, qb, bstring, q, i);
          bstring := bstring + 1;
          g, i, q := bglob, bstring, qb;
        }
      }
    }
  }

  // ----- which patterns overrun -----

  /** Exactly the unsafe patterns can overrun, each on the text given here. */
  lemma {:induction false} UnsafePatternOverruns(glob: Text) returns (str: Text)
    requires IsText(glob) && Unsafe(Tokens(glob, 0))
    ensures IsText(str) && Runaway(Tokens(glob, 0), str)
  {
    str := UnsafeDoomed(Tokens(glob, 0));
    DoomedRunaway(Tokens(glob, 0), str);
  }

  lemma {:induction false} RunawayUnsafe(toks: seq<Token>, s: Text)
    requires IsText(s) && Runaway(toks, s)
    ensures Unsafe(toks)
  {
    var q :| 0 <= q < |toks| && Longest(toks, s, q) && Devours(toks[q]);
    MatchedSatisfiable(toks[..q], s);
    forall i | 0 <= i < q ensures Satisfiable(toks[i]) {
      assert toks[..q][i] == toks[i];
    }
  }

  lemma {:induction false} MatchedSatisfiable(toks: seq<Token>, s: Text)
    requires IsText(s) && Matches(toks, s)
    ensures forall i :: 0 <= i < |toks| ==> Satisfiable(toks[i])
    decreases |toks| + |s|
  {
    if toks != [] {
      if toks[0].Star? && !Matches(toks[1..], s) {
        MatchedSatisfiable(toks, s[1..]);
      } else {
        MatchedSatisfiable(toks[1..], if toks[0].Star? then s else s[1..]);
        forall i | 0 <= i < |toks| ensures Satisfiable(toks[i]) {
          assert i > 0 ==> toks[i] == toks[1..][i - 1];
        }
      }
    }
  }

  /** Number of tokens that stand for one character. */
  ghost function Plain(toks: seq<Token>): nat {
    if toks == [] then 0 else (if toks[0].Star? then 0 else 1) + Plain(toks[1..])
  }

  lemma {:induction false} PlainMost(toks: seq<Token>, s: Text)
    requires Matches(toks, s)
    ensures Plain(toks) <= |s|
    decreases |toks| + |s|
  {
    if toks != [] {
      if toks[0].Star? && !Matches(toks[1..], s) {
        PlainMost(toks, s[1..]);
      } else {
        PlainMost(toks[1..], if toks[0].Star? then s else s[1..]);
      }
    }
  }

  lemma {:induction false} PlainGrows(toks: seq<Token>, q: nat, j: nat)
    requires q < j <= |toks| && !toks[q].Star?
    ensures Plain(toks[..j]) > Plain(toks[..q])
  {
    if q > 0 {
      PlainGrows(toks[1..], q - 1, j - 1);
      assert toks[..j][1..] == toks[1..][..j - 1] && toks[..q][1..] == toks[1..][..q - 1];
    }
  }

  lemma {:induction false} DoomedSplit(toks: seq<Token>, s: Text) returns (q: nat)
    requires Doomed(toks, s)
    ensures q < |toks| && Devours(toks[q]) && Matches(toks[..q], s) && Plain(toks[..q]) == |s|
  {
    if toks[0].Star? {
      q := DoomedSplit(toks[1..], s);
      q := q + 1;
      assert toks[..q][1..] == toks[1..][..q - 1];
    } else if s == [] {
      q := 0;
    } else {
      q := DoomedSplit(toks[1..], s[1..]);
      q := q + 1;
      assert toks[..q][1..] == toks[1..][..q - 1];
    }
  }

  lemma {:induction false} DoomedRunaway(toks: seq<Token>, s: Text)
    requires Doomed(toks, s)
    ensures Runaway(toks, s)
  {
    var q := DoomedSplit(toks, s);
    forall j | q < j <= |toks| ensures !Matches(toks[..j], s) {
      PlainGrows(toks, q, j);
      if Matches(toks[..j], s) {
        PlainMost(toks[..j], s);
      }
    }
  }

  /** The shortest one: pattern [!a], empty text. */
  lemma {:induction false} InvertedOverruns(glob: Text)
    requires glob == ['[' as int, '!' as int, 'a' as int, ']' as int]
    ensures Unsafe(Tokens(glob, 0)) && Runaway(Tokens(glob, 0), [])
  {
    var r := Range('a' as int, 'a' as int);
    assert Ranges(glob, 2) == Good([r], 4);
    assert BracketAt(glob, 1) == Good([r], 4);
    var t := Tokens(glob, 0);
    assert t == [Class(true, [r])] + Tokens(glob, 4);
    assert Devours(t[0]);
    DoomedRunaway(t, []);
  }
}
