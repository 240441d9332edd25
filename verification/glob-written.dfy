/** Patterns written out: what each part of a pattern stands for, and that the matcher reads it so. */
module GlobWritten {
  import opened Glob

  /** What stands between the brackets: single characters and ranges. */
  datatype Item = Single(c: Char) | Span(lo: Char, hi: Char)

  /** Unclosed is a bracket that is never closed, Slash a backslash at the very end. */
  datatype Part = AnyOne | AnyText | Plain(c: Char) | Escaped(c: Char) | Bracket(inverted: bool, items: seq<Item>) | Unclosed | Slash

  function WriteItem(item: Item): (r: Text)
    ensures r != []
  {
    match item
    case Single(c) => [c]
    case Span(lo, hi) => [lo, '-' as int, hi]
  }

  function WriteItems(items: seq<Item>): Text {
    if items == [] then [] else WriteItem(items[0]) + WriteItems(items[1..])
  }

  function WritePart(part: Part): Text {
    match part
    case AnyOne => ['?' as int]
    case AnyText => ['*' as int]
    case Plain(c) => [c]
    case Escaped(c) => ['\\' as int, c]
    case Bracket(inverted, items) =>
      ['[' as int] + (if inverted then ['!' as int] else []) + WriteItems(items) + [']' as int]
    case Unclosed => ['[' as int]
    case Slash => ['\\' as int]
  }

  function WriteParts(parts: seq<Part>): Text {
    if parts == [] then [] else WritePart(parts[0]) + WriteParts(parts[1..])
  }

  ghost function RangeOf(item: Item): Range {
    match item
    case Single(c) => Range(c, c)
    case Span(lo, hi) => Range(lo, hi)
  }

  ghost function RangesOf(items: seq<Item>): seq<Range> {
    if items == [] then [] else [RangeOf(items[0])] + RangesOf(items[1..])
  }

  ghost function Meaning(parts: seq<Part>): seq<Token> {
    if parts == [] then [] else MeaningOf(parts[0]) + Meaning(parts[1..])
  }

  ghost function MeaningOf(part: Part): seq<Token> {
    match part
    case AnyOne => [Any]
    case AnyText => [Star]
    case Plain(c) => [Lit(c)]
    case Escaped(c) => [Lit(c)]
    case Bracket(inverted, items) => [Class(inverted, RangesOf(items))]
    case Unclosed => [Lit('[' as int)]
    case Slash => []
  }

  // ----- which patterns -----

  ghost predicate ItemOK(item: Item) {
    match item
    case Single(c) => c != 0
    case Span(lo, hi) => lo != 0 && hi != 0 && hi != ']' as int
  }

  /** Behind the first item no closing bracket may start an item, and behind a single character no dash, unless it is the
      last one. */
  ghost predicate ItemsOK(items: seq<Item>) {
    && items != [] && ItemOK(items[0])
    && (|items| > 1 ==>
          && ItemsOK(items[1..]) && WriteItem(items[1])[0] != ']' as int
          && (items[0].Single? && WriteItem(items[1])[0] == '-' as int ==> items[1] == Single('-' as int) && |items| == 2))
  }

  ghost predicate PartOK(part: Part, rest: seq<Part>) {
    match part
    case Plain(c) => c != 0 && c != '?' as int && c != '*' as int && c != '\\' as int && c != '[' as int
    case Escaped(c) => c != 0
    case Bracket(inverted, items) => ItemsOK(items) && (inverted || WriteItem(items[0])[0] != '!' as int)
    case Unclosed => ']' as int !in WriteParts(rest)
    case Slash => rest == []
    case _ => true
  }

  ghost predicate PartsOK(parts: seq<Part>) {
    parts != [] ==> PartOK(parts[0], parts[1..]) && PartsOK(parts[1..])
  }

  // ----- reading -----

  lemma {:induction false} ReadItems(pre: Text, items: seq<Item>, rest: Text)
    requires ItemsOK(items)
    ensures var glob := pre + WriteItems(items) + [']' as int] + rest;
      Ranges(glob, |pre|) == Good(RangesOf(items), |pre| + |WriteItems(items)| + 1)
    decreases |items|
  {
    hide Ranges;
    var glob := pre + WriteItems(items) + [']' as int] + rest;
    var first := WriteItem(items[0]);
    var more := WriteItems(items[1..]);
    assert glob == pre + first + (more + [']' as int] + rest);
    var p := |pre|;
    var next := p + |first|;
    OneItem(pre, items, rest);
    if |items| == 1 {
      assert more == [] && glob[next] == ']' as int;
    } else {
      assert glob == (pre + first) + WriteItems(items[1..]) + [']' as int] + rest;
      ReadItems(pre + first, items[1..], rest);
      assert glob[next] == more[0] == WriteItem(items[1])[0];
    }
    RangesStep(glob, p);
  }

  /** Whether the first item is read as a range. */
  lemma {:induction false} OneItem(pre: Text, items: seq<Item>, rest: Text)
    requires ItemsOK(items)
    ensures var glob, p := pre + WriteItems(items) + [']' as int] + rest, |pre|;
      && p + 1 < |glob|
      && (items[0].Span? ==> p + 2 < |glob| && glob[p] == items[0].lo && glob[p + 1] == '-' as int && glob[p + 2] == items[0].hi)
      && (items[0].Single? ==> glob[p] == items[0].c && (glob[p + 1] != '-' as int || CharAt(glob, p + 2) == ']' as int))
  {
    var first, more := WriteItem(items[0]), WriteItems(items[1..]);
    var glob := pre + WriteItems(items) + [']' as int] + rest;
    assert glob == pre + first + (more + [']' as int] + rest);
    if |items| > 1 {
      assert more == WriteItem(items[1]) + WriteItems(items[1..][1..]);
      if |items| == 2 {
        assert items[1..][1..] == [];
      }
    }
  }

  lemma {:induction false} RangesStep(glob: Text, p: nat)
    requires p + 1 < |glob|
    ensures var wide := glob[p + 1] == '-' as int && CharAt(glob, p + 2) != ']' as int;
      wide && p + 2 < |glob| ==>
        (var r := Range(glob[p], glob[p + 2]);
         Ranges(glob, p) ==
         if p + 3 < |glob| && glob[p + 3] == ']' as int then Good([r], p + 4)
         else var b := Ranges(glob, p + 3); if b.Bad? then Bad else Good([r] + b.ranges, b.next))
    ensures var wide := glob[p + 1] == '-' as int && CharAt(glob, p + 2) != ']' as int;
      !wide ==>
        (var r := Range(glob[p], glob[p]);
         Ranges(glob, p) ==
         if glob[p + 1] == ']' as int then Good([r], p + 2)
         else var b := Ranges(glob, p + 1); if b.Bad? then Bad else Good([r] + b.ranges, b.next))
  {
  }

  /** Without a closing bracket there is no class. */
  lemma {:induction false} NoClass(glob: Text, p: nat)
    requires p <= |glob| && forall i :: p <= i < |glob| ==> glob[i] != ']' as int
    ensures Ranges(glob, p) == Bad
    decreases |glob| - p
  {
    if p < |glob| {
      if p + 1 <= |glob| {
        NoClass(glob, p + 1);
      }
      if p + 3 <= |glob| {
        NoClass(glob, p + 3);
      }
    }
  }

  /** A pattern stands for the tokens of its parts. */
  lemma {:induction false} ReadParts(pre: Text, parts: seq<Part>)
    requires PartsOK(parts) && IsText(pre + WriteParts(parts))
    ensures Tokens(pre + WriteParts(parts), |pre|) == Meaning(parts)
    decreases |parts|
  {
    hide Tokens; hide ItemsOK; hide WriteItems; hide BracketAt; hide IsText;
    var glob := pre + WriteParts(parts);
    TokenAt(glob, |pre|);
    if parts == [] {
      assert glob == pre;
    } else {
      var first, rest := WritePart(parts[0]), WriteParts(parts[1..]);
      assert glob == pre + first + rest;
      ReadParts(pre + first, parts[1..]);
      ReadPart(pre, parts[0], parts[1..]);
    }
  }

  /** One part. */
  lemma {:induction false} ReadPart(pre: Text, part: Part, parts: seq<Part>)
    requires PartOK(part, parts) && IsText(pre + WritePart(part) + WriteParts(parts))
    ensures var glob := pre + WritePart(part) + WriteParts(parts);
      Tokens(glob, |pre|) == MeaningOf(part) + Tokens(glob, |pre + WritePart(part)|)
  {
    hide Tokens; hide ItemsOK; hide WriteItems; hide BracketAt; hide IsText; hide WriteParts;
    var first, rest := WritePart(part), WriteParts(parts);
    var glob, p := pre + first + rest, |pre|;
    TokenAt(glob, p);
    assert glob[p] == first[0];
    match part {
      case Bracket(inverted, items) => ReadBracket(pre, inverted, items, rest);
      case Unclosed =>
        forall i | p + 1 <= i < |glob| ensures glob[i] != ']' as int {
          assert glob[i] == rest[i - p - 1];
        }
        NoBracket(glob, p + 1);
      case Escaped(c) => assert glob[p + 1] == c;
      case Slash =>
        NoParts();
        TokenAt(glob, p + 1);
      case _ =>
    }
  }

  lemma {:induction false} NoParts()
    ensures WriteParts([]) == []
  {
  }

  lemma {:induction false} NoBracket(glob: Text, p: nat)
    requires p <= |glob| && forall i :: p <= i < |glob| ==> glob[i] != ']' as int
    ensures BracketAt(glob, p) == Bad
  {
    NoClass(glob, p);
    if p < |glob| {
      NoClass(glob, p + 1);
    }
  }

  lemma {:induction false} ReadBracket(pre: Text, inverted: bool, items: seq<Item>, rest: Text)
    requires ItemsOK(items) && (inverted || WriteItem(items[0])[0] != '!' as int)
    ensures var glob, p := pre + WritePart(Bracket(inverted, items)) + rest, |pre| + 1;
      && BracketAt(glob, p) == Good(RangesOf(items), |pre| + |WritePart(Bracket(inverted, items))|)
      && (CharAt(glob, p) == '!' as int <==> inverted)
  {
    hide Ranges;
    var glob := pre + WritePart(Bracket(inverted, items)) + rest;
    var head: Text := pre + ['[' as int] + if inverted then ['!' as int] else [];
    assert glob == head + WriteItems(items) + [']' as int] + rest;
    ReadItems(head, items, rest);
    if !inverted {
      assert glob[|head|] == WriteItem(items[0])[0];
    }
  }

  lemma {:induction false} WrittenText(parts: seq<Part>)
    requires PartsOK(parts)
    ensures IsText(WriteParts(parts))
    decreases |parts|
  {
    if parts != [] {
      WrittenText(parts[1..]);
      if parts[0].Bracket? {
        ItemsText(parts[0].items);
      }
    }
  }

  lemma {:induction false} ItemsText(items: seq<Item>)
    requires ItemsOK(items)
    ensures IsText(WriteItems(items))
    decreases |items|
  {
    if |items| > 1 {
      ItemsText(items[1..]);
    }
  }

  /** glob_match on a pattern that is written out. */
  method MatchWritten(parts: seq<Part>, str: Text) returns (v: Verdict)
    requires PartsOK(parts) && IsText(str)
    ensures v == Yes <==> Matches(Meaning(parts), str)
    ensures v == Overrun <==> Runaway(Meaning(parts), str)
  {
    hide WriteParts; hide Meaning; hide Tokens; hide Matches; hide Runaway;
    WrittenText(parts);
    ReadParts([], parts);
    assert [] + WriteParts(parts) == WriteParts(parts);
    v := GlobMatch(WriteParts(parts), str);
  }

  /** The character is one that the item names. */
  ghost predicate Names(item: Item, d: Char) {
    match item
    case Single(c) => d == c
    case Span(lo, hi) => lo <= d <= hi
  }

  /** A bracket takes the characters that some item names, and an inverted one all others. */
  lemma {:induction false} BracketTakes(inverted: bool, items: seq<Item>, d: Char)
    ensures Accepts(Class(inverted, RangesOf(items)), d) <==> ((exists item :: item in items && Names(item, d)) != inverted)
  {
    NamedInRanges(items, d);
  }

  lemma {:induction false} NamedInRanges(items: seq<Item>, d: Char)
    ensures InRanges(RangesOf(items), d) <==> exists item :: item in items && Names(item, d)
    decreases |items|
  {
    if items != [] {
      var rest := RangesOf(items[1..]);
      NamedInRanges(items[1..], d);
      assert RangesOf(items) == [RangeOf(items[0])] + rest;
      assert Names(items[0], d) <==> RangeOf(items[0]).lo <= d <= RangeOf(items[0]).hi;
      if InRanges(RangesOf(items), d) && !Names(items[0], d) {
        var i :| 0 <= i < |RangesOf(items)| && RangesOf(items)[i].lo <= d <= RangesOf(items)[i].hi;
        assert rest[i - 1] == RangesOf(items)[i];
      }
      if InRanges(rest, d) {
        var i :| 0 <= i < |rest| && rest[i].lo <= d <= rest[i].hi;
        assert RangesOf(items)[i + 1] == rest[i];
      }
      if Names(items[0], d) {
        assert RangesOf(items)[0] == RangeOf(items[0]);
      }
    }
  }

  // ----- what matching means -----

  /** A token on its own: a star takes any text, any other token one character that it accepts. */
  lemma {:induction false} OneToken(t: Token, s: Text)
    ensures Matches([t], s) <==> t.Star? || (|s| == 1 && Accepts(t, s[0]))
    decreases |s|
  {
    if t.Star? && s != [] {
      OneToken(t, s[1..]);
    }
    assert [t][1..] == [];
  }

  /** Tokens in a row match texts in a row. */
  lemma {:induction false} Together(a: seq<Token>, b: seq<Token>, s: Text)
    ensures Matches(a + b, s) <==> exists k :: 0 <= k <= |s| && Matches(a, s[..k]) && Matches(b, s[k..])
  {
    hide Matches;
    if Matches(a + b, s) {
      var k := Apart(a, b, s);
    }
    if k :| 0 <= k <= |s| && Matches(a, s[..k]) && Matches(b, s[k..]) {
      Joined(a, b, s, k);
    }
  }

  lemma {:induction false} Apart(a: seq<Token>, b: seq<Token>, s: Text) returns (k: nat)
    requires Matches(a + b, s)
    ensures k <= |s| && Matches(a, s[..k]) && Matches(b, s[k..])
    decreases |a| + |s|
  {
    if a == [] {
      k := 0;
      assert a + b == b && s[0..] == s;
    } else {
      assert (a + b)[0] == a[0] && (a + b)[1..] == a[1..] + b;
      if a[0].Star? && Matches(a[1..] + b, s) {
        k := Apart(a[1..], b, s);
      } else {
        k := Apart(if a[0].Star? then a else a[1..], b, s[1..]);
        assert s[..k + 1][1..] == s[1..][..k] && s[1..][k..] == s[k + 1..];
        k := k + 1;
      }
    }
  }

  lemma {:induction false} Joined(a: seq<Token>, b: seq<Token>, s: Text, k: nat)
    requires k <= |s| && Matches(a, s[..k]) && Matches(b, s[k..])
    ensures Matches(a + b, s)
    decreases |a| + k
  {
    if a == [] {
      assert a + b == b && s[k..] == s;
    } else {
      assert (a + b)[0] == a[0] && (a + b)[1..] == a[1..] + b;
      if a[0].Star? && Matches(a[1..], s[..k]) {
        Joined(a[1..], b, s, k);
      } else {
        assert s[..k][1..] == s[1..][..k - 1] && s[1..][k - 1..] == s[k..];
        Joined(if a[0].Star? then a else a[1..], b, s[1..], k - 1);
      }
    }
  }
}
