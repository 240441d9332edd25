/** What json_parse makes of a document: written out with any blanks where the parser skips them, it comes back with
    exactly its nodes, parents, names, kinds and texts. */
module JsonDocument {
  import opened JsonTable
  import opened JsonMachine
  import Json

  type Gap = seq<Code>

  /** A character of a quoted text, as it is or behind a backslash. */
  datatype Piece = Plain(c: Code) | Slashed(c: Code)

  /** The gaps stand in front of the tokens they are named after. */
  datatype Doc =
    | Word(gap: Gap, text: seq<Code>)
    | Quoted(gap: Gap, pieces: seq<Piece>)
    | Arr(gap: Gap, items: Items, close: Gap)
    | Obj(gap: Gap, items: Items, close: Gap)

  /** The name is used in objects only. */
  datatype Items = End | More(name: Key, doc: Doc, comma: Gap, rest: Items)
  datatype Key = Key(gap: Gap, pieces: seq<Piece>, colon: Gap)

  // ----- writing -----

  ghost function WritePieces(s: seq<Piece>): seq<Code> {
    if s == [] then []
    else WritePiece(s[0]) + WritePieces(s[1..])
  }

  ghost function WritePiece(p: Piece): seq<Code> {
    match p
    case Plain(c) => [c]
    case Slashed(c) => ['\\' as int, c]
  }

  ghost function WriteQuoted(s: seq<Piece>): seq<Code> {
    ['"' as int] + WritePieces(s) + ['"' as int]
  }

  ghost function Write(d: Doc): seq<Code> {
    match d
    case Word(gap, text) => gap + text
    case Quoted(gap, pieces) => gap + WriteQuoted(pieces)
    case Arr(gap, items, close) => gap + ['[' as int] + WriteItems(items, false) + close + [']' as int]
    case Obj(gap, items, close) => gap + ['{' as int] + WriteItems(items, true) + close + ['}' as int]
  }

  ghost function WriteItems(l: Items, named: bool): seq<Code> {
    match l
    case End => []
    case More(key, d, comma, rest) =>
      (if named then WriteKey(key) else []) + Write(d) + (if rest.End? then [] else comma + [',' as int] + WriteItems(rest, named))
  }

  ghost function WriteKey(key: Key): seq<Code> {
    key.gap + WriteQuoted(key.pieces) + key.colon + [':' as int]
  }

  // ----- which documents -----

  ghost predicate Blank(blank: Code -> bool, gap: Gap) {
    forall i :: 0 <= i < |gap| ==> blank(gap[i])
  }

  /** The characters of the grammar are not blank. */
  ghost predicate Sane(blank: Code -> bool) {
    && !blank('"' as int) && !blank('\\' as int) && !blank(':' as int) && !blank(',' as int)
    && !blank('[' as int) && !blank(']' as int) && !blank('{' as int) && !blank('}' as int)
  }

  ghost predicate PieceOK(p: Piece, blank: Code -> bool) {
    match p
    case Plain(c) => c != '"' as int && c != '\\' as int
    case Slashed(c) => !blank(c)
  }

  ghost predicate PiecesOK(s: seq<Piece>, blank: Code -> bool) {
    forall i :: 0 <= i < |s| ==> PieceOK(s[i], blank)
  }

  /** A number, or true, false, null, or any other word: it ends where a comma or a closing bracket follows, and blanks
      in front of these would belong to it. */
  ghost predicate WordOK(text: seq<Code>, blank: Code -> bool) {
    && text != [] && !blank(text[0]) && text[0] != '[' as int && text[0] != '{' as int && text[0] != '"' as int
    && forall i :: 0 <= i < |text| ==> text[i] != ',' as int && !Close(text[i])
  }

  ghost predicate DocOK(d: Doc, blank: Code -> bool) {
    && Blank(blank, d.gap)
    && match d
       case Word(_, text) => WordOK(text, blank)
       case Quoted(_, pieces) => PiecesOK(pieces, blank)
       case Arr(_, items, close) => ItemsOK(items, close, false, blank)
       case Obj(_, items, close) => ItemsOK(items, close, true, blank)
  }

  ghost predicate ItemsOK(l: Items, close: Gap, named: bool, blank: Code -> bool) {
    && Blank(blank, close)
    && (l.More? ==>
          && Blank(blank, l.name.gap) && Blank(blank, l.name.colon) && PiecesOK(l.name.pieces, blank)
          && DocOK(l.doc, blank) && Blank(blank, l.comma) && ItemsOK(l.rest, close, named, blank)
          && (l.doc.Word? ==> if l.rest.End? then close == [] else l.comma == []))
  }

  /** Levels of nodes. */
  ghost function Levels(d: Doc): nat {
    match d
    case Arr(_, items, _) => 1 + ItemLevels(items)
    case Obj(_, items, _) => 1 + ItemLevels(items)
    case _ => 1
  }

  ghost function ItemLevels(l: Items): nat {
    if l.End? then 0 else if Levels(l.doc) > ItemLevels(l.rest) then Levels(l.doc) else ItemLevels(l.rest)
  }

  // ----- what a document is -----

  /** The parents of the nodes, and what is noted of them. */
  datatype Store = Store(parents: seq<int>, notes: Notes)

  ghost function TextOf(s: seq<Piece>): seq<Code> {
    if s == [] then [] else [s[0].c] + TextOf(s[1..])
  }

  ghost function WordKind(text: seq<Code>): State
    requires text != []
  {
    if '0' as int <= text[0] <= '9' as int then Number else Other
  }

  /** The node of the document is number id, made already. */
  ghost function Fill(d: Doc, id: nat, st: Store): Store {
    match d
    case Word(_, text) =>
      if text == [] then st else st.(notes := st.notes.(values := st.notes.values[id := Scalar(WordKind(text), text)]))
    case Quoted(_, pieces) => st.(notes := st.notes.(values := st.notes.values[id := Scalar(Str, TextOf(pieces))]))
    case Arr(_, items, _) => FillItems(items, id, false, st.(notes := st.notes.(arrays := st.notes.arrays + {id})))
    case Obj(_, items, _) => FillItems(items, id, true, st.(notes := st.notes.(objects := st.notes.objects + {id})))
  }

  /** Every item is a new child of node p, with its name in an object. */
  ghost function FillItems(l: Items, p: nat, named: bool, st: Store): Store {
    match l
    case End => st
    case More(key, d, _, rest) => FillItems(rest, p, named, Fill(d, |st.parents|, NewNode(key, p, named, st)))
  }

  ghost function NewNode(key: Key, p: nat, named: bool, st: Store): Store {
    var names := if named then st.notes.names[|st.parents| := TextOf(key.pieces)] else st.notes.names;
    Store(st.parents + [p], st.notes.(names := names))
  }

  // ----- running -----

  ghost function T(m: Machine, k: Notes, text: seq<Code>, blank: Code -> bool): Result {
    Run(m, k, text, 0, blank)
  }

  lemma {:induction false} SkipOver(text: seq<Code>, w: nat, n: nat, blank: Code -> bool)
    requires w <= n < |text| && !blank(text[n]) && forall i :: w <= i < n ==> blank(text[i])
    ensures SkipLack(text, w, blank) == n
  {
  }

  lemma {:induction false} SkipShift(a: seq<Code>, text: seq<Code>, w: nat, blank: Code -> bool)
    requires w <= |text|
    ensures SkipLack(a + text, |a| + w, blank) == |a| + SkipLack(text, w, blank)
    decreases |text| - w
  {
    if w < |text| && blank(text[w]) {
      SkipShift(a, text, w + 1, blank);
    }
  }

  /** What has been read does not matter any more. */
  lemma {:induction false} RunShift(a: seq<Code>, text: seq<Code>, w: nat, m: Machine, k: Notes, blank: Code -> bool)
    requires w <= |text|
    ensures Run(m, k, a + text, |a| + w, blank) == Run(m, k, text, w, blank)
    decreases |text| - w
  {
    hide Step; hide Note; hide SkipLack; hide StateOf; hide Run; hide IsRecord;
    SkipShift(a, text, w, blank);
    RunStep(m, k, a + text, |a| + w, blank);
    RunStep(m, k, text, w, blank);
    var v := if IsRecord(StateOf(m)) then w else SkipLack(text, w, blank);
    if v < |text| && Step(m, text[v]).Go? {
      assert (a + text)[|a| + v] == text[v];
      RunShift(a, text, v + 1, Step(m, text[v]).m, Note(k, m, text[v]), blank);
    }
  }

  /** One character, behind blanks if the parser skips them here. */
  lemma {:induction false} Eat(m: Machine, k: Notes, gap: Gap, c: Code, rest: seq<Code>, blank: Code -> bool)
    requires if IsRecord(StateOf(m)) then gap == [] else Blank(blank, gap) && !blank(c)
    ensures T(m, k, gap + [c] + rest, blank) ==
            if Step(m, c).Go? then T(Step(m, c).m, Note(k, m, c), rest, blank) else Result(Step(m, c), k)
  {
    hide Step; hide Note; hide SkipLack; hide StateOf;
    var text := gap + [c] + rest;
    assert text[|gap|] == c;
    if !IsRecord(StateOf(m)) {
      SkipOver(text, 0, |gap|, blank);
    }
    if Step(m, c).Go? {
      assert text == (gap + [c]) + rest;
      RunShift(gap + [c], rest, 0, Step(m, c).m, Note(k, m, c), blank);
    }
  }

  /** One character of a quoted text. */
  lemma {:induction false} RunPiece(m: Machine, k: Notes, s: Piece, tail: seq<Code>, blank: Code -> bool)
    requires (m.mode == Pending(Name) || m.mode == Pending(Str)) && PieceOK(s, blank)
    ensures T(m, k, WritePiece(s) + tail, blank) == T(m, k.(text := k.text + [s.c]), tail, blank)
  {
    hide Run;
    var c := s.c;
    if s.Plain? {
      assert [c] + tail == [] + [c] + tail;
      Eat(m, k, [], c, tail, blank);
    } else {
      assert ['\\' as int, c] + tail == [] + ['\\' as int] + ([] + [c] + tail);
      Eat(m, k, [], '\\' as int, [] + [c] + tail, blank);
      Eat(m.(mode := Escaped(m.mode.what)), k, [], c, tail, blank);
    }
  }

  lemma {:induction false} RunPieces(m: Machine, k: Notes, s: seq<Piece>, rest: seq<Code>, blank: Code -> bool)
    requires (m.mode == Pending(Name) || m.mode == Pending(Str)) && PiecesOK(s, blank)
    ensures T(m, k, WritePieces(s) + rest, blank) == T(m, k.(text := k.text + TextOf(s)), rest, blank)
    decreases |s|
  {
    hide T; hide PieceOK; hide WritePiece; hide WritePieces; hide TextOf;
    PiecesStep(s, rest, k.text);
    if s != [] {
      assert forall i :: 0 <= i < |s| - 1 ==> s[1..][i] == s[i + 1];
      RunPiece(m, k, s[0], WritePieces(s[1..]) + rest, blank);
      RunPieces(m, k.(text := k.text + [s[0].c]), s[1..], rest, blank);
    }
  }

  lemma {:induction false} PiecesStep(s: seq<Piece>, rest: seq<Code>, text: seq<Code>)
    ensures s == [] ==> WritePieces(s) + rest == rest && text + TextOf(s) == text
    ensures s != [] ==> WritePieces(s) + rest == WritePiece(s[0]) + (WritePieces(s[1..]) + rest)
    ensures s != [] ==> text + TextOf(s) == text + [s[0].c] + TextOf(s[1..])
  {
  }

  /** The characters of a word behind its first one. */
  lemma {:induction false} RunWord(m: Machine, k: Notes, s: seq<Code>, rest: seq<Code>, blank: Code -> bool)
    requires m.mode == Pending(Number) || m.mode == Pending(Other)
    requires forall i :: 0 <= i < |s| ==> s[i] != ',' as int && !Close(s[i])
    ensures T(m, k, s + rest, blank) == T(m, k.(text := k.text + s), rest, blank)
    decreases |s|
  {
    hide Run;
    if s == [] {
      assert k.text + [] == k.text && [] + rest == rest;
    } else {
      assert s + rest == [] + [s[0]] + (s[1..] + rest);
      Eat(m, k, [], s[0], s[1..] + rest, blank);
      RunWord(m, k.(text := k.text + [s[0]]), s[1..], rest, blank);
      assert k.text + [s[0]] + s[1..] == k.text + s;
    }
  }

  ghost function Parent(m: Machine): int {
    if m.frames == [] then -1 else m.frames[|m.frames| - 1].id
  }

  /** A value may start, and its node is number id: in an array it is made with the first character, in an object it
      was made with the name. */
  ghost predicate Starting(m: Machine, id: nat, parents: seq<int>) {
    || (m.mode.Inside? && Kind(m) == Array && id == |m.parents| && parents == m.parents + [Parent(m)] && |m.frames| < 32)
    || (m.mode == Pending(Body) && id == m.item && parents == m.parents)
  }

  /** The first character of a value. */
  lemma {:induction false} StartValue(m: Machine, k: Notes, id: nat, parents: seq<int>, gap: Gap, c: Code, rest: seq<Code>, blank: Code -> bool)
    returns (m': Machine)
    requires Starting(m, id, parents) && Blank(blank, gap) && !blank(c)
    requires m.mode.Inside? ==> c != ']' as int
    ensures T(m, k, gap + [c] + rest, blank) == T(m', Opened(k, id, c), rest, blank) && m'.parents == parents
    ensures if IsStruct(Value(c)) then m'.mode == Inside && m'.frames == m.frames + [Frame(Value(c), id)]
            else m'.mode == Pending(Value(c)) && m'.item == id && m'.frames == m.frames
  {
    Eat(m, k, gap, c, rest, blank);
    m' := Step(m, c).m;
  }

  /** What is noted once the word in hand, if any, is stored. */
  ghost function Finish(m: Machine, k: Notes): Notes {
    if m.mode == Pending(Number) || m.mode == Pending(Other) then Stored(k, m.item, m.mode.what) else k
  }

  /** At the end of an item, or before the first one. */
  ghost predicate Ending(m: Machine) {
    m.mode.Inside? || m.mode.After? || m.mode == Pending(Number) || m.mode == Pending(Other)
  }

  /** The bracket that closes a container: the one around it goes on, or the run ends. */
  lemma {:induction false} Shut(m: Machine, k: Notes, gap: Gap, named: bool, rest: seq<Code>, blank: Code -> bool)
    requires Ending(m) && m.frames != [] && Kind(m) == (if named then Object else Array) && Sane(blank)
    requires Blank(blank, gap) && (m.mode.Pending? ==> gap == [])
    ensures var c: Code := if named then '}' as int else ']' as int;
      T(m, k, gap + [c] + rest, blank) ==
      if |m.frames| == 1 then Result(Done(m), k)
      else T(m.(frames := m.frames[..|m.frames| - 1], mode := After), Finish(m, k), rest, blank)
  {
    Eat(m, k, gap, if named then '}' as int else ']' as int, rest, blank);
  }

  /** A comma behind an item. */
  lemma {:induction false} NextItem(m: Machine, k: Notes, gap: Gap, rest: seq<Code>, blank: Code -> bool)
    requires Ending(m) && !m.mode.Inside? && m.frames != [] && Sane(blank)
    requires Blank(blank, gap) && (m.mode.Pending? ==> gap == [])
    ensures T(m, k, gap + [',' as int] + rest, blank) == T(m.(mode := Inside), Finish(m, k), rest, blank)
  {
    Eat(m, k, gap, ',' as int, rest, blank);
  }

  /** The name of a member and the colon behind it. */
  lemma {:induction false} RunKey(m: Machine, k: Notes, key: Key, rest: seq<Code>, blank: Code -> bool) returns (m': Machine, k': Notes)
    requires m.mode.Inside? && m.frames != [] && Kind(m) == Object && |m.frames| < 32 && k.text == [] && Sane(blank)
    requires Blank(blank, key.gap) && Blank(blank, key.colon) && PiecesOK(key.pieces, blank)
    ensures T(m, k, WriteKey(key) + rest, blank) == T(m', k', rest, blank)
    ensures m' == m.(mode := Pending(Body), item := |m.parents|, parents := m.parents + [Parent(m)])
    ensures k' == k.(names := k.names[|m.parents| := TextOf(key.pieces)])
  {
    hide Run; hide WritePieces; hide TextOf;
    var q: seq<Code> := ['"' as int];
    var tail2 := key.colon + [':' as int] + rest;
    var tail1 := WritePieces(key.pieces) + ([] + q + tail2);
    assert WriteKey(key) + rest == key.gap + q + tail1;
    Eat(m, k, key.gap, '"' as int, tail1, blank);
    var m1 := Step(m, '"' as int).m;
    RunPieces(m1, k, key.pieces, [] + q + tail2, blank);
    var k1 := k.(text := k.text + TextOf(key.pieces));
    assert k1.text == TextOf(key.pieces);
    Eat(m1, k1, [], '"' as int, tail2, blank);
    var m2 := m1.(mode := Pending(Colon));
    k' := k.(names := k.names[|m.parents| := TextOf(key.pieces)]);
    assert Note(k1, m1, '"' as int) == k';
    Eat(m2, k', key.colon, ':' as int, rest, blank);
    m' := m2.(mode := Pending(Body));
  }

  ghost predicate LastIsWord(l: Items) {
    l.More? && if l.rest.End? then l.doc.Word? else LastIsWord(l.rest)
  }

  lemma {:induction false} RunWordDoc(d: Doc, m: Machine, k: Notes, id: nat, parents: seq<int>, rest: seq<Code>, blank: Code -> bool)
    returns (m': Machine, k': Notes)
    requires Starting(m, id, parents) && m.frames != [] && k.text == [] && DocOK(d, blank) && Sane(blank) && d.Word?
    ensures T(m, k, Write(d) + rest, blank) == T(m', k', rest, blank) && m'.frames == m.frames
    ensures m'.parents == parents && Finish(m', k') == Fill(d, id, Store(parents, k)).notes && Finish(m', k').text == []
    ensures Ending(m') && !m'.mode.Inside? && (d.Word? <==> m'.mode.Pending?)
  {
    hide Run; hide WritePieces; hide TextOf; hide T;
    var c, tail := d.text[0], d.text[1..] + rest;
    assert d.text == [c] + d.text[1..];
    assert Write(d) + rest == d.gap + [c] + tail;
    m' := StartValue(m, k, id, parents, d.gap, c, tail, blank);
    assert Opened(k, id, c).text == [c];
    RunWord(m', Opened(k, id, c), d.text[1..], rest, blank);
    k' := k.(text := d.text);
  }

  lemma {:induction false} RunQuotedDoc(d: Doc, m: Machine, k: Notes, id: nat, parents: seq<int>, rest: seq<Code>, blank: Code -> bool)
    returns (m': Machine, k': Notes)
    requires Starting(m, id, parents) && m.frames != [] && k.text == [] && DocOK(d, blank) && Sane(blank) && d.Quoted?
    ensures T(m, k, Write(d) + rest, blank) == T(m', k', rest, blank) && m'.frames == m.frames
    ensures m'.parents == parents && Finish(m', k') == Fill(d, id, Store(parents, k)).notes && Finish(m', k').text == []
    ensures Ending(m') && !m'.mode.Inside? && (d.Word? <==> m'.mode.Pending?)
  {
    hide Run; hide WritePieces; hide TextOf; hide T;
    var q: seq<Code> := ['"' as int];
    var tail := WritePieces(d.pieces) + ([] + q + rest);
    assert Write(d) + rest == d.gap + q + tail;
    var m1 := StartValue(m, k, id, parents, d.gap, '"' as int, tail, blank);
    RunPieces(m1, k, d.pieces, [] + q + rest, blank);
    var k1 := k.(text := k.text + TextOf(d.pieces));
    assert k1.text == TextOf(d.pieces);
    Eat(m1, k1, [], '"' as int, rest, blank);
    m', k' := m1.(mode := After), Stored(k1, id, Str);
  }

  /** A value in a container: its node and all below are there, and a word waits for the character that ends it. */
  lemma {:induction false} RunValue(d: Doc, m: Machine, k: Notes, id: nat, parents: seq<int>, rest: seq<Code>, blank: Code -> bool)
    returns (m': Machine, k': Notes)
    requires Starting(m, id, parents) && m.frames != [] && |m.frames| + Levels(d) <= 32 && k.text == []
    requires DocOK(d, blank) && Sane(blank)
    ensures T(m, k, Write(d) + rest, blank) == T(m', k', rest, blank) && m'.frames == m.frames
    ensures var st := Fill(d, id, Store(parents, k)); m'.parents == st.parents && Finish(m', k') == st.notes && st.notes.text == []
    ensures Ending(m') && !m'.mode.Inside? && (d.Word? <==> m'.mode.Pending?)
    decreases d
  {
    hide T; hide Write; hide Starting;
    match d {
      case Word(gap, text) => m', k' := RunWordDoc(d, m, k, id, parents, rest, blank);
      case Quoted(gap, pieces) => m', k' := RunQuotedDoc(d, m, k, id, parents, rest, blank);
      case Arr(gap, items, close) =>
        m', k' := RunContainer(d, items, close, '[' as int, ']' as int, false, m, k, id, parents, rest, blank);
      case Obj(gap, items, close) =>
        m', k' := RunContainer(d, items, close, '{' as int, '}' as int, true, m, k, id, parents, rest, blank);
    }
  }

  lemma {:induction false} RunContainer(d: Doc, items: Items, close: Gap, b: Code, e: Code, named: bool,
                                        m: Machine, k: Notes, id: nat, parents: seq<int>, rest: seq<Code>, blank: Code -> bool)
    returns (m': Machine, k': Notes)
    requires d == (if named then Obj(d.gap, items, close) else Arr(d.gap, items, close))
    requires b == (if named then '{' as int else '[' as int) && e == (if named then '}' as int else ']' as int)
    requires Starting(m, id, parents) && m.frames != [] && |m.frames| + Levels(d) <= 32 && k.text == []
    requires DocOK(d, blank) && Sane(blank)
    ensures T(m, k, Write(d) + rest, blank) == T(m', k', rest, blank) && m'.frames == m.frames
    ensures var st := Fill(d, id, Store(parents, k)); m'.parents == st.parents && k' == st.notes && st.notes.text == []
    ensures m'.mode.After?
    decreases d, 0
  {
    hide Run; hide Write; hide WriteItems;
    var body := WriteItems(items, named) + (close + [e] + rest);
    WriteContainer(d, items, close, b, e, named, rest);
    var m1 := StartValue(m, k, id, parents, d.gap, b, body, blank);
    var k1 := Opened(k, id, b);
    var m2, k2 := RunItems(items, close, named, m1, k1, id, close + [e] + rest, blank);
    Shut(m2, k2, close, named, rest, blank);
    assert m2.frames[..|m2.frames| - 1] == m.frames;
    m', k' := m2.(frames := m.frames, mode := After), Finish(m2, k2);
  }

  lemma {:induction false} WriteContainer(d: Doc, items: Items, close: Gap, b: Code, e: Code, named: bool, rest: seq<Code>)
    requires d == (if named then Obj(d.gap, items, close) else Arr(d.gap, items, close))
    requires b == (if named then '{' as int else '[' as int) && e == (if named then '}' as int else ']' as int)
    ensures Write(d) + rest == d.gap + [b] + (WriteItems(items, named) + (close + [e] + rest))
  {
    hide WriteItems;
  }

  /** The items of the innermost open container, up to what closes it. */
  lemma {:induction false} RunItems(l: Items, close: Gap, named: bool, m: Machine, k: Notes, p: nat, tail: seq<Code>, blank: Code -> bool)
    returns (m': Machine, k': Notes)
    requires m.mode.Inside? && m.frames != [] && Kind(m) == (if named then Object else Array) && Parent(m) == p && k.text == []
    requires |m.frames| + ItemLevels(l) <= 32 && ItemsOK(l, close, named, blank) && Sane(blank)
    ensures T(m, k, WriteItems(l, named) + tail, blank) == T(m', k', tail, blank) && m'.frames == m.frames
    ensures var st := FillItems(l, p, named, Store(m.parents, k)); m'.parents == st.parents && Finish(m', k') == st.notes && st.notes.text == []
    ensures Ending(m') && (m'.mode.Pending? <==> LastIsWord(l)) && (m'.mode.Pending? ==> close == [])
    decreases l
  {
    hide Run; hide Write; hide WriteKey; hide Starting;
    match l {
      case End =>
        m', k' := m, k;
        assert WriteItems(l, named) + tail == tail;
      case More(key, d, comma, rest) =>
        var tail2 := if rest.End? then tail else comma + [',' as int] + (WriteItems(rest, named) + tail);
        var tail1 := Write(d) + tail2;
        ItemsText(l, named, tail, tail1, tail2);
        var m1, k1, parents := m, k, m.parents + [p as int];
        if named {
          m1, k1 := RunKey(m, k, key, tail1, blank);
        }
        var id := |m.parents|;
        CanStart(m1, m, id, parents, named);
        var m2, k2 := RunValue(d, m1, k1, id, parents, tail2, blank);
        assert NewNode(key, p, named, Store(m.parents, k)) == Store(parents, k1);
        if rest.End? {
          m', k' := m2, k2;
        } else {
          NextItem(m2, k2, comma, WriteItems(rest, named) + tail, blank);
          m', k' := RunItems(rest, close, named, m2.(mode := Inside), Finish(m2, k2), p, tail, blank);
        }
    }
  }

  lemma {:induction false} CanStart(m1: Machine, m: Machine, id: nat, parents: seq<int>, named: bool)
    requires m.mode.Inside? && m.frames != [] && Kind(m) == (if named then Object else Array) && |m.frames| < 32
    requires id == |m.parents| && parents == m.parents + [Parent(m)]
    requires m1 == if named then m.(mode := Pending(Body), item := id, parents := parents) else m
    ensures Starting(m1, id, parents)
  {
  }

  // ----- whole documents -----

  ghost predicate IsTop(d: Doc) {
    d.Arr? || d.Obj?
  }

  ghost function Whole(d: Doc): Store {
    Fill(d, 0, Store([-1], Nothing))
  }

  /** A document with an array or object on top, of at most 32 levels and with any text behind it, comes back with
      exactly its nodes, parents, names, kinds and texts; only a number or word that ends with the bracket of the root
      is read and not stored. */
  lemma {:induction false} RunDocument(d: Doc, rest: seq<Code>, blank: Code -> bool)
    requires IsTop(d) && DocOK(d, blank) && Sane(blank) && Levels(d) <= 32
    ensures var r := Run(Begin, Nothing, Write(d) + rest, 0, blank);
      && r.out.Done? && r.out.m.parents == Whole(d).parents && Finish(r.out.m, r.notes) == Whole(d).notes
      && (!LastIsWord(d.items) ==> r.notes == Whole(d).notes)
      && (LastIsWord(d.items) ==>
            && r.notes.arrays == Whole(d).notes.arrays && r.notes.objects == Whole(d).notes.objects
            && r.notes.names == Whole(d).notes.names && r.notes.values == Whole(d).notes.values - {r.out.m.item})
  {
    hide Run; hide Write; hide WriteItems; hide Complete;
    var named := d.Obj?;
    var b: Code, e: Code := if named then '{' as int else '[' as int, if named then '}' as int else ']' as int;
    var body := WriteItems(d.items, named) + (d.close + [e] + rest);
    WriteContainer(d, d.items, d.close, b, e, named, rest);
    var m1 := StartValue(Begin, Nothing, 0, [-1], d.gap, b, body, blank);
    var k1 := Opened(Nothing, 0, b);
    var m2, k2 := RunItems(d.items, d.close, named, m1, k1, 0, d.close + [e] + rest, blank);
    Shut(m2, k2, d.close, named, rest, blank);
    if m2.mode.Pending? {
      BeginComplete();
      RunComplete(Begin, Nothing, Write(d) + rest, 0, blank);
      NotYet(m2, k2);
    }
  }

  lemma {:induction false} BeginComplete()
    ensures WF(Begin) && Complete(Begin, Nothing)
  {
  }

  lemma {:induction false} NotYet(m: Machine, k: Notes)
    requires Complete(m, k) && m.mode.Pending?
    ensures m.item !in k.values && k.values[m.item := Scalar(m.mode.what, k.text)] - {m.item} == k.values
  {
  }

  /** An item where no more levels are left. */
  lemma {:induction false} NoRoom(m: Machine, k: Notes, gap: Gap, c: Code, rest: seq<Code>, blank: Code -> bool)
    requires m.mode.Inside? && |m.frames| >= 32 && Blank(blank, gap) && !blank(c)
    requires (Kind(m) == Array && c != ']' as int) || (Kind(m) == Object && c == '"' as int)
    ensures T(m, k, gap + [c] + rest, blank).out.Deep?
  {
    Eat(m, k, gap, c, rest, blank);
  }

  /** The first character of a document behind its gap. */
  lemma {:induction false} FirstOf(d: Doc, rest: seq<Code>, blank: Code -> bool) returns (c: Code, tail: seq<Code>)
    requires DocOK(d, blank) && Sane(blank)
    ensures Write(d) + rest == d.gap + [c] + tail && !blank(c) && c != ']' as int
  {
    hide WriteItems; hide WritePieces;
    match d {
      case Word(gap, text) =>
        c, tail := text[0], text[1..] + rest;
        assert text == [c] + text[1..];
      case Quoted(gap, pieces) =>
        c, tail := '"' as int, WritePieces(pieces) + ['"' as int] + rest;
      case Arr(gap, items, close) =>
        c, tail := '[' as int, WriteItems(items, false) + close + [']' as int] + rest;
      case Obj(gap, items, close) =>
        c, tail := '{' as int, WriteItems(items, true) + close + ['}' as int] + rest;
    }
  }

  /** A value with too many levels. */
  lemma {:induction false} DeepValue(d: Doc, m: Machine, k: Notes, id: nat, parents: seq<int>, rest: seq<Code>, blank: Code -> bool)
    requires Starting(m, id, parents) && |m.frames| < 32 < |m.frames| + Levels(d) && k.text == []
    requires DocOK(d, blank) && Sane(blank)
    ensures T(m, k, Write(d) + rest, blank).out.Deep?
    decreases d, 0
  {
    hide Run; hide Write; hide WriteItems;
    var named := d.Obj?;
    var b: Code, e: Code := if named then '{' as int else '[' as int, if named then '}' as int else ']' as int;
    var body := WriteItems(d.items, named) + (d.close + [e] + rest);
    WriteContainer(d, d.items, d.close, b, e, named, rest);
    var m1 := StartValue(m, k, id, parents, d.gap, b, body, blank);
    DeepItems(d.items, d.close, named, m1, Opened(k, id, b), id, d.close + [e] + rest, blank);
  }

  lemma {:induction false} ItemsParts(l: Items, close: Gap, named: bool, blank: Code -> bool)
    requires ItemsOK(l, close, named, blank)
    ensures l.End? ==> ItemLevels(l) == 0
    ensures l.More? ==>
      && DocOK(l.doc, blank) && ItemsOK(l.rest, close, named, blank) && Blank(blank, l.comma) && Blank(blank, l.name.gap)
      && Blank(blank, l.name.colon) && PiecesOK(l.name.pieces, blank)
      && (l.doc.Word? && !l.rest.End? ==> l.comma == [])
      && ItemLevels(l) == (if Levels(l.doc) > ItemLevels(l.rest) then Levels(l.doc) else ItemLevels(l.rest))
      && Levels(l.doc) > 0 && (l.rest.End? ==> ItemLevels(l.rest) == 0)
  {
  }

  /** Items of which one has too many levels: those before it are read, and then the run ends. */
  lemma {:induction false} DeepItems(l: Items, close: Gap, named: bool, m: Machine, k: Notes, p: nat, tail: seq<Code>, blank: Code -> bool)
    requires m.mode.Inside? && m.frames != [] && Kind(m) == (if named then Object else Array) && Parent(m) == p && k.text == []
    requires |m.frames| <= 32 < |m.frames| + ItemLevels(l) && ItemsOK(l, close, named, blank) && Sane(blank)
    ensures T(m, k, WriteItems(l, named) + tail, blank).out.Deep?
    decreases l
  {
    hide T; hide Write; hide WriteKey; hide Starting; hide WriteItems; hide ItemsOK; hide DocOK; hide Levels; hide ItemLevels;
    hide Sane; hide Blank; hide PiecesOK; hide Finish; hide NewNode; hide Fill; hide FillItems; hide TextOf;
    ItemsParts(l, close, named, blank);
    var More(key, d, comma, rest) := l;
    var tail2 := if rest.End? then tail else comma + [',' as int] + (WriteItems(rest, named) + tail);
    var tail1 := Write(d) + tail2;
    ItemsText(l, named, tail, tail1, tail2);
    if |m.frames| == 32 {
      NoFirst(l, close, named, m, k, tail1, tail2, blank);
    } else {
      var m1, k1, parents := m, k, m.parents + [p as int];
      if named {
        m1, k1 := RunKey(m, k, key, tail1, blank);
      }
      var id := |m.parents|;
      CanStart(m1, m, id, parents, named);
      if |m.frames| + Levels(d) > 32 {
        DeepValue(d, m1, k1, id, parents, tail2, blank);
      } else {
        var m2, k2 := RunValue(d, m1, k1, id, parents, tail2, blank);
        NextItem(m2, k2, comma, WriteItems(rest, named) + tail, blank);
        DeepItems(rest, close, named, m2.(mode := Inside), Finish(m2, k2), p, tail, blank);
      }
    }
  }

  lemma {:induction false} NoFirst(l: Items, close: Gap, named: bool, m: Machine, k: Notes, tail1: seq<Code>, tail2: seq<Code>, blank: Code -> bool)
    requires m.mode.Inside? && Kind(m) == (if named then Object else Array) && |m.frames| == 32
    requires l.More? && ItemsOK(l, close, named, blank) && Sane(blank) && tail1 == Write(l.doc) + tail2
    ensures var text := if named then WriteKey(l.name) + tail1 else tail1;
      T(m, k, text, blank).out.Deep?
  {
    hide T; hide Write; hide WriteKey;
    if named {
      var q := QuoteFirst(l.name, tail1);
      NoRoom(m, k, l.name.gap, '"' as int, q, blank);
    } else {
      var c, q := FirstOf(l.doc, tail2, blank);
      NoRoom(m, k, l.doc.gap, c, q, blank);
    }
  }

  lemma {:induction false} QuoteFirst(key: Key, tail: seq<Code>) returns (q: seq<Code>)
    ensures WriteKey(key) + tail == key.gap + ['"' as int] + q
  {
    hide WritePieces;
    q := WritePieces(key.pieces) + ['"' as int] + key.colon + [':' as int] + tail;
  }

  lemma {:induction false} ItemsText(l: Items, named: bool, tail: seq<Code>, tail1: seq<Code>, tail2: seq<Code>)
    requires l.More? && tail1 == Write(l.doc) + tail2
    requires tail2 == if l.rest.End? then tail else l.comma + [',' as int] + (WriteItems(l.rest, named) + tail)
    ensures WriteItems(l, named) + tail ==
            if named then WriteKey(l.name) + tail1 else tail1
  {
    hide Write; hide WriteKey;
  }

  /** The depth is exceeded exactly for documents of more than 32 levels. */
  lemma {:induction false} DeepDocument(d: Doc, rest: seq<Code>, blank: Code -> bool)
    requires IsTop(d) && DocOK(d, blank) && Sane(blank)
    ensures Run(Begin, Nothing, Write(d) + rest, 0, blank).out.Deep? <==> Levels(d) > 32
  {
    hide Run; hide Write; hide Levels;
    if Levels(d) <= 32 {
      RunDocument(d, rest, blank);
    } else {
      DeepValue(d, Begin, Nothing, 0, [-1], rest, blank);
    }
  }

  /** The word that ends with the bracket of the root, if there is one, is a node without a value. */
  ghost predicate Comes(d: Doc, made: seq<Json.JsonNode>)
    requires IsTop(d)
    reads made
  {
    var n := Whole(d).notes;
    && Json.Tree(made, Whole(d).parents)
    && forall i :: 0 <= i < |made| ==>
         && made[i].isArray == (i in n.arrays) && made[i].isObject == (i in n.objects)
         && made[i].name == Json.Lookup(n.names, i)
         && (made[i].value == Json.Lookup(n.values, i) || (made[i].value == None && LastIsWord(d.items)))
  }

  /** json_parse on a written document. */
  method ParseDocument(buff: seq<Code>, blank: Code -> bool, ghost d: Doc, ghost rest: seq<Code>)
    returns (overflow: bool, root: Json.JsonNode?, ghost made: seq<Json.JsonNode>)
    requires IsTop(d) && DocOK(d, blank) && Sane(blank) && buff == Write(d) + rest
    ensures overflow <==> Levels(d) > 32
    ensures !overflow ==> Comes(d, made) && made != [] && root == made[0]
    ensures overflow ==> root == null
  {
    hide Run; hide Write; hide Levels; hide Json.Tree; hide Whole; hide LastIsWord;
    DeepDocument(d, rest, blank);
    if Levels(d) <= 32 {
      RunDocument(d, rest, blank);
      SomeNode(d);
    }
    overflow, root, made := Json.Parse(buff, blank);
    if !overflow {
      TreeSize(made, Whole(d).parents);
    }
  }

  lemma {:induction false} TreeSize(made: seq<Json.JsonNode>, parents: seq<int>)
    requires Json.Tree(made, parents)
    ensures |made| == |parents|
  {
  }

  lemma {:induction false} SomeNode(d: Doc)
    ensures |Whole(d).parents| >= 1
  {
    FillKeeps(d, 0, Store([-1], Nothing));
  }

  /** Nodes that are there stay. */
  lemma {:induction false} FillKeeps(d: Doc, id: nat, st: Store)
    ensures st.parents <= Fill(d, id, st).parents
    decreases d
  {
    match d {
      case Arr(_, items, _) => FillItemsKeep(items, id, false, st.(notes := st.notes.(arrays := st.notes.arrays + {id})));
      case Obj(_, items, _) => FillItemsKeep(items, id, true, st.(notes := st.notes.(objects := st.notes.objects + {id})));
      case _ =>
    }
  }

  lemma {:induction false} FillItemsKeep(l: Items, p: nat, named: bool, st: Store)
    ensures st.parents <= FillItems(l, p, named, st).parents
    decreases l
  {
    match l {
      case End =>
      case More(key, d, _, rest) =>
        var st1 := NewNode(key, p, named, st);
        FillKeeps(d, |st.parents|, st1);
        FillItemsKeep(rest, p, named, Fill(d, |st.parents|, st1));
    }
  }
}
