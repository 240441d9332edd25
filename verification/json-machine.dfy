/** A plain machine for the texts that lib/json.c parses: one list of open containers, and what is noted of each node.
    The stacks of the parser are shown to move as this machine does. */
module JsonMachine {
  import opened JsonTable

  /** An open array or object, and the number of its node; nodes are numbered as they are made. */
  datatype Frame = Frame(kind: State, id: nat)

  /** Inside: the innermost open container waits for an item.  Pending: an item has its node and is being read.
      After: an item is complete, and a comma or a closing bracket is due. */
  datatype Mode = Inside | Pending(what: State) | Escaped(what: State) | After

  datatype Machine = Machine(frames: seq<Frame>, mode: Mode, item: nat, parents: seq<int>)
  datatype Outcome = Go(m: Machine) | Done(m: Machine) | Deep(m: Machine)

  ghost const Begin: Machine := Machine([], Inside, 0, [])

  /** Outside of all brackets it is as inside an array. */
  ghost function KindAt(frames: seq<Frame>, k: nat): State
    requires k <= |frames|
  {
    if k == 0 then Array else frames[k - 1].kind
  }

  ghost function Kind(m: Machine): State {
    KindAt(m.frames, |m.frames|)
  }

  /** A node for a new item, a child of the innermost open container. */
  ghost function Created(m: Machine): Machine {
    m.(item := |m.parents|, parents := m.parents + [if m.frames == [] then -1 else m.frames[|m.frames| - 1].id])
  }

  /** The value that starts with c. */
  ghost function Value(c: int): State {
    if c == '[' as int then Array else if c == '{' as int then Object
    else if '0' as int <= c <= '9' as int then Number else if c == '"' as int then Str else Other
  }

  /** The item turns out to be a value of that kind. */
  ghost function Started(m: Machine, v: State): Machine {
    if v == Array || v == Object then m.(frames := m.frames + [Frame(v, m.item)], mode := Inside) else m.(mode := Pending(v))
  }

  ghost function Closed(m: Machine): Outcome {
    if |m.frames| <= 1 then Done(m) else Go(m.(frames := m.frames[..|m.frames| - 1], mode := After))
  }

  ghost function Step(m: Machine, c: int): Outcome {
    match m.mode
    case Inside =>
      if Kind(m) == Array then
        if c == ']' as int then Closed(m)
        else if |m.frames| >= 32 then Deep(m)
        else Go(Started(Created(m), Value(c)))
      else
        if c == '"' as int then (if |m.frames| >= 32 then Deep(m) else Go(Created(m).(mode := Pending(Name))))
        else if c == '}' as int then Closed(m)
        else Go(m)
    case Escaped(what) => Go(m.(mode := Pending(what)))
    case After =>
      if c == ',' as int then Go(m.(mode := Inside)) else if Close(c) then Closed(m) else Go(m)
    case Pending(what) =>
      match what
      case Name =>
        if c == '"' as int then Go(m.(mode := Pending(Colon)))
        else if c == '\\' as int then Go(m.(mode := Escaped(Name))) else Go(m)
      case Colon => if c == ':' as int then Go(m.(mode := Pending(Body))) else Go(m)
      case Body => Go(Started(m, Value(c)))
      case Str =>
        if c == '"' as int then (if m.frames == [] then Done(m) else Go(m.(mode := After)))
        else if c == '\\' as int then Go(m.(mode := Escaped(Str))) else Go(m)
      case _ =>
        if c == ',' as int then (if m.frames == [] then Done(m) else Go(m.(mode := Inside)))
        else if Close(c) then Closed(m) else Go(m)
  }

  predicate IsRecord(s: State) {
    s == Name || s == Str || s == Number || s == Other
  }

  predicate IsStruct(s: State) {
    s == Array || s == Object
  }

  ghost function StateOf(m: Machine): State {
    match m.mode
    case Inside => Kind(m)
    case Pending(what) => what
    case Escaped(_) => Esc
    case After => Wait
  }

  /** skip_lack; blank says which characters are skipped. */
  function SkipLack(buff: seq<Code>, w: nat, blank: Code -> bool): (r: nat)
    requires w <= |buff|
    ensures w <= r <= |buff| && (r < |buff| ==> !blank(buff[r]))
    ensures forall i :: w <= i < r ==> blank(buff[i])
    decreases |buff| - w
  {
    if w < |buff| && blank(buff[w]) then SkipLack(buff, w + 1, blank) else w
  }

  // ----- what is noted of the nodes -----

  /** The text of a string, a number or another word, as it was read. */
  datatype Scalar = Scalar(kind: State, text: seq<Code>)

  /** The text read so far, and by number of node: which are arrays, which objects, their names and their values. */
  datatype Notes = Notes(text: seq<Code>, arrays: set<nat>, objects: set<nat>, names: map<nat, seq<Code>>, values: map<nat, Scalar>)

  ghost const Nothing: Notes := Notes([], {}, {}, map[], map[])

  /** A bracket is noted at the node. */
  ghost function Bracket(k: Notes, id: nat, c: Code): Notes {
    if c == '[' as int then k.(arrays := k.arrays + {id})
    else if c == '{' as int then k.(objects := k.objects + {id}) else k
  }

  /** A value starts with c at the node: a bracket, a quote, or the first character of a word. */
  ghost function Opened(k: Notes, id: nat, c: Code): Notes {
    if IsStruct(Value(c)) then Bracket(k, id, c) else if Value(c) == Str then k else k.(text := k.text + [c])
  }

  ghost function Stored(k: Notes, id: nat, kind: State): Notes {
    k.(values := k.values[id := Scalar(kind, k.text)], text := [])
  }

  /** What one character adds.  Inside an object a bracket that is out of place is noted at the object itself. */
  ghost function Note(k: Notes, m: Machine, c: Code): Notes {
    match m.mode
    case Inside =>
      if Kind(m) == Array then (if c == ']' as int then k else Opened(k, |m.parents|, c))
      else if m.frames != [] then Bracket(k, m.frames[|m.frames| - 1].id, c) else k
    case Escaped(_) => k.(text := k.text + [c])
    case After => k
    case Pending(what) =>
      match what
      case Name =>
        if c == '"' as int then k.(names := k.names[m.item := k.text], text := [])
        else if c == '\\' as int then k else k.(text := k.text + [c])
      case Colon => k
      case Body => Opened(k, m.item, c)
      case Str => if c == '"' as int then Stored(k, m.item, Str) else if c == '\\' as int then k else k.(text := k.text + [c])
      case _ => if c == ',' as int || Close(c) then Stored(k, m.item, what) else k.(text := k.text + [c])
  }

  datatype Result = Result(out: Outcome, notes: Notes)

  /** The run on a text.  A character that ends the run is not noted any more. */
  ghost function Run(m: Machine, k: Notes, buff: seq<Code>, w: nat, blank: Code -> bool): Result
    requires w <= |buff|
    decreases |buff| - w
  {
    var v := if IsRecord(StateOf(m)) then w else SkipLack(buff, w, blank);
    if v == |buff| then Result(Done(m), k)
    else
      var r := Step(m, buff[v]);
      if r.Go? then Run(r.m, Note(k, m, buff[v]), buff, v + 1, blank) else Result(r, k)
  }

  /** The item in hand has no value yet. */
  ghost predicate Reading(m: Machine) {
    m.mode.Pending? || m.mode.Escaped?
  }

  /** Every node is an array, an object or a scalar with its value, except the item that is being read. */
  ghost predicate Complete(m: Machine, k: Notes) {
    && (forall i: nat :: (i in k.arrays || i in k.objects || i in k.values) <==> i < |m.parents| && !(Reading(m) && i == m.item))
    && (forall i: nat :: i in k.names ==> i < |m.parents|)
  }

  lemma {:induction false} StepComplete(m: Machine, k: Notes, c: Code)
    requires WF(m) && Complete(m, k) && Step(m, c).Go?
    ensures Complete(Step(m, c).m, Note(k, m, c))
  {
  }

  /** So it is when the run ends: the item that was being read then has no value, and every other node has. */
  lemma {:induction false} RunComplete(m: Machine, k: Notes, buff: seq<Code>, w: nat, blank: Code -> bool)
    requires w <= |buff| && WF(m) && Complete(m, k)
    ensures var r := Run(m, k, buff, w, blank); WF(r.out.m) && Complete(r.out.m, r.notes)
    decreases |buff| - w
  {
    hide WF; hide Complete; hide Step; hide Note; hide StateOf; hide SkipLack;
    var v := if IsRecord(StateOf(m)) then w else SkipLack(buff, w, blank);
    if v < |buff| {
      StepWF(m, buff[v]);
      if Step(m, buff[v]).Go? {
        StepComplete(m, k, buff[v]);
        RunComplete(Step(m, buff[v]).m, Note(k, m, buff[v]), buff, v + 1, blank);
      }
    }
  }

  lemma {:induction false} RunStep(m: Machine, k: Notes, buff: seq<Code>, w: nat, blank: Code -> bool)
    requires w <= |buff|
    ensures var v := if IsRecord(StateOf(m)) then w else SkipLack(buff, w, blank);
      Run(m, k, buff, w, blank) ==
      if v == |buff| then Result(Done(m), k)
      else (var r := Step(m, buff[v]); if r.Go? then Run(r.m, Note(k, m, buff[v]), buff, v + 1, blank) else Result(r, k))
  {
  }

  // ----- the two stacks -----

  ghost function Depth(m: Machine): int {
    |m.frames|
  }

  /** nspos and nnpos */
  ghost function StateTop(m: Machine): int {
    match m.mode
    case Inside => Depth(m)
    case Pending(_) => Depth(m) + 1
    case Escaped(_) => Depth(m) + 2
    case After => Depth(m) + 1
  }

  ghost function NodeTop(m: Machine): int {
    if m.mode.Inside? || m.mode.After? then Depth(m) - 1 else Depth(m)
  }

  /** The depth of the two stacks differs by two while waiting and in an escape, and by one otherwise. */
  lemma {:induction false} TopsDiffer(m: Machine)
    requires WF(m)
    ensures StateTop(m) - NodeTop(m) == if StateOf(m) == Wait || StateOf(m) == Esc then 2 else 1
  {
  }

  /** What holds of the machine at all times; the first node is the root of all. */
  ghost predicate WF(m: Machine) {
    && (match m.mode
        case Inside => Depth(m) <= 32
        case Pending(what) => what in {Name, Colon, Body, Str, Number, Other} && Depth(m) < 32
        case Escaped(what) => (what == Name || what == Str) && Depth(m) < 32
        case After => 0 < Depth(m) < 32)
    && (forall k :: 0 <= k < |m.frames| ==> IsStruct(m.frames[k].kind) && m.frames[k].id < |m.parents|)
    && (m.mode.Pending? || m.mode.Escaped? ==> m.item < |m.parents| && (m.frames == [] ==> m.item == 0))
    && (m.frames != [] ==> m.frames[0].id == 0)
    && (m.frames == [] && m.mode.Inside? ==> m.parents == [])
    && Rooted(m.parents)
  }

  /** Every node but the first one is the child of an earlier one. */
  ghost predicate Rooted(parents: seq<int>) {
    forall i :: 0 <= i < |parents| ==> if i == 0 then parents[i] == -1 else 0 <= parents[i] < i
  }

  lemma {:induction false} StepWF(m: Machine, c: int)
    requires WF(m)
    ensures Step(m, c).Go? ==> WF(Step(m, c).m)
    ensures !Step(m, c).Go? ==> Step(m, c).m == m
  {
    hide Rooted;
    CreatedRooted(m);
  }

  lemma {:induction false} CreatedRooted(m: Machine)
    requires WF(m)
    ensures m.mode.Inside? ==> Rooted(Created(m).parents)
  {
  }

  /** The moves of the two stacks, as the table gives them, are those of the machine. */
  lemma {:induction false} Moves(m: Machine, c: int)
    requires WF(m)
    ensures var d, r := Delta(StateOf(m), c), Step(m, c);
      if d.None? then r == Go(m) && StateOf(m) != Array
      else
        var (to, dn, ds) := d.value;
        && 0 <= StateTop(m) + ds < 36 && dn <= 1
        && (r.Deep? <==> NodeTop(m) + dn >= 32)
        && (r.Done? <==> dn < 0 && NodeTop(m) + dn < 0)
        && (r.Go? ==>
              && NodeTop(r.m) == NodeTop(m) + dn && StateTop(r.m) == StateTop(m) + ds
              && (to != Null ==> StateOf(r.m) == to) && (to == Null ==> ds < 0)
              && r.m.parents == m.parents + if dn == 1 then [if m.frames == [] then -1 else m.frames[|m.frames| - 1].id] else [])
  {
  }

  /** The state stack holds the states of the open containers, and what an escape interrupts. */
  ghost predicate States(m: Machine, stack: seq<State>) {
    && |stack| == 36
    && (forall k :: 0 <= k <= |m.frames| && k < StateTop(m) && k < 36 ==> stack[k] == KindAt(m.frames, k))
    && (m.mode.Escaped? && |m.frames| < 35 ==> stack[|m.frames| + 1] == m.mode.what)
  }

  /** What is pushed and what is resumed: after a comma the state of the innermost open container. */
  lemma {:induction false} StatesStep(m: Machine, c: int, stack: seq<State>)
    requires WF(m) && States(m, stack) && Delta(StateOf(m), c).Some? && Step(m, c).Go?
    ensures 0 <= StateTop(m) < 36
    ensures var (to, dn, ds), m' := Delta(StateOf(m), c).value, Step(m, c).m;
      && States(m', if ds > 0 then stack[StateTop(m) := StateOf(m)] else stack)
      && (to == Null ==> 0 <= StateTop(m') < 36 && stack[StateTop(m')] == StateOf(m'))
  {
  }
}
