/** The parser of lib/json.c with its table and its two explicit stacks, against the plain machine: which nodes are
    made, which is the parent of which, and what each holds. */
module Json {
  import opened JsonTable
  import opened JsonMachine

  // ----- the nodes -----

  class JsonNode {
    var parent: JsonNode?
    var child: seq<JsonNode>
    var isArray: bool
    var isObject: bool
    var name: Option<seq<Code>>
    var value: Option<Scalar>

    constructor ()
      ensures parent == null && child == [] && !isArray && !isObject && name == None && value == None
    {
      parent, child, isArray, isObject, name, value := null, [], false, false, None, None;
    }
  }

  /** The node stack holds the nodes of the open containers around the node in hand. */
  ghost predicate NodesOK(m: Machine, stack: seq<JsonNode?>, node: JsonNode?, made: seq<JsonNode>) {
    && |stack| == 32 && |made| == |m.parents|
    && (forall k :: 0 <= k < NodeTop(m) && k < 32 && m.frames[k].id < |made| ==> stack[k] == made[m.frames[k].id])
    && node == HandAt(m, made)
  }

  /** The item that is being read, or else the innermost open container. */
  ghost function HandAt(m: Machine, made: seq<JsonNode>): JsonNode? {
    if m.mode.Pending? || m.mode.Escaped? then (if m.item < |made| then made[m.item] else null)
    else if m.frames == [] then null
    else var id := m.frames[|m.frames| - 1].id; if id < |made| then made[id] else null
  }

  /** An item gets a node: the node in hand is its parent. */
  lemma {:induction false} NodesNew(m: Machine, c: int, stack: seq<JsonNode?>, node: JsonNode?, made: seq<JsonNode>)
    requires WF(m) && NodesOK(m, stack, node, made) && Step(m, c).Go? && NodeTop(Step(m, c).m) > NodeTop(m)
    ensures var n, m' := |made|, Step(m, c).m;
      && NodeTop(m) < 32 && HandId(m, m') == n && |m.parents| == n && |m'.parents| == n + 1 && m'.parents == m.parents + [m'.parents[n]]
      && (if n == 0 then m'.parents[n] == -1 else 0 <= m'.parents[n] < n)
      && node == (if m'.parents[n] < 0 then null else made[m'.parents[n]])
  {
  }

  /** The new node is in hand, and the one that was goes on the stack. */
  lemma {:induction false} NodesPush(m: Machine, c: int, stack: seq<JsonNode?>, node: JsonNode?, made: seq<JsonNode>, x: JsonNode)
    requires WF(m) && NodesOK(m, stack, node, made) && Step(m, c).Go? && NodeTop(Step(m, c).m) > NodeTop(m)
    ensures NodeTop(m) < 32
    ensures NodesOK(Step(m, c).m, if NodeTop(m) >= 0 then stack[NodeTop(m) := node] else stack, x, made + [x])
  {
  }

  lemma {:induction false} NodesStay(m: Machine, c: int, stack: seq<JsonNode?>, node: JsonNode?, made: seq<JsonNode>)
    requires WF(m) && NodesOK(m, stack, node, made) && Step(m, c).Go? && NodeTop(Step(m, c).m) <= NodeTop(m)
    ensures var m' := Step(m, c).m;
      && 0 <= NodeTop(m') < 32 && node != null && m'.parents == m.parents
      && HandId(m, m') < |made| && node == made[HandId(m, m')]
      && NodesOK(m', stack, if NodeTop(m') < NodeTop(m) then stack[NodeTop(m')] else node, made)
  {
  }

  /** The children of node p, in the order in which they were made. */
  ghost function Children(made: seq<JsonNode>, parents: seq<int>, p: int): seq<JsonNode>
    requires |made| == |parents|
  {
    if made == [] then []
    else
      var last := |made| - 1;
      Children(made[..last], parents[..last], p) + if parents[last] == p then [made[last]] else []
  }

  lemma {:induction false} OneChildMore(made: seq<JsonNode>, parents: seq<int>, x: JsonNode, q: int, p: int)
    requires |made| == |parents|
    ensures Children(made + [x], parents + [q], p) == Children(made, parents, p) + if q == p then [x] else []
  {
    assert (made + [x])[..|made|] == made && (parents + [q])[..|made|] == parents;
  }

  lemma {:induction false} NoChildYet(made: seq<JsonNode>, parents: seq<int>, p: int)
    requires |made| == |parents| <= p && forall i :: 0 <= i < |parents| ==> parents[i] < i
    ensures Children(made, parents, p) == []
  {
    if made != [] {
      NoChildYet(made[..|made| - 1], parents[..|made| - 1], p);
    }
  }

  /** The nodes are linked as the list of parents says. */
  ghost predicate Tree(made: seq<JsonNode>, parents: seq<int>)
    reads made`parent, made`child
  {
    && |made| == |parents| && Rooted(parents)
    && (forall i, j :: 0 <= i < j < |made| ==> made[i] != made[j])
    && (forall i :: 0 <= i < |made| ==> made[i].parent == if parents[i] < 0 then null else made[parents[i]])
    && (forall i :: 0 <= i < |made| ==> made[i].child == Children(made, parents, i))
  }

  ghost function Lookup<V>(notes: map<nat, V>, i: nat): Option<V> {
    if i in notes then Some(notes[i]) else None
  }

  /** The nodes hold what the machine has noted. */
  ghost predicate Filled(made: seq<JsonNode>, k: Notes)
    reads made`isArray, made`isObject, made`name, made`value
  {
    forall i :: 0 <= i < |made| ==> FilledAt(made[i], i, k)
  }

  ghost predicate FilledAt(node: JsonNode, i: nat, k: Notes)
    reads node`isArray, node`isObject, node`name, node`value
  {
    && node.isArray == (i in k.arrays) && node.isObject == (i in k.objects)
    && node.name == Lookup(k.names, i) && node.value == Lookup(k.values, i)
  }

  /** A new node below another one, or the root. */
  method Add(parent: JsonNode?, ghost made: seq<JsonNode>, ghost parents: seq<int>, ghost p: int) returns (node: JsonNode)
    requires Tree(made, parents) && (if parents == [] then p == -1 else 0 <= p < |parents|)
    requires parent == (if p < 0 then null else made[p])
    modifies (if parent == null then {} else {parent})`child
    ensures fresh(node) && Tree(made + [node], parents + [p])
    ensures !node.isArray && !node.isObject && node.name == None && node.value == None
  {
    hide Children;
    node := new JsonNode();
    if parent != null {
      parent.child := parent.child + [node];
    }
    node.parent := parent;
    forall i | 0 <= i <= |made|
      ensures (made + [node])[i].child == Children(made + [node], parents + [p], i)
    {
      OneChildMore(made, parents, node, p, i);
      if i == |made| {
        NoChildYet(made, parents, i);
      } else {
        assert (made + [node])[i] == made[i] && old(made[i].child) == Children(made, parents, i);
      }
    }
  }

  // ----- json_parse -----

  /** The number of the node in hand while c is looked at. */
  ghost function HandId(m: Machine, m': Machine): nat {
    if NodeTop(m') > NodeTop(m) || Reading(m) then m'.item
    else if m.frames != [] then m.frames[|m.frames| - 1].id else 0
  }

  /** What the loop does with marks and text, by the old and the new state. */
  ghost predicate Written(k: Notes, k': Notes, cs: State, ns: State, id: nat, c: Code, cross: bool) {
    && k'.arrays == k.arrays + (if IsStruct(ns) && c == '[' as int then {id} else {})
    && k'.objects == k.objects + (if IsStruct(ns) && c == '{' as int then {id} else {})
    && if ns == Esc then k'.text == k.text && k'.names == k.names && k'.values == k.values
       else if IsRecord(cs) && !IsRecord(ns) then
         && k'.text == []
         && k'.names == (if cs == Name then k.names[id := k.text] else k.names)
         && k'.values == (if cs != Name then k.values[id := Scalar(cs, k.text)] else k.values)
       else
         && k'.text == (if cross || IsRecord(cs) then k.text + [c] else k.text)
         && k'.names == k.names && k'.values == k.values
  }

  ghost predicate WrittenBy(m: Machine, k: Notes, c: Code)
    requires Step(m, c).Go?
  {
    var m' := Step(m, c).m;
    Written(k, Note(k, m, c), StateOf(m), StateOf(m'), HandId(m, m'), c, Cross(StateOf(m), c))
  }

  lemma {:induction false} WritesArray(m: Machine, k: Notes, c: Code)
    requires WF(m) && Step(m, c).Go? && m.mode.Inside? && Kind(m) == Array
    ensures WrittenBy(m, k, c)
  {
    hide Rooted;
  }

  lemma {:induction false} WritesObject(m: Machine, k: Notes, c: Code)
    requires WF(m) && Step(m, c).Go? && m.mode.Inside? && Kind(m) != Array
    ensures WrittenBy(m, k, c)
  {
    hide Rooted;
  }

  lemma {:induction false} WritesName(m: Machine, k: Notes, c: Code)
    requires WF(m) && Step(m, c).Go? && (m.mode == Pending(Name) || m.mode == Pending(Str))
    ensures WrittenBy(m, k, c)
  {
    hide Rooted;
  }

  lemma {:induction false} WritesWord(m: Machine, k: Notes, c: Code)
    requires WF(m) && Step(m, c).Go? && (m.mode == Pending(Number) || m.mode == Pending(Other))
    ensures WrittenBy(m, k, c)
  {
    hide Rooted;
  }

  lemma {:induction false} WritesBody(m: Machine, k: Notes, c: Code)
    requires WF(m) && Step(m, c).Go? && (m.mode == Pending(Body) || m.mode == Pending(Colon))
    ensures WrittenBy(m, k, c)
  {
    hide Rooted;
  }

  lemma {:induction false} WritesOther(m: Machine, k: Notes, c: Code)
    requires WF(m) && Step(m, c).Go? && (m.mode.Escaped? || m.mode.After?)
    ensures WrittenBy(m, k, c)
  {
    hide Rooted;
  }

  /** The notes of the machine, as the loop writes them. */
  lemma {:induction false} Writes(m: Machine, k: Notes, c: Code)
    requires WF(m) && Step(m, c).Go?
    ensures WrittenBy(m, k, c)
  {
    hide WrittenBy; hide Step; hide Rooted;
    match m.mode {
      case Inside =>
        if Kind(m) == Array {
          WritesArray(m, k, c);
        } else {
          WritesObject(m, k, c);
        }
      case Pending(what) =>
        if what == Name || what == Str {
          WritesName(m, k, c);
        } else if what == Number || what == Other {
          WritesWord(m, k, c);
        } else {
          WritesBody(m, k, c);
        }
      case _ => WritesOther(m, k, c);
    }
  }

  lemma {:induction false} FilledMore(m: Machine, k: Notes, made: seq<JsonNode>, x: JsonNode)
    requires Complete(m, k) && |made| == |m.parents| && Filled(made, k)
    requires !x.isArray && !x.isObject && x.name == None && x.value == None
    ensures Filled(made + [x], k)
  {
  }

  /** The part of the loop that is about the marks and the text of the node in hand. */
  method Write(node: JsonNode, cstate: State, nstate: State, c: Code, cross0: bool, text: seq<Code>,
               ghost made: seq<JsonNode>, ghost id: nat, ghost k: Notes, ghost k': Notes)
    returns (text': seq<Code>, cross: bool)
    requires Filled(made, k) && id < |made| && node == made[id] && forall i, j :: 0 <= i < j < |made| ==> made[i] != made[j]
    requires Written(k, k', cstate, nstate, id, c, cross0) && text == k.text
    modifies node`isArray, node`isObject, node`name, node`value
    ensures Filled(made, k') && text' == k'.text
    ensures cross ==> cross0 && (nstate == Esc || (IsRecord(cstate) && !IsRecord(nstate)))
  {
    text', cross := text, cross0;
    if IsStruct(nstate) {
      if c == '[' as int {
        node.isArray := true;
      } else if c == '{' as int {
        node.isObject := true;
      }
    }
    if nstate != Esc {
      if IsRecord(cstate) && !IsRecord(nstate) {
        if cstate == Name {
          node.name := Some(text);
        } else {
          node.value := Some(Scalar(cstate, text));
        }
        text' := [];
      } else if cross || IsRecord(cstate) {
        text' := text + [c];
        cross := false;
      }
    }
    forall i | 0 <= i < |made| ensures FilledAt(made[i], i, k') {
      assert old(FilledAt(made[i], i, k));
      assert i != id ==> made[i] != node;
    }
  }

  ghost predicate Built(m: Machine, k: Notes, nstack: array<JsonNode?>, node: JsonNode?, made: seq<JsonNode>)
    reads nstack, made
  {
    && nstack.Length == 32 && NodesOK(m, nstack[..], node, made) && Tree(made, m.parents)
    && Filled(made, k) && Complete(m, k)
  }

  /** The part of the loop that is about nodes. */
  method OnNodes(node: JsonNode?, nstack: array<JsonNode?>, c: Code, cnpos: int, nnpos: int, cstate: State, nstate: State,
                 cross0: bool, text: seq<Code>, ghost m: Machine, ghost m': Machine, ghost k: Notes, ghost made: seq<JsonNode>)
    returns (node': JsonNode?, text': seq<Code>, cross: bool, ghost made': seq<JsonNode>)
    requires WF(m) && WF(m') && Step(m, c) == Go(m') && Built(m, k, nstack, node, made)
    requires cnpos == NodeTop(m) && nnpos == NodeTop(m') && cstate == StateOf(m) && nstate == StateOf(m')
    requires text == k.text && cross0 == Cross(cstate, c)
    modifies nstack, made
    ensures Built(m', Note(k, m, c), nstack, node', made') && text' == Note(k, m, c).text
    ensures cross ==> cross0 && (nstate == Esc || (IsRecord(cstate) && !IsRecord(nstate)))
    ensures made <= made' && forall i :: |made| <= i < |made'| ==> fresh(made'[i])
  {
    hide Step; hide WF; hide NodesOK; hide Children; hide Rooted; hide StateOf; hide NodeTop; hide Tree; hide Filled;
    hide Complete; hide Written; hide Note; hide Cross; hide HandId;
    Writes(m, k, c);
    StepComplete(m, k, c);
    ghost var id := HandId(m, m');
    node', made' := node, made;
    if nnpos > cnpos {
      var parent := node';
      ghost var stack := nstack[..];
      NodesNew(m, c, stack, node, made);
      ghost var p := m'.parents[|made|];
      if cnpos >= 0 {
        nstack[cnpos] := parent;
      }
      var new_ := Add(parent, made, m.parents, p);
      FilledMore(m, k, made, new_);
      NodesPush(m, c, stack, node, made, new_);
      node', made' := new_, made + [new_];
      TreeDistinct(made', m'.parents);
      text', cross := Write(new_, cstate, nstate, c, cross0, text, made', id, k, Note(k, m, c));
    } else {
      NodesStay(m, c, nstack[..], node, made);
      TreeDistinct(made, m.parents);
      text', cross := Write(node', cstate, nstate, c, cross0, text, made, id, k, Note(k, m, c));
      if nnpos < cnpos {
        node' := nstack[nnpos];
      }
    }
  }

  lemma {:induction false} TreeDistinct(made: seq<JsonNode>, parents: seq<int>)
    requires Tree(made, parents)
    ensures |made| == |parents| && forall i, j :: 0 <= i < j < |made| ==> made[i] != made[j]
  {
  }

  /** The part of the loop that is about states; moved says whether a row was found. */
  method OnStates(sstack: array<State>, c: Code, cstate: State, nstate0: State, cspos: int, nspos: int, ghost moved: bool, ghost m: Machine)
    returns (nstate: State)
    requires WF(m) && sstack.Length == 36 && States(m, sstack[..])
    requires cstate == StateOf(m) && cspos == StateTop(m) && moved == Delta(cstate, c).Some?
    requires if moved then nstate0 == Delta(cstate, c).value.0 && nspos == cspos + Delta(cstate, c).value.2
             else nspos == cspos && nstate0 == cstate
    modifies sstack
    ensures Step(m, c).Go? ==> nstate == StateOf(Step(m, c).m) && States(Step(m, c).m, sstack[..])
  {
    hide Step; hide Delta; hide WF; hide States; hide StateOf; hide StateTop; hide NodeTop;
    Moves(m, c);
    TopInside(m);
    if moved && Step(m, c).Go? {
      StatesStep(m, c, sstack[..]);
    }
    nstate := nstate0;
    if nspos > cspos && cstate != Null {
      sstack[cspos] := cstate;
    } else if nspos < cspos && nstate == Null {
      nstate := sstack[nspos];
    }
  }

  /** The row for the character, and the moves it asks for. */
  method Advance(cstate: State, nstate0: State, c: Code, nspos0: int, nnpos0: int, cross0: bool, ghost m: Machine)
    returns (nspos: int, nnpos: int, nstate: State, cross: bool, ghost moved: bool)
    requires WF(m) && cstate == StateOf(m) && nspos0 == StateTop(m) && nnpos0 == NodeTop(m)
    requires (nstate0 == cstate || cstate == Array) && !cross0
    ensures nnpos >= 32 || nspos >= 36 <==> Step(m, c).Deep?
    ensures nnpos < nnpos0 && nnpos < 0 <==> Step(m, c).Done?
    ensures Step(m, c).Go? ==> nspos == StateTop(Step(m, c).m) && nnpos == NodeTop(Step(m, c).m)
    ensures moved == Delta(cstate, c).Some? && cross == Cross(cstate, c)
    ensures if moved then nstate == Delta(cstate, c).value.0 && nspos == nspos0 + Delta(cstate, c).value.2
            else nspos == nspos0 && nstate == cstate
  {
    hide Step; hide Delta; hide Scan; hide Row; hide WF; hide StateOf; hide StateTop; hide NodeTop; hide Cross;
    nspos, nnpos, nstate, cross := nspos0, nnpos0, nstate0, cross0;
    var major := Search(cstate, c);
    Moves(m, c);
    TopInside(m);
    if major.Some? {
      nnpos := nnpos + major.value.nstack;
      nspos := nspos + major.value.sstack;
      nstate := major.value.to;
      cross := major.value.cross;
    }
    NoCross(cstate, c);
    moved := major.Some?;
  }

  /** json_parse: the nodes made, what they hold, and whether the containers are nested too deep.  The node handed back
      is the first one; on an overflow it is released instead. */
  method Parse(buff: seq<Code>, blank: Code -> bool) returns (overflow: bool, root: JsonNode?, ghost made: seq<JsonNode>)
    ensures overflow <==> Run(Begin, Nothing, buff, 0, blank).out.Deep?
    ensures Tree(made, Run(Begin, Nothing, buff, 0, blank).out.m.parents) && forall i :: 0 <= i < |made| ==> fresh(made[i])
    ensures Filled(made, Run(Begin, Nothing, buff, 0, blank).notes)
    ensures root == if overflow || made == [] then null else made[0]
  {
    hide Step; hide Run; hide Delta; hide Scan; hide Row; hide WF; hide States; hide NodesOK; hide Children; hide Rooted;
    hide StateOf; hide StateTop; hide NodeTop; hide Tree; hide SkipLack; hide Built; hide Filled; hide Note; hide Cross; hide Complete;
    hide IsRecord; hide IsStruct;
    var sstack := new State[36](_ => Null);
    var nstack := new JsonNode?[32](_ => null);
    var cstate, nstate := Array, Null;
    var node: JsonNode? := null;
    var nspos, cspos, nnpos, cnpos := 0, 0, -1, -1;
    var text: seq<Code>, cross := [], false;
    var walk: nat := 0;
    ghost var m, k := Begin, Nothing;
    ghost var goal := Run(m, k, buff, walk, blank);
    made, overflow := [], false;
    BeginFacts(sstack[..], nstack);
    while true
      invariant walk <= |buff| && goal == Run(m, k, buff, walk, blank) && WF(m)
      invariant sstack.Length == 36 && !overflow && text == k.text && !cross
      invariant cstate == StateOf(m) && nspos == cspos == StateTop(m) && nnpos == cnpos == NodeTop(m)
      invariant nspos - nnpos == if cstate == Wait || cstate == Esc then 2 else 1
      invariant nstate == cstate || cstate == Array
      invariant States(m, sstack[..]) && Built(m, k, nstack, node, made)
      invariant fresh(sstack) && fresh(nstack) && forall i :: 0 <= i < |made| ==> fresh(made[i])
      decreases |buff| - walk
    {
      RunStep(m, k, buff, walk, blank);
      walk := if !IsRecord(cstate) then SkipLack(buff, walk, blank) else walk;
      if walk == |buff| {
        break;
      }
      var c := buff[walk];
      StepWF(m, c);
      ghost var r := Step(m, c);
      ghost var moved;
      nspos, nnpos, nstate, cross, moved := Advance(cstate, nstate, c, nspos, nnpos, cross, m);
      if nnpos >= 32 || nspos >= 36 {
        overflow := true;
        break;
      }
      nstate := OnStates(sstack, c, cstate, nstate, cspos, nspos, moved, m);
      if nnpos < cnpos && nnpos < 0 {
        break;
      }
      CrossEnds(m, c);
      node, text, cross, made := OnNodes(node, nstack, c, cnpos, nnpos, cstate, nstate, cross, text, m, r.m, k, made);
      cnpos, cspos, cstate := nnpos, nspos, nstate;
      walk := walk + 1;
      m, k := r.m, Note(k, m, c);
      TopsDiffer(m);
    }
    RootIs(m, k, nstack, node, made);
    if cnpos > 0 {
      node := nstack[0];
    }
    root := if overflow then null else node;
  }

  lemma {:induction false} NoCross(cs: State, c: Code)
    ensures Delta(cs, c).None? ==> !Cross(cs, c)
  {
  }

  /** A character that crosses is taken up at once. */
  lemma {:induction false} CrossEnds(m: Machine, c: Code)
    requires WF(m) && Step(m, c).Go?
    ensures Cross(StateOf(m), c) ==> StateOf(Step(m, c).m) != Esc && !IsRecord(StateOf(m))
  {
  }

  lemma {:induction false} RootIs(m: Machine, k: Notes, stack: array<JsonNode?>, node: JsonNode?, made: seq<JsonNode>)
    requires WF(m) && Built(m, k, stack, node, made)
    ensures stack.Length == 32 && Tree(made, m.parents) && Filled(made, k)
    ensures NodeTop(m) < 0 ==> made == [] && node == null
    ensures NodeTop(m) == 0 ==> made != [] && node == made[0]
    ensures NodeTop(m) > 0 ==> made != [] && stack[0] == made[0]
  {
  }

  lemma {:induction false} TopInside(m: Machine)
    requires WF(m)
    ensures 0 <= StateTop(m) < 36 && NodeTop(m) < 32 && StateOf(m) != Null
  {
  }

  lemma {:induction false} BeginFacts(sstack: seq<State>, nstack: array<JsonNode?>)
    requires |sstack| == 36 && nstack.Length == 32
    ensures WF(Begin) && States(Begin, sstack) && Built(Begin, Nothing, nstack, null, [])
    ensures StateOf(Begin) == Array && StateTop(Begin) == 0 && NodeTop(Begin) == -1
  {
  }

  // ----- two texts -----

  lemma {:induction false} OneGo(m: Machine, k: Notes, buff: seq<Code>, w: nat, blank: Code -> bool)
    requires w < |buff| && !blank(buff[w]) && Step(m, buff[w]).Go?
    ensures Run(m, k, buff, w, blank) == Run(Step(m, buff[w]).m, Note(k, m, buff[w]), buff, w + 1, blank)
  {
  }

  /** In the text {[ the object is marked as an array too. */
  lemma {:induction false} StrayBracket(buff: seq<Code>, blank: Code -> bool)
    requires buff == ['{' as int, '[' as int] && !blank(buff[0]) && !blank(buff[1])
    ensures var r := Run(Begin, Nothing, buff, 0, blank); r.out.Done? && 0 in r.notes.arrays && 0 in r.notes.objects
  {
    OneGo(Begin, Nothing, buff, 0, blank);
    var m, k := Step(Begin, buff[0]).m, Note(Nothing, Begin, buff[0]);
    assert m.frames == [Frame(Object, 0)];
    OneGo(m, k, buff, 1, blank);
  }

  /** In the text [1] the number is never stored, for the bracket that ends it ends the run. */
  lemma {:induction false} LastNumberLost(buff: seq<Code>, blank: Code -> bool)
    requires buff == ['[' as int, '1' as int, ']' as int] && forall i :: 0 <= i < 3 ==> !blank(buff[i])
    ensures var r := Run(Begin, Nothing, buff, 0, blank);
      r.out.Done? && r.out.m.parents == [-1, 0] && Reading(r.out.m) && r.out.m.item == 1 && r.notes.values == map[]
  {
    OneGo(Begin, Nothing, buff, 0, blank);
    var m, k := Step(Begin, buff[0]).m, Note(Nothing, Begin, buff[0]);
    assert m.frames == [Frame(Array, 0)];
    OneGo(m, k, buff, 1, blank);
    var m1, k1 := Step(m, buff[1]).m, Note(k, m, buff[1]);
    assert m1.frames == [Frame(Array, 0)] && m1.mode == Pending(Number);
  }
}
